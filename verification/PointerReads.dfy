/** read_block at pointers written from their fields: what it returns, in the numbers of the format. */
module PointerReads {
  import opened Bytes
  import opened BlockDevice
  import opened BlockPointers
  import opened RaidzLayout
  import opened RaidzRepair
  import opened ReadPaths
  import Devices = RaidzDevice
  import Fletcher4
  import Lz4Agreement
  import Lz4Encode
  import Lz4Format
  import Lz4Python
  import LzjbCompress
  import LzjbDecompress

  /** The transfer of copy `dva`: from its sector on, the stored size, but at least one sector of the device. */
  function TransferOf(dev: Devices.RaidzDevice, p: Pointer, dva: nat): (io: Io)
    requires dev.Valid() && p.Valid()
    ensures io.Valid() && io.Columns() >= 2
  {
    var sector := Pow2(dev.ashift);
    var io := Io(512 * p.Dva(dva).sector, if 512 * p.psize < sector then sector else 512 * p.psize,
                 dev.ashift, dev.dcols, dev.nparity);
    AtLeastOne(io.size, sector);
    ColumnsAre(io);
    io
  }

  lemma AskedIs(dev: Devices.RaidzDevice, p: Pointer, dva: nat)
    requires dev.Valid() && p.Valid()
    ensures Asked(dev, p.Bytes(), dva) == TransferOf(dev, p, dva)
  {
    ReadsSizes(p);
    ReadsDva(p, dva);
  }

  /** `stored` was written at address `dva` of the block pointer, with single parity, within the first 8 TiB,
      and after that anything was done to device `lost`, which is repaired. */
  ghost predicate Stores(dev: Devices.RaidzDevice, disks: Disks, disks': Disks, p: Pointer, dva: nat,
      stored: seq<byte>, lost: nat)
  {
    && dev.Valid() && dev.nparity == 1 && dev.repair && |dev.bad| >= 1 && dev.bad[0] == lost
    && p.Valid() && !p.Null() && !p.Dva(dva).gang && 512 * p.Dva(dva).sector <= 0x800_0000_0000
    && var io := TransferOf(dev, p, dva);
    && |stored| == DataSize(io)
    && Damaged(WriteAll(disks, io.Layout(), Encoded(io, stored), io.Columns()), disks', lost)
  }

  /** The pointer has the Fletcher-4 sums of the stored bytes, or a checksum of another kind. */
  ghost predicate SumsRight(p: Pointer, stored: seq<byte>) {
    p.kind == 7 ==> Fletcher4.Checksum(Cut(stored, 0, 512 * p.psize)) == Some(p.checksum)
  }

  lemma StoredIsWritten(dev: Devices.RaidzDevice, disks: Disks, disks': Disks, p: Pointer, dva: nat,
      stored: seq<byte>, lost: nat)
    requires Stores(dev, disks, disks', p, dva, stored, lost)
    ensures Written(dev, disks, disks', p.Bytes(), dva, stored, lost) && Repairs(dev, lost) && OnDisk(p.Bytes(), dva)
  {
    AskedIs(dev, p, dva);
    ReadsSizes(p);
    ReadsDva(p, dva);
    ReadsEmpty(p);
  }

  lemma ChecksumRead(p: Pointer)
    requires p.Valid()
    ensures ChecksumOf(p.Bytes()) == p.checksum
  {
    ReadsSums(p);
  }

  lemma SumsDescribe(p: Pointer, stored: seq<byte>)
    requires p.Valid()
    ensures SumsRight(p, stored) <==> Describes(p.Bytes(), stored)
  {
    ReadsSizes(p);
    ChecksumRead(p);
  }

  // ----- blocks that come back -----

  /** Whatever is read at a pointer to a block of `lsize` sectors has exactly `512 * lsize` bytes. */
  lemma ReadHasLength(dev: Devices.RaidzDevice, disks: Disks, p: Pointer, dva: nat, gunzip: Gunzip)
    requires dev.Valid() && p.Valid()
    ensures var r := ReadOf(dev, disks, p.Bytes(), dva, gunzip);
      r.Got? && r.data.Some? ==> |r.data.value| == 512 * p.lsize
  {
    ReadsSizes(p);
  }

  /** A block of `lsize` sectors, stored as it is and perhaps padded, comes back whole. */
  lemma PlainBlockReturns(dev: Devices.RaidzDevice, disks: Disks, disks': Disks, p: Pointer, dva: nat,
      block: seq<byte>, padding: seq<byte>, lost: nat, gunzip: Gunzip)
    requires Stores(dev, disks, disks', p, dva, block + padding, lost) && SumsRight(p, block + padding)
    requires p.comp == 2 && |block| == 512 * p.lsize
    ensures ReadOf(dev, disks', p.Bytes(), dva, gunzip) == Got(Some(block), true)
  {
    var stored := block + padding;
    ReadsSizes(p);
    SumsDescribe(p, stored);
    StoredIsWritten(dev, disks, disks', p, dva, stored, lost);
    PlainBlockSurvives(dev, disks, disks', p.Bytes(), dva, stored, lost, gunzip);
    assert Normalise(stored, |block|) == block;
  }

  lemma LzjbBlockReturns(dev: Devices.RaidzDevice, disks: Disks, disks': Disks, p: Pointer, dva: nat,
      block: seq<byte>, c: seq<byte>, stored: seq<byte>, lost: nat, gunzip: Gunzip)
    requires LzjbCompress.Compressed(block) == Some(c) && IsPadded(stored, c)
    requires Stores(dev, disks, disks', p, dva, stored, lost) && SumsRight(p, stored)
    requires (p.comp == 3 || p.comp == 1) && |block| == 512 * p.lsize
    ensures ReadOf(dev, disks', p.Bytes(), dva, gunzip) == Got(Some(block), true)
  {
    ReadsSizes(p);
    SumsDescribe(p, stored);
    StoredIsWritten(dev, disks, disks', p, dva, stored, lost);
    LzjbBlockSurvives(dev, disks, disks', p.Bytes(), dva, block, c, stored, lost, gunzip);
  }

  lemma Lz4BlockReturns(dev: Devices.RaidzDevice, disks: Disks, disks': Disks, p: Pointer, dva: nat,
      b: Lz4Format.Block, padding: seq<byte>, lost: nat, gunzip: Gunzip)
    requires Lz4Encode.WellFormed(b, 0) && |Lz4Encode.Encode(b, 0)| < 0x8000_0000
    requires b.rest.Cons? || |b.first.literals| >= 4
    requires |padding| >= 2 && Lz4Format.LittleEndian16(padding, 0) == 0
    requires Stores(dev, disks, disks', p, dva, Lz4Agreement.Frame(b, padding), lost)
    requires SumsRight(p, Lz4Agreement.Frame(b, padding))
    requires p.comp == 15 && Lz4Format.TotalProduced(b) == 512 * p.lsize
    ensures ReadOf(dev, disks', p.Bytes(), dva, gunzip) == Got(Some(Lz4Format.Expand([], b)), true)
  {
    var stored := Lz4Agreement.Frame(b, padding);
    ReadsSizes(p);
    SumsDescribe(p, stored);
    StoredIsWritten(dev, disks, disks', p, dva, stored, lost);
    Lz4BlockSurvives(dev, disks, disks', p.Bytes(), dva, b, padding, lost, gunzip);
  }

  // ----- numbers of algorithms, verdicts and failures -----

  /** Which decompressor a number stands for. */
  lemma UnpackByNumber(comp: nat, d: seq<byte>, lsize: nat, gunzip: Gunzip)
    ensures comp == 2 ==> Unpack(comp, d, lsize, gunzip) == Some(d)
    ensures comp == 5 || comp == 9 || comp == 13 ==> Unpack(comp, d, lsize, gunzip) == gunzip(d)
    ensures comp == 1 || comp == 3 ==>
      var r := LzjbDecompress.Decompressed(d, lsize);
      Unpack(comp, d, lsize, gunzip) == if r.Returns? then Some(r.dst) else None
    ensures comp == 15 ==>
      var r := Lz4Python.PyDecode(d);
      Unpack(comp, d, lsize, gunzip) == if r.Returns? then Some(r.dst) else None
    ensures comp !in {1, 2, 3, 5, 9, 13, 15} ==> Unpack(comp, d, lsize, gunzip) == None
  {
  }

  /** The verdict on stored bytes: right for other kinds of checksum, and for Fletcher-4 if and only if the
      sums of the first `512 * psize` bytes are those in the pointer. */
  lemma VerdictIs(dev: Devices.RaidzDevice, disks: Disks, disks': Disks, p: Pointer, dva: nat, stored: seq<byte>,
      lost: nat, gunzip: Gunzip)
    requires Stores(dev, disks, disks', p, dva, stored, lost)
    ensures var r := ReadOf(dev, disks', p.Bytes(), dva, gunzip); r.Got? ==> (r.cksum <==> SumsRight(p, stored))
    ensures ReadOf(dev, disks', p.Bytes(), dva, gunzip).Throws? <==>
      p.kind == 7 && Fletcher4.Checksum(Cut(stored, 0, 512 * p.psize)).None?
  {
    StoredIsWritten(dev, disks, disks', p, dva, stored, lost);
    RepairedRead(dev, disks, disks', p.Bytes(), dva, stored, lost, gunzip);
    ReadsSizes(p);
    ChecksumRead(p);
  }

  /** What is not read from the disks: pointers that are all zero, gang blocks, and what lies above 8 TiB. */
  lemma NotRead(dev: Devices.RaidzDevice, disks: Disks, p: Pointer, dva: nat, gunzip: Gunzip)
    requires dev.Valid() && p.Valid()
    ensures p.Null() ==> ReadOf(dev, disks, p.Bytes(), dva, gunzip) == Got(None, false)
    ensures !p.Null() && p.Dva(dva).gang ==> ReadOf(dev, disks, p.Bytes(), dva, gunzip) == Throws
    ensures !p.Null() && !p.Dva(dva).gang && 512 * p.Dva(dva).sector > 0x800_0000_0000 ==>
      ReadOf(dev, disks, p.Bytes(), dva, gunzip) == if p.kind == 7 || p.comp == 2 then Throws else Got(None, true)
  {
    ReadsSizes(p);
    ReadsDva(p, dva);
    ReadsEmpty(p);
  }

  /** Embedded data is decompressed, with no checksum, and cut or padded to its length in bytes; a stored
      size of zero is taken for no data. */
  lemma EmbeddedRead(dev: Devices.RaidzDevice, disks: Disks, e: Embedding, dva: nat, gunzip: Gunzip)
    requires dev.Valid() && e.Valid()
    ensures ReadOf(dev, disks, e.Bytes(), dva, gunzip) ==
      if e.psize == 0 then Got(None, true)
      else
        match Unpack(e.comp, e.data, e.lsize, gunzip)
        case None => Got(None, true)
        case Some(d) => Got(Some(Normalise(d, e.lsize)), true)
  {
    ReadsEmbedding(e);
  }
}
