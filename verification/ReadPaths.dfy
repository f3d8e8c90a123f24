/** read_block on a RAID-Z device: from a pointer and the bytes on the disks to the block. */
module ReadPaths {
  import opened Bytes
  import opened BlockDevice
  import opened RaidzLayout
  import opened RaidzRepair
  import Devices = RaidzDevice
  import Fletcher4
  import Lz4Agreement
  import Lz4Encode
  import Lz4Format
  import Lz4Python
  import LzjbCompress
  import LzjbDecompress

  // ----- the numbers of the algorithms in a pointer -----

  const FLETCHER_4 := 7

  const COMP_TYPE_ON := 1
  const COMP_TYPE_OFF := 2
  const COMP_TYPE_LZJB := 3
  const COMP_TYPE_GZIP_1 := 5
  const COMP_TYPE_GZIP_5 := 9
  const COMP_TYPE_GZIP_9 := 13
  const COMP_TYPE_LZ4 := 15

  /** `zlib.decompress`; `None` is an exception. */
  type Gunzip = seq<byte> -> Option<seq<byte>>

  function ChecksumOf(bp: BlockPtr): Fletcher4.Sums {
    Fletcher4.Sums(LittleEndian(bp[96..104]), LittleEndian(bp[104..112]),
                   LittleEndian(bp[112..120]), LittleEndian(bp[120..128]))
  }

  /** What is left of the stored bytes; `None` when they do not decompress, or not with anything known. */
  function Unpack(comp: nat, d: seq<byte>, lsize: nat, gunzip: Gunzip): Option<seq<byte>> {
    if comp == COMP_TYPE_OFF then Some(d)
    else if comp == COMP_TYPE_LZ4 then
      match Lz4Python.PyDecode(d)
      case Returns(dst) => Some(dst)
      case _ => None
    else if comp == COMP_TYPE_GZIP_1 || comp == COMP_TYPE_GZIP_5 || comp == COMP_TYPE_GZIP_9 then gunzip(d)
    else if comp == COMP_TYPE_ON || comp == COMP_TYPE_LZJB then
      match LzjbDecompress.Decompressed(d, lsize)
      case Returns(dst) => Some(dst)
      case _ => None
    else None
  }

  /** The transfer a pointer asks for: at least one sector. */
  function Asked(dev: Devices.RaidzDevice, bp: BlockPtr, dva: nat): (io: Io)
    requires dev.Valid()
    ensures io.Valid() && io.Columns() >= 2
  {
    var sector := Pow2(dev.ashift);
    var io := dev.Transfer(Offset(bp, dva), if PSize(bp) < sector then sector else PSize(bp));
    AtLeastOne(io.size, sector);
    ColumnsAre(io);
    io
  }

  lemma AtLeastOne(size: nat, sector: nat)
    requires 1 <= sector <= size
    ensures Div(size, sector) >= 1
  {
  }

  /** Checksum and decompression of the bytes read. */
  function Checked(bp: BlockPtr, d: seq<byte>, gunzip: Gunzip): Read {
    var data := Unpack(Compression(bp), d, LSize(bp), gunzip);
    if ChecksumKind(bp) != FLETCHER_4 then Got(data, true)
    else
      match Fletcher4.Checksum(Cut(d, 0, PSize(bp)))
      case None => Throws
      case Some(sums) => Got(data, sums == ChecksumOf(bp))
  }

  /** What is read before it is cut or padded. */
  function RawOf(dev: Devices.RaidzDevice, disks: Disks, bp: BlockPtr, dva: nat, gunzip: Gunzip): Read
    requires dev.Valid()
  {
    if Empty(bp) then Got(None, false)
    else if Gang(bp, dva) then Throws
    else if Offset(bp, dva) == 0 && PSize(bp) == 0 then Got(None, true)
    else if Embedded(bp) then Got(Unpack(Compression(bp), EmbeddedData(bp), LSize(bp), gunzip), true)
    else
      match dev.Physical(disks, Offset(bp, dva), Asked(dev, bp, dva).size)
      case Raised => Throws
      case Nothing =>
        if ChecksumKind(bp) == FLETCHER_4 || Compression(bp) == COMP_TYPE_OFF then Throws else Got(None, true)
      case Data(d) => Checked(bp, d, gunzip)
  }

  function Finish(r: Read, lsize: nat): (f: Read)
    ensures f.Got? && f.data.Some? ==> |f.data.value| == lsize
  {
    if r.Got? && r.data.Some? then Got(Some(Normalise(r.data.value, lsize)), r.cksum) else r
  }

  function ReadOf(dev: Devices.RaidzDevice, disks: Disks, bp: BlockPtr, dva: nat, gunzip: Gunzip): (r: Read)
    requires dev.Valid()
    ensures r.Got? && r.data.Some? ==> |r.data.value| == LSize(bp)
  {
    Finish(RawOf(dev, disks, bp, dva, gunzip), LSize(bp))
  }

  // ----- the method -----

  method Decompress(comp: nat, data: Option<seq<byte>>, lsize: nat, gunzip: Gunzip) returns (r: Option<seq<byte>>)
    requires comp != COMP_TYPE_OFF
    ensures r == if data.None? then None else Unpack(comp, data.value, lsize, gunzip)
  {
    if data.None? {
      return None;
    } else if comp == COMP_TYPE_LZ4 {
      var outcome := Lz4Python.Decompress(data.value);
      r := if outcome.Returns? then Some(outcome.dst) else None;
    } else if comp == COMP_TYPE_GZIP_1 || comp == COMP_TYPE_GZIP_5 || comp == COMP_TYPE_GZIP_9 {
      r := gunzip(data.value);
    } else if comp == COMP_TYPE_ON || comp == COMP_TYPE_LZJB {
      var outcome := LzjbDecompress.Decompress(data.value, lsize);
      r := if outcome.Returns? then Some(outcome.dst) else None;
    } else {
      r := None;
    }
  }

  /** read_block, without debugging output. */
  method ReadBlock(dev: Devices.RaidzDevice, disks: Disks, bp: BlockPtr, dva: nat, gunzip: Gunzip) returns (r: Read)
    requires dev.Valid()
    ensures r == ReadOf(dev, disks, bp, dva, gunzip)
  {
    var cksum := true;
    if Empty(bp) {
      return Got(None, false);
    }
    if Gang(bp, dva) {
      return Throws;
    }
    var offset, psize := Offset(bp, dva), PSize(bp);
    if offset == 0 && psize == 0 {
      return Got(None, cksum);
    }
    var lsize := LSize(bp);
    var data: Option<seq<byte>>;
    if Embedded(bp) {
      data := Some(EmbeddedData(bp));
    } else {
      var rsize := psize;
      if psize < Pow2(dev.ashift) {
        rsize := Pow2(dev.ashift);
      }
      var physical := dev.ReadPhysical(disks, offset, rsize);
      if physical.Raised? {
        return Throws;
      }
      data := if physical.Data? then Some(physical.bytes) else None;
      if ChecksumKind(bp) == FLETCHER_4 {
        if data.None? {
          return Throws;
        }
        var sums := Fletcher4.Compute(Cut(data.value, 0, psize));
        if sums.None? {
          return Throws;
        }
        if sums.value != ChecksumOf(bp) {
          cksum := false;
        }
      }
    }
    if Compression(bp) != COMP_TYPE_OFF {
      data := Decompress(Compression(bp), data, lsize, gunzip);
      if data.None? {
        return Got(None, cksum);
      }
    }
    if data.None? {
      return Throws;
    }
    return Got(Some(Normalise(data.value, lsize)), cksum);
  }

  /** The device as trees and files see it. */
  ghost function AsVdev(dev: Devices.RaidzDevice, disks: Disks, gunzip: Gunzip): Vdev
    requires dev.Valid()
  {
    (bp: BlockPtr, dva: nat) => ReadOf(dev, disks, bp, dva, gunzip)
  }

  // ----- blocks that were written, and a device that was lost -----

  /** Where the source stops reading. */
  const LIMIT := 8 * 1024 * 1024 * 1024 * 1024

  /** The disks after `stored` was written at the address in the block pointer, with single parity. */
  ghost function AfterWrite(dev: Devices.RaidzDevice, disks: Disks, bp: BlockPtr, dva: nat, stored: seq<byte>): Disks
    requires dev.Valid() && |stored| == DataSize(Asked(dev, bp, dva))
  {
    var io := Asked(dev, bp, dva);
    WriteAll(disks, io.Layout(), Encoded(io, stored), io.Columns())
  }

  /** After that, anything was done to device `lost`. */
  ghost predicate Written(dev: Devices.RaidzDevice, disks: Disks, disks': Disks, bp: BlockPtr, dva: nat,
      stored: seq<byte>, lost: nat)
  {
    && dev.Valid() && dev.nparity == 1 && Offset(bp, dva) <= LIMIT && |stored| == DataSize(Asked(dev, bp, dva))
    && Damaged(AfterWrite(dev, disks, bp, dva, stored), disks', lost)
  }

  /** A device that repairs the lost disk. */
  ghost predicate Repairs(dev: Devices.RaidzDevice, lost: nat) {
    dev.repair && |dev.bad| >= 1 && dev.bad[0] == lost
  }

  /** A pointer to data on the disks. */
  ghost predicate OnDisk(bp: BlockPtr, dva: nat) {
    !Empty(bp) && !Gang(bp, dva) && !Embedded(bp)
  }

  /** Its checksum, if it is one that is looked at, is that of the stored bytes. */
  ghost predicate Describes(bp: BlockPtr, stored: seq<byte>) {
    ChecksumKind(bp) == FLETCHER_4 ==> Fletcher4.Checksum(Cut(stored, 0, PSize(bp))) == Some(ChecksumOf(bp))
  }

  /** Repair gives back the stored bytes. */
  lemma RepairedRead(dev: Devices.RaidzDevice, disks: Disks, disks': Disks, bp: BlockPtr, dva: nat,
      stored: seq<byte>, lost: nat, gunzip: Gunzip)
    requires Written(dev, disks, disks', bp, dva, stored, lost) && Repairs(dev, lost) && OnDisk(bp, dva)
    ensures RawOf(dev, disks', bp, dva, gunzip) == Checked(bp, stored, gunzip)
  {
    SurvivesOneDisk(Asked(dev, bp, dva), stored, disks, disks', dev.bad);
  }

  lemma DeviceBound(io: Io, c: nat)
    requires io.Valid() && io.Columns() >= 2 && c < io.Columns()
    ensures io.Layout()[c].devidx < io.dcols
  {
    LayoutColumn(io, c);
  }

  /** And so does a read without repair when nothing was done to any of its devices. */
  lemma IntactRead(dev: Devices.RaidzDevice, disks: Disks, disks': Disks, bp: BlockPtr, dva: nat,
      stored: seq<byte>, none: nat, gunzip: Gunzip)
    requires Written(dev, disks, disks', bp, dva, stored, none) && none >= dev.dcols
    requires !dev.repair && OnDisk(bp, dva)
    ensures RawOf(dev, disks', bp, dva, gunzip) == Checked(bp, stored, gunzip)
  {
    var io := Asked(dev, bp, dva);
    forall c | 1 <= c < io.Columns() ensures Pieces(disks', io.Layout())[c] == Encoded(io, stored)[c] {
      SurvivingColumn(io, stored, disks, disks', none, c);
      DeviceBound(io, c);
    }
    UnrepairedIff(io, stored, disks, disks', dev.bad, none);
  }

  /** What is not on the disks, or above the limit, is read without them. */
  lemma OffDiskReadsSame(dev: Devices.RaidzDevice, dev': Devices.RaidzDevice, disks: Disks, disks': Disks,
      bp: BlockPtr, dva: nat, gunzip: Gunzip)
    requires dev.Valid() && dev'.Valid() && (OnDisk(bp, dva) ==> Offset(bp, dva) > LIMIT)
    ensures RawOf(dev, disks, bp, dva, gunzip) == RawOf(dev', disks', bp, dva, gunzip)
  {
  }

  /** `c` and then zero bytes, to the end of the last sector. */
  ghost predicate IsPadded(stored: seq<byte>, c: seq<byte>) {
    |c| <= |stored| && stored == c + Zeros(|stored| - |c|)
  }

  /** A block as it is, padded to sectors, comes back cut or padded to its length. */
  lemma PlainBlockSurvives(dev: Devices.RaidzDevice, disks: Disks, disks': Disks, bp: BlockPtr, dva: nat,
      stored: seq<byte>, lost: nat, gunzip: Gunzip)
    requires Written(dev, disks, disks', bp, dva, stored, lost) && Repairs(dev, lost) && OnDisk(bp, dva)
    requires Describes(bp, stored) && Compression(bp) == COMP_TYPE_OFF
    ensures ReadOf(dev, disks', bp, dva, gunzip) == Got(Some(Normalise(stored, LSize(bp))), true)
  {
    RepairedRead(dev, disks, disks', bp, dva, stored, lost, gunzip);
  }

  lemma NormaliseWhole(block: seq<byte>)
    ensures Normalise(block, |block|) == block
  {
  }

  lemma UnpacksLzjb(bp: BlockPtr, block: seq<byte>, c: seq<byte>, stored: seq<byte>, gunzip: Gunzip)
    requires LzjbCompress.Compressed(block) == Some(c) && IsPadded(stored, c) && Describes(bp, stored)
    requires LSize(bp) == |block| && (Compression(bp) == COMP_TYPE_LZJB || Compression(bp) == COMP_TYPE_ON)
    ensures Finish(Checked(bp, stored, gunzip), LSize(bp)) == Got(Some(block), true)
  {
    LzjbCompress.RoundTrip(block, Zeros(|stored| - |c|));
    NormaliseWhole(block);
  }

  /** Compress a block with LZJB, pad it to sectors, write it with parity, lose any one disk, read with
      repair: the block comes back, with its checksum right. */
  lemma LzjbBlockSurvives(dev: Devices.RaidzDevice, disks: Disks, disks': Disks, bp: BlockPtr, dva: nat,
      block: seq<byte>, c: seq<byte>, stored: seq<byte>, lost: nat, gunzip: Gunzip)
    requires LzjbCompress.Compressed(block) == Some(c) && IsPadded(stored, c)
    requires Written(dev, disks, disks', bp, dva, stored, lost) && Repairs(dev, lost) && OnDisk(bp, dva)
    requires LSize(bp) == |block| && (Compression(bp) == COMP_TYPE_LZJB || Compression(bp) == COMP_TYPE_ON)
    requires Describes(bp, stored)
    ensures ReadOf(dev, disks', bp, dva, gunzip) == Got(Some(block), true)
  {
    RepairedRead(dev, disks, disks', bp, dva, stored, lost, gunzip);
    UnpacksLzjb(bp, block, c, stored, gunzip);
  }

  /** The same for an LZ4 frame that obeys the end-of-block conditions and is followed by two zero bytes. */
  lemma Lz4BlockSurvives(dev: Devices.RaidzDevice, disks: Disks, disks': Disks, bp: BlockPtr, dva: nat,
      b: Lz4Format.Block, padding: seq<byte>, lost: nat, gunzip: Gunzip)
    requires Lz4Encode.WellFormed(b, 0) && |Lz4Encode.Encode(b, 0)| < 0x8000_0000
    requires b.rest.Cons? || |b.first.literals| >= 4
    requires |padding| >= 2 && Lz4Format.LittleEndian16(padding, 0) == 0
    requires Written(dev, disks, disks', bp, dva, Lz4Agreement.Frame(b, padding), lost)
    requires Describes(bp, Lz4Agreement.Frame(b, padding))
    requires Repairs(dev, lost) && OnDisk(bp, dva) && LSize(bp) == Lz4Format.TotalProduced(b)
    requires Compression(bp) == COMP_TYPE_LZ4
    ensures ReadOf(dev, disks', bp, dva, gunzip) == Got(Some(Lz4Format.Expand([], b)), true)
  {
    RepairedRead(dev, disks, disks', bp, dva, Lz4Agreement.Frame(b, padding), lost, gunzip);
    Lz4Agreement.BothDecode(b, padding, Lz4Format.TotalProduced(b));
    NormaliseWhole(Lz4Format.Expand([], b));
  }

  /** Damage that is not repaired does not go unnoticed: if what the device gives differs from what the
      pointer describes in one or two words below the stored size, the checksum is wrong. */
  lemma DamageIsNoticed(dev: Devices.RaidzDevice, disks: Disks, bp: BlockPtr, dva: nat, stored: seq<byte>,
      d: seq<byte>, i: nat, j: nat, gunzip: Gunzip)
    requires dev.Valid() && OnDisk(bp, dva) && ChecksumKind(bp) == FLETCHER_4 && Describes(bp, stored)
    requires dev.Physical(disks, Offset(bp, dva), Asked(dev, bp, dva).size) == Devices.Data(d)
    requires Fletcher4.SameBut(Cut(stored, 0, PSize(bp)), Cut(d, 0, PSize(bp)), i, j, j)
    requires Cut(stored, 0, PSize(bp)) != Cut(d, 0, PSize(bp))
    ensures var r := ReadOf(dev, disks, bp, dva, gunzip); r.Got? && !r.cksum
  {
    Fletcher4.DetectsTwo(Cut(stored, 0, PSize(bp)), Cut(d, 0, PSize(bp)), i, j);
  }
}
