/** What a reader of a pool sees after one disk is lost: the same blocks, trees and files. */
module PoolReads {
  import opened BlockDevice
  import opened BlockTrees
  import opened FileReader
  import opened FileReads
  import opened Files
  import opened Pools
  import opened RaidzRepair
  import opened ReadPaths
  import opened VdevsAlike
  import Devices = RaidzDevice
  import Objects = ObjectSets

  // ----- one block -----

  /** Copy `dva` of a block, if it is on the disks, is what a transfer wrote that was not overwritten. */
  ghost predicate Stored(dev: Devices.RaidzDevice, writes: seq<Write>, bp: BlockPtr, dva: nat)
    requires dev.Valid() && AllFit(writes, dev.dcols, dev.ashift)
  {
    OnDisk(bp, dva) && Offset(bp, dva) <= LIMIT ==>
      exists k: nat :: Live(writes, k, dev.dcols, dev.ashift) && writes[k].io == Asked(dev, bp, dva)
  }

  /** All was written with single parity, and then anything was done to one disk; `before` is the device
      as it was, and `dev` the one that repairs the lost disk. */
  ghost predicate OneDiskLost(dev: Devices.RaidzDevice, before: Devices.RaidzDevice, disks: Disks,
      writes: seq<Write>, disks': Disks, lost: nat)
  {
    && dev.Valid() && dev.nparity == 1 && Repairs(dev, lost) && !before.repair
    && dev.dcols == before.dcols && dev.nparity == before.nparity && dev.ashift == before.ashift
    && AllFit(writes, dev.dcols, dev.ashift)
    && Damaged(PutAll(disks, writes, dev.dcols, dev.ashift), disks', lost)
  }

  /** What lies in the pool lies there as if it had been written last. */
  lemma IsWritten(dev: Devices.RaidzDevice, now: Disks, disks': Disks, w: Write, bp: BlockPtr, dva: nat, lost: nat)
    requires dev.Valid() && dev.nparity == 1 && w.io == Asked(dev, bp, dva) && |w.stored| == DataSize(w.io)
    requires Offset(bp, dva) <= LIMIT && Damaged(now, disks', lost)
    requires Pieces(now, w.io.Layout()) == Encoded(w.io, w.stored)
    ensures Written(dev, now, disks', bp, dva, w.stored, lost)
  {
    var cols, pieces := w.io.Layout(), Encoded(w.io, w.stored);
    forall device: nat, address: nat | device != lost
      ensures disks'(device, address) == AfterWrite(dev, now, bp, dva, w.stored)(device, address)
    {
      assert forall c :: 0 <= c < |cols| ==> ReadCol(now, cols[c]) == Pieces(now, cols)[c];
      Rewrite(now, cols, pieces, |cols|, device, address);
    }
  }

  lemma PoolKept(disks: Disks, writes: seq<Write>, k: nat, dcols: nat, ashift: nat)
    requires AllFit(writes, dcols, ashift) && Live(writes, k, dcols, ashift)
    ensures writes[k].io.Columns() >= 2
    ensures Pieces(PutAll(disks, writes, dcols, ashift), writes[k].io.Layout())
         == Encoded(writes[k].io, writes[k].stored)
  {
    var w := writes[k];
    assert |Encoded(w.io, w.stored)| >= 2;
    forall c | 0 <= c < w.io.Columns()
      ensures Pieces(PutAll(disks, writes, dcols, ashift), w.io.Layout())[c] == Encoded(w.io, w.stored)[c]
    {
      Kept(disks, writes, k, c, dcols, ashift);
    }
  }

  /** A copy of a block that lies in the pool is read as before, with all that depends on it. */
  lemma BlockSurvives(dev: Devices.RaidzDevice, before: Devices.RaidzDevice, disks: Disks, writes: seq<Write>,
      disks': Disks, lost: nat, bp: BlockPtr, dva: nat, gunzip: Gunzip)
    requires OneDiskLost(dev, before, disks, writes, disks', lost) && Stored(dev, writes, bp, dva)
    ensures before.Valid()
    ensures RawOf(dev, disks', bp, dva, gunzip)
         == RawOf(before, PutAll(disks, writes, dev.dcols, dev.ashift), bp, dva, gunzip)
  {
    var now := PutAll(disks, writes, dev.dcols, dev.ashift);
    if OnDisk(bp, dva) && Offset(bp, dva) <= LIMIT {
      var k: nat :| Live(writes, k, dev.dcols, dev.ashift) && writes[k].io == Asked(dev, bp, dva);
      PoolKept(disks, writes, k, dev.dcols, dev.ashift);
      IsWritten(dev, now, disks', writes[k], bp, dva, lost);
      IsWritten(before, now, now, writes[k], bp, dva, dev.dcols);
      RepairedRead(dev, now, disks', bp, dva, writes[k].stored, lost, gunzip);
      IntactRead(before, now, now, bp, dva, writes[k].stored, dev.dcols, gunzip);
    } else {
      OffDiskReadsSame(dev, before, disks', now, bp, dva, gunzip);
    }
  }

  /** The vdev of the pool before the loss. */
  ghost function Intact(before: Devices.RaidzDevice, disks: Disks, writes: seq<Write>, gunzip: Gunzip): Vdev
    requires before.Valid() && AllFit(writes, before.dcols, before.ashift)
  {
    AsVdev(before, PutAll(disks, writes, before.dcols, before.ashift), gunzip)
  }

  lemma CopySurvives(dev: Devices.RaidzDevice, before: Devices.RaidzDevice, disks: Disks, writes: seq<Write>,
      disks': Disks, lost: nat, bp: BlockPtr, dva: nat, gunzip: Gunzip)
    requires OneDiskLost(dev, before, disks, writes, disks', lost) && Stored(dev, writes, bp, dva)
    ensures before.Valid()
    ensures Intact(before, disks, writes, gunzip)(bp, dva) == AsVdev(dev, disks', gunzip)(bp, dva)
  {
    BlockSurvives(dev, before, disks, writes, disks', lost, bp, dva, gunzip);
  }

  // ----- what has to lie in the pool -----

  /** Of an indirect block: the copies up to the first that is verified. */
  ghost function Nodes(dev: Devices.RaidzDevice, writes: seq<Write>, v: Vdev): BlockPtr -> bool
    requires dev.Valid() && AllFit(writes, dev.dcols, dev.ashift)
  {
    (bp: BlockPtr) => forall d: nat | d <= 2 && Tried(v, bp, d) :: Stored(dev, writes, bp, d)
  }

  /** Of a block of data: the first copy. */
  ghost function DataBlocks(dev: Devices.RaidzDevice, writes: seq<Write>): BlockPtr -> bool
    requires dev.Valid() && AllFit(writes, dev.dcols, dev.ashift)
  {
    (bp: BlockPtr) => Stored(dev, writes, bp, 0)
  }

  /** Of a block of dnodes: the copies up to the first that has data. */
  ghost function DnodeBlocks(dev: Devices.RaidzDevice, writes: seq<Write>, v: Vdev): BlockPtr -> bool
    requires dev.Valid() && AllFit(writes, dev.dcols, dev.ashift)
  {
    (bp: BlockPtr) => forall d: nat | d <= 2 && Objects.Tried(v, bp, d) :: Stored(dev, writes, bp, d)
  }

  /** Of an indirect block whose first copy is verified, and of a block of dnodes whose first copy has data,
      that copy is all that has to lie there, whatever addresses the other two have. */
  lemma FirstCopySuffices(dev: Devices.RaidzDevice, writes: seq<Write>, v: Vdev, bp: BlockPtr)
    requires dev.Valid() && AllFit(writes, dev.dcols, dev.ashift)
    ensures Verified(v(bp, 0)) ==> (Nodes(dev, writes, v)(bp) <==> Stored(dev, writes, bp, 0))
    ensures HasData(v(bp, 0)) ==> (DnodeBlocks(dev, writes, v)(bp) <==> Stored(dev, writes, bp, 0))
  {
    assert Tried(v, bp, 0) && Objects.Tried(v, bp, 0);
  }

  lemma NodesAlike(dev: Devices.RaidzDevice, before: Devices.RaidzDevice, disks: Disks, writes: seq<Write>,
      disks': Disks, lost: nat, gunzip: Gunzip)
    requires OneDiskLost(dev, before, disks, writes, disks', lost) && before.Valid()
    ensures var v, v' := Intact(before, disks, writes, gunzip), AsVdev(dev, disks', gunzip);
      forall bp :: Nodes(dev, writes, v)(bp) ==> NodeAlike(v, v', bp)
  {
    var v, v' := Intact(before, disks, writes, gunzip), AsVdev(dev, disks', gunzip);
    forall bp | Nodes(dev, writes, v)(bp) ensures NodeAlike(v, v', bp) {
      forall d: nat | d <= 2 && Tried(v, bp, d) ensures v(bp, d) == v'(bp, d) {
        CopySurvives(dev, before, disks, writes, disks', lost, bp, d, gunzip);
      }
    }
  }

  lemma DataBlocksAlike(dev: Devices.RaidzDevice, before: Devices.RaidzDevice, disks: Disks, writes: seq<Write>,
      disks': Disks, lost: nat, gunzip: Gunzip)
    requires OneDiskLost(dev, before, disks, writes, disks', lost) && before.Valid()
    ensures var v, v' := Intact(before, disks, writes, gunzip), AsVdev(dev, disks', gunzip);
      forall bp :: DataBlocks(dev, writes)(bp) ==> LeafAlike(v, v', bp)
  {
    var v, v' := Intact(before, disks, writes, gunzip), AsVdev(dev, disks', gunzip);
    forall bp | DataBlocks(dev, writes)(bp) ensures LeafAlike(v, v', bp) {
      CopySurvives(dev, before, disks, writes, disks', lost, bp, 0, gunzip);
    }
  }

  lemma DnodeBlocksAlike(dev: Devices.RaidzDevice, before: Devices.RaidzDevice, disks: Disks, writes: seq<Write>,
      disks': Disks, lost: nat, gunzip: Gunzip)
    requires OneDiskLost(dev, before, disks, writes, disks', lost) && before.Valid()
    ensures var v, v' := Intact(before, disks, writes, gunzip), AsVdev(dev, disks', gunzip);
      forall bp :: DnodeBlocks(dev, writes, v)(bp) ==> DnodesAlike(v, v', bp)
  {
    var v, v' := Intact(before, disks, writes, gunzip), AsVdev(dev, disks', gunzip);
    forall bp | DnodeBlocks(dev, writes, v)(bp) ensures DnodesAlike(v, v', bp) {
      forall d: nat | d <= 2 && Objects.Tried(v, bp, d) ensures v(bp, d) == v'(bp, d) {
        CopySurvives(dev, before, disks, writes, disks', lost, bp, d, gunzip);
      }
    }
  }

  // ----- trees, dnodes and files -----

  /** A lookup whose indirect blocks lie in the pool gives what it gave before. */
  lemma LookupSurvives(dev: Devices.RaidzDevice, before: Devices.RaidzDevice, disks: Disks, writes: seq<Write>,
      disks': Disks, lost: nat, gunzip: Gunzip, levels: nat, root: seq<BlockPtr>, id: int)
    requires OneDiskLost(dev, before, disks, writes, disks', lost) && before.Valid()
    requires var v := Intact(before, disks, writes, gunzip);
      Visits(v, levels, root, id, Nodes(dev, writes, v), _ => true)
    ensures LookupIn(AsVdev(dev, disks', gunzip), levels, root, id)
         == LookupIn(Intact(before, disks, writes, gunzip), levels, root, id)
  {
    var v, v' := Intact(before, disks, writes, gunzip), AsVdev(dev, disks', gunzip);
    NodesAlike(dev, before, disks, writes, disks', lost, gunzip);
    LookupAlike(v, v', levels, root, id, Nodes(dev, writes, v), _ => true);
  }

  /** And so does a dnode whose block lies there too. */
  lemma DnodeSurvives(dev: Devices.RaidzDevice, before: Devices.RaidzDevice, disks: Disks, writes: seq<Write>,
      disks': Disks, lost: nat, gunzip: Gunzip, levels: nat, root: seq<BlockPtr>, perBlock: nat, id: int)
    requires OneDiskLost(dev, before, disks, writes, disks', lost) && before.Valid()
    requires var v := Intact(before, disks, writes, gunzip);
      perBlock >= 1 ==>
        Visits(v, levels, root, id / perBlock, Nodes(dev, writes, v), DnodeBlocks(dev, writes, v))
    ensures Objects.DnodeOf(AsVdev(dev, disks', gunzip), levels, root, perBlock, id)
         == Objects.DnodeOf(Intact(before, disks, writes, gunzip), levels, root, perBlock, id)
  {
    var v, v' := Intact(before, disks, writes, gunzip), AsVdev(dev, disks', gunzip);
    NodesAlike(dev, before, disks, writes, disks', lost, gunzip);
    DnodeBlocksAlike(dev, before, disks, writes, disks', lost, gunzip);
    DnodeAlike(v, v', levels, root, perBlock, id, Nodes(dev, writes, v), DnodeBlocks(dev, writes, v));
  }

  /** A reader of a file that lies in the pool reads on, from wherever it stands, as it would have before. */
  lemma ReadsSurvive(dev: Devices.RaidzDevice, before: Devices.RaidzDevice, disks: Disks, writes: seq<Write>,
      disks': Disks, lost: nat, gunzip: Gunzip, levels: nat, root: seq<BlockPtr>, maxBlkid: nat, blksize: nat,
      badAsZeros: bool, s: Reader, n: nat)
    requires OneDiskLost(dev, before, disks, writes, disks', lost) && before.Valid()
    requires badAsZeros ==> blksize > 0
    requires var v := Intact(before, disks, writes, gunzip);
      FileVisits(v, levels, root, maxBlkid, Nodes(dev, writes, v), DataBlocks(dev, writes))
    ensures Reading(FileOf(AsVdev(dev, disks', gunzip), levels, root, maxBlkid, blksize, badAsZeros), s, n)
         == Reading(FileOf(Intact(before, disks, writes, gunzip), levels, root, maxBlkid, blksize, badAsZeros), s, n)
  {
    var v, v' := Intact(before, disks, writes, gunzip), AsVdev(dev, disks', gunzip);
    NodesAlike(dev, before, disks, writes, disks', lost, gunzip);
    DataBlocksAlike(dev, before, disks, writes, disks', lost, gunzip);
    FileAlike(v, v', levels, root, maxBlkid, blksize, badAsZeros, Nodes(dev, writes, v), DataBlocks(dev, writes));
    ReadingAlike(FileOf(v, levels, root, maxBlkid, blksize, badAsZeros),
                 FileOf(v', levels, root, maxBlkid, blksize, badAsZeros), s, n);
  }

  /** A file that lies in the pool is extracted as before: the indirect blocks that are visited, up to their
      first verified copies, and the first copies of the blocks of data. */
  lemma FileSurvives(dev: Devices.RaidzDevice, before: Devices.RaidzDevice, disks: Disks, writes: seq<Write>,
      disks': Disks, lost: nat, gunzip: Gunzip, levels: nat, bp: BlockPtr, maxBlkid: nat, blksize: nat, size: nat)
    requires OneDiskLost(dev, before, disks, writes, disks', lost) && before.Valid()
    requires var v := Intact(before, disks, writes, gunzip);
      ExtractionVisits(v, levels, bp, maxBlkid, size, Nodes(dev, writes, v), DataBlocks(dev, writes))
    ensures ExtractionOf(AsVdev(dev, disks', gunzip), levels, bp, maxBlkid, blksize, size)
         == ExtractionOf(Intact(before, disks, writes, gunzip), levels, bp, maxBlkid, blksize, size)
  {
    var v, v' := Intact(before, disks, writes, gunzip), AsVdev(dev, disks', gunzip);
    NodesAlike(dev, before, disks, writes, disks', lost, gunzip);
    DataBlocksAlike(dev, before, disks, writes, disks', lost, gunzip);
    ExtractionAlike(v, v', levels, bp, maxBlkid, blksize, size, Nodes(dev, writes, v), DataBlocks(dev, writes));
  }
}
