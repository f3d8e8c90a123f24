/** ObjectSet: dnodes by number, from the data blocks under the object set's own dnode. */
module ObjectSets {
  import opened Arithmetic
  import opened Bytes
  import opened BlockDevice
  import opened BlockTrees
  import opened BlockTreeCache

  const DNODE_SIZE := 512

  datatype Answer = Raises | Nothing | Dnode(data: seq<byte>)

  /** What one block lookup leaves for the cache; `None` data is a missing or unreadable block. */
  datatype Fetching = FetchRaises | Fetches(data: Option<seq<byte>>)

  /** The read of the last copy that is tried, from `dva` on; a wrong checksum does not matter. */
  function FirstData(v: Vdev, bp: BlockPtr, dva: nat): Read
    requires dva <= 2
    decreases 2 - dva
  {
    var r := v(bp, dva);
    if r.Throws? || HasData(r) || dva == 2 then r else FirstData(v, bp, dva + 1)
  }

  /** Copy `dva` is tried: no earlier one raised or had data. */
  ghost predicate Tried(v: Vdev, bp: BlockPtr, dva: nat) {
    forall d: nat | d < dva :: v(bp, d).Got? && !HasData(v(bp, d))
  }

  ghost predicate HasBytes(r: Read) {
    r.Got? && exists d :: r.data == Some(d) && |d| >= 1
  }

  /** The first copy that has data is taken, whatever its checksum, unless one before it raises; without
      one, the third. */
  lemma FirstDataTakes(v: Vdev, bp: BlockPtr, dva: nat)
    requires dva <= 2 && (dva == 2 || v(bp, dva).Throws? || HasBytes(v(bp, dva)))
    requires forall d: nat | d < dva :: v(bp, d).Got? && !HasBytes(v(bp, d))
    ensures FirstData(v, bp, 0) == v(bp, dva)
  {
    assert forall d: nat :: HasBytes(v(bp, d)) <==> HasData(v(bp, d));
    assert dva > 0 ==> v(bp, 0).Got? && !HasData(v(bp, 0));
    assert dva > 1 ==> v(bp, 1).Got? && !HasData(v(bp, 1));
    assert dva < 2 ==> FirstData(v, bp, dva) == v(bp, dva);
    assert FirstData(v, bp, 0) == FirstData(v, bp, if dva == 0 then 0 else 1);
  }

  function Fetched(r: Read): Fetching {
    if r.Throws? then FetchRaises else Fetches(r.data)
  }

  function Fetch(v: Vdev, found: Lookup): Fetching {
    match found
    case Raised => FetchRaises
    case Missing => Fetches(None)
    case Found(bp) => Fetched(FirstData(v, bp, 0))
  }

  function DnodeIn(data: Option<seq<byte>>, dnid: nat): Answer {
    match data
    case None => Nothing
    case Some(d) => Dnode(Cut(d, DNODE_SIZE * dnid, DNODE_SIZE * (dnid + 1)))
  }

  /** The answer for a dnode number, with neither cache. Python divides towards minus infinity. */
  function DnodeOf(v: Vdev, levels: nat, root: seq<BlockPtr>, perBlock: nat, id: int): Answer {
    if perBlock == 0 then Raises
    else
      match Fetch(v, LookupIn(v, levels, root, id / perBlock))
      case FetchRaises => Raises
      case Fetches(data) => DnodeIn(data, id % perBlock)
  }

  /** When a dnode number raises, and when it has no answer. */
  lemma DnodeFails(v: Vdev, levels: nat, root: seq<BlockPtr>, perBlock: nat, id: int)
    ensures var raised := perBlock == 0
        || var found := LookupIn(v, levels, root, id / perBlock);
           found.Raised? || (found.Found? && FirstData(v, found.bp, 0).Throws?);
      && (DnodeOf(v, levels, root, perBlock, id).Raises? <==> raised)
      && (DnodeOf(v, levels, root, perBlock, id).Nothing? <==>
            (!raised && var found := LookupIn(v, levels, root, id / perBlock);
              found.Missing? || FirstData(v, found.bp, 0).data == None))
  {
  }

  // ----- the object, flat -----

  /** Leaf `i` is there, and its block has the full size. */
  ghost predicate GoodLeaf(v: Vdev, leaf: Lookup, size: nat) {
    && leaf.Found? && FirstData(v, leaf.bp, 0).Got? && FirstData(v, leaf.bp, 0).data.Some?
    && |FirstData(v, leaf.bp, 0).data.value| == size
  }

  ghost predicate GoodLeaves(v: Vdev, leaves: seq<Lookup>, size: nat) {
    forall i :: 0 <= i < |leaves| ==> GoodLeaf(v, leaves[i], size)
  }

  ghost function Blocks(v: Vdev, leaves: seq<Lookup>, size: nat): (blocks: seq<seq<byte>>)
    requires GoodLeaves(v, leaves, size)
    ensures |blocks| == |leaves| && forall i :: 0 <= i < |blocks| ==> |blocks[i]| == size
    ensures forall i :: 0 <= i < |blocks| ==> Fetch(v, leaves[i]) == Fetches(Some(blocks[i]))
  {
    seq(|leaves|, i requires 0 <= i < |leaves| =>
      assert GoodLeaf(v, leaves[i], size);
      FirstData(v, leaves[i].bp, 0).data.value)
  }

  lemma WithinBlock(id: nat, perBlock: nat, b: nat)
    requires perBlock >= 1 && b == id / perBlock
    ensures DNODE_SIZE * id == b * (DNODE_SIZE * perBlock) + DNODE_SIZE * (id % perBlock)
    ensures DNODE_SIZE * (id % perBlock) + DNODE_SIZE <= DNODE_SIZE * perBlock
  {
    Division(id, perBlock);
    assert b * (DNODE_SIZE * perBlock) == DNODE_SIZE * (b * perBlock);
  }

  lemma CutOfSlice(s: seq<byte>, at: nat, size: nat, from: nat)
    requires at + size <= |s| && from + DNODE_SIZE <= size
    ensures s[at + from..at + from + DNODE_SIZE] == Cut(s[at..at + size], from, from + DNODE_SIZE)
  {
    var u, w := s[at + from..at + from + DNODE_SIZE], Cut(s[at..at + size], from, from + DNODE_SIZE);
    assert |u| == |w| == DNODE_SIZE;
    forall i | 0 <= i < DNODE_SIZE ensures u[i] == w[i] {
      assert w[i] == s[at..at + size][from + i] == s[at + (from + i)];
    }
  }

  lemma DnodeInBlock(v: Vdev, levels: nat, root: seq<BlockPtr>, perBlock: nat, leaves: seq<Lookup>, id: nat)
    requires levels >= 1 && |root| >= 1 && (levels == 1 ==> |root| == 1) && perBlock >= 1
    requires leaves <= TreeLeaves(v, levels, root) && id / perBlock < |leaves|
    requires GoodLeaves(v, leaves, DNODE_SIZE * perBlock)
    ensures var block := Blocks(v, leaves, DNODE_SIZE * perBlock)[id / perBlock];
      DnodeOf(v, levels, root, perBlock, id)
        == Dnode(Cut(block, DNODE_SIZE * (id % perBlock), DNODE_SIZE * (id % perBlock) + DNODE_SIZE))
  {
    LookupLeaf(v, levels, root, id / perBlock);
  }

  lemma SliceOfBlocks(blocks: seq<seq<byte>>, perBlock: nat, id: nat)
    requires perBlock >= 1 && id / perBlock < |blocks|
    requires forall i :: 0 <= i < |blocks| ==> |blocks[i]| == DNODE_SIZE * perBlock
    ensures DNODE_SIZE * id + DNODE_SIZE <= |Flatten(blocks)|
    ensures Flatten(blocks)[DNODE_SIZE * id..DNODE_SIZE * id + DNODE_SIZE]
      == Cut(blocks[id / perBlock], DNODE_SIZE * (id % perBlock), DNODE_SIZE * (id % perBlock) + DNODE_SIZE)
  {
    var b, size := id / perBlock, DNODE_SIZE * perBlock;
    PieceAt(blocks, size, b);
    WithinBlock(id, perBlock, b);
    CutOfSlice(Flatten(blocks), b * size, size, DNODE_SIZE * (id % perBlock));
  }

  /** Dnode `id` is the bytes from `512 * id` on of the object's blocks, put together left to right, as
      far as they are all there. */
  lemma DnodeIsSlice(v: Vdev, levels: nat, root: seq<BlockPtr>, perBlock: nat, leaves: seq<Lookup>, id: nat)
    requires levels >= 1 && |root| >= 1 && (levels == 1 ==> |root| == 1) && perBlock >= 1
    requires leaves <= TreeLeaves(v, levels, root) && id / perBlock < |leaves|
    requires GoodLeaves(v, leaves, 512 * perBlock)
    ensures var flat := Flatten(Blocks(v, leaves, 512 * perBlock));
      && 512 * id + 512 <= |flat|
      && DnodeOf(v, levels, root, perBlock, id) == Dnode(flat[512 * id..512 * id + 512])
  {
    DnodeInBlock(v, levels, root, perBlock, leaves, id);
    SliceOfBlocks(Blocks(v, leaves, DNODE_SIZE * perBlock), perBlock, id);
  }

  // ----- the cached form -----

  class ObjectSet {
    const vdev: Vdev
    const broken: bool
    const dnodesPerBlock: nat
    const blocktree: BlockTree
    var blockCache: map<int, Option<seq<byte>>>

    ghost predicate Valid()
      reads this, blocktree
    {
      && blocktree.Valid() && blocktree.vdev == vdev
      && forall b :: b in blockCache ==> Fetch(vdev, blocktree.Lookup(b)) == Fetches(blockCache[b])
    }

    constructor (vdev: Vdev, blocktree: BlockTree, dnodesPerBlock: nat, broken: bool)
      requires blocktree.Valid() && blocktree.vdev == vdev
      ensures Valid() && this.vdev == vdev && this.broken == broken
      ensures this.blocktree == blocktree && this.dnodesPerBlock == dnodesPerBlock
    {
      this.vdev, this.broken, this.dnodesPerBlock, this.blocktree := vdev, broken, dnodesPerBlock, blocktree;
      blockCache := map[];
    }

    method ReadAnyCopy(bp: BlockPtr) returns (r: Read)
      ensures r == FirstData(vdev, bp, 0)
    {
      var dva := 0;
      r := Got(None, false);
      while dva < 3
        invariant 0 <= dva <= 3
        invariant FirstData(vdev, bp, 0) == if dva < 3 then FirstData(vdev, bp, dva) else r
      {
        r := vdev(bp, dva);
        if r.Throws? || HasData(r) { break; }
        dva := dva + 1;
      }
    }

    method GetDnode(id: int) returns (r: Answer)
      requires Valid()
      modifies `blockCache, blocktree`cache
      ensures Valid()
      ensures r == if broken then Nothing else DnodeOf(vdev, blocktree.levels, blocktree.root, dnodesPerBlock, id)
    {
      if broken { return Nothing; }
      if dnodesPerBlock == 0 { return Raises; }
      var blockid, data := id / dnodesPerBlock, None;
      if blockid in blockCache {
        data := blockCache[blockid];
      } else {
        var found := blocktree.Get(blockid);
        if found.Raised? { return Raises; }
        if found.Found? {
          var read := ReadAnyCopy(found.bp);
          if read.Throws? { return Raises; }
          data := read.data;
        }
        blockCache := blockCache[blockid := data];
      }
      if data.None? { return Nothing; }
      var dnid := id % dnodesPerBlock;
      return Dnode(Cut(data.value, dnid * DNODE_SIZE, (dnid + 1) * DNODE_SIZE));
    }
  }
}
