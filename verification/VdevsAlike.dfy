/** On what lookups, dnodes, reads and extractions depend: on the copies they try of the blocks they visit,
    and on nothing else. Vdevs that agree on those agree on the results, exceptions included. */
module VdevsAlike {
  import opened Bytes
  import opened BlockDevice
  import opened BlockTrees
  import opened FileReader
  import opened FileReads
  import opened Files
  import Objects = ObjectSets

  // ----- one block -----

  /** An indirect block: the copies up to the first verified one. */
  ghost predicate NodeAlike(v: Vdev, v': Vdev, bp: BlockPtr) {
    forall d: nat | d <= 2 && Tried(v, bp, d) :: v(bp, d) == v'(bp, d)
  }

  /** A block of data: the first copy. */
  ghost predicate LeafAlike(v: Vdev, v': Vdev, bp: BlockPtr) {
    v(bp, 0) == v'(bp, 0)
  }

  /** A block of dnodes: the copies up to the first with data. */
  ghost predicate DnodesAlike(v: Vdev, v': Vdev, bp: BlockPtr) {
    forall d: nat | d <= 2 && Objects.Tried(v, bp, d) :: v(bp, d) == v'(bp, d)
  }

  lemma LoadAlike(v: Vdev, v': Vdev, bp: BlockPtr)
    requires NodeAlike(v, v', bp)
    ensures Load(v, bp) == Load(v', bp)
  {
    assert Tried(v, bp, 0);
    if v(bp, 0).Got? && !Verified(v(bp, 0)) {
      assert Tried(v, bp, 1);
      if v(bp, 1).Got? && !Verified(v(bp, 1)) { assert Tried(v, bp, 2); }
    }
    assert LoadFrom(v, bp, 0) == LoadFrom(v', bp, 0);
  }

  lemma FirstDataAlike(v: Vdev, v': Vdev, bp: BlockPtr)
    requires DnodesAlike(v, v', bp)
    ensures Objects.FirstData(v, bp, 0) == Objects.FirstData(v', bp, 0)
  {
    assert Objects.Tried(v, bp, 0);
    if v(bp, 0).Got? && !HasData(v(bp, 0)) {
      assert Objects.Tried(v, bp, 1);
      if v(bp, 1).Got? && !HasData(v(bp, 1)) { assert Objects.Tried(v, bp, 2); }
    }
  }

  // ----- lookups -----

  /** Following the digits visits indirect blocks with `node` only, and ends, if it gets there, at a pointer
      with `leaf`. */
  ghost predicate WalkVisits(v: Vdev, bpa: seq<BlockPtr>, digits: seq<nat>, node: BlockPtr -> bool,
      leaf: BlockPtr -> bool)
    requires |digits| >= 1
    decreases |digits|
  {
    digits[0] < |bpa| ==>
      var bp := bpa[digits[0]];
      if |digits| == 1 then leaf(bp)
      else node(bp) && (Load(v, bp).Branch? ==> WalkVisits(v, Load(v, bp).bpa, digits[1..], node, leaf))
  }

  /** The same of a lookup. */
  ghost predicate Visits(v: Vdev, levels: nat, root: seq<BlockPtr>, id: int, node: BlockPtr -> bool,
      leaf: BlockPtr -> bool)
  {
    id >= 0 && levels >= 1 && root != [] ==>
      if levels == 1 then leaf(root[0]) else WalkVisits(v, root, Digits(id, |root|, levels - 1), node, leaf)
  }

  lemma {:induction false} WalkAlike(v: Vdev, v': Vdev, bpa: seq<BlockPtr>, digits: seq<nat>,
      node: BlockPtr -> bool, leaf: BlockPtr -> bool)
    requires |digits| >= 1 && WalkVisits(v, bpa, digits, node, leaf)
    requires forall bp :: node(bp) ==> NodeAlike(v, v', bp)
    ensures Walk(v, bpa, digits) == Walk(v', bpa, digits)
    ensures var r := Walk(v, bpa, digits); r.Found? ==> leaf(r.bp)
    decreases |digits|
  {
    if |digits| > 1 && digits[0] < |bpa| {
      LoadAlike(v, v', bpa[digits[0]]);
      if Load(v, bpa[digits[0]]).Branch? {
        WalkAlike(v, v', Load(v, bpa[digits[0]]).bpa, digits[1..], node, leaf);
      }
    }
  }

  /** A lookup depends on the indirect blocks it visits, up to their first verified copies. */
  lemma LookupAlike(v: Vdev, v': Vdev, levels: nat, root: seq<BlockPtr>, id: int, node: BlockPtr -> bool,
      leaf: BlockPtr -> bool)
    requires Visits(v, levels, root, id, node, leaf) && forall bp :: node(bp) ==> NodeAlike(v, v', bp)
    ensures LookupIn(v, levels, root, id) == LookupIn(v', levels, root, id)
    ensures var r := LookupIn(v, levels, root, id); r.Found? ==> leaf(r.bp)
  {
    if id >= 0 && levels >= 2 && root != [] {
      WalkAlike(v, v', root, Digits(id, |root|, levels - 1), node, leaf);
    }
  }

  lemma BlockAlike(v: Vdev, v': Vdev, levels: nat, root: seq<BlockPtr>, k: nat, node: BlockPtr -> bool,
      leaf: BlockPtr -> bool)
    requires Visits(v, levels, root, k, node, leaf) && forall bp :: node(bp) ==> NodeAlike(v, v', bp)
    requires forall bp :: leaf(bp) ==> LeafAlike(v, v', bp)
    ensures BlockOf(v, levels, root, k) == BlockOf(v', levels, root, k)
  {
    LookupAlike(v, v', levels, root, k, node, leaf);
    var found := LookupIn(v, levels, root, k);
    if found.Found? { assert LeafAlike(v, v', found.bp); }
  }

  /** A dnode depends on those and on its block, up to the first copy with data. */
  lemma DnodeAlike(v: Vdev, v': Vdev, levels: nat, root: seq<BlockPtr>, perBlock: nat, id: int,
      node: BlockPtr -> bool, leaf: BlockPtr -> bool)
    requires perBlock >= 1 ==> Visits(v, levels, root, id / perBlock, node, leaf)
    requires forall bp :: node(bp) ==> NodeAlike(v, v', bp)
    requires forall bp :: leaf(bp) ==> DnodesAlike(v, v', bp)
    ensures Objects.DnodeOf(v, levels, root, perBlock, id) == Objects.DnodeOf(v', levels, root, perBlock, id)
  {
    if perBlock >= 1 {
      LookupAlike(v, v', levels, root, id / perBlock, node, leaf);
      var found := LookupIn(v, levels, root, id / perBlock);
      if found.Found? { FirstDataAlike(v, v', found.bp); }
    }
  }

  // ----- files -----

  /** Two files of one shape whose blocks up to the last are the same. */
  ghost predicate FilesAlike(f: File, f': File) {
    && f.maxBlkid == f'.maxBlkid && f.badAsZeros == f'.badAsZeros && f.blksize == f'.blksize
    && forall k: nat :: k <= f.maxBlkid ==> f.block(k) == f'.block(k)
  }

  lemma {:induction false} ContentAlike(f: File, f': File, n: nat)
    requires FilesAlike(f, f') && n <= f.maxBlkid + 1
    ensures f.Content(n) == f'.Content(n) && f.Flawed(n) == f'.Flawed(n) && AnyBreaks(f, n) == AnyBreaks(f', n)
  {
    if n > 0 { ContentAlike(f, f', n - 1); }
  }

  lemma {:induction false} ReadingAlike(f: File, f': File, s: Reader, n: nat)
    requires FilesAlike(f, f') && (f.badAsZeros ==> f.blksize > 0)
    ensures Reading(f, s, n) == Reading(f', s, n)
    decreases BlocksLeft(f, s), n, if s.rest == Some([]) then 1 else 0
  {
    if s.rest.Some? && n > |s.rest.value| {
      assert LoadNext(f, s) == LoadNext(f', s);
      match LoadNext(f, s)
      case Breaking =>
      case Stopped(s') =>
      case Loaded(s') => ReadingAlike(f, f', s', n - |s.rest.value|);
    }
  }

  /** Looking up the blocks of a file, 0 to the last. */
  ghost predicate FileVisits(v: Vdev, levels: nat, root: seq<BlockPtr>, maxBlkid: nat, node: BlockPtr -> bool,
      leaf: BlockPtr -> bool)
  {
    forall k: nat :: k <= maxBlkid ==> Visits(v, levels, root, k, node, leaf)
  }

  lemma FileAlike(v: Vdev, v': Vdev, levels: nat, root: seq<BlockPtr>, maxBlkid: nat, blksize: nat,
      badAsZeros: bool, node: BlockPtr -> bool, leaf: BlockPtr -> bool)
    requires FileVisits(v, levels, root, maxBlkid, node, leaf)
    requires forall bp :: node(bp) ==> NodeAlike(v, v', bp)
    requires forall bp :: leaf(bp) ==> LeafAlike(v, v', bp)
    ensures FilesAlike(FileOf(v, levels, root, maxBlkid, blksize, badAsZeros),
                       FileOf(v', levels, root, maxBlkid, blksize, badAsZeros))
  {
    forall k: nat | k <= maxBlkid ensures BlockOf(v, levels, root, k) == BlockOf(v', levels, root, k) {
      BlockAlike(v, v', levels, root, k, node, leaf);
    }
  }

  /** Loading the root of a tree of more than one level. */
  ghost predicate RootVisits(v: Vdev, levels: nat, bp: BlockPtr, node: BlockPtr -> bool) {
    levels != 1 ==> node(bp)
  }

  /** All that an extraction visits: nothing if it is refused, no blocks of data for a size of zero. */
  ghost predicate ExtractionVisits(v: Vdev, levels: nat, bp: BlockPtr, maxBlkid: nat, size: nat,
      node: BlockPtr -> bool, leaf: BlockPtr -> bool)
  {
    !(Empty(bp) && size > 0) ==>
      && RootVisits(v, levels, bp, node)
      && (size > 0 && RootOf(v, levels, bp).Branch? ==>
            FileVisits(v, levels, RootOf(v, levels, bp).bpa, maxBlkid, node, leaf))
  }

  /** An extraction depends on the indirect blocks it visits, up to their first verified copies, and on the
      first copies of its blocks of data. */
  lemma ExtractionAlike(v: Vdev, v': Vdev, levels: nat, bp: BlockPtr, maxBlkid: nat, blksize: nat, size: nat,
      node: BlockPtr -> bool, leaf: BlockPtr -> bool)
    requires ExtractionVisits(v, levels, bp, maxBlkid, size, node, leaf)
    requires forall bp :: node(bp) ==> NodeAlike(v, v', bp)
    requires forall bp :: leaf(bp) ==> LeafAlike(v, v', bp)
    ensures ExtractionOf(v, levels, bp, maxBlkid, blksize, size)
         == ExtractionOf(v', levels, bp, maxBlkid, blksize, size)
  {
    if !(Empty(bp) && size > 0) {
      if levels != 1 { LoadAlike(v, v', bp); }
      var root := RootOf(v, levels, bp);
      if size > 0 && root.Branch? {
        FileAlike(v, v', levels, root.bpa, maxBlkid, blksize, true, node, leaf);
        ContentAlike(FileOf(v, levels, root.bpa, maxBlkid, blksize, true),
                     FileOf(v', levels, root.bpa, maxBlkid, blksize, true), maxBlkid + 1);
      }
    }
  }
}
