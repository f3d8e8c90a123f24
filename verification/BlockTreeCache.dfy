/** BlockTree: lookups that fill a cache as they go. */
module BlockTreeCache {
  import opened Bytes
  import opened BlockDevice
  import opened BlockTrees

  /** The array of pointers at the end of a path, if every block on the way is there. */
  function NodeAt(v: Vdev, bpa: seq<BlockPtr>, path: seq<nat>): Option<seq<BlockPtr>>
    decreases |path|
  {
    if path == [] then Some(bpa)
    else
      var above := NodeAt(v, bpa, path[..|path| - 1]);
      if above.None? || path[|path| - 1] >= |above.value| then None
      else
        var b := Load(v, above.value[path[|path| - 1]]);
        if b.Branch? then Some(b.bpa) else None
  }

  lemma WalkNext(v: Vdev, bpa: seq<BlockPtr>, digits: seq<nat>, l: nat, next: seq<BlockPtr>)
    requires l + 1 < |digits| && digits[l] < |bpa| && Load(v, bpa[digits[l]]) == Branch(next)
    ensures Walk(v, bpa, digits[l..]) == Walk(v, next, digits[l + 1..])
  {
    assert digits[l..][1..] == digits[l + 1..];
  }

  lemma NodeNext(v: Vdev, root: seq<BlockPtr>, digits: seq<nat>, l: nat, bpa: seq<BlockPtr>)
    requires l < |digits| && NodeAt(v, root, digits[..l]) == Some(bpa) && digits[l] < |bpa|
    requires Load(v, bpa[digits[l]]).Branch?
    ensures NodeAt(v, root, digits[..l + 1]) == Some(Load(v, bpa[digits[l]]).bpa)
  {
    assert digits[..l + 1][..l] == digits[..l];
  }

  // ----- what a lookup comes to -----

  lemma {:induction false} NodeBelow(v: Vdev, bpa: seq<BlockPtr>, path: seq<nat>)
    requires path != []
    ensures var below := path[0] < |bpa| && Load(v, bpa[path[0]]).Branch?;
      NodeAt(v, bpa, path) == if below then NodeAt(v, Load(v, bpa[path[0]]).bpa, path[1..]) else None
    decreases |path|
  {
    var n := |path| - 1;
    if n == 0 {
      assert path[..0] == [] && path[1..] == [];
    } else {
      NodeBelow(v, bpa, path[..n]);
      assert path[1..][..n - 1] == path[..n][1..] && path[..n][0] == path[0];
    }
  }

  /** The block that the first `l` digits lead to holds pointer number `digits[l]`, and there is `r` in it. */
  ghost predicate Meets(v: Vdev, bpa: seq<BlockPtr>, digits: seq<nat>, l: nat, r: BlockPtr -> bool)
    requires l < |digits|
  {
    var node := NodeAt(v, bpa, digits[..l]);
    node.Some? && digits[l] < |node.value| && r(node.value[digits[l]])
  }

  lemma MeetsBelow(v: Vdev, bpa: seq<BlockPtr>, digits: seq<nat>, l: nat, r: BlockPtr -> bool)
    requires 0 < l < |digits|
    ensures Meets(v, bpa, digits, l, r) <==>
      (digits[0] < |bpa| && Load(v, bpa[digits[0]]).Branch?
       && Meets(v, Load(v, bpa[digits[0]]).bpa, digits[1..], l - 1, r))
  {
    NodeBelow(v, bpa, digits[..l]);
    assert digits[..l][1..] == digits[1..][..l - 1];
  }

  /** The block of that pointer has no data. */
  ghost function NoData(v: Vdev): BlockPtr -> bool {
    (bp: BlockPtr) => LoadFrom(v, bp, 0).Got? && LoadFrom(v, bp, 0).data == None
  }

  ghost function Same(bp: BlockPtr): BlockPtr -> bool {
    (x: BlockPtr) => x == bp
  }

  /** An indirect block on the way, at digit `l` or later, has no data. */
  ghost predicate Broken(v: Vdev, bpa: seq<BlockPtr>, digits: seq<nat>) {
    exists l: nat :: l < |digits| - 1 && Meets(v, bpa, digits, l, NoData(v))
  }

  ghost predicate EndsAt(v: Vdev, bpa: seq<BlockPtr>, digits: seq<nat>, bp: BlockPtr)
    requires |digits| >= 1
  {
    Meets(v, bpa, digits, |digits| - 1, Same(bp))
  }

  lemma FirstDigit(v: Vdev, bpa: seq<BlockPtr>, digits: seq<nat>, r: BlockPtr -> bool)
    requires |digits| >= 1
    ensures Meets(v, bpa, digits, 0, r) <==> digits[0] < |bpa| && r(bpa[digits[0]])
  {
    assert digits[..0] == [];
  }

  lemma BrokenBelow(v: Vdev, bpa: seq<BlockPtr>, digits: seq<nat>)
    requires |digits| >= 2
    ensures Broken(v, bpa, digits) <==>
      (digits[0] < |bpa|
       && (NoData(v)(bpa[digits[0]])
           || (Load(v, bpa[digits[0]]).Branch? && Broken(v, Load(v, bpa[digits[0]]).bpa, digits[1..]))))
  {
    FirstDigit(v, bpa, digits, NoData(v));
    forall l: nat | 0 < l < |digits| - 1
      ensures Meets(v, bpa, digits, l, NoData(v)) <==>
        (digits[0] < |bpa| && Load(v, bpa[digits[0]]).Branch?
         && Meets(v, Load(v, bpa[digits[0]]).bpa, digits[1..], l - 1, NoData(v)))
    {
      MeetsBelow(v, bpa, digits, l, NoData(v));
    }
    if digits[0] < |bpa| && Load(v, bpa[digits[0]]).Branch? && Broken(v, Load(v, bpa[digits[0]]).bpa, digits[1..]) {
      var l: nat :| l < |digits[1..]| - 1 && Meets(v, Load(v, bpa[digits[0]]).bpa, digits[1..], l, NoData(v));
      MeetsBelow(v, bpa, digits, l + 1, NoData(v));
    }
  }

  /** Following digits finds what stands at the end of them; a pointer is missing exactly if an indirect block
      on the way has no data; and otherwise an index is out of range or a read raises. */
  lemma {:induction false} WalkIs(v: Vdev, bpa: seq<BlockPtr>, digits: seq<nat>, bp: BlockPtr)
    requires |digits| >= 1
    ensures Walk(v, bpa, digits) == Found(bp) <==> EndsAt(v, bpa, digits, bp)
    ensures Walk(v, bpa, digits) == Missing <==> Broken(v, bpa, digits)
    decreases |digits|
  {
    if |digits| == 1 {
      FirstDigit(v, bpa, digits, Same(bp));
    } else {
      BrokenBelow(v, bpa, digits);
      MeetsBelow(v, bpa, digits, |digits| - 1, Same(bp));
      if digits[0] < |bpa| && Load(v, bpa[digits[0]]).Branch? {
        WalkIs(v, Load(v, bpa[digits[0]]).bpa, digits[1..], bp);
      }
    }
  }

  /** Ids and trees for which nothing is followed. */
  lemma LookupEdges(v: Vdev, levels: nat, root: seq<BlockPtr>, id: int)
    ensures id < 0 ==> LookupIn(v, levels, root, id) == Missing
    ensures id >= 0 && levels == 1 && |root| == 1 ==>
      LookupIn(v, levels, root, id) == if id == 0 then Found(root[0]) else Missing
    ensures id >= 0 && (levels == 0 || (levels >= 2 && root == [])) ==> LookupIn(v, levels, root, id) == Raised
  {
  }

  function Reverse(s: seq<nat>): seq<nat> {
    if s == [] then [] else [s[|s| - 1]] + Reverse(s[..|s| - 1])
  }

  class BlockTree {
    const levels: nat
    const vdev: Vdev
    const root: seq<BlockPtr>
    var cache: map<seq<nat>, seq<BlockPtr>>

    ghost predicate Valid()
      reads this
    {
      && (levels == 1 ==> |root| == 1)
      && forall path :: path in cache ==> path != [] && NodeAt(vdev, root, path) == Some(cache[path])
    }

    /** What a lookup gives, whatever the cache. */
    function Lookup(id: int): Lookup {
      LookupIn(vdev, levels, root, id)
    }

    constructor (levels: nat, vdev: Vdev, root: seq<BlockPtr>)
      requires levels == 1 ==> |root| == 1
      ensures Valid() && this.levels == levels && this.vdev == vdev && this.root == root
    {
      this.levels, this.vdev, this.root, cache := levels, vdev, root, map[];
    }

    /** Creates a tree; nothing if the root block cannot be read. */
    static method Open(levels: nat, vdev: Vdev, bp: BlockPtr) returns (tree: BlockTree?)
      ensures tree == null <==> levels != 1 && !Load(vdev, bp).Branch?
      ensures tree != null ==> fresh(tree) && tree.Valid() && tree.levels == levels && tree.vdev == vdev
      ensures tree != null ==> Branch(tree.root) == if levels == 1 then Branch([bp]) else Load(vdev, bp)
    {
      if levels == 1 {
        tree := new BlockTree(levels, vdev, [bp]);
      } else {
        var root := LoadFromBptr(vdev, bp);
        tree := null;
        if root.Branch? { tree := new BlockTree(levels, vdev, root.bpa); }
      }
    }

    static method LoadFromBptr(vdev: Vdev, bp: BlockPtr) returns (b: Branch)
      ensures b == Load(vdev, bp)
    {
      var r := Got(None, false);
      var dva := 0;
      while dva < 3
        invariant 0 <= dva <= 3 && r.Got?
        invariant LoadFrom(vdev, bp, 0) == if dva < 3 then LoadFrom(vdev, bp, dva) else r
      {
        r := vdev(bp, dva);
        if r.Throws? { return BranchRaises; }
        if HasData(r) && r.cksum { break; }
        dva := dva + 1;
      }
      return if r.data.None? then BranchBroken else Branch(Pointers(r.data.value));
    }

    method LevelIndices(id: nat) returns (indices: seq<nat>)
      requires levels >= 1 && root != []
      ensures indices == Digits(id, |root|, levels - 1)
    {
      var blockid: nat, digits: seq<nat> := id, [];
      for i := 0 to levels - 1
        invariant Digits(id, |root|, levels - 1) == Digits(blockid, |root|, levels - 1 - i) + Reverse(digits)
      {
        ghost var before := digits;
        digits := digits + [blockid % |root|];
        assert digits[..|before|] == before;
        assert Digits(blockid, |root|, levels - 1 - i) + Reverse(before)
            == Digits(blockid / |root|, |root|, levels - 2 - i) + Reverse(digits);
        blockid := blockid / |root|;
      }
      return Reverse(digits);
    }

    /** The child `path[|path| - 1]` of `bpa`, from the cache if it is there. */
    method Child(bpa: seq<BlockPtr>, path: seq<nat>) returns (next: Branch)
      requires Valid() && path != [] && NodeAt(vdev, root, path[..|path| - 1]) == Some(bpa)
      modifies `cache
      ensures Valid()
      ensures next == if path[|path| - 1] < |bpa| then Load(vdev, bpa[path[|path| - 1]]) else BranchRaises
    {
      if path in cache { return Branch(cache[path]); }
      if path[|path| - 1] >= |bpa| { return BranchRaises; }
      next := LoadFromBptr(vdev, bpa[path[|path| - 1]]);
      if next.Branch? { cache := cache[path := next.bpa]; }
    }

    method Get(id: int) returns (r: Lookup)
      requires Valid()
      modifies `cache
      ensures Valid() && r == Lookup(id)
    {
      if id < 0 { return Missing; }
      if levels == 1 { return if id == 0 then Found(root[0]) else Missing; }
      if levels == 0 || root == [] { return Raised; }
      var indices := LevelIndices(id);
      var bpa, l := root, 0;
      assert indices[..0] == [] && indices[0..] == indices;
      while l < |indices| - 1
        invariant Valid() && 0 <= l < |indices|
        invariant NodeAt(vdev, root, indices[..l]) == Some(bpa)
        invariant Walk(vdev, root, indices) == Walk(vdev, bpa, indices[l..])
      {
        assert indices[..l + 1][..l] == indices[..l];
        var next := Child(bpa, indices[..l + 1]);
        if next.BranchRaises? { return Raised; }
        if next.BranchBroken? { return Missing; }
        NodeNext(vdev, root, indices, l, bpa);
        WalkNext(vdev, bpa, indices, l, next.bpa);
        bpa, l := next.bpa, l + 1;
      }
      return Pick(bpa, indices[l]);
    }
  }
}
