/** Trees of pointers in terms of the bytes of their indirect blocks. */
module TreeBytes {
  import opened Bytes
  import opened BlockDevice
  import opened BlockTrees

  lemma {:induction false} PointersJoinUpTo(data: seq<byte>, c: nat)
    requires c <= |data| / 128
    ensures Flatten(Pointers(data)[..c]) == data[..128 * c]
  {
    if c > 0 {
      PointersJoinUpTo(data, c - 1);
      assert Pointers(data)[..c][..c - 1] == Pointers(data)[..c - 1];
      assert data[..128 * (c - 1)] + data[128 * (c - 1)..128 * c] == data[..128 * c];
    }
  }

  /** The pointers of a block, put together from the first on, are its bytes, without a rest of fewer
      than 128. */
  lemma PointersJoin(data: seq<byte>)
    ensures Flatten(Pointers(data)) == data[..|data| / 128 * 128]
  {
    PointersJoinUpTo(data, |data| / 128);
    assert Pointers(data)[..|data| / 128] == Pointers(data);
  }

  /** Pointer `i` of a block of `n`. */
  function PointerIn(data: seq<byte>, n: nat, i: nat): BlockPtr
    requires |data| == 128 * n && i < n
  {
    data[128 * i..128 * i + 128]
  }

  lemma PointerIs(data: seq<byte>, n: nat, i: nat)
    requires |data| == 128 * n && i < n
    ensures |Pointers(data)| == n && Pointers(data)[i] == PointerIn(data, n, i)
  {
    PointersJoin(data);
    PieceAt(Pointers(data), 128, i);
    assert data[..|data|] == data;
  }

  /** A block of `n` pointers, below which, down to the last of `depth` levels of indirect blocks, every
      block can be loaded and has `n` pointers too. */
  ghost predicate Complete(v: Vdev, data: seq<byte>, n: nat, depth: nat)
    decreases depth, 0
  {
    |data| == 128 * n && (depth > 1 ==> forall i: nat | i < n :: CompleteBelow(v, PointerIn(data, n, i), n, depth))
  }

  ghost predicate CompleteBelow(v: Vdev, bp: BlockPtr, n: nat, depth: nat)
    requires depth > 1
    decreases depth - 1, 1
  {
    var r := LoadFrom(v, bp, 0);
    r.Got? && r.data.Some? && Complete(v, r.data.value, n, depth - 1)
  }

  lemma PowerTimes(n: nat, k: nat)
    requires k >= 1
    ensures n * (128 * Power(n, k - 1)) == 128 * Power(n, k)
  {
    assert Power(n, k) == n * Power(n, k - 1);
  }

  /** The bytes of the lowest indirect blocks, put together from left to right. */
  ghost function LowestBytes(v: Vdev, data: seq<byte>, n: nat, depth: nat): (s: seq<byte>)
    requires depth >= 1 && Complete(v, data, n, depth)
    ensures |s| == 128 * Power(n, depth)
    decreases depth, 0
  {
    if depth == 1 then data
    else
      var below := Below(v, data, n, depth);
      PowerTimes(n, depth);
      if n == 0 then [] else (PieceAt(below, 128 * Power(n, depth - 1), 0); Flatten(below))
  }

  ghost function Below(v: Vdev, data: seq<byte>, n: nat, depth: nat): (pieces: seq<seq<byte>>)
    requires depth > 1 && Complete(v, data, n, depth)
    ensures |pieces| == n && forall i :: 0 <= i < n ==> |pieces[i]| == 128 * Power(n, depth - 1)
    decreases depth - 1, 1
  {
    seq(n, i requires 0 <= i < n =>
      assert CompleteBelow(v, PointerIn(data, n, i), n, depth);
      LowestBytes(v, LoadFrom(v, PointerIn(data, n, i), 0).data.value, n, depth - 1))
  }

  /** Bytes `[128 k, 128 k + 128)`. */
  function Slot(s: seq<byte>, k: nat): BlockPtr
    requires 128 * k + 128 <= |s|
  {
    s[128 * k..128 * k + 128]
  }

  lemma SlotFits(k: nat, p: nat)
    requires k < p
    ensures 128 * k + 128 <= 128 * p
  {
  }

  lemma SlotOfSlice(whole: seq<byte>, at: nat, size: nat, r: nat)
    requires at + size <= |whole| && 128 * r + 128 <= size
    ensures whole[at + 128 * r..at + 128 * r + 128] == Slot(whole[at..at + size], r)
  {
    var x, y := whole[at + 128 * r..at + 128 * r + 128], Slot(whole[at..at + size], r);
    forall i | 0 <= i < 128 ensures x[i] == y[i] {
      assert y[i] == whole[at..at + size][128 * r + i] == whole[at + (128 * r + i)];
    }
  }

  lemma Regroup(i: nat, p: nat, r: nat)
    ensures 128 * (i * p + r) == i * (128 * p) + 128 * r
  {
  }

  lemma SlotOfPiece(pieces: seq<seq<byte>>, p: nat, i: nat, r: nat)
    requires i < |pieces| && r < p && forall k :: 0 <= k < |pieces| ==> |pieces[k]| == 128 * p
    ensures 128 * (i * p + r) + 128 <= |Flatten(pieces)|
    ensures Slot(Flatten(pieces), i * p + r) == Slot(pieces[i], r)
  {
    PieceAt(pieces, 128 * p, i);
    Regroup(i, p, r);
    SlotOfSlice(Flatten(pieces), i * (128 * p), 128 * p, r);
  }

  ghost predicate WalkGives(v: Vdev, bpa: seq<BlockPtr>, digits: seq<nat>, bp: BlockPtr)
    requires |digits| >= 1
  {
    Walk(v, bpa, digits) == Found(bp)
  }

  lemma WalkStep(v: Vdev, data: seq<byte>, n: nat, digits: seq<nat>, bp: BlockPtr)
    requires |digits| >= 2 && |data| == 128 * n && digits[0] < n
    requires var r := LoadFrom(v, PointerIn(data, n, digits[0]), 0);
      r.Got? && r.data.Some? && WalkGives(v, Pointers(r.data.value), digits[1..], bp)
    ensures WalkGives(v, Pointers(data), digits, bp) == true
  {
    PointerIs(data, n, digits[0]);
  }

  lemma {:induction false} WalkIsSlot(v: Vdev, data: seq<byte>, n: nat, digits: seq<nat>)
    requires |digits| >= 1 && forall i :: 0 <= i < |digits| ==> digits[i] < n
    requires Complete(v, data, n, |digits|)
    ensures 128 * Value(digits, n) + 128 <= |LowestBytes(v, data, n, |digits|)|
    ensures WalkGives(v, Pointers(data), digits, Slot(LowestBytes(v, data, n, |digits|), Value(digits, n))) == true
    decreases |digits|
  {
    var depth, i := |digits|, digits[0];
    SlotFits(Value(digits, n), Power(n, depth));
    PointerIs(data, n, i);
    if depth == 1 {
      assert Value(digits[1..], n) == 0 && Power(n, 0) == 1;
    } else {
      assert CompleteBelow(v, PointerIn(data, n, i), n, depth);
      var child := LoadFrom(v, PointerIn(data, n, i), 0).data.value;
      WalkIsSlot(v, child, n, digits[1..]);
      SlotOfPiece(Below(v, data, n, depth), Power(n, depth - 1), i, Value(digits[1..], n));
      WalkStep(v, data, n, digits, Slot(LowestBytes(v, data, n, depth), Value(digits, n)));
    }
  }

  /** In a complete tree, looking up any id gives bytes `[128 k, 128 k + 128)` of the lowest indirect blocks,
      put together from left to right, where `k` is the id modulo the number of pointers there. */
  lemma LookupIsSlot(v: Vdev, levels: nat, data: seq<byte>, n: nat, id: nat)
    requires levels >= 2 && n >= 1 && Complete(v, data, n, levels - 1)
    ensures var bytes, k := LowestBytes(v, data, n, levels - 1), id % Power(n, levels - 1);
      128 * k + 128 <= |bytes| && LookupIn(v, levels, Pointers(data), id) == Found(Slot(bytes, k))
  {
    PointersJoin(data);
    DigitsValue(id, n, levels - 1);
    WalkIsSlot(v, data, n, Digits(id, n, levels - 1));
  }
}
