/** The tree of indirect blocks of one object, with the cache that lookups fill. */
module BlockTrees {
  import opened Arithmetic
  import opened Bytes
  import opened BlockDevice

  /** A lookup returns a pointer or nothing, or raises an index, type or division error, or what a read raises. */
  datatype Lookup = Raised | Missing | Found(bp: BlockPtr)

  // ----- arrays of pointers, and reading them -----

  function PointerAt(data: seq<byte>, i: nat): BlockPtr
    requires BP_SIZE * i + BP_SIZE <= |data|
  {
    data[BP_SIZE * i..BP_SIZE * i + BP_SIZE]
  }

  /** BlockPtrArray: a shorter rest is dropped. */
  function Pointers(data: seq<byte>): (bpa: seq<BlockPtr>)
    ensures |bpa| == |data| / BP_SIZE
    ensures forall i :: 0 <= i < |bpa| ==> bpa[i] == PointerAt(data, i)
  {
    seq(|data| / BP_SIZE, i requires 0 <= i < |data| / BP_SIZE => PointerAt(data, i))
  }

  predicate Verified(r: Read) {
    HasData(r) && r.cksum
  }

  /** The read of the last copy that is tried, from `dva` on. */
  function LoadFrom(v: Vdev, bp: BlockPtr, dva: nat): Read
    requires dva <= 2
    decreases 2 - dva
  {
    var r := v(bp, dva);
    if r.Throws? || Verified(r) || dva == 2 then r else LoadFrom(v, bp, dva + 1)
  }

  /** An indirect block: an exception, no data, or an array of pointers. */
  datatype Branch = BranchRaises | BranchBroken | Branch(bpa: seq<BlockPtr>)

  function Load(v: Vdev, bp: BlockPtr): Branch {
    match LoadFrom(v, bp, 0)
    case Throws => BranchRaises
    case Got(None, _) => BranchBroken
    case Got(Some(data), _) => Branch(Pointers(data))
  }

  /** Copy `dva` is tried: no earlier one raised or was verified. */
  ghost predicate Tried(v: Vdev, bp: BlockPtr, dva: nat) {
    forall d: nat | d < dva :: v(bp, d).Got? && !Verified(v(bp, d))
  }

  /** At least one byte, and a checksum that is right. */
  ghost predicate Good(r: Read) {
    r.Got? && r.cksum && exists d :: r.data == Some(d) && |d| >= 1
  }

  /** The first good copy is taken; without one, the last copy is, right or wrong. */
  lemma LoadTakes(v: Vdev, bp: BlockPtr, dva: nat)
    requires dva <= 2 && (dva == 2 || v(bp, dva).Throws? || Good(v(bp, dva)))
    requires forall d: nat | d < dva :: v(bp, d).Got? && !Good(v(bp, d))
    ensures LoadFrom(v, bp, 0) == v(bp, dva)
  {
    assert forall d: nat :: Good(v(bp, d)) <==> Verified(v(bp, d));
    assert dva > 0 ==> v(bp, 0).Got? && !Verified(v(bp, 0));
    assert dva > 1 ==> v(bp, 1).Got? && !Verified(v(bp, 1));
    assert dva < 2 ==> LoadFrom(v, bp, dva) == v(bp, dva);
    assert LoadFrom(v, bp, 0) == LoadFrom(v, bp, if dva == 0 then 0 else 1);
  }

  // ----- lookups without a cache -----

  function Pick(bpa: seq<BlockPtr>, i: nat): Lookup {
    if i < |bpa| then Found(bpa[i]) else Raised
  }

  /** Follows the digits down from an array of pointers. */
  function Walk(v: Vdev, bpa: seq<BlockPtr>, digits: seq<nat>): Lookup
    requires |digits| >= 1
    decreases |digits|
  {
    if |digits| == 1 then Pick(bpa, digits[0])
    else if digits[0] >= |bpa| then Raised
    else
      match Load(v, bpa[digits[0]])
      case BranchRaises => Raised
      case BranchBroken => Missing
      case Branch(next) => Walk(v, next, digits[1..])
  }

  /** The lowest `k` digits of `id` in base `n`, highest first. */
  function Digits(id: nat, n: nat, k: nat): (digits: seq<nat>)
    requires n >= 1
    ensures |digits| == k && forall i :: 0 <= i < k ==> digits[i] < n
  {
    if k == 0 then [] else Digits(id / n, n, k - 1) + [id % n]
  }

  /** A tree of one level is a single pointer. */
  function LookupIn(v: Vdev, levels: nat, root: seq<BlockPtr>, id: int): Lookup {
    if id < 0 then Missing
    else if levels == 1 then if id == 0 && |root| == 1 then Found(root[0]) else Missing
    else if levels == 0 || root == [] then Raised
    else Walk(v, root, Digits(id, |root|, levels - 1))
  }

  // ----- the leaves, left to right -----

  function Power(n: nat, k: nat): (p: nat)
    ensures n >= 1 ==> p >= 1
  {
    if k == 0 then 1 else n * Power(n, k - 1)
  }

  function Repeat(x: Lookup, n: nat): (r: seq<Lookup>)
    ensures |r| == n && forall i :: 0 <= i < n ==> r[i] == x
  {
    seq(n, _ => x)
  }

  /** The leaves below child `i`: all missing if it has no data. */
  function Below(v: Vdev, bpa: seq<BlockPtr>, i: nat, n: nat, depth: nat): (r: seq<Lookup>)
    requires depth >= 1
    ensures |r| == Power(n, depth - 1)
    decreases depth, 0
  {
    if depth == 1 then [Pick(bpa, i)]
    else if i >= |bpa| then Repeat(Raised, Power(n, depth - 1))
    else
      match Load(v, bpa[i])
      case BranchRaises => Repeat(Raised, Power(n, depth - 1))
      case BranchBroken => Repeat(Missing, Power(n, depth - 1))
      case Branch(next) => Leaves(v, next, n, depth - 1)
  }

  /** The leaves below `n` children, left to right. */
  function Leaves(v: Vdev, bpa: seq<BlockPtr>, n: nat, depth: nat): (r: seq<Lookup>)
    requires depth >= 1
    ensures |r| == Power(n, depth)
    decreases depth, 1
  {
    var children := seq(n, i requires 0 <= i < n => Below(v, bpa, i, n, depth));
    if n > 0 then (PieceAt(children, Power(n, depth - 1), 0); Flatten(children)) else []
  }

  lemma Row(i: nat, n: nat, p: nat, r: nat)
    requires i < n && r < p
    ensures i * p + r < n * p
  {
    assert (i + 1) * p <= n * p;
  }

  /** Leaf `r` of child `i`. */
  lemma LeafOfChild(v: Vdev, bpa: seq<BlockPtr>, n: nat, depth: nat, i: nat, r: nat, k: nat)
    requires depth >= 1 && i < n && r < Power(n, depth - 1) && k == i * Power(n, depth - 1) + r
    ensures k < Power(n, depth) && Leaves(v, bpa, n, depth)[k] == Below(v, bpa, i, n, depth)[r]
  {
    var p := Power(n, depth - 1);
    var children := seq(n, j requires 0 <= j < n => Below(v, bpa, j, n, depth));
    PieceAt(children, p, i);
    assert Flatten(children)[i * p..i * p + p][r] == Flatten(children)[k];
  }

  /** The number with the given digits. */
  function Value(digits: seq<nat>, n: nat): (x: nat)
    requires forall i :: 0 <= i < |digits| ==> digits[i] < n
    ensures x < Power(n, |digits|)
  {
    if digits == [] then 0
    else
      Row(digits[0], n, Power(n, |digits| - 1), Value(digits[1..], n));
      digits[0] * Power(n, |digits| - 1) + Value(digits[1..], n)
  }

  lemma {:induction false} WalkIsLeaf(v: Vdev, bpa: seq<BlockPtr>, n: nat, digits: seq<nat>)
    requires |digits| >= 1 && forall i :: 0 <= i < |digits| ==> digits[i] < n
    ensures Walk(v, bpa, digits) == Leaves(v, bpa, n, |digits|)[Value(digits, n)]
    decreases |digits|
  {
    var depth := |digits|;
    LeafOfChild(v, bpa, n, depth, digits[0], Value(digits[1..], n), Value(digits, n));
    if depth > 1 && digits[0] < |bpa| && Load(v, bpa[digits[0]]).Branch? {
      WalkIsLeaf(v, Load(v, bpa[digits[0]]).bpa, n, digits[1..]);
    }
  }

  // ----- digits -----

  lemma {:induction false} ValueLast(digits: seq<nat>, n: nat)
    requires digits != [] && forall i :: 0 <= i < |digits| ==> digits[i] < n
    ensures Value(digits, n) == Value(digits[..|digits| - 1], n) * n + digits[|digits| - 1]
  {
    var k := |digits|;
    if k > 1 {
      ValueLast(digits[1..], n);
      assert digits[1..][..k - 2] == digits[..k - 1][1..];
      ScaleSum(digits[0], Power(n, k - 2), n, Value(digits[..k - 1][1..], n));
    }
  }

  lemma ScaleSum(a: nat, p: nat, n: nat, b: nat)
    ensures a * (n * p) + b * n == (a * p + b) * n
  {
    assert a * (n * p) == (a * p) * n;
  }

  /** The digits kept are those of the number modulo n to the power k: higher ones are dropped. */
  lemma {:induction false} DigitsValue(id: nat, n: nat, k: nat)
    requires n >= 1
    ensures Value(Digits(id, n, k), n) == id % Power(n, k)
  {
    if k == 0 {
      assert id % 1 == 0;
    } else {
      DigitsValue(id / n, n, k - 1);
      ValueLast(Digits(id, n, k), n);
      assert Digits(id, n, k)[..k - 1] == Digits(id / n, n, k - 1);
      ModTower(id, n, Power(n, k - 1));
    }
  }

  lemma ModTower(id: nat, n: nat, p: nat)
    requires n >= 1 && p >= 1
    ensures n * p >= 1 && id % (n * p) == id / n % p * n + id % n
  {
    Division(id, n);
    Division(id / n, p);
    var q, r := id / n / p, id / n % p * n + id % n;
    Row(id / n % p, p, n, id % n);
    assert id == q * (n * p) + r by {
      assert (q * p) * n == q * (n * p);
    }
    DivMod(q, n * p, r);
  }

  /** A lookup gives the leaf whose number is the id modulo the number of leaves. */
  lemma LookupIsLeaf(v: Vdev, levels: nat, root: seq<BlockPtr>, id: nat)
    requires levels >= 2 && root != []
    ensures Power(|root|, levels - 1) >= 1
    ensures LookupIn(v, levels, root, id) == Leaves(v, root, |root|, levels - 1)[id % Power(|root|, levels - 1)]
  {
    var n, k := |root|, levels - 1;
    DigitsValue(id, n, k);
    WalkIsLeaf(v, root, n, Digits(id, n, k));
  }

  /** Below the number of leaves, no two ids have the same digits. */
  lemma DigitsInjective(x: nat, y: nat, n: nat, k: nat)
    requires n >= 1 && x < Power(n, k) && y < Power(n, k) && Digits(x, n, k) == Digits(y, n, k)
    ensures x == y
  {
    DigitsValue(x, n, k);
    DigitsValue(y, n, k);
    Small(x, Power(n, k));
    Small(y, Power(n, k));
  }

  /** All leaves of a tree, of one level or more. */
  function TreeLeaves(v: Vdev, levels: nat, root: seq<BlockPtr>): (leaves: seq<Lookup>)
    requires levels >= 1 && (levels == 1 ==> |root| == 1)
  {
    if levels == 1 then [Found(root[0])] else Leaves(v, root, |root|, levels - 1)
  }

  lemma LookupLeaf(v: Vdev, levels: nat, root: seq<BlockPtr>, b: nat)
    requires levels >= 1 && |root| >= 1 && (levels == 1 ==> |root| == 1)
    requires b < |TreeLeaves(v, levels, root)|
    ensures LookupIn(v, levels, root, b) == TreeLeaves(v, levels, root)[b]
  {
    if levels >= 2 {
      LookupIsLeaf(v, levels, root, b);
      Small(b, Power(|root|, levels - 1));
    }
  }

  lemma Small(b: nat, p: nat)
    requires b < p
    ensures b % p == b
  {
  }
}
