/** Bytes, and the few integer operations of Python and C that all the other modules share. */
module Bytes {
  type byte = x: int | 0 <= x < 256

  datatype Option<+T> = None | Some(value: T)

  /** `a ^ b` on natural numbers, bit by bit. */
  function BitXor(a: nat, b: nat): nat {
    if a == 0 && b == 0 then 0 else (a + b) % 2 + 2 * BitXor(a / 2, b / 2)
  }

  lemma {:induction false} BitXorBound(a: nat, b: nat, n: nat)
    requires a < Pow2(n) && b < Pow2(n)
    ensures BitXor(a, b) < Pow2(n)
  {
    if a != 0 || b != 0 {
      BitXorBound(a / 2, b / 2, n - 1);
    }
  }

  lemma {:induction false} BitXorZero(a: nat)
    ensures BitXor(a, 0) == a
  {
    if a != 0 { BitXorZero(a / 2); }
  }

  lemma {:induction false} BitXorSelf(a: nat)
    ensures BitXor(a, a) == 0
  {
    if a != 0 { BitXorSelf(a / 2); }
  }

  lemma {:induction false} BitXorCommutes(a: nat, b: nat)
    ensures BitXor(a, b) == BitXor(b, a)
  {
    if a != 0 || b != 0 { BitXorCommutes(a / 2, b / 2); }
  }

  lemma BitXorStep(a: nat, b: nat)
    ensures BitXor(a, b) / 2 == BitXor(a / 2, b / 2)
    ensures BitXor(a, b) % 2 == (a + b) % 2
  {
  }

  lemma {:induction false} BitXorAssociates(a: nat, b: nat, c: nat)
    ensures BitXor(BitXor(a, b), c) == BitXor(a, BitXor(b, c))
    decreases a + b + c
  {
    if a != 0 || b != 0 || c != 0 {
      BitXorAssociates(a / 2, b / 2, c / 2);
      BitXorStep(a, b);
      BitXorStep(b, c);
      var ab, bc := BitXor(a, b), BitXor(b, c);
      BitXorStep(ab, c);
      BitXorStep(a, bc);
      ParityOfSum(ab, a + b, c);
      ParityOfSum(bc, b + c, a);
      SameHalves(BitXor(ab, c), BitXor(a, bc), a + b + c);
    }
  }

  lemma ParityOfSum(x: nat, y: nat, z: nat)
    requires x % 2 == y % 2
    ensures (x + z) % 2 == (y + z) % 2
  {
  }

  lemma SameHalves(x: nat, y: nat, p: nat)
    requires x / 2 == y / 2 && x % 2 == p % 2 == y % 2
    ensures x == y
  {
  }

  /** `a | b` on natural numbers, bit by bit. */
  function BitOr(a: nat, b: nat): nat {
    if a == 0 && b == 0 then 0 else (if a % 2 == 1 || b % 2 == 1 then 1 else 0) + 2 * BitOr(a / 2, b / 2)
  }

  /** Setting a bit above all others adds it. */
  lemma {:induction false} BitOrAbove(a: nat, n: nat)
    requires a < Pow2(n)
    ensures BitOr(a, Pow2(n)) == a + Pow2(n)
  {
    if n == 0 {
      assert BitOr(0, 1) == 1 + 2 * BitOr(0, 0);
    } else {
      BitOrAbove(a / 2, n - 1);
    }
  }

  /** `1 << n`. */
  function Pow2(n: nat): (p: nat)
    ensures p >= 1
  {
    if n == 0 then 1 else 2 * Pow2(n - 1)
  }

  function Xor(a: byte, b: byte): byte {
    assert Pow2(8) == 256 by { assert Pow2(4) == 16; assert Pow2(6) == 64;}
    BitXorBound(a, b, 8);
    BitXor(a, b)
  }

  // ----- integers as bytes -----

  function BigEndian(s: seq<byte>): (n: nat) {
    if s == [] then 0 else
      var low: int := s[|s| - 1];
      256 * BigEndian(s[..|s| - 1]) + low
  }

  function Pow256(n: nat): (p: nat)
    ensures p >= 1
  {
    if n == 0 then 1 else 256 * Pow256(n - 1)
  }

  lemma {:induction false} BigEndianBound(s: seq<byte>)
    ensures BigEndian(s) < Pow256(|s|)
  {
    if s != [] { BigEndianBound(s[..|s| - 1]); }
  }

  function ToBigEndian(n: nat, size: nat): (s: seq<byte>)
    ensures |s| == size
  {
    if size == 0 then [] else ToBigEndian(n / 256, size - 1) + [n % 256]
  }

  lemma {:induction false} BigEndianRoundTrip(n: nat, size: nat)
    requires n < Pow256(size)
    ensures BigEndian(ToBigEndian(n, size)) == n
  {
    if size > 0 {
      BigEndianRoundTrip(n / 256, size - 1);
      assert ToBigEndian(n, size)[..size - 1] == ToBigEndian(n / 256, size - 1);
    }
  }

  // ----- pieces -----

  /** `s[lo:hi]` in Python, for `0 <= lo <= hi`. */
  function Cut(s: seq<byte>, lo: nat, hi: nat): seq<byte>
    requires lo <= hi
  {
    s[if lo < |s| then lo else |s|..if hi < |s| then hi else |s|]
  }

  lemma InRest<T>(a: seq<T>, b: seq<T>, k: nat)
    requires k < |b|
    ensures (a + b)[|a| + k] == b[k]
  {
  }

  function Flatten<T>(pieces: seq<seq<T>>): seq<T> {
    if pieces == [] then [] else Flatten(pieces[..|pieces| - 1]) + pieces[|pieces| - 1]
  }

  lemma {:induction false} FlattenPrefix<T>(pieces: seq<seq<T>>, c: nat)
    requires c <= |pieces|
    ensures Flatten(pieces[..c]) <= Flatten(pieces)
    decreases |pieces|
  {
    if c == |pieces| {
      assert pieces[..c] == pieces;
    } else {
      FlattenPrefix(pieces[..|pieces| - 1], c);
      assert pieces[..|pieces| - 1][..c] == pieces[..c];
    }
  }

  /** Pieces of one size lie at the multiples of that size. */
  lemma {:induction false} PieceAt<T>(pieces: seq<seq<T>>, size: nat, k: nat)
    requires k < |pieces| && forall i :: 0 <= i < |pieces| ==> |pieces[i]| == size
    ensures |Flatten(pieces)| == |pieces| * size
    ensures 0 <= k * size <= k * size + size <= |Flatten(pieces)|
    ensures Flatten(pieces)[k * size..k * size + size] == pieces[k]
    decreases |pieces|
  {
    var n := |pieces|;
    if n == 1 {
      assert pieces[..0] == [];
    } else {
      PieceAt(pieces[..n - 1], size, if k < n - 1 then k else 0);
      PieceBounds(n - 1, k, size);
    }
  }

  lemma PieceBounds(n: nat, k: nat, size: nat)
    requires k <= n
    ensures n * size + size == (n + 1) * size && k * size <= n * size && (k < n ==> k * size + size <= n * size)
  {
    if k < n { assert (k + 1) * size <= n * size; }
  }
}
