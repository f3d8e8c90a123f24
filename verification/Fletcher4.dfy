/** fletcher4: four running sums over 32-bit words, and which changes they detect. */
module Fletcher4 {
  import opened Arithmetic
  import opened Bytes

  const MOD := 0x1_0000_0000_0000_0000

  datatype Sums = Sums(a: int, b: int, c: int, d: int)

  /** A little-endian word. */
  function Word(data: seq<byte>, i: nat): (w: nat)
    requires 4 * i + 4 <= |data|
    ensures w < 0x1_0000_0000
  {
    var b0: int, b1: int, b2: int, b3: int := data[4 * i], data[4 * i + 1], data[4 * i + 2], data[4 * i + 3];
    b0 + 0x100 * b1 + 0x1_0000 * b2 + 0x100_0000 * b3
  }

  function Words(data: seq<byte>): (ws: seq<nat>)
    ensures |ws| == |data| / 4 && forall i :: 0 <= i < |ws| ==> ws[i] == Word(data, i)
  {
    seq(|data| / 4, i requires 0 <= i < |data| / 4 => Word(data, i))
  }

  // ----- the closed form -----

  /** The weight in sum `k` of a word that is the `m`th from the end: 1, m, m(m+1)/2, m(m+1)(m+2)/6. */
  function Weight(k: nat, m: nat): nat {
    if k == 0 then 1 else if m == 0 then 0 else Weight(k, m - 1) + Weight(k - 1, m)
  }

  lemma {:induction false} WeightClosed(m: nat)
    ensures Weight(1, m) == m
    ensures 2 * Weight(2, m) == m * (m + 1)
    ensures 6 * Weight(3, m) == m * (m + 1) * (m + 2)
  {
    if m > 0 {
      WeightClosed(m - 1);
      assert m * (m + 1) == (m - 1) * m + 2 * m;
      assert m * (m + 1) * (m + 2) == (m - 1) * m * (m + 1) + 3 * (m * (m + 1));
    }
  }

  function Sum(k: nat, ws: seq<nat>): nat {
    if ws == [] then 0 else ws[0] * Weight(k, |ws|) + Sum(k, ws[1..])
  }

  /** Adding a word adds the new lower sum to each sum, which is what the loop does. */
  lemma {:induction false} SumNext(k: nat, ws: seq<nat>, w: nat)
    ensures k == 0 ==> Sum(k, ws + [w]) == Sum(k, ws) + w
    ensures k > 0 ==> Sum(k, ws + [w]) == Sum(k, ws) + Sum(k - 1, ws + [w])
    decreases k, |ws|
  {
    var next := ws + [w];
    if ws == [] {
      assert next[1..] == [];
      assert k > 0 ==> Weight(k, 1) == Weight(k, 0) + Weight(k - 1, 1);
    } else {
      assert next[1..] == ws[1..] + [w];
      SumNext(k, ws[1..], w);
      if k > 0 {
        Distribute(ws[0], Weight(k, |ws|), Weight(k - 1, |ws| + 1));
      }
    }
  }

  function Unbounded(ws: seq<nat>): Sums {
    Sums(Sum(0, ws), Sum(1, ws), Sum(2, ws), Sum(3, ws))
  }

  /** One turn of the loop. */
  function Next(s: Sums, w: nat): Sums {
    Sums(s.a + w, s.b + (s.a + w), s.c + (s.b + (s.a + w)), s.d + (s.c + (s.b + (s.a + w))))
  }

  lemma UnboundedNext(ws: seq<nat>, w: nat)
    ensures Unbounded(ws + [w]) == Next(Unbounded(ws), w)
  {
    SumNext(0, ws, w);
    SumNext(1, ws, w);
    SumNext(2, ws, w);
    SumNext(3, ws, w);
  }

  function Masked(s: Sums): Sums {
    Sums(s.a % MOD, s.b % MOD, s.c % MOD, s.d % MOD)
  }

  /** The checksum; nothing if the length is no multiple of four, where the padding raises. */
  function Checksum(data: seq<byte>): Option<Sums> {
    if |data| % 4 == 0 then Some(Masked(Unbounded(Words(data)))) else None
  }

  method Compute(data: seq<byte>) returns (r: Option<Sums>)
    ensures r == Checksum(data)
  {
    var l := |data|;
    var e := (4 - l % 4) % 4;
    if e > 0 { return None; }
    var a, b, c, d := 0, 0, 0, 0;
    ghost var ws := Words(data);
    for i := 0 to l / 4
      invariant Sums(a, b, c, d) == Unbounded(ws[..i])
    {
      var v := Word(data, i);
      assert ws[..i + 1] == ws[..i] + [v];
      UnboundedNext(ws[..i], v);
      a := a + v;
      b := b + a;
      c := c + b;
      d := d + c;
    }
    assert ws[..l / 4] == ws;
    return Some(Sums(a % MOD, b % MOD, c % MOD, d % MOD));
  }

  // ----- wrapping at every step -----

  /** The same turn on 64-bit words that wrap. */
  function WrappedNext(s: Sums, w: nat): Sums {
    var a := (s.a + w) % MOD;
    var b := (s.b + a) % MOD;
    var c := (s.c + b) % MOD;
    Sums(a, b, c, (s.d + c) % MOD)
  }

  function Wrapped(ws: seq<nat>): Sums {
    if ws == [] then Sums(0, 0, 0, 0) else WrappedNext(Wrapped(ws[..|ws| - 1]), ws[|ws| - 1])
  }

  lemma AddMod(x: int, y: int)
    ensures (x % MOD + y) % MOD == (x + y) % MOD
    ensures (x + y % MOD) % MOD == (x + y) % MOD
  {
  }

  lemma AddMods(x: int, y: int)
    ensures (x % MOD + y % MOD) % MOD == (x + y) % MOD
  {
    AddMod(x, y % MOD);
    AddMod(x, y);
  }

  lemma WrappedNextIs(s: Sums, w: nat)
    ensures WrappedNext(Masked(s), w) == Masked(Next(s, w))
  {
    AddMod(s.a, w);
    AddMods(s.b, s.a + w);
    AddMods(s.c, s.b + (s.a + w));
    AddMods(s.d, s.c + (s.b + (s.a + w)));
  }

  /** Masking once at the end is the same. */
  lemma {:induction false} WrappedIsMasked(ws: seq<nat>)
    ensures Wrapped(ws) == Masked(Unbounded(ws))
    decreases |ws|
  {
    if ws != [] {
      var init, w := ws[..|ws| - 1], ws[|ws| - 1];
      WrappedIsMasked(init);
      assert ws == init + [w];
      UnboundedNext(init, w);
      WrappedNextIs(Unbounded(init), w);
    }
  }

  // ----- putting checksums together -----

  /** The sums of two runs of words, one after the other, when the second has `n` words. */
  function Combine(s: Sums, n: nat, t: Sums): Sums {
    Sums(s.a + t.a,
         s.b + n * s.a + t.b,
         s.c + n * s.b + Weight(2, n) * s.a + t.c,
         s.d + n * s.c + Weight(2, n) * s.b + Weight(3, n) * s.a + t.d)
  }

  lemma CombineNext(s: Sums, n: nat, t: Sums, w: nat)
    ensures Combine(s, n + 1, Next(t, w)) == Next(Combine(s, n, t), w)
  {
    WeightClosed(n);
    WeightClosed(n + 1);
    assert Weight(2, n + 1) == Weight(2, n) + (n + 1);
    assert Weight(3, n + 1) == Weight(3, n) + Weight(2, n + 1);
    Distribute(s.a, Weight(2, n), n + 1);
    Distribute(s.b, Weight(2, n), n + 1);
    Distribute(s.a, Weight(3, n), Weight(2, n + 1));
    Distribute(s.a, n, 1);
    Distribute(s.b, n, 1);
    Distribute(s.c, n, 1);
  }

  lemma {:induction false} SumsOfConcatenation(ws: seq<nat>, vs: seq<nat>)
    ensures Unbounded(ws + vs) == Combine(Unbounded(ws), |vs|, Unbounded(vs))
    decreases |vs|
  {
    if vs == [] {
      assert ws + vs == ws;
    } else {
      var init, w := vs[..|vs| - 1], vs[|vs| - 1];
      assert vs == init + [w] && ws + vs == (ws + init) + [w];
      SumsOfConcatenation(ws, init);
      UnboundedNext(init, w);
      UnboundedNext(ws + init, w);
      CombineNext(Unbounded(ws), |init|, Unbounded(init), w);
    }
  }

  // ----- which changes are detected -----

  ghost predicate AreWords(ws: seq<nat>) {
    forall i :: 0 <= i < |ws| ==> ws[i] < 0x1_0000_0000
  }

  lemma {:induction false} SumChange(k: nat, ws: seq<nat>, i: nat, x: nat)
    requires i < |ws|
    ensures Sum(k, ws[i := x]) == Sum(k, ws) + (x - ws[i]) * Weight(k, |ws| - i)
    decreases |ws|
  {
    if i == 0 {
      assert ws[0 := x][1..] == ws[1..];
      Distribute(Weight(k, |ws|), ws[0], x - ws[0]);
    } else {
      assert ws[i := x][1..] == ws[1..][i - 1 := x];
      SumChange(k, ws[1..], i - 1, x);
    }
  }

  /** By how much sum `k` grows from `ws` to `vs`, and how much of that word `i` brings about. */
  function Growth(k: nat, ws: seq<nat>, vs: seq<nat>): int {
    Sum(k, vs) - Sum(k, ws)
  }

  function Share(k: nat, ws: seq<nat>, vs: seq<nat>, i: nat): int
    requires i < |ws| == |vs|
  {
    Change(ws, vs, i) * Weight(k, |ws| - i)
  }

  function Change(ws: seq<nat>, vs: seq<nat>, i: nat): int
    requires i < |ws| == |vs|
  {
    (vs[i] as int) - ws[i]
  }

  lemma OneChange(k: nat, ws: seq<nat>, vs: seq<nat>, i: nat)
    requires i < |ws| == |vs| && vs == ws[i := vs[i]]
    ensures Growth(k, ws, vs) == Share(k, ws, vs, i)
  {
    SumChange(k, ws, i, vs[i]);
  }

  lemma SameShare(k: nat, ws: seq<nat>, us: seq<nat>, vs: seq<nat>, ts: seq<nat>, i: nat)
    requires i < |ws| == |us| == |vs| == |ts| && us[i] == ws[i] && vs[i] == ts[i]
    ensures Share(k, us, vs, i) == Share(k, ws, ts, i)
  {
  }

  lemma TwoChanges(k: nat, ws: seq<nat>, vs: seq<nat>, i: nat, j: nat)
    requires i < j < |ws| == |vs| && vs == ws[i := vs[i]][j := vs[j]]
    ensures Growth(k, ws, vs) == Share(k, ws, vs, i) + Share(k, ws, vs, j)
  {
    var us := ws[i := vs[i]];
    OneChange(k, ws, us, i);
    OneChange(k, us, vs, j);
    SameShare(k, ws, ws, us, vs, i);
    SameShare(k, ws, us, vs, vs, j);
  }

  lemma ThreeChanges(k: nat, ws: seq<nat>, vs: seq<nat>, i: nat, j: nat, l: nat)
    requires i < j < l < |ws| == |vs| && vs == ws[i := vs[i]][j := vs[j]][l := vs[l]]
    ensures Growth(k, ws, vs) == Share(k, ws, vs, i) + Share(k, ws, vs, j) + Share(k, ws, vs, l)
  {
    var us := ws[i := vs[i]][j := vs[j]];
    TwoChanges(k, ws, us, i, j);
    OneChange(k, us, vs, l);
    SameShare(k, ws, ws, us, vs, i);
    SameShare(k, ws, ws, us, vs, j);
    SameShare(k, ws, us, vs, vs, l);
  }

  /** Sums that agree modulo 2^64 and are less than that apart are equal. */
  lemma NoGrowth(k: nat, ws: seq<nat>, vs: seq<nat>)
    requires Sum(k, ws) % MOD == Sum(k, vs) % MOD && 0 - MOD < Growth(k, ws, vs) < MOD
    ensures Growth(k, ws, vs) == 0
  {
    SameModulo(Sum(k, vs), Sum(k, ws));
  }

  lemma SameModulo(x: nat, y: nat)
    requires x % MOD == y % MOD && 0 - MOD < x - y < MOD
    ensures x == y
  {
  }

  /** A changed word times a weight. */
  lemma ChangeBound(d: int, w: nat, m: nat)
    requires 0 - 0x1_0000_0000 < d < 0x1_0000_0000 && w <= m
    ensures 0 - 0x1_0000_0000 * m <= d * w <= 0x1_0000_0000 * m
  {
    if d >= 0 {
      assert d * w <= 0x1_0000_0000 * w;
    } else {
      assert (0 - d) * w <= 0x1_0000_0000 * w;
      assert d * w == 0 - (0 - d) * w;
    }
  }

  lemma ProductIsZero(x: int, y: int)
    requires x * y == 0 && y != 0
    ensures x == 0
  {
  }

  /** Two changes whose sum and first moment vanish are none. */
  lemma TwoMoments(d: int, e: int, x: nat, y: nat)
    requires y < x && d + e == 0
    ensures d * x + e * y == d * (x - y)
    ensures d * x + e * y == 0 ==> d == 0
  {
    assert e * y == 0 - d * y;
    if d * (x - y) == 0 { ProductIsZero(d, x - y); }
  }

  lemma Shares(ws: seq<nat>, vs: seq<nat>, i: nat)
    requires i < |ws| == |vs|
    ensures Share(0, ws, vs, i) == Change(ws, vs, i)
    ensures Share(1, ws, vs, i) == Change(ws, vs, i) * (|ws| - i)
    ensures 2 * Share(2, ws, vs, i) == Change(ws, vs, i) * ((|ws| - i) * (|ws| - i + 1))
  {
    WeightClosed(|ws| - i);
    assert Weight(0, |ws| - i) == 1;
    Doubled(Change(ws, vs, i), Weight(2, |ws| - i));
  }

  lemma Doubled(d: int, w: int)
    ensures 2 * (d * w) == d * (2 * w)
  {
  }

  lemma SmallChange(ws: seq<nat>, vs: seq<nat>, i: nat)
    requires i < |ws| == |vs| && AreWords(ws) && AreWords(vs)
    ensures 0 - 0x1_0000_0000 < Change(ws, vs, i) < 0x1_0000_0000
  {
  }

  lemma NothingChanged(ws: seq<nat>, vs: seq<nat>, i: nat, j: nat, l: nat)
    requires i < |ws| && j < |ws| && l < |ws| == |vs| && vs == ws[i := vs[i]][j := vs[j]][l := vs[l]]
    requires Change(ws, vs, i) == Change(ws, vs, j) == Change(ws, vs, l) == 0
    ensures ws == vs
  {
  }

  /** Two words, among fewer than 2^31: the first two sums tell. */
  lemma DetectsTwoWords(ws: seq<nat>, vs: seq<nat>, i: nat, j: nat)
    requires i < j < |ws| == |vs| < 0x8000_0000 && AreWords(ws) && AreWords(vs)
    requires vs == ws[i := vs[i]][j := vs[j]]
    requires Sum(0, ws) % MOD == Sum(0, vs) % MOD && Sum(1, ws) % MOD == Sum(1, vs) % MOD
    ensures ws == vs
  {
    TwoChanges(0, ws, vs, i, j);
    TwoChanges(1, ws, vs, i, j);
    TwoVanish(ws, vs, i, j);
    NothingChanged(ws, vs, i, j, j);
  }

  lemma TwoVanish(ws: seq<nat>, vs: seq<nat>, i: nat, j: nat)
    requires i < j < |ws| == |vs| < 0x8000_0000 && AreWords(ws) && AreWords(vs)
    requires Growth(0, ws, vs) == Share(0, ws, vs, i) + Share(0, ws, vs, j)
    requires Growth(1, ws, vs) == Share(1, ws, vs, i) + Share(1, ws, vs, j)
    requires Sum(0, ws) % MOD == Sum(0, vs) % MOD && Sum(1, ws) % MOD == Sum(1, vs) % MOD
    ensures Change(ws, vs, i) == Change(ws, vs, j) == 0
  {
    var d, e := Change(ws, vs, i), Change(ws, vs, j);
    SmallChange(ws, vs, i);
    SmallChange(ws, vs, j);
    Shares(ws, vs, i);
    Shares(ws, vs, j);
    NoGrowth(0, ws, vs);
    TwoMoments(d, e, |ws| - i, |ws| - j);
    ChangeBound(d, j - i, 0x7FFF_FFFF);
    NoGrowth(1, ws, vs);
  }

  lemma Eliminate(d: int, e: int, f: int, x: int, y: int, z: int)
    requires d + e + f == 0 && d * x + e * y + f * z == 0
    ensures d * (x - z) + e * (y - z) == 0
  {
    assert f * z == 0 - d * z - e * z;
  }

  lemma Factor(d: int, x: int, z: int)
    ensures d * (x * (x + 1) - z * (z + 1)) == (d * (x - z)) * (x + z + 1)
  {
    assert x * (x + 1) - z * (z + 1) == (x - z) * (x + z + 1);
  }

  lemma Opposite(p: int, q: int, s: int, t: int)
    requires p + q == 0 && p * s + q * t == 0
    ensures p * (s - t) == 0
  {
    assert q == 0 - p;
  }

  /** Three changes whose sum and whose first two moments vanish are none. */
  lemma Vandermonde(d: int, e: int, f: int, x: nat, y: nat, z: nat)
    requires z < y < x && d + e + f == 0
    requires d * x + e * y + f * z == 0
    requires d * (x * (x + 1)) + e * (y * (y + 1)) + f * (z * (z + 1)) == 0
    ensures d == 0 && e == 0 && f == 0
  {
    Eliminate(d, e, f, x, y, z);
    Eliminate(d, e, f, x * (x + 1), y * (y + 1), z * (z + 1));
    Factor(d, x, z);
    Factor(e, y, z);
    Opposite(d * (x - z), e * (y - z), x + z + 1, y + z + 1);
    ProductIsZero(d * (x - z), x - y);
    ProductIsZero(d, x - z);
    ProductIsZero(e, y - z);
  }

  lemma ShareBound(ws: seq<nat>, vs: seq<nat>, i: nat)
    requires i < |ws| == |vs| <= 0x8000 && AreWords(ws) && AreWords(vs)
    ensures 0 - 0x1000_0000_0000_0000 * 5 < 2 * Share(2, ws, vs, i) < 0x1000_0000_0000_0000 * 5
    ensures 0 - 0x1_0000_0000_0000 <= Share(1, ws, vs, i) <= 0x1_0000_0000_0000
    ensures 0 - 0x1_0000_0000 <= Share(0, ws, vs, i) <= 0x1_0000_0000
  {
    var m := |ws| - i;
    SmallChange(ws, vs, i);
    Shares(ws, vs, i);
    Triangle(m);
    ChangeBound(Change(ws, vs, i), m * (m + 1), 0x8000 * 0x8001);
    ChangeBound(Change(ws, vs, i), m, 0x8000);
  }

  lemma AtMost(x: nat, y: nat, z: nat)
    requires x <= y
    ensures x * z <= y * z
  {
  }

  lemma Triangle(m: nat)
    requires m <= 0x8000
    ensures m * (m + 1) <= 0x8000 * 0x8001
  {
    AtMost(m, 0x8000, m + 1);
  }

  /** Three words, among at most 2^15 (a block of 128 KiB): the first three sums tell. */
  lemma DetectsThreeWords(ws: seq<nat>, vs: seq<nat>, i: nat, j: nat, l: nat)
    requires i < j < l < |ws| == |vs| <= 0x8000 && AreWords(ws) && AreWords(vs)
    requires vs == ws[i := vs[i]][j := vs[j]][l := vs[l]]
    requires Sum(0, ws) % MOD == Sum(0, vs) % MOD && Sum(1, ws) % MOD == Sum(1, vs) % MOD
    requires Sum(2, ws) % MOD == Sum(2, vs) % MOD
    ensures ws == vs
  {
    NoGrowthOfThree(0, ws, vs, i, j, l);
    NoGrowthOfThree(1, ws, vs, i, j, l);
    NoGrowthOfThree(2, ws, vs, i, j, l);
    MomentsVanish(ws, vs, i, j, l);
    NothingChanged(ws, vs, i, j, l);
  }

  lemma MomentsVanish(ws: seq<nat>, vs: seq<nat>, i: nat, j: nat, l: nat)
    requires i < j < l < |ws| == |vs|
    requires Share(0, ws, vs, i) + Share(0, ws, vs, j) + Share(0, ws, vs, l) == 0
    requires Share(1, ws, vs, i) + Share(1, ws, vs, j) + Share(1, ws, vs, l) == 0
    requires Share(2, ws, vs, i) + Share(2, ws, vs, j) + Share(2, ws, vs, l) == 0
    ensures Change(ws, vs, i) == Change(ws, vs, j) == Change(ws, vs, l) == 0
  {
    Shares(ws, vs, i);
    Shares(ws, vs, j);
    Shares(ws, vs, l);
    Vandermonde(Change(ws, vs, i), Change(ws, vs, j), Change(ws, vs, l), |ws| - i, |ws| - j, |ws| - l);
  }

  lemma NoGrowthOfThree(k: nat, ws: seq<nat>, vs: seq<nat>, i: nat, j: nat, l: nat)
    requires i < j < l < |ws| == |vs| <= 0x8000 && AreWords(ws) && AreWords(vs) && k <= 2
    requires vs == ws[i := vs[i]][j := vs[j]][l := vs[l]] && Sum(k, ws) % MOD == Sum(k, vs) % MOD
    ensures Share(k, ws, vs, i) + Share(k, ws, vs, j) + Share(k, ws, vs, l) == 0
  {
    ThreeChanges(k, ws, vs, i, j, l);
    ShareBound(ws, vs, i);
    ShareBound(ws, vs, j);
    ShareBound(ws, vs, l);
    NoGrowth(k, ws, vs);
  }

  // ----- in terms of bytes -----

  lemma WordsInjective(x: seq<byte>, y: seq<byte>)
    requires |x| == |y| && |x| % 4 == 0 && Words(x) == Words(y)
    ensures x == y
  {
    forall k | 0 <= k < |x| ensures x[k] == y[k] {
      assert Word(x, k / 4) == Words(x)[k / 4] == Word(y, k / 4);
      WordInjective(x, y, k / 4);
      assert k == 4 * (k / 4) || k == 4 * (k / 4) + 1 || k == 4 * (k / 4) + 2 || k == 4 * (k / 4) + 3;
    }
  }

  lemma LowByte(a: nat, b: nat, x: nat, y: nat)
    requires a < 0x100 && b < 0x100 && a + 0x100 * x == b + 0x100 * y
    ensures a == b && x == y
  {
  }

  lemma WordInjective(x: seq<byte>, y: seq<byte>, i: nat)
    requires 4 * i + 4 <= |x| == |y| && Word(x, i) == Word(y, i)
    ensures x[4 * i] == y[4 * i] && x[4 * i + 1] == y[4 * i + 1]
    ensures x[4 * i + 2] == y[4 * i + 2] && x[4 * i + 3] == y[4 * i + 3]
  {
    var a0: int, a1: int, a2: int, a3: int := x[4 * i], x[4 * i + 1], x[4 * i + 2], x[4 * i + 3];
    var b0: int, b1: int, b2: int, b3: int := y[4 * i], y[4 * i + 1], y[4 * i + 2], y[4 * i + 3];
    LowByte(a0, b0, a1 + 0x100 * (a2 + 0x100 * a3), b1 + 0x100 * (b2 + 0x100 * b3));
    LowByte(a1, b1, a2 + 0x100 * a3, b2 + 0x100 * b3);
    LowByte(a2, b2, a3, b3);
  }

  /** All words outside three places are the same. */
  ghost predicate SameBut(x: seq<byte>, y: seq<byte>, i: nat, j: nat, l: nat) {
    && |x| == |y| && |x| % 4 == 0 && i <= j <= l < |x| / 4
    && forall k :: 0 <= k < |x| / 4 && k != i && k != j && k != l ==> Words(x)[k] == Words(y)[k]
  }

  lemma Update(x: seq<byte>, y: seq<byte>, i: nat, j: nat, l: nat)
    requires SameBut(x, y, i, j, l)
    ensures var ws, vs := Words(x), Words(y);
      AreWords(ws) && AreWords(vs) && vs == ws[i := vs[i]][j := vs[j]][l := vs[l]]
  {
  }

  /** A buffer of fewer than 2^31 words with one or two words changed has another checksum. */
  lemma DetectsTwo(x: seq<byte>, y: seq<byte>, i: nat, j: nat)
    requires SameBut(x, y, i, j, j) && |x| / 4 < 0x8000_0000 && x != y
    ensures Checksum(x) != Checksum(y)
  {
    var ws, vs := Words(x), Words(y);
    Update(x, y, i, j, j);
    if Checksum(x) == Checksum(y) {
      if i < j {
        assert vs == ws[i := vs[i]][j := vs[j]];
        DetectsTwoWords(ws, vs, i, j);
      } else {
        DetectsOneWord(ws, vs, i);
      }
      WordsInjective(x, y);
    }
  }

  lemma DetectsOneWord(ws: seq<nat>, vs: seq<nat>, i: nat)
    requires i < |ws| == |vs| && AreWords(ws) && AreWords(vs) && vs == ws[i := vs[i]]
    requires Sum(0, ws) % MOD == Sum(0, vs) % MOD
    ensures ws == vs
  {
    OneChange(0, ws, vs, i);
    Shares(ws, vs, i);
    SmallChange(ws, vs, i);
    NoGrowth(0, ws, vs);
    NothingChanged(ws, vs, i, i, i);
  }

  /** A buffer of at most 128 KiB with up to three words changed has another checksum. */
  lemma DetectsThree(x: seq<byte>, y: seq<byte>, i: nat, j: nat, l: nat)
    requires SameBut(x, y, i, j, l) && |x| <= 0x2_0000 && x != y
    ensures Checksum(x) != Checksum(y)
  {
    if i == j {
      DetectsTwo(x, y, i, l);
    } else if j == l {
      DetectsTwo(x, y, i, j);
    } else {
      Update(x, y, i, j, l);
      if Checksum(x) == Checksum(y) {
        DetectsThreeWords(Words(x), Words(y), i, j, l);
        WordsInjective(x, y);
      }
    }
  }
}
