/** Block pointers written from their fields, byte by byte, and read back. */
module BlockPointers {
  import opened Bytes
  import opened BlockDevice
  import Fletcher4

  // ----- little-endian numbers -----

  function ToLittle(n: nat, size: nat): (s: seq<byte>)
    ensures |s| == size
  {
    if size == 0 then [] else [n % 256] + ToLittle(n / 256, size - 1)
  }

  lemma {:induction false} LittleRoundTrip(n: nat, size: nat)
    requires n < Pow256(size)
    ensures LittleEndian(ToLittle(n, size)) == n
  {
    if size > 0 {
      LittleRoundTrip(n / 256, size - 1);
      assert ToLittle(n, size)[1..] == ToLittle(n / 256, size - 1);
    }
  }

  lemma LittleFirst(s: seq<byte>, rest: seq<byte>, n: nat)
    requires s != [] && s[1..] == rest && LittleEndian(rest) == n
    ensures LittleEndian(s) == (s[0] as int) + 0x100 * n
  {
  }

  lemma {:induction false} LittleAppend(a: seq<byte>, b: seq<byte>)
    ensures LittleEndian(a + b) == LittleEndian(a) + Pow256(|a|) * LittleEndian(b)
  {
    if a == [] {
      assert a + b == b;
    } else {
      var rest := a[1..];
      LittleAppend(rest, b);
      LittleFirst(a, rest, LittleEndian(rest));
      LittleFirst(a + b, rest + b, LittleEndian(rest + b));
      Grouped(a[0], LittleEndian(rest), Pow256(|rest|), LittleEndian(b));
    }
  }

  lemma Grouped(low: int, x: int, p: int, y: int)
    ensures low + 0x100 * (x + p * y) == (low + 0x100 * x) + (256 * p) * y
  {
    assert 0x100 * (p * y) == (256 * p) * y;
  }

  lemma {:induction false} LittleIsZero(n: nat, size: nat)
    requires n < Pow256(size)
    ensures AllZero(ToLittle(n, size)) <==> n == 0
  {
    if size > 0 {
      LittleIsZero(n / 256, size - 1);
      var s, rest := ToLittle(n, size), ToLittle(n / 256, size - 1);
      assert s[1..] == rest && s[0] == n % 256;
      if AllZero(s) {
        assert s[0] == 0;
        forall i | 0 <= i < |rest| ensures rest[i] == 0 { assert rest[i] == s[i + 1]; }
      }
      if n == 0 {
        forall i | 0 <= i < |s| ensures s[i] == 0 { if i > 0 { assert s[i] == rest[i - 1]; } }
      }
    }
  }

  lemma Powers()
    ensures Pow256(0) == 1 && Pow256(1) == 0x100 && Pow256(2) == 0x1_0000 && Pow256(3) == 0x100_0000
    ensures Pow256(4) == 0x1_0000_0000 && Pow256(7) == 0x100_0000_0000_0000
    ensures Pow256(8) == 0x1_0000_0000_0000_0000
  {
    assert Pow256(5) == 0x100_0000_0000;
    assert Pow256(6) == 0x1_0000_0000_0000;
  }

  // ----- pointers to blocks on disk -----

  /** One of the three addresses: device, the byte nobody looks at, allocated size, first sector, and whether
      a gang block lies there. Sizes and places count sectors of 512 bytes. */
  datatype Address = Address(vdev: nat, grid: byte, asize: nat, sector: nat, gang: bool) {
    ghost predicate Valid() {
      vdev < 0x1_0000_0000 && asize < 0x100_0000 && sector < 0x8000_0000_0000_0000
    }

    predicate Null() { vdev == 0 && asize == 0 && sector == 0 }

    /** 16 bytes; the gang bit is the highest. */
    function Bytes(): (s: seq<byte>)
      requires Valid()
      ensures |s| == 16
    {
      ToLittle(asize, 3) + [grid] + ToLittle(vdev, 4) + ToLittle(sector % 0x100_0000_0000_0000, 7)
      + [sector / 0x100_0000_0000_0000 + if gang then 128 else 0]
    }
  }

  /** The fields of a block pointer. `lsize` and `psize` count sectors of 512 bytes and are stored less one; `level` is
      the byte with the level and what stands above it, `other` the five words nothing here reads. */
  datatype Pointer = Pointer(dva0: Address, dva1: Address, dva2: Address, lsize: nat, psize: nat, comp: nat,
                             kind: byte, objectType: byte, level: byte, other: seq<byte>, checksum: Fletcher4.Sums)
  {
    ghost predicate Valid() {
      && dva0.Valid() && dva1.Valid() && dva2.Valid()
      && 1 <= lsize <= 0x1_0000 && 1 <= psize <= 0x1_0000 && comp < 128 && |other| == 40
      && 0 <= checksum.a < 0x1_0000_0000_0000_0000 && 0 <= checksum.b < 0x1_0000_0000_0000_0000
      && 0 <= checksum.c < 0x1_0000_0000_0000_0000 && 0 <= checksum.d < 0x1_0000_0000_0000_0000
    }

    /** Copy `d`; a number above 2 means the first. */
    function Dva(d: nat): Address {
      if d == 1 then dva1 else if d == 2 then dva2 else dva0
    }

    predicate Null() { dva0.Null() && dva1.Null() && dva2.Null() }

    function Addresses(): (s: seq<byte>)
      requires Valid()
      ensures |s| == 48
    {
      dva0.Bytes() + dva1.Bytes() + dva2.Bytes()
    }

    function Properties(): (s: seq<byte>)
      requires Valid()
      ensures |s| == 8
    {
      ToLittle(lsize - 1, 2) + ToLittle(psize - 1, 2) + [comp, kind, objectType, level]
    }

    function Sums(): (s: seq<byte>)
      requires Valid()
      ensures |s| == 32
    {
      ToLittle(checksum.a, 8) + ToLittle(checksum.b, 8) + ToLittle(checksum.c, 8) + ToLittle(checksum.d, 8)
    }

    function Bytes(): (bp: BlockPtr)
      requires Valid()
    {
      Addresses() + Properties() + other + Sums()
    }
  }

  /** The bytes from `at` on are `s`. */
  ghost predicate Lies(bp: seq<byte>, at: nat, s: seq<byte>) {
    at + |s| <= |bp| && bp[at..at + |s|] == s
  }

  lemma LiesIn(bp: seq<byte>, at: nat, front: seq<byte>, s: seq<byte>, back: seq<byte>)
    requires Lies(bp, at, front + s + back)
    ensures Lies(bp, at + |front|, s)
  {
    var t := front + s + back;
    SliceOfSlice(bp, at, |t|, |front|, |s|);
    assert t[|front|..|front| + |s|] == s;
  }

  lemma SliceOfSlice(bp: seq<byte>, at: nat, n: nat, from: nat, m: nat)
    requires at + n <= |bp| && from + m <= n
    ensures bp[at..at + n][from..from + m] == bp[at + from..at + from + m]
  {
    var x, y := bp[at..at + n][from..from + m], bp[at + from..at + from + m];
    forall i | 0 <= i < m ensures x[i] == y[i] {
      assert x[i] == bp[at..at + n][from + i] == bp[at + (from + i)];
    }
  }

  lemma ByteLies(bp: seq<byte>, at: nat, s: seq<byte>, i: nat)
    requires Lies(bp, at, s) && i < |s|
    ensures bp[at + i] == s[i]
  {
    assert bp[at..at + |s|][i] == s[i];
  }

  lemma OuterParts(bp: seq<byte>, a: seq<byte>, q: seq<byte>, o: seq<byte>, s: seq<byte>)
    requires bp == a + q + o + s
    ensures Lies(bp, 0, a) && Lies(bp, |a|, q) && Lies(bp, |a| + |q| + |o|, s)
  {
    assert bp[..|a|] == a && bp[|a|..|a| + |q|] == q;
  }

  lemma ThreeParts(bp: seq<byte>, x: seq<byte>, y: seq<byte>, z: seq<byte>)
    requires Lies(bp, 0, x + y + z)
    ensures Lies(bp, 0, x) && Lies(bp, |x|, y) && Lies(bp, |x| + |y|, z)
  {
    var t := x + y + z;
    assert t == [] + x + (y + z) && t == (x + y) + z + [];
    LiesIn(bp, 0, [], x, y + z);
    LiesIn(bp, 0, x, y, z);
    LiesIn(bp, 0, x + y, z, []);
  }

  lemma Parts(p: Pointer)
    requires p.Valid()
    ensures Lies(p.Bytes(), 0, p.dva0.Bytes()) && Lies(p.Bytes(), 16, p.dva1.Bytes())
    ensures Lies(p.Bytes(), 32, p.dva2.Bytes()) && Lies(p.Bytes(), 48, p.Properties())
    ensures Lies(p.Bytes(), 96, p.Sums())
  {
    OuterParts(p.Bytes(), p.Addresses(), p.Properties(), p.other, p.Sums());
    ThreeParts(p.Bytes(), p.dva0.Bytes(), p.dva1.Bytes(), p.dva2.Bytes());
  }

  lemma ReadsSizes(p: Pointer)
    requires p.Valid()
    ensures !Embedded(p.Bytes()) && Compression(p.Bytes()) == p.comp && ChecksumKind(p.Bytes()) == p.kind
    ensures LSize(p.Bytes()) == 512 * p.lsize && PSize(p.Bytes()) == 512 * p.psize
  {
    var bp, s := p.Bytes(), p.Properties();
    Parts(p);
    ByteLies(bp, 48, s, 0);
    ByteLies(bp, 48, s, 1);
    ByteLies(bp, 48, s, 2);
    ByteLies(bp, 48, s, 3);
    ByteLies(bp, 48, s, 4);
    ByteLies(bp, 48, s, 5);
    TwoBytes(p.lsize - 1);
    TwoBytes(p.psize - 1);
  }

  lemma TwoBytes(n: nat)
    requires n < 0x1_0000
    ensures ToLittle(n, 2)[0] == n % 256 && ToLittle(n, 2)[1] == n / 256
  {
    assert ToLittle(n, 2) == [n % 256] + ToLittle(n / 256, 1);
    assert ToLittle(n / 256, 1) == [n / 256 % 256] + ToLittle(n / 256 / 256, 0);
  }

  lemma AddressParts(bp: BlockPtr, at: nat, a: Address)
    requires a.Valid() && Lies(bp, at, a.Bytes())
    ensures Lies(bp, at, ToLittle(a.asize, 3)) && Lies(bp, at + 4, ToLittle(a.vdev, 4))
    ensures Lies(bp, at + 8, ToLittle(a.sector % 0x100_0000_0000_0000, 7))
    ensures at + 16 <= |bp| && bp[at + 15] == a.sector / 0x100_0000_0000_0000 + if a.gang then 128 else 0
  {
    var size, vdev, low := ToLittle(a.asize, 3), ToLittle(a.vdev, 4), ToLittle(a.sector % 0x100_0000_0000_0000, 7);
    var high: byte := a.sector / 0x100_0000_0000_0000 + if a.gang then 128 else 0;
    assert Lies(bp, at, [] + size + ([a.grid] + vdev + low + [high]));
    LiesIn(bp, at, [], size, [a.grid] + vdev + low + [high]);
    assert Lies(bp, at, (size + [a.grid]) + vdev + (low + [high]));
    LiesIn(bp, at, size + [a.grid], vdev, low + [high]);
    LiesIn(bp, at, size + [a.grid] + vdev, low, [high]);
    ByteLies(bp, at, a.Bytes(), 15);
  }

  lemma ReadsSector(bp: BlockPtr, at: nat, a: Address)
    requires a.Valid() && Lies(bp, at, a.Bytes())
    ensures at + 16 <= |bp| && LittleEndian(bp[at + 8..at + 16]) % 0x8000_0000_0000_0000 == a.sector
  {
    var low, high := ToLittle(a.sector % 0x100_0000_0000_0000, 7), bp[at + 15];
    AddressParts(bp, at, a);
    Powers();
    assert bp[at + 8..at + 16] == low + [high];
    LittleAppend(low, [high]);
    LittleRoundTrip(a.sector % 0x100_0000_0000_0000, 7);
    assert [high][1..] == [];
    TopBit(a.sector, a.gang);
  }

  lemma ReadsNull(bp: BlockPtr, at: nat, a: Address)
    requires a.Valid() && Lies(bp, at, a.Bytes())
    ensures at + 16 <= |bp| && (NullDva(bp, at) <==> a.Null())
  {
    var vdev, low := ToLittle(a.vdev, 4), ToLittle(a.sector % 0x100_0000_0000_0000, 7);
    AddressParts(bp, at, a);
    Powers();
    LittleIsZero(a.asize, 3);
    LittleIsZero(a.vdev, 4);
    LittleIsZero(a.sector % 0x100_0000_0000_0000, 7);
    assert bp[at + 4..at + 15] == vdev + low;
    ZeroBoth(vdev, low);
    TopBit(a.sector, a.gang);
  }

  /** The address of 16 bytes is read back. */
  lemma ReadsAddress(bp: BlockPtr, at: nat, a: Address)
    requires a.Valid() && Lies(bp, at, a.Bytes())
    ensures at + 16 <= |bp| && (NullDva(bp, at) <==> a.Null())
    ensures LittleEndian(bp[at + 8..at + 16]) % 0x8000_0000_0000_0000 == a.sector
    ensures bp[at + 15] >= 128 <==> a.gang
  {
    AddressParts(bp, at, a);
    ReadsNull(bp, at, a);
    ReadsSector(bp, at, a);
    TopBit(a.sector, a.gang);
  }

  lemma ZeroBoth(s: seq<byte>, t: seq<byte>)
    ensures AllZero(s + t) <==> AllZero(s) && AllZero(t)
  {
    if AllZero(s + t) {
      forall i | 0 <= i < |s| ensures s[i] == 0 { assert (s + t)[i] == s[i]; }
      forall i | 0 <= i < |t| ensures t[i] == 0 { assert (s + t)[|s| + i] == t[i]; }
    }
  }

  lemma TopBit(n: nat, bit: bool)
    requires n < 0x8000_0000_0000_0000
    ensures (n % 0x100_0000_0000_0000 + 0x100_0000_0000_0000 * (n / 0x100_0000_0000_0000 + if bit then 128 else 0))
      % 0x8000_0000_0000_0000 == n
    ensures n / 0x100_0000_0000_0000 < 128
  {
  }

  /** All that is read of an address. */
  lemma ReadsDva(p: Pointer, d: nat)
    requires p.Valid()
    ensures Offset(p.Bytes(), d) == 512 * p.Dva(d).sector
    ensures Gang(p.Bytes(), d) <==> p.Dva(d).gang
  {
    Parts(p);
    ReadsSizes(p);
    ReadsAddress(p.Bytes(), DvaAt(d), p.Dva(d));
  }

  lemma ReadsEmpty(p: Pointer)
    requires p.Valid()
    ensures Empty(p.Bytes()) <==> p.Null()
  {
    Parts(p);
    ReadsSizes(p);
    ReadsAddress(p.Bytes(), 0, p.dva0);
    ReadsAddress(p.Bytes(), 16, p.dva1);
    ReadsAddress(p.Bytes(), 32, p.dva2);
  }

  /** Word `i` of the checksum. */
  lemma ReadsWord(bp: BlockPtr, at: nat, n: nat)
    requires n < 0x1_0000_0000_0000_0000 && Lies(bp, at, ToLittle(n, 8))
    ensures LittleEndian(bp[at..at + 8]) == n
  {
    Powers();
    LittleRoundTrip(n, 8);
  }

  lemma FourParts(bp: seq<byte>, at: nat, a: seq<byte>, b: seq<byte>, c: seq<byte>, d: seq<byte>)
    requires Lies(bp, at, a + b + c + d)
    ensures Lies(bp, at, a) && Lies(bp, at + |a|, b)
    ensures Lies(bp, at + |a| + |b|, c) && Lies(bp, at + |a| + |b| + |c|, d)
  {
    var t := a + b + c + d;
    assert t == [] + a + (b + c + d) && t == a + b + (c + d) && t == (a + b) + c + d && t == (a + b + c) + d + [];
    LiesIn(bp, at, [], a, b + c + d);
    LiesIn(bp, at, a, b, c + d);
    LiesIn(bp, at, a + b, c, d);
    LiesIn(bp, at, a + b + c, d, []);
  }

  lemma ReadsSums(p: Pointer)
    requires p.Valid()
    ensures LittleEndian(p.Bytes()[96..104]) == p.checksum.a && LittleEndian(p.Bytes()[104..112]) == p.checksum.b
    ensures LittleEndian(p.Bytes()[112..120]) == p.checksum.c && LittleEndian(p.Bytes()[120..128]) == p.checksum.d
  {
    var bp := p.Bytes();
    Parts(p);
    FourParts(bp, 96, ToLittle(p.checksum.a, 8), ToLittle(p.checksum.b, 8), ToLittle(p.checksum.c, 8),
              ToLittle(p.checksum.d, 8));
    ReadsWord(bp, 96, p.checksum.a);
    ReadsWord(bp, 104, p.checksum.b);
    ReadsWord(bp, 112, p.checksum.c);
    ReadsWord(bp, 120, p.checksum.d);
  }

  // ----- pointers that hold their data -----

  /** 112 bytes of data, in three stretches around two words of the pointer; sizes count bytes. */
  datatype Embedding = Embedding(data: seq<byte>, lsize: nat, psize: nat, comp: nat, etype: byte, objectType: byte,
                                 level: byte, birth: seq<byte>)
  {
    ghost predicate Valid() {
      |data| == 112 && lsize < 0x200_0000 && psize < 128 && comp < 128 && |birth| == 8
    }

    function Bytes(): (bp: BlockPtr)
      requires Valid()
    {
      data[..48] + ToLittle(lsize + 0x200_0000 * psize, 4) + [comp + 128, etype, objectType, level]
      + data[48..72] + birth + data[72..]
    }
  }

  lemma FourBytes(n: nat)
    requires n < 0x1_0000_0000
    ensures ToLittle(n, 4) == [n % 256, n / 0x100 % 256, n / 0x1_0000 % 256, n / 0x100_0000]
  {
    assert ToLittle(n, 4) == [n % 256] + ToLittle(n / 0x100, 3);
    assert ToLittle(n / 0x100, 3) == [n / 0x100 % 256] + ToLittle(n / 0x1_0000, 2);
    assert ToLittle(n / 0x1_0000, 2) == [n / 0x1_0000 % 256] + ToLittle(n / 0x100_0000, 1);
    assert ToLittle(n / 0x100_0000, 1) == [n / 0x100_0000 % 256] + ToLittle(n / 0x1_0000_0000, 0);
  }

  lemma ThreeBytes(n: nat)
    ensures n % 256 + 0x100 * (n / 0x100 % 256) + 0x1_0000 * (n / 0x1_0000 % 256) == n % 0x100_0000
  {
    var x := n / 0x100;
    var y := x / 256;
    assert n == n % 256 + 0x100 * x && x == x % 256 + 256 * y && y == y % 256 + 256 * (y / 256);
    assert n / 0x1_0000 == y;
  }

  lemma HighByte(lsize: nat, psize: nat)
    requires lsize < 0x200_0000
    ensures (lsize + 0x200_0000 * psize) / 0x100_0000 == lsize / 0x100_0000 + 2 * psize
    ensures (lsize + 0x200_0000 * psize) % 0x100_0000 == lsize % 0x100_0000
  {
  }

  lemma Halves(bit: nat, rest: nat)
    requires bit < 2
    ensures (bit + 2 * rest) % 2 == bit && (bit + 2 * rest) / 2 == rest
  {
  }

  lemma SizesInWord(lsize: nat, psize: nat)
    requires lsize < 0x200_0000 && psize < 128
    ensures var n := lsize + 0x200_0000 * psize;
      && n % 256 + 0x100 * (n / 0x100 % 256) + 0x1_0000 * (n / 0x1_0000 % 256) + 0x100_0000 * (n / 0x100_0000 % 2)
         == lsize
      && n / 0x100_0000 / 2 == psize && n < 0x1_0000_0000
  {
    var n, bit := lsize + 0x200_0000 * psize, lsize / 0x100_0000;
    ThreeBytes(n);
    HighByte(lsize, psize);
    Halves(bit, psize);
    assert lsize == lsize % 0x100_0000 + 0x100_0000 * bit;
  }

  lemma ReadsEmbedding(e: Embedding)
    requires e.Valid()
    ensures Embedded(e.Bytes()) && !Empty(e.Bytes()) && EmbeddedData(e.Bytes()) == e.data
    ensures LSize(e.Bytes()) == e.lsize && PSize(e.Bytes()) == e.psize && Compression(e.Bytes()) == e.comp
    ensures forall d: nat :: Offset(e.Bytes(), d) == 0 && !Gang(e.Bytes(), d)
  {
    var bp := e.Bytes();
    SizesInWord(e.lsize, e.psize);
    FourBytes(e.lsize + 0x200_0000 * e.psize);
    assert bp[..48] + bp[56..80] + bp[88..] == e.data[..48] + e.data[48..72] + e.data[72..] == e.data;
  }
}
