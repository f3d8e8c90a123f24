/** Decoding a packed stream, with any number of zero bytes after it, gives what its items mean. */
module LzjbRoundTrip {
  import opened Arithmetic
  import opened Bytes
  import opened Copies
  import opened LzjbFormat
  import opened LzjbDecompress

  ghost predicate Zeros(s: seq<byte>) {
    forall i :: 0 <= i < |s| ==> s[i] == 0
  }

  lemma HalfAgain(n: nat, p: nat)
    requires p > 0
    ensures n / p / 2 == n / (2 * p)
  {
    var q, r := n / p, n % p;
    assert n == q * p + r;
    assert q == q / 2 * 2 + q % 2;
    assert n == q / 2 * (2 * p) + (q % 2 * p + r) by {
      assert q * p == (q / 2 * 2 + q % 2) * p == q / 2 * (2 * p) + q % 2 * p;
    }
    var x := q % 2 * p + r;
    assert 0 <= x < 2 * p by { assert q % 2 == 0 || q % 2 == 1; }
    DivMod(q / 2, 2 * p, x);
  }

  /** Once the output is complete, zero bytes are read as flags that announce nothing. */
  lemma {:induction false} ZerosEnd(src: seq<byte>, pos: nat, copymap: nat, copymask: nat, dst: seq<byte>)
    requires pos <= |src| && Mask(copymask) && Zeros(src[pos..])
    requires copymask == 128 || copymap / (2 * copymask) == 0
    ensures Decode(src, pos, copymap, copymask, dst, |dst|) == Returns(dst)
    decreases |src| - pos, TurnsLeft(copymask)
  {
    if pos < |src| {
      if copymask == 128 {
        assert src[pos] == src[pos..][0];
        assert src[pos + 1..] == src[pos..][1..];
        ZerosEnd(src, pos + 1, 0, 1, dst);
      } else {
        HalfAgain(copymap, 2 * copymask);
        ZerosEnd(src, pos, copymap, 2 * copymask, dst);
      }
    }
  }

  lemma {:induction false} CopyUpToIsCopyBack(dst: seq<byte>, offset: nat, n: nat, dlen: nat)
    requires 1 <= offset <= |dst| && |dst| + n <= dlen
    ensures CopyUpTo(dst, offset, n, dlen) == Some(CopyBack(dst, offset, n))
    decreases n
  {
    if n > 0 { CopyUpToIsCopyBack(dst + [dst[|dst| - offset]], offset, n - 1, dlen); }
  }

  lemma FieldsRoundTrip(length: nat, offset: nat)
    requires Fits(Copy(length, offset))
    ensures var s := ItemBytes(Copy(length, offset));
      var first: int, second: int := s[0], s[1];
      first / 4 + MATCH_MIN == length && (256 * first + second) % 1024 == offset
  {
  }

  lemma TakesLiteral(src: seq<byte>, pos: nat, b: byte, dst: seq<byte>, dlen: nat)
    requires pos < |src| && src[pos] == b && |dst| < dlen
    ensures TakeItem(src, pos, false, dst, dlen) == Go(pos + 1, Apply(dst, Literal(b)))
  {
  }

  lemma TakesCopy(src: seq<byte>, pos: nat, length: nat, offset: nat, dst: seq<byte>, dlen: nat)
    requires Fits(Copy(length, offset)) && offset <= |dst| && |dst| + length <= dlen
    requires pos + 2 <= |src| && src[pos] == ItemBytes(Copy(length, offset))[0]
    requires src[pos + 1] == ItemBytes(Copy(length, offset))[1]
    ensures TakeItem(src, pos, true, dst, dlen) == Go(pos + 2, Apply(dst, Copy(length, offset)))
  {
    FieldsRoundTrip(length, offset);
    CopyUpToIsCopyBack(dst, offset, length, dlen);
  }

  lemma TakesItem(src: seq<byte>, pos: nat, item: Item, rest: seq<byte>, dst: seq<byte>, dlen: nat)
    requires Fits(item) && (item.Copy? ==> item.offset <= |dst|) && |dst| + Size(item) <= dlen
    requires pos <= |src| && src[pos..] == ItemBytes(item) + rest
    ensures TakeItem(src, pos, item.Copy?, dst, dlen) == Go(|src| - |rest|, Apply(dst, item))
    ensures src[|src| - |rest|..] == rest
  {
    var n := |ItemBytes(item)|;
    assert src[pos + n..] == src[pos..][n..] == rest;
    assert src[pos] == src[pos..][0];
    match item
    case Literal(b) => TakesLiteral(src, pos, b, dst, dlen);
    case Copy(length, offset) =>
      assert src[pos + 1] == src[pos..][1];
      TakesCopy(src, pos, length, offset, dst, dlen);
  }

  /** The mask of the last flag used, when `k` flags of the current byte are used. */
  function LastMask(k: nat): nat
    requires k < 8
  {
    if k == 0 then 128 else Pow2(k - 1)
  }

  /** The flags that are left announce the items to come. */
  ghost predicate Ready(copymap: nat, items: Items, k: nat)
    requires k < 8
  {
    k > 0 ==> copymap / Pow2(k) == Flags(items, k)
  }

  lemma Masks(k: nat)
    requires k < 8
    ensures Mask(LastMask(k)) && LastMask((k + 1) % 8) == Pow2(k)
    ensures k > 0 ==> LastMask(k) != 128 && 2 * LastMask(k) == Pow2(k)
    ensures k == 7 ==> Pow2(k) == 128
  {
    assert Pow2(0) == 1 && Pow2(1) == 2 && Pow2(2) == 4 && Pow2(3) == 8;
    assert Pow2(4) == 16 && Pow2(5) == 32;
    assert Pow2(6) == 64 && Pow2(7) == 128;
  }

  /** The flag of the first item, and the flags after it. */
  lemma FlagOfFirst(copymap: nat, items: Items, k: nat)
    requires k < 8 && items.Emit? && copymap / Pow2(k) == Flags(items, k)
    ensures (copymap / Pow2(k) % 2 == 1) == items.first.Copy?
    ensures Ready(copymap, items.rest, (k + 1) % 8)
  {
    HalfAgain(copymap, Pow2(k));
  }

  lemma ReadsByte(src: seq<byte>, pos: nat, b: byte, rest: seq<byte>)
    requires pos <= |src| && src[pos..] == [b] + rest
    ensures pos < |src| && src[pos] == b && src[pos + 1..] == rest
  {
    assert src[pos] == src[pos..][0];
    assert src[pos + 1..] == src[pos..][1..];
  }

  /** Reading the flag byte, if one is due. */
  lemma ReadsFlags(src: seq<byte>, pos: nat, copymap: nat, items: Items, k: nat, z: seq<byte>)
    returns (pos': nat, map': nat)
    requires k < 8 && items.Emit? && AllFit(items) && Ready(copymap, items, k)
    requires pos <= |src| && src[pos..] == Pack(items, k, z)
    ensures pos < |src| && pos' == (if k == 0 then pos + 1 else pos) && map' == (if k == 0 then src[pos] else copymap)
    ensures pos' <= |src| && src[pos'..] == FromItem(items, k, z)
    ensures map' / Pow2(k) == Flags(items, k)
  {
    if k == 0 {
      ReadsByte(src, pos, FlagByte(items), FromItem(items, k, z));
      assert Pow2(k) == 1;
    } else {
      assert |FromItem(items, k, z)| > 0;
    }
    pos' := if k == 0 then pos + 1 else pos;
    map' := if k == 0 then src[pos] else copymap;
  }

  lemma DecodeStep(src: seq<byte>, pos: nat, copymap: nat, k: nat, dst: seq<byte>, dlen: nat, pos': nat, map': nat,
      copy: bool, next: nat, dst': seq<byte>)
    requires k < 8 && pos < |src| && |dst| <= dlen
    requires pos' == (if k == 0 then pos + 1 else pos) && map' == (if k == 0 then src[pos] else copymap)
    requires (map' / Pow2(k) % 2 == 1) == copy && TakeItem(src, pos', copy, dst, dlen) == Go(next, dst')
    ensures Mask(LastMask(k)) && Mask(LastMask((k + 1) % 8))
    ensures Decode(src, pos, copymap, LastMask(k), dst, dlen)
         == Decode(src, next, map', LastMask((k + 1) % 8), dst', dlen)
  {
    Masks(k);
    Masks((k + 1) % 8);
  }

  lemma ExpandsFirst(items: Items, dst: seq<byte>, full: seq<byte>) returns (dst': seq<byte>)
    requires items.Emit? && AllFit(items) && InRange(items, |dst|) && Expand(dst, items) == full
    ensures dst' == Apply(dst, items.first) && |dst| + Size(items.first) <= |full|
    ensures AllFit(items.rest) && InRange(items.rest, |dst'|) && Expand(dst', items.rest) == full
  {
    dst' := Apply(dst, items.first);
    assert dst' <= full;
  }

  lemma DecodesFirst(src: seq<byte>, pos: nat, copymap: nat, items: Items, k: nat, dst: seq<byte>, dlen: nat,
      z: seq<byte>)
    returns (next: nat, map': nat, k': nat)
    requires k < 8 && items.Emit? && AllFit(items) && InRange(items, |dst|) && |dst| + Size(items.first) <= dlen
    requires Ready(copymap, items, k) && pos <= |src| && src[pos..] == Pack(items, k, z)
    ensures k' < 8 && Mask(LastMask(k)) && Mask(LastMask(k')) && Ready(map', items.rest, k')
    ensures next <= |src| && src[next..] == Pack(items.rest, k', z)
    ensures Decode(src, pos, copymap, LastMask(k), dst, dlen)
         == Decode(src, next, map', LastMask(k'), Apply(dst, items.first), dlen)
  {
    k' := (k + 1) % 8;
    var rest := Pack(items.rest, k', z);
    var pos';
    pos', map' := ReadsFlags(src, pos, copymap, items, k, z);
    FlagOfFirst(map', items, k);
    TakesItem(src, pos', items.first, rest, dst, dlen);
    next := |src| - |rest|;
    DecodeStep(src, pos, copymap, k, dst, dlen, pos', map', items.first.Copy?, next, Apply(dst, items.first));
  }

  lemma DecodesEnd(src: seq<byte>, pos: nat, copymap: nat, items: Items, k: nat, dst: seq<byte>, z: seq<byte>)
    requires k < 8 && !items.Emit? && Ready(copymap, items, k)
    requires pos <= |src| && src[pos..] == z && Zeros(z)
    ensures Mask(LastMask(k)) && Decode(src, pos, copymap, LastMask(k), dst, |dst|) == Returns(dst)
  {
    Masks(k);
    ZerosEnd(src, pos, copymap, LastMask(k), dst);
  }

  /** Every stream that packs items which fit, stay in range and add up to `dlen` bytes is decoded to
      what the items mean. */
  lemma {:induction false} DecodesItems(src: seq<byte>, pos: nat, copymap: nat, items: Items, k: nat, dst: seq<byte>,
      full: seq<byte>, z: seq<byte>)
    requires k < 8 && AllFit(items) && InRange(items, |dst|) && Expand(dst, items) == full
    requires Ready(copymap, items, k) && pos <= |src| && src[pos..] == Pack(items, k, z) && Zeros(z)
    ensures Mask(LastMask(k)) && Decode(src, pos, copymap, LastMask(k), dst, |full|) == Returns(full)
    decreases items
  {
    if !items.Emit? {
      DecodesEnd(src, pos, copymap, items, k, dst, z);
    } else {
      var dst' := ExpandsFirst(items, dst, full);
      var next, map', k' := DecodesFirst(src, pos, copymap, items, k, dst, |full|, z);
      DecodesItems(src, next, map', items.rest, k', dst', full, z);
    }
  }

  /** From the start of a stream. */
  lemma DecompressesPacked(items: Items, zeros: seq<byte>)
    requires AllFit(items) && InRange(items, 0) && Zeros(zeros)
    ensures Decompressed(Pack(items, 0, []) + zeros, |Expand([], items)|) == Returns(Expand([], items))
  {
    PackTail(items, 0, zeros);
    var src := Pack(items, 0, zeros);
    assert src[0..] == src;
    DecodesItems(src, 0, 0, items, 0, [], Expand([], items), zeros);
  }
}
