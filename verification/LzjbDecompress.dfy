/** lzjb_decompress, with a fresh output buffer. */
module LzjbDecompress {
  import opened Bytes
  import opened LzjbFormat

  datatype Outcome = Raises | ReturnsNone | Returns(dst: seq<byte>)

  /** How many turns pass before the next flag byte is read. */
  function TurnsLeft(copymask: nat): (n: nat)
    decreases 128 - copymask
  {
    if copymask == 0 || copymask >= 128 then 0 else 1 + TurnsLeft(2 * copymask)
  }

  predicate Mask(m: nat) { m in {1, 2, 4, 8, 16, 32, 64, 128} }

  /** The copy loop: it stops when the output is complete; `None` is an index error, for offset 0. */
  function CopyUpTo(dst: seq<byte>, offset: nat, mlen: nat, dlen: nat): (r: Option<seq<byte>>)
    requires offset <= |dst| <= dlen
    ensures r.Some? ==> |dst| <= |r.value| <= dlen
    decreases mlen
  {
    if mlen == 0 || |dst| == dlen then Some(dst)
    else if offset == 0 then None
    else CopyUpTo(dst + [dst[|dst| - offset]], offset, mlen - 1, dlen)
  }

  /** One item: the new position and output, or the end of it all. */
  datatype Next = Stop(outcome: Outcome) | Go(pos: nat, dst: seq<byte>)

  function TakeItem(src: seq<byte>, pos: nat, copy: bool, dst: seq<byte>, dlen: nat): (r: Next)
    requires |dst| <= dlen && pos <= |src|
    ensures r.Go? ==> pos <= r.pos <= |src| && |dst| <= |r.dst| <= dlen
  {
    if copy then
      if pos + 1 >= |src| then Stop(Raises)
      else
        var first: int, second: int := src[pos], src[pos + 1];
        var mlen, offset := first / 4 + MATCH_MIN, (256 * first + second) % 1024;
        if offset > |dst| then Stop(ReturnsNone)
        else
          match CopyUpTo(dst, offset, mlen, dlen)
          case None => Stop(Raises)
          case Some(dst') => Go(pos + 2, dst')
    else if |dst| < dlen then
      if pos >= |src| then Stop(Raises) else Go(pos + 1, dst + [src[pos]])
    else Go(pos, dst)
  }

  lemma {:induction false} CopyFails(dst: seq<byte>, offset: nat, mlen: nat, dlen: nat)
    requires offset <= |dst| <= dlen
    ensures CopyUpTo(dst, offset, mlen, dlen).None? <==> offset == 0 && mlen > 0 && |dst| < dlen
    decreases mlen
  {
    if mlen > 0 && |dst| < dlen && offset > 0 {
      CopyFails(dst + [dst[|dst| - offset]], offset, mlen - 1, dlen);
    }
  }

  /** What ends decompression at an item: nothing is returned for a copy that starts before the output; an
      index error is a copy of fewer than two bytes, a literal past the end, or a copy from offset 0. */
  lemma TakeFails(src: seq<byte>, pos: nat, copy: bool, dst: seq<byte>, dlen: nat)
    requires |dst| <= dlen && pos <= |src|
    ensures var r, there := TakeItem(src, pos, copy, dst, dlen), pos + 2 <= |src|;
      if !copy then r.Stop? <==> |dst| < dlen && pos == |src|
      else
        && (r == Stop(ReturnsNone) <==> there && var b: int, c: int := src[pos], src[pos + 1]; b % 4 * 256 + c > |dst|)
        && (r == Stop(Raises) <==> !there || (src[pos] % 4 == 0 && src[pos + 1] == 0 && |dst| < dlen))
    ensures !copy ==> TakeItem(src, pos, copy, dst, dlen) != Stop(ReturnsNone)
    ensures forall d :: TakeItem(src, pos, copy, dst, dlen) != Stop(Returns(d))
  {
    if copy && pos + 2 <= |src| {
      var b: int, c: int := src[pos], src[pos + 1];
      OffsetIs(b, c);
      if (256 * b + c) % 1024 <= |dst| { CopyFails(dst, (256 * b + c) % 1024, b / 4 + MATCH_MIN, dlen); }
    }
  }

  lemma OffsetIs(b: int, c: int)
    requires 0 <= b < 256 && 0 <= c < 256
    ensures (256 * b + c) % 1024 == b % 4 * 256 + c
  {
  }

  function Decode(src: seq<byte>, pos: nat, copymap: nat, copymask: nat, dst: seq<byte>, dlen: nat): (r: Outcome)
    requires pos <= |src| && |dst| <= dlen && Mask(copymask)
    ensures r.Returns? ==> |r.dst| <= dlen
    decreases |src| - pos, TurnsLeft(copymask)
  {
    if pos == |src| then Returns(dst)
    else
      var mask := if copymask == 128 then 1 else 2 * copymask;
      var map', pos' := if copymask == 128 then src[pos] else copymap, if copymask == 128 then pos + 1 else pos;
      match TakeItem(src, pos', map' / mask % 2 == 1, dst, dlen)
      case Stop(outcome) => outcome
      case Go(pos'', dst') => Decode(src, pos'', map', mask, dst', dlen)
  }

  function Decompressed(src: seq<byte>, dlen: nat): Outcome {
    Decode(src, 0, 0, 128, [], dlen)
  }

  // ----- the loops -----

  method CopyLoop(dst0: seq<byte>, offset: nat, mlen0: nat, dlen: nat) returns (r: Option<seq<byte>>)
    requires offset <= |dst0| <= dlen
    ensures r == CopyUpTo(dst0, offset, mlen0, dlen)
  {
    var dst, mlen, dpos := dst0, mlen0, |dst0|;
    var cpy := dpos - offset;
    while mlen > 0 && dpos < dlen
      invariant |dst0| <= dpos == |dst| <= dlen && cpy == dpos - offset && 0 <= mlen
      invariant CopyUpTo(dst0, offset, mlen0, dlen) == CopyUpTo(dst, offset, mlen, dlen)
      decreases mlen
    {
      if cpy >= |dst| {
        return None;
      }
      dst := dst + [dst[cpy]];
      dpos, cpy, mlen := dpos + 1, cpy + 1, mlen - 1;
    }
    return Some(dst);
  }

  method TakeOne(src: seq<byte>, pos: nat, copy: bool, dst: seq<byte>, dpos: nat, dlen: nat) returns (r: Next)
    requires |dst| == dpos <= dlen && pos <= |src|
    ensures r == TakeItem(src, pos, copy, dst, dlen)
  {
    if copy {
      if pos + 1 >= |src| {
        return Stop(Raises);
      }
      var first: int, second: int := src[pos], src[pos + 1];
      var mlen := first / 4 + MATCH_MIN;
      var offset := (256 * first + second) % 1024;
      if dpos - offset < 0 {
        return Stop(ReturnsNone);
      }
      var copied := CopyLoop(dst, offset, mlen, dlen);
      return if copied.None? then Stop(Raises) else Go(pos + 2, copied.value);
    } else if dpos < dlen {
      if pos >= |src| {
        return Stop(Raises);
      }
      return Go(pos + 1, dst + [src[pos]]);
    }
    return Go(pos, dst);
  }

  /** lzjb_decompress terminates on every input and never appends more than `dlen` bytes. */
  method Decompress(src: seq<byte>, dlen: nat) returns (r: Outcome)
    ensures r == Decompressed(src, dlen)
  {
    var pos: nat, copymap: nat, copymask: nat := 0, 0, 128;
    var dst: seq<byte> := [];
    while pos < |src|
      invariant pos <= |src| && |dst| <= dlen && Mask(copymask)
      invariant Decompressed(src, dlen) == Decode(src, pos, copymap, copymask, dst, dlen)
      decreases |src| - pos, TurnsLeft(copymask)
    {
      copymask := 2 * copymask;
      if copymask == 256 {
        copymask := 1;
        copymap := src[pos];
        pos := pos + 1;
      }
      var next := TakeOne(src, pos, copymap / copymask % 2 == 1, dst, |dst|, dlen);
      if next.Stop? {
        return next.outcome;
      }
      pos, dst := next.pos, next.dst;
    }
    return Returns(dst);
  }
}
