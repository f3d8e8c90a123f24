/** The loop of lzjb_compress: the flag byte of the current group is patched in place. */
module LzjbCompressLoop {
  import opened Bytes
  import opened LzjbFormat
  import opened LzjbCompress

  /** `f << k`. */
  function Shift(f: nat, k: nat): nat {
    if k == 0 then f else 2 * Shift(f, k - 1)
  }

  lemma {:induction false} ShiftBound(f: nat, k: nat, n: nat)
    requires f < Pow2(n)
    ensures Shift(f, k) + Pow2(k) <= Pow2(k + n)
  {
    if k > 0 { ShiftBound(f, k - 1, n); }
  }

  lemma {:induction false} ShiftSplit(bit: nat, f: nat, k: nat)
    requires bit <= 1
    ensures Shift(bit + 2 * f, k) == (if bit == 1 then Pow2(k) else 0) + Shift(f, k + 1)
  {
    if k > 0 { ShiftSplit(bit, f, k - 1); }
  }

  /** A flag byte whose low `k` bits are set already, once the flags of the items still to come are in. */
  function Patched(low: nat, k: nat, items: Items): (b: nat)
    requires k <= 8 && low < Pow2(k)
    ensures b < 256
  {
    ShiftBound(Flags(items, k), k, 8 - k);
    Pow2Eight();
    low + Shift(Flags(items, k), k)
  }

  lemma PatchedNext(low: nat, k: nat, items: Items)
    requires k < 8 && low < Pow2(k) && items.Emit?
    ensures var low' := if items.first.Copy? then low + Pow2(k) else low;
      low' < Pow2(k + 1) && Patched(low', k + 1, items.rest) == Patched(low, k, items)
  {
    ShiftSplit(if items.first.Copy? then 1 else 0, Flags(items.rest, k + 1), k);
  }

  lemma PatchedFull(low: nat, items: Items)
    requires low < Pow2(8)
    ensures Patched(low, 8, items) == low
  {
    ShiftZero(8);
  }

  lemma {:induction false} ShiftZero(k: nat)
    ensures Shift(0, k) == 0
  {
    if k > 0 { ShiftZero(k - 1); }
  }

  function Later(items: Items, k: nat): seq<byte>
    requires k < 8 && AllFit(items)
  {
    Pack(items, k, [])
  }

  lemma LaterIs(items: Items, k: nat)
    requires k < 8 && AllFit(items) && items.Emit?
    ensures var rest := ItemBytes(items.first) + Later(items.rest, Next(k));
      Later(items, k) == if k == 0 then [FlagByte(items)] + rest else rest
  {
    assert FromItem(items, k, []) == ItemBytes(items.first) + Later(items.rest, Next(k));
  }

  function Next(k: nat): nat { if k == 7 then 0 else k + 1 }

  /** What the output will be, when the flag byte at `copymap` has room for `items`. */
  function Open(dst: seq<byte>, copymap: nat, k: nat, items: Items): seq<byte>
    requires k < 8 && copymap < |dst| && dst[copymap] < Pow2(k) && items.Emit? && AllFit(items)
  {
    dst[copymap := Patched(dst[copymap], k, items)] + (ItemBytes(items.first) + Later(items.rest, Next(k)))
  }

  /** What the output will be, at the head of the loop; `k` flags of the byte at `copymap` are used, and if
      that is none of them, a new flag byte is due. */
  function Completed(dst: seq<byte>, copymap: nat, k: nat, items: Items): seq<byte>
    requires k < 8 && AllFit(items) && (k > 0 ==> copymap < |dst| && dst[copymap] < Pow2(k))
  {
    if k == 0 then dst + Later(items, 0)
    else dst[copymap := Patched(dst[copymap], k, items)] + Later(items, k)
  }

  lemma OpenNew(dst: seq<byte>, copymap: nat, items: Items)
    requires items.Emit? && AllFit(items)
    ensures Open(dst + [0], |dst|, 0, items) == Completed(dst, copymap, 0, items)
  {
    FlagByteIsPatched(items);
    LaterIs(items, 0);
    var rest := ItemBytes(items.first) + Later(items.rest, 1);
    LastSet(dst, FlagByte(items), rest);
  }

  lemma OpenSame(dst: seq<byte>, copymap: nat, k: nat, items: Items)
    requires 0 < k < 8 && copymap < |dst| && dst[copymap] < Pow2(k) && items.Emit? && AllFit(items)
    ensures Open(dst, copymap, k, items) == Completed(dst, copymap, k, items)
  {
    LaterIs(items, k);
  }

  lemma FlagByteIsPatched(items: Items)
    ensures Patched(0, 0, items) == FlagByte(items)
  {
  }

  lemma LastSet(dst: seq<byte>, b: byte, rest: seq<byte>)
    ensures (dst + [0])[|dst| := b] + rest == dst + ([b] + rest)
  {
  }

  lemma Regroup(dst: seq<byte>, at: nat, flags: byte, patched: byte, mid: seq<byte>, rest: seq<byte>)
    requires at < |dst|
    ensures (dst[at := flags] + mid)[at := patched] + rest == dst[at := patched] + (mid + rest)
  {
  }

  /** Emitting an item under a flag byte with more room: `flags` replaces the flag byte. */
  lemma OpenEmit(dst: seq<byte>, copymap: nat, k: nat, items: Items, flags: byte)
    requires k < 7 && copymap < |dst| && dst[copymap] < Pow2(k) && items.Emit? && AllFit(items)
    requires flags == if items.first.Copy? then dst[copymap] + Pow2(k) else dst[copymap]
    ensures flags < Pow2(k + 1)
    ensures Completed(dst[copymap := flags] + ItemBytes(items.first), copymap, k + 1, items.rest)
      == Open(dst, copymap, k, items)
  {
    PatchedNext(dst[copymap], k, items);
    Regroup(dst, copymap, flags, Patched(dst[copymap], k, items), ItemBytes(items.first), Later(items.rest, k + 1));
  }

  /** The last item under a flag byte. */
  lemma OpenFull(dst: seq<byte>, copymap: nat, items: Items, flags: byte)
    requires copymap < |dst| && dst[copymap] < Pow2(7) && items.Emit? && AllFit(items)
    requires flags == if items.first.Copy? then dst[copymap] + Pow2(7) else dst[copymap]
    ensures Completed(dst[copymap := flags] + ItemBytes(items.first), copymap, 0, items.rest)
      == Open(dst, copymap, 7, items)
  {
    PatchedNext(dst[copymap], 7, items);
    PatchedFull(flags, items.rest);
    Regroup(dst, copymap, flags, flags, ItemBytes(items.first), Later(items.rest, 0));
    SetTwice(dst, copymap, flags, ItemBytes(items.first));
  }

  lemma SetTwice(dst: seq<byte>, at: nat, b: byte, mid: seq<byte>)
    requires at < |dst|
    ensures (dst[at := b] + mid)[at := b] == dst[at := b] + mid
  {
  }

  // ----- the loop -----

  lemma SlicesOfThree(src: seq<byte>, pos: nat, cpy: nat)
    requires cpy < pos && pos + 3 <= |src|
    ensures src[pos..pos + 3] == src[cpy..cpy + 3] <==> SameThree(src, pos, cpy)
  {
    var x, y := src[pos..pos + 3], src[cpy..cpy + 3];
    assert x[0] == src[pos] && x[1] == src[pos + 1] && x[2] == src[pos + 2];
    assert y[0] == src[cpy] && y[1] == src[cpy + 1] && y[2] == src[cpy + 2];
  }

  /** The loop over MATCH_RANGE; `None` is an index past the end. */
  method MatchLoop(src: seq<byte>, pos: nat, cpy: nat) returns (r: Option<nat>)
    requires cpy < pos && pos + MATCH_MAX <= |src|
    ensures r == MatchEnd(src, pos, cpy, MATCH_MIN)
  {
    var mlen := MATCH_MIN;
    while mlen <= MATCH_MAX
      invariant MATCH_MIN <= mlen <= MATCH_MAX + 1
      invariant MatchEnd(src, pos, cpy, MATCH_MIN) ==
        if mlen <= MATCH_MAX then MatchEnd(src, pos, cpy, mlen) else Some(MATCH_MAX)
    {
      if pos + mlen >= |src| { return None; }
      if src[pos + mlen] != src[cpy + mlen] { return Some(mlen); }
      mlen := mlen + 1;
    }
    return Some(MATCH_MAX);
  }

  /** What an item leaves in the output: its flag is the next one of the byte at `copymap`. */
  ghost predicate Emits(dst: seq<byte>, copymap: nat, k: nat, item: Item, dst': seq<byte>)
    requires copymap < |dst| && Fits(item)
  {
    var flags: int := if item.Copy? then dst[copymap] + Pow2(k) else dst[copymap];
    flags < 256 && dst' == dst[copymap := flags] + ItemBytes(item)
  }

  /** One turn of the loop after the table is read; `ok` is false for the index error. */
  method CopyOrLiteral(src: seq<byte>, pos: nat, offset: nat, dst: seq<byte>, copymap: nat, copymask: nat, ghost k: nat)
    returns (ok: bool, dst': seq<byte>, pos': nat)
    requires pos + MATCH_MAX <= |src| && offset < LEMPEL_SIZE
    requires k < 8 && copymask == Pow2(k) && copymap < |dst| && dst[copymap] < Pow2(k)
    ensures ok <==> Choose(src, offset, pos).Some?
    ensures ok ==> Emits(dst, copymap, k, Choose(src, offset, pos).value, dst')
    ensures ok ==> pos' == pos + Size(Choose(src, offset, pos).value)
  {
    var cpy := pos - offset;
    if cpy >= 0 && cpy != pos { SlicesOfThree(src, pos, cpy); }
    if cpy >= 0 && cpy != pos && src[pos..pos + 3] == src[cpy..cpy + 3] {
      var flags := SetFlag(dst[copymap], copymask, k);
      dst' := dst[copymap := flags];
      var mlen := MatchLoop(src, pos, cpy);
      if mlen.None? { return false, dst', pos; }
      dst' := dst' + [(mlen.value - MATCH_MIN) * 4 + offset / 256, offset % 256];
      return true, dst', pos + mlen.value;
    }
    return true, dst + [src[pos]], pos + 1;
  }

  method SetFlag(flags: byte, copymask: nat, ghost k: nat) returns (flags': byte)
    requires k < 8 && copymask == Pow2(k) && flags < Pow2(k)
    ensures flags' == flags + Pow2(k)
  {
    BitOrAbove(flags, k);
    PowBelow(k);
    flags' := BitOr(flags, copymask);
  }

  lemma PowBelow(k: nat)
    requires k < 8
    ensures 2 * Pow2(k) <= 256
    decreases 8 - k
  {
    if k < 7 { PowBelow(k + 1); } else { Pow2Eight(); }
  }

  method HashAt(src: seq<byte>, pos: nat) returns (hsh: nat)
    requires pos + 2 < |src|
    ensures hsh == Slots(src)[pos] < LEMPEL_SIZE
  {
    var a: int, b: int, c: int := src[pos], src[pos + 1], src[pos + 2];
    hsh := 0x1_0000 * a + 0x100 * b + c;
    hsh := hsh + hsh / 0x200;
    hsh := hsh + hsh / 0x20;
    hsh := hsh % LEMPEL_SIZE;
  }

  /** One turn of the loop, after the mask is shifted. */
  method Turn(src: seq<byte>, ghost slots: seq<nat>, lempel: array<nat>, dst: seq<byte>, copymap: nat, copymask: nat,
              ghost k: nat, pos: nat)
    returns (ok: bool, dst': seq<byte>, pos': nat)
    requires slots == Slots(src) && lempel.Length == LEMPEL_SIZE && pos < |src|
    requires k < 8 && copymask == Pow2(k) && copymap < |dst| && dst[copymap] < Pow2(k)
    modifies lempel
    ensures ok <==> NextItem(src, slots, old(lempel[..]), pos).Some?
    ensures lempel[..] == TableAfter(src, slots, old(lempel[..]), pos)
    ensures ok ==> Emits(dst, copymap, k, NextItem(src, slots, old(lempel[..]), pos).value, dst')
    ensures ok ==> pos' == pos + Size(NextItem(src, slots, old(lempel[..]), pos).value)
  {
    if pos > |src| - MATCH_MAX {
      return true, dst + [src[pos]], pos + 1;
    }
    var hsh := HashAt(src, pos);
    var offset := (pos - lempel[hsh]) % LEMPEL_SIZE;
    assert offset == Offset(lempel[..], slots[pos], pos);
    lempel[hsh] := pos;
    ok, dst', pos' := CopyOrLiteral(src, pos, offset, dst, copymap, copymask, k);
  }

  /** At the head of the loop: the output that is to come is the whole output, and the run ends well
      exactly when the whole run does. */
  ghost predicate OnTrack(all: Items, dst: seq<byte>, copymap: nat, k: nat, items: Items) {
    && AllFit(all) && AllFit(items) && (Finishes(items) <==> Finishes(all))
    && k < 8 && (k > 0 ==> copymap < |dst| && dst[copymap] < Pow2(k))
    && (items != Crash ==> Completed(dst, copymap, k, items) == Later(all, 0))
  }

  /** The same once the flag byte is there. */
  ghost predicate OnTrackOpen(all: Items, dst: seq<byte>, copymap: nat, k: nat, items: Items) {
    && AllFit(all) && AllFit(items) && (Finishes(items) <==> Finishes(all))
    && k < 8 && copymap < |dst| && dst[copymap] < Pow2(k)
    && (items.Emit? ==> Open(dst, copymap, k, items) == Later(all, 0))
  }

  lemma OpenOnTrack(all: Items, dst: seq<byte>, copymap: nat, k: nat, items: Items)
    requires OnTrack(all, dst, copymap, k, items) && !items.Done?
    ensures k == 0 ==> OnTrackOpen(all, dst + [0], |dst|, 0, items)
    ensures k > 0 ==> OnTrackOpen(all, dst, copymap, k, items)
  {
    if items.Emit? {
      if k == 0 { OpenNew(dst, copymap, items); } else { OpenSame(dst, copymap, k, items); }
    }
  }

  lemma EmitMore(all: Items, dst: seq<byte>, copymap: nat, k: nat, items: Items, dst': seq<byte>)
    requires OnTrackOpen(all, dst, copymap, k, items) && items.Emit? && Emits(dst, copymap, k, items.first, dst')
    requires k < 7
    ensures OnTrack(all, dst', copymap, k + 1, items.rest)
  {
    OpenEmit(dst, copymap, k, items, if items.first.Copy? then dst[copymap] + Pow2(k) else dst[copymap]);
  }

  lemma EmitLast(all: Items, dst: seq<byte>, copymap: nat, items: Items, dst': seq<byte>)
    requires OnTrackOpen(all, dst, copymap, 7, items) && items.Emit? && Emits(dst, copymap, 7, items.first, dst')
    ensures OnTrack(all, dst', copymap, 0, items.rest)
  {
    OpenFull(dst, copymap, items, if items.first.Copy? then dst[copymap] + Pow2(7) else dst[copymap]);
  }

  lemma EmitOnTrack(all: Items, dst: seq<byte>, copymap: nat, k: nat, items: Items, dst': seq<byte>)
    requires OnTrackOpen(all, dst, copymap, k, items) && items.Emit? && Emits(dst, copymap, k, items.first, dst')
    ensures OnTrack(all, dst', copymap, Next(k), items.rest) == true
  {
    if k < 7 {
      EmitMore(all, dst, copymap, k, items, dst');
    } else {
      EmitLast(all, dst, copymap, items, dst');
    }
  }

  /** The mask when `k` flags are used. */
  ghost predicate MaskBefore(copymask: nat, k: nat) {
    copymask == Pow2(if k == 0 then 7 else k - 1)
  }

  /** `copymask <<= 1`, and a new flag byte when it leaves the byte. */
  method ShiftMask(dst: seq<byte>, copymap: nat, copymask: nat, ghost k: nat)
    returns (dst': seq<byte>, copymap': nat, copymask': nat)
    requires k < 8 && MaskBefore(copymask, k)
    ensures copymask' == Pow2(k) && MaskBefore(copymask', Next(k)) == true
    ensures if k == 0 then dst' == dst + [0] && copymap' == |dst| else dst' == dst && copymap' == copymap
  {
    dst', copymap', copymask' := dst, copymap, copymask * 2;
    Pow2Eight();
    if k > 0 { PowBelow(k - 1); PowBelowStrictly(k); }
    if copymask' == 0x100 {
      copymask' := 1;
      copymap' := |dst|;
      dst' := dst + [0];
    }
  }

  lemma PowBelowStrictly(k: nat)
    requires k < 8
    ensures Pow2(k) < 256
  {
    PowBelow(k);
  }

  /** What is left of the run. */
  ghost predicate Left(src: seq<byte>, slots: seq<nat>, lempel: seq<nat>, pos: nat, items: Items) {
    && pos <= |src| && |lempel| == LEMPEL_SIZE && AreSlots(src, slots)
    && items == ItemsFrom(src, slots, lempel, pos)
  }

  lemma LeftNext(src: seq<byte>, slots: seq<nat>, lempel: seq<nat>, pos: nat, items: Items)
    requires Left(src, slots, lempel, pos, items) && pos < |src|
    ensures match NextItem(src, slots, lempel, pos)
      case None => items == Crash
      case Some(item) => (items.Emit? && items.first == item
        && Left(src, slots, TableAfter(src, slots, lempel, pos), pos + Size(item), items.rest) == true)
  {
  }

  /** One round of the loop; `k` flags of the current byte are used, and `items` are left. */
  method Round(src: seq<byte>, ghost slots: seq<nat>, ghost all: Items, lempel: array<nat>,
               dst: seq<byte>, copymap: nat, copymask: nat, pos: nat, ghost k: nat, ghost items: Items)
    returns (ok: bool, dst': seq<byte>, copymap': nat, copymask': nat, pos': nat)
    requires pos < |src| && lempel.Length == LEMPEL_SIZE && slots == Slots(src)
    requires Left(src, slots, lempel[..], pos, items) == true
    requires OnTrack(all, dst, copymap, k, items) == true
    requires MaskBefore(copymask, k) == true
    modifies lempel
    ensures ok ==> pos < pos' && items.Emit?
    ensures ok ==> Left(src, slots, lempel[..], pos', items.rest) == true
    ensures ok ==> OnTrack(all, dst', copymap', Next(k), items.rest) == true
    ensures ok ==> MaskBefore(copymask', Next(k)) == true
    ensures !ok ==> !Finishes(all)
  {
    OpenOnTrack(all, dst, copymap, k, items);
    LeftNext(src, slots, lempel[..], pos, items);
    dst', copymap', copymask' := ShiftMask(dst, copymap, copymask, k);
    ghost var shifted := dst';
    ok, dst', pos' := Turn(src, slots, lempel, dst', copymap', copymask', k, pos);
    if ok {
      EmitOnTrack(all, shifted, copymap', k, items, dst');
    }
  }

  method Compress(src: seq<byte>) returns (r: Option<seq<byte>>)
    ensures r == Compressed(src)
  {
    var lempel := new nat[LEMPEL_SIZE](_ => 0);
    var dst: seq<byte>, copymap: nat, copymask: nat, pos: nat := [], 0, 0x80, 0;
    ghost var slots, all, k: nat := Slots(src), AllItems(src), 0;
    ghost var items := all;
    assert lempel[..] == EmptyTable();
    StartOnTrack(src);
    while pos < |src|
      invariant fresh(lempel) && lempel.Length == LEMPEL_SIZE
      invariant Left(src, slots, lempel[..], pos, items) == true
      invariant OnTrack(all, dst, copymap, k, items) == true
      invariant MaskBefore(copymask, k) == true
      decreases |src| - pos
    {
      var ok;
      ok, dst, copymap, copymask, pos := Round(src, slots, all, lempel, dst, copymap, copymask, pos, k, items);
      if !ok { return None; }
      k, items := Next(k), items.rest;
    }
    EndOnTrack(all, dst, copymap, k, items);
    return Some(dst);
  }

  lemma StartOnTrack(src: seq<byte>)
    ensures Left(src, Slots(src), EmptyTable(), 0, AllItems(src)) == true
    ensures OnTrack(AllItems(src), [], 0, 0, AllItems(src)) == true
    ensures MaskBefore(0x80, 0) == true
  {
    assert Pow2(4) == 16;
  }

  lemma EndOnTrack(all: Items, dst: seq<byte>, copymap: nat, k: nat, items: Items)
    requires OnTrack(all, dst, copymap, k, items) == true && items.Done?
    ensures Finishes(all) && Pack(all, 0, []) == dst
  {
    CompletedIs(dst, copymap, k);
  }

  lemma CompletedIs(dst: seq<byte>, copymap: nat, k: nat)
    requires k < 8 && (k > 0 ==> copymap < |dst| && dst[copymap] < Pow2(k))
    ensures Completed(dst, copymap, k, Done) == dst
  {
    ShiftZero(k);
  }
}
