/** lzjb_compress, with a fresh output buffer. */
module LzjbCompress {
  import opened Arithmetic
  import opened Bytes
  import opened Copies
  import opened LzjbFormat
  import opened LzjbDecompress
  import opened LzjbRoundTrip

  // ----- the hash -----

  function HashOf(a: nat, b: nat, c: nat): (h: nat)
    ensures h < LEMPEL_SIZE
  {
    var h0 := 0x1_0000 * a + 0x100 * b + c;
    var h1 := h0 + h0 / 0x200;
    var h2 := h1 + h1 / 0x20;
    h2 % LEMPEL_SIZE
  }

  /** The table slot of every position that has three bytes. All that follows, except in `Compressed`,
      holds for any slots. */
  function Slots(src: seq<byte>): (slots: seq<nat>)
    ensures AreSlots(src, slots)
  {
    seq(|src|, i requires 0 <= i < |src| =>
      if i + 2 < |src| then HashOf(src[i], src[i + 1], src[i + 2]) else 0)
  }

  /** The slot of three bytes, in one formula. */
  lemma SlotIs(src: seq<byte>, i: nat)
    requires i + 2 < |src|
    ensures var b0: int, b1: int, b2: int := src[i], src[i + 1], src[i + 2];
      Slots(src)[i] == 33 * (513 * (65536 * b0 + 256 * b1 + b2) / 512) / 32 % 1024
  {
    var b0: int, b1: int, b2: int := src[i], src[i + 1], src[i + 2];
    var h := 65536 * b0 + 256 * b1 + b2;
    PlusShifted(h, 512);
    PlusShifted(h + h / 512, 32);
  }

  lemma PlusShifted(h: nat, n: nat)
    requires n > 0
    ensures h + h / n == (n + 1) * h / n
  {
    Division(h, n);
    var q, r := h / n, h % n;
    assert (n + 1) * h == (h + q) * n + r;
    DivMod(h + q, n, r);
  }

  ghost predicate AreSlots(src: seq<byte>, slots: seq<nat>) {
    |slots| == |src| && forall i :: 0 <= i < |slots| ==> slots[i] < LEMPEL_SIZE
  }

  // ----- one item -----

  /** Where the match loop stops, counting from `m`; `None` is an index past the end. */
  function MatchEnd(src: seq<byte>, pos: nat, cpy: nat, m: nat): (r: Option<nat>)
    requires cpy < pos && m <= MATCH_MAX && pos + MATCH_MAX <= |src|
    ensures r.Some? ==> m <= r.value <= MATCH_MAX
    ensures r.None? ==> pos + MATCH_MAX == |src|
    decreases MATCH_MAX - m
  {
    if pos + m >= |src| then None
    else if src[pos + m] != src[cpy + m] || m == MATCH_MAX then Some(m)
    else MatchEnd(src, pos, cpy, m + 1)
  }

  lemma {:induction false} MatchEndRepeats(src: seq<byte>, pos: nat, cpy: nat, m: nat)
    requires cpy < pos && m <= MATCH_MAX && pos + MATCH_MAX <= |src|
    ensures var r := MatchEnd(src, pos, cpy, m); r.Some? ==> Periodic(src, pos + m, pos + r.value, pos - cpy)
    ensures MatchEnd(src, pos, cpy, m).None? <==> pos + MATCH_MAX == |src| && Periodic(src, pos + m, |src|, pos - cpy)
    decreases MATCH_MAX - m
  {
    if pos + m < |src| {
      assert EqualsBack(src, pos + m, pos - cpy) <==> src[pos + m] == src[cpy + m];
      if m < MATCH_MAX { MatchEndRepeats(src, pos, cpy, m + 1); }
    }
  }

  predicate SameThree(src: seq<byte>, pos: nat, cpy: nat)
    requires cpy < pos && pos + 3 <= |src|
  {
    src[pos] == src[cpy] && src[pos + 1] == src[cpy + 1] && src[pos + 2] == src[cpy + 2]
  }

  /** The item at `pos`, given the offset from the table. */
  function Choose(src: seq<byte>, offset: nat, pos: nat): (r: Option<Item>)
    requires pos + MATCH_MAX <= |src| && offset < LEMPEL_SIZE
    ensures r.Some? ==> Fits(r.value) && pos + Size(r.value) <= |src|
    ensures r.None? ==> pos + MATCH_MAX == |src|
  {
    if 1 <= offset <= pos && SameThree(src, pos, pos - offset) then
      match MatchEnd(src, pos, pos - offset, MATCH_MIN)
      case None => None
      case Some(mlen) => Some(Copy(mlen, offset))
    else Some(Literal(src[pos]))
  }

  /** How far back the table points, modulo 1024. */
  function Offset(lempel: seq<nat>, slot: nat, pos: nat): (offset: nat)
    requires |lempel| == LEMPEL_SIZE && slot < LEMPEL_SIZE
    ensures offset < LEMPEL_SIZE
  {
    (pos - lempel[slot]) % LEMPEL_SIZE
  }

  /** The next item; `None` is the index error. The table may hold anything. */
  function NextItem(src: seq<byte>, slots: seq<nat>, lempel: seq<nat>, pos: nat): (r: Option<Item>)
    requires pos < |src| && |lempel| == LEMPEL_SIZE && AreSlots(src, slots)
    ensures r.Some? ==> Fits(r.value) && pos + Size(r.value) <= |src|
    ensures r.None? ==> pos + MATCH_MAX == |src|
  {
    if pos > |src| - MATCH_MAX then Some(Literal(src[pos])) else Choose(src, Offset(lempel, slots[pos], pos), pos)
  }

  function TableAfter(src: seq<byte>, slots: seq<nat>, lempel: seq<nat>, pos: nat): (lempel': seq<nat>)
    requires pos < |src| && |lempel| == LEMPEL_SIZE && AreSlots(src, slots)
    ensures |lempel'| == LEMPEL_SIZE
  {
    if pos > |src| - MATCH_MAX then lempel else lempel[slots[pos] := pos]
  }

  /** An item says the truth about the source, whatever the table held. */
  ghost predicate True(src: seq<byte>, pos: nat, item: Item) {
    && Fits(item) && pos + Size(item) <= |src|
    && (item.Literal? ==> item.b == src[pos])
    && (item.Copy? ==> Periodic(src, pos, pos + item.length, item.offset))
  }

  lemma FirstThree(src: seq<byte>, pos: nat, cpy: nat, hi: nat)
    requires cpy < pos && pos + 3 <= hi <= |src|
    ensures Periodic(src, pos, hi, pos - cpy) <==> Periodic(src, pos + 3, hi, pos - cpy) && SameThree(src, pos, cpy)
  {
    var offset := pos - cpy;
    if Periodic(src, pos, hi, offset) {
      assert EqualsBack(src, pos, offset) && EqualsBack(src, pos + 1, offset) && EqualsBack(src, pos + 2, offset);
    }
    if Periodic(src, pos + 3, hi, offset) && SameThree(src, pos, cpy) {
      forall k | pos <= k < pos + 3 ensures EqualsBack(src, k, offset) {
        assert k == pos || k == pos + 1 || k == pos + 2;
      }
    }
  }

  /** Not only does a chosen item say the truth: the index error happens exactly when the last 66 bytes
      repeat at the offset from the table. */
  lemma ChooseIsTrue(src: seq<byte>, offset: nat, pos: nat)
    requires pos + MATCH_MAX <= |src| && offset < LEMPEL_SIZE
    ensures var r := Choose(src, offset, pos); r.Some? ==> True(src, pos, r.value)
    ensures Choose(src, offset, pos).None? <==>
      pos + MATCH_MAX == |src| && 1 <= offset && Periodic(src, pos, |src|, offset)
  {
    if 1 <= offset <= pos {
      var r := Choose(src, offset, pos);
      MatchEndRepeats(src, pos, pos - offset, MATCH_MIN);
      FirstThree(src, pos, pos - offset, if r.None? || r.value.Literal? then |src| else pos + r.value.length);
    }
  }

  lemma NextItemIsTrue(src: seq<byte>, slots: seq<nat>, lempel: seq<nat>, pos: nat)
    requires pos < |src| && |lempel| == LEMPEL_SIZE && AreSlots(src, slots)
    ensures var r := NextItem(src, slots, lempel, pos); r.Some? ==> True(src, pos, r.value)
  {
    if pos + MATCH_MAX <= |src| {
      ChooseIsTrue(src, Offset(lempel, slots[pos], pos), pos);
    }
  }

  // ----- the run -----

  /** What the loop emits from `pos` on. */
  function ItemsFrom(src: seq<byte>, slots: seq<nat>, lempel: seq<nat>, pos: nat): (items: Items)
    requires pos <= |src| && |lempel| == LEMPEL_SIZE && AreSlots(src, slots)
    ensures AllFit(items)
    decreases |src| - pos
  {
    if pos == |src| then Done
    else
      match NextItem(src, slots, lempel, pos)
      case None => Crash
      case Some(item) => Emit(item, ItemsFrom(src, slots, TableAfter(src, slots, lempel, pos), pos + Size(item)))
  }

  // ----- the items mean the source -----

  lemma TrueMeans(src: seq<byte>, pos: nat, item: Item)
    requires pos < |src| && True(src, pos, item)
    ensures item.Copy? ==> item.offset <= pos
    ensures Apply(src[..pos], item) == src[..pos + Size(item)]
  {
    match item
    case Literal(b) => assert src[..pos] + [b] == src[..pos + 1];
    case Copy(length, offset) => PeriodicIsCopyBack(src, pos, pos + length, offset);
  }

  /** From `pos` on, the items fit, stay in range, cover no more than the source and, if they finish,
      mean the rest of the source. */
  ghost predicate Mean(src: seq<byte>, pos: nat, items: Items)
    requires pos <= |src|
  {
    && AllFit(items) && InRange(items, pos) && TotalSize(items) <= |src| - pos
    && (Finishes(items) ==> Expand(src[..pos], items) == src)
  }

  lemma MeanEmit(src: seq<byte>, pos: nat, item: Item, rest: Items)
    requires pos < |src| && True(src, pos, item) && Mean(src, pos + Size(item), rest)
    ensures Mean(src, pos, Emit(item, rest))
  {
    TrueMeans(src, pos, item);
  }

  lemma MeanEnd(src: seq<byte>)
    ensures Mean(src, |src|, Done) && forall pos :: 0 <= pos <= |src| ==> Mean(src, pos, Crash)
  {
    assert src[..|src|] == src;
  }

  lemma {:induction false} ItemsMeanSource(src: seq<byte>, slots: seq<nat>, lempel: seq<nat>, pos: nat)
    requires pos <= |src| && |lempel| == LEMPEL_SIZE && AreSlots(src, slots)
    ensures Mean(src, pos, ItemsFrom(src, slots, lempel, pos))
    decreases |src| - pos
  {
    MeanEnd(src);
    if pos < |src| {
      NextItemIsTrue(src, slots, lempel, pos);
      match NextItem(src, slots, lempel, pos)
      case None =>
      case Some(item) =>
        var lempel' := TableAfter(src, slots, lempel, pos);
        ItemsMeanSource(src, slots, lempel', pos + Size(item));
        MeanEmit(src, pos, item, ItemsFrom(src, slots, lempel', pos + Size(item)));
    }
  }

  // ----- the results -----

  function EmptyTable(): seq<nat> {
    seq(LEMPEL_SIZE, _ => 0)
  }

  /** As long as its slot has not been set, a position is compared with the last multiple of 1024. */
  lemma UnseenSlot(src: seq<byte>, pos: nat)
    requires pos + 66 <= |src|
    ensures NextItem(src, Slots(src), EmptyTable(), pos) == Choose(src, pos % 1024, pos)
  {
    EmptyOffset(Slots(src)[pos], pos);
  }

  lemma EmptyOffset(slot: nat, pos: nat)
    requires slot < 1024
    ensures Offset(EmptyTable(), slot, pos) == pos % 1024
  {
    assert EmptyTable()[slot] == 0;
  }

  function AllItems(src: seq<byte>): Items {
    ItemsFrom(src, Slots(src), EmptyTable(), 0)
  }

  /** What lzjb_compress returns; `None` is an index error. */
  function Compressed(src: seq<byte>): Option<seq<byte>> {
    if Finishes(AllItems(src)) then Some(Pack(AllItems(src), 0, [])) else None
  }

  /** Compression followed by decompression is the identity, with any number of zero bytes between. */
  lemma RoundTrip(src: seq<byte>, zeros: seq<byte>)
    requires Compressed(src).Some? && Zeros(zeros)
    ensures Decompressed(Compressed(src).value + zeros, |src|) == Returns(src)
  {
    ItemsMeanSource(src, Slots(src), EmptyTable(), 0);
    assert src[..0] == [];
    DecompressesPacked(AllItems(src), zeros);
  }

  /** Compression adds at most one byte for every eight. */
  lemma ExpansionBound(src: seq<byte>)
    requires Compressed(src).Some?
    ensures |Compressed(src).value| <= |src| + Ceil8(|src|)
  {
    ItemsMeanSource(src, Slots(src), EmptyTable(), 0);
    PackBound(AllItems(src), 0);
  }

  // ----- when there is a result -----

  /** The table when the run reaches the first of the last 66 bytes, if it stops there at all. */
  function TableAtTail(src: seq<byte>, slots: seq<nat>, lempel: seq<nat>, pos: nat): (r: Option<seq<nat>>)
    requires pos <= |src| && |lempel| == LEMPEL_SIZE && AreSlots(src, slots)
    ensures r.Some? ==> |r.value| == LEMPEL_SIZE && MATCH_MAX <= |src|
    decreases |src| - pos
  {
    if pos + MATCH_MAX == |src| then Some(lempel)
    else if pos + MATCH_MAX > |src| then None
    else
      TableAtTail(src, slots, TableAfter(src, slots, lempel, pos), pos + Size(NextItem(src, slots, lempel, pos).value))
  }

  /** The last 66 bytes repeat at the distance the table gives for the first of them. */
  ghost predicate TailCopies(src: seq<byte>, slots: seq<nat>, table: Option<seq<nat>>)
    requires AreSlots(src, slots)
    requires table.Some? ==> |table.value| == LEMPEL_SIZE && MATCH_MAX <= |src|
  {
    table.Some? && TailRepeatsAt(src, Offset(table.value, slots[|src| - MATCH_MAX], |src| - MATCH_MAX))
  }

  ghost predicate TailRepeatsAt(src: seq<byte>, offset: nat)
    requires 66 <= |src|
  {
    1 <= offset < 1024 && Periodic(src, |src| - 66, |src|, offset)
  }

  lemma {:induction false} LiteralsFinish(src: seq<byte>, slots: seq<nat>, lempel: seq<nat>, pos: nat)
    requires pos <= |src| && |lempel| == LEMPEL_SIZE && AreSlots(src, slots) && pos > |src| - MATCH_MAX
    ensures Ends(src, slots, lempel, pos) == true
    decreases |src| - pos
  {
    if pos < |src| { LiteralsFinish(src, slots, lempel, pos + 1); }
  }

  ghost predicate Ends(src: seq<byte>, slots: seq<nat>, lempel: seq<nat>, pos: nat)
    requires pos <= |src| && |lempel| == LEMPEL_SIZE && AreSlots(src, slots)
  {
    Finishes(ItemsFrom(src, slots, lempel, pos))
  }

  lemma FinishesNext(src: seq<byte>, slots: seq<nat>, lempel: seq<nat>, pos: nat, item: Item)
    requires pos < |src| && |lempel| == LEMPEL_SIZE && AreSlots(src, slots)
    requires NextItem(src, slots, lempel, pos) == Some(item)
    ensures Ends(src, slots, lempel, pos) == Ends(src, slots, TableAfter(src, slots, lempel, pos), pos + Size(item))
  {
  }

  lemma FinishesAtTail(src: seq<byte>, slots: seq<nat>, lempel: seq<nat>, pos: nat)
    requires pos + MATCH_MAX == |src| && |lempel| == LEMPEL_SIZE && AreSlots(src, slots)
    ensures Ends(src, slots, lempel, pos) == !TailRepeatsAt(src, Offset(lempel, slots[pos], pos))
  {
    ChooseIsTrue(src, Offset(lempel, slots[pos], pos), pos);
    match NextItem(src, slots, lempel, pos)
    case None =>
    case Some(item) =>
      FinishesNext(src, slots, lempel, pos, item);
      LiteralsFinish(src, slots, TableAfter(src, slots, lempel, pos), pos + Size(item));
  }

  lemma {:induction false} FinishesIff(src: seq<byte>, slots: seq<nat>, lempel: seq<nat>, pos: nat)
    requires pos <= |src| && |lempel| == LEMPEL_SIZE && AreSlots(src, slots)
    ensures Ends(src, slots, lempel, pos) == !TailCopies(src, slots, TableAtTail(src, slots, lempel, pos))
    decreases |src| - pos
  {
    if pos + MATCH_MAX > |src| {
      LiteralsFinish(src, slots, lempel, pos);
    } else if pos + MATCH_MAX == |src| {
      FinishesAtTail(src, slots, lempel, pos);
    } else {
      var item := NextItem(src, slots, lempel, pos).value;
      FinishesNext(src, slots, lempel, pos, item);
      FinishesIff(src, slots, TableAfter(src, slots, lempel, pos), pos + Size(item));
    }
  }

  /** Compression raises exactly when the run stops at the first of the last 66 bytes with a table that
      points to where they repeat. */
  lemma RaisesIff(src: seq<byte>)
    ensures Compressed(src).None? <==> TailCopies(src, Slots(src), TableAtTail(src, Slots(src), EmptyTable(), 0))
  {
    FinishesIff(src, Slots(src), EmptyTable(), 0);
  }

  /** So the round trip is complete, to begin with, for every input whose last 66 bytes do not repeat at
      a distance that fits ten bits. */
  lemma RoundTripComplete(src: seq<byte>, zeros: seq<byte>)
    requires Zeros(zeros)
    requires |src| < 66 || forall offset :: 1 <= offset < 1024 ==> !TailRepeatsAt(src, offset)
    ensures Compressed(src).Some?
    ensures Decompressed(Compressed(src).value + zeros, |src|) == Returns(src)
  {
    RaisesIff(src);
    RoundTrip(src, zeros);
  }

  // ----- a family of inputs for which it is an index error -----

  ghost predicate AllEqual(src: seq<byte>, b: byte) {
    forall i :: 0 <= i < |src| ==> src[i] == b
  }

  lemma {:induction false} MatchEndEqual(src: seq<byte>, b: byte, pos: nat, cpy: nat, m: nat)
    requires AllEqual(src, b) && cpy < pos && m <= MATCH_MAX && pos + MATCH_MAX <= |src|
    ensures MatchEnd(src, pos, cpy, m) == if pos + MATCH_MAX == |src| then None else Some(MATCH_MAX)
    decreases MATCH_MAX - m
  {
    if m < MATCH_MAX { MatchEndEqual(src, b, pos, cpy, m + 1); }
  }

  lemma ChooseEqual(src: seq<byte>, b: byte, offset: nat, pos: nat)
    requires AllEqual(src, b) && 1 <= offset <= pos && offset < LEMPEL_SIZE && pos + MATCH_MAX <= |src|
    ensures Choose(src, offset, pos) == if pos + MATCH_MAX == |src| then None else Some(Copy(MATCH_MAX, offset))
  {
    MatchEndEqual(src, b, pos, pos - offset, MATCH_MIN);
  }

  lemma AnotherRound(n: nat)
    requires n > MATCH_MAX
    ensures n % MATCH_MAX == (n - MATCH_MAX) % MATCH_MAX
  {
  }

  lemma OneLess(n: nat)
    requires n > 1
    ensures (n - 1) % MATCH_MAX == 0 <==> n % MATCH_MAX == 1
  {
  }

  /** Up to the tail, all positions share slot `h`. */
  ghost predicate SameSlots(slots: seq<nat>, h: nat) {
    forall i :: 0 <= i && i + MATCH_MAX <= |slots| ==> slots[i] == h
  }

  /** In equal bytes each position finds the one before. */
  lemma NextEqual(src: seq<byte>, b: byte, slots: seq<nat>, lempel: seq<nat>, pos: nat, h: nat)
    requires AllEqual(src, b) && |lempel| == LEMPEL_SIZE && pos + MATCH_MAX <= |src|
    requires AreSlots(src, slots) && SameSlots(slots, h) && h < LEMPEL_SIZE
    requires lempel[h] < pos <= lempel[h] + MATCH_MAX
    ensures NextItem(src, slots, lempel, pos) ==
      if pos + MATCH_MAX == |src| then None else Some(Copy(MATCH_MAX, pos - lempel[h]))
    ensures TableAfter(src, slots, lempel, pos) == lempel[h := pos]
  {
    ChooseEqual(src, b, pos - lempel[h], pos);
  }

  lemma EqualAtTail(src: seq<byte>, b: byte, slots: seq<nat>, lempel: seq<nat>, pos: nat, h: nat)
    requires AllEqual(src, b) && |lempel| == LEMPEL_SIZE && pos + MATCH_MAX == |src|
    requires AreSlots(src, slots) && SameSlots(slots, h) && h < LEMPEL_SIZE
    requires lempel[h] < pos <= lempel[h] + MATCH_MAX
    ensures Ends(src, slots, lempel, pos) == false
  {
    NextEqual(src, b, slots, lempel, pos, h);
  }

  lemma EqualStep(src: seq<byte>, b: byte, slots: seq<nat>, lempel: seq<nat>, pos: nat, h: nat,
                  lempel': seq<nat>, pos': nat, ends: bool)
    requires AllEqual(src, b) && |lempel| == LEMPEL_SIZE && pos + MATCH_MAX < |src|
    requires AreSlots(src, slots) && SameSlots(slots, h) && h < LEMPEL_SIZE
    requires lempel[h] < pos <= lempel[h] + MATCH_MAX && lempel' == lempel[h := pos] && pos' == pos + MATCH_MAX
    requires Ends(src, slots, lempel', pos') == ends
    ensures Ends(src, slots, lempel, pos) == ends
  {
    NextEqual(src, b, slots, lempel, pos, h);
    FinishesNext(src, slots, lempel, pos, Copy(MATCH_MAX, pos - lempel[h]));
  }

  /** Whether `n` bytes are left from which whole matches do not lead to the end. */
  predicate NotWhole(n: nat) { n == 0 || n % MATCH_MAX != 0 }

  lemma NotWholeIs(n: nat)
    ensures n < MATCH_MAX ==> NotWhole(n)
    ensures n == MATCH_MAX ==> !NotWhole(n)
    ensures n > MATCH_MAX ==> NotWhole(n) == NotWhole(n - MATCH_MAX)
  {
    if n > MATCH_MAX { AnotherRound(n); }
  }

  lemma {:induction false} EqualFrom(src: seq<byte>, b: byte, slots: seq<nat>, lempel: seq<nat>, pos: nat, h: nat,
                                     ends: bool)
    requires AllEqual(src, b) && |lempel| == LEMPEL_SIZE && pos <= |src|
    requires AreSlots(src, slots) && SameSlots(slots, h) && h < LEMPEL_SIZE
    requires lempel[h] < pos <= lempel[h] + MATCH_MAX && ends == NotWhole(|src| - pos)
    ensures Ends(src, slots, lempel, pos) == ends
    decreases |src| - pos
  {
    NotWholeIs(|src| - pos);
    if pos + MATCH_MAX > |src| {
      LiteralsFinish(src, slots, lempel, pos);
    } else if pos + MATCH_MAX == |src| {
      EqualAtTail(src, b, slots, lempel, pos, h);
    } else {
      var lempel', pos' := lempel[h := pos], pos + MATCH_MAX;
      EqualFrom(src, b, slots, lempel', pos', h, ends);
      EqualStep(src, b, slots, lempel, pos, h, lempel', pos', ends);
    }
  }

  lemma EqualFromStart(src: seq<byte>, b: byte, slots: seq<nat>, h: nat)
    requires AllEqual(src, b) && AreSlots(src, slots) && SameSlots(slots, h) && h < LEMPEL_SIZE && |src| >= MATCH_MAX
    ensures Ends(src, slots, EmptyTable(), 0) == (|src| % MATCH_MAX != 1)
  {
    assert NextItem(src, slots, EmptyTable(), 0) == Some(Literal(b));
    FinishesNext(src, slots, EmptyTable(), 0, Literal(b));
    EqualFrom(src, b, slots, EmptyTable()[h := 0], 1, h, NotWhole(|src| - 1));
    OneLess(|src|);
  }

  /** A run of one byte value cannot be compressed exactly when its length is 67, 133, 199, ... */
  lemma RunOfOneByte(src: seq<byte>, b: byte)
    requires AllEqual(src, b)
    ensures Compressed(src).None? <==> (|src| > 1 && |src| % 66 == 1)
  {
    if |src| < MATCH_MAX {
      LiteralsFinish(src, Slots(src), EmptyTable(), 0);
    } else {
      SlotsEqual(src, b);
      EqualFromStart(src, b, Slots(src), HashOf(b, b, b));
    }
  }

  lemma SlotsEqual(src: seq<byte>, b: byte)
    requires AllEqual(src, b)
    ensures SameSlots(Slots(src), HashOf(b, b, b))
  {
    forall i | 0 <= i && i + MATCH_MAX <= |src| ensures Slots(src)[i] == HashOf(b, b, b) {
      assert src[i] == src[i + 1] == src[i + 2] == b;
    }
  }
}
