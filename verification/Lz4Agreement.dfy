/** When the Python decoder returns what the C decoder returns. Both read the same frame: a four-byte
    size `n`, a block of `n` bytes, then padding. Python stops four bytes short of the end of the block
    and reads a match after the last literals, out of the padding. */
module Lz4Agreement {
  import opened Bytes
  import opened Copies
  import opened Lz4Format
  import opened Lz4Encode
  import opened Lz4Python
  import Lz4Fast

  predicate EndsInLiterals(b: Block) {
    b.Cons? && if b.rest.End? then b.first.Last? else EndsInLiterals(b.rest)
  }

  /** How many literals end the block. */
  function LastRun(b: Block): nat
    requires EndsInLiterals(b)
  {
    if b.rest.End? then |b.first.literals| else LastRun(b.rest)
  }

  /** The frame `src` holds `block` after its size. */
  ghost predicate Holds(src: seq<byte>, block: seq<byte>) {
    4 + |block| <= |src| && src[4..4 + |block|] == block
  }

  lemma Shift(src: seq<byte>, block: seq<byte>, a: nat, b: nat)
    requires Holds(src, block) && a <= b <= |block|
    ensures block[a..b] == src[a + 4..b + 4]
  {
    assert forall k :: a <= k < b ==> block[k] == src[k + 4];
  }

  lemma ShiftOffset(src: seq<byte>, block: seq<byte>, ip: nat)
    requires Holds(src, block) && ip + 2 <= |block|
    ensures LittleEndian16(block, ip) == LittleEndian16(src, ip + 4)
  {
    assert block[ip] == src[ip + 4] && block[ip + 1] == src[ip + 5];
  }

  // ----- lengths -----

  lemma {:induction false} SameExtension(src: seq<byte>, block: seq<byte>, ip: nat)
    requires Holds(src, block) && ip <= |block|
    ensures var (sum, next) := Extension(block, ip);
      var r := PyExtension(src, ip + 4, |block|);
      && r.Some? && r.value.0 <= sum
      && (if next + 4 <= |block| then r == Some((sum, next + 4)) else r.value.1 >= |block|)
    decreases |block| - ip
  {
    if ip + 4 < |block| { SameExtension(src, block, ip + 1); }
  }

  lemma SameLength(nibble: nat, src: seq<byte>, block: seq<byte>, ip: nat)
    requires Holds(src, block) && ip <= |block|
    ensures var (length, next) := Length(nibble, block, ip);
      var r := PyLength(nibble, src, ip + 4, |block|);
      && r.Some? && r.value.0 <= length
      && (if next + 4 <= |block| then r == Some((length, next + 4)) else r.value.1 >= |block|)
  {
    SameExtension(src, block, ip);
  }

  // ----- copying -----

  lemma {:induction false} PyCopyIsCopyBack(dst: seq<byte>, off: nat, n: nat)
    requires off <= |dst|
    ensures PyCopy(dst, off, n) == CopyBack(dst, off, n)
    ensures |PyCopy(dst, off, n)| == |dst| + if off == 0 then 0 else n
    decreases n
  {
    if n > 0 {
      var piece := Slice(dst, |dst| - off, |dst| - off + 1);
      if off == 0 {
        assert piece == [] && dst + piece == dst;
      } else {
        assert piece == [dst[|dst| - off]];
      }
      PyCopyIsCopyBack(dst + piece, off, n - 1);
    }
  }

  /** The offsets for which a match appends nothing to `m` bytes. */
  predicate Harmless(m: nat, off: nat) {
    off == 0 || off == m + 1 || off > 2 * m
  }

  lemma {:induction false} HarmlessCopiesNothing(dst: seq<byte>, off: nat, n: nat)
    requires n > 0
    ensures PyCopy(dst, off, n) == dst <==> Harmless(|dst|, off)
    decreases n
  {
    var piece := Slice(dst, |dst| - off, |dst| - off + 1);
    if Harmless(|dst|, off) {
      assert piece == [] && dst + piece == dst;
      if n > 1 { HarmlessCopiesNothing(dst, off, n - 1); }
    } else {
      assert |piece| == 1;
    }
  }

  // ----- one turn -----

  /** A turn whose bytes all lie before Python's end is the same turn in both decoders. */
  lemma SameTurn(src: seq<byte>, block: seq<byte>, ip: nat, op: nat, limit: int)
    requires Holds(src, block) && ip < |block|
    requires var step := NextSequence(block, ip, op, limit); step.Continue? && step.ip + 4 <= |block|
    ensures var step := NextSequence(block, ip, op, limit);
      && PyNext(src, ip + 4, |block|)
         == Some(PyStep(step.start + 4, step.run, step.offset, step.matchLength, step.ip + 4))
      && step.offset <= op + step.run
  {
    var step := NextSequence(block, ip, op, limit);
    var ip2 := step.start + step.run;
    assert block[ip] == src[ip + 4];
    SameLength(block[ip] / 16, src, block, ip + 1);
    SameLength(block[ip] % 16, src, block, ip2 + 2);
    ShiftOffset(src, block, ip2);
  }

  /** What Python makes of the last literals: it reads an offset after the end of the block. */
  lemma LastTurn(src: seq<byte>, block: seq<byte>, ip: nat, op: nat, limit: int) returns (m: nat)
    requires Holds(src, block) && ip < |block|
    requires var step := NextSequence(block, ip, op, limit); step.Finish? && step.run >= 4
    ensures m > 0 && ip + 4 < |block|
    ensures var step := NextSequence(block, ip, op, limit);
      PyNext(src, ip + 4, |block|) ==
        if |src| < |block| + 6 then None
        else Some(PyStep(step.start + 4, step.run, LittleEndian16(src, |block| + 4), m, |block| + 6))
  {
    var step := NextSequence(block, ip, op, limit);
    assert block[ip] == src[ip + 4];
    SameLength(block[ip] / 16, src, block, ip + 1);
    m := if src[ip + 4] % 16 == 15 then 19 else src[ip + 4] % 16 + 4;
  }

  // ----- whole blocks -----

  /** There is room for the last token and its literals after every other sequence. */
  lemma {:induction false} RoomForLast(block: seq<byte>, ip: nat, op: nat, limit: int, b: Block)
    requires ip <= |block| && Parse(block, ip, op, limit) == Parsed(b, Accepted) && EndsInLiterals(b)
    ensures ip + 1 + LastRun(b) <= |block|
    decreases |block| - ip
  {
    var step := NextSequence(block, ip, op, limit);
    if step.Continue? { RoomForLast(block, step.ip, step.op, limit, b.rest); }
  }

  ghost predicate SameLiterals(src: seq<byte>, step: PyStep, literals: seq<byte>) {
    step.start + step.run <= |src| && src[step.start..step.start + step.run] == literals
  }

  /** The plan does what the block says and then, if the padding has two bytes, a match with the
      offset they spell. */
  ghost predicate Follows(src: seq<byte>, plan: Plan, b: Block, padding: Option<nat>)
    requires EndsInLiterals(b)
    decreases b
  {
    if b.rest.End? then
      if padding.None? then plan.Fails?
      else plan.Then? && plan.rest.Done? && SameLiterals(src, plan.step, b.first.literals)
           && plan.step.off == padding.value && plan.step.count > 0
    else
      && plan.Then? && b.first.Match? && SameLiterals(src, plan.step, b.first.literals)
      && plan.step.off == b.first.offset && plan.step.count == b.first.matchLength
      && Follows(src, plan.rest, b.rest, padding)
  }

  function Padding(src: seq<byte>, n: nat): Option<nat> {
    if |src| < n + 6 then None else Some(LittleEndian16(src, n + 4))
  }

  lemma PlanStep(src: seq<byte>, block: seq<byte>, ip: nat, op: nat, limit: int, step: Step)
    requires Holds(src, block) && ip < |block| && step == NextSequence(block, ip, op, limit)
    requires step.Continue? && step.ip + 4 <= |block|
    ensures var plan, s := PyPlan(src, ip + 4, |block|), SequenceAt(block, step);
      && plan.Then? && plan.rest == PyPlan(src, step.ip + 4, |block|)
      && SameLiterals(src, plan.step, s.literals)
      && plan.step.off == s.offset && plan.step.count == s.matchLength
  {
    SameTurn(src, block, ip, op, limit);
    Shift(src, block, step.start, step.start + step.run);
  }

  lemma PlanLast(src: seq<byte>, block: seq<byte>, ip: nat, op: nat, limit: int, step: Step)
    requires Holds(src, block) && ip < |block| && step == NextSequence(block, ip, op, limit)
    requires step.Finish? && step.run >= 4
    ensures Follows(src, PyPlan(src, ip + 4, |block|), Cons(SequenceAt(block, step), End), Padding(src, |block|))
  {
    var m := LastTurn(src, block, ip, op, limit);
    Shift(src, block, step.start, step.start + step.run);
  }

  lemma {:induction false} PlanFollows(src: seq<byte>, block: seq<byte>, ip: nat, op: nat, limit: int, b: Block)
    requires Holds(src, block) && ip <= |block| && Parse(block, ip, op, limit) == Parsed(b, Accepted)
    requires EndsInLiterals(b) && LastRun(b) >= 4
    ensures Follows(src, PyPlan(src, ip + 4, |block|), b, Padding(src, |block|))
    decreases |block| - ip
  {
    var step := NextSequence(block, ip, op, limit);
    if step.Finish? {
      PlanLast(src, block, ip, op, limit, step);
    } else {
      RoomForLast(block, step.ip, step.op, limit, b.rest);
      PlanStep(src, block, ip, op, limit, step);
      PlanFollows(src, block, step.ip, step.op, limit, b.rest);
    }
  }

  /** Every offset points inside the output. */
  predicate InRange(b: Block, op: nat) {
    b.Cons? ==>
      (b.first.Match? ==> b.first.offset <= op + |b.first.literals|) && InRange(b.rest, op + Produced(b.first))
  }

  lemma {:induction false} ParsedInRange(block: seq<byte>, ip: nat, op: nat, limit: int)
    requires ip <= |block|
    ensures InRange(Parse(block, ip, op, limit).block, op)
    decreases |block| - ip
  {
    if ip < |block| {
      var step := NextSequence(block, ip, op, limit);
      if step.Continue? { ParsedInRange(block, step.ip, step.op, limit); }
    }
  }

  lemma {:induction false} PerformExpands(src: seq<byte>, plan: Plan, out: seq<byte>, b: Block, padding: Option<nat>)
    returns (m: nat)
    requires EndsInLiterals(b) && Follows(src, plan, b, padding) && InRange(b, |out|) && NoZeroOffset(b)
    ensures m > 0 && |Expand(out, b)| == |out| + TotalProduced(b)
    ensures Perform(src, plan, out) ==
      if padding.None? then None else Some(PyCopy(Expand(out, b), padding.value, m))
    decreases b
  {
    var out' := Apply(out, b.first);
    if b.rest.End? {
      assert Expand(out, b) == Expand(out', End) == out';
      assert TotalProduced(b) == Produced(b.first);
      m := if padding.None? then 1 else plan.step.count;
      if padding.Some? { assert Perform(src, plan, out) == Perform(src, Done, PyApply(src, plan.step, out)); }
    } else {
      PyCopyIsCopyBack(out + b.first.literals, b.first.offset, b.first.matchLength);
      m := PerformExpands(src, plan.rest, out', b.rest, padding);
    }
  }

  // ----- how much comes out -----

  /** An upper bound on what a plan appends. */
  function PlanTotal(plan: Plan): nat {
    if plan.Then? then plan.step.run + (if plan.step.off == 0 then 0 else plan.step.count) + PlanTotal(plan.rest) else 0
  }

  lemma {:induction false} PerformBound(src: seq<byte>, plan: Plan, dst: seq<byte>)
    ensures var r := Perform(src, plan, dst); r.Some? ==> |r.value| <= |dst| + PlanTotal(plan)
    decreases plan
  {
    if plan.Then? && plan.step.start + plan.step.run <= |src| {
      var out := dst + src[plan.step.start..plan.step.start + plan.step.run];
      if plan.step.off == 0 { PyCopyIsCopyBack(out, 0, plan.step.count); }
      PerformBound(src, plan.rest, PyApply(src, plan.step, dst));
    }
  }

  /** A match whose length bytes reach past Python's end is cut short, and nothing follows it. */
  lemma TruncatedStep(src: seq<byte>, block: seq<byte>, ip: nat, op: nat, limit: int, step: Step)
    requires Holds(src, block) && ip + 4 < |block| && step == NextSequence(block, ip, op, limit)
    requires step.Continue? && step.ip + 4 > |block|
    ensures PlanTotal(PyPlan(src, ip + 4, |block|)) <= step.run + step.matchLength
  {
    var ip2 := step.start + step.run;
    assert block[ip] == src[ip + 4];
    SameLength(block[ip] / 16, src, block, ip + 1);
    SameLength(block[ip] % 16, src, block, ip2 + 2);
    var py := PyNext(src, ip + 4, |block|).value;
    assert py.run == step.run && py.count <= step.matchLength && py.next >= |block|;
    assert PyPlan(src, py.next, |block|) == Done;
  }

  lemma ShortLast(block: seq<byte>, ip: nat, op: nat, limit: int)
    requires ip < |block| && NextSequence(block, ip, op, limit).Finish? && NextSequence(block, ip, op, limit).run <= 3
    ensures ip + 4 >= |block|
  {
  }

  lemma StepTotal(src: seq<byte>, block: seq<byte>, ip: nat, op: nat, limit: int, step: Step)
    requires Holds(src, block) && ip + 4 < |block| && step == NextSequence(block, ip, op, limit) && step.Continue?
    ensures PlanTotal(PyPlan(src, ip + 4, |block|))
         <= step.run + step.matchLength +
            if step.ip + 4 <= |block| then PlanTotal(PyPlan(src, step.ip + 4, |block|)) else 0
  {
    if step.ip + 4 <= |block| {
      PlanStep(src, block, ip, op, limit, step);
    } else {
      TruncatedStep(src, block, ip, op, limit, step);
    }
  }

  /** Length bytes that reach the last byte of the block, or the one before it, lose a 255. */
  lemma {:induction false} ExtensionLoses(src: seq<byte>, block: seq<byte>, ip: nat)
    requires Holds(src, block) && ip + 4 <= |block| && Extension(block, ip).1 >= |block| - 1
    ensures var r := PyExtension(src, ip + 4, |block|); r.Some? && r.value.0 < Extension(block, ip).0
    ensures PyExtension(src, ip + 4, |block|).value.1 >= |block|
    decreases |block| - ip
  {
    if ip + 4 < |block| { ExtensionLoses(src, block, ip + 1); }
  }

  lemma StepLoses(src: seq<byte>, block: seq<byte>, ip: nat, op: nat, limit: int, step: Step)
    requires Holds(src, block) && ip < |block| && step == NextSequence(block, ip, op, limit)
    requires step.Continue? && step.ip >= |block| - 1
    ensures PlanTotal(PyPlan(src, ip + 4, |block|)) < step.run + step.matchLength
  {
    var ip2 := step.start + step.run;
    assert block[ip] == src[ip + 4];
    SameLength(block[ip] / 16, src, block, ip + 1);
    assert block[ip] % 16 == 15;
    ExtensionLoses(src, block, ip2 + 2);
    var py := PyNext(src, ip + 4, |block|).value;
    assert py.run == step.run && py.count < step.matchLength && py.next >= |block|;
    assert PyPlan(src, py.next, |block|) == Done;
  }

  /** What produces nothing is at most a token without literals. */
  lemma NothingProduced(block: seq<byte>, ip: nat, op: nat, limit: int, b: Block)
    requires ip <= |block| && Parse(block, ip, op, limit) == Parsed(b, Accepted) && TotalProduced(b) == 0
    ensures ip >= |block| - 1 && Expand([], b) == [] && NoZeroOffset(b)
  {
    if ip < |block| {
      ParsedPositive(block, ip, op, limit);
      assert b.rest.End?;
      assert Expand([], b) == Expand(Apply([], b.first), End);
    }
  }

  /** The block ends in four literals or more. */
  predicate LongTail(b: Block) {
    EndsInLiterals(b) && LastRun(b) >= 4
  }

  /** Without them Python's output is too short: it stops before the token of the last literals, or loses
      length bytes of the last match. */
  lemma {:induction false} ShortTail(src: seq<byte>, block: seq<byte>, ip: nat, op: nat, limit: int, b: Block)
    requires Holds(src, block) && ip <= |block| && Parse(block, ip, op, limit) == Parsed(b, Accepted)
    requires !LongTail(b) && TotalProduced(b) > 0
    ensures PlanTotal(PyPlan(src, ip + 4, |block|)) < TotalProduced(b)
    decreases |block| - ip
  {
    var step := NextSequence(block, ip, op, limit);
    if step.Finish? {
      ShortLast(block, ip, op, limit);
    } else if TotalProduced(b.rest) == 0 {
      NothingProduced(block, step.ip, step.op, limit, b.rest);
      StepLoses(src, block, ip, op, limit, step);
    } else {
      StepTotal(src, block, ip, op, limit, step);
      ShortTail(src, block, step.ip, step.op, limit, b.rest);
    }
  }

  lemma {:induction false} ZeroOffsetsShorten(src: seq<byte>, plan: Plan, out: seq<byte>, b: Block)
    requires EndsInLiterals(b) && Follows(src, plan, b, Some(0))
    ensures Perform(src, plan, out).Some? && PlanTotal(plan) <= TotalProduced(b)
    ensures !NoZeroOffset(b) && PositiveMatches(b) ==> PlanTotal(plan) < TotalProduced(b)
    decreases b
  {
    if b.rest.End? {
      assert TotalProduced(b.rest) == 0 && PlanTotal(plan.rest) == 0 && NoZeroOffset(b.rest);
      assert Perform(src, plan, out) == Perform(src, Done, PyApply(src, plan.step, out));
    } else {
      ZeroOffsetsShorten(src, plan.rest, PyApply(src, plan.step, out), b.rest);
    }
  }

  predicate PositiveMatches(b: Block) {
    b.Cons? ==> (b.first.Match? ==> b.first.matchLength > 0) && PositiveMatches(b.rest)
  }

  lemma {:induction false} ParsedPositive(block: seq<byte>, ip: nat, op: nat, limit: int)
    requires ip <= |block|
    ensures PositiveMatches(Parse(block, ip, op, limit).block)
    decreases |block| - ip
  {
    if ip < |block| {
      var step := NextSequence(block, ip, op, limit);
      if step.Continue? { ParsedPositive(block, step.ip, step.op, limit); }
    }
  }

  // ----- the results -----

  lemma {:induction false} ExpandLength(out: seq<byte>, b: Block)
    requires InRange(b, |out|) && NoZeroOffset(b)
    ensures |Expand(out, b)| == |out| + TotalProduced(b)
    decreases b
  {
    if b.Cons? {
      if b.first.Match? { CopyBackLength(out + b.first.literals, b.first.offset, b.first.matchLength); }
      ExpandLength(Apply(out, b.first), b.rest);
    }
  }

  /** Whether the padding has two bytes, and they spell an offset that copies nothing. */
  predicate HarmlessPadding(padding: Option<nat>, m: nat) {
    padding.Some? && Harmless(m, padding.value)
  }

  lemma LongTailAgrees(src: seq<byte>, block: seq<byte>, limit: int, b: Block)
    requires Holds(src, block) && Parse(block, 0, 0, limit) == Parsed(b, Accepted)
    requires NoZeroOffset(b) && EndsInLiterals(b) && LastRun(b) >= 4
    ensures Perform(src, PyPlan(src, 4, |block|), []) == Some(Expand([], b))
      <==> HarmlessPadding(Padding(src, |block|), TotalProduced(b))
  {
    var padding := Padding(src, |block|);
    ParsedInRange(block, 0, 0, limit);
    PlanFollows(src, block, 0, 0, limit, b);
    var m := PerformExpands(src, PyPlan(src, 4, |block|), [], b, padding);
    if padding.Some? { HarmlessCopiesNothing(Expand([], b), padding.value, m); }
  }

  lemma TooShort(src: seq<byte>, plan: Plan, b: Block)
    requires InRange(b, 0) && NoZeroOffset(b) && PlanTotal(plan) < TotalProduced(b)
    ensures Perform(src, plan, []) != Some(Expand([], b))
  {
    ExpandLength([], b);
    PerformBound(src, plan, []);
  }

  lemma ShortTailDiffers(src: seq<byte>, block: seq<byte>, limit: int, b: Block)
    requires Holds(src, block) && Parse(block, 0, 0, limit) == Parsed(b, Accepted)
    requires NoZeroOffset(b) && !LongTail(b) && TotalProduced(b) > 0
    ensures Perform(src, PyPlan(src, 4, |block|), []) != Some(Expand([], b))
  {
    ParsedInRange(block, 0, 0, limit);
    ShortTail(src, block, 0, 0, limit, b);
    TooShort(src, PyPlan(src, 4, |block|), b);
  }

  /** For every block the C decoder accepts that has no zero offset, Python returns the same bytes if and
      only if there are none, or at least four literals end the block and two bytes of padding follow that
      spell an offset which copies nothing. Zero padding qualifies. */
  lemma PythonAgreesIff(src: seq<byte>, block: seq<byte>, limit: int, b: Block)
    requires |src| >= 4 && |block| == BigEndian(src[..4]) && Holds(src, block)
    requires Parse(block, 0, 0, limit) == Parsed(b, Accepted) && NoZeroOffset(b)
    ensures PyDecode(src) == Returns(Expand([], b))
      <==> (TotalProduced(b) == 0 || (LongTail(b) && HarmlessPadding(Padding(src, |block|), TotalProduced(b))))
  {
    if TotalProduced(b) == 0 {
      NothingProduced(block, 0, 0, limit, b);
    } else if LongTail(b) {
      LongTailAgrees(src, block, limit, b);
    } else {
      ShortTailDiffers(src, block, limit, b);
    }
  }

  lemma LongTailLength(src: seq<byte>, block: seq<byte>, limit: int, b: Block)
    requires Holds(src, block) && Parse(block, 0, 0, limit) == Parsed(b, Accepted)
    requires LongTail(b) && Padding(src, |block|) == Some(0)
    ensures var r := Perform(src, PyPlan(src, 4, |block|), []);
      r.Some? && (|r.value| == TotalProduced(b) <==> NoZeroOffset(b))
  {
    var plan := PyPlan(src, 4, |block|);
    PlanFollows(src, block, 0, 0, limit, b);
    ZeroOffsetsShorten(src, plan, [], b);
    ParsedPositive(block, 0, 0, limit);
    PerformBound(src, plan, []);
    if NoZeroOffset(b) {
      LongTailAgrees(src, block, limit, b);
      ParsedInRange(block, 0, 0, limit);
      ExpandLength([], b);
    }
  }

  lemma OutputLength(src: seq<byte>, block: seq<byte>, limit: int, b: Block)
    requires Holds(src, block) && Parse(block, 0, 0, limit) == Parsed(b, Accepted) && Padding(src, |block|) == Some(0)
    ensures var r := Perform(src, PyPlan(src, 4, |block|), []);
      r.Some? && |r.value| == TotalProduced(b) <==> NoZeroOffset(b) && (TotalProduced(b) == 0 || LongTail(b))
  {
    if TotalProduced(b) == 0 {
      NothingProduced(block, 0, 0, limit, b);
    } else if LongTail(b) {
      LongTailLength(src, block, limit, b);
    } else {
      ShortTail(src, block, 0, 0, limit, b);
      PerformBound(src, PyPlan(src, 4, |block|), []);
    }
  }

  /** And of all blocks C accepts, with zero padding, Python returns as many bytes as C exactly for those
      that also have no zero offset. */
  lemma ZeroOffsetIff(src: seq<byte>, block: seq<byte>, limit: int, b: Block)
    requires |src| >= 4 && |block| == BigEndian(src[..4]) && Holds(src, block)
    requires Parse(block, 0, 0, limit) == Parsed(b, Accepted) && Padding(src, |block|) == Some(0)
    ensures PyDecode(src).Returns? && |PyDecode(src).dst| == TotalProduced(b)
      <==> NoZeroOffset(b) && (TotalProduced(b) == 0 || LongTail(b))
  {
    OutputLength(src, block, limit, b);
  }

  // ----- blocks as the format describes them -----

  /** A frame as it lies on disk: the size, the block, and what is left of the last sector. */
  function Frame(b: Block, padding: seq<byte>): seq<byte>
    requires WellFormed(b, 0)
  {
    ToBigEndian(|Encode(b, 0)|, 4) + Encode(b, 0) + padding
  }

  lemma {:induction false} WellFormedEnds(b: Block, op: nat)
    requires WellFormed(b, op)
    ensures EndsInLiterals(b) && (op > 0 ==> LastRun(b) >= 5)
  {
    if b.rest.Cons? { WellFormedEnds(b.rest, op + Produced(b.first)); }
  }

  lemma FrameParts(b: Block, padding: seq<byte>)
    requires WellFormed(b, 0) && |Encode(b, 0)| < 0x8000_0000
    ensures var src, block := Frame(b, padding), Encode(b, 0);
      && |src| >= 4 && BigEndian(src[..4]) == |block| && Holds(src, block)
      && Lz4Fast.FramedBlock(src, |block|) == block
      && (|padding| >= 2 ==> Padding(src, |block|) == Some(LittleEndian16(padding, 0)))
  {
    var src, block := Frame(b, padding), Encode(b, 0);
    assert src[..4] == ToBigEndian(|block|, 4);
    assert Pow256(4) == 0x1_0000_0000 by { assert Pow256(2) == 0x1_0000; }
    BigEndianRoundTrip(|block|, 4);
    assert src[4..4 + |block|] == block;
    if |padding| >= 2 {
      assert src[|block| + 4] == padding[0] && src[|block| + 5] == padding[1];
    }
  }

  /** Every well-formed block of more than one sequence, and every run of four literals or more, is
      decoded by both, to the same bytes, when two zero bytes of padding follow, whatever room C is given
      beyond what is needed. */
  lemma BothDecode(b: Block, padding: seq<byte>, limit: int)
    requires WellFormed(b, 0) && |Encode(b, 0)| < 0x8000_0000 && TotalProduced(b) <= limit
    requires b.rest.Cons? || |b.first.literals| >= 4
    requires |padding| >= 2 && LittleEndian16(padding, 0) == 0
    ensures var src := Frame(b, padding);
      && |src| >= 4 && BigEndian(src[..4]) + 4 <= |src| && BigEndian(src[..4]) < 0x8000_0000
      && Parse(Lz4Fast.FramedBlock(src, BigEndian(src[..4])), 0, 0, limit) == Parsed(b, Accepted)
      && NoZeroOffset(b) && |Expand([], b)| == TotalProduced(b)
      && PyDecode(src) == Returns(Expand([], b))
  {
    var src, block := Frame(b, padding), Encode(b, 0);
    WellFormedEnds(b, 0);
    if b.rest.Cons? { WellFormedEnds(b.rest, Produced(b.first)); }
    FrameParts(b, padding);
    ParseEncode(b, limit);
    ParsedInRange(block, 0, 0, limit);
    ExpandLength([], b);
    PythonAgreesIff(src, block, limit, b);
  }
}
