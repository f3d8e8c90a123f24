/** The LZ4 block format: which sequences a block contains, which blocks the decoder accepts, and
    what a block means when its matches are copied one byte at a time. */
module Lz4Format {
  import opened Bytes
  import opened Copies

  const RUN_MASK := 15
  const MINMATCH := 4
  const COPYLENGTH := 8

  /** One sequence of a block: a run of literals, then a match that starts `offset` bytes back. The
      last sequence of a block has only literals. */
  datatype Sequence =
    | Match(literals: seq<byte>, offset: nat, matchLength: nat)
    | Last(literals: seq<byte>)

  /** A block is a list of sequences. */
  datatype Block = End | Cons(first: Sequence, rest: Block)

  // ----- what a block means -----

  function Apply(out: seq<byte>, s: Sequence): seq<byte> {
    match s
    case Last(literals) => out + literals
    case Match(literals, offset, matchLength) => CopyBack(out + literals, offset, matchLength)
  }

  function Expand(out: seq<byte>, block: Block): seq<byte>
    decreases block
  {
    if block.End? then out else Expand(Apply(out, block.first), block.rest)
  }

  function Produced(s: Sequence): nat {
    |s.literals| + if s.Match? then s.matchLength else 0
  }

  function TotalProduced(block: Block): nat {
    if block.End? then 0 else Produced(block.first) + TotalProduced(block.rest)
  }

  predicate NoZeroOffset(block: Block) {
    block.Cons? ==> (block.first.Match? ==> block.first.offset != 0) && NoZeroOffset(block.rest)
  }

  // ----- which blocks a decoder accepts -----

  /** The bytes that extend a length of 15, up to and including the first that is not 255, or up to
      the end of the block: their sum, and the position after them. */
  function Extension(src: seq<byte>, ip: nat): (r: (nat, nat))
    requires ip <= |src|
    ensures ip <= r.1 <= |src|
    decreases |src| - ip
  {
    if ip == |src| then (0, ip)
    else if src[ip] == 255 then
      var (sum, next) := Extension(src, ip + 1);
      (255 + sum, next)
    else (src[ip], ip + 1)
  }

  function Length(nibble: nat, src: seq<byte>, ip: nat): (r: (nat, nat))
    requires ip <= |src|
    ensures ip <= r.1 <= |src|
  {
    if nibble == 15 then
      var (sum, next) := Extension(src, ip);
      (15 + sum, next)
    else (nibble, ip)
  }

  function LittleEndian16(src: seq<byte>, ip: nat): (v: nat)
    requires ip + 2 <= |src|
    ensures v < 0x1_0000
  {
    var low: int, high: int := src[ip], src[ip + 1];
    low + 256 * high
  }

  /** What one turn of the main loop finds: where the literals are, what the match is, and the new
      positions in input and output. */
  datatype Step =
    | Finish(start: nat, run: nat)
    | Fault(pos: nat)
    | Continue(start: nat, run: nat, offset: nat, matchLength: nat, ip: nat, op: nat)

  /** The second half of a sequence: offset and match length, after a run of literals that brings the
      output to `op` bytes. */
  function NextMatch(src: seq<byte>, nibble: nat, start: nat, run: nat, op: nat, limit: int): (r: Step)
    requires start + run + 2 <= |src|
    ensures !r.Finish?
    ensures r.Continue? ==> start + run < r.ip <= |src| && r.start == start && r.run == run
    ensures r.Continue? ==> r.op == op + r.matchLength < limit
    ensures r.Fault? ==> start + run < r.pos <= |src|
  {
    var ip := start + run;
    var offset := LittleEndian16(src, ip);
    if offset > op then Fault(ip + 2)
    else
      var (extra, next) := Length(nibble, src, ip + 2);
      if op + extra + MINMATCH >= limit then Fault(next)
      else Continue(start, run, offset, extra + MINMATCH, next, op + extra + MINMATCH)
  }

  /** One turn of the main loop at position `ip` with `op` bytes produced so far: when a sequence is
      the last one, when it is refused, and when another follows it. */
  function NextSequence(src: seq<byte>, ip: nat, op: nat, limit: int): (r: Step)
    requires ip < |src|
    ensures r.Continue? ==> ip < r.ip <= |src| && r.op == op + r.run + r.matchLength < limit
    ensures r.Fault? ==> ip < r.pos <= |src|
    ensures r.Finish? ==> op + r.run <= limit
    ensures !r.Fault? ==> ip < r.start && r.start + r.run <= |src|
  {
    var (run, start) := Length(src[ip] / 16, src, ip + 1);
    if op + run > limit - COPYLENGTH || start + run > |src| - COPYLENGTH then
      if op + run > limit || start + run != |src| then Fault(start) else Finish(start, run)
    else NextMatch(src, src[ip] % 16, start, run, op + run, limit)
  }

  function SequenceAt(src: seq<byte>, step: Step): (s: Sequence)
    requires !step.Fault? && step.start + step.run <= |src|
    ensures step.Continue? ==> s.Match? && Produced(s) == step.run + step.matchLength
    ensures step.Finish? ==> s.Last? && Produced(s) == step.run
  {
    var literals := src[step.start..step.start + step.run];
    if step.Finish? then Last(literals) else Match(literals, step.offset, step.matchLength)
  }

  datatype Verdict = Accepted | Faulty(pos: nat)
  datatype Parsed = Parsed(block: Block, verdict: Verdict)

  function Parse(src: seq<byte>, ip: nat, op: nat, limit: int): (p: Parsed)
    requires ip <= |src|
    ensures p.verdict.Faulty? ==> ip < p.verdict.pos <= |src|
    decreases |src| - ip
  {
    if ip == |src| then Parsed(End, Accepted)
    else
      var step := NextSequence(src, ip, op, limit);
      match step
      case Finish(_, _) => Parsed(Cons(SequenceAt(src, step), End), Accepted)
      case Fault(pos) => Parsed(End, Faulty(pos))
      case Continue(_, _, _, _, ip', op') =>
        var rest := Parse(src, ip', op', limit);
        Parsed(Cons(SequenceAt(src, step), rest.block), rest.verdict)
  }

  // ----- the same in one formula -----

  /** A length with the given nibble: the nibble itself, or 15 and the bytes from `from` to before `to`, all
      255 but the last, which may only be 255 at the end of the block. */
  ghost predicate LengthAt(src: seq<byte>, nibble: nat, from: nat, n: nat, to: nat) {
    if nibble < 15 then n == nibble && to == from
    else
      && from <= to <= |src| && (forall i :: from <= i < to - 1 ==> src[i] == 255)
      && if to > from && src[to - 1] < 255 then
           (var last: int := src[to - 1]; n == 15 + 255 * (to - 1 - from) + last)
         else to == |src| && n == 15 + 255 * (to - from)
  }

  lemma {:induction false} ExtensionIs(src: seq<byte>, from: nat)
    requires from <= |src|
    ensures var (sum, to) := Extension(src, from); LengthAt(src, 15, from, 15 + sum, to)
    decreases |src| - from
  {
    if from < |src| && src[from] == 255 {
      ExtensionIs(src, from + 1);
      var (sum, to) := Extension(src, from + 1);
      forall i | from <= i < to - 1 ensures src[i] == 255 {}
    }
  }

  lemma LengthIs(src: seq<byte>, nibble: nat, from: nat)
    requires from <= |src| && nibble <= 15
    ensures var (n, to) := Length(nibble, src, from); LengthAt(src, nibble, from, n, to)
  {
    ExtensionIs(src, from);
  }

  /** Eight bytes are left after the literals, both in the block and in the room. */
  ghost predicate Roomy(src: seq<byte>, start: nat, run: nat, op: nat, limit: int) {
    start + run + 8 <= |src| && op + run + 8 <= limit
  }

  /** The offset after the literals, low byte first. */
  ghost predicate OffsetAt(src: seq<byte>, at: nat, offset: nat) {
    && at + 2 <= |src|
    && var low: int, high: int := src[at], src[at + 1]; offset == low + 256 * high
  }

  /** One turn of the main loop, in numbers: where the parts of a sequence lie, what ends the block, and at
      which of three places it is refused. */
  lemma NextSequenceIs(src: seq<byte>, ip: nat, op: nat, limit: int)
    returns (run: nat, start: nat, offset: nat, extra: nat, end: nat)
    requires ip < |src|
    ensures LengthAt(src, src[ip] / 16, ip + 1, run, start)
    ensures Roomy(src, start, run, op, limit) ==>
      OffsetAt(src, start + run, offset) && LengthAt(src, src[ip] % 16, start + run + 2, extra, end)
    ensures NextSequence(src, ip, op, limit) ==
      if !Roomy(src, start, run, op, limit) then
        if start + run == |src| && op + run <= limit then Finish(start, run) else Fault(start)
      else if offset > op + run then Fault(start + run + 2)
      else if op + run + 4 + extra >= limit then Fault(end)
      else Continue(start, run, offset, extra + 4, end, op + run + 4 + extra)
  {
    var (n, at) := Length(src[ip] / 16, src, ip + 1);
    run, start := n, at;
    LengthIs(src, src[ip] / 16, ip + 1);
    offset, extra, end := 0, 0, 0;
    if Roomy(src, start, run, op, limit) {
      LengthIs(src, src[ip] % 16, start + run + 2);
      var (m, to) := Length(src[ip] % 16, src, start + run + 2);
      offset, extra, end := LittleEndian16(src, start + run), m, to;
    }
  }
}
