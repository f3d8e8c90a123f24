/** The LZ4 Block Format Description as an encoder: which bytes stand for which sequences. Nothing in
    the repository compresses with LZ4; this is the specification its decoders are held to. */
module Lz4Encode {
  import opened Bytes
  import opened Lz4Format

  function ExtensionBytes(n: nat): seq<byte> {
    if n < 255 then [n] else [255] + ExtensionBytes(n - 255)
  }

  function Nibble(n: nat): nat {
    if n < 15 then n else 15
  }

  function LengthBytes(n: nat): seq<byte> {
    if n < 15 then [] else ExtensionBytes(n - 15)
  }

  predicate Encodable(s: Sequence) {
    s.Match? ==> 1 <= s.offset < 0x1_0000 && s.matchLength >= 4
  }

  function Token(s: Sequence): byte
    requires Encodable(s)
  {
    16 * Nibble(|s.literals|) + if s.Match? then Nibble(s.matchLength - 4) else 0
  }

  /** A well-formed block, once `op` bytes are out: matches of at least four bytes that start inside the
      output, then a run of literals that covers the last five bytes, or everything if that is less. */
  predicate WellFormed(b: Block, op: nat) {
    match b
    case End => false
    case Cons(s, End) => s.Last? && (|s.literals| >= 5 || op == 0)
    case Cons(s, rest) =>
      s.Match? && Encodable(s) && s.offset <= op + |s.literals| && WellFormed(rest, op + Produced(s))
  }

  /** The bytes of a block from its first token on; the functions after it, from each later place in
      the first sequence on. */
  function Encode(b: Block, op: nat): seq<byte>
    requires WellFormed(b, op)
    decreases b, 4
  {
    [Token(b.first)] + FromRunLength(b, op)
  }

  function FromRunLength(b: Block, op: nat): seq<byte>
    requires WellFormed(b, op)
    decreases b, 3
  {
    LengthBytes(|b.first.literals|) + FromLiterals(b, op)
  }

  function FromLiterals(b: Block, op: nat): seq<byte>
    requires WellFormed(b, op)
    decreases b, 2
  {
    b.first.literals + FromOffset(b, op)
  }

  function FromOffset(b: Block, op: nat): seq<byte>
    requires WellFormed(b, op)
    decreases b, 1
  {
    if b.rest.End? then [] else [b.first.offset % 256, b.first.offset / 256] + FromMatchLength(b, op)
  }

  function FromMatchLength(b: Block, op: nat): seq<byte>
    requires WellFormed(b, op) && b.rest.Cons?
    decreases b, 0
  {
    LengthBytes(b.first.matchLength - 4) + Encode(b.rest, op + Produced(b.first))
  }

  lemma {:induction false} ReadsExtension(src: seq<byte>, ip: nat, n: nat)
    requires ip <= |src| && ExtensionBytes(n) <= src[ip..]
    ensures Extension(src, ip) == (n, ip + |ExtensionBytes(n)|)
    decreases n
  {
    assert src[ip] == ExtensionBytes(n)[0];
    if n >= 255 {
      assert ExtensionBytes(n)[1..] == ExtensionBytes(n - 255);
      assert src[ip + 1..] == src[ip..][1..];
      ReadsExtension(src, ip + 1, n - 255);
    }
  }

  lemma ReadsLength(src: seq<byte>, ip: nat, n: nat)
    requires ip <= |src| && LengthBytes(n) <= src[ip..]
    ensures Length(Nibble(n), src, ip) == (n, ip + |LengthBytes(n)|)
  {
    if n >= 15 { ReadsExtension(src, ip, n - 15); }
  }

  /** What makes room for the eight-byte packets: after any match there are five more bytes of output
      and six more of input. */
  lemma {:induction false} RoomAtTheEnd(b: Block, op: nat)
    requires WellFormed(b, op) && op > 0
    ensures TotalProduced(b) >= 5 && |Encode(b, op)| >= 6
  {
    assert |Encode(b, op)| == 1 + |FromRunLength(b, op)|;
    assert |FromRunLength(b, op)| >= |FromLiterals(b, op)| == |b.first.literals| + |FromOffset(b, op)|;
    if b.rest.Cons? {
      RoomAtTheEnd(b.rest, op + Produced(b.first));
      assert |FromOffset(b, op)| >= |FromMatchLength(b, op)| >= |Encode(b.rest, op + Produced(b.first))|;
    }
  }

  /** Reading one piece of what is left leaves the next. */
  lemma Suffix(src: seq<byte>, ip: nat, a: seq<byte>, b: seq<byte>)
    requires ip <= |src| && src[ip..] == a + b
    ensures ip + |a| <= |src| && src[ip + |a|..] == b && src[ip..ip + |a|] == a && a <= src[ip..]
  {
    assert src[ip + |a|..] == src[ip..][|a|..];
    assert src[ip..ip + |a|] == src[ip..][..|a|];
  }

  lemma ReadsLengthThen(src: seq<byte>, ip: nat, n: nat, rest: seq<byte>)
    requires ip <= |src| && src[ip..] == LengthBytes(n) + rest
    ensures Length(Nibble(n), src, ip) == (n, |src| - |rest|) && src[|src| - |rest|..] == rest
  {
    Suffix(src, ip, LengthBytes(n), rest);
    ReadsLength(src, ip, n);
  }

  lemma ReadsToken(src: seq<byte>, ip: nat, token: byte, rest: seq<byte>)
    requires ip <= |src| && src[ip..] == [token] + rest
    ensures ip < |src| && src[ip] == token && src[ip + 1..] == rest
  {
    assert src[ip] == src[ip..][0];
    Suffix(src, ip, [token], rest);
  }

  lemma ReadsRun(src: seq<byte>, ip: nat, b: Block, op: nat) returns (start: nat)
    requires WellFormed(b, op) && ip <= |src| && src[ip..] == Encode(b, op)
    ensures ip < |src| && src[ip] == Token(b.first)
    ensures start <= |src| && Length(src[ip] / 16, src, ip + 1) == (|b.first.literals|, start)
    ensures src[start..] == FromLiterals(b, op)
  {
    ReadsToken(src, ip, Token(b.first), FromRunLength(b, op));
    ReadsLengthThen(src, ip + 1, |b.first.literals|, FromLiterals(b, op));
    start := |src| - |FromLiterals(b, op)|;
  }

  lemma ReadsLiterals(src: seq<byte>, start: nat, b: Block, op: nat)
    requires WellFormed(b, op) && start <= |src| && src[start..] == FromLiterals(b, op)
    ensures start + |b.first.literals| <= |src| && src[start..start + |b.first.literals|] == b.first.literals
    ensures src[start + |b.first.literals|..] == FromOffset(b, op)
  {
    Suffix(src, start, b.first.literals, FromOffset(b, op));
  }

  lemma ReadsMatch(src: seq<byte>, ip: nat, b: Block, op: nat) returns (next: nat)
    requires WellFormed(b, op) && b.rest.Cons? && ip <= |src| && src[ip..] == FromOffset(b, op)
    ensures ip + 2 <= |src| && LittleEndian16(src, ip) == b.first.offset
    ensures Length(Token(b.first) % 16, src, ip + 2) == (b.first.matchLength - 4, next)
    ensures next <= |src| && src[next..] == Encode(b.rest, op + Produced(b.first))
  {
    Suffix(src, ip, [b.first.offset % 256, b.first.offset / 256], FromMatchLength(b, op));
    assert src[ip] == src[ip..][0] && src[ip + 1] == src[ip..][1];
    var rest := Encode(b.rest, op + Produced(b.first));
    next := |src| - |rest|;
    ReadsLengthThen(src, ip + 2, b.first.matchLength - 4, rest);
  }

  /** Where the parts of a sequence are, and that they are the right ones. */
  ghost predicate Located(src: seq<byte>, ip: nat, s: Sequence, start: nat, next: nat)
    requires s.Match? && Encodable(s)
  {
    var ip2 := start + |s.literals|;
    && ip < |src| && Length(src[ip] / 16, src, ip + 1) == (|s.literals|, start)
    && ip2 + 2 <= |src| && LittleEndian16(src, ip2) == s.offset
    && Length(src[ip] % 16, src, ip2 + 2) == (s.matchLength - 4, next)
    && src[start..ip2] == s.literals
  }

  lemma ReadsSequence(src: seq<byte>, ip: nat, b: Block, op: nat) returns (start: nat, next: nat)
    requires WellFormed(b, op) && b.rest.Cons? && ip <= |src| && src[ip..] == Encode(b, op)
    ensures Located(src, ip, b.first, start, next)
    ensures next <= |src| && src[next..] == Encode(b.rest, op + Produced(b.first))
  {
    start := ReadsRun(src, ip, b, op);
    ReadsLiterals(src, start, b, op);
    next := ReadsMatch(src, start + |b.first.literals|, b, op);
  }

  lemma PassesChecks(src: seq<byte>, ip: nat, s: Sequence, op: nat, limit: int, start: nat, next: nat)
    requires s.Match? && Encodable(s) && s.offset <= op + |s.literals| && Located(src, ip, s, start, next)
    requires next + 6 <= |src| && op + Produced(s) + 5 <= limit
    ensures var step := NextSequence(src, ip, op, limit);
      step.Continue? && step.ip == next && step.op == op + Produced(s) && SequenceAt(src, step) == s
  {
  }

  lemma ParseFirst(src: seq<byte>, ip: nat, b: Block, op: nat, limit: int) returns (step: Step)
    requires WellFormed(b, op) && b.rest.Cons? && ip <= |src| && src[ip..] == Encode(b, op)
    requires op + TotalProduced(b) <= limit
    ensures ip < |src| && step == NextSequence(src, ip, op, limit)
    ensures step.Continue? && step.op == op + Produced(b.first) && SequenceAt(src, step) == b.first
    ensures src[step.ip..] == Encode(b.rest, op + Produced(b.first))
  {
    var start, next := ReadsSequence(src, ip, b, op);
    RoomAtTheEnd(b.rest, op + Produced(b.first));
    PassesChecks(src, ip, b.first, op, limit, start, next);
    step := NextSequence(src, ip, op, limit);
  }

  lemma ParseOnly(src: seq<byte>, ip: nat, b: Block, op: nat, limit: int)
    requires WellFormed(b, op) && b.rest.End? && ip <= |src| && src[ip..] == Encode(b, op)
    requires op + TotalProduced(b) <= limit
    ensures Parse(src, ip, op, limit) == Parsed(b, Accepted)
  {
    var start := ReadsRun(src, ip, b, op);
    ReadsLiterals(src, start, b, op);
    assert FromOffset(b, op) == [];
    assert src[start..] == b.first.literals;
    assert NextSequence(src, ip, op, limit) == Finish(start, |b.first.literals|);
  }

  lemma {:induction false} ParseFrom(src: seq<byte>, ip: nat, b: Block, op: nat, limit: int)
    requires WellFormed(b, op) && ip <= |src| && src[ip..] == Encode(b, op)
    requires op + TotalProduced(b) <= limit
    ensures Parse(src, ip, op, limit) == Parsed(b, Accepted)
    decreases b
  {
    if b.rest.End? {
      ParseOnly(src, ip, b, op, limit);
    } else {
      var step := ParseFirst(src, ip, b, op, limit);
      ParseFrom(src, step.ip, b.rest, step.op, limit);
    }
  }

  lemma {:induction false} NoZero(b: Block, op: nat)
    requires WellFormed(b, op)
    ensures NoZeroOffset(b)
  {
    if b.rest.Cons? { NoZero(b.rest, op + Produced(b.first)); }
  }

  /** Every well-formed block is accepted and read back as the sequences it was made from, whatever
      the size of the output buffer, as long as the output fits. */
  lemma ParseEncode(b: Block, limit: int)
    requires WellFormed(b, 0) && TotalProduced(b) <= limit
    ensures Parse(Encode(b, 0), 0, 0, limit) == Parsed(b, Accepted)
    ensures NoZeroOffset(b)
  {
    var src := Encode(b, 0);
    assert src[0..] == src;
    ParseFrom(src, 0, b, 0, limit);
    NoZero(b, 0);
  }
}
