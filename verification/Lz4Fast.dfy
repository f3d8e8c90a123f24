/** The C decoder: it copies eight bytes at a time, overshoots, and mends short offsets with two
    tables. Pointers are indices: `ip` into the block, `op`, `ref` and `cpy` into `dest`. */
module Lz4Fast {
  import opened Bytes
  import opened Copies
  import opened Lz4Format

  const STEPSIZE := 8
  const DEC32TABLE: seq<int> := [0, 3, 2, 3, 0, 0, 0, 0]
  // The fourth entry is (size_t)-1: subtracting it moves a pointer one forward.
  const DEC64TABLE: seq<int> := [0, 0, 0, -1, 0, 1, 2, 3]

  /** `op - ref` once the first eight bytes of a match have been copied. */
  function Distance(offset: nat): (d: nat)
    ensures offset == 0 ==> d == 4
    ensures offset != 0 ==> 8 <= d <= offset + 8
  {
    if offset < STEPSIZE then offset + 4 + DEC32TABLE[offset] + DEC64TABLE[offset] else offset
  }

  /** Both steps back that the tables make are a whole number of periods, and small enough to land
      on bytes that already have the period. */
  lemma StepsAreMultiples(offset: nat) returns (m4: nat, m8: nat)
    requires offset != 0
    ensures m8 >= 1 && Distance(offset) == m8 * offset && (m8 - 1) * offset <= STEPSIZE
    ensures m4 >= 1
    ensures offset < STEPSIZE ==>
      offset + DEC32TABLE[offset] == m4 * offset >= 4 && (m4 - 1) * offset <= 4
  {
    m4 := if offset == 1 then 4 else if offset <= 3 then 2 else 1;
    m8 := if offset == 1 then 8 else if offset == 2 then 4 else if offset == 3 then 3 else if offset < 8 then 2 else 1;
  }

  /** Copying from a whole number of periods back, in any step size, extends the same period. */
  lemma {:induction false} PeriodGrows(s: seq<byte>, lo: nat, op: nat, hi: nat, offset: nat, m: nat)
    requires Periodic(s, lo, op, offset) && m >= 1 && (m - 1) * offset <= op - lo
    requires Periodic(s, op, hi, m * offset)
    ensures Periodic(s, lo, hi, offset)
    decreases hi - op
  {
    if op < hi {
      StepBack(s, lo, op, offset, m);
      assert EqualsBack(s, op, m * offset) && EqualsBack(s, op, offset);
      PeriodGrows(s, lo, op + 1, hi, offset, m);
    }
  }

  /** `A64(d) = A64(s)`: one eight-byte load, then one eight-byte store. */
  method CopyPacket(dest: array<byte>, s: nat, d: nat, ghost end: nat)
    requires s <= d && d + STEPSIZE <= end <= dest.Length
    modifies dest
    ensures forall k :: 0 <= k < dest.Length ==>
      dest[k] == if d <= k < d + STEPSIZE then old(dest[k - d + s]) else old(dest[k])
    ensures s + STEPSIZE <= d ==> Periodic(dest[..], d, d + STEPSIZE, d - s)
  {
    forall i | 0 <= i < STEPSIZE {
      dest[d + i] := dest[s + i];
    }
  }

  /** `LZ4_SECURECOPY(ref, op, e)`, in a match that began at `lo`. */
  method SecureCopy(dest: array<byte>, ref: nat, op: nat, e: int, oend: nat, ghost lo: nat, ghost offset: nat)
    returns (ref': nat, op': nat)
    requires e + STEPSIZE <= oend <= dest.Length && op <= oend
    requires lo + STEPSIZE <= op && op - ref == Distance(offset) && 4 <= Distance(offset)
    requires Periodic(dest[..], lo, op, offset)
    modifies dest
    ensures op' == op >= e || e <= op' < e + STEPSIZE
    ensures op <= op' <= oend && op' - ref' == Distance(offset)
    ensures Periodic(dest[..], lo, op', offset)
    ensures forall k :: 0 <= k < op || oend <= k < dest.Length ==> dest[k] == old(dest[k])
  {
    ref', op' := ref, op;
    while op' < e
      invariant op' == op || op' < e + STEPSIZE
      invariant op <= op' <= oend && op' - ref' == Distance(offset)
      invariant Periodic(dest[..], lo, op', offset)
      invariant forall k :: 0 <= k < op || oend <= k < dest.Length ==> dest[k] == old(dest[k])
    {
      ghost var before := dest[..];
      CopyPacket(dest, ref', op', oend);
      PeriodicStays(before, dest[..], lo, op', offset);
      if offset != 0 {
        ghost var _, m := StepsAreMultiples(offset);
        PeriodGrows(dest[..], lo, op', op' + STEPSIZE, offset, m);
      }
      ref', op' := ref' + STEPSIZE, op' + STEPSIZE;
    }
  }

  /** `A32(d) = A32(s)`: one four-byte load, then one four-byte store. */
  method CopyFour(dest: array<byte>, s: nat, d: nat, ghost end: nat)
    requires s <= d && d + 4 <= end <= dest.Length
    modifies dest
    ensures s + 4 <= d ==> Periodic(dest[..], d, d + 4, d - s)
    ensures forall k :: 0 <= k < d || d + 4 <= k < dest.Length ==> dest[k] == old(dest[k])
  {
    forall i | 0 <= i < 4 {
      dest[d + i] := dest[s + i];
    }
  }

  /** `op[0] = ref[0]` to `op[3] = ref[3]`, each byte read after the one before it is written. */
  method CopyFourSingly(dest: array<byte>, ref: nat, op: nat, ghost end: nat)
    requires ref <= op && op + 4 <= end <= dest.Length
    modifies dest
    ensures Periodic(dest[..], op, op + 4, op - ref)
    ensures forall k :: 0 <= k < op || op + 4 <= k < dest.Length ==> dest[k] == old(dest[k])
  {
    dest[op] := dest[ref];
    dest[op + 1] := dest[ref + 1];
    dest[op + 2] := dest[ref + 2];
    dest[op + 3] := dest[ref + 3];
  }

  /** The first eight bytes of a match that overlaps itself within eight bytes: four single bytes,
      then four more from where `dec32table` points. */
  method FirstPacketShort(dest: array<byte>, lo: nat, offset: nat, oend: nat) returns (ref: nat, op: nat)
    requires offset <= lo && offset < STEPSIZE && lo + STEPSIZE <= oend <= dest.Length
    modifies dest
    ensures op == lo + STEPSIZE && op - ref == Distance(offset)
    ensures Periodic(dest[..], lo, op, offset)
    ensures forall k :: 0 <= k < lo || op <= k < dest.Length ==> dest[k] == old(dest[k])
  {
    op, ref := lo, lo - offset;
    var dec64 := DEC64TABLE[offset];
    CopyFourSingly(dest, ref, op, oend);
    op, ref := op + 4, ref + 4;
    ref := ref - DEC32TABLE[offset];
    ghost var before := dest[..];
    CopyFour(dest, ref, op, oend);
    PeriodicStays(before, dest[..], lo, op, offset);
    if offset != 0 {
      ghost var m, _ := StepsAreMultiples(offset);
      PeriodGrows(dest[..], lo, op, op + 4, offset, m);
    }
    op := op + (STEPSIZE - 4);
    ref := ref - dec64;
  }

  method FirstPacket(dest: array<byte>, lo: nat, offset: nat, oend: nat) returns (ref: nat, op: nat)
    requires offset <= lo && lo + STEPSIZE <= oend <= dest.Length
    modifies dest
    ensures op == lo + STEPSIZE && op - ref == Distance(offset)
    ensures Periodic(dest[..], lo, op, offset)
    ensures forall k :: 0 <= k < lo || op <= k < dest.Length ==> dest[k] == old(dest[k])
  {
    op, ref := lo, lo - offset;
    if op - ref < STEPSIZE {
      ref, op := FirstPacketShort(dest, lo, offset, oend);
    } else {
      CopyPacket(dest, ref, op, oend);
      ref, op := ref + STEPSIZE, op + STEPSIZE;
    }
  }

  /** `LZ4_WILDCOPY(ip, op, cpy)`: literals, whole packets, at least one of them. The packets read
      stay inside the block and the packets written stay below `oend`. */
  method WildCopyLiterals(src: seq<byte>, ip: nat, dest: array<byte>, op: nat, cpy: nat, oend: nat)
    requires op <= cpy && ip + (cpy - op) + COPYLENGTH <= |src| && cpy + COPYLENGTH <= oend <= dest.Length
    modifies dest
    ensures dest[..cpy] == old(dest[..op]) + src[ip..ip + (cpy - op)]
    ensures forall k :: oend <= k < dest.Length ==> dest[k] == old(dest[k])
  {
    var s, d := ip, op;
    while true
      invariant s - ip == d - op && 0 <= d - op && (d == op || d < cpy)
      invariant forall k :: 0 <= k < op || oend <= k < dest.Length ==> dest[k] == old(dest[k])
      invariant forall k :: op <= k < d ==> dest[k] == src[k - op + ip]
      decreases cpy - d
    {
      forall i | 0 <= i < STEPSIZE {
        dest[d + i] := src[s + i];
      }
      s, d := s + STEPSIZE, d + STEPSIZE;
      if d >= cpy { break; }
    }
  }

  /** A length: the nibble of the token and, if that is 15, the bytes that extend it. The loops after
      the literals and after the offset stop under the same conditions. */
  method ReadLength(nibble: nat, src: seq<byte>, start: nat) returns (length: nat, ip: nat)
    requires start <= |src|
    ensures (length, ip) == Length(nibble, src, start)
  {
    length, ip := nibble, start;
    if length == RUN_MASK {
      var s := 255;
      while ip < |src| && s == 255
        invariant start <= ip <= |src| && 15 <= length
        invariant var rest := Extension(src, ip);
          Extension(src, start) == if s == 255 then (length - 15 + rest.0, rest.1) else (length - 15, ip)
      {
        s := src[ip];
        ip, length := ip + 1, length + s;
      }
    }
  }

  /** `while (op < cpy) *op++ = *ref++`, after the packets. */
  method CopySingly(dest: array<byte>, ref0: nat, op0: nat, cpy: nat, oend: nat, ghost lo: nat, ghost offset: nat)
    returns (op: nat)
    requires cpy <= oend <= dest.Length && op0 <= oend
    requires lo + STEPSIZE <= op0 && op0 - ref0 == Distance(offset)
    requires Periodic(dest[..], lo, op0, offset)
    modifies dest
    ensures cpy <= op <= oend && op0 <= op
    ensures Periodic(dest[..], lo, op, offset)
    ensures forall k :: 0 <= k < op0 || oend <= k < dest.Length ==> dest[k] == old(dest[k])
  {
    var ref;
    op, ref := op0, ref0;
    while op < cpy
      invariant op0 <= op <= oend && op - ref == Distance(offset)
      invariant Periodic(dest[..], lo, op, offset)
      invariant forall k :: 0 <= k < op0 || oend <= k < dest.Length ==> dest[k] == old(dest[k])
    {
      ghost var before := dest[..];
      dest[op] := dest[ref];
      op, ref := op + 1, ref + 1;
      PeriodicStays(before, dest[..], lo, op - 1, offset);
      if offset != 0 {
        ghost var _, m := StepsAreMultiples(offset);
        PeriodGrows(dest[..], lo, op - 1, op, offset, m);
      }
    }
  }

  /** Everything from the match of a sequence to the end of the turn; `None` is the jump to the
      error exit. */
  method CopyMatch(dest: array<byte>, lo: nat, offset: nat, length: nat, oend: nat) returns (op': Option<nat>)
    requires offset <= lo && lo + COPYLENGTH <= oend <= dest.Length
    modifies dest
    ensures op' == if lo + length + MINMATCH < oend then Some(lo + length + MINMATCH) else None
    ensures op'.Some? && offset != 0 ==>
      dest[..op'.value] == CopyBack(old(dest[..lo]), offset, length + MINMATCH)
    ensures forall k :: oend <= k < dest.Length ==> dest[k] == old(dest[k])
  {
    var ref, op := FirstPacket(dest, lo, offset, oend);
    var cpy := op + length - (STEPSIZE - 4);
    if cpy > oend - COPYLENGTH {
      if cpy > oend {
        return None;
      }
      ref, op := SecureCopy(dest, ref, op, oend - COPYLENGTH, oend, lo, offset);
      op := CopySingly(dest, ref, op, cpy, oend, lo, offset);
      op := cpy;
      if op == oend {
        return None;
      }
    } else {
      ref, op := SecureCopy(dest, ref, op, cpy, oend, lo, offset);
      op := cpy;
    }
    if offset != 0 {
      PeriodicIsCopyBack(dest[..], lo, op, offset);
      assert dest[..][..lo] == old(dest[..lo]);
      assert dest[..][..op] == dest[..op];
    }
    return Some(op);
  }

  /** What the C function returns for a parsed block. */
  function ReturnCode(p: Parsed): int {
    match p.verdict
    case Accepted => TotalProduced(p.block)
    case Faulty(pos) => 0 - pos
  }

  /** The second half of a turn: offset, match length, match. `done` is the jump to the error exit. */
  method TurnMatch(src: seq<byte>, token: nat, start: nat, length0: nat, dest: array<byte>, cpy: nat, oend: nat)
    returns (done: bool, ip: nat, op: nat)
    requires start + length0 + 2 <= |src| && cpy + COPYLENGTH <= oend <= dest.Length
    modifies dest
    ensures var step := NextMatch(src, token % 16, start, length0, cpy, oend);
      && done == step.Fault? && ip == (if done then step.pos else step.ip)
      && (!done ==> op == step.op)
      && (!done && step.offset != 0 ==> dest[..op] == CopyBack(old(dest[..cpy]), step.offset, step.matchLength))
    ensures forall k :: oend <= k < dest.Length ==> dest[k] == old(dest[k])
  {
    ip, op := start + length0, cpy;
    var low: int, high: int := src[ip], src[ip + 1];
    var offset := low + 256 * high;
    ip := ip + 2;
    if offset > cpy {
      return true, ip, op;
    }
    var length;
    length, ip := ReadLength(token % 16, src, ip);
    var next := CopyMatch(dest, op, offset, length, oend);
    if next.None? {
      return true, ip, op;
    }
    return false, ip, next.value;
  }

  /** A turn that does not end the block: literals, then a match. */
  method TurnMore(src: seq<byte>, token: nat, start: nat, length: nat, dest: array<byte>, op0: nat, oend: nat)
    returns (done: bool, ip: nat, op: nat)
    requires start + length + COPYLENGTH <= |src| && op0 + length + COPYLENGTH <= oend <= dest.Length
    modifies dest
    ensures var step := NextMatch(src, token % 16, start, length, op0 + length, oend);
      && done == step.Fault? && ip == (if done then step.pos else step.ip)
      && (!done ==> op == step.op)
      && (!done && step.offset != 0 ==> dest[..op] == Apply(old(dest[..op0]), SequenceAt(src, step)))
    ensures forall k :: oend <= k < dest.Length ==> dest[k] == old(dest[k])
  {
    WildCopyLiterals(src, start, dest, op0, op0 + length, oend);
    done, ip, op := TurnMatch(src, token, start, length, dest, op0 + length, oend);
  }

  /** The literals that end the block, or the jump to the error exit when they do not end it. */
  method TurnLast(src: seq<byte>, ip: nat, length: nat, dest: array<byte>, op: nat, oend: int) returns (done: bool)
    requires ip <= |src| && op <= dest.Length && oend <= dest.Length
    modifies dest
    ensures done == (op + length <= oend && ip + length == |src|)
    ensures done ==> dest[..op + length] == old(dest[..op]) + src[ip..]
    ensures forall k :: 0 <= k < dest.Length && oend <= k ==> dest[k] == old(dest[k])
  {
    if op + length > oend {
      return false;
    }
    if ip + length != |src| {
      return false;
    }
    forall i | 0 <= i < length {
      dest[op + i] := src[ip + i];
    }
    return true;
  }

  /** One turn of the main loop: the new `ip` and `op` or, when the turn leaves the loop (`done`), the
      value returned. */
  method Turn(src: seq<byte>, ip0: nat, dest: array<byte>, op0: nat, oend: int)
    returns (done: bool, r: int, ip: nat, op: nat)
    requires ip0 < |src| && op0 <= dest.Length && oend <= dest.Length
    modifies dest
    ensures var step := NextSequence(src, ip0, op0, oend);
      && done == !step.Continue?
      && (step.Fault? ==> r == 0 - step.pos)
      && (step.Finish? ==> r == op0 + step.run && dest[..r] == Apply(old(dest[..op0]), SequenceAt(src, step)))
      && (step.Continue? ==> ip == step.ip && op == step.op)
      && (step.Continue? && step.offset != 0 ==> dest[..op] == Apply(old(dest[..op0]), SequenceAt(src, step)))
    ensures forall k :: 0 <= k < dest.Length && oend <= k ==> dest[k] == old(dest[k])
  {
    ip, op := ip0, op0;
    var token, length := src[ip], 0;
    length, ip := ReadLength(token / 16, src, ip + 1);
    var cpy := op + length;
    if cpy > oend - COPYLENGTH || ip + length > |src| - COPYLENGTH {
      done := TurnLast(src, ip, length, dest, op, oend);
      return true, if done then op + length else 0 - ip, ip, op;
    }
    done, ip, op := TurnMore(src, token, ip, length, dest, op, oend);
    r := 0 - ip;
  }

  /** `rest` is what is left to do of `p` once `op` bytes, `out`, are there. */
  ghost predicate Remains(p: Parsed, rest: Parsed, op: nat, out: seq<byte>) {
    && p.verdict == rest.verdict
    && TotalProduced(p.block) == op + TotalProduced(rest.block)
    && |out| == op
    && (NoZeroOffset(p.block) ==> NoZeroOffset(rest.block) && Expand([], p.block) == Expand(out, rest.block))
  }

  lemma RemainsAfter(p: Parsed, src: seq<byte>, ip: nat, op: nat, limit: int, out: seq<byte>, out': seq<byte>)
    requires ip < |src| && Remains(p, Parse(src, ip, op, limit), op, out)
    requires var step := NextSequence(src, ip, op, limit);
      step.Continue? && |out'| == step.op && (step.offset != 0 ==> out' == Apply(out, SequenceAt(src, step)))
    ensures var step := NextSequence(src, ip, op, limit);
      Remains(p, Parse(src, step.ip, step.op, limit), step.op, out')
  {
  }

  lemma RemainsAtEnd(p: Parsed, src: seq<byte>, ip: nat, op: nat, limit: int, out: seq<byte>)
    requires ip < |src| && Remains(p, Parse(src, ip, op, limit), op, out)
    ensures var step := NextSequence(src, ip, op, limit);
      && (step.Fault? ==> p.verdict == Faulty(step.pos))
      && (step.Finish? ==> p.verdict == Accepted && TotalProduced(p.block) == op + step.run
                           && (NoZeroOffset(p.block) ==> Expand([], p.block) == Apply(out, SequenceAt(src, step))))
  {
    var step := NextSequence(src, ip, op, limit);
    if step.Finish? {
      var s := SequenceAt(src, step);
      assert Expand(out, Cons(s, End)) == Expand(Apply(out, s), End);
      assert TotalProduced(Cons(s, End)) == Produced(s) + TotalProduced(End);
    }
  }

  /** LZ4_uncompress_unknownOutputSize on the block `src`. */
  method Uncompress(src: seq<byte>, dest: array<byte>, maxOutputSize: int) returns (r: int)
    requires maxOutputSize <= dest.Length
    modifies dest
    ensures var p := Parse(src, 0, 0, maxOutputSize);
      && r == ReturnCode(p) && (r < 0 <==> p.verdict.Faulty?)
      && (p.verdict.Faulty? ==> r + p.verdict.pos == 0)
      && (r >= 0 && NoZeroOffset(p.block) ==> r <= dest.Length && dest[..r] == Expand([], p.block))
    ensures r > 0 ==> r <= maxOutputSize
    ensures r < 0 ==> -|src| <= r
    ensures forall k :: 0 <= k < dest.Length && maxOutputSize <= k ==> dest[k] == old(dest[k])
  {
    var ip, op := 0, 0;
    ghost var p := Parse(src, 0, 0, maxOutputSize);
    while ip < |src|
      invariant 0 <= ip <= |src| && 0 <= op <= dest.Length && (op == 0 || op <= maxOutputSize)
      invariant Remains(p, Parse(src, ip, op, maxOutputSize), op, dest[..op])
      invariant forall k :: 0 <= k < dest.Length && maxOutputSize <= k ==> dest[k] == old(dest[k])
    {
      ghost var out := dest[..op];
      var done, code, ip', op' := Turn(src, ip, dest, op, maxOutputSize);
      if done {
        RemainsAtEnd(p, src, ip, op, maxOutputSize, out);
        return code;
      }
      RemainsAfter(p, src, ip, op, maxOutputSize, out, dest[..op']);
      ip, op := ip', op';
    }
    return op;
  }

  /** Conversion of an unsigned value to the C type `int`. */
  function ToInt32(n: nat): (r: int)
    ensures 0 - 0x8000_0000 <= r < 0x8000_0000 && (n - r) % 0x1_0000_0000 == 0
  {
    if n % 0x1_0000_0000 < 0x8000_0000 then n % 0x1_0000_0000 else n % 0x1_0000_0000 - 0x1_0000_0000
  }

  /** The block inside a frame that says it has `bufsiz` bytes. A size that turns negative puts the
      end of the block before its start. */
  function FramedBlock(source: seq<byte>, bufsiz: nat): (block: seq<byte>)
    requires 4 + bufsiz <= |source| && bufsiz < 0x1_0000_0000
    ensures |block| == if bufsiz < 0x8000_0000 then bufsiz else 0
    ensures forall i :: 0 <= i < |block| ==> block[i] == source[4 + i]
  {
    if ToInt32(bufsiz) < 0 then [] else source[4..4 + bufsiz]
  }

  /** lz4_decompress_zfs: 0 for success. The caller owes at least the four bytes of the size. */
  method DecompressZfs(source: seq<byte>, dest: array<byte>, d_len: nat) returns (code: int)
    requires |source| >= 4 && d_len <= dest.Length
    modifies dest
    ensures code == 0 || code == 1
    ensures BigEndian(source[..4]) + 4 > |source| ==> code == 1 && dest[..] == old(dest[..])
    ensures BigEndian(source[..4]) + 4 <= |source| ==>
      BigEndian(source[..4]) < 0x1_0000_0000 &&
      var p := Parse(FramedBlock(source, BigEndian(source[..4])), 0, 0, ToInt32(d_len));
      && (code == 0 <==> p.verdict.Accepted?)
      && (code == 0 && NoZeroOffset(p.block) ==>
            TotalProduced(p.block) <= dest.Length && dest[..TotalProduced(p.block)] == Expand([], p.block))
    ensures forall k :: d_len <= k < dest.Length ==> dest[k] == old(dest[k])
  {
    BigEndianBound(source[..4]);
    assert Pow256(4) == 0x1_0000_0000 by { assert Pow256(2) == 0x1_0000; }
    var bufsiz := BigEndian(source[..4]);
    if bufsiz + 4 > |source| {
      return 1;
    }
    var l := Uncompress(FramedBlock(source, bufsiz), dest, ToInt32(d_len));
    code := if l < 0 then 1 else 0;
  }
}
