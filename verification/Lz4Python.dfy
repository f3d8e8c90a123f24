/** The Python decoder: one byte at a time, with slices, and with an end that is four short. */
module Lz4Python {
  import opened Bytes
  import opened Lz4Format

  /** An exception before the `try`, an exception inside it, or a result. */
  datatype Outcome = Raises | ReturnsNone | Returns(dst: seq<byte>)

  function SliceIndex(i: int, n: nat): (k: nat)
    ensures k <= n
  {
    if i < 0 then (if i + n < 0 then 0 else i + n) else if i > n then n else i
  }

  /** `s[lo:hi]`. */
  function Slice(s: seq<byte>, lo: int, hi: int): (r: seq<byte>) {
    var a, b := SliceIndex(lo, |s|), SliceIndex(hi, |s|);
    if a <= b then s[a..b] else []
  }

  /** A slice in one formula: the bytes whose index is from `lo` to below `hi`, where a negative bound counts
      from the end. */
  lemma SliceIs(s: seq<byte>, lo: int, hi: int)
    ensures var from, to := if lo < 0 then lo + |s| else lo, if hi < 0 then hi + |s| else hi;
      var first, last := if from < 0 then 0 else from, if to > |s| then |s| else to;
      && |Slice(s, lo, hi)| == (if first < last then last - first else 0)
      && forall k :: first <= k < last ==> Slice(s, lo, hi)[k - first] == s[k]
  {
  }

  /** The two loops that add up length bytes; `None` when an index is out of range. */
  function PyExtension(src: seq<byte>, ip: nat, iend: nat): (r: Option<(nat, nat)>)
    ensures r.Some? ==> ip <= r.value.1
    decreases iend - ip
  {
    if ip >= iend then Some((0, ip))
    else if ip >= |src| then None
    else if src[ip] != 255 then Some((src[ip], ip + 1))
    else
      match PyExtension(src, ip + 1, iend)
      case None => None
      case Some((sum, next)) => Some((255 + sum, next))
  }

  /** The length bytes in one formula: they end with the first that is not 255 or before the declared end of
      the block; an index is out of range exactly if they run past the end of the input. */
  lemma {:induction false} PyExtensionIs(src: seq<byte>, ip: nat, iend: nat)
    requires ip <= iend
    ensures PyExtension(src, ip, iend).None? <==>
      ip < iend && |src| < iend && forall k :: ip <= k < |src| ==> src[k] == 255
    ensures PyExtension(src, ip, iend).Some? ==>
      var (sum, next) := PyExtension(src, ip, iend).value;
      && next <= iend && (next > ip ==> next <= |src|) && (forall k :: ip <= k < next - 1 ==> src[k] == 255)
      && if next > ip && src[next - 1] != 255 then (var last: int := src[next - 1]; sum == 255 * (next - 1 - ip) + last)
         else next == iend && sum == 255 * (next - ip)
    decreases iend - ip
  {
    if ip < iend && ip < |src| && src[ip] == 255 {
      PyExtensionIs(src, ip + 1, iend);
      var rest := PyExtension(src, ip + 1, iend);
      assert rest.None? && ip + 1 < iend ==> forall k :: ip <= k < |src| ==> src[k] == 255;
    }
  }

  function PyLength(nibble: nat, src: seq<byte>, ip: nat, iend: nat): (r: Option<(nat, nat)>)
    ensures r.Some? ==> ip <= r.value.1
  {
    if nibble != 15 then Some((nibble, ip))
    else
      match PyExtension(src, ip, iend)
      case None => None
      case Some((sum, next)) => Some((15 + sum, next))
  }

  /** `for i in range(n): dst += dst[len(dst)-off:len(dst)-off+1]`. */
  function PyCopy(dst: seq<byte>, off: nat, n: nat): (r: seq<byte>)
    ensures |dst| <= |r| <= |dst| + n
    decreases n
  {
    if n == 0 then dst else PyCopy(dst + Slice(dst, |dst| - off, |dst| - off + 1), off, n - 1)
  }

  /** One turn of the main loop: where the literals are, what is copied, and the new position. */
  datatype PyStep = PyStep(start: nat, run: nat, off: nat, count: nat, next: nat)

  function PyNext(src: seq<byte>, ip: nat, iend: nat): (r: Option<PyStep>)
    ensures r.Some? ==> ip < r.value.next && r.value.start + r.value.run + 2 <= |src|
  {
    if ip >= |src| then None
    else
      match PyLength(src[ip] / 16, src, ip + 1, iend)
      case None => None
      case Some((run, start)) =>
        if start + run + 2 > |src| then None
        else
          match PyLength(src[ip] % 16, src, start + run + 2, iend)
          case None => None
          case Some((extra, next)) => Some(PyStep(start, run, LittleEndian16(src, start + run), extra + 4, next))
  }

  function PyApply(src: seq<byte>, step: PyStep, dst: seq<byte>): seq<byte>
    requires step.start + step.run <= |src|
  {
    PyCopy(dst + src[step.start..step.start + step.run], step.off, step.count)
  }

  /** What a run of the main loop will do: all its turns, and whether it ends with an exception. It
      depends on the input alone. */
  datatype Plan = Done | Fails | Then(step: PyStep, rest: Plan)

  function PyPlan(src: seq<byte>, ip: nat, iend: nat): Plan
    decreases iend - ip
  {
    if ip >= iend then Done
    else
      match PyNext(src, ip, iend)
      case None => Fails
      case Some(step) => Then(step, PyPlan(src, step.next, iend))
  }

  /** The output of a plan. */
  function Perform(src: seq<byte>, plan: Plan, dst: seq<byte>): Option<seq<byte>>
    decreases plan
  {
    match plan
    case Done => Some(dst)
    case Fails => None
    case Then(step, rest) =>
      if step.start + step.run <= |src| then Perform(src, rest, PyApply(src, step, dst)) else None
  }

  function PyDecode(src: seq<byte>): Outcome {
    if |src| < 4 then Raises
    else
      match Perform(src, PyPlan(src, 4, BigEndian(src[..4])), [])
      case None => ReturnsNone
      case Some(dst) => Returns(dst)
  }

  /** An exception that leaves the function exactly for fewer than four bytes; every other ends in nothing. */
  lemma DecodeFails(src: seq<byte>)
    ensures PyDecode(src) == Raises <==> |src| < 4
    ensures PyDecode(src) == ReturnsNone <==>
      |src| >= 4 && Perform(src, PyPlan(src, 4, BigEndian(src[..4])), []) == None
  {
  }

  // ----- the loops -----

  method ReadLength(nibble: nat, src: seq<byte>, start: nat, iend: nat) returns (r: Option<(nat, nat)>)
    ensures r == PyLength(nibble, src, start, iend)
  {
    var length, ip := nibble, start;
    if length == 15 {
      var s := 255;
      while ip < iend && s == 255
        invariant start <= ip && 15 <= length
        invariant PyExtension(src, start, iend) ==
          if s != 255 then Some((length - 15, ip))
          else match PyExtension(src, ip, iend)
               case None => None
               case Some((sum, next)) => Some((length - 15 + sum, next))
        decreases iend - ip
      {
        if ip >= |src| {
          return None;
        }
        s := src[ip];
        length, ip := length + s, ip + 1;
      }
    }
    return Some((length, ip));
  }

  method CopyWindow(dst0: seq<byte>, off: nat, length: nat) returns (dst: seq<byte>)
    ensures dst == PyCopy(dst0, off, length)
  {
    dst := dst0;
    for i := 0 to length
      invariant PyCopy(dst0, off, length) == PyCopy(dst, off, length - i)
    {
      dst := dst + Slice(dst, |dst| - off, |dst| - off + 1);
    }
  }

  /** The body of the main loop: the new position and output. */
  method Turn(src: seq<byte>, ip0: nat, iend: nat, dst0: seq<byte>) returns (r: Option<(nat, seq<byte>)>)
    requires ip0 < iend
    ensures r == match PyNext(src, ip0, iend)
                 case None => None
                 case Some(step) => Some((step.next, PyApply(src, step, dst0)))
  {
    var ip, dst := ip0, dst0;
    if ip >= |src| {
      return None;
    }
    var token := src[ip];
    var run := ReadLength(token / 16, src, ip + 1, iend);
    if run.None? {
      return None;
    }
    var length;
    length, ip := run.value.0, run.value.1;
    dst := dst + Slice(src, ip, ip + length);
    ip := ip + length;
    if |Slice(src, ip, ip + 2)| != 2 {
      return None;
    }
    assert ip + 2 <= |src|;
    var off := LittleEndian16(src, ip);
    var extra := ReadLength(token % 16, src, ip + 2, iend);
    if extra.None? {
      return None;
    }
    dst := CopyWindow(dst, off, extra.value.0 + 4);
    return Some((extra.value.1, dst));
  }

  /** lz4zfs_decompress. */
  method Decompress(src: seq<byte>) returns (r: Outcome)
    ensures r == PyDecode(src)
  {
    if |src| < 4 {
      return Raises;
    }
    var ip: nat, iend := 4, BigEndian(src[..4]);
    var dst: seq<byte> := [];
    while ip < iend
      invariant Perform(src, PyPlan(src, 4, iend), []) == Perform(src, PyPlan(src, ip, iend), dst)
      decreases iend - ip
    {
      var turn := Turn(src, ip, iend, dst);
      if turn.None? {
        return ReturnsNone;
      }
      var (next, out) := turn.value;
      ip, dst := next, out;
    }
    return Returns(dst);
  }
}
