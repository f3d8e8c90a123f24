/** Copies that may overlap what they write, as both LZ formats make them. */
module Copies {
  import opened Bytes

  /** `n` times, append the byte that lies `offset` back from the end. Offset 0 appends nothing. */
  function CopyBack(out: seq<byte>, offset: nat, n: nat): seq<byte>
    decreases n
  {
    if n == 0 || offset == 0 || offset > |out| then out
    else CopyBack(out + [out[|out| - offset]], offset, n - 1)
  }

  lemma {:induction false} CopyBackLength(out: seq<byte>, offset: nat, n: nat)
    requires 1 <= offset <= |out|
    ensures |CopyBack(out, offset, n)| == |out| + n && out <= CopyBack(out, offset, n)
    decreases n
  {
    if n != 0 { CopyBackLength(out + [out[|out| - offset]], offset, n - 1); }
  }

  predicate EqualsBack(s: seq<byte>, k: nat, offset: nat)
    requires offset <= k < |s|
  {
    s[k] == s[k - offset]
  }

  /** From `lo` to `hi`, every byte equals the one `offset` before it. */
  ghost predicate Periodic(s: seq<byte>, lo: nat, hi: nat, offset: nat) {
    offset <= lo <= hi <= |s| && forall k :: lo <= k < hi ==> EqualsBack(s, k, offset)
  }

  lemma PeriodicStays(s: seq<byte>, t: seq<byte>, lo: nat, hi: nat, offset: nat)
    requires Periodic(s, lo, hi, offset) && hi <= |t| && s[..hi] == t[..hi]
    ensures Periodic(t, lo, hi, offset)
  {
    forall k | lo <= k < hi ensures EqualsBack(t, k, offset) {
      assert EqualsBack(s, k, offset) && s[..hi][k] == t[..hi][k] && s[..hi][k - offset] == t[..hi][k - offset];
    }
  }

  /** The only periodic continuation of `out` is the one that byte-at-a-time copying produces. */
  lemma {:induction false} PeriodicIsCopyBack(s: seq<byte>, lo: nat, hi: nat, offset: nat)
    requires offset != 0 && Periodic(s, lo, hi, offset)
    ensures s[..hi] == CopyBack(s[..lo], offset, hi - lo)
    decreases hi - lo
  {
    if lo < hi {
      PeriodicIsCopyBack(s, lo + 1, hi, offset);
      assert EqualsBack(s, lo, offset);
      assert s[..lo] + [s[lo - offset]] == s[..lo + 1];
    }
  }

  /** A step back by several periods is a step back by one. */
  lemma {:induction false} StepBack(s: seq<byte>, lo: nat, k: nat, offset: nat, m: nat)
    requires Periodic(s, lo, k, offset) && m >= 1 && k < |s|
    requires k - (m - 1) * offset >= lo
    ensures 0 <= k - m * offset
    ensures s[k - offset] == s[k - m * offset]
    decreases m
  {
    if m > 1 {
      assert (m - 1) * offset == (m - 2) * offset + offset;
      StepBack(s, lo, k, offset, m - 1);
      var j := k - (m - 1) * offset;
      if offset != 0 { assert lo <= j < k && EqualsBack(s, j, offset); }
    }
  }
}
