/** A packed list that ends too early is never taken for a list. */
module NvTruncated {
  import opened Bytes
  import opened NvFormat
  import opened NvRoundTrip

  /** The data ends inside `s`, which begins at `pos`. */
  predicate CutAt(data: seq<byte>, pos: nat, s: seq<byte>) {
    pos <= |data| < pos + |s| && data[pos..] == s[..|data| - pos]
  }

  lemma CutSplit(data: seq<byte>, pos: nat, s: seq<byte>, t: seq<byte>)
    requires CutAt(data, pos, s + t)
    ensures if |data| < pos + |s| then CutAt(data, pos, s) else At(data, pos, s) && CutAt(data, pos + |s|, t)
  {
    var n := |data| - pos;
    if n < |s| {
      assert (s + t)[..n] == s[..n];
    } else {
      assert data[pos..][..|s|] == (s + t)[..n][..|s|] == s;
      assert data[pos..][|s|..] == (s + t)[..n][|s|..] == t[..n - |s|];
      assert data[pos..pos + |s|] == data[pos..][..|s|] && data[pos + |s|..] == data[pos..][|s|..];
    }
  }

  /** An exception, or everything is used up. */
  predicate RaisesOrEnds<T>(r: Out<T>, data: seq<byte>) {
    r.Raise? || r.pos == |data|
  }

  lemma CutString(data: seq<byte>, pos: nat, s: Text)
    requires CutAt(data, pos, XdrString(s)) && |s| < 0x1_0000_0000
    ensures RaisesOrEnds(ReadString(data, pos), data)
  {
    var padded := s + seq(Align4(|s|) - |s|, _ => 0);
    CutSplit(data, pos, ToBigEndian(|s|, 4), padded);
    if |data| >= pos + 4 {
      Reads32(data, pos, |s|);
    }
  }

  lemma CutName(data: seq<byte>, pos: nat, size: nat, name: Text, rest: seq<byte>)
    requires CutAt(data, pos, XdrString(name) + rest) && |rest| == 8 && |name| < 0x1_0000_0000 && Ascii(name)
    ensures ReadName(data, pos, size) == Raise
  {
    CutSplit(data, pos, XdrString(name), rest);
    if |data| < pos + |XdrString(name)| {
      CutString(data, pos, name);
    } else {
      ReadsString(data, pos, name);
    }
  }

  lemma CutHead(data: seq<byte>, pos: nat, name: Text, unpacked: nat, p: Payload, payloadSize: nat)
    requires CutAt(data, pos, EncodeHead(name, unpacked, p, payloadSize))
    requires Ascii(name) && unpacked < 0x1_0000_0000 && PairSize(name, payloadSize) < 0x1_0000_0000
    ensures ReadHead(data, pos) == Raise
  {
    var counts := ToBigEndian(Kind(p), 4) + ToBigEndian(Count(p), 4);
    var named := XdrString(name) + counts;
    CutSplit(data, pos, ToBigEndian(PairSize(name, payloadSize), 4), ToBigEndian(unpacked, 4) + named);
    if |data| >= pos + 4 {
      Reads32(data, pos, PairSize(name, payloadSize));
      CutSplit(data, pos + 4, ToBigEndian(unpacked, 4), named);
      if |data| >= pos + 8 {
        CutName(data, pos + 8, PairSize(name, payloadSize), name, counts);
      }
    }
  }

  // ----- statements that stay folded -----

  ghost predicate PairsCut(data: seq<byte>, pos: nat, pairs: Pairs) {
    forall i {:trigger Unfold(i)} :: Unfold(i) ==> CutAt(data, pos, EncodePairs(pairs)) && Fits(pairs)
  }

  ghost predicate ListCut(data: seq<byte>, pos: nat, pairs: Pairs) {
    forall i {:trigger Unfold(i)} :: Unfold(i) ==> CutAt(data, pos, EncodeList(pairs)) && Fits(pairs)
  }

  ghost predicate ListsCut(data: seq<byte>, pos: nat, lists: Lists) {
    forall i {:trigger Unfold(i)} :: Unfold(i) ==> CutAt(data, pos, EncodeLists(lists)) && ListsFit(lists)
  }

  ghost predicate PayloadCut(data: seq<byte>, pos: nat, p: Payload, size: nat) {
    forall i {:trigger Unfold(i)} :: Unfold(i) ==>
      CutAt(data, pos, EncodePayload(p)) && size == |EncodePayload(p)| < 0x1_0000_0000 && PayloadFits(p)
  }

  ghost predicate PairsRaise(data: seq<byte>, pos: nat, m: map<Text, Value>)
    requires pos <= |data|
  {
    forall i {:trigger Unfold(i)} :: Unfold(i) ==> ParsePairs(data, pos, m) == Raise
  }

  ghost predicate ListRaises(data: seq<byte>, pos: nat)
    requires pos <= |data|
  {
    forall i {:trigger Unfold(i)} :: Unfold(i) ==> ParseList(data, pos) == Raise
  }

  ghost predicate ItemsStop(data: seq<byte>, pos: nat, kind: nat, raw: int, count: nat)
    requires pos <= |data|
  {
    forall i {:trigger Unfold(i)} :: Unfold(i) ==> RaisesOrEnds(ReadItems(data, pos, kind, raw, count), data)
  }

  // ----- a pair, cut -----

  /** The end of the data is no head. */
  lemma EndRaises(data: seq<byte>, m: map<Text, Value>)
    ensures PairsRaise(data, |data|, m) == true
  {
    assert ReadHead(data, |data|) == Raise;
    assert ReadPair(data, |data|) == Raise;
  }

  /** The items are cut: they raise, or nothing is left for the next head. */
  lemma ItemsRaise(data: seq<byte>, pos: nat, name: Text, payload: Payload, size: nat, p: nat, m: map<Text, Value>)
    requires pos <= |data| && HeadIs(data, pos, HeadOf(name, payload, size), p) == true && p <= |data|
    requires ItemsStop(data, p, Kind(payload), size, Count(payload)) == true
    ensures PairsRaise(data, pos, m) == true
  {
    assert Unfold(0);
    var head := HeadOf(name, payload, size);
    assert head.size - (16 + head.name.size) == size;
    var items := ReadItems(data, p, Kind(payload), size, Count(payload));
    if items.Raise? {
      assert ReadPair(data, pos) == Raise;
    } else {
      assert ReadPair(data, pos) == Ok(Got(name, Unwrap(items.value)), |data|);
      EndRaises(data, m[name := Unwrap(items.value)]);
    }
  }

  lemma RestRaises(data: seq<byte>, pos: nat, name: Text, payload: Payload, size: nat, p: nat, q: nat,
                   values: seq<Value>, m: map<Text, Value>)
    requires pos <= |data| && q == p + size <= |data| && HeadIs(data, pos, HeadOf(name, payload, size), p) == true
    requires ItemsAre(data, p, Kind(payload), size, Count(payload), values, q) == true
    requires PairsRaise(data, q, Added(m, name, values)) == true
    ensures PairsRaise(data, pos, m) == true
  {
    assert Unfold(0);
    var head := HeadOf(name, payload, size);
    assert head.size - (16 + head.name.size) == size;
    assert ReadPair(data, pos) == Ok(Got(name, Unwrap(values)), q);
  }

  /** The data ends in the items of a pair or in what follows them. */
  ghost predicate BodyCut(data: seq<byte>, p: nat, payload: Payload, size: nat, rest: Pairs) {
    forall i {:trigger Unfold(i)} :: Unfold(i) ==>
      && CutAt(data, p, EncodePayload(payload) + EncodePairs(rest)) && size == |EncodePayload(payload)| < 0x1_0000_0000
      && PayloadFits(payload) && Fits(rest)
  }

  lemma CutBody(data: seq<byte>, p: nat, payload: Payload, size: nat, rest: Pairs, q: nat)
    requires BodyCut(data, p, payload, size, rest) && q == p + size
    ensures p <= |data|
    ensures |data| < q ==> PayloadCut(data, p, payload, size) == true
    ensures |data| >= q ==> PayloadAt(data, p, payload, size) == true
    ensures |data| >= q ==> PairsCut(data, q, rest) == true
  {
    assert Unfold(0);
    CutSplit(data, p, EncodePayload(payload), EncodePairs(rest));
  }

  /** The data ends in the fields before the items. */
  ghost predicate HeadCut(data: seq<byte>, pos: nat, name: Text, unpacked: nat, p: Payload, size: nat) {
    forall i {:trigger Unfold(i)} :: Unfold(i) ==>
      && CutAt(data, pos, EncodeHead(name, unpacked, p, size))
      && Ascii(name) && unpacked < 0x1_0000_0000 && PairSize(name, size) < 0x1_0000_0000
  }

  lemma HeadCutRaises(data: seq<byte>, pos: nat, name: Text, unpacked: nat, p: Payload, size: nat, m: map<Text, Value>)
    requires pos <= |data| && HeadCut(data, pos, name, unpacked, p, size)
    ensures PairsRaise(data, pos, m) == true
  {
    assert Unfold(0);
    CutHead(data, pos, name, unpacked, p, size);
    assert ReadPair(data, pos) == Raise;
  }

  lemma CutAtPair(data: seq<byte>, pos: nat, pairs: Pairs, head: seq<byte>, body: seq<byte>)
    requires pairs.Pair? && CutAt(data, pos, EncodePairs(pairs))
    requires head == EncodeHead(pairs.name, pairs.unpacked, pairs.payload, |EncodePayload(pairs.payload)|)
    requires body == EncodePayload(pairs.payload) + EncodePairs(pairs.rest)
    ensures if |data| < pos + |head| then CutAt(data, pos, head)
            else At(data, pos, head) && CutAt(data, pos + |head|, body)
  {
    CutSplit(data, pos, head, body);
  }

  lemma CutPairHead(data: seq<byte>, pos: nat, pairs: Pairs, size: nat, head: seq<byte>)
    requires pairs.Pair? && PairsCut(data, pos, pairs) && size == |EncodePayload(pairs.payload)|
    requires head == EncodeHead(pairs.name, pairs.unpacked, pairs.payload, size) && |data| < pos + |head|
    ensures HeadCut(data, pos, pairs.name, pairs.unpacked, pairs.payload, size) == true
  {
    assert Unfold(0);
    CutAtPair(data, pos, pairs, head, EncodePayload(pairs.payload) + EncodePairs(pairs.rest));
  }

  lemma CutPairBody(data: seq<byte>, pos: nat, pairs: Pairs, size: nat, head: seq<byte>)
    requires pairs.Pair? && PairsCut(data, pos, pairs) && size == |EncodePayload(pairs.payload)|
    requires head == EncodeHead(pairs.name, pairs.unpacked, pairs.payload, size) && |data| >= pos + |head|
    ensures HeadAt(data, pos, pairs.name, pairs.unpacked, pairs.payload, size, pos + |head|) == true
    ensures BodyCut(data, pos + |head|, pairs.payload, size, pairs.rest) == true
  {
    assert Unfold(0);
    CutAtPair(data, pos, pairs, head, EncodePayload(pairs.payload) + EncodePairs(pairs.rest));
    FoldHead(data, pos, pairs.name, pairs.unpacked, pairs.payload, size);
  }

  // ----- the results -----

  lemma CutSimple(data: seq<byte>, pos: nat, p: Payload, size: nat)
    requires pos <= |data| && PayloadCut(data, pos, p, size) && !p.One? && !p.Many?
    ensures RaisesOrEnds(ReadItem(data, pos, Kind(p), size), data)
  {
    assert Unfold(0);
    if p.String? { CutString(data, pos, p.s); }
  }

  lemma OneStops(data: seq<byte>, pos: nat, kind: nat, raw: int)
    requires pos <= |data| && RaisesOrEnds(ReadItem(data, pos, kind, raw), data)
    ensures ItemsStop(data, pos, kind, raw, 1) == true
  {
    var item := ReadItem(data, pos, kind, raw);
    if item.Ok? { assert ReadItems(data, item.pos, kind, raw, 0) == Ok([], item.pos); }
  }

  lemma {:induction false} CutPayload(data: seq<byte>, pos: nat, p: Payload, size: nat)
    requires pos <= |data| && PayloadCut(data, pos, p, size) == true
    ensures ItemsStop(data, pos, Kind(p), size, Count(p)) == true
    decreases p, 1
  {
    match p
    case Many(lists) =>
      assert ListsCut(data, pos, lists) == true by { assert Unfold(0); }
      CutLists(data, pos, lists, size, Count(p));
    case One(list) =>
      assert ListCut(data, pos, list) == true by { assert Unfold(0); }
      CutList(data, pos, list);
      assert ReadItem(data, pos, NVLIST, size) == Raise by { assert Unfold(0); }
      OneStops(data, pos, NVLIST, size);
    case _ =>
      CutSimple(data, pos, p, size);
      OneStops(data, pos, Kind(p), size);
  }

  lemma {:induction false} CutLists(data: seq<byte>, pos: nat, lists: Lists, raw: int, count: nat)
    requires pos <= |data| && ListsCut(data, pos, lists) == true && count == Length(lists)
    ensures ItemsStop(data, pos, NVLIST_ARRAY, raw, count) == true
    decreases lists, 0
  {
    match lists
    case NoLists =>
    case Cons(first, rest) =>
      var p := CutFirst(data, pos, first, rest);
      if |data| < p {
        CutList(data, pos, first);
        FirstRaises(data, pos, raw, count);
      } else {
        ReadsList(data, pos, first, p, Dict(map[], first));
        CutLists(data, p, rest, raw, count - 1);
        LaterStops(data, pos, raw, Dict(map[], first), p, count);
      }
  }

  lemma CutFirst(data: seq<byte>, pos: nat, first: Pairs, rest: Lists) returns (p: nat)
    requires ListsCut(data, pos, Cons(first, rest))
    ensures pos <= |data|
    ensures if |data| < p then ListCut(data, pos, first) == true
      else ListAt(data, pos, first, p) == true && ListsCut(data, p, rest) == true
  {
    assert Unfold(0);
    p := pos + |EncodeList(first)|;
    CutSplit(data, pos, EncodeList(first), EncodeLists(rest));
  }

  lemma FirstRaises(data: seq<byte>, pos: nat, raw: int, count: nat)
    requires pos <= |data| && ListRaises(data, pos) && count > 0
    ensures ItemsStop(data, pos, NVLIST_ARRAY, raw, count) == true
  {
    assert Unfold(0);
    assert ReadItem(data, pos, NVLIST_ARRAY, raw) == Raise;
  }

  lemma LaterStops(data: seq<byte>, pos: nat, raw: int, m: map<Text, Value>, p: nat, count: nat)
    requires pos <= |data| && ListIs(data, pos, m, p) && p <= |data| && count > 0
    requires ItemsStop(data, p, NVLIST_ARRAY, raw, count - 1)
    ensures ItemsStop(data, pos, NVLIST_ARRAY, raw, count) == true
  {
    assert Unfold(0);
    assert ReadItem(data, pos, NVLIST_ARRAY, raw) == Ok(Table(m), p);
  }

  lemma {:induction false} CutList(data: seq<byte>, pos: nat, pairs: Pairs)
    requires pos <= |data| && ListCut(data, pos, pairs) == true
    ensures ListRaises(data, pos) == true
    decreases pairs, 2
  {
    if |data| < pos + 8 {
      assert ParseList(data, pos) == Raise;
    } else {
      assert PairsCut(data, pos + 8, pairs) == true by {
        assert Unfold(0);
        CutSplit(data, pos, HEADER, EncodePairs(pairs));
      }
      CutPairs(data, pos + 8, pairs, map[]);
      assert ParsePairs(data, pos + 8, map[]) == Raise by { assert Unfold(0); }
    }
  }

  lemma EndCutRaises(data: seq<byte>, pos: nat, m: map<Text, Value>)
    requires pos <= |data| && PairsCut(data, pos, NoPairs)
    ensures PairsRaise(data, pos, m) == true
  {
    assert Unfold(0);
    CutSplit(data, pos, ToBigEndian(0, 4), ToBigEndian(0, 4));
    assert ReadHead(data, pos) == Raise;
    assert ReadPair(data, pos) == Raise;
  }

  lemma ValuesOf(p: Payload) returns (values: seq<Value>)
    ensures ValuesAre(p, values) == true
  {
    values := Values(p);
  }

  /** Whether the data ends in the fields before the items, and otherwise where the items start and end. */
  lemma PairCut(data: seq<byte>, pos: nat, pairs: Pairs, m: map<Text, Value>)
    returns (raised: bool, p: nat, size: nat, q: nat)
    requires pos <= |data| && pairs.Pair? && PairsCut(data, pos, pairs) == true
    ensures raised ==> PairsRaise(data, pos, m) == true
    ensures !raised ==> p <= |data| && q == p + size
    ensures !raised ==> HeadIs(data, pos, HeadOf(pairs.name, pairs.payload, size), p) == true
    ensures !raised && |data| < q ==> PayloadCut(data, p, pairs.payload, size) == true
    ensures !raised && |data| >= q ==> PayloadAt(data, p, pairs.payload, size) == true
    ensures !raised && |data| >= q ==> PairsCut(data, q, pairs.rest) == true
  {
    size := |EncodePayload(pairs.payload)|;
    var head := EncodeHead(pairs.name, pairs.unpacked, pairs.payload, size);
    p, q := pos + |head|, pos + |head| + size;
    raised := |data| < p;
    if raised {
      CutPairHead(data, pos, pairs, size, head);
      HeadCutRaises(data, pos, pairs.name, pairs.unpacked, pairs.payload, size, m);
    } else {
      CutPairBody(data, pos, pairs, size, head);
      HeadFolded(data, pos, pairs.name, pairs.unpacked, pairs.payload, size, p);
      CutBody(data, p, pairs.payload, size, pairs.rest, q);
    }
  }

  lemma {:induction false} CutPairs(data: seq<byte>, pos: nat, pairs: Pairs, m: map<Text, Value>)
    requires pos <= |data| && PairsCut(data, pos, pairs) == true
    ensures PairsRaise(data, pos, m) == true
    decreases pairs, 1
  {
    if pairs.NoPairs? {
      EndCutRaises(data, pos, m);
    } else {
      var raised, p, size, q := PairCut(data, pos, pairs, m);
      if !raised { CutItemsOrRest(data, pos, pairs, p, size, q, m); }
    }
  }

  lemma {:induction false} CutItemsOrRest(data: seq<byte>, pos: nat, pairs: Pairs, p: nat, size: nat, q: nat,
      m: map<Text, Value>)
    requires pos <= |data| && pairs.Pair? && HeadIs(data, pos, HeadOf(pairs.name, pairs.payload, size), p) == true
    requires p <= |data| && q == p + size
    requires |data| < q ==> PayloadCut(data, p, pairs.payload, size) == true
    requires |data| >= q ==> PayloadAt(data, p, pairs.payload, size) == true
    requires |data| >= q ==> PairsCut(data, q, pairs.rest) == true
    ensures PairsRaise(data, pos, m) == true
    decreases pairs, 0
  {
    var name, payload := pairs.name, pairs.payload;
    if |data| < q {
      CutPayload(data, p, payload, size);
      ItemsRaise(data, pos, name, payload, size, p, m);
    } else {
      var values := ValuesOf(payload);
      ReadsPayload(data, p, payload, size, values);
      CutPairs(data, q, pairs.rest, Added(m, name, values));
      RestRaises(data, pos, name, payload, size, p, q, values, m);
    }
  }

  /** No proper prefix of a packed list is parsed. */
  lemma TruncatedRaises(pairs: Pairs, n: nat)
    requires Fits(pairs) && n < |EncodeList(pairs)|
    ensures ParseList(EncodeList(pairs)[..n], 0) == Raise
  {
    var data := EncodeList(pairs)[..n];
    assert data[0..] == data;
    CutList(data, 0, pairs);
    assert Unfold(0);
  }
}
