/** Parsing inverts packing, wherever in the data the packed list stands. */
module NvRoundTrip {
  import opened Bytes
  import opened NvFormat

  /** `s` stands at `pos`. */
  predicate At(data: seq<byte>, pos: nat, s: seq<byte>) {
    pos + |s| <= |data| && data[pos..pos + |s|] == s
  }

  lemma Split(data: seq<byte>, pos: nat, s: seq<byte>, t: seq<byte>)
    requires At(data, pos, s + t)
    ensures At(data, pos, s) && At(data, pos + |s|, t)
  {
    var whole := data[pos..pos + |s + t|];
    assert whole[..|s|] == s && whole[|s|..] == t;
    assert data[pos..pos + |s|] == whole[..|s|];
    assert data[pos + |s|..pos + |s| + |t|] == whole[|s|..];
  }

  lemma Fields(n: nat)
    ensures n < 0x1_0000_0000 ==> n < Pow256(4)
    ensures n < 0x1_0000_0000_0000_0000 ==> n < Pow256(8)
  {
    assert Pow256(2) == 0x1_0000;
    assert Pow256(4) == 0x1_0000_0000;
    assert Pow256(6) == 0x1_0000_0000_0000;
    assert Pow256(8) == 0x1_0000_0000_0000_0000;
  }

  lemma ReadsUint(data: seq<byte>, pos: nat, n: nat, size: nat)
    requires pos <= |data| && At(data, pos, ToBigEndian(n, size)) && n < Pow256(size)
    ensures ReadUint(data, pos, size) == Ok(n, pos + size)
  {
    BigEndianRoundTrip(n, size);
  }

  lemma Reads32(data: seq<byte>, pos: nat, n: nat)
    requires pos <= |data| && At(data, pos, ToBigEndian(n, 4)) && n < 0x1_0000_0000
    ensures ReadUint(data, pos, 4) == Ok(n, pos + 4)
  {
    Fields(n);
    ReadsUint(data, pos, n, 4);
  }

  lemma ReadsString(data: seq<byte>, pos: nat, s: Text)
    requires pos <= |data| && At(data, pos, XdrString(s)) && Ascii(s) && |s| < 0x1_0000_0000
    ensures ReadString(data, pos) == Ok(Sized(s, Align4(|s|) + 4), pos + |XdrString(s)|)
    ensures |XdrString(s)| == Align4(|s|) + 4
  {
    var padded := s + seq(Align4(|s|) - |s|, _ => 0);
    Split(data, pos, ToBigEndian(|s|, 4), padded);
    Reads32(data, pos, |s|);
    assert padded[..|s|] == s;
  }

  /** A string of seven-bit bytes is read, and no other. */
  lemma ReadsStringIff(data: seq<byte>, pos: nat, s: Text)
    requires pos <= |data| && At(data, pos, XdrString(s)) && |s| < 0x1_0000_0000
    ensures ReadString(data, pos).Ok? <==> SevenBits(s)
    ensures SevenBits(s) ==> ReadString(data, pos).value == Sized(s, |XdrString(s)|)
  {
    var padded := s + seq(Align4(|s|) - |s|, _ => 0);
    Split(data, pos, ToBigEndian(|s|, 4), padded);
    Reads32(data, pos, |s|);
    assert padded[..|s|] == s;
  }

  /** A value of an unknown type is as many bytes as are said to be left of the pair, but all bytes to the end
      if there are fewer, or if the size of the pair does not even cover what comes before. */
  lemma ReadsRaw(data: seq<byte>, pos: nat, kind: nat, raw: int)
    requires pos <= |data| && kind !in {6, 8, 9, 19, 20}
    ensures ReadItem(data, pos, kind, raw) ==
      if raw < 0 || pos + raw > |data| then Ok(Raw(data[pos..]), |data|) else Ok(Raw(data[pos..pos + raw]), pos + raw)
  {
    assert data[pos..|data|] == data[pos..];
  }

  /** What parsing comes to, as statements that stay folded until `Unfold` is mentioned. */
  predicate Unfold(i: int) { true }

  ghost predicate ItemsAre(data: seq<byte>, pos: nat, kind: nat, raw: int, count: nat, values: seq<Value>, end: nat)
    requires pos <= |data|
  {
    forall i {:trigger Unfold(i)} :: Unfold(i) ==> ReadItems(data, pos, kind, raw, count) == Ok(values, end)
  }

  ghost predicate Parses(data: seq<byte>, pos: nat, m: map<Text, Value>, m': map<Text, Value>, end: nat)
    requires pos <= |data|
  {
    forall i {:trigger Unfold(i)} :: Unfold(i) ==> ParsePairs(data, pos, m) == Ok(m', end)
  }

  ghost predicate HeadIs(data: seq<byte>, pos: nat, head: Head, end: nat)
    requires pos <= |data|
  {
    forall i {:trigger Unfold(i)} :: Unfold(i) ==> ReadHead(data, pos) == Ok(head, end)
  }

  ghost predicate ListIs(data: seq<byte>, pos: nat, m: map<Text, Value>, end: nat)
    requires pos <= |data|
  {
    forall i {:trigger Unfold(i)} :: Unfold(i) ==> ParseList(data, pos) == Ok(m, end)
  }

  function HeadOf(name: Text, p: Payload, payloadSize: nat): Head {
    Head(PairSize(name, payloadSize), Sized(name, Align4(|name|) + 4), Kind(p), Count(p))
  }

  /** The fields before the items. */
  lemma ReadsHead(data: seq<byte>, pos: nat, name: Text, unpacked: nat, p: Payload, payloadSize: nat)
    requires pos <= |data| && At(data, pos, EncodeHead(name, unpacked, p, payloadSize))
    requires Ascii(name) && unpacked < 0x1_0000_0000 && PairSize(name, payloadSize) < 0x1_0000_0000
    requires Kind(p) < 0x1_0000_0000 && Count(p) < 0x1_0000_0000
    ensures HeadIs(data, pos, HeadOf(name, p, payloadSize), pos + |EncodeHead(name, unpacked, p, payloadSize)|) == true
  {
    var counts := ToBigEndian(Kind(p), 4) + ToBigEndian(Count(p), 4);
    var named := XdrString(name) + counts;
    Split(data, pos, ToBigEndian(PairSize(name, payloadSize), 4), ToBigEndian(unpacked, 4) + named);
    Split(data, pos + 4, ToBigEndian(unpacked, 4), named);
    Reads32(data, pos, PairSize(name, payloadSize));
    Reads32(data, pos + 4, unpacked);
    ReadsName(data, pos + 8, PairSize(name, payloadSize), name, p);
  }

  lemma ReadsName(data: seq<byte>, pos: nat, size: nat, name: Text, p: Payload)
    requires pos <= |data| && |name| < 0x1_0000_0000 && Ascii(name)
    requires At(data, pos, XdrString(name) + (ToBigEndian(Kind(p), 4) + ToBigEndian(Count(p), 4)))
    requires Kind(p) < 0x1_0000_0000 && Count(p) < 0x1_0000_0000
    ensures ReadName(data, pos, size)
      == Ok(Head(size, Sized(name, Align4(|name|) + 4), Kind(p), Count(p)), pos + |XdrString(name)| + 8)
  {
    var counts := ToBigEndian(Kind(p), 4) + ToBigEndian(Count(p), 4);
    Split(data, pos, XdrString(name), counts);
    ReadsString(data, pos, name);
    Split(data, pos + |XdrString(name)|, ToBigEndian(Kind(p), 4), ToBigEndian(Count(p), 4));
    Reads32(data, pos + |XdrString(name)|, Kind(p));
    Reads32(data, pos + |XdrString(name)| + 4, Count(p));
  }

  lemma ReadsEnd(data: seq<byte>, pos: nat)
    requires pos <= |data| && At(data, pos, EncodePairs(NoPairs))
    ensures HeadIs(data, pos, End, pos + |EncodePairs(NoPairs)|) == true
  {
    Split(data, pos, ToBigEndian(0, 4), ToBigEndian(0, 4));
    Reads32(data, pos, 0);
    Reads32(data, pos + 4, 0);
  }

  lemma {:induction false} LengthBound(lists: Lists)
    ensures Length(lists) <= |EncodeLists(lists)|
    decreases lists
  {
    if lists.Cons? { LengthBound(lists.rest); }
  }

  lemma CountBound(name: Text, p: Payload)
    requires PayloadFits(p) && PairSize(name, |EncodePayload(p)|) < 0x1_0000_0000
    ensures Kind(p) < 0x1_0000_0000 && Count(p) < 0x1_0000_0000 && |name| < 0x1_0000_0000
    ensures p.String? ==> |p.s| < 0x1_0000_0000
  {
    if p.Many? { LengthBound(p.lists); }
  }

  /** Where the pieces of an encoding stand, folded in the same way. */
  ghost predicate PairsAt(data: seq<byte>, pos: nat, pairs: Pairs, end: nat) {
    forall i {:trigger Unfold(i)} :: Unfold(i) ==>
      At(data, pos, EncodePairs(pairs)) && end == pos + |EncodePairs(pairs)| && Fits(pairs)
  }

  ghost predicate ListAt(data: seq<byte>, pos: nat, pairs: Pairs, end: nat) {
    forall i {:trigger Unfold(i)} :: Unfold(i) ==>
      At(data, pos, EncodeList(pairs)) && end == pos + |EncodeList(pairs)| && Fits(pairs)
  }

  ghost predicate ListsAt(data: seq<byte>, pos: nat, lists: Lists, end: nat) {
    forall i {:trigger Unfold(i)} :: Unfold(i) ==>
      At(data, pos, EncodeLists(lists)) && end == pos + |EncodeLists(lists)| && ListsFit(lists)
  }

  ghost predicate PayloadAt(data: seq<byte>, pos: nat, p: Payload, size: nat) {
    forall i {:trigger Unfold(i)} :: Unfold(i) ==>
      At(data, pos, EncodePayload(p)) && size == |EncodePayload(p)| < 0x1_0000_0000 && PayloadFits(p)
  }

  lemma SplitThree(data: seq<byte>, pos: nat, a: seq<byte>, b: seq<byte>, c: seq<byte>)
    requires At(data, pos, a + (b + c))
    ensures At(data, pos, a) && At(data, pos + |a|, b) && At(data, pos + |a| + |b|, c)
    ensures |a + (b + c)| == |a| + |b| + |c|
  {
    Split(data, pos, a, b + c);
    Split(data, pos + |a|, b, c);
  }

  ghost predicate HeadAt(data: seq<byte>, pos: nat, name: Text, unpacked: nat, p: Payload, size: nat, end: nat) {
    forall i {:trigger Unfold(i)} :: Unfold(i) ==>
      && At(data, pos, EncodeHead(name, unpacked, p, size)) && end == pos + |EncodeHead(name, unpacked, p, size)|
      && Ascii(name) && unpacked < 0x1_0000_0000 && PairSize(name, size) < 0x1_0000_0000
      && Kind(p) < 0x1_0000_0000 && Count(p) < 0x1_0000_0000
  }

  lemma HeadFolded(data: seq<byte>, pos: nat, name: Text, unpacked: nat, p: Payload, size: nat, end: nat)
    requires pos <= |data| && HeadAt(data, pos, name, unpacked, p, size, end)
    ensures HeadIs(data, pos, HeadOf(name, p, size), end) == true
  {
    assert Unfold(0);
    ReadsHead(data, pos, name, unpacked, p, size);
  }

  lemma FoldHead(data: seq<byte>, pos: nat, name: Text, unpacked: nat, p: Payload, size: nat)
    requires At(data, pos, EncodeHead(name, unpacked, p, size)) && size == |EncodePayload(p)|
    requires Ascii(name) && unpacked < 0x1_0000_0000 && PairSize(name, size) < 0x1_0000_0000 && PayloadFits(p)
    ensures HeadAt(data, pos, name, unpacked, p, size, pos + |EncodeHead(name, unpacked, p, size)|) == true
  {
    CountBound(name, p);
  }

  lemma FoldRest(data: seq<byte>, p: nat, payload: Payload, size: nat, rest: Pairs, end: nat)
    requires At(data, p, EncodePayload(payload)) && size == |EncodePayload(payload)| < 0x1_0000_0000
    requires PayloadFits(payload)
    requires At(data, p + size, EncodePairs(rest)) && end == p + size + |EncodePairs(rest)| && Fits(rest)
    ensures PayloadAt(data, p, payload, size) == true
    ensures PairsAt(data, p + size, rest, end) == true
  {
  }

  lemma AtPair(data: seq<byte>, pos: nat, pairs: Pairs, head: seq<byte>, items: seq<byte>, tail: seq<byte>)
    requires pairs.Pair? && At(data, pos, EncodePairs(pairs)) && items == EncodePayload(pairs.payload)
    requires head == EncodeHead(pairs.name, pairs.unpacked, pairs.payload, |items|) && tail == EncodePairs(pairs.rest)
    ensures At(data, pos, head) && At(data, pos + |head|, items) && At(data, pos + |head| + |items|, tail)
    ensures |EncodePairs(pairs)| == |head| + |items| + |tail|
  {
    SplitThree(data, pos, head, items, tail);
  }

  lemma SplitPair(data: seq<byte>, pos: nat, pairs: Pairs, end: nat, size: nat, head: seq<byte>, p: nat)
    requires pairs.Pair? && PairsAt(data, pos, pairs, end) == true && size == |EncodePayload(pairs.payload)|
    requires head == EncodeHead(pairs.name, pairs.unpacked, pairs.payload, size) && p == pos + |head|
    ensures p + size <= |data| && end <= |data|
    ensures HeadAt(data, pos, pairs.name, pairs.unpacked, pairs.payload, size, p) == true
    ensures PayloadAt(data, p, pairs.payload, size) == true
    ensures PairsAt(data, p + size, pairs.rest, end) == true
  {
    assert Unfold(0);
    AtPair(data, pos, pairs, head, EncodePayload(pairs.payload), EncodePairs(pairs.rest));
    FoldHead(data, pos, pairs.name, pairs.unpacked, pairs.payload, size);
    FoldRest(data, pos + |head|, pairs.payload, size, pairs.rest, end);
  }

  lemma PairParts(data: seq<byte>, pos: nat, pairs: Pairs, end: nat) returns (p: nat, size: nat)
    requires pos <= |data| && pairs.Pair? && PairsAt(data, pos, pairs, end) == true
    ensures p + size <= |data| && end <= |data|
    ensures HeadIs(data, pos, HeadOf(pairs.name, pairs.payload, size), p) == true
    ensures PayloadAt(data, p, pairs.payload, size) == true
    ensures PairsAt(data, p + size, pairs.rest, end) == true
  {
    size := |EncodePayload(pairs.payload)|;
    var head := EncodeHead(pairs.name, pairs.unpacked, pairs.payload, size);
    p := pos + |head|;
    SplitPair(data, pos, pairs, end, size, head, p);
    HeadFolded(data, pos, pairs.name, pairs.unpacked, pairs.payload, size, p);
  }

  lemma SplitEnd(data: seq<byte>, pos: nat, end: nat)
    requires pos <= |data| && PairsAt(data, pos, NoPairs, end)
    ensures HeadIs(data, pos, End, end) == true
  {
    assert Unfold(0);
    ReadsEnd(data, pos);
  }

  lemma SplitList(data: seq<byte>, pos: nat, pairs: Pairs, end: nat)
    requires ListAt(data, pos, pairs, end)
    ensures pos + 8 <= end <= |data| && PairsAt(data, pos + 8, pairs, end) == true
  {
    assert Unfold(0);
    Split(data, pos, HEADER, EncodePairs(pairs));
  }

  lemma SplitLists(data: seq<byte>, pos: nat, first: Pairs, rest: Lists, end: nat) returns (p: nat)
    requires ListsAt(data, pos, Cons(first, rest), end)
    ensures pos <= p <= |data| && ListAt(data, pos, first, p) == true && ListsAt(data, p, rest, end) == true
  {
    assert Unfold(0);
    p := pos + |EncodeList(first)|;
    Split(data, pos, EncodeList(first), EncodeLists(rest));
  }

  lemma SplitPayload(data: seq<byte>, pos: nat, p: Payload, size: nat)
    requires PayloadAt(data, pos, p, size)
    ensures pos + size <= |data|
    ensures p.One? ==> ListAt(data, pos, p.list, pos + size) == true
    ensures p.Many? ==> ListsAt(data, pos, p.lists, pos + size) == true
  {
    assert Unfold(0);
  }

  // ----- putting statements together -----

  lemma OneItem(data: seq<byte>, pos: nat, kind: nat, raw: int, v: Value, q: nat)
    requires pos <= |data| && ReadItem(data, pos, kind, raw) == Ok(v, q)
    ensures ItemsAre(data, pos, kind, raw, 1, [v], q) == true
  {
    assert ReadItems(data, q, kind, raw, 0) == Ok([], q);
    assert [v] + [] == [v];
  }

  lemma OneList(data: seq<byte>, pos: nat, raw: int, m: map<Text, Value>, q: nat)
    requires pos <= |data| && ListIs(data, pos, m, q)
    ensures ItemsAre(data, pos, NVLIST, raw, 1, [Table(m)], q) == true
  {
    assert Unfold(0);
    OneItem(data, pos, NVLIST, raw, Table(m), q);
  }

  lemma MoreLists(data: seq<byte>, pos: nat, raw: int, m: map<Text, Value>, p: nat, count: nat, values: seq<Value>,
      q: nat)
    requires pos <= |data| && ListIs(data, pos, m, p) && p <= |data|
    requires ItemsAre(data, p, NVLIST_ARRAY, raw, count, values, q)
    ensures ItemsAre(data, pos, NVLIST_ARRAY, raw, count + 1, [Table(m)] + values, q) == true
  {
    assert Unfold(0);
    assert ReadItem(data, pos, NVLIST_ARRAY, raw) == Ok(Table(m), p);
  }

  lemma MorePairs(data: seq<byte>, pos: nat, name: Text, payload: Payload, size: nat, p: nat, q: nat,
      values: seq<Value>, m: map<Text, Value>, m': map<Text, Value>, end: nat)
    requires pos <= |data| && q == p + size <= |data| && HeadIs(data, pos, HeadOf(name, payload, size), p) == true
    requires ItemsAre(data, p, Kind(payload), size, Count(payload), values, q) == true
    requires Parses(data, q, Added(m, name, values), m', end) == true
    ensures Parses(data, pos, m, m', end) == true
  {
    assert Unfold(0);
    var head := HeadOf(name, payload, size);
    assert head.size - (16 + head.name.size) == size;
    assert ReadPair(data, pos) == Ok(Got(name, Unwrap(values)), q);
  }

  lemma NoMorePairs(data: seq<byte>, pos: nat, m: map<Text, Value>, p: nat)
    requires pos <= |data| && HeadIs(data, pos, End, p) == true
    ensures Parses(data, pos, m, m, p) == true
  {
    assert Unfold(0);
    assert ReadPair(data, pos) == Ok(NoMore, p);
  }

  lemma Listed(data: seq<byte>, pos: nat, m: map<Text, Value>, end: nat)
    requires pos + 8 <= |data| && Parses(data, pos + 8, map[], m, end) == true
    ensures ListIs(data, pos, m, end) == true
  {
  }

  function Added(m: map<Text, Value>, name: Text, values: seq<Value>): map<Text, Value> {
    m[name := Unwrap(values)]
  }

  ghost predicate DictIs(m: map<Text, Value>, pairs: Pairs, m': map<Text, Value>) {
    forall i {:trigger Unfold(i)} :: Unfold(i) ==> m' == Dict(m, pairs)
  }

  ghost predicate ValuesAre(p: Payload, values: seq<Value>) {
    forall i {:trigger Unfold(i)} :: Unfold(i) ==> values == Values(p)
  }

  lemma DictNext(m: map<Text, Value>, name: Text, unpacked: nat, payload: Payload, rest: Pairs, m': map<Text, Value>)
    returns (values: seq<Value>)
    requires DictIs(m, Pair(name, unpacked, payload, rest), m')
    ensures ValuesAre(payload, values) == true
    ensures DictIs(Added(m, name, values), rest, m') == true
  {
    assert Unfold(0);
    values := Values(payload);
    MeaningIs(payload);
  }

  lemma DictEnd(m: map<Text, Value>, m': map<Text, Value>)
    requires DictIs(m, NoPairs, m')
    ensures m' == m
  {
    assert Unfold(0);
  }

  // ----- parsing what was packed -----

  lemma ReadsSimple(data: seq<byte>, pos: nat, p: Payload, size: nat, values: seq<Value>)
    requires pos <= |data| && PayloadAt(data, pos, p, size) && !p.One? && !p.Many? && values == Values(p)
    ensures |values| == 1 && ReadItem(data, pos, Kind(p), size) == Ok(values[0], pos + size)
  {
    assert Unfold(0);
    match p
    case U32(n) =>
      Reads32(data, pos, n);
    case U64(n) =>
      Fields(n);
      ReadsUint(data, pos, n, 8);
    case String(s) =>
      ReadsString(data, pos, s);
    case Bytes(kind, s) =>
  }

  lemma SimplePayload(data: seq<byte>, pos: nat, p: Payload, size: nat, values: seq<Value>)
    requires pos <= |data| && PayloadAt(data, pos, p, size) && !p.One? && !p.Many? && ValuesAre(p, values)
    ensures ItemsAre(data, pos, Kind(p), size, Count(p), values, pos + size) == true
  {
    assert values == Values(p) by { assert Unfold(0); }
    ReadsSimple(data, pos, p, size, values);
    OneItem(data, pos, Kind(p), size, values[0], pos + size);
  }

  lemma OnePayload(data: seq<byte>, pos: nat, p: Payload, size: nat, values: seq<Value>, m: map<Text, Value>)
    requires pos <= |data| && p.One? && m == Dict(map[], p.list) && ValuesAre(p, values)
    requires ListIs(data, pos, m, pos + size) == true
    ensures ItemsAre(data, pos, Kind(p), size, Count(p), values, pos + size) == true
  {
    assert values == Values(p) by { assert Unfold(0); }
    OneList(data, pos, size, m, pos + size);
  }

  lemma ManyValues(p: Payload, values: seq<Value>)
    requires p.Many? && ValuesAre(p, values)
    ensures values == Tables(p.lists) && Count(p) == Length(p.lists) && Kind(p) == NVLIST_ARRAY
  {
    assert Unfold(0);
  }

  /** The items of a pair. */
  lemma {:induction false} ReadsPayload(data: seq<byte>, pos: nat, p: Payload, size: nat, values: seq<Value>)
    requires pos <= |data| && PayloadAt(data, pos, p, size) == true && ValuesAre(p, values) == true
    ensures ItemsAre(data, pos, Kind(p), size, Count(p), values, pos + size) == true
    decreases p, 1
  {
    SplitPayload(data, pos, p, size);
    match p
    case Many(lists) =>
      ManyValues(p, values);
      ReadsLists(data, pos, lists, size, pos + size, values, Count(p));
    case One(list) =>
      ReadsList(data, pos, list, pos + size, Dict(map[], list));
      OnePayload(data, pos, p, size, values, Dict(map[], list));
    case _ =>
      SimplePayload(data, pos, p, size, values);
  }

  lemma {:induction false} ReadsLists(data: seq<byte>, pos: nat, lists: Lists, raw: int, end: nat,
                                      values: seq<Value>, count: nat)
    requires pos <= |data| && ListsAt(data, pos, lists, end) == true && values == Tables(lists)
    requires count == Length(lists)
    ensures ItemsAre(data, pos, NVLIST_ARRAY, raw, count, values, end) == true
    decreases lists, 0
  {
    match lists
    case NoLists =>
      assert Unfold(0);
    case Cons(first, rest) =>
      var p := SplitLists(data, pos, first, rest, end);
      ReadsList(data, pos, first, p, Dict(map[], first));
      ReadsLists(data, p, rest, raw, end, values[1..], count - 1);
      MoreLists(data, pos, raw, Dict(map[], first), p, count - 1, values[1..], end);
  }

  lemma {:induction false} ReadsList(data: seq<byte>, pos: nat, pairs: Pairs, end: nat, m: map<Text, Value>)
    requires pos <= |data| && ListAt(data, pos, pairs, end) == true && m == Dict(map[], pairs)
    ensures ListIs(data, pos, m, end) == true
    decreases pairs, 1
  {
    SplitList(data, pos, pairs, end);
    assert DictIs(map[], pairs, m) == true;
    ReadsPairs(data, pos + 8, pairs, end, map[], m);
    Listed(data, pos, m, end);
  }

  lemma {:induction false} ReadsPairs(data: seq<byte>, pos: nat, pairs: Pairs, end: nat,
                                      m: map<Text, Value>, m': map<Text, Value>)
    requires pos <= |data| && PairsAt(data, pos, pairs, end) == true && DictIs(m, pairs, m') == true
    ensures Parses(data, pos, m, m', end) == true
    decreases pairs, 0
  {
    match pairs
    case NoPairs =>
      DictEnd(m, m');
      SplitEnd(data, pos, end);
      NoMorePairs(data, pos, m, end);
    case Pair(name, unpacked, payload, rest) =>
      var values := DictNext(m, name, unpacked, payload, rest, m');
      var p, size := PairParts(data, pos, pairs, end);
      ReadsPayload(data, p, payload, size, values);
      var q := p + size;
      ReadsPairs(data, q, rest, end, Added(m, name, values), m');
      MorePairs(data, pos, name, payload, size, p, q, values, m, m', end);
  }

  /** Parsing a packed list gives its dictionary and takes exactly its bytes. */
  lemma RoundTrip(pairs: Pairs, more: seq<byte>)
    requires Fits(pairs)
    ensures ParseList(EncodeList(pairs) + more, 0) == Ok(Dict(map[], pairs), |EncodeList(pairs)|)
  {
    var body := EncodeList(pairs);
    assert At(body + more, 0, body);
    ReadsList(body + more, 0, pairs, |body|, Dict(map[], pairs));
    assert Unfold(0);
  }
}
