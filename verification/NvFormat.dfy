/** Packed name-value lists: what the parser makes of any bytes, and the XDR encoding (RFC 4506, sections
    4.2, 4.5 and 4.11) of nested lists. */
module NvFormat {
  import opened Bytes

  const UINT32 := 6
  const UINT64 := 8
  const STRING := 9
  const NVLIST := 19
  const NVLIST_ARRAY := 20

  type Text = seq<byte>

  /** Python's values; a list of any length but one is `Several`. */
  datatype Value =
    | Number(n: nat)
    | Str(s: Text)
    | Raw(s: seq<byte>)
    | Table(m: map<Text, Value>)
    | Several(items: seq<Value>)

  /** An exception, or a value and the stream position after it. */
  datatype Out<+T> = Raise | Ok(value: T, pos: nat)

  // ----- reading -----

  /** `(size + 3) & ~3`. */
  function Align4(size: nat): (r: nat)
    ensures size <= r < size + 4 && r % 4 == 0
  {
    (size + 3) / 4 * 4
  }

  /** BytesIO.read: a negative count reads to the end, and the end cuts. */
  function Read(data: seq<byte>, pos: nat, n: int): (r: Out<seq<byte>>)
    requires pos <= |data|
    ensures r.Ok? && pos <= r.pos <= |data| && r.value == data[pos..r.pos]
    ensures r.pos == if 0 <= n <= |data| - pos then pos + n else |data|
  {
    var end := if 0 <= n <= |data| - pos then pos + n else |data|;
    Ok(data[pos..end], end)
  }

  function ReadUint(data: seq<byte>, pos: nat, size: nat): (r: Out<nat>)
    requires pos <= |data|
    ensures r.Ok? ==> r.pos == pos + size <= |data|
  {
    if pos + size <= |data| then Ok(BigEndian(data[pos..pos + size]), pos + size) else Raise
  }

  predicate Ascii(s: seq<byte>) {
    forall i :: 0 <= i < |s| ==> s[i] < 128
  }

  function Prefix(s: seq<byte>, n: nat): seq<byte> {
    if n <= |s| then s[..n] else s
  }

  /** A string and the size it takes, as it says itself. */
  datatype Sized = Sized(text: Text, size: nat)

  function ReadString(data: seq<byte>, pos: nat): (r: Out<Sized>)
    requires pos <= |data|
    ensures r.Ok? ==> pos < r.pos <= |data|
  {
    match ReadUint(data, pos, 4)
    case Raise => Raise
    case Ok(len, p) =>
      var s := Read(data, p, Align4(len));
      if Ascii(Prefix(s.value, len)) then Ok(Sized(Prefix(s.value, len), Align4(len) + 4), s.pos) else Raise
  }

  /** What comes before the items of a pair; a size of zero ends the list. */
  datatype Head = End | Head(size: nat, name: Sized, kind: nat, count: nat)

  function ReadHead(data: seq<byte>, pos: nat): (r: Out<Head>)
    requires pos <= |data|
    ensures r.Ok? ==> pos < r.pos <= |data|
  {
    match ReadUint(data, pos, 4)
    case Raise => Raise
    case Ok(size, p0) =>
      match ReadUint(data, p0, 4)
      case Raise => Raise
      case Ok(_, p1) => if size == 0 then Ok(End, p1) else ReadName(data, p1, size)
  }

  function ReadName(data: seq<byte>, pos: nat, size: nat): (r: Out<Head>)
    requires pos <= |data|
    ensures r.Ok? ==> pos < r.pos <= |data|
  {
    match ReadString(data, pos)
    case Raise => Raise
    case Ok(name, p0) =>
      match ReadUint(data, p0, 4)
      case Raise => Raise
      case Ok(kind, p1) =>
        match ReadUint(data, p1, 4)
        case Raise => Raise
        case Ok(count, p2) => Ok(Head(size, name, kind, count), p2)
  }

  function Unwrap(values: seq<Value>): Value {
    if |values| == 1 then values[0] else Several(values)
  }

  function ReadItem(data: seq<byte>, pos: nat, kind: nat, raw: int): (r: Out<Value>)
    requires pos <= |data|
    ensures r.Ok? ==> pos <= r.pos <= |data|
    decreases |data| - pos, 1
  {
    if kind == NVLIST || kind == NVLIST_ARRAY then
      match ParseList(data, pos)
      case Raise => Raise
      case Ok(m, p) => Ok(Table(m), p)
    else if kind == STRING then
      match ReadString(data, pos)
      case Raise => Raise
      case Ok(s, p) => Ok(Str(s.text), p)
    else if kind == UINT32 || kind == UINT64 then
      match ReadUint(data, pos, if kind == UINT32 then 4 else 8)
      case Raise => Raise
      case Ok(n, p) => Ok(Number(n), p)
    else
      var s := Read(data, pos, raw);
      Ok(Raw(s.value), s.pos)
  }

  function ReadItems(data: seq<byte>, pos: nat, kind: nat, raw: int, count: nat): (r: Out<seq<Value>>)
    requires pos <= |data|
    ensures r.Ok? ==> pos <= r.pos <= |data|
    decreases |data| - pos, count + 1
  {
    if count == 0 then Ok([], pos)
    else
      match ReadItem(data, pos, kind, raw)
      case Raise => Raise
      case Ok(v, p) =>
        match ReadItems(data, p, kind, raw, count - 1)
        case Raise => Raise
        case Ok(vs, q) => Ok([v] + vs, q)
  }

  /** One pair, or the end of the list. */
  datatype PairRead = NoMore | Got(name: Text, value: Value)

  function ReadPair(data: seq<byte>, pos: nat): (r: Out<PairRead>)
    requires pos <= |data|
    ensures r.Ok? ==> pos < r.pos <= |data|
    decreases |data| - pos, 0
  {
    match ReadHead(data, pos)
    case Raise => Raise
    case Ok(End, p) => Ok(NoMore, p)
    case Ok(Head(size, name, kind, count), p) =>
      match ReadItems(data, p, kind, size - (16 + name.size), count)
      case Raise => Raise
      case Ok(values, q) => Ok(Got(name.text, Unwrap(values)), q)
  }

  function ParsePairs(data: seq<byte>, pos: nat, m: map<Text, Value>): (r: Out<map<Text, Value>>)
    requires pos <= |data|
    ensures r.Ok? ==> pos < r.pos <= |data|
    decreases |data| - pos, 1
  {
    match ReadPair(data, pos)
    case Raise => Raise
    case Ok(NoMore, p) => Ok(m, p)
    case Ok(Got(name, value), p) => ParsePairs(data, p, m[name := value])
  }

  /** A list at `pos`. Fewer than eight bytes raise one way or another. */
  function ParseList(data: seq<byte>, pos: nat): (r: Out<map<Text, Value>>)
    requires pos <= |data|
    ensures r.Ok? ==> pos < r.pos <= |data|
    decreases |data| - pos, 0
  {
    if pos + 8 <= |data| then ParsePairs(data, pos + 8, map[]) else Raise
  }

  // ----- the encoding -----

  /** A list to be packed. `unpacked` is the size its reader skips. */
  datatype Pairs = NoPairs | Pair(name: Text, unpacked: nat, payload: Payload, rest: Pairs)
  datatype Payload =
    | U32(n: nat)
    | U64(n: nat)
    | String(s: Text)
    | Bytes(kind: nat, s: seq<byte>)
    | One(list: Pairs)
    | Many(lists: Lists)
  datatype Lists = NoLists | Cons(first: Pairs, rest: Lists)

  /** The number a writer puts for the type. */
  function Kind(p: Payload): nat {
    match p
    case U32(_) => 6
    case U64(_) => 8
    case String(_) => 9
    case Bytes(kind, _) => kind
    case One(_) => 19
    case Many(_) => 20
  }

  function Length(lists: Lists): nat {
    if lists.Cons? then 1 + Length(lists.rest) else 0
  }

  function Count(p: Payload): nat {
    if p.Many? then Length(p.lists) else 1
  }

  function XdrString(s: Text): seq<byte> {
    ToBigEndian(|s|, 4) + (s + seq(Align4(|s|) - |s|, _ => 0))
  }

  const HEADER: seq<byte> := [0, 0, 0, 0, 0, 0, 0, 1]

  function EncodeList(pairs: Pairs): seq<byte>
    decreases pairs, 1
  {
    HEADER + EncodePairs(pairs)
  }

  function EncodePairs(pairs: Pairs): seq<byte>
    decreases pairs, 0
  {
    match pairs
    case NoPairs => ToBigEndian(0, 4) + ToBigEndian(0, 4)
    case Pair(name, unpacked, payload, rest) =>
      EncodeHead(name, unpacked, payload, |EncodePayload(payload)|) + (EncodePayload(payload) + EncodePairs(rest))
  }

  function PairSize(name: Text, payloadSize: nat): nat {
    16 + (Align4(|name|) + 4) + payloadSize
  }

  function EncodeHead(name: Text, unpacked: nat, payload: Payload, payloadSize: nat): seq<byte> {
    ToBigEndian(PairSize(name, payloadSize), 4)
    + (ToBigEndian(unpacked, 4) + (XdrString(name) + (ToBigEndian(Kind(payload), 4) + ToBigEndian(Count(payload), 4))))
  }

  function EncodePayload(p: Payload): seq<byte>
    decreases p, 0
  {
    match p
    case U32(n) => ToBigEndian(n, 4)
    case U64(n) => ToBigEndian(n, 8)
    case String(s) => XdrString(s)
    case Bytes(_, s) => s
    case One(list) => EncodeList(list)
    case Many(lists) => EncodeLists(lists)
  }

  function EncodeLists(lists: Lists): seq<byte>
    decreases lists, 0
  {
    match lists
    case NoLists => []
    case Cons(first, rest) => EncodeList(first) + EncodeLists(rest)
  }

  predicate SevenBits(s: Text) {
    forall i :: 0 <= i < |s| ==> s[i] <= 0x7f
  }

  /** All numbers and sizes fit their fields, strings are ASCII, and raw payloads are of other kinds. */
  predicate Fits(pairs: Pairs) {
    pairs.Pair? ==>
      && SevenBits(pairs.name) && pairs.unpacked < 0x1_0000_0000
      && PairSize(pairs.name, |EncodePayload(pairs.payload)|) < 0x1_0000_0000
      && PayloadFits(pairs.payload) && Fits(pairs.rest)
  }

  predicate PayloadFits(p: Payload) {
    match p
    case U32(n) => n < 0x1_0000_0000
    case U64(n) => n < 0x1_0000_0000_0000_0000
    case String(s) => SevenBits(s)
    case Bytes(kind, _) => kind < 0x1_0000_0000 && kind !in {6, 8, 9, 19, 20}
    case One(list) => Fits(list)
    case Many(lists) => ListsFit(lists)
  }

  predicate ListsFit(lists: Lists) {
    lists.Cons? ==> Fits(lists.first) && ListsFit(lists.rest)
  }

  // ----- the meaning -----

  /** The dictionary of a list: later pairs win. */
  function Dict(m: map<Text, Value>, pairs: Pairs): map<Text, Value>
    decreases pairs
  {
    match pairs
    case NoPairs => m
    case Pair(name, _, payload, rest) => Dict(m[name := Meaning(payload)], rest)
  }

  /** The value of a name; an array of one list is that list. */
  function Meaning(p: Payload): Value
    decreases p
  {
    match p
    case U32(n) => Number(n)
    case U64(n) => Number(n)
    case String(s) => Str(s)
    case Bytes(_, s) => Raw(s)
    case One(list) => Table(Dict(map[], list))
    case Many(Cons(first, NoLists)) => Table(Dict(map[], first))
    case Many(lists) => Several(Tables(lists))
  }

  lemma MeaningIs(p: Payload)
    ensures Unwrap(Values(p)) == Meaning(p)
  {
    match p
    case Many(Cons(first, Cons(second, rest))) =>
      assert Tables(p.lists) == [Table(Dict(map[], first))] + ([Table(Dict(map[], second))] + Tables(rest));
    case Many(Cons(first, NoLists)) =>
      assert Tables(NoLists) == [];
    case _ =>
  }

  function Values(p: Payload): seq<Value>
    decreases p
  {
    match p
    case U32(n) => [Number(n)]
    case U64(n) => [Number(n)]
    case String(s) => [Str(s)]
    case Bytes(_, s) => [Raw(s)]
    case One(list) => [Table(Dict(map[], list))]
    case Many(lists) => Tables(lists)
  }

  function Tables(lists: Lists): seq<Value>
    decreases lists
  {
    match lists
    case NoLists => []
    case Cons(first, rest) => [Table(Dict(map[], first))] + Tables(rest)
  }
}
