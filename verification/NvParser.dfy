/** TypedBytesIO and NVPairParser: parsing from a stream that moves on. */
module NvParser {
  import opened Bytes
  import Format = NvFormat

  type Dictionary = map<Format.Text, Format.Value>

  class TypedBytesIO {
    const data: seq<byte>
    var pos: nat

    ghost predicate Valid()
      reads this
    {
      pos <= |data|
    }

    constructor (data: seq<byte>)
      ensures Valid() && this.data == data && pos == 0
    {
      this.data, pos := data, 0;
    }

    /** Up to `n` bytes; a negative `n` is all that is left. */
    method Read(n: int) returns (s: seq<byte>)
      requires Valid()
      modifies this
      ensures Valid() && Format.Read(data, old(pos), n) == Format.Ok(s, pos)
    {
      var end := if 0 <= n <= |data| - pos then pos + n else |data|;
      s := data[pos..end];
      pos := end;
    }

    method ReadUint(size: nat) returns (r: Option<nat>)
      requires Valid()
      modifies this
      ensures Valid() && pos >= old(pos) && Is(r, pos, Format.ReadUint(data, old(pos), size))
    {
      var s := Read(size);
      if |s| != size { return None; }
      return Some(BigEndian(s));
    }

    method ReadString() returns (r: Option<Format.Sized>)
      requires Valid()
      modifies this
      ensures Valid() && pos >= old(pos) && Is(r, pos, Format.ReadString(data, old(pos)))
    {
      var strLen := ReadUint(4);
      if strLen.None? { return None; }
      var dataSize := Format.Align4(strLen.value);
      var s := Read(dataSize);
      var text := Format.Prefix(s, strLen.value);
      if !Format.Ascii(text) { return None; }
      return Some(Format.Sized(text, dataSize + 4));
    }
  }

  /** A result and a position, against what the format says. */
  ghost predicate Is<T>(r: Option<T>, pos: nat, out: Format.Out<T>) {
    match out
    case Raise => r.None?
    case Ok(value, p) => r == Some(value) && pos == p
  }

  /** The fields before the items. */
  method ParseHead(stream: TypedBytesIO) returns (r: Option<Format.Head>)
    requires stream.Valid()
    modifies stream
    ensures stream.Valid() && Is(r, stream.pos, Format.ReadHead(stream.data, old(stream.pos)))
  {
    var size := stream.ReadUint(4);
    if size.None? { return None; }
    var unpacked := stream.ReadUint(4);
    if unpacked.None? { return None; }
    if size.value == 0 { return Some(Format.End); }
    var name := stream.ReadString();
    if name.None? { return None; }
    var dataType := stream.ReadUint(4);
    if dataType.None? { return None; }
    var itemCount := stream.ReadUint(4);
    if itemCount.None? { return None; }
    return Some(Format.Head(size.value, name.value, dataType.value, itemCount.value));
  }

  method ParseValue(stream: TypedBytesIO, dataType: nat, raw: int) returns (r: Option<Format.Value>)
    requires stream.Valid()
    modifies stream
    ensures stream.Valid() && Is(r, stream.pos, Format.ReadItem(stream.data, old(stream.pos), dataType, raw))
    decreases |stream.data| - stream.pos, 1
  {
    if dataType == Format.UINT32 {
      var n := stream.ReadUint(4);
      return if n.None? then None else Some(Format.Number(n.value));
    } else if dataType == Format.UINT64 {
      var n := stream.ReadUint(8);
      return if n.None? then None else Some(Format.Number(n.value));
    } else if dataType == Format.STRING {
      var s := stream.ReadString();
      return if s.None? then None else Some(Format.Str(s.value.text));
    } else if dataType == Format.NVLIST || dataType == Format.NVLIST_ARRAY {
      var m := Parse(stream);
      return if m.None? then None else Some(Format.Table(m.value));
    } else {
      var s := stream.Read(raw);
      return Some(Format.Raw(s));
    }
  }

  /** `whole` is `got`, followed by what `rest` gives. */
  ghost predicate Continues(whole: Format.Out<seq<Format.Value>>, got: seq<Format.Value>,
                            rest: Format.Out<seq<Format.Value>>) {
    match rest
    case Raise => whole.Raise?
    case Ok(values, p) => whole == Format.Ok(got + values, p)
  }

  lemma ContinuesNext(data: seq<byte>, pos: nat, kind: nat, raw: int, count: nat, whole: Format.Out<seq<Format.Value>>,
                      got: seq<Format.Value>, v: Format.Value, p: nat)
    requires pos <= |data| && count > 0 && Format.ReadItem(data, pos, kind, raw) == Format.Ok(v, p)
    requires Continues(whole, got, Format.ReadItems(data, pos, kind, raw, count))
    ensures p <= |data| && Continues(whole, got + [v], Format.ReadItems(data, p, kind, raw, count - 1))
  {
    var rest := Format.ReadItems(data, p, kind, raw, count - 1);
    if rest.Ok? {
      assert got + ([v] + rest.value) == got + [v] + rest.value;
    }
  }

  method ParseItems(stream: TypedBytesIO, dataType: nat, raw: int, itemCount: nat)
    returns (r: Option<seq<Format.Value>>)
    requires stream.Valid()
    modifies stream
    ensures stream.Valid()
    ensures Is(r, stream.pos, Format.ReadItems(stream.data, old(stream.pos), dataType, raw, itemCount))
    decreases |stream.data| - stream.pos, 2
  {
    ghost var whole := Format.ReadItems(stream.data, stream.pos, dataType, raw, itemCount);
    var value: seq<Format.Value> := [];
    assert whole.Ok? ==> [] + whole.value == whole.value;
    for i := 0 to itemCount
      invariant stream.Valid() && stream.pos >= old(stream.pos)
      invariant Continues(whole, value, Format.ReadItems(stream.data, stream.pos, dataType, raw, itemCount - i))
    {
      ghost var pos := stream.pos;
      var v := ParseValue(stream, dataType, raw);
      if v.None? { return None; }
      ContinuesNext(stream.data, pos, dataType, raw, itemCount - i, whole, value, v.value, stream.pos);
      value := value + [v.value];
    }
    assert value + [] == value;
    return Some(value);
  }

  /** `whole` is what parsing goes on to from `pos` with `nvlist`. */
  ghost predicate GoesOn(whole: Format.Out<Dictionary>, data: seq<byte>, pos: nat, nvlist: Dictionary)
    requires pos <= |data|
  {
    whole == Format.ParsePairs(data, pos, nvlist)
  }

  lemma GoesOnNext(whole: Format.Out<Dictionary>, data: seq<byte>, pos: nat, nvlist: Dictionary)
    requires pos <= |data| && GoesOn(whole, data, pos, nvlist)
    ensures match Format.ReadPair(data, pos)
      case Raise => whole.Raise?
      case Ok(NoMore, p) => whole == Format.Ok(nvlist, p)
      case Ok(Got(name, value), p) => GoesOn(whole, data, p, nvlist[name := value]) == true
  {
  }

  method ParsePair(stream: TypedBytesIO) returns (r: Option<Format.PairRead>)
    requires stream.Valid()
    modifies stream
    ensures stream.Valid() && Is(r, stream.pos, Format.ReadPair(stream.data, old(stream.pos)))
    decreases |stream.data| - stream.pos, 3
  {
    var head := ParseHead(stream);
    if head.None? { return None; }
    if head.value.End? { return Some(Format.NoMore); }
    var name, itemCount := head.value.name, head.value.count;
    var value := ParseItems(stream, head.value.kind, head.value.size - (16 + name.size), itemCount);
    if value.None? { return None; }
    return Some(Format.Got(name.text, Format.Unwrap(value.value)));
  }

  /** The loop over the pairs. */
  method ParsePairs(stream: TypedBytesIO) returns (r: Option<Dictionary>)
    requires stream.Valid()
    modifies stream
    ensures stream.Valid() && Is(r, stream.pos, Format.ParsePairs(stream.data, old(stream.pos), map[]))
    decreases |stream.data| - stream.pos, 4
  {
    var nvlist: Dictionary := map[];
    ghost var whole := Format.ParsePairs(stream.data, stream.pos, nvlist);
    while true
      invariant stream.Valid() && stream.pos >= old(stream.pos)
      invariant GoesOn(whole, stream.data, stream.pos, nvlist) == true
      decreases |stream.data| - stream.pos
    {
      GoesOnNext(whole, stream.data, stream.pos, nvlist);
      var pair := ParsePair(stream);
      if pair.None? { return None; }
      if pair.value.NoMore? { return Some(nvlist); }
      nvlist := nvlist[pair.value.name := pair.value.value];
    }
  }

  method Parse(stream: TypedBytesIO) returns (r: Option<Dictionary>)
    requires stream.Valid()
    modifies stream
    ensures stream.Valid() && Is(r, stream.pos, Format.ParseList(stream.data, old(stream.pos)))
    decreases |stream.data| - stream.pos, 0
  {
    var header := stream.Read(8);
    if |header| == 0 || (|header| != 8 && header[|header| - 1] != 1) {
      return None;
    }
    r := ParsePairs(stream);
  }
}
