/** Leaf blocks of a fat ZAP: what following their chunks gives, and what it means for entries to be
    stored in them. */
module ZapLeaf {
  import opened Bytes

  const LEAF_ARRAY := 251
  const LEAF_ENTRY := 252
  const NO_CHUNK := 0xffff
  const CHUNK_SIZE := 24
  const TABLE := 0x30
  const SLOTS := 512
  const CHUNKS := 0x430

  /** A value of eight bytes is a big-endian number. */
  datatype ZapValue = Word(n: nat) | Raw(s: seq<byte>)

  type Entries = map<string, ZapValue>

  function Value(s: seq<byte>): ZapValue {
    if |s| == 8 then Word(BigEndian(s)) else Raw(s)
  }

  /** A little-endian half-word. */
  function Half(s: seq<byte>, at: nat): (h: nat)
    requires at + 2 <= |s|
    ensures h <= 0xffff
  {
    var low: int, high: int := s[at], s[at + 1];
    low + 0x100 * high
  }

  /** `s[:n]` in Python, where a negative `n` counts from the end. */
  function Take(s: seq<byte>, n: int): seq<byte> {
    if n >= |s| then s else if n >= 0 then s[..n] else if |s| + n >= 0 then s[..|s| + n] else []
  }

  // ----- following chunks; `limit` counts the stack frames left, and nothing is an exception -----

  function FollowList(arr: seq<byte>, idx: nat, limit: nat): Option<seq<byte>>
    decreases limit
  {
    var chunk := Cut(arr, idx * CHUNK_SIZE, (idx + 1) * CHUNK_SIZE);
    if limit == 0 || |chunk| < 2 || chunk[0] != LEAF_ARRAY then None
    else
      var next := Half(chunk, |chunk| - 2);
      if next == NO_CHUNK then Some(Cut(chunk, 1, 22))
      else
        match FollowList(arr, next, limit - 1)
        case None => None
        case Some(rest) => Some(Cut(chunk, 1, 22) + rest)
  }

  /** The fields of an entry chunk that matter. */
  datatype Fields = Fields(intSize: nat, next: nat, nameChunk: nat, nameLength: nat, valueChunk: nat, valueLength: nat)

  function FieldsAt(arr: seq<byte>, at: nat): Fields
    requires at + CHUNK_SIZE <= |arr|
  {
    Fields(arr[at + 1], Half(arr, at + 2), Half(arr, at + 4), Half(arr, at + 6), Half(arr, at + 8), Half(arr, at + 10))
  }

  /** The name and the value of an entry, as bytes. */
  function ReadEntry(arr: seq<byte>, f: Fields, limit: nat): Option<(seq<byte>, seq<byte>)> {
    match FollowList(arr, f.nameChunk, limit)
    case None => None
    case Some(name) =>
      match FollowList(arr, f.valueChunk, limit)
      case None => None
      case Some(value) => Some((Take(name, f.nameLength - 1), Take(value, f.valueLength * f.intSize)))
  }

  /** What is at the chunk of an entry: an exception, something else, or an entry and where it leads. */
  datatype Step = Bad | Other | Leads(name: seq<byte>, value: seq<byte>, next: nat)

  function ReadChunk(arr: seq<byte>, idx: nat, limit: nat): Step {
    var at := idx * CHUNK_SIZE;
    if at >= |arr| then Bad
    else if arr[at] != LEAF_ENTRY then Other
    else if at + CHUNK_SIZE > |arr| then Bad
    else
      match ReadEntry(arr, FieldsAt(arr, at), limit)
      case None => Bad
      case Some((name, value)) => Leads(name, value, FieldsAt(arr, at).next)
  }

  function FollowChain(arr: seq<byte>, idx: nat, limit: nat, decode: seq<byte> -> string, m: Entries): Option<Entries>
    decreases limit
  {
    if limit == 0 then None
    else
      match ReadChunk(arr, idx, limit - 1)
      case Bad => None
      case Other => Some(m)
      case Leads(name, value, next) =>
        var m' := m[decode(name) := Value(value)];
        if next == NO_CHUNK then Some(m') else FollowChain(arr, next, limit - 1, decode, m')
  }

  /** One entry of a chain. */
  lemma FollowsEntry(arr: seq<byte>, idx: nat, limit: nat, decode: seq<byte> -> string, m: Entries)
    requires limit > 0
    ensures match ReadChunk(arr, idx, limit - 1)
      case Bad => FollowChain(arr, idx, limit, decode, m) == None
      case Other => FollowChain(arr, idx, limit, decode, m) == Some(m)
      case Leads(name, value, next) =>
        var m' := m[decode(name) := Value(value)];
        FollowChain(arr, idx, limit, decode, m)
          == if next == NO_CHUNK then Some(m') else FollowChain(arr, next, limit - 1, decode, m')
  {
  }

  /** All slots of the table from slot `i` on. */
  function FollowSlots(data: seq<byte>, i: nat, limit: nat, decode: seq<byte> -> string, m: Entries): Option<Entries>
    requires |data| >= CHUNKS && i <= SLOTS
    decreases SLOTS - i
  {
    if i == SLOTS then Some(m)
    else
      var c := Half(data, TABLE + 2 * i);
      if c == NO_CHUNK then FollowSlots(data, i + 1, limit, decode, m)
      else
        match FollowChain(data[CHUNKS..], c, limit, decode, m)
        case None => None
        case Some(m') => FollowSlots(data, i + 1, limit, decode, m')
  }

  function ParseBlock(data: seq<byte>, limit: nat, decode: seq<byte> -> string, m: Entries): Option<Entries> {
    if |data| < CHUNKS then None else FollowSlots(data, 0, limit, decode, m)
  }

  // ----- what it means to be stored, in the numbers of the format -----

  /** A half-word as a writer puts it, low byte first. */
  function HalfBytes(n: nat): seq<byte>
    requires n <= 0xffff
  {
    [n % 256, n / 256]
  }

  /** The bytes from `at` on are `s`. */
  predicate Lies(arr: seq<byte>, at: nat, s: seq<byte>) {
    at + |s| <= |arr| && arr[at..at + |s|] == s
  }

  /** An entry, and the chunks a writer put it in; its value is `valueLength` integers of `intSize` bytes. */
  datatype Entry =
    Entry(name: seq<byte>, value: seq<byte>, intSize: byte, valueLength: nat, chunk: nat, nameChunks: seq<nat>,
          valueChunks: seq<nat>)

  /** The 21 bytes of data of an array chunk. */
  function DataOf(arr: seq<byte>, c: nat): seq<byte>
    requires 24 * c + 24 <= |arr|
  {
    arr[24 * c + 1..24 * c + 22]
  }

  /** An array chunk that leads on to `next`. */
  predicate ArrayChunk(arr: seq<byte>, c: nat, next: nat) {
    && 24 * c + 24 <= |arr| && c < 0xffff && next <= 0xffff
    && Lies(arr, 24 * c, [251]) && Lies(arr, 24 * c + 22, HalfBytes(next))
  }

  /** Well-typed array chunks, the last of which leads nowhere. Their number bounds any cycle away. */
  predicate ArrayChain(arr: seq<byte>, chunks: seq<nat>)
    decreases |chunks|
  {
    && chunks != [] && ArrayChunk(arr, chunks[0], if |chunks| == 1 then 0xffff else chunks[1])
    && (|chunks| > 1 ==> ArrayChain(arr, chunks[1..]))
  }

  function Joined(arr: seq<byte>, chunks: seq<nat>): (s: seq<byte>)
    requires ArrayChain(arr, chunks)
    ensures |s| == 21 * |chunks|
    decreases |chunks|
  {
    if |chunks| == 1 then DataOf(arr, chunks[0]) else DataOf(arr, chunks[0]) + Joined(arr, chunks[1..])
  }

  /** The bytes `s` fill a chain of chunks from the front. */
  predicate StoredIn(arr: seq<byte>, chunks: seq<nat>, s: seq<byte>) {
    ArrayChain(arr, chunks) && s <= Joined(arr, chunks)
  }

  /** The first twelve bytes of the chunk of an entry: type, size of its integers, next entry, and chunk and
      length of the name and of the value. The other twelve are not looked at. */
  function EntryBytes(e: Entry, next: nat): (s: seq<byte>)
    requires next <= 0xffff && |e.name| < 0xffff && e.valueLength <= 0xffff
    requires e.nameChunks != [] && e.nameChunks[0] <= 0xffff && e.valueChunks != [] && e.valueChunks[0] <= 0xffff
    ensures |s| == 12
  {
    [252, e.intSize] + HalfBytes(next) + HalfBytes(e.nameChunks[0]) + HalfBytes(|e.name| + 1)
    + HalfBytes(e.valueChunks[0]) + HalfBytes(e.valueLength)
  }

  /** An entry in its chunks; its name is followed by a zero byte, and `next` is the next entry's chunk. */
  predicate EntryAt(arr: seq<byte>, e: Entry, next: nat) {
    && 24 * e.chunk + 24 <= |arr| && e.chunk < 0xffff && next <= 0xffff
    && |e.name| < 0xffff && e.valueLength <= 0xffff && e.valueLength * e.intSize == |e.value|
    && StoredIn(arr, e.nameChunks, e.name + [0]) && StoredIn(arr, e.valueChunks, e.value)
    && Lies(arr, 24 * e.chunk, EntryBytes(e, next))
  }

  /** The entries that share a slot, each leading to the next. */
  predicate ChainAt(arr: seq<byte>, chain: seq<Entry>, limit: nat)
    decreases |chain|
  {
    chain != [] ==>
      && EntryAt(arr, chain[0], if |chain| == 1 then 0xffff else chain[1].chunk)
      && |chain[0].nameChunks| < limit && |chain[0].valueChunks| < limit
      && ChainAt(arr, chain[1..], limit - 1)
  }

  /** A leaf block that stores the given chains in its 512 slots from slot `i` on. */
  predicate SlotsAt(data: seq<byte>, slots: seq<seq<Entry>>, i: nat, limit: nat)
    requires |data| >= 0x430 && |slots| == 512
    decreases 512 - i
  {
    i < 512 ==>
      && (slots[i] != [] ==> slots[i][0].chunk < 0xffff)
      && Lies(data, 0x30 + 2 * i, HalfBytes(if slots[i] == [] then 0xffff else slots[i][0].chunk))
      && ChainAt(data[0x430..], slots[i], limit) && SlotsAt(data, slots, i + 1, limit)
  }

  function Added(m: Entries, e: Entry, decode: seq<byte> -> string): Entries {
    m[decode(e.name) := Value(e.value)]
  }

  function AddAll(m: Entries, chain: seq<Entry>, decode: seq<byte> -> string): Entries
    decreases |chain|
  {
    if chain == [] then m else AddAll(Added(m, chain[0], decode), chain[1..], decode)
  }

  function AddSlots(m: Entries, slots: seq<seq<Entry>>, i: nat, decode: seq<byte> -> string): Entries
    requires |slots| == 512 && i <= 512
    decreases 512 - i
  {
    if i == 512 then m else AddSlots(AddAll(m, slots[i], decode), slots, i + 1, decode)
  }
}
