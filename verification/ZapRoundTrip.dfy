/** Parsing a leaf block gives back what a writer stored in it. */
module ZapRoundTrip {
  import opened Bytes
  import opened ZapLeaf

  lemma TwoBytes(n: nat, low: int, high: int)
    requires low == n % 256 && high == n / 256
    ensures low + 0x100 * high == n
  {
  }

  lemma ReadsHalf(arr: seq<byte>, at: nat, n: nat)
    requires n <= 0xffff && Lies(arr, at, HalfBytes(n))
    ensures Half(arr, at) == n
  {
    var s := arr[at..at + 2];
    assert arr[at] == s[0] && arr[at + 1] == s[1];
    assert s[0] == n % 256 && s[1] == n / 256;
    TwoBytes(n, arr[at], arr[at + 1]);
  }

  lemma HalfLies(arr: seq<byte>, at: nat)
    requires at + 2 <= |arr|
    ensures Lies(arr, at, HalfBytes(Half(arr, at)))
  {
    Apart(arr[at], arr[at + 1]);
    assert arr[at..at + 2] == [arr[at], arr[at + 1]];
  }

  lemma Apart(low: byte, high: byte)
    ensures ((low as int) + 0x100 * high) % 256 == low && ((low as int) + 0x100 * high) / 256 == high
  {
  }

  lemma ReadsChunk(arr: seq<byte>, c: nat, next: nat)
    requires ArrayChunk(arr, c, next)
    ensures var chunk := Cut(arr, c * CHUNK_SIZE, (c + 1) * CHUNK_SIZE);
      && |chunk| == CHUNK_SIZE && chunk[0] == LEAF_ARRAY && Half(chunk, |chunk| - 2) == next
      && Cut(chunk, 1, 22) == DataOf(arr, c)
  {
    ReadsHalf(arr, 24 * c + 22, next);
    assert arr[24 * c..24 * c + 1][0] == arr[24 * c];
  }

  lemma {:induction false} FollowsList(arr: seq<byte>, chunks: seq<nat>, limit: nat)
    requires ArrayChain(arr, chunks) && |chunks| <= limit
    ensures FollowList(arr, chunks[0], limit) == Some(Joined(arr, chunks))
    decreases |chunks|
  {
    ReadsChunk(arr, chunks[0], if |chunks| == 1 then NO_CHUNK else chunks[1]);
    if |chunks| > 1 {
      FollowsList(arr, chunks[1..], limit - 1);
      assert chunks[1] != NO_CHUNK;
    }
  }

  /** A chunk at the end of the block may be shorter; it raises with fewer than two bytes. */
  lemma LastChunk(arr: seq<byte>, idx: nat, limit: nat)
    requires limit > 0
    ensures var chunk := Cut(arr, 24 * idx, 24 * idx + 24);
      && (|chunk| < 2 || chunk[0] != 251 ==> FollowList(arr, idx, limit) == None)
      && (|chunk| >= 2 && chunk[0] == 251 && chunk[|chunk| - 2..] == [255, 255] ==>
            FollowList(arr, idx, limit) == Some(Cut(chunk, 1, 22)))
  {
    var chunk := Cut(arr, 24 * idx, 24 * idx + 24);
    if |chunk| >= 2 {
      assert chunk[|chunk| - 2..][0] == chunk[|chunk| - 2] && chunk[|chunk| - 2..][1] == chunk[|chunk| - 1];
    }
  }

  /** What is at a chunk number: an exception beyond the end of the block, for an entry of fewer than 24 bytes,
      and for one whose name or value cannot be followed; no entry exactly for another type. */
  lemma ChunkFails(arr: seq<byte>, idx: nat, limit: nat)
    ensures ReadChunk(arr, idx, limit) == Other <==> 24 * idx < |arr| && arr[24 * idx] != 252
    ensures 24 * idx < |arr| && arr[24 * idx] == 252 && 24 * idx + 24 <= |arr| ==>
      (ReadChunk(arr, idx, limit) == Bad <==>
         || FollowList(arr, Half(arr, 24 * idx + 4), limit) == None
         || FollowList(arr, Half(arr, 24 * idx + 8), limit) == None)
    ensures 24 * idx >= |arr| || (arr[24 * idx] == 252 && 24 * idx + 24 > |arr|) ==> ReadChunk(arr, idx, limit) == Bad
  {
  }

  /** And only such chains can be followed, in a block of whole chunks that all have numbers. */
  lemma {:induction false} ListFollowed(arr: seq<byte>, idx: nat, limit: nat) returns (chunks: seq<nat>)
    requires |arr| % CHUNK_SIZE == 0 && |arr| <= NO_CHUNK * CHUNK_SIZE && FollowList(arr, idx, limit).Some?
    ensures ArrayChain(arr, chunks) && chunks[0] == idx && |chunks| <= limit
    decreases limit
  {
    var next := Half(arr, idx * CHUNK_SIZE + 22);
    HalfLies(arr, 24 * idx + 22);
    assert Lies(arr, 24 * idx, [251]);
    assert ArrayChunk(arr, idx, next);
    ReadsChunk(arr, idx, next);
    chunks := [idx];
    if next != NO_CHUNK {
      var rest := ListFollowed(arr, next, limit - 1);
      chunks := [idx] + rest;
      assert chunks[1..] == rest;
    }
  }

  lemma FollowedIff(arr: seq<byte>, idx: nat, limit: nat)
    requires |arr| % CHUNK_SIZE == 0 && |arr| <= NO_CHUNK * CHUNK_SIZE
    ensures FollowList(arr, idx, limit).Some?
      <==> exists chunks :: ArrayChain(arr, chunks) && chunks[0] == idx && |chunks| <= limit
  {
    if FollowList(arr, idx, limit).Some? {
      var chunks := ListFollowed(arr, idx, limit);
    }
    forall chunks | ArrayChain(arr, chunks) && chunks[0] == idx && |chunks| <= limit
      ensures FollowList(arr, idx, limit).Some?
    {
      FollowsList(arr, chunks, limit);
    }
  }

  /** Chunks that lead only to each other. */
  ghost predicate Ring(arr: seq<byte>, ring: set<nat>, at: nat) {
    && at + 2 <= CHUNK_SIZE
    && forall c :: c in ring ==> c < NO_CHUNK && (c + 1) * CHUNK_SIZE <= |arr| && Half(arr, c * CHUNK_SIZE + at) in ring
  }

  /** Going round in circles ends in an exception, however deep the stack. */
  lemma {:induction false} RingRaises(arr: seq<byte>, ring: set<nat>, c: nat, limit: nat)
    requires Ring(arr, ring, 22) && c in ring
    ensures FollowList(arr, c, limit) == None
    decreases limit
  {
    if limit > 0 && arr[c * CHUNK_SIZE] == LEAF_ARRAY {
      var next := Half(arr, c * CHUNK_SIZE + 22);
      HalfLies(arr, 24 * c + 22);
      assert Lies(arr, 24 * c, [251]);
      ReadsChunk(arr, c, next);
      RingRaises(arr, ring, next, limit - 1);
    }
  }

  lemma EntryLeads(arr: seq<byte>, c: nat, limit: nat)
    requires (c + 1) * CHUNK_SIZE <= |arr| && arr[c * CHUNK_SIZE] == LEAF_ENTRY
    ensures var step := ReadChunk(arr, c, limit);
      !step.Other? && (step.Leads? ==> step.next == Half(arr, c * CHUNK_SIZE + 2))
  {
  }

  ghost predicate Fails(arr: seq<byte>, c: nat, limit: nat, decode: seq<byte> -> string, m: Entries) {
    FollowChain(arr, c, limit, decode, m) == None
  }

  function Stored(m: Entries, step: Step, decode: seq<byte> -> string): Entries
    requires step.Leads?
  {
    m[decode(step.name) := Value(step.value)]
  }

  lemma StepFails(arr: seq<byte>, c: nat, limit: nat, below: nat, decode: seq<byte> -> string, m: Entries, step: Step)
    requires limit == below + 1 && step == ReadChunk(arr, c, below) && !step.Other?
    requires step.Leads? ==>
      step.next != NO_CHUNK && Fails(arr, step.next, below, decode, Stored(m, step, decode)) == true
    ensures Fails(arr, c, limit, decode, m) == true
  {
    assert limit - 1 == below;
  }

  lemma NoStackFails(arr: seq<byte>, c: nat, limit: nat, decode: seq<byte> -> string, m: Entries)
    requires limit == 0
    ensures Fails(arr, c, limit, decode, m) == true
  {
  }

  lemma RingNext(arr: seq<byte>, ring: set<nat>, c: nat, limit: nat)
    requires Ring(arr, ring, 2) && c in ring && arr[c * CHUNK_SIZE] == LEAF_ENTRY
    ensures var step := ReadChunk(arr, c, limit);
      !step.Other? && (step.Leads? ==> step.next in ring && step.next != NO_CHUNK)
  {
    EntryLeads(arr, c, limit);
  }

  lemma {:induction false} ChainRingRaises(arr: seq<byte>, ring: set<nat>, c: nat, limit: nat,
                                           decode: seq<byte> -> string, m: Entries)
    requires Ring(arr, ring, 2) && c in ring && forall e :: e in ring ==> arr[e * CHUNK_SIZE] == LEAF_ENTRY
    ensures Fails(arr, c, limit, decode, m) == true
    decreases limit
  {
    if limit == 0 {
      NoStackFails(arr, c, limit, decode, m);
    } else {
      var below := limit - 1;
      var step := ReadChunk(arr, c, below);
      RingNext(arr, ring, c, below);
      if step.Leads? {
        ChainRingRaises(arr, ring, step.next, below, decode, Stored(m, step, decode));
      }
      StepFails(arr, c, limit, below, decode, m, step);
    }
  }

  /** Keeps a statement folded until it is mentioned. */
  predicate Unfold(i: int) { true }

  /** An entry in its chunks, folded. */
  ghost predicate EntryIn(arr: seq<byte>, e: Entry, next: nat, limit: nat) {
    forall i {:trigger Unfold(i)} :: Unfold(i) ==>
      EntryAt(arr, e, next) && |e.nameChunks| <= limit && |e.valueChunks| <= limit
  }

  /** A prefix: of as many bytes as there are for a length that is too long, and for a negative length of so
      many bytes less. */
  lemma TakeIs(s: seq<byte>, n: int)
    ensures Take(s, n) <= s
    ensures n >= 0 ==> |Take(s, n)| == if n < |s| then n else |s|
    ensures n < 0 ==> |Take(s, n)| == if 0 - n < |s| then |s| - (0 - n) else 0
  {
  }

  lemma TakesPrefix(s: seq<byte>, t: seq<byte>, n: int)
    requires 0 <= n <= |s| && s <= t
    ensures Take(t, n) == s[..n]
  {
  }

  /** A half-word between other bytes. */
  lemma ReadsField(arr: seq<byte>, at: nat, front: seq<byte>, n: nat, back: seq<byte>)
    requires n <= 0xffff && Lies(arr, at, front + HalfBytes(n) + back)
    ensures at + |front| + 2 <= |arr| && Half(arr, at + |front|) == n
  {
    var s := front + HalfBytes(n) + back;
    assert s[|front|] == n % 256 && s[|front| + 1] == n / 256;
    assert arr[at + |front|] == arr[at..at + |s|][|front|];
    assert arr[at + |front| + 1] == arr[at..at + |s|][|front| + 1];
    TwoBytes(n, arr[at + |front|], arr[at + |front| + 1]);
  }

  lemma ReadsFour(arr: seq<byte>, at: nat, front: seq<byte>, a: nat, b: nat, c: nat, d: nat, rest: seq<byte>)
    requires a <= 0xffff && b <= 0xffff && c <= 0xffff && d <= 0xffff
    requires Lies(arr, at, front + HalfBytes(a) + HalfBytes(b) + HalfBytes(c) + HalfBytes(d) + rest)
    ensures at + |front| + 8 <= |arr| && Half(arr, at + |front|) == a && Half(arr, at + |front| + 2) == b
    ensures Half(arr, at + |front| + 4) == c && Half(arr, at + |front| + 6) == d
  {
    var fa := front + HalfBytes(a);
    var fb := fa + HalfBytes(b);
    var fc := fb + HalfBytes(c);
    var whole := fc + HalfBytes(d) + rest;
    assert whole == front + HalfBytes(a) + (HalfBytes(b) + HalfBytes(c) + HalfBytes(d) + rest);
    assert whole == fa + HalfBytes(b) + (HalfBytes(c) + HalfBytes(d) + rest);
    assert whole == fb + HalfBytes(c) + (HalfBytes(d) + rest);
    ReadsField(arr, at, front, a, HalfBytes(b) + HalfBytes(c) + HalfBytes(d) + rest);
    ReadsField(arr, at, fa, b, HalfBytes(c) + HalfBytes(d) + rest);
    ReadsField(arr, at, fb, c, HalfBytes(d) + rest);
    ReadsField(arr, at, fc, d, rest);
  }

  /** Each field is read from where the writer put it. */
  lemma ReadsFields(arr: seq<byte>, e: Entry, next: nat)
    requires EntryAt(arr, e, next) == true
    ensures 24 * e.chunk + 24 <= |arr| && arr[24 * e.chunk] == 252
    ensures e.nameChunks != [] && e.valueChunks != []
    ensures FieldsAt(arr, 24 * e.chunk)
      == Fields(e.intSize, next, e.nameChunks[0], |e.name| + 1, e.valueChunks[0], e.valueLength)
  {
    var at, s, last := 24 * e.chunk, EntryBytes(e, next), HalfBytes(e.valueLength);
    assert s[0] == 252 && s[1] == e.intSize && arr[at..at + 12] == s;
    assert arr[at] == arr[at..at + 12][0] && arr[at + 1] == arr[at..at + 12][1];
    ReadsFour(arr, at, [252, e.intSize], next, e.nameChunks[0], |e.name| + 1, e.valueChunks[0], last);
    var front := s[..10];
    assert s == front + last + [];
    ReadsField(arr, at, front, e.valueLength, []);
  }

  /** The entry chunk `c` gives a name and a value and leads to `next`. */
  ghost predicate Reads(arr: seq<byte>, c: nat, limit: nat, name: seq<byte>, value: seq<byte>, next: nat) {
    forall i {:trigger Unfold(i)} :: Unfold(i) ==> ReadChunk(arr, c, limit) == Leads(name, value, next)
  }

  lemma ReadsEntry(arr: seq<byte>, e: Entry, next: nat, limit: nat)
    requires EntryIn(arr, e, next, limit) == true
    ensures Reads(arr, e.chunk, limit, e.name, e.value, next) == true
  {
    assert Unfold(0);
    ReadsFields(arr, e, next);
    FollowsList(arr, e.nameChunks, limit);
    FollowsList(arr, e.valueChunks, limit);
    TakesPrefix(e.name + [0], Joined(arr, e.nameChunks), |e.name|);
    TakesPrefix(e.value, Joined(arr, e.valueChunks), |e.value|);
    assert (e.name + [0])[..|e.name|] == e.name && e.value[..|e.value|] == e.value;
  }

  /** Following the chain from `idx` makes `m'` of `m`. */
  ghost predicate Gives(arr: seq<byte>, idx: nat, limit: nat, decode: seq<byte> -> string, m: Entries, m': Entries) {
    FollowChain(arr, idx, limit, decode, m) == Some(m')
  }

  lemma StepIs(arr: seq<byte>, c: nat, limit: nat, name: seq<byte>, value: seq<byte>, next: nat) returns (step: Step)
    requires Reads(arr, c, limit, name, value, next) == true
    ensures step == ReadChunk(arr, c, limit) && step == Leads(name, value, next)
  {
    assert Unfold(0);
    step := ReadChunk(arr, c, limit);
  }

  lemma EntryLast(arr: seq<byte>, c: nat, name: seq<byte>, value: seq<byte>, next: nat, below: nat, limit: nat,
                  decode: seq<byte> -> string, m: Entries, m': Entries)
    requires Reads(arr, c, below, name, value, next) == true && next == 0xffff && limit == below + 1
    requires m' == m[decode(name) := Value(value)]
    ensures Gives(arr, c, limit, decode, m, m') == true
  {
    var step := StepIs(arr, c, below, name, value, next);
    FollowsEntry(arr, c, limit, decode, m);
    assert limit - 1 == below;
  }

  lemma EntryNext(arr: seq<byte>, c: nat, name: seq<byte>, value: seq<byte>, next: nat, below: nat, limit: nat,
                  decode: seq<byte> -> string, m: Entries, m': Entries, m'': Entries)
    requires Reads(arr, c, below, name, value, next) == true && next != 0xffff && limit == below + 1
    requires m' == m[decode(name) := Value(value)] && Gives(arr, next, below, decode, m', m'')
    ensures Gives(arr, c, limit, decode, m, m'') == true
  {
    var step := StepIs(arr, c, below, name, value, next);
    FollowsEntry(arr, c, limit, decode, m);
    assert limit - 1 == below;
  }

  /** `below` is what is left of the stack under this entry, `m'` what it makes of `m`. */
  lemma ChainLast(arr: seq<byte>, e: Entry, next: nat, below: nat, limit: nat, decode: seq<byte> -> string,
                  m: Entries, m': Entries)
    requires EntryIn(arr, e, next, below) == true && next == 0xffff && limit == below + 1 && m' == Added(m, e, decode)
    ensures Gives(arr, e.chunk, limit, decode, m, m') == true
  {
    ReadsEntry(arr, e, next, below);
    EntryLast(arr, e.chunk, e.name, e.value, next, below, limit, decode, m, m');
  }

  lemma ChainStep(arr: seq<byte>, e: Entry, next: nat, below: nat, limit: nat, decode: seq<byte> -> string,
                  m: Entries, m': Entries, m'': Entries)
    requires EntryIn(arr, e, next, below) == true && next != 0xffff && limit == below + 1 && m' == Added(m, e, decode)
    requires Gives(arr, next, below, decode, m', m'') == true
    ensures Gives(arr, e.chunk, limit, decode, m, m'') == true
  {
    ReadsEntry(arr, e, next, below);
    EntryNext(arr, e.chunk, e.name, e.value, next, below, limit, decode, m, m', m'');
  }

  lemma ChainNumbered(arr: seq<byte>, chain: seq<Entry>, limit: nat)
    requires chain != [] && ChainAt(arr, chain, limit)
    ensures chain[0].chunk < 0xffff
  {
  }

  lemma ChainFirst(arr: seq<byte>, chain: seq<Entry>, limit: nat, e: Entry, rest: seq<Entry>)
    returns (next: nat, below: nat)
    requires chain != [] && ChainAt(arr, chain, limit) && e == chain[0] && rest == chain[1..]
    ensures limit == below + 1 && EntryIn(arr, e, next, below) == true
    ensures ChainAt(arr, rest, below) == true
    ensures if rest == [] then next == 0xffff else next == rest[0].chunk < 0xffff
  {
    next, below := if |chain| == 1 then 0xffff else chain[1].chunk, limit - 1;
    if rest != [] { ChainNumbered(arr, rest, below); }
  }

  lemma {:induction false} FollowsChain(arr: seq<byte>, chain: seq<Entry>, limit: nat, decode: seq<byte> -> string,
                                        m: Entries, m': Entries)
    requires chain != [] && ChainAt(arr, chain, limit) == true && m' == AddAll(m, chain, decode)
    ensures Gives(arr, chain[0].chunk, limit, decode, m, m') == true
    decreases |chain|
  {
    var e, rest, first := chain[0], chain[1..], Added(m, chain[0], decode);
    var next, below := ChainFirst(arr, chain, limit, e, rest);
    assert m' == AddAll(first, rest, decode);
    if rest == [] {
      ChainLast(arr, e, next, below, limit, decode, m, m');
    } else {
      FollowsChain(arr, rest, below, decode, first, m');
      ChainStep(arr, e, next, below, limit, decode, m, first, m');
    }
  }

  /** Following the slots from `i` on makes `m'` of `m`. */
  ghost predicate SlotsGive(data: seq<byte>, i: nat, limit: nat, decode: seq<byte> -> string, m: Entries, m': Entries)
    requires |data| >= CHUNKS && i <= SLOTS
  {
    FollowSlots(data, i, limit, decode, m) == Some(m')
  }

  lemma SlotStep(data: seq<byte>, i: nat, limit: nat, decode: seq<byte> -> string, m: Entries, next: Entries,
      m': Entries)
    requires |data| >= CHUNKS && i < SLOTS && SlotsGive(data, i + 1, limit, decode, next, m') == true
    requires var c := Half(data, TABLE + 2 * i);
      if c == NO_CHUNK then next == m else Gives(data[CHUNKS..], c, limit, decode, m, next) == true
    ensures SlotsGive(data, i, limit, decode, m, m') == true
  {
  }

  lemma SlotsFirst(data: seq<byte>, slots: seq<seq<Entry>>, i: nat, limit: nat)
    requires |data| >= 0x430 && |slots| == 512 && i < 512 && SlotsAt(data, slots, i, limit)
    ensures slots[i] != [] ==> slots[i][0].chunk < 0xffff
    ensures Half(data, 0x30 + 2 * i) == if slots[i] == [] then 0xffff else slots[i][0].chunk
    ensures ChainAt(data[0x430..], slots[i], limit) == true && SlotsAt(data, slots, i + 1, limit) == true
  {
    ReadsHalf(data, 0x30 + 2 * i, if slots[i] == [] then 0xffff else slots[i][0].chunk);
  }

  lemma {:induction false} FollowsSlots(data: seq<byte>, slots: seq<seq<Entry>>, i: nat, limit: nat,
                                        decode: seq<byte> -> string, m: Entries, m': Entries)
    requires |data| >= 0x430 && |slots| == 512 && i <= 512 && SlotsAt(data, slots, i, limit) == true
    requires m' == AddSlots(m, slots, i, decode)
    ensures SlotsGive(data, i, limit, decode, m, m') == true
    decreases 512 - i
  {
    if i < 512 {
      var next := AddAll(m, slots[i], decode);
      SlotsFirst(data, slots, i, limit);
      if slots[i] != [] {
        FollowsChain(data[CHUNKS..], slots[i], limit, decode, m, next);
      }
      FollowsSlots(data, slots, i + 1, limit, decode, next, m');
      SlotStep(data, i, limit, decode, m, next, m');
    }
  }

  // ----- names to values -----

  function All(slots: seq<seq<Entry>>, i: nat): seq<Entry>
    requires |slots| == 512 && i <= 512
    decreases 512 - i
  {
    if i == 512 then [] else slots[i] + All(slots, i + 1)
  }

  lemma {:induction false} AddAllOfBoth(m: Entries, a: seq<Entry>, b: seq<Entry>, decode: seq<byte> -> string)
    ensures AddAll(m, a + b, decode) == AddAll(AddAll(m, a, decode), b, decode)
    decreases |a|
  {
    if a == [] {
      assert a + b == b;
    } else {
      assert (a + b)[1..] == a[1..] + b;
      AddAllOfBoth(m[decode(a[0].name) := Value(a[0].value)], a[1..], b, decode);
    }
  }

  lemma {:induction false} AddSlotsIsAddAll(m: Entries, slots: seq<seq<Entry>>, i: nat, decode: seq<byte> -> string)
    requires |slots| == 512 && i <= 512
    ensures AddSlots(m, slots, i, decode) == AddAll(m, All(slots, i), decode)
    decreases 512 - i
  {
    if i < SLOTS {
      AddSlotsIsAddAll(AddAll(m, slots[i], decode), slots, i + 1, decode);
      AddAllOfBoth(m, slots[i], All(slots, i + 1), decode);
    }
  }

  ghost predicate DistinctNames(entries: seq<Entry>, decode: seq<byte> -> string) {
    forall i, j :: 0 <= i < j < |entries| ==> decode(entries[i].name) != decode(entries[j].name)
  }

  predicate IsName(entries: seq<Entry>, decode: seq<byte> -> string, key: string) {
    exists i :: 0 <= i < |entries| && decode(entries[i].name) == key
  }

  /** Entries of other names stay, and the keys are the old ones and the names. */
  lemma {:induction false} AddAllKeys(m: Entries, entries: seq<Entry>, decode: seq<byte> -> string, key: string)
    ensures key in AddAll(m, entries, decode) <==> key in m || IsName(entries, decode, key)
    ensures key in m && !IsName(entries, decode, key) ==> AddAll(m, entries, decode)[key] == m[key]
    decreases |entries|
  {
    if entries != [] {
      var m' := m[decode(entries[0].name) := Value(entries[0].value)];
      AddAllKeys(m', entries[1..], decode, key);
      if IsName(entries, decode, key) {
        var i :| 0 <= i < |entries| && decode(entries[i].name) == key;
        assert i > 0 ==> decode(entries[1..][i - 1].name) == key;
      }
      if IsName(entries[1..], decode, key) {
        var i :| 0 <= i < |entries[1..]| && decode(entries[1..][i].name) == key;
        assert decode(entries[i + 1].name) == key;
      }
      assert decode(entries[0].name) == key ==> IsName(entries, decode, key);
    }
  }

  lemma {:induction false} AddAllGives(m: Entries, entries: seq<Entry>, decode: seq<byte> -> string, i: nat)
    requires i < |entries| && DistinctNames(entries, decode)
    ensures var m' := AddAll(m, entries, decode);
      decode(entries[i].name) in m' && m'[decode(entries[i].name)] == Value(entries[i].value)
    decreases |entries|
  {
    var m' := m[decode(entries[0].name) := Value(entries[0].value)];
    if i > 0 {
      AddAllGives(m', entries[1..], decode, i - 1);
    } else {
      var key := decode(entries[0].name);
      AddAllKeys(m', entries[1..], decode, key);
      forall j | 0 <= j < |entries[1..]| ensures decode(entries[1..][j].name) != key {
        assert entries[1..][j] == entries[j + 1];
      }
    }
  }

  /** Parsing a leaf block adds just the stored entries; of entries of one name the last one wins. */
  lemma ParsesLeaf(data: seq<byte>, slots: seq<seq<Entry>>, limit: nat, decode: seq<byte> -> string, m: Entries)
    requires |data| >= 0x430 && |slots| == 512 && SlotsAt(data, slots, 0, limit)
    ensures ParseBlock(data, limit, decode, m) == Some(AddAll(m, All(slots, 0), decode))
  {
    FollowsSlots(data, slots, 0, limit, decode, m, AddSlots(m, slots, 0, decode));
    AddSlotsIsAddAll(m, slots, 0, decode);
  }

  /** With distinct names, starting from nothing: the keys are the names, and each has its value. */
  lemma ParsesDistinct(data: seq<byte>, slots: seq<seq<Entry>>, limit: nat, decode: seq<byte> -> string)
    requires |data| >= 0x430 && |slots| == 512 && SlotsAt(data, slots, 0, limit)
    requires DistinctNames(All(slots, 0), decode)
    ensures var r := ParseBlock(data, limit, decode, map[]);
      && r.Some?
      && (forall key :: key in r.value <==> IsName(All(slots, 0), decode, key))
      && (forall i {:trigger All(slots, 0)[i]} :: 0 <= i < |All(slots, 0)| ==>
            decode(All(slots, 0)[i].name) in r.value
            && r.value[decode(All(slots, 0)[i].name)] == Value(All(slots, 0)[i].value))
  {
    ParsesLeaf(data, slots, limit, decode, map[]);
    var entries := All(slots, 0);
    forall key ensures key in AddAll(map[], entries, decode) <==> IsName(entries, decode, key) {
      AddAllKeys(map[], entries, decode, key);
    }
    forall i | 0 <= i < |entries|
      ensures decode(entries[i].name) in AddAll(map[], entries, decode)
        && AddAll(map[], entries, decode)[decode(entries[i].name)] == Value(entries[i].value)
    {
      AddAllGives(map[], entries, decode, i);
    }
  }

  /** What a value of eight bytes is: the number whose bytes, highest first, they are. */
  lemma ValueIs(s: seq<byte>)
    ensures |s| == 8 <==> Value(s).Word?
    ensures |s| == 8 ==> Value(s).n < 0x1_0000_0000_0000_0000 && ToBigEndian(Value(s).n, 8) == s
    ensures |s| != 8 ==> Value(s) == Raw(s)
  {
    if |s| == 8 {
      BigEndianBound(s);
      assert Pow256(4) == 0x1_0000_0000 && Pow256(6) == 0x1_0000_0000_0000;
      ToBigEndianRoundTrip(s);
    }
  }

  lemma {:induction false} ToBigEndianRoundTrip(s: seq<byte>)
    ensures ToBigEndian(BigEndian(s), |s|) == s
  {
    if s != [] {
      var front := s[..|s| - 1];
      ToBigEndianRoundTrip(front);
      assert s == front + [s[|s| - 1]];
    }
  }
}
