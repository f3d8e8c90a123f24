/** What reads from a buffered reader give, in a row: read as a function of where the reader stands. */
module FileReads {
  import opened Bytes
  import opened BlockDevice
  import opened Files

  /** Where a reader stands: the next block, what is left in the buffer (nothing at all after a block that
      could not be read), and the flag. */
  datatype Reader = Reader(next: nat, rest: Option<seq<byte>>, corrupted: bool)

  datatype Loading = Breaking | Stopped(reader: Reader) | Loaded(reader: Reader)

  /** An exception, or the bytes returned and where the reader stands then. */
  datatype Outcome = Raising | Given(data: seq<byte>, reader: Reader)

  function Rest(s: Reader): seq<byte> {
    if s.rest.Some? then s.rest.value else []
  }

  /** A block that cannot be had: zeros, or the end of the read with `rest` in the buffer. */
  function Bad(f: File, next: nat, rest: Option<seq<byte>>): Loading {
    if f.badAsZeros then Loaded(Reader(next, Some(Zeros(f.blksize)), true)) else Stopped(Reader(next, rest, true))
  }

  /** Going on when the buffer is used up. */
  function LoadNext(f: File, s: Reader): Loading {
    if s.next > f.maxBlkid then Bad(f, s.next, Some([]))
    else
      match f.block(s.next)
      case Breaks => Breaking
      case Hole => Bad(f, s.next + 1, Some([]))
      case Unreadable => Bad(f, s.next + 1, None)
      case Readable(data) => Loaded(Reader(s.next + 1, Some(data), s.corrupted))
  }

  function BlocksLeft(f: File, s: Reader): nat {
    if s.next <= f.maxBlkid then f.maxBlkid + 1 - s.next else 0
  }

  function Reading(f: File, s: Reader, n: nat): Outcome
    requires f.badAsZeros ==> f.blksize > 0
    decreases BlocksLeft(f, s), n, if s.rest == Some([]) then 1 else 0
  {
    if s.rest.None? then Raising
    else if n <= |s.rest.value| then
      Given(s.rest.value[..n], s.(rest := Some(s.rest.value[n..])))
    else
      match LoadNext(f, s)
      case Breaking => Raising
      case Stopped(s') => Given(s.rest.value, s')
      case Loaded(s') =>
        match Reading(f, s', n - |s.rest.value|)
        case Raising => Raising
        case Given(data, s'') => Given(s.rest.value + data, s'')
  }

  // ----- the loop -----

  /** `whole` is what is there already and what reading `n` more bytes gives. */
  ghost predicate GoesOn(whole: Outcome, data: seq<byte>, f: File, s: Reader, n: nat) {
    (f.badAsZeros ==> f.blksize > 0) && whole == Prepend(data, Reading(f, s, n))
  }

  lemma StartsOn(f: File, s: Reader, n: nat)
    requires (f.badAsZeros ==> f.blksize > 0) && s.rest.Some?
    ensures var rest := s.rest.value;
      var nn := if n <= |rest| then n else |rest|;
      GoesOn(Reading(f, s, n), rest[..nn], f, s.(rest := Some(rest[nn..])), n - nn) == true
  {
    var rest := s.rest.value;
    if n <= |rest| {
      ReadPart(f, s, n, 0);
    } else {
      ReadRest(f, s, n);
      WholeSlice(rest);
    }
  }

  lemma WholeSlice(s: seq<byte>)
    ensures s[..|s|] == s && s[|s|..] == []
  {
  }

  /** What it comes to when the loop is left. */
  lemma ReadStops(whole: Outcome, data: seq<byte>, f: File, s: Reader, n: nat)
    requires GoesOn(whole, data, f, s, n) && s.rest.Some? && (n > 0 ==> s.rest == Some([]))
    ensures n > 0 && LoadNext(f, s).Breaking? ==> whole.Raising?
    ensures n > 0 && LoadNext(f, s).Stopped? ==> whole == Given(data, LoadNext(f, s).reader)
    ensures n == 0 ==> whole == Given(data, s)
  {
    assert data + [] == data;
    if n == 0 { assert s.rest.value[..0] == [] && s.rest.value[0..] == s.rest.value; }
  }

  /** One turn of the loop: the buffer is filled, and up to `n` bytes are taken from it. */
  lemma ReadStep(whole: Outcome, data: seq<byte>, f: File, s: Reader, loaded: Reader, n: nat, piece: seq<byte>,
      s': Reader)
    requires GoesOn(whole, data, f, s, n) && n > 0 && s.rest == Some([])
    requires LoadNext(f, s) == Loaded(loaded) && loaded.rest.Some?
    requires var rest := loaded.rest.value;
      var nn := if n <= |rest| then n else |rest|;
      piece == rest[..nn] && s' == loaded.(rest := Some(rest[nn..]))
    ensures GoesOn(whole, data + piece, f, s', n - |piece|) == true
  {
    var rest := loaded.rest.value;
    PrependNothing(Reading(f, loaded, n));
    assert Reading(f, s, n) == Reading(f, loaded, n);
    if n <= |rest| {
      ReadPart(f, loaded, n, 0);
      PrependTwice(data, piece, Reading(f, s', 0));
    } else {
      ReadRest(f, loaded, n);
      assert rest[..|rest|] == rest && rest[|rest|..] == [];
      PrependTwice(data, rest, Reading(f, s', n - |rest|));
    }
  }

  // ----- two reads against one -----

  /** `r`, with `front` in front. */
  function Prepend(front: seq<byte>, r: Outcome): Outcome {
    match r
    case Raising => Raising
    case Given(data, s) => Given(front + data, s)
  }

  /** Going on with the next block, for `n` bytes. */
  function NextRead(f: File, s: Reader, n: nat): Outcome
    requires f.badAsZeros ==> f.blksize > 0
  {
    match LoadNext(f, s)
    case Breaking => Raising
    case Stopped(s') => Given([], s')
    case Loaded(s') => Reading(f, s', n)
  }

  lemma ReadOn(f: File, s: Reader, n: nat)
    requires (f.badAsZeros ==> f.blksize > 0) && s.rest.Some? && |s.rest.value| < n
    ensures Reading(f, s, n) == Prepend(s.rest.value, NextRead(f, s, n - |s.rest.value|))
  {
    assert s.rest.value + [] == s.rest.value;
  }

  lemma ReadNothing(f: File, s: Reader)
    requires (f.badAsZeros ==> f.blksize > 0) && s.rest.Some?
    ensures Reading(f, s, 0) == Given([], s)
  {
    assert s.rest.value[..0] == [] && s.rest.value[0..] == s.rest.value;
  }

  lemma ReadAll(f: File, s: Reader)
    requires (f.badAsZeros ==> f.blksize > 0) && s.rest.Some?
    ensures Reading(f, s, |s.rest.value|) == Given(s.rest.value, s.(rest := Some([])))
  {
    var rest := s.rest.value;
    assert rest[..|rest|] == rest && rest[|rest|..] == [];
  }

  /** The buffer can be used up first. */
  lemma ReadRest(f: File, s: Reader, n: nat)
    requires f.badAsZeros ==> f.blksize > 0
    requires s.rest.Some? && |s.rest.value| <= n
    ensures Reading(f, s, n) == Prepend(s.rest.value, Reading(f, s.(rest := Some([])), n - |s.rest.value|))
  {
    var rest, empty := s.rest.value, s.(rest := Some([]));
    if |rest| == n {
      ReadAll(f, s);
      ReadNothing(f, empty);
      assert rest + [] == rest;
    } else {
      ReadOn(f, s, n);
      ReadOn(f, empty, n - |rest|);
      assert LoadNext(f, empty) == LoadNext(f, s);
      PrependNothing(NextRead(f, empty, n - |rest|));
    }
  }

  lemma PrependNothing(r: Outcome)
    ensures Prepend([], r) == r
  {
    if r.Given? { assert [] + r.data == r.data; }
  }

  lemma PrependTwice(a: seq<byte>, b: seq<byte>, r: Outcome)
    ensures Prepend(a, Prepend(b, r)) == Prepend(a + b, r)
  {
    if r.Given? { assert a + (b + r.data) == (a + b) + r.data; }
  }

  /** What a read for `a + b` bytes is after one for `a` bytes: if that came up full, the same and then the
      rest; if it came up short, that read already, for the longer one stops at the same place. */
  function Joined(f: File, first: Outcome, a: nat, b: nat): Outcome
    requires f.badAsZeros ==> f.blksize > 0
  {
    if first.Given? && |first.data| == a then Prepend(first.data, Reading(f, first.reader, b)) else first
  }

  lemma {:induction false} ReadsCompose(f: File, s: Reader, a: nat, b: nat)
    requires f.badAsZeros ==> f.blksize > 0
    ensures Reading(f, s, a + b) == Joined(f, Reading(f, s, a), a, b)
    decreases BlocksLeft(f, s), a, if s.rest == Some([]) then 1 else 0
  {
    if s.rest.Some? {
      var rest := s.rest.value;
      if a <= |rest| {
        var s' := s.(rest := Some(rest[a..]));
        assert Reading(f, s, a) == Given(rest[..a], s');
        ReadPart(f, s, a, b);
      } else {
        match LoadNext(f, s)
        case Breaking =>
        case Stopped(s') =>
        case Loaded(s') =>
          ReadsCompose(f, s', a - |rest|, b);
          var first := Reading(f, s', a - |rest|);
          if first.Given? { PrependTwice(rest, first.data, Reading(f, first.reader, b)); }
      }
    }
  }

  /** Within the buffer. */
  lemma ReadPart(f: File, s: Reader, a: nat, b: nat)
    requires f.badAsZeros ==> f.blksize > 0
    requires s.rest.Some? && a <= |s.rest.value|
    ensures Reading(f, s, a + b) == Prepend(s.rest.value[..a], Reading(f, s.(rest := Some(s.rest.value[a..])), b))
  {
    var rest, s' := s.rest.value, s.(rest := Some(s.rest.value[a..]));
    assert rest[..a] + rest[a..] == rest;
    if a + b <= |rest| {
      assert rest[..a + b] == rest[..a] + rest[a..][..b] && rest[a + b..] == rest[a..][b..];
    } else {
      ReadRest(f, s, a + b);
      ReadRest(f, s', b);
      PrependTwice(rest[..a], rest[a..], Reading(f, s.(rest := Some([])), a + b - |rest|));
    }
  }

  // ----- when two reads join -----

  /** The number of the first bad block from `k` on, or of the end. */
  function FirstBad(f: File, k: nat): (b: nat)
    ensures k <= b && (k <= f.maxBlkid + 1 ==> b <= f.maxBlkid + 1)
    ensures forall i :: k <= i < b ==> f.block(i).Readable?
    decreases f.maxBlkid + 1 - k
  {
    if k <= f.maxBlkid && f.block(k).Readable? then FirstBad(f, k + 1) else k
  }

  /** The bytes in the blocks before it. */
  function GoodBytes(f: File, k: nat): nat
    decreases f.maxBlkid + 1 - k
  {
    if k <= f.maxBlkid && f.block(k).Readable? then |f.block(k).data| + GoodBytes(f, k + 1) else 0
  }

  /** The bytes before the first bad block, or the end: the rest of the buffer and the blocks. */
  function Ready(f: File, s: Reader): nat {
    |Rest(s)| + GoodBytes(f, s.next)
  }

  /** Where a read that asks for more comes to a halt: behind a hole or an unreadable block, or at the end;
      nothing where looking up or reading the block raises. */
  function Halt(f: File, s: Reader): Option<Reader> {
    var k := FirstBad(f, s.next);
    if k > f.maxBlkid then Some(Reader(k, Some([]), true))
    else
      match f.block(k)
      case Breaks => None
      case Hole => Some(Reader(k + 1, Some([]), true))
      case Unreadable => Some(Reader(k + 1, None, true))
      case Readable(_) => None
  }

  /** Without zeros for bad blocks a read gives what it is asked for, if that much is ready, and it is then
      still as far from the halt as it was; otherwise it gives all that is ready and stands at the halt, or
      raises. */
  lemma ReadGives(f: File, s: Reader, n: nat)
    requires !f.badAsZeros && s.rest.Some?
    ensures n <= Ready(f, s) ==> Reading(f, s, n).Given? && |Reading(f, s, n).data| == n
    ensures n <= Ready(f, s) ==>
      var s' := Reading(f, s, n).reader;
      s'.rest.Some? && Ready(f, s') == Ready(f, s) - n && Halt(f, s') == Halt(f, s)
    ensures n > Ready(f, s) ==>
      match Halt(f, s)
      case None => Reading(f, s, n).Raising?
      case Some(h) => Reading(f, s, n).Given? && |Reading(f, s, n).data| == Ready(f, s) && Reading(f, s, n).reader == h
  {
    ReadingIsAsReady(f, s, n);
  }

  ghost predicate AsReady(f: File, s: Reader, n: nat, r: Outcome) {
    if n <= Ready(f, s) then
      && r.Given? && |r.data| == n && r.reader.rest.Some?
      && Ready(f, r.reader) == Ready(f, s) - n && Halt(f, r.reader) == Halt(f, s)
    else if Halt(f, s).None? then r.Raising?
    else r.Given? && |r.data| == Ready(f, s) && r.reader == Halt(f, s).value
  }

  lemma AfterGoodBlock(f: File, s: Reader, n: nat, s': Reader, r: Outcome)
    requires !f.badAsZeros && s.rest.Some? && n > |s.rest.value| && LoadNext(f, s) == Loaded(s')
    requires AsReady(f, s', n - |s.rest.value|, r)
    ensures AsReady(f, s, n, Prepend(s.rest.value, r)) == true
  {
    assert f.block(s.next).Readable? && s' == Reader(s.next + 1, Some(f.block(s.next).data), s.corrupted);
    assert Ready(f, s) == |s.rest.value| + Ready(f, s');
    assert Halt(f, s) == Halt(f, s');
  }

  lemma {:induction false} ReadingIsAsReady(f: File, s: Reader, n: nat)
    requires !f.badAsZeros && s.rest.Some?
    ensures AsReady(f, s, n, Reading(f, s, n)) == true
    decreases BlocksLeft(f, s)
  {
    if n > |s.rest.value| {
      ReadOn(f, s, n);
      match LoadNext(f, s)
      case Breaking =>
      case Stopped(s') =>
      case Loaded(s') =>
        ReadingIsAsReady(f, s', n - |s.rest.value|);
        AfterGoodBlock(f, s, n, s', Reading(f, s', n - |s.rest.value|));
    }
  }

  /** With zeros for them a read gives what it is asked for. */
  lemma {:induction false} ReadFills(f: File, s: Reader, n: nat)
    requires f.badAsZeros && f.blksize > 0 && Reading(f, s, n).Given?
    ensures |Reading(f, s, n).data| == n
    decreases BlocksLeft(f, s), n, if s.rest == Some([]) then 1 else 0
  {
    if n > |s.rest.value| { ReadFills(f, LoadNext(f, s).reader, n - |s.rest.value|); }
  }

  /** Two reads in a row, put together. */
  function Both(f: File, s: Reader, a: nat, b: nat): Outcome
    requires f.badAsZeros ==> f.blksize > 0
  {
    match Reading(f, s, a)
    case Raising => Raising
    case Given(data, s') => Prepend(data, Reading(f, s', b))
  }

  /** The same exception, or the same bytes. */
  predicate SameBytes(r: Outcome, r': Outcome) {
    if r.Given? then r'.Given? && r.data == r'.data else r'.Raising?
  }

  /** Whether two reads join, seen from where the reader stands: all that the first asks for is ready; or it
      raises; or it comes to a halt from where a reader can go on, and the second asks for nothing, or finds
      nothing ready and comes to a halt again. */
  ghost predicate Joins(f: File, s: Reader, a: nat, b: nat) {
    || f.badAsZeros || s.rest.None? || a <= Ready(f, s) || Halt(f, s).None?
    || var h := Halt(f, s).value;
       h.rest.Some? && (b == 0 || (Ready(f, h) == 0 && Halt(f, h).Some?))
  }

  /** One read does what two do, exceptions included, if and only if the blocks and the rest of the buffer
      say so. */
  lemma ReadsJoinIff(f: File, s: Reader, a: nat, b: nat)
    requires f.badAsZeros ==> f.blksize > 0
    ensures SameBytes(Both(f, s, a, b), Reading(f, s, a + b)) <==> Joins(f, s, a, b)
  {
    var first := Reading(f, s, a);
    ReadsCompose(f, s, a, b);
    if first.Given? {
      if f.badAsZeros {
        ReadFills(f, s, a);
      } else {
        ReadGives(f, s, a);
        if first.reader.rest.Some? { ReadGives(f, first.reader, b); }
      }
      var second := Reading(f, first.reader, b);
      if second.Given? { SameOrLonger(first.data, second.data); }
    } else if !f.badAsZeros && s.rest.Some? {
      ReadGives(f, s, a);
    }
  }

  lemma SameOrLonger(a: seq<byte>, b: seq<byte>)
    ensures a == a + b <==> b == []
  {
    if b == [] { assert a + b == a; } else { assert |a + b| > |a|; }
  }

  /** Seen from the results: exactly if the first comes up full or the second gives nothing. If the second
      raises, the one read raises exactly if the first comes up full. */
  lemma JoinsByResults(f: File, s: Reader, a: nat, b: nat)
    requires (f.badAsZeros ==> f.blksize > 0) && Reading(f, s, a).Given?
    ensures var first, whole := Reading(f, s, a), Reading(f, s, a + b);
      match Reading(f, first.reader, b)
      case Raising => whole.Raising? <==> |first.data| == a
      case Given(data, _) => whole.Given? && (whole.data == first.data + data <==> |first.data| == a || data == [])
  {
    var first := Reading(f, s, a);
    ReadsCompose(f, s, a, b);
    var second := Reading(f, first.reader, b);
    if second.Given? { SameOrLonger(first.data, second.data); }
  }

  /** Which reads succeed, seen from where the reader stands. */
  lemma ReadSucceedsIff(f: File, s: Reader, n: nat)
    requires !f.badAsZeros
    ensures Reading(f, s, n).Given? <==> s.rest.Some? && (n <= Ready(f, s) || Halt(f, s).Some?)
  {
    if s.rest.Some? { ReadGives(f, s, n); }
  }

  // ----- what the bytes are -----

  ghost predicate TracksPadded(f: File, s: Reader, returned: seq<byte>, padded: nat) {
    && f.Agrees(returned + Rest(s), s.next, padded) == true
    && (padded > 0 ==> f.badAsZeros && s.next == f.maxBlkid + 1)
    && (f.Flawed(s.next) || padded > 0 ==> s.corrupted)
    && (s.corrupted ==> f.Flawed(s.next) || (if f.badAsZeros then padded > 0 else s.next == f.maxBlkid + 1))
  }

  /** Whatever was returned and is left in the buffer is the content of the blocks passed, and zeros. The
      flag says that a bad block was passed or more was asked for than there is. */
  ghost predicate Tracks(f: File, s: Reader, returned: seq<byte>) {
    && s.next <= f.maxBlkid + 1 && (f.badAsZeros ==> s.rest.Some? && f.blksize > 0)
    && exists padded: nat :: TracksPadded(f, s, returned, padded)
  }

  lemma StartTracks(f: File)
    requires f.badAsZeros ==> f.blksize > 0
    ensures Tracks(f, Reader(0, Some([]), false), [])
  {
    assert [] + Zeros(0) == [];
    assert TracksPadded(f, Reader(0, Some([]), false), [], 0);
  }

  lemma BadTracks(f: File, next: nat, rest: Option<seq<byte>>, returned: seq<byte>, padded: nat)
    requires next <= f.maxBlkid + 1 && (f.badAsZeros ==> f.blksize > 0) && (rest == None || rest == Some([]))
    requires f.Flawed(next) || next == f.maxBlkid + 1
    requires if f.badAsZeros then f.Agrees(returned + Zeros(f.blksize), next, padded) else f.Agrees(returned, next, 0)
    requires f.badAsZeros ==> (if padded > 0 then next == f.maxBlkid + 1 else f.Flawed(next))
    ensures match Bad(f, next, rest)
      case Loaded(s') => Tracks(f, s', returned)
      case Stopped(s') => Tracks(f, s', returned)
      case Breaking => true
  {
    assert returned + [] == returned;
    var s' := Bad(f, next, rest).reader;
    assert TracksPadded(f, s', returned, if f.badAsZeros then padded else 0);
  }

  lemma LoadTracks(f: File, s: Reader, returned: seq<byte>)
    requires Tracks(f, s, returned) && s.rest == Some([])
    ensures !LoadNext(f, s).Breaking? ==> Tracks(f, LoadNext(f, s).reader, returned)
  {
    var padded: nat :| TracksPadded(f, s, returned, padded);
    assert returned + [] == returned;
    if s.next > f.maxBlkid {
      f.AgreesPadded(returned, s.next, padded, f.blksize);
      BadTracks(f, s.next, Some([]), returned, padded + f.blksize);
    } else {
      f.FlawedNext(s.next);
      f.AgreesNext(returned, s.next);
      match f.block(s.next)
      case Breaks =>
      case Hole => BadTracks(f, s.next + 1, Some([]), returned, 0);
      case Unreadable => BadTracks(f, s.next + 1, None, returned, 0);
      case Readable(data) => assert TracksPadded(f, LoadNext(f, s).reader, returned, 0);
    }
  }

  lemma ConsumeTracks(f: File, s: Reader, n: nat, returned: seq<byte>)
    requires Tracks(f, s, returned) && s.rest.Some? && n <= |s.rest.value|
    ensures Tracks(f, s.(rest := Some(s.rest.value[n..])), returned + s.rest.value[..n])
  {
    var padded: nat :| TracksPadded(f, s, returned, padded);
    var rest := s.rest.value;
    assert (returned + rest[..n]) + rest[n..] == returned + rest;
    assert TracksPadded(f, s.(rest := Some(rest[n..])), returned + rest[..n], padded);
  }

  /** Using up the buffer and going on. */
  lemma GoingOnTracks(f: File, s: Reader, returned: seq<byte>)
    requires Tracks(f, s, returned) && s.rest.Some?
    ensures !LoadNext(f, s).Breaking? ==> Tracks(f, LoadNext(f, s).reader, returned + s.rest.value) == true
    ensures f.badAsZeros ==> !LoadNext(f, s).Stopped?
    ensures LoadNext(f, s).Stopped? ==> LoadNext(f, s).reader.corrupted && Rest(LoadNext(f, s).reader) == []
  {
    var rest, empty := s.rest.value, s.(rest := Some([]));
    ConsumeTracks(f, s, |rest|, returned);
    assert rest[..|rest|] == rest && rest[|rest|..] == [];
    assert LoadNext(f, empty) == LoadNext(f, s);
    LoadTracks(f, empty, returned + rest);
  }

  /** A read of `n` bytes keeps track, and comes up short only without zeros for bad blocks, at one of them
      or the end; it raises only after an unreadable block or at one that raises. */
  ghost predicate KeepsTrack(f: File, s: Reader, n: nat, returned: seq<byte>, r: Outcome) {
    match r
    case Raising => s.rest.None? || exists k: nat :: s.next <= k <= f.maxBlkid && f.block(k).Breaks?
    case Given(data, s') => (Tracks(f, s', returned + data) && |data| <= n
      && (|data| < n ==> !f.badAsZeros && s'.corrupted && Rest(s') == []))
  }

  lemma LoadedKeepsTrack(f: File, s: Reader, n: nat, returned: seq<byte>, s': Reader, r: Outcome)
    requires s.rest.Some? && LoadNext(f, s) == Loaded(s') && n >= |s.rest.value|
    requires KeepsTrack(f, s', n - |s.rest.value|, returned + s.rest.value, r)
    ensures KeepsTrack(f, s, n, returned, Prepend(s.rest.value, r)) == true
  {
    if r.Given? {
      assert (returned + s.rest.value) + r.data == returned + (s.rest.value + r.data);
    } else {
      var k: nat :| s'.next <= k <= f.maxBlkid && f.block(k).Breaks?;
    }
  }

  lemma HaltedKeepsTrack(f: File, s: Reader, n: nat, returned: seq<byte>)
    requires Tracks(f, s, returned) && s.rest.Some? && n > |s.rest.value|
    ensures LoadNext(f, s).Breaking? ==> KeepsTrack(f, s, n, returned, Raising) == true
    ensures LoadNext(f, s).Stopped? ==>
      KeepsTrack(f, s, n, returned, Given(s.rest.value, LoadNext(f, s).reader)) == true
  {
    GoingOnTracks(f, s, returned);
    if LoadNext(f, s).Breaking? { assert f.block(s.next).Breaks?; }
  }

  lemma {:induction false} ReadingKeepsTrack(f: File, s: Reader, n: nat, returned: seq<byte>)
    requires Tracks(f, s, returned)
    ensures KeepsTrack(f, s, n, returned, Reading(f, s, n)) == true
    decreases BlocksLeft(f, s), n, if s.rest == Some([]) then 1 else 0
  {
    if s.rest.Some? {
      var rest := s.rest.value;
      if n <= |rest| {
        ConsumeTracks(f, s, n, returned);
      } else {
        ReadOn(f, s, n);
        HaltedKeepsTrack(f, s, n, returned);
        match LoadNext(f, s)
        case Breaking =>
        case Stopped(s') => assert rest + [] == rest;
        case Loaded(s') =>
          GoingOnTracks(f, s, returned);
          ReadingKeepsTrack(f, s', n - |rest|, returned + rest);
          LoadedKeepsTrack(f, s, n, returned, s', Reading(f, s', n - |rest|));
      }
    }
  }

  lemma ReadingTracks(f: File, s: Reader, n: nat, returned: seq<byte>)
    requires Tracks(f, s, returned)
    ensures match Reading(f, s, n)
      case Raising => s.rest.None? || exists k: nat :: s.next <= k <= f.maxBlkid && f.block(k).Breaks?
      case Given(data, s') => (Tracks(f, s', returned + data) && |data| <= n
        && (|data| < n ==> !f.badAsZeros && s'.corrupted && Rest(s') == []))
  {
    ReadingKeepsTrack(f, s, n, returned);
  }

  /** What has been returned is the beginning of the stream, and without zeros it stays inside the file. */
  lemma TrackedIsStream(f: File, s: Reader, returned: seq<byte>)
    requires Tracks(f, s, returned)
    ensures returned == f.Stream(|returned|)
    ensures !f.badAsZeros ==> returned <= f.Whole()
  {
    var padded: nat :| TracksPadded(f, s, returned, padded);
    f.InStream(returned, returned + Rest(s), s.next, padded);
    if !f.badAsZeros {
      f.ContentGrows(s.next, f.maxBlkid + 1);
      assert Zeros(0) == [] && returned + Rest(s) == f.Content(s.next);
    }
  }

  /** Without bad blocks a read that comes up short has come to the end. */
  lemma ShortIsEnd(f: File, s: Reader, returned: seq<byte>)
    requires Tracks(f, s, returned) && !f.badAsZeros && s.corrupted && Rest(s) == [] && !f.Flawed(f.maxBlkid + 1)
    ensures returned == f.Whole()
  {
    var padded: nat :| TracksPadded(f, s, returned, padded);
    assert returned + [] == returned && f.Content(s.next) + Zeros(0) == f.Content(s.next);
  }

  /** How many bytes a read gives: all that are asked for with zeros for bad blocks, and otherwise, if no
      block is bad, as many of them as are left. */
  lemma ReadLength(f: File, s: Reader, n: nat, returned: seq<byte>)
    requires Tracks(f, s, returned) && Reading(f, s, n).Given?
    ensures var data := Reading(f, s, n).data;
      && (f.badAsZeros ==> |data| == n)
      && (!f.badAsZeros && !f.Flawed(f.maxBlkid + 1) ==>
            && |returned| <= |f.Whole()|
            && |data| == if n <= |f.Whole()| - |returned| then n else |f.Whole()| - |returned|)
  {
    var r := Reading(f, s, n);
    ReadingTracks(f, s, n, returned);
    if !f.badAsZeros && !f.Flawed(f.maxBlkid + 1) {
      TrackedIsStream(f, s, returned);
      TrackedIsStream(f, r.reader, returned + r.data);
      if |r.data| < n { ShortIsEnd(f, r.reader, returned + r.data); }
    }
  }

  /** With zeros for bad blocks, or without bad blocks, reading `a` and then `b` bytes is reading `a + b`. */
  lemma ReadsJoin(f: File, s: Reader, a: nat, b: nat, returned: seq<byte>)
    requires Tracks(f, s, returned) && (f.badAsZeros || !f.Flawed(f.maxBlkid + 1))
    requires Reading(f, s, a).Given? && Reading(f, Reading(f, s, a).reader, b).Given?
    ensures Reading(f, s, a + b).Given?
    ensures Reading(f, s, a + b).data == Reading(f, s, a).data + Reading(f, Reading(f, s, a).reader, b).data
  {
    var first := Reading(f, s, a);
    var second := Reading(f, first.reader, b);
    JoinsByResults(f, s, a, b);
    ReadingTracks(f, s, a, returned);
    if |first.data| < a {
      ShortIsEnd(f, first.reader, returned + first.data);
      ReadLength(f, first.reader, b, returned + first.data);
    }
  }

  // ----- an input for which two reads give more than one -----

  /** Four bytes, a hole, four bytes. */
  function Holed(): File {
    File((k: nat) => if k == 0 then Readable([1, 2, 3, 4]) else if k == 1 then Hole else Readable([5, 6, 7, 8]),
         2, 4, false)
  }

  /** Twice six bytes are eight, where twelve at once are four. */
  lemma HoleSplitsReads()
    ensures var first := Reading(Holed(), Reader(0, Some([]), false), 6);
      && first.Given? && first.data == [1, 2, 3, 4]
      && var second := Reading(Holed(), first.reader, 6);
      && second.Given? && second.data == [5, 6, 7, 8]
    ensures var whole := Reading(Holed(), Reader(0, Some([]), false), 12); whole.Given? && whole.data == [1, 2, 3, 4]
  {
    HoledFirst(6);
    HoledFirst(12);
    var f, s := Holed(), Reader(2, Some([]), true);
    var four: seq<byte> := [5, 6, 7, 8];
    assert LoadNext(f, s) == Loaded(Reader(3, Some(four), true));
    assert Reading(f, Reader(3, Some(four), true), 6) == Given(four, Reader(3, Some([]), true));
    assert Reading(f, s, 6) == Given([] + four, Reader(3, Some([]), true));
  }

  lemma HoledFirst(n: nat)
    requires n > 4
    ensures Reading(Holed(), Reader(0, Some([]), false), n) == Given([1, 2, 3, 4], Reader(2, Some([]), true))
  {
    var f, s := Holed(), Reader(0, Some([]), false);
    var four: seq<byte> := [1, 2, 3, 4];
    assert LoadNext(f, s) == Loaded(Reader(1, Some(four), false));
    assert Reading(f, Reader(1, Some(four), false), n) == Given(four, Reader(2, Some([]), true));
    assert [] + four == four;
  }
}
