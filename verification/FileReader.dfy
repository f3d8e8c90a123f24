/** FileObj, the buffered reader of a file, and Dataset.extract_file. */
module FileReader {
  import opened Bytes
  import opened BlockDevice
  import opened BlockTrees
  import opened BlockTreeCache
  import opened Files
  import opened FileReads

  // ----- FileObj -----

  datatype ReadResult = Raises | Gives(data: seq<byte>)

  class FileObj {
    const bt: BlockTree
    const vdev: Vdev
    const maxBlkid: nat
    const datablksize: nat
    const badAsZeros: bool
    var nextBlkid: nat
    var filepos: nat
    var blkpos: nat
    var buf: Option<seq<byte>>
    var corrupted: bool

    /** All bytes returned so far. */
    ghost var returned: seq<byte>

    /** The file being read. */
    ghost const file: File

    ghost predicate Linked() {
      && file.maxBlkid == maxBlkid && file.blksize == datablksize && file.badAsZeros == badAsZeros
      && forall k: nat {:trigger Asked(k)} :: file.block(k) == BlockOf(vdev, bt.levels, bt.root, k)
    }

    /** Marks the blocks whose lookup matters, to keep the others folded. */
    ghost predicate Asked(k: nat) { true }

    /** Where the reader stands. */
    function Stand(): Reader
      reads this
    {
      Reader(nextBlkid, if buf.Some? && blkpos <= |buf.value| then Some(buf.value[blkpos..]) else None, corrupted)
    }

    ghost predicate Sound()
      reads this, bt
    {
      && Linked() && bt.Valid() && bt.vdev == vdev
      && (badAsZeros ==> datablksize > 0) && (buf.Some? ==> blkpos <= |buf.value|)
    }

    ghost predicate Valid()
      reads this, bt
    {
      Sound() && |returned| == filepos && Tracks(file, Stand(), returned)
    }

    constructor (bt: BlockTree, maxBlkid: nat, datablksize: nat, badAsZeros: bool)
      requires bt.Valid() && (badAsZeros ==> datablksize > 0)
      ensures Valid() && this.bt == bt && returned == [] && filepos == 0 && Stand() == Reader(0, Some([]), false)
      ensures file == FileOf(bt.vdev, bt.levels, bt.root, maxBlkid, datablksize, badAsZeros)
    {
      this.bt, vdev, this.maxBlkid, this.datablksize, this.badAsZeros := bt, bt.vdev, maxBlkid, datablksize, badAsZeros;
      nextBlkid, filepos, blkpos, buf, corrupted := 0, 0, 0, Some([]), false;
      returned := [];
      file := FileOf(bt.vdev, bt.levels, bt.root, maxBlkid, datablksize, badAsZeros);
      new;
      StartTracks(file);
      assert Stand() == Reader(0, Some([]), false);
    }

    /** Looks up and reads the next block; `raised` is an exception in either. */
    method Fetch() returns (raised: bool, block: FileBlock)
      requires Sound() && nextBlkid <= maxBlkid
      modifies `nextBlkid, bt`cache
      ensures Sound() && block == file.block(old(nextBlkid))
      ensures raised <==> block.Breaks?
      ensures nextBlkid == old(nextBlkid) + if LookupIn(vdev, bt.levels, bt.root, old(nextBlkid)).Raised? then 0 else 1
      ensures !raised ==> nextBlkid == old(nextBlkid) + 1
    {
      assert Asked(nextBlkid);
      var bptr := bt.Get(nextBlkid);
      if bptr.Raised? { return true, Breaks; }
      nextBlkid := nextBlkid + 1;
      if bptr.Missing? { return false, Hole; }
      var read := vdev(bptr.bp, 0);
      if read.Throws? { return true, Breaks; }
      return false, if read.data.None? then Unreadable else Readable(read.data.value);
    }

    /** Moves on to the next block when the buffer is used up; `stop` ends the read. */
    method Refill() returns (raised: bool, stop: bool)
      requires Sound() && Stand().rest == Some([])
      modifies `nextBlkid, `buf, `blkpos, `corrupted, bt`cache
      ensures Sound()
      ensures match LoadNext(file, old(Stand()))
        case Breaking => raised
        case Stopped(s) => !raised && stop && Stand() == s
        case Loaded(s) => !raised && !stop && Stand() == s
    {
      var badBlock := nextBlkid > maxBlkid;
      if !badBlock {
        var block;
        raised, block := Fetch();
        if raised { return true, false; }
        badBlock := !block.Readable?;
        if block.Unreadable? { buf := None; }
        if block.Readable? { buf := Some(block.data); }
      }
      if badBlock {
        corrupted := true;
        if !badAsZeros { return false, true; }
        buf := Some(Zeros(datablksize));
      }
      blkpos := 0;
      assert buf.value[0..] == buf.value;
      return false, false;
    }

    /** Takes up to `m` bytes from the buffer. */
    method Consume(m: nat) returns (piece: seq<byte>)
      requires Sound() && buf.Some?
      modifies `blkpos
      ensures Sound() && var rest := old(Stand()).rest.value;
        var nn := if m <= |rest| then m else |rest|;
        piece == rest[..nn] && Stand() == old(Stand()).(rest := Some(rest[nn..]))
    {
      var nn := if m < |buf.value| - blkpos then m else |buf.value| - blkpos;
      piece := buf.value[blkpos..blkpos + nn];
      assert buf.value[blkpos..][nn..] == buf.value[blkpos + nn..];
      blkpos := blkpos + nn;
    }

    /** One turn of the loop: `n` bytes are missing. */
    method Round(n: nat, ghost data: seq<byte>, ghost whole: Outcome)
      returns (raised: bool, stop: bool, piece: seq<byte>)
      requires Sound() && n > 0 && Stand().rest == Some([]) && GoesOn(whole, data, file, Stand(), n)
      modifies `nextBlkid, `buf, `blkpos, `corrupted, bt`cache
      ensures Sound()
      ensures raised ==> whole.Raising?
      ensures !raised && stop ==> whole == Given(data, Stand())
      ensures !raised && !stop ==> |piece| <= n && GoesOn(whole, data + piece, file, Stand(), n - |piece|) == true
      ensures !raised && !stop ==> Stand().rest.Some? && (|piece| < n ==> Stand().rest == Some([]))
      ensures !raised && !stop ==> BlocksLeft(file, Stand()) <= BlocksLeft(file, old(Stand()))
      ensures !raised && !stop && BlocksLeft(file, Stand()) == BlocksLeft(file, old(Stand())) ==> piece != []
    {
      ghost var before := Stand();
      ReadStops(whole, data, file, before, n);
      raised, stop := Refill();
      if raised || stop { return raised, stop, []; }
      ghost var loaded := Stand();
      piece := Consume(n);
      ReadStep(whole, data, file, before, loaded, n, piece, Stand());
    }

    /** Reads new blocks until `n` bytes are there, or a bad block or the end stops it. */
    method ReadBlocks(n: nat, data0: seq<byte>, ghost whole: Outcome) returns (raised: bool, data: seq<byte>)
      requires Sound() && |data0| <= n && Stand().rest.Some? && (|data0| < n ==> Stand().rest == Some([]))
      requires GoesOn(whole, data0, file, Stand(), n - |data0|) == true
      modifies `nextBlkid, `buf, `blkpos, `corrupted, bt`cache
      ensures Sound()
      ensures whole == if raised then Raising else Given(data, Stand())
    {
      data := data0;
      while |data| < n
        invariant Sound() && |data| <= n && Stand().rest.Some? && (|data| < n ==> Stand().rest == Some([]))
        invariant GoesOn(whole, data, file, Stand(), n - |data|) == true
        decreases BlocksLeft(file, Stand()), n - |data|
      {
        var stop, piece;
        raised, stop, piece := Round(n - |data|, data, whole);
        if raised || stop { return raised, data; }
        data := data + piece;
      }
      ReadStops(whole, data, file, Stand(), 0);
      return false, data;
    }

    /** The rest of the buffer and then new blocks, all but the position. */
    method ReadData(n: nat) returns (raised: bool, data: seq<byte>)
      requires Sound() && buf.Some?
      modifies `nextBlkid, `buf, `blkpos, `corrupted, bt`cache
      ensures Sound()
      ensures Reading(file, old(Stand()), n) == if raised then Raising else Given(data, Stand())
    {
      ghost var whole := Reading(file, Stand(), n);
      StartsOn(file, Stand(), n);
      data := Consume(n);
      raised, data := ReadBlocks(n, data, whole);
    }

    /** Reads on from where the last read ended: what comes is what `Reading` says. With `badAsZeros` it
        is all that is asked for; without, it stays inside the file and, if no block is bad, comes short
        only at the end. */
    method Read(n: nat) returns (r: ReadResult)
      requires Valid()
      modifies this, bt`cache
      ensures match Reading(file, old(Stand()), n)
        case Raising => r == Raises
        case Given(data, s) => r == Gives(data) && Stand() == s && Valid()
      ensures r.Raises? ==> old(buf).None? || exists k: nat :: old(nextBlkid) <= k <= maxBlkid && file.block(k).Breaks?
      ensures r.Gives? ==> filepos == old(filepos) + |r.data| && returned == old(returned) + r.data
      ensures r.Gives? ==> r.data == file.Stream(filepos)[old(filepos)..]
      ensures r.Gives? && badAsZeros ==> |r.data| == n
      ensures r.Gives? && !badAsZeros ==> |r.data| <= n && returned <= file.Whole() && (|r.data| < n ==> corrupted)
      ensures r.Gives? && !badAsZeros && !file.Flawed(maxBlkid + 1) ==>
        |r.data| == if n <= |file.Whole()| - old(filepos) then n else |file.Whole()| - old(filepos)
    {
      ghost var before, start := returned, Stand();
      if buf.None? { return Raises; }
      ReadingTracks(file, start, n, returned);
      var raised, data := ReadData(n);
      if raised { return Raises; }
      filepos, returned := filepos + |data|, returned + data;
      ReadLength(file, start, n, before);
      TrackedIsStream(file, start, before);
      TrackedIsStream(file, Stand(), returned);
      return Gives(data);
    }

    method Tell() returns (p: nat)
      requires Valid()
      ensures p == |returned|
    {
      return filepos;
    }
  }

  /** Two reads in a row. */
  method ReadTwice(x: FileObj, a: nat, b: nat) returns (first: ReadResult, second: ReadResult)
    requires x.Valid()
    modifies x, x.bt`cache
    ensures match Reading(x.file, old(x.Stand()), a)
      case Raising => first == Raises
      case Given(data, s) => (first == Gives(data) && match Reading(x.file, s, b)
        case Raising => second == Raises
        case Given(data', s') => second == Gives(data'))
  {
    second := Raises;
    first := x.Read(a);
    if first.Gives? { second := x.Read(b); }
  }

  /** Two readers of one file at the same place, one read twice, the other once for as much: they give the
      same, exceptions included, if and only if what lies before them says so; if the two do not raise, that
      is if the first comes up full or the second gives nothing, and so always with zeros for bad blocks or
      without bad blocks. */
  method ReadBothWays(x: FileObj, y: FileObj, a: nat, b: nat)
    returns (first: ReadResult, second: ReadResult, one: ReadResult)
    requires x.Valid() && y.Valid() && x != y && x.bt != y.bt && x.file == y.file && x.Stand() == y.Stand()
    modifies x, x.bt`cache, y, y.bt`cache
    ensures one == (if first.Raises? || second.Raises? then Raises else Gives(first.data + second.data))
      <==> Joins(x.file, old(x.Stand()), a, b)
    ensures first.Gives? && second.Gives? ==>
      one.Gives? && (one.data == first.data + second.data <==> |first.data| == a || second.data == [])
    ensures first.Gives? && second.Gives? && (x.file.badAsZeros || !x.file.Flawed(x.file.maxBlkid + 1)) ==>
      one.data == first.data + second.data
  {
    ghost var s, returned := x.Stand(), x.returned;
    first, second := ReadTwice(x, a, b);
    one := y.Read(a + b);
    ReadsJoinIff(x.file, s, a, b);
    if first.Gives? && second.Gives? {
      JoinsByResults(x.file, s, a, b);
      if x.file.badAsZeros || !x.file.Flawed(x.file.maxBlkid + 1) { ReadsJoin(x.file, s, a, b, returned); }
    }
  }

  // ----- Dataset.extract_file -----

  /** Refused is the guard on the first pointer; `complete` is the returned flag. */
  datatype Extraction = Refused | Fails | Extracted(content: seq<byte>, complete: bool)

  function RootOf(v: Vdev, levels: nat, bp: BlockPtr): Branch {
    if levels == 1 then Branch([bp]) else Load(v, bp)
  }

  ghost predicate AnyBreaks(file: File, n: nat) {
    exists k :: 0 <= k < n && file.block(k).Breaks?
  }

  /** What ends up in the target file. */
  ghost function ExtractionOf(v: Vdev, levels: nat, bp: BlockPtr, maxBlkid: nat, blksize: nat, size: nat): Extraction {
    if Empty(bp) && size > 0 then Refused
    else
      match RootOf(v, levels, bp)
      case BranchRaises => Fails
      case BranchBroken => Fails
      case Branch(root) =>
        var file := FileOf(v, levels, root, maxBlkid, blksize, true);
        if size == 0 then Extracted([], true)
        else if AnyBreaks(file, maxBlkid + 1) then Fails
        else Extracted(Truncated(file.Whole(), size), !file.Flawed(maxBlkid + 1))
  }

  function Truncated(s: seq<byte>, size: nat): seq<byte> {
    if |s| < size then s else s[..size]
  }

  /** Reading a block for extraction; bad ones become zeros. */
  method ReadOrZeros(tree: BlockTree, n: nat, blksize: nat, ghost file: File)
    returns (raised: bool, data: seq<byte>, badBlock: bool)
    requires tree.Valid() && file.block(n) == BlockOf(tree.vdev, tree.levels, tree.root, n)
    requires file.badAsZeros && file.blksize == blksize
    modifies tree`cache
    ensures tree.Valid()
    ensures raised <==> file.block(n).Breaks?
    ensures !raised ==> data == file.Piece(n) && (badBlock <==> !file.block(n).Readable?)
  {
    data, badBlock := Zeros(blksize), true;
    var found := tree.Get(n);
    if found.Raised? { return true, [], false; }
    if found.Found? {
      var read := tree.vdev(found.bp, 0);
      if read.Throws? { return true, [], false; }
      if read.data.Some? { data, badBlock := read.data.value, false; }
    }
    return false, data, badBlock;
  }

  method WriteBlocks(tree: BlockTree, maxBlkid: nat, blksize: nat, ghost file: File)
    returns (raised: bool, content: seq<byte>, corrupted: bool)
    requires tree.Valid() && file == FileOf(tree.vdev, tree.levels, tree.root, maxBlkid, blksize, true)
    modifies tree`cache
    ensures raised <==> AnyBreaks(file, maxBlkid + 1)
    ensures !raised ==> content == file.Whole() && (corrupted <==> file.Flawed(maxBlkid + 1))
  {
    content, corrupted := [], false;
    for n := 0 to maxBlkid + 1
      invariant tree.Valid() && !AnyBreaks(file, n)
      invariant content == file.Content(n) && (corrupted <==> file.Flawed(n))
    {
      var data, badBlock;
      raised, data, badBlock := ReadOrZeros(tree, n, blksize, file);
      if raised { return true, content, corrupted; }
      file.FlawedNext(n);
      content, corrupted := content + data, corrupted || badBlock;
    }
    return false, content, corrupted;
  }

  method ExtractFile(v: Vdev, levels: nat, bp: BlockPtr, maxBlkid: nat, blksize: nat, size: nat) returns (r: Extraction)
    ensures r == ExtractionOf(v, levels, bp, maxBlkid, blksize, size)
  {
    if Empty(bp) && size > 0 { return Refused; }
    var tree := BlockTree.Open(levels, v, bp);
    if tree == null { return Fails; }
    var content, corrupted := [], false;
    if size > 0 {
      var raised;
      ghost var file := FileOf(v, levels, tree.root, maxBlkid, blksize, true);
      raised, content, corrupted := WriteBlocks(tree, maxBlkid, blksize, file);
      if raised { return Fails; }
    }
    return Extracted(if |content| < size then content else content[..size], !corrupted);
  }

  // ----- what an extraction gives -----

  /** The lengths of the first `n` blocks, added up; a bad block counts as `blksize`. */
  function TotalBytes(v: Vdev, levels: nat, root: seq<BlockPtr>, n: nat, blksize: nat): nat {
    if n == 0 then 0
    else
      var last := BlockOf(v, levels, root, n - 1);
      TotalBytes(v, levels, root, n - 1, blksize) + if last.Readable? then |last.data| else blksize
  }

  /** The file with these blocks. */
  ghost predicate HasBlocks(f: File, v: Vdev, levels: nat, root: seq<BlockPtr>, blksize: nat) {
    f.badAsZeros && f.blksize == blksize && forall k: nat :: f.block(k) == BlockOf(v, levels, root, k)
  }

  lemma {:induction false} TotalIsLength(f: File, v: Vdev, levels: nat, root: seq<BlockPtr>, n: nat, blksize: nat)
    requires HasBlocks(f, v, levels, root, blksize)
    ensures |f.Content(n)| == TotalBytes(v, levels, root, n, blksize)
  {
    if n > 0 {
      TotalIsLength(f, v, levels, root, n - 1, blksize);
      assert f.block(n - 1) == BlockOf(v, levels, root, n - 1);
    }
  }

  /** Looking up or reading a block raises. */
  ghost predicate SomeBreaks(v: Vdev, levels: nat, root: seq<BlockPtr>, maxBlkid: nat) {
    exists k: nat :: k <= maxBlkid && BlockOf(v, levels, root, k).Breaks?
  }

  ghost predicate AllReadable(v: Vdev, levels: nat, root: seq<BlockPtr>, maxBlkid: nat) {
    forall k: nat :: k <= maxBlkid ==> BlockOf(v, levels, root, k).Readable?
  }

  /** Whether it is refused, whether it fails, how many bytes it gives, and what the flag says. */
  lemma ExtractionIs(v: Vdev, levels: nat, bp: BlockPtr, maxBlkid: nat, blksize: nat, size: nat)
    ensures ExtractionOf(v, levels, bp, maxBlkid, blksize, size).Refused? <==> Empty(bp) && size > 0
    ensures var refused, root := Empty(bp) && size > 0, RootOf(v, levels, bp);
      ExtractionOf(v, levels, bp, maxBlkid, blksize, size).Fails? <==>
        !refused && (root.Branch? ==> size > 0 && SomeBreaks(v, levels, root.bpa, maxBlkid))
    ensures var e, root := ExtractionOf(v, levels, bp, maxBlkid, blksize, size), RootOf(v, levels, bp);
      e.Extracted? ==>
        var total := TotalBytes(v, levels, root.bpa, maxBlkid + 1, blksize);
        && |e.content| == (if total < size then total else size)
        && (e.complete <==> size == 0 || AllReadable(v, levels, root.bpa, maxBlkid))
  {
    var root := RootOf(v, levels, bp);
    if root.Branch? {
      var f := FileOf(v, levels, root.bpa, maxBlkid, blksize, true);
      assert HasBlocks(f, v, levels, root.bpa, blksize);
      TotalIsLength(f, v, levels, root.bpa, maxBlkid + 1, blksize);
    }
  }

  lemma OffsetsIn(f: File, size: nat, q: nat, r: nat)
    requires f.badAsZeros && q <= f.maxBlkid && r < f.blksize && q * f.blksize + r < size
    requires forall k :: 0 <= k <= f.maxBlkid && f.block(k).Readable? ==> |f.block(k).data| == f.blksize
    ensures var content, total := Truncated(f.Whole(), size), (f.maxBlkid + 1) * f.blksize;
      && |content| == (if total < size then total else size) && q * f.blksize + r < |content|
      && content[q * f.blksize + r] == if f.block(q).Readable? then f.block(q).data[r] else 0
  {
    f.ByteOf(f.maxBlkid + 1, q, r);
  }

  /** Extraction keeps offsets: when the readable blocks have the block size, byte `r` of block `q` lands
      at `q * blksize + r` if that is within the size, and bad blocks leave zeros of just their length. */
  lemma OffsetsKept(v: Vdev, levels: nat, bp: BlockPtr, maxBlkid: nat, blksize: nat, size: nat, q: nat, r: nat)
    requires q <= maxBlkid && r < blksize && q * blksize + r < size
    requires ExtractionOf(v, levels, bp, maxBlkid, blksize, size).Extracted?
    requires forall k: nat :: k <= maxBlkid && BlockOf(v, levels, RootOf(v, levels, bp).bpa, k).Readable? ==>
      |BlockOf(v, levels, RootOf(v, levels, bp).bpa, k).data| == blksize
    ensures var content, block := ExtractionOf(v, levels, bp, maxBlkid, blksize, size).content,
        BlockOf(v, levels, RootOf(v, levels, bp).bpa, q);
      && |content| == (if (maxBlkid + 1) * blksize < size then (maxBlkid + 1) * blksize else size)
      && q * blksize + r < |content|
      && content[q * blksize + r] == if block.Readable? then block.data[r] else 0
  {
    var root := RootOf(v, levels, bp).bpa;
    var f := FileOf(v, levels, root, maxBlkid, blksize, true);
    assert HasBlocks(f, v, levels, root, blksize);
    assert f.block(q) == BlockOf(v, levels, root, q);
    OffsetsIn(f, size, q, r);
  }

  /** What is extracted is what a new reader with `badAsZeros` gives when it is asked for as many bytes. */
  lemma ExtractedIsRead(v: Vdev, levels: nat, bp: BlockPtr, maxBlkid: nat, blksize: nat, size: nat)
    requires blksize > 0
    ensures match ExtractionOf(v, levels, bp, maxBlkid, blksize, size)
      case Extracted(content, _) =>
        && RootOf(v, levels, bp).Branch?
        && var f := FileOf(v, levels, RootOf(v, levels, bp).bpa, maxBlkid, blksize, true);
        && var r := Reading(f, Reader(0, Some([]), false), |content|);
        r.Given? && r.data == content
      case _ => true
  {
    var e := ExtractionOf(v, levels, bp, maxBlkid, blksize, size);
    if e.Extracted? && size > 0 {
      ReadIsTruncated(FileOf(v, levels, RootOf(v, levels, bp).bpa, maxBlkid, blksize, true), size);
    }
  }

  lemma ReadIsTruncated(f: File, size: nat)
    requires f.badAsZeros && f.blksize > 0 && !AnyBreaks(f, f.maxBlkid + 1)
    ensures var content := Truncated(f.Whole(), size);
      var r := Reading(f, Reader(0, Some([]), false), |content|);
      r.Given? && r.data == content
  {
    var n := |Truncated(f.Whole(), size)|;
    var r := Reading(f, Reader(0, Some([]), false), n);
    StartTracks(f);
    ReadingTracks(f, Reader(0, Some([]), false), n, []);
    if r.Given? {
      assert [] + r.data == r.data;
      TrackedIsStream(f, r.reader, r.data);
    }
  }
}
