/** The data of a file, block by block, put together. */
module Files {
  import opened Bytes
  import opened BlockDevice
  import opened BlockTrees

  // ----- blocks and what they contribute -----

  /** Looking up and reading one block: an exception, no pointer, no data, or data. */
  datatype FileBlock = Breaks | Hole | Unreadable | Readable(data: seq<byte>)

  function BlockOf(v: Vdev, levels: nat, root: seq<BlockPtr>, k: nat): FileBlock {
    match LookupIn(v, levels, root, k)
    case Raised => Breaks
    case Missing => Hole
    case Found(bp) => Contributes(v(bp, 0))
  }

  function Contributes(r: Read): FileBlock {
    match r
    case Throws => Breaks
    case Got(None, _) => Unreadable
    case Got(Some(data), _) => Readable(data)
  }

  /** The blocks of a file are what its tree's leaves, left to right, read. */
  lemma BlockIsLeaf(v: Vdev, levels: nat, root: seq<BlockPtr>, k: nat)
    requires levels >= 1 && |root| >= 1 && (levels == 1 ==> |root| == 1) && k < |TreeLeaves(v, levels, root)|
    ensures BlockOf(v, levels, root, k) ==
      match TreeLeaves(v, levels, root)[k]
      case Raised => Breaks
      case Missing => Hole
      case Found(bp) => Contributes(v(bp, 0))
  {
    LookupLeaf(v, levels, root, k);
  }

  /** The file below a tree. */
  function FileOf(v: Vdev, levels: nat, root: seq<BlockPtr>, maxBlkid: nat, blksize: nat, badAsZeros: bool): File {
    File((k: nat) => BlockOf(v, levels, root, k), maxBlkid, blksize, badAsZeros)
  }

  /** A file: its blocks by number, the last number, the block size, and what a bad block counts for. */
  datatype File = File(block: nat -> FileBlock, maxBlkid: nat, blksize: nat, badAsZeros: bool) {
    function Piece(k: nat): seq<byte> {
      if block(k).Readable? then block(k).data else if badAsZeros then Zeros(blksize) else []
    }

    /** The first `n` blocks, put together. */
    function Content(n: nat): seq<byte> {
      if n == 0 then [] else Content(n - 1) + Piece(n - 1)
    }

    function Whole(): seq<byte> {
      Content(maxBlkid + 1)
    }

    /** The first `p` bytes of the file followed by zeros without end. */
    function Stream(p: nat): (s: seq<byte>)
      ensures |s| == p
    {
      Extended(Whole(), p)
    }

    ghost predicate Flawed(n: nat) {
      exists k :: 0 <= k < n && !block(k).Readable?
    }

    ghost predicate Agrees(s: seq<byte>, n: nat, padded: nat) {
      s == Content(n) + Zeros(padded)
    }

    lemma AgreesNext(s: seq<byte>, n: nat)
      requires Agrees(s, n, 0)
      ensures Agrees(s + Piece(n), n + 1, 0) == true
    {
    }

    lemma AgreesPadded(s: seq<byte>, n: nat, padded: nat, more: nat)
      requires Agrees(s, n, padded)
      ensures Agrees(s + Zeros(more), n, padded + more) == true
    {
    }

    lemma FlawedNext(n: nat)
      ensures Flawed(n + 1) <==> Flawed(n) || !block(n).Readable?
    {
    }

    lemma {:induction false} ContentGrows(m: nat, n: nat)
      requires m <= n
      ensures Content(m) <= Content(n)
      decreases n
    {
      if m < n { ContentGrows(m, n - 1); }
    }

    /** What lies within the first blocks and zeros after the last one lies within the stream. */
    lemma InStream(s: seq<byte>, t: seq<byte>, n: nat, padded: nat)
      requires n <= maxBlkid + 1 && (padded > 0 ==> n == maxBlkid + 1)
      requires Agrees(t, n, padded) && s <= t
      ensures s == Stream(|s|)
    {
      ContentGrows(n, maxBlkid + 1);
      InExtended(s, Content(n), Whole(), padded);
    }

    /** When every readable block has the file's block size and bad ones count as zeros, byte `r` of block
        `q` lies at `q * blksize + r`, and stays there whatever happens to the blocks before it. */
    lemma {:induction false} ByteOf(n: nat, q: nat, r: nat)
      requires badAsZeros && q < n && r < blksize
      requires forall k :: 0 <= k < n && block(k).Readable? ==> |block(k).data| == blksize
      ensures |Content(n)| == n * blksize && q * blksize + r < n * blksize
      ensures Content(n)[q * blksize + r] == if block(q).Readable? then block(q).data[r] else 0
      decreases n
    {
      PieceBounds(n - 1, q, blksize);
      ghost var c, piece := Content(n - 1), Piece(n - 1);
      assert Content(n) == c + piece;
      if q < n - 1 {
        ByteOf(n - 1, q, r);
        PieceBounds(n - 2, q, blksize);
      } else {
        if n > 1 { ByteOf(n - 1, 0, r); }
        assert |c| == q * blksize;
        InRest(c, piece, r);
      }
    }
  }

  /** `whole`, followed by zeros without end, up to `p`. */
  function Extended(whole: seq<byte>, p: nat): (s: seq<byte>)
    ensures |s| == p
  {
    if p <= |whole| then whole[..p] else whole + Zeros(p - |whole|)
  }

  lemma InExtended(s: seq<byte>, c: seq<byte>, whole: seq<byte>, padded: nat)
    requires s <= c + Zeros(padded) && c <= whole && (padded > 0 ==> c == whole)
    ensures s == Extended(whole, |s|)
  {
    if padded == 0 { assert c + Zeros(padded) == c; }
  }
}
