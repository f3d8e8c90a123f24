/** What is read back from the columns of a transfer, with one of them rebuilt from the others. */
module RaidzRepair {
  import opened Arithmetic
  import opened Bytes
  import opened RaidzLayout

  // ----- exclusive or over columns -----

  /** `_xor(p, d)`: `d` is no longer than `p`. */
  function XorInto(p: seq<byte>, d: seq<byte>): (r: seq<byte>)
    ensures |r| == |p|
  {
    seq(|p|, i requires 0 <= i < |p| => if i < |d| then Xor(p[i], d[i]) else p[i])
  }

  /** Byte `i` of a column, zero beyond its end. */
  function ByteAt(piece: seq<byte>, i: nat): byte {
    if i < |piece| then piece[i] else 0
  }

  /** The exclusive or, at byte `i`, of columns 1 to `k - 1` except `skip`. */
  function XorAt(pieces: seq<seq<byte>>, skip: nat, k: nat, i: nat): byte
    requires k <= |pieces|
  {
    if k <= 1 then 0
    else if k - 1 == skip then XorAt(pieces, skip, k - 1, i)
    else Xor(XorAt(pieces, skip, k - 1, i), ByteAt(pieces[k - 1], i))
  }

  /** The parity of the data columns, each extended with zeros to `size` bytes. */
  function Parity(pieces: seq<seq<byte>>, size: nat): (p: seq<byte>)
    ensures |p| == size
  {
    seq(size, i requires 0 <= i => XorAt(pieces, 0, |pieces|, i))
  }

  lemma XorZero(a: byte)
    ensures Xor(a, 0) == a && Xor(0, a) == a
  {
    BitXorZero(a);
    BitXorCommutes(a, 0);
  }

  /** `(x ^ y) ^ (x ^ z) == y ^ z`, the cancellation behind every repair. */
  lemma XorCancels(x: byte, y: byte, z: byte)
    ensures Xor(Xor(x, y), Xor(x, z)) == Xor(y, z)
  {
    BitXorCommutes(x, y);
    BitXorAssociates(y, x, Xor(x, z));
    BitXorAssociates(x, x, z);
    BitXorSelf(x);
    XorZero(z);
  }

  lemma XorSwaps(x: byte, y: byte, z: byte)
    ensures Xor(Xor(x, y), z) == Xor(Xor(x, z), y)
  {
    BitXorAssociates(x, y, z);
    BitXorCommutes(y, z);
    BitXorAssociates(x, z, y);
  }

  /** Leaving a column out of the exclusive or is the same as putting it in twice. */
  lemma {:induction false} XorWithout(pieces: seq<seq<byte>>, lost: nat, k: nat, i: nat)
    requires 1 <= lost && k <= |pieces|
    ensures XorAt(pieces, 0, k, i) ==
      if lost < k then Xor(XorAt(pieces, lost, k, i), ByteAt(pieces[lost], i)) else XorAt(pieces, lost, k, i)
  {
    if k > 1 {
      XorWithout(pieces, lost, k - 1, i);
      if k - 1 > lost {
        XorSwaps(XorAt(pieces, lost, k - 1, i), ByteAt(pieces[lost], i), ByteAt(pieces[k - 1], i));
      }
    }
  }

  /** The parity column with every other data column but `skip` folded in, columns 1 to `k - 1`. */
  function Fold(pieces: seq<seq<byte>>, skip: nat, k: nat): (r: seq<byte>)
    requires 1 <= k <= |pieces|
    ensures |r| == |pieces[0]|
  {
    if k == 1 then pieces[0]
    else if k - 1 == skip then Fold(pieces, skip, k - 1)
    else XorInto(Fold(pieces, skip, k - 1), pieces[k - 1])
  }

  lemma {:induction false} FoldAt(pieces: seq<seq<byte>>, skip: nat, k: nat, i: nat)
    requires 1 <= k <= |pieces| && i < |pieces[0]|
    ensures Fold(pieces, skip, k)[i] == Xor(pieces[0][i], XorAt(pieces, skip, k, i))
  {
    if k == 1 {
      XorZero(pieces[0][i]);
    } else {
      FoldAt(pieces, skip, k - 1, i);
      if k - 1 != skip {
        BitXorAssociates(pieces[0][i], XorAt(pieces, skip, k - 1, i), ByteAt(pieces[k - 1], i));
        XorZero(Fold(pieces, skip, k - 1)[i]);
      }
    }
  }

  /** If column 0 is the parity of the rest, folding in all columns but one rebuilds that one. */
  lemma FoldRebuilds(pieces: seq<seq<byte>>, lost: nat)
    requires 1 <= lost < |pieces| && |pieces[lost]| <= |pieces[0]|
    requires pieces[0] == Parity(pieces, |pieces[0]|)
    ensures Fold(pieces, lost, |pieces|)[..|pieces[lost]|] == pieces[lost]
  {
    forall i | 0 <= i < |pieces[lost]| ensures Fold(pieces, lost, |pieces|)[i] == pieces[lost][i] {
      var q := XorAt(pieces, lost, |pieces|, i);
      FoldAt(pieces, lost, |pieces|, i);
      XorWithout(pieces, lost, |pieces|, i);
      XorZero(q);
      XorCancels(q, pieces[lost][i], 0);
      XorZero(pieces[lost][i]);
    }
  }

  // ----- disks -----

  /** What the block proxy returns for one byte: device number, then address. */
  type Disks = (nat, nat) -> byte

  /** The labels in front of the data of a device. */
  const LABEL_SIZE: nat := 0x40_0000

  function ReadCol(disks: Disks, col: Col): (piece: seq<byte>)
    ensures |piece| == col.size
  {
    seq(col.size, k requires 0 <= k => disks(col.devidx, col.offset + LABEL_SIZE + k))
  }

  function Pieces(disks: Disks, cols: seq<Col>): (pieces: seq<seq<byte>>)
    ensures |pieces| == |cols|
  {
    seq(|cols|, c requires 0 <= c < |cols| => ReadCol(disks, cols[c]))
  }

  /** The first column from `from` on that lies on a device, or the number of columns. */
  function FirstOn(cols: seq<Col>, device: nat, from: nat): (c: nat)
    requires from <= |cols|
    ensures from <= c <= |cols|
    ensures c < |cols| ==> cols[c].devidx == device
    ensures forall k :: from <= k < c ==> cols[k].devidx != device
    decreases |cols| - from
  {
    if from == |cols| || cols[from].devidx == device then from else FirstOn(cols, device, from + 1)
  }

  /** The column to rebuild, or the number of columns. As in the source, whether there is one is looked up
      among the columns after the first, and which one among all; the devices of a transfer are distinct,
      so that this is one and the same. */
  function BadColumn(cols: seq<Col>, bad: seq<nat>, repair: bool): (b: nat)
    requires |cols| >= 1
    ensures b <= |cols|
  {
    if repair && |bad| > 0 && FirstOn(cols, bad[0], 1) < |cols| then FirstOn(cols, bad[0], 0) else |cols|
  }

  /** The columns after repair. */
  function Repaired(pieces: seq<seq<byte>>, cols: seq<Col>, bad: seq<nat>, repair: bool): (r: seq<seq<byte>>)
    requires |pieces| == |cols| >= 1
    ensures |r| == |pieces|
  {
    var b := BadColumn(cols, bad, repair);
    if b < |cols| && cols[b].size <= |pieces[0]| then
      pieces[b := Fold(pieces, b, |pieces|)[..cols[b].size]]
    else pieces
  }

  /** What a read returns. */
  function ReadBack(disks: Disks, cols: seq<Col>, firstdatacol: nat, bad: seq<nat>, repair: bool): seq<byte>
    requires 1 <= |cols| && firstdatacol <= |cols|
  {
    Flatten(Repaired(Pieces(disks, cols), cols, bad, repair)[firstdatacol..])
  }

  // ----- writing -----

  function WriteCol(disks: Disks, col: Col, piece: seq<byte>): Disks {
    (device: nat, address: nat) =>
      if device == col.devidx && col.offset + LABEL_SIZE <= address < col.offset + LABEL_SIZE + |piece|
      then piece[address - col.offset - LABEL_SIZE] else disks(device, address)
  }

  function WriteAll(disks: Disks, cols: seq<Col>, pieces: seq<seq<byte>>, n: nat): Disks
    requires n <= |cols| == |pieces|
  {
    if n == 0 then disks else WriteCol(WriteAll(disks, cols, pieces, n - 1), cols[n - 1], pieces[n - 1])
  }

  lemma {:induction false} WritesAreReadBack(disks: Disks, cols: seq<Col>, pieces: seq<seq<byte>>, n: nat, c: nat)
    requires c < n <= |cols| == |pieces| && |pieces[c]| == cols[c].size
    requires forall k :: 0 <= k < |cols| && cols[k].devidx == cols[c].devidx ==> k == c
    ensures ReadCol(WriteAll(disks, cols, pieces, n), cols[c]) == pieces[c]
    decreases n
  {
    var now := WriteAll(disks, cols, pieces, n);
    if n - 1 != c {
      WritesAreReadBack(disks, cols, pieces, n - 1, c);
      assert cols[n - 1].devidx != cols[c].devidx;
      assert ReadCol(now, cols[c]) == ReadCol(WriteAll(disks, cols, pieces, n - 1), cols[c]);
    }
  }

  /** Where the data of column `c` starts in the payload. */
  function Start(io: Io, c: nat): nat
    requires io.nparity < io.dcols && c <= io.dcols
  {
    RowsBefore(io, c) * io.Unit()
  }

  lemma {:induction false} RowsBeforeMonotone(io: Io, c: nat, c': nat)
    requires io.Valid() && c <= c' <= io.dcols
    ensures RowsBefore(io, c) <= RowsBefore(io, c')
    decreases c'
  {
    if c < c' { RowsBeforeMonotone(io, c, c' - 1); }
  }

  /** The data columns cut the payload into consecutive pieces, from its start to its end. */
  lemma Tiling(io: Io, c: nat)
    requires io.Valid() && io.nparity <= c < io.Columns()
    ensures Start(io, io.nparity) == 0 && Start(io, io.Columns()) == DataSize(io)
    ensures Start(io, c) <= Start(io, c + 1) <= Start(io, io.Columns())
    ensures Start(io, c + 1) - Start(io, c) == io.Dealt(c).size
  {
    AllRows(io);
    RowsBeforeMonotone(io, c + 1, io.Columns());
    Scale(RowsBefore(io, c), RowsBefore(io, c + 1), io.Unit());
    Scale(RowsBefore(io, c + 1), RowsBefore(io, io.Columns()), io.Unit());
  }

  /** The number of bytes the data columns hold. */
  function DataSize(io: Io): nat {
    io.Sectors() * io.Unit()
  }

  function DataPiece(io: Io, payload: seq<byte>, c: nat): (piece: seq<byte>)
    requires io.Valid() && |payload| == DataSize(io) && c < io.Columns()
    ensures c >= io.nparity ==> |piece| == io.Dealt(c).size
  {
    if c < io.nparity then [] else (Tiling(io, c); payload[Start(io, c)..Start(io, c + 1)])
  }

  /** The pieces of a payload: nothing yet for parity, then the data columns. */
  function DataPieces(io: Io, payload: seq<byte>): (pieces: seq<seq<byte>>)
    requires io.Valid() && |payload| == DataSize(io)
    ensures |pieces| == io.Columns()
  {
    seq(io.Columns(), c requires 0 <= c < io.Columns() => DataPiece(io, payload, c))
  }

  lemma FlattenLast(pieces: seq<seq<byte>>, a: nat, c: nat)
    requires a < c <= |pieces|
    ensures Flatten(pieces[a..c]) == Flatten(pieces[a..c - 1]) + pieces[c - 1]
  {
    assert pieces[a..c][..c - a - 1] == pieces[a..c - 1];
  }

  ghost predicate IsSlice(payload: seq<byte>, from: nat, to: nat, piece: seq<byte>) {
    from <= to <= |payload| && piece == payload[from..to]
  }

  /** Consecutive slices, put together, are the whole. */
  lemma {:induction false} SlicesMakeWhole(pieces: seq<seq<byte>>, payload: seq<byte>, starts: seq<nat>, a: nat, c: nat)
    requires a <= c <= |pieces| < |starts| && starts[a] == 0
    requires forall k :: a <= k < c ==> IsSlice(payload, starts[k], starts[k + 1], pieces[k])
    ensures starts[c] <= |payload| && Flatten(pieces[a..c]) == payload[..starts[c]]
    decreases c
  {
    if c == a {
      assert pieces[a..c] == [];
    } else {
      SlicesMakeWhole(pieces, payload, starts, a, c - 1);
      FlattenLast(pieces, a, c);
      assert IsSlice(payload, starts[c - 1], starts[c], pieces[c - 1]);
      assert payload[..starts[c - 1]] + payload[starts[c - 1]..starts[c]] == payload[..starts[c]];
    }
  }

  lemma DataPieceIsSlice(io: Io, payload: seq<byte>, c: nat)
    requires io.Valid() && |payload| == DataSize(io) && io.nparity <= c < io.Columns()
    ensures IsSlice(payload, Start(io, c), Start(io, c + 1), DataPieces(io, payload)[c])
  {
    Tiling(io, c);
  }

  lemma PiecesMakePayload(io: Io, payload: seq<byte>)
    requires io.Valid() && |payload| == DataSize(io)
    ensures io.nparity < io.Columns() && Flatten(DataPieces(io, payload)[io.nparity..]) == payload
  {
    ColumnsAre(io);
    var pieces, n := DataPieces(io, payload), io.Columns();
    var starts := seq(n + 1, c requires 0 <= c <= n => Start(io, c));
    forall k | io.nparity <= k < n ensures IsSlice(payload, starts[k], starts[k + 1], pieces[k]) {
      DataPieceIsSlice(io, payload, k);
    }
    Tiling(io, io.nparity);
    SlicesMakeWhole(pieces, payload, starts, io.nparity, n);
    assert pieces[io.nparity..n] == pieces[io.nparity..];
    assert payload[..starts[n]] == payload;
  }

  /** The pieces with single parity in front. */
  function Encoded(io: Io, payload: seq<byte>): (pieces: seq<seq<byte>>)
    requires io.Valid() && |payload| == DataSize(io)
    ensures |pieces| == io.Columns() >= 2
  {
    ColumnsAre(io);
    var data := DataPieces(io, payload);
    data[0 := Parity(data, io.Dealt(0).size)]
  }

  lemma LayoutSize(io: Io, c: nat)
    requires io.Valid()
    ensures io.Columns() >= 2
    ensures c < io.Columns() ==> io.Layout()[c].size == io.Dealt(c).size <= io.Dealt(0).size
  {
    ColumnsAre(io);
    if c < io.Columns() {
      SizeIs(io, 0);
      SizeIs(io, c);
      Scale(Rows(io.Total(), io.dcols, c), Rows(io.Total(), io.dcols, 0), io.Unit());
    }
  }

  lemma {:induction false} XorAtSame(pieces: seq<seq<byte>>, pieces': seq<seq<byte>>, skip: nat, k: nat, i: nat)
    requires k <= |pieces| == |pieces'|
    requires forall c :: 1 <= c < k && c != skip ==> pieces[c] == pieces'[c]
    ensures XorAt(pieces, skip, k, i) == XorAt(pieces', skip, k, i)
  {
    if k > 1 { XorAtSame(pieces, pieces', skip, k - 1, i); }
  }

  lemma {:induction false} FoldSame(pieces: seq<seq<byte>>, pieces': seq<seq<byte>>, skip: nat, k: nat)
    requires 1 <= k <= |pieces| == |pieces'|
    requires forall c :: 0 <= c < k && c != skip ==> pieces[c] == pieces'[c]
    requires skip != 0
    ensures Fold(pieces, skip, k) == Fold(pieces', skip, k)
  {
    if k > 1 { FoldSame(pieces, pieces', skip, k - 1); }
  }

  lemma EncodedPieces(io: Io, payload: seq<byte>)
    requires io.Valid() && io.nparity == 1 && |payload| == DataSize(io)
    ensures var pieces := Encoded(io, payload);
      && pieces[0] == Parity(pieces, |pieces[0]|)
      && (forall c :: 0 <= c < |pieces| ==> |pieces[c]| == io.Layout()[c].size && |pieces[c]| <= |pieces[0]|)
      && Flatten(pieces[1..]) == payload
  {
    var data, pieces := DataPieces(io, payload), Encoded(io, payload);
    forall i | 0 <= i < |pieces[0]| ensures pieces[0][i] == XorAt(pieces, 0, |pieces|, i) {
      XorAtSame(data, pieces, 0, |pieces|, i);
    }
    forall c | 0 <= c < |pieces| ensures |pieces[c]| == io.Layout()[c].size && |pieces[c]| <= |pieces[0]| {
      LayoutSize(io, c);
    }
    PiecesMakePayload(io, payload);
    assert pieces[1..] == data[1..];
  }

  // ----- one disk is lost -----

  /** Every device but `lost` still holds what it held. */
  ghost predicate Damaged(disks: Disks, disks': Disks, lost: nat) {
    forall device: nat, address: nat :: device != lost ==> disks'(device, address) == disks(device, address)
  }

  lemma SurvivingColumn(io: Io, payload: seq<byte>, disks: Disks, disks': Disks, lost: nat, c: nat)
    requires io.Valid() && io.nparity == 1 && |payload| == DataSize(io) && c < io.Columns()
    requires io.Columns() >= 2
    requires Damaged(WriteAll(disks, io.Layout(), Encoded(io, payload), io.Columns()), disks', lost)
    ensures |Pieces(disks', io.Layout())[c]| == |Encoded(io, payload)[c]|
    ensures io.Layout()[c].devidx != lost ==> Pieces(disks', io.Layout())[c] == Encoded(io, payload)[c]
  {
    var cols, pieces := io.Layout(), Encoded(io, payload);
    EncodedPieces(io, payload);
    forall k | 0 <= k < |cols| && cols[k].devidx == cols[c].devidx ensures k == c {
      DevicesDistinct(io, k, c);
    }
    WritesAreReadBack(disks, cols, pieces, |cols|, c);
    if cols[c].devidx != lost {
      assert ReadCol(disks', cols[c]) == ReadCol(WriteAll(disks, cols, pieces, |cols|), cols[c]);
    }
  }

  /** Both lookups find the same column. */
  lemma BadColumnIs(io: Io, bad: seq<nat>)
    requires io.Valid() && io.Columns() >= 2 && |bad| >= 1
    ensures BadColumn(io.Layout(), bad, true) == FirstOn(io.Layout(), bad[0], 1)
  {
    var cols := io.Layout();
    var b, first := FirstOn(cols, bad[0], 1), FirstOn(cols, bad[0], 0);
    if b < |cols| {
      assert first <= b;
      DevicesDistinct(io, b, first);
    }
  }

  /** Write a payload with single parity, lose any one device, read with repair of that device: the
      payload comes back, whether the device held parity, data, or nothing of it. */
  lemma SurvivesOneDisk(io: Io, payload: seq<byte>, disks: Disks, disks': Disks, bad: seq<nat>)
    requires io.Valid() && io.nparity == 1 && |payload| == DataSize(io) && |bad| >= 1
    requires io.Columns() >= 2
    requires Damaged(WriteAll(disks, io.Layout(), Encoded(io, payload), io.Columns()), disks', bad[0])
    ensures ReadBack(disks', io.Layout(), 1, bad, true) == payload
  {
    var cols, pieces, read := io.Layout(), Encoded(io, payload), Pieces(disks', io.Layout());
    var n, b := |cols|, FirstOn(cols, bad[0], 1);
    BadColumnIs(io, bad);
    EncodedPieces(io, payload);
    forall c | 0 <= c < n ensures |read[c]| == |pieces[c]| && (cols[c].devidx != bad[0] ==> read[c] == pieces[c]) {
      SurvivingColumn(io, payload, disks, disks', bad[0], c);
    }
    var repaired := Repaired(read, cols, bad, true);
    if b < n {
      forall c | 0 <= c < n && c != b ensures read[c] == pieces[c] {
        if cols[c].devidx == bad[0] { DevicesDistinct(io, b, c); }
      }
      FoldRebuilds(pieces, b);
      FoldSame(read, pieces, b, n);
    }
    assert repaired[1..] == pieces[1..];
  }

  lemma {:induction false} FlattenInjective(p: seq<seq<byte>>, q: seq<seq<byte>>)
    requires |p| == |q| && (forall c :: 0 <= c < |p| ==> |p[c]| == |q[c]|) && Flatten(p) == Flatten(q)
    ensures p == q
  {
    if p != [] {
      var n := |p| - 1;
      var front, front' := Flatten(p[..n]), Flatten(q[..n]);
      assert Flatten(p) == front + p[n] && Flatten(q) == front' + q[n];
      assert |p[n]| == |q[n]| && |front| == |front'|;
      assert front == Flatten(p)[..|front|] && front' == Flatten(q)[..|front|];
      assert p[n] == Flatten(p)[|front|..] && q[n] == Flatten(q)[|front|..];
      FlattenInjective(p[..n], q[..n]);
      assert p == p[..n] + [p[n]] && q == q[..n] + [q[n]];
    }
  }

  /** Without repair the payload comes back if and only if no data column was changed. */
  lemma UnrepairedIff(io: Io, payload: seq<byte>, disks: Disks, disks': Disks, bad: seq<nat>, lost: nat)
    requires io.Valid() && io.nparity == 1 && |payload| == DataSize(io) && io.Columns() >= 2
    requires Damaged(WriteAll(disks, io.Layout(), Encoded(io, payload), io.Columns()), disks', lost)
    ensures ReadBack(disks', io.Layout(), 1, bad, false) == payload
      <==> forall c :: 1 <= c < io.Columns() ==> Pieces(disks', io.Layout())[c] == Encoded(io, payload)[c]
  {
    var pieces, read := Encoded(io, payload), Pieces(disks', io.Layout());
    EncodedPieces(io, payload);
    forall c | 0 <= c < |pieces| ensures |read[c]| == |pieces[c]| {
      SurvivingColumn(io, payload, disks, disks', lost, c);
    }
    if Flatten(read[1..]) == payload {
      FlattenInjective(read[1..], pieces[1..]);
      forall c | 1 <= c < |pieces| ensures read[c] == pieces[c] {
        assert read[c] == read[1..][c - 1] && pieces[c] == pieces[1..][c - 1];
      }
    }
    if forall c :: 1 <= c < |pieces| ==> read[c] == pieces[c] {
      assert read[1..] == pieces[1..];
    }
  }

  // ----- which byte of which device -----

  lemma {:induction false} FlattenAt(pieces: seq<seq<byte>>, a: nat, c: nat, n: nat, k: nat)
    requires a <= c < n <= |pieces| && k < |pieces[c]|
    ensures |Flatten(pieces[a..c])| + k < |Flatten(pieces[a..n])|
    ensures Flatten(pieces[a..n])[|Flatten(pieces[a..c])| + k] == pieces[c][k]
    decreases n
  {
    FlattenLast(pieces, a, n);
    if c < n - 1 { FlattenAt(pieces, a, c, n - 1, k); }
  }

  lemma {:induction false} StartsWhereOthersEnd(io: Io, disks: Disks, c: nat)
    requires io.Valid() && io.Columns() >= 2 && io.nparity <= c <= io.Columns()
    ensures |Flatten(Pieces(disks, io.Layout())[io.nparity..c])| == Start(io, c)
    decreases c
  {
    var pieces := Pieces(disks, io.Layout());
    if c == io.nparity {
      assert pieces[c..c] == [];
      ColumnsAre(io);
      Tiling(io, c);
    } else {
      StartsWhereOthersEnd(io, disks, c - 1);
      FlattenLast(pieces, io.nparity, c);
      Tiling(io, c - 1);
      LayoutSize(io, c - 1);
    }
  }

  lemma NotRepaired(disks: Disks, cols: seq<Col>, first: nat, bad: seq<nat>)
    requires 1 <= |cols| && first <= |cols|
    ensures ReadBack(disks, cols, first, bad, false) == Flatten(Pieces(disks, cols)[first..])
  {
  }

  lemma ByteOfColumn(disks: Disks, cols: seq<Col>, c: nat, k: nat)
    requires c < |cols| && k < cols[c].size
    ensures Pieces(disks, cols)[c][k] == disks(cols[c].devidx, cols[c].offset + 4 * 1024 * 1024 + k)
  {
  }

  /** Without repair, the bytes that come back are those of the data columns, behind four megabytes of
      labels on each device. */
  lemma UnrepairedByte(io: Io, disks: Disks, bad: seq<nat>, c: nat, k: nat)
    requires io.Valid() && io.Columns() >= 2 && io.nparity <= c < io.Columns() && k < io.Layout()[c].size
    ensures var data := ReadBack(disks, io.Layout(), io.nparity, bad, false);
      Start(io, c) + k < |data|
      && data[Start(io, c) + k] == disks(io.Layout()[c].devidx, io.Layout()[c].offset + 4 * 1024 * 1024 + k)
  {
    var cols, n := io.Layout(), io.Columns();
    var pieces := Pieces(disks, cols);
    NotRepaired(disks, cols, io.nparity, bad);
    StartsWhereOthersEnd(io, disks, c);
    FlattenAt(pieces, io.nparity, c, n, k);
    assert pieces[io.nparity..n] == pieces[io.nparity..];
    ByteOfColumn(disks, cols, c, k);
  }
}
