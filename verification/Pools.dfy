/** A pool of many blocks: any number of transfers written one after the other, one disk lost, and every
    block, every tree of blocks and every file read as before. */
module Pools {
  import opened Arithmetic
  import opened Bytes
  import opened RaidzLayout
  import opened RaidzRepair

  // ----- transfers that do not meet -----

  /** What is written in one transfer. */
  datatype Write = Write(io: Io, stored: seq<byte>)

  ghost predicate Fits(w: Write, dcols: nat, ashift: nat) {
    w.io.Valid() && w.io.nparity == 1 && w.io.dcols == dcols && w.io.ashift == ashift && |w.stored| == DataSize(w.io)
  }

  ghost predicate AllFit(writes: seq<Write>, dcols: nat, ashift: nat) {
    forall k :: 0 <= k < |writes| ==> Fits(writes[k], dcols, ashift)
  }

  /** Their ranges of parent sectors do not meet. */
  ghost predicate Apart(x: Io, y: Io)
    requires x.nparity < x.dcols && y.nparity < y.dcols
  {
    x.First() + x.Total() <= y.First() || y.First() + y.Total() <= x.First()
  }

  /** Offset and size of a column are whole numbers of sectors. */
  lemma WholeSectors(io: Io, c: nat) returns (x: nat, r: nat)
    requires io.Valid()
    ensures io.Columns() >= 2
    ensures c < io.Columns() ==> io.Layout()[c].offset == x * io.Unit() && io.Layout()[c].size == r * io.Unit()
  {
    LayoutColumn(io, c % io.dcols);
    if c < io.Columns() {
      LayoutColumn(io, c);
      x, r := (io.First() + io.Deal(c)) / io.dcols, Rows(io.Total(), io.dcols, io.Deal(c));
    } else {
      x, r := 0, 0;
    }
  }

  /** Byte `i` of a column of `r` sectors lies in sector `i / unit` of them. */
  lemma SectorOfByte(x: nat, r: nat, unit: nat, i: nat)
    requires unit > 0 && i < r * unit
    ensures Div(r * unit, unit) == r && Div(x * unit, unit) == x
    ensures Div(i, unit) < r && Div(x * unit + i, unit) == x + Div(i, unit)
  {
    DivMod(r, unit, 0);
    DivMod(x, unit, 0);
    Division(i, unit);
    Distribute(unit, x, i / unit);
    DivMod(x + i / unit, unit, i % unit);
    if i / unit >= r { Scale(r, i / unit, unit); }
  }

  /** No byte belongs to columns of two transfers that do not meet. */
  lemma NoCommonByte(io: Io, io': Io, c: nat, c': nat, i: nat, i': nat)
    requires io.Valid() && io'.Valid() && io.dcols == io'.dcols && io.ashift == io'.ashift && Apart(io, io')
    requires io.Columns() >= 2 && io'.Columns() >= 2 && c < io.Columns() && c' < io'.Columns()
    requires i < io.Layout()[c].size && i' < io'.Layout()[c'].size
    requires io.Layout()[c].devidx == io'.Layout()[c'].devidx
    ensures io.Layout()[c].offset + i != io'.Layout()[c'].offset + i'
  {
    var unit, col, col' := io.Unit(), io.Layout()[c], io'.Layout()[c'];
    var x, r := WholeSectors(io, c);
    var x', r' := WholeSectors(io', c');
    SectorOfByte(x, r, unit, i);
    SectorOfByte(x', r', unit, i');
    if col.offset + i == col'.offset + i' {
      var j: nat, j': nat := Div(i, unit), Div(i', unit);
      assert Cell(col, unit, j) in Cells(io.Layout(), unit);
      assert Cell(col', unit, j') in Cells(io'.Layout(), unit);
      if io.First() + io.Total() <= io'.First() { DisjointTransfers(io, io'); } else { DisjointTransfers(io', io); }
    }
  }

  ghost predicate ColsApart(x: Col, y: Col) {
    || x.devidx != y.devidx || x.size == 0 || y.size == 0
    || x.offset + x.size <= y.offset || y.offset + y.size <= x.offset
  }

  lemma ColumnsApart(io: Io, io': Io, c: nat, c': nat)
    requires io.Valid() && io'.Valid() && io.dcols == io'.dcols && io.ashift == io'.ashift && Apart(io, io')
    requires io.Columns() >= 2 && io'.Columns() >= 2 && c < io.Columns() && c' < io'.Columns()
    ensures ColsApart(io.Layout()[c], io'.Layout()[c'])
  {
    var x, y := io.Layout()[c], io'.Layout()[c'];
    if !ColsApart(x, y) {
      if x.offset >= y.offset {
        NoCommonByte(io, io', c, c', 0, x.offset - y.offset);
      } else {
        NoCommonByte(io, io', c, c', y.offset - x.offset, 0);
      }
    }
  }

  // ----- writing them all -----

  /** One transfer, with its parity. */
  ghost function Put(disks: Disks, w: Write): Disks
    requires w.io.Valid() && |w.stored| == DataSize(w.io)
  {
    ColumnsAre(w.io);
    WriteAll(disks, w.io.Layout(), Encoded(w.io, w.stored), w.io.Columns())
  }

  ghost function PutAll(disks: Disks, writes: seq<Write>, dcols: nat, ashift: nat): Disks
    requires AllFit(writes, dcols, ashift)
  {
    if writes == [] then disks
    else Put(PutAll(disks, writes[..|writes| - 1], dcols, ashift), writes[|writes| - 1])
  }

  lemma WriteElsewhere(disks: Disks, x: Col, y: Col, piece: seq<byte>)
    requires ColsApart(x, y) && |piece| == y.size
    ensures ReadCol(WriteCol(disks, y, piece), x) == ReadCol(disks, x)
  {
  }

  /** Writing columns leaves alone a column that is apart from them. */
  lemma {:induction false} ColumnUntouched(disks: Disks, cols: seq<Col>, pieces: seq<seq<byte>>, n: nat, x: Col)
    requires n <= |cols| == |pieces|
    requires forall c :: 0 <= c < n ==> |pieces[c]| == cols[c].size && ColsApart(x, cols[c])
    ensures ReadCol(WriteAll(disks, cols, pieces, n), x) == ReadCol(disks, x)
  {
    if n > 0 {
      ColumnUntouched(disks, cols, pieces, n - 1, x);
      WriteElsewhere(WriteAll(disks, cols, pieces, n - 1), x, cols[n - 1], pieces[n - 1]);
    }
  }

  /** And so a transfer leaves alone what lies apart from it. */
  lemma PutElsewhere(disks: Disks, w: Write, io: Io, c: nat)
    requires w.io.Valid() && w.io.nparity == 1 && |w.stored| == DataSize(w.io)
    requires io.Valid() && io.dcols == w.io.dcols && io.ashift == w.io.ashift && Apart(io, w.io)
    requires io.Columns() >= 2 && c < io.Columns()
    ensures ReadCol(Put(disks, w), io.Layout()[c]) == ReadCol(disks, io.Layout()[c])
  {
    ColumnsAre(w.io);
    var cols, pieces := w.io.Layout(), Encoded(w.io, w.stored);
    EncodedPieces(w.io, w.stored);
    forall c' | 0 <= c' < |cols| ensures |pieces[c']| == cols[c'].size && ColsApart(io.Layout()[c], cols[c']) {
      ColumnsApart(io, w.io, c, c');
    }
    ColumnUntouched(disks, cols, pieces, |cols|, io.Layout()[c]);
  }

  /** What a transfer wrote can be read. */
  lemma PutIsRead(disks: Disks, w: Write, c: nat)
    requires w.io.Valid() && w.io.nparity == 1 && |w.stored| == DataSize(w.io)
    requires w.io.Columns() >= 2 && c < w.io.Columns()
    ensures ReadCol(Put(disks, w), w.io.Layout()[c]) == Encoded(w.io, w.stored)[c]
  {
    var cols := w.io.Layout();
    EncodedPieces(w.io, w.stored);
    forall l | 0 <= l < |cols| && cols[l].devidx == cols[c].devidx ensures l == c {
      DevicesDistinct(w.io, l, c);
    }
    WritesAreReadBack(disks, cols, Encoded(w.io, w.stored), |cols|, c);
  }

  /** Nothing written after transfer `k` meets it. */
  ghost predicate Live(writes: seq<Write>, k: nat, dcols: nat, ashift: nat)
    requires AllFit(writes, dcols, ashift)
  {
    k < |writes| && forall l :: k < l < |writes| ==> Apart(writes[k].io, writes[l].io)
  }

  lemma {:induction false} Kept(disks: Disks, writes: seq<Write>, k: nat, c: nat, dcols: nat, ashift: nat)
    requires AllFit(writes, dcols, ashift) && Live(writes, k, dcols, ashift)
    requires writes[k].io.Columns() >= 2 && c < writes[k].io.Columns()
    ensures ReadCol(PutAll(disks, writes, dcols, ashift), writes[k].io.Layout()[c])
         == Encoded(writes[k].io, writes[k].stored)[c]
    decreases |writes|
  {
    var n := |writes| - 1;
    var earlier := PutAll(disks, writes[..n], dcols, ashift);
    if k == n {
      PutIsRead(earlier, writes[n], c);
    } else {
      Kept(disks, writes[..n], k, c, dcols, ashift);
      PutElsewhere(earlier, writes[n], writes[k].io, c);
    }
  }

  /** Writing what is there already changes nothing. */
  lemma {:induction false} Rewrite(disks: Disks, cols: seq<Col>, pieces: seq<seq<byte>>, n: nat, device: nat,
      address: nat)
    requires n <= |cols| == |pieces| && forall c :: 0 <= c < n ==> ReadCol(disks, cols[c]) == pieces[c]
    ensures WriteAll(disks, cols, pieces, n)(device, address) == disks(device, address)
  {
    if n > 0 {
      Rewrite(disks, cols, pieces, n - 1, device, address);
      var i := address - cols[n - 1].offset - LABEL_SIZE;
      assert ReadCol(disks, cols[n - 1]) == pieces[n - 1];
      if device == cols[n - 1].devidx && 0 <= i < |pieces[n - 1]| {
        assert pieces[n - 1][i] == disks(device, cols[n - 1].offset + LABEL_SIZE + i);
      }
    }
  }
}
