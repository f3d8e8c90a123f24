/** The RAID-Z layout: where the sectors of one block lie on the disks. The reference is a deal of
    consecutive sectors, one to each disk in turn; the code gets there by quotient and remainder. */
module RaidzLayout {
  import opened Arithmetic
  import opened Bytes

  datatype Col = Col(devidx: nat, offset: nat, size: nat)

  function Min(a: nat, b: nat): nat { if a < b then a else b }

  function Div(x: nat, y: nat): nat
    requires y > 0
  {
    x / y
  }

  /** `((x + y - 1) // y) * y`. */
  function RoundUp(x: nat, y: nat): nat
    requires y > 0
  {
    ((x + y - 1) / y) * y
  }

  /** How many of `tot` sectors, dealt to `dcols` columns in turn, go to column `c`. */
  function Rows(tot: nat, dcols: nat, c: nat): nat
    requires c < dcols
  {
    if tot <= c then 0 else (tot - c - 1) / dcols + 1
  }

  /** One transfer: offset and size in bytes, sector size as a power of two, disks, parity. */
  datatype Io = Io(offset: nat, size: nat, ashift: nat, dcols: nat, nparity: nat) {
    ghost predicate Valid() {
      1 <= nparity < dcols && Sectors() >= 1
    }

    function Unit(): (u: nat)
      ensures u >= 1
    {
      Pow2(ashift)
    }

    function First(): nat { Div(offset, Unit()) }

    function Sectors(): nat { Div(size, Unit()) }

    /** The sectors it takes with parity: one parity sector for each row of data, for each level. */
    function Total(): nat
      requires nparity < dcols
    {
      Sectors() + nparity * ((Sectors() + (dcols - nparity) - 1) / (dcols - nparity))
    }

    /** Bit 20 of the offset: single parity changes places every megabyte. */
    predicate Swapped() { nparity == 1 && offset / 0x10_0000 % 2 == 1 }

    /** The columns before any swap. */
    function Dealt(c: nat): Col
      requires nparity < dcols && c < dcols
    {
      Col((First() + c) % dcols, (First() + c) / dcols * Unit(), Rows(Total(), dcols, c) * Unit())
    }

    function Columns(): nat
      requires nparity < dcols
    {
      Min(Total(), dcols)
    }

    function Layout(): (cols: seq<Col>)
      requires nparity < dcols && (Swapped() ==> Columns() >= 2)
      ensures |cols| == Columns()
    {
      var cols := seq(Columns(), c requires 0 <= c < dcols => Dealt(c));
      if Swapped() then SwapFirstTwo(cols) else cols
    }

    /** The parent sector in row `j` of column `c` of the deal. */
    function Parent(c: nat, j: nat): nat {
      First() + (c + j * dcols)
    }

    /** Which column of the deal column `c` is. */
    function Deal(c: nat): nat {
      if Swapped() && c <= 1 then 1 - c else c
    }
  }

  function SwapFirstTwo(cols: seq<Col>): seq<Col>
    requires |cols| >= 2
  {
    cols[0 := cols[0].(devidx := cols[1].devidx, offset := cols[1].offset)]
        [1 := cols[1].(devidx := cols[0].devidx, offset := cols[0].offset)]
  }

  // ----- arithmetic -----

  lemma RoundUpBounds(x: nat, y: nat)
    requires y > 0
    ensures x <= RoundUp(x, y) < x + y && RoundUp(x, y) % y == 0
    ensures x == 0 ==> RoundUp(x, y) == 0
  {
    var n := x + y - 1;
    assert n == n / y * y + n % y;
    DivMod(n / y, y, 0);
  }

  /** A deal of `q` full rounds and `bc` more. */
  lemma RowsAre(q: nat, bc: nat, dcols: nat, c: nat)
    requires bc < dcols && c < dcols
    ensures Rows(q * dcols + bc, dcols, c) == if c < bc then q + 1 else q
  {
    var tot := q * dcols + bc;
    if c < bc {
      DivMod(q, dcols, bc - c - 1);
    } else if q > 0 {
      assert tot - c - 1 == (q - 1) * dcols + (dcols + bc - c - 1);
      DivMod(q - 1, dcols, dcols + bc - c - 1);
    }
  }

  lemma RowsBound(tot: nat, dcols: nat, c: nat, j: nat)
    requires c < dcols
    ensures j < Rows(tot, dcols, c) <==> c + j * dcols < tot
  {
    if tot > c {
      var q, x := (tot - c - 1) / dcols, (tot - c - 1) % dcols;
      assert tot - c - 1 == q * dcols + x;
      Multiples(j - q, dcols);
      assert (j - q) * dcols == j * dcols - q * dcols;
      Multiples(q - j, dcols);
    }
  }

  lemma CeilIs(s: nat, d: nat)
    requires d > 0
    ensures (s + d - 1) / d == s / d + if s % d == 0 then 0 else 1
  {
    var q, r := s / d, s % d;
    assert s == q * d + r;
    if r == 0 {
      DivMod(q, d, d - 1);
    } else {
      assert s + d - 1 == (q + 1) * d + (r - 1);
      DivMod(q + 1, d, r - 1);
    }
  }

  lemma AddRounds(x: nat, j: nat, d: nat)
    requires d > 0
    ensures (x + j * d) % d == x % d && (x + j * d) / d == x / d + j
  {
    assert x + j * d == (x / d + j) * d + x % d;
    DivMod(x / d + j, d, x % d);
  }

  // ----- quotient and remainder -----

  /** The code's terms: `q` full rounds and `bc` columns with one sector more. */
  function Quotient(io: Io): nat
    requires io.nparity < io.dcols
  {
    io.Sectors() / (io.dcols - io.nparity)
  }

  function BigColumns(io: Io): (bc: nat)
    requires io.nparity < io.dcols
    ensures bc < io.dcols
  {
    var r := io.Sectors() % (io.dcols - io.nparity);
    if r == 0 then 0 else r + io.nparity
  }

  lemma TotalIs(io: Io)
    requires io.nparity < io.dcols
    ensures io.Total() == Quotient(io) * io.dcols + BigColumns(io)
    ensures io.Total() == io.Sectors() + io.nparity * (Quotient(io) + if BigColumns(io) == 0 then 0 else 1)
  {
    var s, d := io.Sectors(), io.dcols - io.nparity;
    var q, r := s / d, s % d;
    CeilIs(s, d);
    assert s == q * d + r;
    var k := if r == 0 then 0 else 1;
    assert io.nparity * (q + k) == io.nparity * q + io.nparity * k;
    assert q * d + io.nparity * q == q * io.dcols;
  }

  lemma ColumnsAre(io: Io)
    requires io.Valid()
    ensures io.Columns() == (if Quotient(io) == 0 then BigColumns(io) else io.dcols) >= 2
    ensures BigColumns(io) == 0 || BigColumns(io) >= io.nparity + 1
    ensures Quotient(io) == 0 ==> BigColumns(io) > 0
  {
    TotalIs(io);
    var q := Quotient(io);
    assert io.Sectors() == q * (io.dcols - io.nparity) + io.Sectors() % (io.dcols - io.nparity);
    if q >= 1 { assert q * io.dcols >= io.dcols; }
  }

  lemma NoColumns(io: Io)
    requires io.nparity < io.dcols && io.Sectors() == 0
    ensures io.Columns() == 0 && Quotient(io) == 0 && BigColumns(io) == 0
  {
    TotalIs(io);
  }

  lemma SizeIs(io: Io, c: nat)
    requires io.Valid() && c < io.dcols
    ensures Rows(io.Total(), io.dcols, c) == if c < BigColumns(io) then Quotient(io) + 1 else Quotient(io)
  {
    TotalIs(io);
    RowsAre(Quotient(io), BigColumns(io), io.dcols, c);
  }

  /** The swap only renumbers the columns of the deal, because the first two have the same size. */
  lemma LayoutColumn(io: Io, c: nat)
    requires io.Valid() && c < io.dcols
    ensures io.Columns() >= 2
    ensures c < io.Columns() ==> io.Deal(c) < io.Columns() && io.Layout()[c] == io.Dealt(io.Deal(c))
  {
    ColumnsAre(io);
    SizeIs(io, 0);
    SizeIs(io, 1);
  }

  lemma IsLayout(io: Io, cols: seq<Col>)
    requires io.nparity < io.dcols && |cols| == io.Columns() && (io.Swapped() ==> io.Columns() >= 2)
    requires forall k :: 0 <= k < |cols| ==> cols[k] == io.Dealt(k)
    ensures (if io.Swapped() then SwapFirstTwo(cols) else cols) == io.Layout()
  {
    assert cols == seq(io.Columns(), c requires 0 <= c < io.dcols => io.Dealt(c));
  }

  /** Where each column starts, in numbers: column `c` lies on device `(b + c) % dcols` from row
      `(b + c) / dcols` on, where `b` is the first parent sector; with single parity, in every second
      megabyte of the parent, columns 0 and 1 have changed places. */
  ghost predicate StartInTurn(cols: seq<Col>, offset: nat, unit: nat, dcols: nat, nparity: nat)
    requires unit > 0 && dcols > 0
  {
    forall c :: 0 <= c < |cols| ==>
      var k := offset / unit + if nparity == 1 && offset / 1048576 % 2 == 1 && c < 2 then 1 - c else c;
      cols[c].devidx == k % dcols && cols[c].offset == k / dcols * unit
  }

  lemma LayoutStarts(io: Io)
    requires io.Valid()
    ensures io.Columns() >= 2 && StartInTurn(io.Layout(), io.offset, Pow2(io.ashift), io.dcols, io.nparity)
  {
    LayoutColumn(io, 0);
    var odd := io.nparity == 1 && io.offset / 1048576 % 2 == 1;
    forall c | 0 <= c < |io.Layout()| ensures
      var k := io.offset / Pow2(io.ashift) + if odd && c < 2 then 1 - c else c;
      io.Layout()[c].devidx == k % io.dcols && io.Layout()[c].offset == k / io.dcols * Pow2(io.ashift)
    {
      LayoutColumn(io, c);
    }
  }

  // ----- the layout is a bijection onto consecutive sectors -----

  /** The place of parent sector `i`: device and row. */
  function Place(i: nat, dcols: nat): (nat, nat)
    requires dcols > 0
  {
    (i % dcols, i / dcols)
  }

  /** The places a column covers, one row after the other. */
  function Cell(col: Col, unit: nat, j: nat): (nat, nat)
    requires unit > 0
  {
    (col.devidx, Div(col.offset, unit) + j)
  }

  ghost function Cells(cols: seq<Col>, unit: nat): set<(nat, nat)>
    requires unit > 0
  {
    set c: nat, j: nat | c < |cols| && j < Div(cols[c].size, unit) :: Cell(cols[c], unit, j)
  }

  /** The places of parent sectors `b` to `b + tot - 1`. */
  ghost function Places(b: nat, tot: nat, dcols: nat): set<(nat, nat)>
    requires dcols > 0
  {
    set i: nat | b <= i < b + tot :: Place(i, dcols)
  }

  lemma PlaceInjective(i: nat, k: nat, dcols: nat)
    requires dcols > 0 && Place(i, dcols) == Place(k, dcols)
    ensures i == k
  {
    assert i == i / dcols * dcols + i % dcols;
    assert k == k / dcols * dcols + k % dcols;
  }

  /** Row `j` of column `c` of the deal is that parent sector. */
  lemma DealtCell(io: Io, c: nat, j: nat)
    requires io.Valid() && c < io.dcols
    ensures Div(io.Dealt(c).size, io.Unit()) == Rows(io.Total(), io.dcols, c)
    ensures Cell(io.Dealt(c), io.Unit(), j) == Place(io.Parent(c, j), io.dcols)
  {
    DivMod(Rows(io.Total(), io.dcols, c), io.Unit(), 0);
    DivMod((io.First() + c) / io.dcols, io.Unit(), 0);
    AddRounds(io.First() + c, j, io.dcols);
  }

  lemma CellIsSector(io: Io, c: nat, j: nat) returns (i: nat)
    requires io.Valid() && io.Columns() >= 2 && c < io.Columns() && j < Div(io.Layout()[c].size, io.Unit())
    ensures i == io.Parent(io.Deal(c), j) < io.First() + io.Total()
    ensures Cell(io.Layout()[c], io.Unit(), j) == Place(i, io.dcols)
  {
    LayoutColumn(io, c);
    DealtCell(io, io.Deal(c), j);
    RowsBound(io.Total(), io.dcols, io.Deal(c), j);
    i := io.Parent(io.Deal(c), j);
  }

  lemma SectorIsCell(io: Io, i: nat) returns (c: nat, j: nat)
    requires io.Valid() && io.First() <= i < io.First() + io.Total()
    ensures io.Columns() >= 2 && c < io.Columns() && j < Div(io.Layout()[c].size, io.Unit())
    ensures Cell(io.Layout()[c], io.Unit(), j) == Place(i, io.dcols)
  {
    var k := (i - io.First()) % io.dcols;
    j := (i - io.First()) / io.dcols;
    assert i - io.First() == j * io.dcols + k;
    LayoutColumn(io, 0);
    c := io.Deal(k);
    LayoutColumn(io, c);
    DealtCell(io, k, j);
    RowsBound(io.Total(), io.dcols, k, j);
  }

  /** Every sector of a contiguous range is covered, and no other. */
  lemma LayoutCells(io: Io)
    requires io.Valid()
    ensures io.Columns() >= 2 && Cells(io.Layout(), io.Unit()) == Places(io.First(), io.Total(), io.dcols)
  {
    LayoutColumn(io, 0);
    var cols, unit := io.Layout(), io.Unit();
    forall x | x in Cells(cols, unit) ensures x in Places(io.First(), io.Total(), io.dcols) {
      var c: nat, j: nat :| c < |cols| && j < Div(cols[c].size, unit) && x == Cell(cols[c], unit, j);
      var i := CellIsSector(io, c, j);
    }
    forall x | x in Places(io.First(), io.Total(), io.dcols) ensures x in Cells(cols, unit) {
      var i: nat :| io.First() <= i < io.First() + io.Total() && x == Place(i, io.dcols);
      var c, j := SectorIsCell(io, i);
      assert Cell(cols[c], unit, j) in Cells(cols, unit);
    }
  }

  /** Each of them is covered once. */
  lemma CellsDistinct(io: Io, c: nat, j: nat, c': nat, j': nat)
    requires io.Valid() && io.Columns() >= 2 && c < io.Columns() && c' < io.Columns()
    requires j < Div(io.Layout()[c].size, io.Unit()) && j' < Div(io.Layout()[c'].size, io.Unit())
    requires Cell(io.Layout()[c], io.Unit(), j) == Cell(io.Layout()[c'], io.Unit(), j')
    ensures c == c' && j == j'
  {
    var i := CellIsSector(io, c, j);
    var i' := CellIsSector(io, c', j');
    PlaceInjective(i, i', io.dcols);
    DivMod(j, io.dcols, io.Deal(c));
    DivMod(j', io.dcols, io.Deal(c'));
  }

  lemma SameResidue(b: nat, k: nat, k': nat, d: nat)
    requires k < d && k' < d && (b + k) % d == (b + k') % d
    ensures k == k'
  {
    assert b + k == (b + k) / d * d + (b + k) % d;
    assert b + k' == (b + k') / d * d + (b + k') % d;
    var z := (b + k) / d - (b + k') / d;
    assert z * d == k - k';
    Multiples(z, d);
  }

  /** The columns of one transfer lie on different devices. */
  lemma DevicesDistinct(io: Io, c: nat, c': nat)
    requires io.Valid() && io.Columns() >= 2 && c < io.Columns() && c' < io.Columns()
    requires io.Layout()[c].devidx == io.Layout()[c'].devidx
    ensures c == c'
  {
    LayoutColumn(io, c);
    LayoutColumn(io, c');
    SameResidue(io.First(), io.Deal(c), io.Deal(c'), io.dcols);
  }

  /** Transfers whose ranges of parent sectors do not meet share no sector of any device. */
  lemma DisjointTransfers(io: Io, io': Io)
    requires io.Valid() && io'.Valid() && io.dcols == io'.dcols && io.ashift == io'.ashift
    requires io.First() + io.Total() <= io'.First()
    ensures io.Columns() >= 2 && io'.Columns() >= 2
    ensures Cells(io.Layout(), io.Unit()) !! Cells(io'.Layout(), io.Unit())
  {
    LayoutCells(io);
    LayoutCells(io');
    forall x | x in Places(io.First(), io.Total(), io.dcols)
      ensures x !in Places(io'.First(), io'.Total(), io.dcols)
    {
      var i: nat :| io.First() <= i < io.First() + io.Total() && x == Place(i, io.dcols);
      if x in Places(io'.First(), io'.Total(), io.dcols) {
        var k: nat :| io'.First() <= k < io'.First() + io'.Total() && x == Place(k, io.dcols);
        PlaceInjective(i, k, io.dcols);
        assert false;
      }
    }
  }

  // ----- the data columns hold the data, in order -----

  /** The rows of data in the data columns before column `c`. */
  function RowsBefore(io: Io, c: nat): nat
    requires io.nparity < io.dcols && c <= io.dcols
  {
    if c <= io.nparity then 0 else RowsBefore(io, c - 1) + Rows(io.Total(), io.dcols, c - 1)
  }

  lemma {:induction false} RowsBeforeAre(io: Io, c: nat)
    requires io.Valid() && io.nparity <= c <= io.dcols
    ensures RowsBefore(io, c) == (c - io.nparity) * Quotient(io) +
      if BigColumns(io) == 0 then 0 else Min(c, BigColumns(io)) - io.nparity
    decreases c
  {
    ColumnsAre(io);
    if c > io.nparity {
      RowsBeforeAre(io, c - 1);
      SizeIs(io, c - 1);
      assert (c - io.nparity) * Quotient(io) == (c - 1 - io.nparity) * Quotient(io) + Quotient(io);
    }
  }

  lemma AllRows(io: Io)
    requires io.Valid()
    ensures io.nparity < io.Columns() && RowsBefore(io, io.Columns()) == io.Sectors()
  {
    ColumnsAre(io);
    RowsBeforeAre(io, io.Columns());
    var q, r := QuotientAndRemainder(io.Sectors(), io.dcols - io.nparity);
    assert q == Quotient(io);
    if q == 0 {
      assert io.Columns() == BigColumns(io);
    } else {
      assert io.Columns() == io.dcols;
    }
  }

  lemma QuotientAndRemainder(s: nat, d: nat) returns (q: nat, r: nat)
    requires d > 0
    ensures q == s / d && r == s % d && s == d * q + r
  {
    q, r := s / d, s % d;
  }
}
