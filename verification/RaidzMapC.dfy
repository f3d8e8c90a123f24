/** The C map: general parity, an array of columns filled in place, and slices of the I/O buffer. Its
    ASSERTs are asserts here. */
module RaidzMapC {
  import opened Arithmetic
  import opened Bytes
  import opened RaidzLayout
  import opened RaidzRepair
  import opened RaidzShape

  /** The buffer of a column: none yet, one of its own, or a slice of the I/O buffer. */
  datatype Abd = NoAbd | Linear(size: nat) | Slice(offset: nat, size: nat)

  datatype RaidzCol = RaidzCol(col: Col, abd: Abd)

  /** raidz_map_t, after malloc. */
  class RaidzMapT {
    var cols: nat
    var scols: nat
    var bigcols: nat
    var skipstart: nat
    var firstdatacol: nat
    var asize: nat
    var nskip: nat
    const col: array<RaidzCol>

    constructor (scols: nat)
      ensures this.scols == scols == col.Length && fresh(col)
    {
      this.scols := scols;
      cols, bigcols, skipstart, firstdatacol, asize, nskip := 0, 0, 0, 0, 0, 0;
      col := new RaidzCol[scols](_ => RaidzCol(Col(0, 0, 0), NoAbd));
    }

    /** The columns that are read or written. */
    ghost function Accessed(): seq<Col>
      requires cols <= col.Length
      reads this, col
    {
      var all := col[..];
      seq(cols, c requires 0 <= c < |all| => all[c].col)
    }
  }

  // ----- the ASSERTs -----

  lemma ScaleSum(k: nat, y: nat, r: nat, unit: nat)
    ensures (k * y + r) * unit == k * (y * unit) + r * unit
  {
  }

  lemma DivScales(n: nat, y: nat, unit: nat)
    requires y > 0 && unit > 0
    ensures y * unit > 0 && (n * unit + (unit - 1)) / (y * unit) == n / y
  {
    var k, r := n / y, n % y;
    assert n == k * y + r;
    ScaleSum(k, y, r, unit);
    Scale(r + 1, y, unit);
    assert (r + 1) * unit == r * unit + unit;
    DivMod(k, y * unit, r * unit + (unit - 1));
  }

  lemma RoundUpScales(x: nat, y: nat, unit: nat)
    requires y > 0 && unit > 0
    ensures y * unit > 0 && RoundUp(x * unit, y * unit) == RoundUp(x, y) * unit
  {
    var n := x + y - 1;
    DivScales(n, y, unit);
    assert n * unit + (unit - 1) == x * unit + y * unit - 1;
    ScaleSum(n / y, y, 0, unit);
  }

  /** The rows in columns 0 to `c - 1`, accessed or not. */
  function RowsUpTo(io: Io, c: nat): nat
    requires io.nparity < io.dcols && c <= io.dcols
  {
    if c == 0 then 0 else RowsUpTo(io, c - 1) + Rows(io.Total(), io.dcols, c - 1)
  }

  lemma {:induction false} RowsUpToAre(io: Io, c: nat)
    requires io.Valid() && c <= io.dcols
    ensures RowsUpTo(io, c) == c * Quotient(io) + Min(c, BigColumns(io))
  {
    if c > 0 {
      RowsUpToAre(io, c - 1);
      SizeIs(io, c - 1);
      ScaleSum(1, c - 1, 1, Quotient(io));
    }
  }

  /** The sizes add up to everything: `asize == tot << ashift`. */
  lemma SizesAddUp(io: Io, scols: nat)
    requires io.Valid() && io.Columns() <= scols <= io.dcols
    ensures RowsUpTo(io, scols) == io.Total()
  {
    RowsUpToAre(io, scols);
    ColumnsAre(io);
    TotalIs(io);
    var q, bc := Quotient(io), BigColumns(io);
    if q == 0 {
      assert RowsUpTo(io, scols) == bc;
    } else {
      assert RowsUpTo(io, scols) == io.dcols * q + bc == q * io.dcols + bc;
    }
  }

  method Fill(io: Io, rm: RaidzMapT, f: nat, o: nat, q: nat, bc: nat, acols: nat) returns (asize: nat)
    requires io.Valid() && acols == io.Columns() <= rm.col.Length <= io.dcols
    requires f == io.First() % io.dcols && o == io.First() / io.dcols * io.Unit()
    requires q == Quotient(io) && bc == BigColumns(io)
    modifies rm.col
    ensures asize == io.Total() * io.Unit()
    ensures forall c :: 0 <= c < rm.col.Length ==> rm.col[c] == RaidzCol(io.Dealt(c), NoAbd)
  {
    var unit := Pow2(io.ashift);
    asize := 0;
    for c := 0 to rm.col.Length
      invariant asize == RowsUpTo(io, c) * unit
      invariant forall k :: 0 <= k < c ==> rm.col[k] == RaidzCol(io.Dealt(k), NoAbd)
    {
      var col, coff := f + c, o;
      if col >= io.dcols {
        col := col - io.dcols;
        coff := coff + unit;
      }
      var size := if c >= acols then 0 else if c < bc then (q + 1) * unit else q * unit;
      Wrap(io, c);
      ColumnSize(io, c);
      rm.col[c] := RaidzCol(Col(col, coff, size), NoAbd);
      Scale(RowsUpTo(io, c), RowsUpTo(io, c + 1), unit);
      asize := asize + size;
    }
    SizesAddUp(io, rm.col.Length);
  }

  /** Columns 0 to `done - 1` have their buffers: parity columns one of their own, data columns
      consecutive slices of the I/O buffer. */
  function BufferOf(io: Io, c: nat, done: nat): Abd
    requires io.nparity < io.dcols && c < io.dcols
  {
    if c >= done then NoAbd
    else if c < io.nparity then Linear(io.Dealt(c).size)
    else Slice(Start(io, c), io.Dealt(c).size)
  }

  ghost predicate Attached(io: Io, rm: RaidzMapT, done: nat)
    requires io.nparity < io.dcols
    reads rm.col
  {
    rm.col.Length <= io.dcols &&
    forall c :: 0 <= c < rm.col.Length ==> rm.col[c] == RaidzCol(io.Dealt(c), BufferOf(io, c, done))
  }

  method AttachParity(io: Io, rm: RaidzMapT)
    requires io.Valid() && io.nparity < rm.col.Length && Attached(io, rm, 0)
    modifies rm.col
    ensures Attached(io, rm, io.nparity)
  {
    for c := 0 to io.nparity
      invariant Attached(io, rm, c)
    {
      rm.col[c] := rm.col[c].(abd := Linear(rm.col[c].col.size));
    }
  }

  method AttachData(io: Io, rm: RaidzMapT, acols: nat)
    requires io.Valid() && io.nparity < acols == io.Columns() <= rm.col.Length && Attached(io, rm, io.nparity)
    modifies rm.col
    ensures Attached(io, rm, acols)
  {
    var c := io.nparity;
    Tiling(io, c);
    rm.col[c] := rm.col[c].(abd := Slice(0, rm.col[c].col.size));
    var off := rm.col[c].col.size;
    c := c + 1;
    while c < acols
      invariant io.nparity < c <= acols && off == Start(io, c)
      invariant Attached(io, rm, c)
    {
      Tiling(io, c);
      rm.col[c] := rm.col[c].(abd := Slice(off, rm.col[c].col.size));
      off := off + rm.col[c].col.size;
      c := c + 1;
    }
  }

  /** `rm_asize` and `rm_nskip`. */
  method Pad(io: Io, asize: nat) returns (rounded: nat, nskip: nat)
    requires io.Valid() && asize == io.Total() * io.Unit()
    ensures rounded - asize == nskip * io.Unit()
    ensures nskip <= io.nparity && (io.Total() + nskip) % (io.nparity + 1) == 0
  {
    var tot, step := io.Total(), io.nparity + 1;
    RoundUpScales(tot, step, io.Unit());
    RoundUpBounds(tot, step);
    Scale(tot, RoundUp(tot, step), io.Unit());
    rounded := RoundUp(asize, step * io.Unit());
    nskip := RoundUp(tot, step) - tot;
  }

  lemma FirstTwoSame(io: Io)
    requires io.Valid()
    ensures io.dcols >= 2 && io.Dealt(0).size == io.Dealt(1).size
  {
    ColumnsAre(io);
    ColumnSize(io, 0);
    ColumnSize(io, 1);
  }

  /** The columns past the last accessed one are empty. */
  lemma SkippedAreEmpty(io: Io, c: nat)
    requires io.Valid() && io.Columns() <= c < io.dcols
    ensures io.Dealt(c).size == 0
  {
    ColumnSize(io, c);
  }

  /** The places of columns 0 and 1 change, not their sizes and buffers. */
  method Swap(io: Io, rm: RaidzMapT)
    requires io.Valid() && 2 <= io.Columns() <= rm.col.Length && Attached(io, rm, io.Columns())
    requires io.Dealt(0).size == io.Dealt(1).size
    modifies rm.col
    ensures rm.col[0].col.size == rm.col[1].col.size
    ensures forall c :: 0 <= c < io.Columns() ==> rm.col[c] == RaidzCol(io.Layout()[c], BufferOf(io, c, io.Columns()))
    ensures forall c :: io.Columns() <= c < rm.col.Length ==> rm.col[c].col.size == 0 && rm.col[c].abd == NoAbd
  {
    forall c | io.Columns() <= c < rm.col.Length ensures io.Dealt(c).size == 0 {
      SkippedAreEmpty(io, c);
    }
    ghost var dealt := seq(io.Columns(), c requires 0 <= c < io.dcols => io.Dealt(c));
    IsLayout(io, dealt);
    if io.nparity == 1 && io.offset / 0x10_0000 % 2 == 1 {
      var devidx, offset := rm.col[0].col.devidx, rm.col[0].col.offset;
      rm.col[0] := rm.col[0].(col := rm.col[0].col.(devidx := rm.col[1].col.devidx, offset := rm.col[1].col.offset));
      rm.col[1] := rm.col[1].(col := rm.col[1].col.(devidx := devidx, offset := offset));
    }
  }

  /** vdev_raidz_map_alloc. */
  method MapAlloc(io: Io) returns (rm: RaidzMapT)
    requires io.Valid()
    ensures fresh(rm) && fresh(rm.col)
    ensures 2 <= io.Columns() == rm.cols <= rm.scols == rm.col.Length <= io.dcols
    ensures forall c :: 0 <= c < rm.cols ==> rm.col[c] == RaidzCol(io.Layout()[c], BufferOf(io, c, rm.cols))
    ensures forall c :: rm.cols <= c < rm.scols ==> rm.col[c].col.size == 0 && rm.col[c].abd == NoAbd
    ensures StartInTurn(rm.Accessed(), io.offset, Pow2(io.ashift), io.dcols, io.nparity)
    ensures rm.col[0].col.size == rm.col[1].col.size
    ensures rm.bigcols == BigColumns(io) && rm.firstdatacol == io.nparity
    ensures rm.skipstart == if io.Swapped() && BigColumns(io) == 0 then 1 else BigColumns(io)
    ensures rm.asize - io.Total() * io.Unit() == rm.nskip * io.Unit()
    ensures rm.nskip <= io.nparity && (io.Total() + rm.nskip) % (io.nparity + 1) == 0
  {
    LayoutStarts(io);
    var f, o, q, bc := Shape(io);
    var acols, scols := Extent(io, q, bc);
    assert acols <= scols;
    rm := new RaidzMapT(scols);
    rm.cols, rm.bigcols, rm.skipstart, rm.firstdatacol := acols, bc, bc, io.nparity;
    var asize := Fill(io, rm, f, o, q, bc, acols);
    rm.asize, rm.nskip := Pad(io, asize);
    AllRows(io);
    AttachParity(io, rm);
    AttachData(io, rm, acols);
    assert rm.cols >= 2;
    FirstTwoSame(io);
    assert rm.col[0].col.size == rm.col[1].col.size;
    Swap(io, rm);
    if io.nparity == 1 && io.offset / 0x10_0000 % 2 == 1 && rm.skipstart == 0 {
      rm.skipstart := 1;
    }
    assert rm.Accessed() == io.Layout();
  }
}
