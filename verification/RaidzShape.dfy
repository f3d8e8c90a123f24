/** The quotient-and-remainder computation that both maps start from. */
module RaidzShape {
  import opened Arithmetic
  import opened Bytes
  import opened RaidzLayout

  lemma WrapAt(b: nat, d: nat, c: nat)
    requires c < d
    ensures var col, row := b % d + c, b / d;
      && (b + c) % d == (if col >= d then col - d else col)
      && (b + c) / d == (if col >= d then row + 1 else row)
  {
    var col, row := b % d + c, b / d;
    Division(b, d);
    if col >= d {
      Distribute(d, row, 1);
      QuotientIs(b + c, row + 1, d, col - d);
    } else {
      QuotientIs(b + c, row, d, col);
    }
  }

  /** `f + c`, wrapped once, as the code finds a column's device and row. */
  lemma Wrap(io: Io, c: nat)
    requires io.nparity < io.dcols && c < io.dcols
    ensures var col, row := io.First() % io.dcols + c, io.First() / io.dcols;
      && (io.First() + c) % io.dcols == (if col >= io.dcols then col - io.dcols else col)
      && (io.First() + c) / io.dcols * io.Unit() == row * io.Unit() + if col >= io.dcols then io.Unit() else 0
  {
    WrapAt(io.First(), io.dcols, c);
    Distribute(io.Unit(), io.First() / io.dcols, 1);
  }

  /** A column of the transfer has the size the code gives it. */
  lemma ColumnSize(io: Io, c: nat)
    requires io.Valid() && c < io.dcols
    ensures io.Dealt(c).size == (if c < BigColumns(io) then Quotient(io) + 1 else Quotient(io)) * io.Unit()
    ensures c < io.Columns() <==> io.Dealt(c).size > 0
  {
    SizeIs(io, c);
    ColumnsAre(io);
    Multiples(Rows(io.Total(), io.dcols, c), io.Unit());
  }

  /** The first device and row, the quotient, and the number of big columns. */
  method Shape(io: Io) returns (f: nat, o: nat, q: nat, bc: nat)
    requires io.nparity < io.dcols
    ensures f == io.First() % io.dcols && o == io.First() / io.dcols * io.Unit()
    ensures q == Quotient(io) && bc == BigColumns(io)
  {
    var unit := Pow2(io.ashift);
    var b, s := Div(io.offset, unit), Div(io.size, unit);
    f := b % io.dcols;
    o := b / io.dcols * unit;
    q := s / (io.dcols - io.nparity);
    Division(s, io.dcols - io.nparity);
    var r := s - q * (io.dcols - io.nparity);
    bc := if r != 0 then r + io.nparity else 0;
  }

  lemma WholeRows(q: nat, d: nat, bc: nat)
    requires q >= 1
    ensures q * d + bc >= d
  {
    Multiples(q, if d > 0 then d else 1);
  }

  /** All sectors rounded up to whole groups, in the code's terms. */
  lemma Rounded(io: Io)
    requires 1 <= io.nparity < io.dcols
    ensures Min(io.dcols, RoundUp(io.Total(), io.nparity + 1))
         == if Quotient(io) == 0 then Min(io.dcols, RoundUp(BigColumns(io), io.nparity + 1)) else io.dcols
  {
    TotalIs(io);
    RoundUpBounds(io.Total(), io.nparity + 1);
    if Quotient(io) > 0 { WholeRows(Quotient(io), io.dcols, BigColumns(io)); }
  }

  /** The columns that are accessed, and those that are accessed or skipped. */
  method Extent(io: Io, q: nat, bc: nat) returns (acols: nat, scols: nat)
    requires 1 <= io.nparity < io.dcols && q == Quotient(io) && bc == BigColumns(io)
    ensures acols == io.Columns() <= scols <= io.dcols
    ensures scols == Min(io.dcols, RoundUp(io.Total(), io.nparity + 1))
    ensures scols > 0 <==> io.Sectors() > 0
    ensures io.Sectors() > 0 ==> acols >= 2
  {
    if io.Sectors() > 0 { ColumnsAre(io); } else { NoColumns(io); }
    Rounded(io);
    if q == 0 {
      acols := bc;
      var whole := RoundUp(bc, io.nparity + 1);
      assert bc <= whole && (bc == 0 ==> whole == 0) by { RoundUpBounds(bc, io.nparity + 1); }
      scols := Min(io.dcols, whole);
    } else {
      acols := io.dcols;
      scols := io.dcols;
    }
  }
}
