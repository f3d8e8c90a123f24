/** The Python RAID-Z device: its map, its reads, and the repair of one bad disk. */
module RaidzDevice {
  import opened Arithmetic
  import opened Bytes
  import opened RaidzLayout
  import opened RaidzShape
  import opened RaidzRepair

  lemma FirstIsLongest(disks: Disks, io: Io)
    requires io.Valid()
    ensures io.Columns() >= 2
    ensures var pieces := Pieces(disks, io.Layout());
      forall c :: 0 <= c < |pieces| ==> |pieces[c]| <= |pieces[0]|
  {
    ColumnsAre(io);
    forall c: nat | c < io.Columns() ensures io.Layout()[c].size <= io.Layout()[0].size {
      LayoutSize(io, c);
      LayoutSize(io, 0);
    }
  }

  /** An exception, no data, or data. */
  datatype ReadResult = Raised | Nothing | Data(bytes: seq<byte>)

  datatype RaidzMap = RaidzMap(cols: seq<Col>, firstdatacol: nat, skipstart: nat)

  class RaidzDevice {
    const dcols: nat
    const nparity: nat
    const ashift: nat
    const bad: seq<nat>
    const repair: bool

    ghost predicate Valid() {
      1 <= nparity < dcols
    }

    constructor (dcols: nat, nparity: nat, ashift: nat, bad: seq<nat>, repair: bool)
      requires 1 <= nparity < dcols
      ensures Valid() && this.dcols == dcols && this.nparity == nparity && this.ashift == ashift
      ensures this.bad == bad && this.repair == repair
    {
      this.dcols, this.nparity, this.ashift := dcols, nparity, ashift;
      this.bad, this.repair := bad, repair;
    }

    function Transfer(offset: nat, size: nat): Io {
      Io(offset, size, ashift, dcols, nparity)
    }

    /** The loop over the columns that are accessed or skipped. */
    method DealColumns(f: nat, o: nat, q: nat, bc: nat, acols: nat, scols: nat, ghost io: Io) returns (cols: seq<Col>)
      requires Valid() && io == Transfer(io.offset, io.size)
      requires f == io.First() % dcols && o == io.First() / dcols * io.Unit()
      requires q == Quotient(io) && bc == BigColumns(io) && acols == io.Columns() <= scols <= dcols
      requires scols > 0 ==> io.Sectors() > 0
      ensures |cols| == acols
      ensures forall k :: 0 <= k < |cols| ==> cols[k] == io.Dealt(k)
    {
      var unit := Pow2(ashift);
      cols := [];
      for c := 0 to scols
        invariant |cols| == Min(c, acols)
        invariant forall k :: 0 <= k < |cols| ==> cols[k] == io.Dealt(k)
      {
        var col, coff := f + c, o;
        if col >= dcols {
          col := col - dcols;
          coff := coff + unit;
        }
        var size := if c >= acols then 0 else if c < bc then (q + 1) * unit else q * unit;
        Wrap(io, c);
        ColumnSize(io, c);
        if size > 0 {
          cols := cols + [Col(col, coff, size)];
        }
      }
    }

    /** _map_alloc; `None` is the index error for an empty map whose columns are to be swapped. */
    method MapAlloc(ioOffset: nat, ioSize: nat) returns (map': Option<RaidzMap>)
      requires Valid()
      ensures var io := Transfer(ioOffset, ioSize);
        && (map'.None? <==> io.Swapped() && io.Sectors() == 0)
        && (map'.Some? ==> (io.Swapped() ==> io.Columns() >= 2))
        && (map'.Some? ==> map'.value == RaidzMap(io.Layout(), nparity,
              if io.Swapped() && BigColumns(io) == 0 then 1 else BigColumns(io)))
        && (io.Sectors() > 0 ==> map'.Some? && StartInTurn(map'.value.cols, ioOffset, Pow2(ashift), dcols, nparity))
    {
      ghost var io := Transfer(ioOffset, ioSize);
      if io.Sectors() > 0 { LayoutStarts(io); }
      var f, o, q, bc := Shape(Transfer(ioOffset, ioSize));
      var acols, scols := Extent(Transfer(ioOffset, ioSize), q, bc);
      var skipstart := bc;
      var cols := DealColumns(f, o, q, bc, acols, scols, io);
      if !io.Swapped() || |cols| >= 2 { IsLayout(io, cols); }
      if nparity == 1 && ioOffset / 0x10_0000 % 2 == 1 {
        if |cols| < 2 {
          return None;
        }
        cols := SwapFirstTwo(cols);
        if skipstart == 0 {
          skipstart := 1;
        }
      }
      return Some(RaidzMap(cols, nparity, skipstart));
    }

    /** `_xor`: folds `d` into the buffer `p`. */
    static method FoldInto(p: array<byte>, d: seq<byte>)
      requires |d| <= p.Length
      modifies p
      ensures p[..] == XorInto(old(p[..]), d)
    {
      for i := 0 to |d|
        invariant forall k :: 0 <= k < i ==> p[k] == Xor(old(p[k]), d[k])
        invariant forall k :: i <= k < p.Length ==> p[k] == old(p[k])
      {
        p[i] := Xor(p[i], d[i]);
      }
    }

    /** `self._bp.readv`: the columns one after the other in one buffer. */
    method ReadV(disks: Disks, cols: seq<Col>) returns (data: seq<byte>)
      ensures data == Flatten(Pieces(disks, cols))
    {
      data := [];
      for c := 0 to |cols|
        invariant data == Flatten(Pieces(disks, cols)[..c])
      {
        FlattenLast(Pieces(disks, cols), 0, c + 1);
        data := data + ReadCol(disks, cols[c]);
      }
      assert Pieces(disks, cols)[..|cols|] == Pieces(disks, cols);
    }

    /** The buffer cut back into columns. */
    method Split(data: seq<byte>, cols: seq<Col>, ghost disks: Disks) returns (colData: seq<seq<byte>>)
      requires data == Flatten(Pieces(disks, cols))
      ensures colData == Pieces(disks, cols)
    {
      ghost var pieces := Pieces(disks, cols);
      var ptr := 0;
      colData := [];
      for c := 0 to |cols|
        invariant colData == pieces[..c] && ptr == |Flatten(pieces[..c])|
      {
        FlattenLast(pieces, 0, c + 1);
        FlattenPrefix(pieces, c + 1);
        assert data[..ptr + cols[c].size] == Flatten(pieces[..c]) + pieces[c];
        colData := colData + [data[ptr..ptr + cols[c].size]];
        ptr := ptr + cols[c].size;
      }
    }

    /** The column on the bad device, from the parity column and all the others. */
    method Rebuild(colData: seq<seq<byte>>, b: nat, size: nat) returns (column: seq<byte>)
      requires b < |colData| && size <= |colData[0]|
      requires forall c :: 0 <= c < |colData| ==> |colData[c]| <= |colData[0]|
      ensures column == Fold(colData, b, |colData|)[..size]
    {
      var parity := new byte[|colData[0]|]((i: nat) requires i < |colData[0]| => colData[0][i]);
      assert parity[..] == colData[0];
      for c := 1 to |colData|
        invariant parity[..] == Fold(colData, b, c)
      {
        if c != b {
          FoldInto(parity, colData[c]);
        }
      }
      column := parity[..size];
    }

    method RepairColumns(colData: seq<seq<byte>>, cols: seq<Col>) returns (r: seq<seq<byte>>)
      requires |colData| == |cols| && forall c :: 0 <= c < |cols| ==> |colData[c]| == cols[c].size <= |colData[0]|
      ensures r == if |cols| == 0 then [] else Repaired(colData, cols, bad, repair)
    {
      r := colData;
      if repair && |bad| > 0 && |cols| > 0 {
        if FirstOn(cols, bad[0], 1) < |cols| {
          var b := FirstOn(cols, bad[0], 0);
          var column := Rebuild(colData, b, cols[b].size);
          r := r[b := column];
        }
      }
    }

    method Assemble(colData: seq<seq<byte>>, firstdatacol: nat) returns (data: seq<byte>)
      ensures data == Flatten(colData[Min(firstdatacol, |colData|)..])
    {
      data := [];
      var first := Min(firstdatacol, |colData|);
      for c := first to |colData|
        invariant data == Flatten(colData[first..c])
      {
        FlattenLast(colData, first, c + 1);
        data := data + colData[c];
      }
      assert colData[first..|colData|] == colData[first..];
    }

    /** What _read_physical returns. */
    function Physical(disks: Disks, offset: nat, psize: nat): ReadResult
      requires Valid()
    {
      var io := Transfer(offset, psize);
      if offset > 8 * 1024 * 1024 * 1024 * 1024 then Nothing
      else if io.Sectors() == 0 then if io.Swapped() then Raised else Data([])
      else
        ColumnsAre(io);
        Data(ReadBack(disks, io.Layout(), nparity, bad, repair))
    }

    /** _read_physical, without debugging output and the parity check whose result is not used. */
    method ReadPhysical(disks: Disks, offset: nat, psize: nat) returns (r: ReadResult)
      requires Valid()
      ensures r == Physical(disks, offset, psize)
    {
      ghost var io := Transfer(offset, psize);
      if offset > 8 * 1024 * 1024 * 1024 * 1024 {
        return Nothing;
      }
      var m := MapAlloc(offset, psize);
      if io.Sectors() == 0 { NoColumns(io); } else { AllRows(io); ColumnsAre(io); }
      if m.None? {
        return Raised;
      }
      var cols, firstdatacol := m.value.cols, m.value.firstdatacol;
      var data := ReadV(disks, cols);
      var colData := Split(data, cols, disks);
      if |cols| > 0 { FirstIsLongest(disks, io); }
      colData := RepairColumns(colData, cols);
      var out := Assemble(colData, firstdatacol);
      return Data(out);
    }
  }

  /** Which byte of which device a read returns, in numbers: byte `k` of data column `c`, which starts at
      `Start(io, c)` in what is returned, lies at row `j / dcols` of device `j % dcols`. */
  lemma PhysicalByte(dev: RaidzDevice, disks: Disks, offset: nat, psize: nat, c: nat, k: nat)
    requires dev.Valid() && !dev.repair && offset <= 0x800_0000_0000 && psize / Pow2(dev.ashift) >= 1
    requires var io := dev.Transfer(offset, psize); dev.nparity <= c < io.Columns() && k < io.Dealt(c).size
    ensures var at, j := Start(dev.Transfer(offset, psize), c) + k,
        offset / Pow2(dev.ashift) + if dev.nparity == 1 && offset / 1048576 % 2 == 1 && c < 2 then 1 - c else c;
      match dev.Physical(disks, offset, psize)
      case Data(bytes) => at < |bytes|
        && bytes[at] == disks(j % dev.dcols, j / dev.dcols * Pow2(dev.ashift) + 0x40_0000 + k)
      case _ => false
  {
    var io := dev.Transfer(offset, psize);
    LayoutStarts(io);
    LayoutSize(io, c);
    UnrepairedByte(io, disks, dev.bad, c, k);
  }

  /** And when it returns none: above 8 TiB nothing, and for less than a sector no bytes or an exception. */
  lemma PhysicalFails(dev: RaidzDevice, disks: Disks, offset: nat, psize: nat)
    requires dev.Valid()
    ensures dev.Physical(disks, offset, psize).Nothing? <==> offset > 0x800_0000_0000
    ensures dev.Physical(disks, offset, psize).Raised? <==>
      offset <= 0x800_0000_0000 && psize < Pow2(dev.ashift) && dev.nparity == 1 && offset / 1048576 % 2 == 1
    ensures psize < Pow2(dev.ashift) && dev.Physical(disks, offset, psize).Data? ==>
      dev.Physical(disks, offset, psize) == Data([])
  {
    LessThanOne(psize, Pow2(dev.ashift));
  }

  lemma LessThanOne(n: nat, d: nat)
    requires d > 0
    ensures Div(n, d) == 0 <==> n < d
  {
    Division(n, d);
    Multiples(n / d, d);
  }
}
