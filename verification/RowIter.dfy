/** From columns back to rows: the frame's row iterator (rowiter.go). */
module RowIter {
  import opened Wrappers
  import opened Values
  import opened Columns
  import opened Frames
  import opened Decimal
  import opened RowBuilder

  datatype IterError = DuplicateName(name: string) | ReadFailure(ColumnError)

  // --- Specification ----------------------------------------------------------------------------

  /** The name under which column `i` appears in a row: unnamed columns get a made-up one. */
  function RowName(prefix: string, i: nat, name: string): string {
    if name == "" then prefix + FormatInt(i) else name
  }

  function NamesOf(prefix: string, vs: seq<ColVal>): seq<string> {
    seq(|vs|, i requires 0 <= i < |vs| => RowName(prefix, i, vs[i].name))
  }

  /** The data columns are looked up by name: of several with the same name, that is the last. */
  function LastNamed(vs: seq<ColVal>, name: string): (i: int)
    ensures -1 <= i < |vs|
    ensures i >= 0 ==> vs[i].name == name
    ensures forall j :: i < j < |vs| ==> vs[j].name != name
  {
    LastWhere(vs, (v: ColVal) => v.name == name)
  }

  predicate IsLastNamed(cols: seq<ColVal>, k: nat, name: string) {
    k < |cols| && cols[k].name == name && forall d :: k < d < |cols| ==> cols[d].name != name
  }

  function Resolved(vs: seq<ColVal>): (rs: seq<ColVal>)
    ensures |rs| == |vs|
  {
    seq(|vs|, i requires 0 <= i < |vs| =>
      var k := LastNamed(vs, vs[i].name); if k >= 0 then vs[k] else vs[i])
  }

  function IterNames(f: FrameVal, includeIndex: bool): seq<string> {
    NamesOf("col-", f.columns) + (if includeIndex then NamesOf("index-", f.indices) else [])
  }

  function IterCols(f: FrameVal, includeIndex: bool): (cs: seq<ColVal>)
    ensures |cs| == |IterNames(f, includeIndex)|
  {
    Resolved(f.columns) + (if includeIndex then f.indices else [])
  }

  /** The names in a row: a column's own, or a made-up one with its number on its side. */
  lemma NamesInRow(f: FrameVal, includeIndex: bool, i: nat)
    requires i < |IterNames(f, includeIndex)|
    ensures var n := |f.columns|;
      IterNames(f, includeIndex)[i] ==
        if i < n then (if f.columns[i].name == "" then "col-" + FormatInt(i) else f.columns[i].name)
        else if f.indices[i - n].name == "" then "index-" + FormatInt(i - n) else f.indices[i - n].name
  {
    hide FormatInt;
  }

  predicate Distinct(names: seq<string>) {
    forall i, j :: 0 <= i < j < |names| ==> names[i] != names[j]
  }

  /** Row `r`, filled in from the first `k` columns. */
  function RowUpTo(names: seq<string>, cols: seq<ColVal>, r: nat, k: nat): Row
    requires k <= |names| == |cols| && forall i :: 0 <= i < |cols| ==> r < |cols[i].cells|
  {
    if k == 0 then map[] else RowUpTo(names, cols, r, k - 1)[names[k - 1] := cols[k - 1].cells[r].ToValue()]
  }

  ghost predicate IsRowOf(f: FrameVal, includeIndex: bool, r: nat, row: Row) {
    var names, cols := IterNames(f, includeIndex), IterCols(f, includeIndex);
    (forall i :: 0 <= i < |cols| ==> r < |cols[i].cells|) && row == RowUpTo(names, cols, r, |cols|)
  }

  /** With distinct names a row has one entry per column, and it is that column's. */
  lemma {:induction false} RowEntries(names: seq<string>, cols: seq<ColVal>, r: nat, k: nat)
    requires k <= |names| == |cols| && (forall i :: 0 <= i < |cols| ==> r < |cols[i].cells|) && Distinct(names)
    ensures var row := RowUpTo(names, cols, r, k);
            && (forall i :: 0 <= i < k ==> names[i] in row && row[names[i]] == cols[i].cells[r].ToValue())
            && (forall name :: name in row ==> exists i :: 0 <= i < k && names[i] == name)
  {
    if k > 0 {
      RowEntries(names, cols, r, k - 1);
    }
  }

  /** Without duplicate names, columns are read from their own data exactly if at most one has no name. */
  lemma ResolvedIsIdentity(vs: seq<ColVal>)
    requires Distinct(NamesOf("col-", vs))
    ensures (forall i :: 0 <= i < |vs| ==> LastNamed(vs, vs[i].name) == i) <==>
            (forall i, j :: 0 <= i < j < |vs| ==> vs[i].name != "" || vs[j].name != "")
    ensures (forall i, j :: 0 <= i < j < |vs| ==> vs[i].name != "" || vs[j].name != "") ==> Resolved(vs) == vs
  {
    hide LastNamed, FormatInt;
    var names := NamesOf("col-", vs);
    if i, j :| 0 <= i < j < |vs| && vs[i].name == "" == vs[j].name {
      assert LastNamed(vs, vs[i].name) >= j;
    } else {
      forall i | 0 <= i < |vs| ensures LastNamed(vs, vs[i].name) == i {
        var k := LastNamed(vs, vs[i].name);
        assert i <= k && vs[k].name == vs[i].name;
        assert vs[i].name != "" ==> names[i] == names[k];
      }
    }
  }

  // --- The iterator -------------------------------------------------------------------------------

  /** No column's time cache is out of date, so that no read can panic. */
  ghost predicate Readable(columns: seq<Column>)
    reads columns
  {
    forall i :: 0 <= i < |columns| ==> columns[i].times.Some? ==> |columns[i].times.value| == columns[i].Len()
  }

  /** What no column of strings needs. */
  const UNUSED := Formats(_ => "", _ => "")

  /** Reads one cell through the accessor of the column's dtype. */
  function ReadValue(col: Column, i: nat): (v: Value)
    requires col.Valid() && i < col.Len() && Readable([col])
    reads col
    ensures v == col.Cells()[i].ToValue()
  {
    assert [col][0].Valid() && (col.times.Some? ==> |col.times.value| == col.Len()) by {
      assert [col][0] == col;
    }
    col.SlotHoldsCell(i);
    match col.dtype
    case IntType => Int(KInt64, col.IntAt(i).value)
    case FloatType => Float64(col.FloatAt(i).value)
    case StringType => Str(col.StringAt(UNUSED, i).value)
    case TimeType => TimeVal(col.TimeAt(i).value)
    case BoolType => Bool(col.BoolAt(i).value)
  }

  class RowIterator {
    const frame: Frame
    const includeIndex: bool
    var started: bool
    var noNames: map<int, string>
    var columns: seq<Column>
    var err: Option<IterError>
    var row: Row
    var rowNum: nat

    constructor (frame: Frame, includeIndex: bool)
      ensures this.frame == frame && this.includeIndex == includeIndex
      ensures !started && err == None && rowNum == 0
    {
      this.frame, this.includeIndex := frame, includeIndex;
      started, noNames, columns, err, row, rowNum := false, map[], [], None, map[], 0;
    }

    ghost predicate FrameOk()
      reads frame.columns, frame.indices
    {
      frame.Valid() && Readable(frame.columns) && Readable(frame.indices)
    }

    function Size(): nat {
      |frame.columns| + if includeIndex then |frame.indices| else 0
    }

    ghost function Names(): (names: seq<string>)
      requires FrameOk()
      reads frame.columns, frame.indices
      ensures |names| == Size()
    {
      IterNames(frame.View(), includeIndex)
    }

    ghost function Cols(): (cols: seq<ColVal>)
      requires FrameOk()
      reads frame.columns, frame.indices
      ensures |cols| == Size()
    {
      IterCols(frame.View(), includeIndex)
    }

    /** What `init` has set up: the columns in row order, and names for those without one. */
    ghost predicate SetUpWith(cols: seq<Column>, noNames': map<int, string>)
      requires FrameOk()
      reads frame.columns, frame.indices, cols
    {
      && |cols| == Size()
      && (forall i :: 0 <= i < |cols| ==> cols[i] in frame.columns + frame.indices)
      && (forall i :: 0 <= i < |cols| ==> cols[i].Valid() && cols[i].View() == Cols()[i])
      && (forall i :: 0 <= i < |cols| && cols[i].name == "" ==> i in noNames' && noNames'[i] == Names()[i])
      && (forall i :: 0 <= i < |cols| && cols[i].name != "" ==> cols[i].name == Names()[i])
    }

    ghost predicate Valid()
      reads this, frame.columns, frame.indices, columns
    {
      && FrameOk()
      && (started ==> (err.Some? <==> !Distinct(Names())))
      && (started && err.None? ==> SetUpWith(columns, noNames))
      && (err.Some? ==> started)
    }

    /** The first `n` columns have been collected, under different names. */
    ghost predicate Collected(cols: seq<Column>, noNames': map<int, string>, names: set<string>, n: nat)
      requires FrameOk()
      reads frame.columns, frame.indices, cols
    {
      && |cols| == n <= Size()
      && (forall i :: 0 <= i < n ==> cols[i] in frame.columns + frame.indices)
      && (forall i :: 0 <= i < n ==> cols[i].Valid() && cols[i].View() == Cols()[i])
      && (forall i :: 0 <= i < n && cols[i].name == "" ==> i in noNames' && noNames'[i] == Names()[i])
      && (forall i :: 0 <= i < n && cols[i].name != "" ==> cols[i].name == Names()[i])
      && (forall name :: name in names <==> exists i :: 0 <= i < n && Names()[i] == name)
      && (forall i, j :: 0 <= i < j < n ==> Names()[i] != Names()[j])
    }

    /** The data column that ends up at position `i`, and its name in a row. */
    lemma DataColumn(i: nat)
      requires FrameOk() && i < |frame.columns|
      ensures 0 <= frame.Lookup(frame.columns[i].name)
      ensures var col := frame.columns[frame.Lookup(frame.columns[i].name)];
              && col.Valid() && col.View() == Cols()[i] && col.name == frame.columns[i].name
              && Names()[i] == RowName("col-", i, col.name)
    {
      hide LastNamed, FormatInt, FindLast;
      var k := frame.Lookup(frame.columns[i].name);
      var vs := frame.View().columns;
      var m := LastNamed(vs, vs[i].name);
      assert vs[k].name == frame.columns[k].name && vs[m].name == frame.columns[m].name;
      assert m == k;
    }

    lemma IndexColumn(i: nat)
      requires FrameOk() && includeIndex && i < |frame.indices|
      ensures var k, col := |frame.columns| + i, frame.indices[i];
              && col.Valid() && col.View() == Cols()[k]
              && Names()[k] == RowName("index-", i, col.name)
    {
    }

    /** Collecting one more column, or finding out that its name is taken. */
    lemma CollectOne(cols: seq<Column>, noNames': map<int, string>, names: set<string>, n: nat, col: Column)
      requires FrameOk() && Collected(cols, noNames', names, n) && n < Size()
      requires col in frame.columns + frame.indices && col.Valid() && col.View() == Cols()[n]
      requires col.name != "" ==> col.name == Names()[n]
      ensures if Names()[n] in names then !Distinct(Names())
              else Collected(cols + [col], if col.name == "" then noNames'[n := Names()[n]] else noNames',
                             names + {Names()[n]}, n + 1)
    {
      hide RowIterator.Names, RowIterator.Cols, Column.Valid, Column.Cells;
    }

    /** `init`: fails exactly when two columns would share a name in a row. */
    method Init()
      requires Valid() && !started && err == None
      modifies `started, `noNames, `columns, `err
      ensures Valid() && started
    {
      hide RowIterator.Names, RowIterator.Cols, RowIterator.Collected, RowIterator.FrameOk, RowIterator.SetUpWith, FormatInt, FindLast;
      var names, cols, noNames' := {}, [], map[];
      NothingCollected();
      for i := 0 to |frame.columns|
        invariant err == None && Collected(cols, noNames', names, i)
      {
        DataColumn(i);
        var col := frame.columns[frame.Lookup(frame.columns[i].name)];
        var name := RowName("col-", i, frame.columns[i].name);
        CollectOne(cols, noNames', names, i, col);
        if name in names {
          started, err := true, Some(DuplicateName(name));
          return;
        }
        noNames' := if frame.columns[i].name == "" then noNames'[i := name] else noNames';
        names, cols := names + {name}, cols + [col];
      }
      if includeIndex {
        for i := 0 to |frame.indices|
          invariant err == None && Collected(cols, noNames', names, |frame.columns| + i)
        {
          IndexColumn(i);
          var col := frame.indices[i];
          var name := RowName("index-", i, col.name);
          CollectOne(cols, noNames', names, |frame.columns| + i, col);
          if name in names {
            started, err := true, Some(DuplicateName(name));
            return;
          }
          noNames' := if col.name == "" then noNames'[|frame.columns| + i := name] else noNames';
          names, cols := names + {name}, cols + [col];
        }
      }
      AllCollected(cols, noNames', names);
      noNames, columns, started := noNames', cols, true;
    }

    lemma NothingCollected()
      requires FrameOk()
      ensures Collected([], map[], {}, 0)
    {
    }

    lemma AllCollected(cols: seq<Column>, noNames': map<int, string>, names: set<string>)
      requires FrameOk() && Collected(cols, noNames', names, Size())
      ensures Distinct(Names()) && SetUpWith(cols, noNames')
    {
      hide RowIterator.Names, RowIterator.Cols, Column.Valid, Column.Cells;
    }

    ghost predicate CellsReach(r: nat)
      requires FrameOk()
      reads frame.columns, frame.indices
    {
      forall i :: 0 <= i < |Cols()| ==> r < |Cols()[i].cells|
    }

    lemma EveryColumnReaches(r: nat)
      requires FrameOk() && r < frame.Len()
      ensures CellsReach(r)
    {
      hide FindLast, FormatInt, Column.Valid, Column.Cells;
      var f := frame.View();
      assert frame.Len() == |f.columns[0].cells|;
      forall i | 0 <= i < |Cols()| ensures r < |Cols()[i].cells| {
        if i < |f.columns| {
          DataColumn(i);
          assert Cols()[i] == f.columns[frame.Lookup(frame.columns[i].name)];
        } else {
          assert Cols()[i] == f.indices[i - |f.columns|];
        }
      }
    }

    /** `getRow`. */
    method GetRow() returns (r: Result<Row, IterError>)
      requires Valid() && started && err == None
      requires CellsReach(rowNum)
      ensures r.Success? && r.value == RowUpTo(Names(), Cols(), rowNum, Size())
    {
      hide RowIterator.Names, RowIterator.Cols, Column.Cells, Column.Valid, EqualLens, LabelsOk, Distinct, Views;
      var out: Row := map[];
      for i := 0 to |columns|
        invariant out == RowUpTo(Names(), Cols(), rowNum, i)
      {
        var col := columns[i];
        assert col.View() == Cols()[i] && rowNum < |Cols()[i].cells|;
        assert Readable([col]);
        var value := ReadValue(col, rowNum);
        var name := if col.name == "" then noNames[i] else col.name;
        out := out[name := value];
      }
      return Success(out);
    }

    /** `row` is row `r` of the frame. */
    ghost predicate IsRow(r: nat)
      requires FrameOk()
      reads this, frame.columns, frame.indices
      ensures IsRow(r) ==> IsRowOf(frame.View(), includeIndex, r, row)
    {
      CellsReach(r) && row == RowUpTo(Names(), Cols(), r, Size())
    }

    /** `Next`: delivers the rows one after the other, and stops after the last one. */
    method Next() returns (ok: bool)
      requires Valid()
      modifies this
      ensures Valid() && started
      ensures err.Some? <==> !Distinct(Names())
      ensures ok <==> err == None && old(rowNum) < frame.Len()
      ensures ok ==> rowNum == old(rowNum) + 1
      ensures ok ==> IsRow(old(rowNum))
      ensures !ok ==> rowNum == old(rowNum)
    {
      hide RowIterator.Names, RowIterator.Cols, RowIterator.SetUpWith, RowUpTo, RowIterator.FrameOk, RowIterator.CellsReach;
      if !started {
        Init();
      }
      if err.Some? || rowNum >= frame.Len() {
        return false;
      }
      EveryColumnReaches(rowNum);
      var r := GetRow();
      row := r.value;
      rowNum := rowNum + 1;
      return true;
    }
  }

  // --- Rows to frame to rows -------------------------------------------------------------------------

  /** `w` is `v` as it comes back: an integer as int64, a time as far as 64 bits of nanoseconds carry, all else as it is. */
  predicate GivesBack(v: Value, w: Value) {
    match v
    case Int(_, i) => w == Int(KInt64, i)
    case TimeVal(t) =>
      && w.TimeVal? && 0 <= w.t.nsec < 1_000_000_000
      && var ns := w.t.sec * 1_000_000_000 + w.t.nsec;
      && -TWO_63 <= ns < TWO_63 && (t.sec * 1_000_000_000 + t.nsec - ns) % 0x1_0000_0000_0000_0000 == 0
    case _ => w == v
  }

  /** `w` is what stands for a missing value beside values like `v`. */
  predicate StandsIn(v: Value, w: Value) {
    match v
    case Int(_, _) => w == Int(KInt64, 0)
    case Float64(_) => w == Float64(NaN)
    case Str(_) => w == Str("")
    case TimeVal(_) => w == TimeVal(Time(0, 0))
    case Bool(_) => w == Bool(false)
    case _ => false
  }

  lemma StoredComesBack(cell: Cell, v: Value)
    requires Stores(cell, v)
    ensures GivesBack(v, cell.ToValue())
  {
    if cell.TimeCell? {
      NSToTimeExact(cell.ns);
    }
  }

  lemma PaddingComesBack(cell: Cell, v: Value)
    requires IsPadding(cell) && IsOf(cell.DType(), v)
    ensures StandsIn(v, cell.ToValue())
  {
  }

  /** `row` is row `r` with every value normalised and every other name of the rows padded. */
  ghost predicate Normalised(rows: seq<Row>, r: nat, row: Row)
    requires r < |rows|
  {
    && (forall name :: name in row <==> HasName(rows, name))
    && (forall name :: name in row && name in rows[r] ==> GivesBack(rows[r][name], row[name]))
    && (forall name :: name in row && name !in rows[r] ==>
          exists q :: 0 <= q < |rows| && name in rows[q] && StandsIn(rows[q][name], row[name]))
  }

  /** A built column gives back the row's value, or what stands for a missing one. */
  lemma CellComesBack(rows: seq<Row>, v: ColVal, r: nat)
    requires Builds(rows, v) && r < |rows|
    ensures v.name in rows[r] ==> GivesBack(rows[r][v.name], v.cells[r].ToValue())
    ensures v.name !in rows[r] ==>
              exists q :: 0 <= q < |rows| && v.name in rows[q] && StandsIn(rows[q][v.name], v.cells[r].ToValue())
  {
    hide GivesBack, StandsIn, Stores, IsPadding, IsOf;
    BuildsKeepsRows(rows, v);
    if v.name in rows[r] {
      StoredComesBack(v.cells[r], rows[r][v.name]);
    } else {
      BuildsIsOneClass(rows, v);
      var q :| 0 <= q < |rows| && v.name in rows[q];
      assert IsOf(v.dtype, rows[q][v.name]);
      PaddingComesBack(v.cells[r], rows[q][v.name]);
    }
  }

  /** One column for each name of the rows, none of them unnamed. */
  ghost predicate Columnwise(rows: seq<Row>, cols: seq<ColVal>) {
    && DistinctNames(cols)
    && (forall i :: 0 <= i < |cols| ==> cols[i].name != "" && |cols[i].cells| == |rows| && Builds(rows, cols[i]))
    && (forall name :: HasName(rows, name) ==> NameIn(cols, name))
  }

  lemma RowOfColumns(rows: seq<Row>, names: seq<string>, cols: seq<ColVal>, r: nat)
    requires Columnwise(rows, cols) && r < |rows|
    requires |names| == |cols| && forall i :: 0 <= i < |cols| ==> names[i] == cols[i].name
    ensures Normalised(rows, r, RowUpTo(names, cols, r, |cols|))
  {
    hide Builds, HasName, RowUpTo, GivesBack, StandsIn;
    RowEntries(names, cols, r, |cols|);
    var row := RowUpTo(names, cols, r, |cols|);
    forall name | name in row
      ensures HasName(rows, name)
      ensures name in rows[r] ==> GivesBack(rows[r][name], row[name])
      ensures name !in rows[r] ==>
                exists q :: 0 <= q < |rows| && name in rows[q] && StandsIn(rows[q][name], row[name])
    {
      var i :| 0 <= i < |cols| && names[i] == name;
      BuildsHasName(rows, cols[i]);
      CellComesBack(rows, cols[i], r);
    }
  }

  lemma FromRowsColumnwise(rows: seq<Row>, indices: seq<string>, f: FrameVal)
    requires FromRows(rows, indices, f) && !HasName(rows, "")
    ensures Columnwise(rows, AllCols(f))
  {
    hide Builds, HasName, DistinctNames;
    var cols := AllCols(f);
    forall i | 0 <= i < |cols| ensures cols[i].name != "" && |cols[i].cells| == |rows| && Builds(rows, cols[i]) {
      assert cols[i] == if i < |f.columns| then f.columns[i] else f.indices[i - |f.columns|];
      BuildsLength(rows, cols[i]);
      BuildsHasName(rows, cols[i]);
    }
    forall name | HasName(rows, name) ensures NameIn(cols, name) {
      var side := if name in indices then f.indices else f.columns;
      assert NameIn(side, name);
      var i :| 0 <= i < |side| && side[i].name == name;
      assert cols[if name in indices then |f.columns| + i else i].name == name;
    }
  }

  /** Named columns are read from their own data, under their own names. */
  lemma NamedColumns(f: FrameVal)
    requires DistinctNames(AllCols(f)) && forall i :: 0 <= i < |AllCols(f)| ==> AllCols(f)[i].name != ""
    ensures IterCols(f, true) == AllCols(f) && Distinct(IterNames(f, true))
    ensures forall i :: 0 <= i < |AllCols(f)| ==> IterNames(f, true)[i] == AllCols(f)[i].name
  {
    hide FormatInt, LastNamed;
    var cols, n := AllCols(f), |f.columns|;
    assert forall i :: 0 <= i < n ==> f.columns[i] == cols[i];
    assert forall i :: 0 <= i < |f.indices| ==> f.indices[i] == cols[n + i];
    var names := NamesOf("col-", f.columns);
    assert forall i :: 0 <= i < n ==> names[i] == cols[i].name;
    ResolvedIsIdentity(f.columns);
  }

  /** Every row of a frame built from rows is the row it came from. */
  lemma RoundTripRow(rows: seq<Row>, indices: seq<string>, f: FrameVal, r: nat, row: Row)
    requires FromRows(rows, indices, f) && r < |rows| && !HasName(rows, "")
    requires IsRowOf(f, true, r, row)
    ensures Normalised(rows, r, row)
  {
    hide Builds, HasName, Normalised, IterNames, IterCols, RowUpTo;
    FromRowsColumnwise(rows, indices, f);
    NamedColumns(f);
    RowOfColumns(rows, IterNames(f, true), AllCols(f), r);
  }

  lemma NamesStayDistinct(rows: seq<Row>, indices: seq<string>, f: FrameVal)
    requires FromRows(rows, indices, f) && !HasName(rows, "")
    ensures Distinct(IterNames(f, true))
  {
    FromRowsColumnwise(rows, indices, f);
    NamedColumns(f);
  }

  lemma FrameLength(rows: seq<Row>, indices: seq<string>, frame: Frame)
    requires frame.Valid() && FromRows(rows, indices, frame.View())
    ensures frame.Len() == if exists name :: HasName(rows, name) then |rows| else 0
  {
    hide Builds, HasName;
    var f := frame.View();
    LensAgree(rows, indices, f);
    if f.columns != [] {
      BuildsLength(rows, f.columns[0]);
      BuildsHasName(rows, f.columns[0]);
    } else {
      forall name ensures !HasName(rows, name) {
        assert HasName(rows, name) ==> NameIn(if name in indices then f.indices else f.columns, name);
      }
    }
  }

  /** A whole iteration: one row for each of the frame's, in order. */
  method CollectRows(frame: Frame, includeIndex: bool) returns (r: Result<seq<Row>, IterError>)
    requires frame.Valid() && Readable(frame.columns) && Readable(frame.indices)
    ensures r.Success? <==> Distinct(IterNames(frame.View(), includeIndex))
    ensures r.Success? ==>
              |r.value| == frame.Len() && forall i :: 0 <= i < |r.value| ==> IsRowOf(frame.View(), includeIndex, i, r.value[i])
  {
    hide IsRowOf, RowIterator.IsRow, RowIterator.SetUpWith, Frame.Valid, Frame.View, Frame.Len, Readable, Distinct, IterNames;
    var iter := new RowIterator(frame, includeIndex);
    var out := [];
    var ok := iter.Next();
    while ok
      invariant iter.Valid() && iter.started && iter.rowNum == |out| + (if ok then 1 else 0) <= frame.Len()
      invariant ok ==> iter.err == None && iter.IsRow(|out|)
      invariant !ok ==> iter.err.Some? || |out| == frame.Len()
      invariant forall i :: 0 <= i < |out| ==> IsRowOf(frame.View(), includeIndex, i, out[i])
      decreases frame.Len() - |out|
    {
      out := out + [iter.row];
      ok := iter.Next();
    }
    if iter.err.Some? {
      return Failure(iter.err.value);
    }
    return Success(out);
  }

  /** Builds a frame from rows and iterates over it, indices included. */
  method RowsThroughFrame(rows: seq<Row>, indices: seq<string>, labels: Labels)
    returns (r: Result<seq<Row>, FrameError>)
    requires !HasName(rows, "")
    ensures r.Success? <==> RowsOk(rows, indices, labels)
    ensures r.Success? ==> |r.value| == if exists name :: HasName(rows, name) then |rows| else 0
    ensures r.Success? ==> forall i :: 0 <= i < |r.value| ==> Normalised(rows, i, r.value[i])
  {
    hide HasName, RowsOk, Normalised, IsRowOf, Frame.Valid, FromRows, IterNames, Distinct, Column.Valid, Column.Cells, Views;
    var frame :- NewFrameFromRows(rows, indices, labels);
    NamesStayDistinct(rows, indices, frame.View());
    FrameLength(rows, indices, frame);
    var out := CollectRows(frame, true);
    forall i | 0 <= i < |out.value| ensures Normalised(rows, i, out.value[i]) {
      RoundTripRow(rows, indices, frame.View(), i, out.value[i]);
    }
    return Success(out.value);
  }
}
