/** From rows to columns: `NewFrameFromRows` (frame.go). */
module RowBuilder {
  import opened Wrappers
  import opened Values
  import opened Columns
  import opened Frames

  // --- Specification ----------------------------------------------------------------------------

  predicate HasName(rows: seq<Row>, name: string) {
    exists r :: 0 <= r < |rows| && name in rows[r]
  }

  /** All values under this name belong to one class that columns support. */
  ghost predicate NameOk(rows: seq<Row>, name: string) {
    exists d :: OneClass(rows, name, d)
  }

  predicate OneClass(rows: seq<Row>, name: string, d: DType) {
    forall r :: 0 <= r < |rows| && name in rows[r] ==> IsOf(d, rows[r][name])
  }

  /** The cell of one row: the value as the column stores it, or padding. */
  function CellOf(row: Row, name: string, dtype: DType): Option<Cell> {
    if name in row then CellFor(dtype, row[name]) else Some(ZeroCell(dtype))
  }

  /** `v` is the column that these rows make under its name. */
  ghost predicate Builds(rows: seq<Row>, v: ColVal) {
    && HasName(rows, v.name)
    && |v.cells| == |rows|
    && forall r :: 0 <= r < |rows| ==> CellOf(rows[r], v.name, v.dtype) == Some(v.cells[r])
  }

  function AllCols(f: FrameVal): seq<ColVal> {
    f.columns + f.indices
  }

  predicate DistinctNames(vs: seq<ColVal>) {
    forall i, j :: 0 <= i < j < |vs| ==> vs[i].name != vs[j].name
  }

  predicate NameIn(vs: seq<ColVal>, name: string) {
    exists i :: 0 <= i < |vs| && vs[i].name == name
  }

  /** `f` has one column for each name of the rows, on the side that `indices` says. */
  ghost predicate FromRows(rows: seq<Row>, indices: seq<string>, f: FrameVal) {
    && DistinctNames(AllCols(f))
    && (forall i :: 0 <= i < |f.columns| ==> Builds(rows, f.columns[i]) && f.columns[i].name !in indices)
    && (forall i :: 0 <= i < |f.indices| ==> Builds(rows, f.indices[i]) && f.indices[i].name in indices)
    && (forall name :: HasName(rows, name) ==> NameIn(if name in indices then f.indices else f.columns, name))
  }

  /** What a column holds for rows, cell by cell: the value under its name, or what stands for a missing one. */
  predicate KeepsRows(rows: seq<Row>, v: ColVal) {
    && |v.cells| == |rows|
    && forall r :: 0 <= r < |rows| ==>
         && v.cells[r].DType() == v.dtype
         && if v.name in rows[r] then Stores(v.cells[r], rows[r][v.name]) else IsPadding(v.cells[r])
  }

  ghost predicate AllKeepRows(rows: seq<Row>, f: FrameVal) {
    && (forall i :: 0 <= i < |f.columns| ==> KeepsRows(rows, f.columns[i]))
    && (forall i :: 0 <= i < |f.indices| ==> KeepsRows(rows, f.indices[i]))
  }

  /** When building succeeds: all names are fine, so are the labels, and not all columns are index columns. */
  ghost predicate RowsOk(rows: seq<Row>, indices: seq<string>, labels: Labels) {
    && (forall name :: HasName(rows, name) ==> NameOk(rows, name))
    && ((exists name :: HasName(rows, name)) ==> exists name :: HasName(rows, name) && name !in indices)
    && LabelsOk(labels)
  }

  // --- Facts about the specification ---------------------------------------------------------------

  lemma BuildsIsOneClass(rows: seq<Row>, v: ColVal)
    requires Builds(rows, v)
    ensures OneClass(rows, v.name, v.dtype)
    ensures exists r :: 0 <= r < |rows| && v.name in rows[r] && ClassOf(rows[r][v.name]) == Some(v.dtype)
  {
    forall r | 0 <= r < |rows| && v.name in rows[r] ensures ClassOf(rows[r][v.name]) == Some(v.dtype) {
      assert CellOf(rows[r], v.name, v.dtype) == Some(v.cells[r]);
    }
  }

  lemma BuildsKeepsRows(rows: seq<Row>, v: ColVal)
    requires Builds(rows, v)
    ensures KeepsRows(rows, v)
  {
    hide CellFor, Stores, IsPadding, ZeroCell;
    forall r | 0 <= r < |rows|
      ensures v.cells[r].DType() == v.dtype
      ensures if v.name in rows[r] then Stores(v.cells[r], rows[r][v.name]) else IsPadding(v.cells[r])
    {
      assert CellOf(rows[r], v.name, v.dtype) == Some(v.cells[r]);
      ZeroCellIsPadding(v.dtype);
      if v.name in rows[r] {
        CellForStores(v.dtype, rows[r][v.name]);
      }
    }
  }

  lemma FromRowsKeepsRows(rows: seq<Row>, indices: seq<string>, f: FrameVal)
    requires FromRows(rows, indices, f)
    ensures AllKeepRows(rows, f)
  {
    hide Builds, KeepsRows, HasName;
    forall v | v in f.columns || v in f.indices ensures KeepsRows(rows, v) {
      BuildsKeepsRows(rows, v);
    }
  }

  /** The rows determine the column of a name: its dtype and every cell of it. */
  lemma BuildsIsUnique(rows: seq<Row>, v: ColVal, w: ColVal)
    requires Builds(rows, v) && Builds(rows, w) && v.name == w.name
    ensures v == w
  {
    BuildsIsOneClass(rows, v);
    BuildsIsOneClass(rows, w);
    forall r | 0 <= r < |rows| ensures v.cells[r] == w.cells[r] {
      assert CellOf(rows[r], v.name, v.dtype) == Some(v.cells[r]);
    }
  }

  /** Whatever order Go's maps are walked in, the frames are the same up to the order of columns. */
  lemma OrderOnly(rows: seq<Row>, indices: seq<string>, f: FrameVal, g: FrameVal)
    requires FromRows(rows, indices, f) && FromRows(rows, indices, g)
    ensures multiset(f.columns) == multiset(g.columns) && multiset(f.indices) == multiset(g.indices)
  {
    Halves(f);
    Halves(g);
    SameMembers(rows, indices, f, g);
    SameMembers(rows, indices, g, f);
    PermutationOf(f.columns, g.columns);
    PermutationOf(f.indices, g.indices);
  }

  lemma Halves(f: FrameVal)
    requires DistinctNames(AllCols(f))
    ensures DistinctNames(f.columns) && DistinctNames(f.indices)
  {
    var all, n := AllCols(f), |f.columns|;
    forall i, j | 0 <= i < j < |f.indices| ensures f.indices[i].name != f.indices[j].name {
      assert all[n + i] == f.indices[i] && all[n + j] == f.indices[j];
    }
    forall i, j | 0 <= i < j < n ensures f.columns[i].name != f.columns[j].name {
      assert all[i] == f.columns[i] && all[j] == f.columns[j];
    }
  }

  lemma SameMembers(rows: seq<Row>, indices: seq<string>, f: FrameVal, g: FrameVal)
    requires FromRows(rows, indices, f) && FromRows(rows, indices, g)
    ensures forall v :: v in f.columns ==> v in g.columns
    ensures forall v :: v in f.indices ==> v in g.indices
  {
    hide Builds, HasName;
    forall v | v in f.columns || v in f.indices ensures v in (if v.name in indices then g.indices else g.columns) {
      assert Builds(rows, v);
      var side := if v.name in indices then g.indices else g.columns;
      BuildsHasName(rows, v);
      assert NameIn(side, v.name);
      var i :| 0 <= i < |side| && side[i].name == v.name;
      BuildsIsUnique(rows, v, side[i]);
    }
  }

  lemma BuildsLength(rows: seq<Row>, v: ColVal)
    requires Builds(rows, v)
    ensures |v.cells| == |rows|
  {
  }

  lemma BuildsHasName(rows: seq<Row>, v: ColVal)
    requires Builds(rows, v)
    ensures HasName(rows, v.name)
  {
  }

  lemma {:induction false} PermutationOf(a: seq<ColVal>, b: seq<ColVal>)
    requires DistinctNames(a) && DistinctNames(b)
    requires forall v :: v in a <==> v in b
    ensures multiset(a) == multiset(b)
  {
    forall v: ColVal ensures multiset(a)[v] == multiset(b)[v] {
      OccursOnce(a, v);
      OccursOnce(b, v);
    }
  }

  lemma {:induction false} OccursOnce(a: seq<ColVal>, v: ColVal)
    requires DistinctNames(a)
    ensures multiset(a)[v] == if v in a then 1 else 0
  {
    if a != [] {
      var init, last := a[..|a| - 1], a[|a| - 1];
      assert a == init + [last];
      assert forall i :: 0 <= i < |init| ==> init[i] == a[i];
      OccursOnce(init, v);
    }
  }

  lemma SnocBuilds(rows: seq<Row>, row: Row, v: ColVal, cell: Cell)
    requires Builds(rows, v) && CellOf(row, v.name, v.dtype) == Some(cell)
    ensures Builds(rows + [row], v.(cells := v.cells + [cell]))
  {
    var r :| 0 <= r < |rows| && v.name in rows[r];
    assert v.name in (rows + [row])[r];
  }

  lemma FirstBuilds(rows: seq<Row>, row: Row, name: string, dtype: DType, cell: Cell)
    requires !HasName(rows, name) && name in row && CellFor(dtype, row[name]) == Some(cell)
    ensures Builds(rows + [row], ColVal(name, dtype, Copies(ZeroCell(dtype), |rows|) + [cell]))
  {
    assert name in (rows + [row])[|rows|];
    forall r | 0 <= r < |rows| ensures name !in (rows + [row])[r] {
      assert (rows + [row])[r] == rows[r];
    }
  }

  lemma WrongClass(rows: seq<Row>, row: Row, v: ColVal)
    requires Builds(rows, v) && v.name in row && CellFor(v.dtype, row[v.name]).None?
    ensures !NameOk(rows + [row], v.name)
  {
    BuildsIsOneClass(rows, v);
    var r :| 0 <= r < |rows| && v.name in rows[r] && ClassOf(rows[r][v.name]) == Some(v.dtype);
    var all := rows + [row];
    forall d ensures !OneClass(all, v.name, d) {
      assert all[r] == rows[r] && all[|rows|] == row;
    }
  }

  lemma NoClass(rows: seq<Row>, row: Row, name: string)
    requires name in row && ClassOf(row[name]).None?
    ensures !NameOk(rows + [row], name)
  {
    var all := rows + [row];
    forall d ensures !OneClass(all, name, d) {
      assert all[|rows|] == row;
    }
  }

  lemma NotOkStays(rows: seq<Row>, n: nat, name: string)
    requires n <= |rows| && HasName(rows[..n], name) && !NameOk(rows[..n], name)
    ensures HasName(rows, name) && !NameOk(rows, name)
  {
    var r :| 0 <= r < n && name in rows[..n][r];
    assert name in rows[r];
    forall d ensures !OneClass(rows, name, d) {
      if OneClass(rows, name, d) {
        forall q | 0 <= q < n && name in rows[..n][q] ensures ClassOf(rows[..n][q][name]) == Some(d) {
          assert rows[..n][q] == rows[q];
        }
        assert OneClass(rows[..n], name, d);
      }
    }
  }

  // --- The builder ----------------------------------------------------------------------------------

  /** `newColumn`: float32 values get a float column, which then rejects them. */
  function NewColumnType(v: Value): (d: Option<DType>)
    ensures ClassOf(v).Some? ==> d == ClassOf(v)
    ensures d.Some? && ClassOf(v).None? ==> CellFor(d.value, v).None?
  {
    match v
    case Int(_, _) => Some(IntType)
    case Float64(_) => Some(FloatType)
    case Float32(_) => Some(FloatType)
    case Str(_) => Some(StringType)
    case TimeVal(_) => Some(TimeType)
    case Bool(_) => Some(BoolType)
    case Other => None
  }

  /** `extendCol`. */
  method ExtendCol(col: Column, size: nat)
    requires col.Valid() && col.kind == SliceKind
    modifies col`data, col`size
    ensures col.Valid()
    ensures col.Cells() == old(col.Cells()) + Copies(ZeroCell(col.dtype), if size > old(col.Len()) then size - old(col.Len()) else 0)
  {
    while col.Len() < size
      invariant col.Valid() && old(col.Len()) <= col.Len()
      invariant col.Len() <= size || col.Len() == old(col.Len())
      invariant col.Cells() == old(col.Cells()) + Copies(ZeroCell(col.dtype), col.Len() - old(col.Len()))
      decreases size - col.Len()
    {
      var ok := col.Append(ZeroValue(col.dtype));
    }
  }

  /** `col` is the column that the rows so far have made under `name`. */
  ghost predicate Built(col: Column, name: string, rows: seq<Row>)
    reads col
  {
    col.Valid() && col.kind == SliceKind && col.times == None && col.name == name && Builds(rows, col.View())
  }

  /** One more value for a column that exists already. */
  method AddToColumn(col: Column, ghost rows: seq<Row>, row: Row, rowNum: nat) returns (ok: bool)
    requires col.name in row && rowNum == |rows| && Built(col, col.name, rows)
    modifies col
    ensures ok ==> Built(col, col.name, rows + [row])
    ensures !ok ==> !NameOk(rows + [row], col.name)
  {
    hide Builds, NameOk;
    ghost var was := col.View();
    assert |col.Cells()| == rowNum by {
      BuildsLength(rows, was);
    }
    ExtendCol(col, rowNum);
    assert col.Cells() == was.cells;
    ok := col.Append(row[col.name]);
    if ok {
      SnocBuilds(rows, row, was, CellFor(col.dtype, row[col.name]).value);
    } else {
      WrongClass(rows, row, was);
    }
  }

  /** The first value of a name: its column starts with padding for the rows before. */
  method StartColumn(ghost rows: seq<Row>, row: Row, rowNum: nat, name: string) returns (r: Option<Column>)
    requires name in row && rowNum == |rows| && !HasName(rows, name)
    ensures r.Some? ==> fresh(r.value) && r.value.name == name && Built(r.value, name, rows + [row])
    ensures r.None? ==> !NameOk(rows + [row], name)
  {
    hide Builds, NameOk, HasName;
    var dtype := NewColumnType(row[name]);
    if dtype.None? {
      NoClass(rows, row, name);
      return None;
    }
    var col := new Column.Slice(name, dtype.value, []);
    ExtendCol(col, rowNum);
    assert col.Cells() == Copies(ZeroCell(dtype.value), rowNum);
    var ok := col.Append(row[name]);
    if ok {
      FirstBuilds(rows, row, name, dtype.value, CellFor(dtype.value, row[name]).value);
      return Some(col);
    } else {
      NoClass(rows, row, name);
      return None;
    }
  }

  type ColumnMap = map<string, Column>

  /** Each column is filed under its own name, so no two entries are the same object. */
  ghost predicate Keyed(cols: ColumnMap) {
    forall name :: name in cols ==> cols[name].name == name
  }

  /** The columns that these rows have made, one for each of their names. */
  ghost predicate Building(cols: ColumnMap, rows: seq<Row>)
    reads cols.Values
  {
    && Keyed(cols)
    && (forall name :: name in cols ==> Built(cols[name], name, rows))
    && (forall name :: HasName(rows, name) ==> name in cols)
  }

  /** Halfway through a row: the values under `done` have been added. */
  ghost predicate HalfBuilt(cols: ColumnMap, rows: seq<Row>, row: Row, done: set<string>)
    reads cols.Values
  {
    && Keyed(cols)
    && (forall name :: name in cols ==> Built(cols[name], name, if name in done then rows + [row] else rows))
    && (forall name :: HasName(rows, name) || name in done ==> name in cols)
  }

  ghost predicate Extends(cols: ColumnMap, was: ColumnMap) {
    forall name :: name in was ==> name in cols && cols[name] == was[name]
  }

  /** One iteration of the loop over rows. */
  method AddRow(cols: ColumnMap, ghost rows: seq<Row>, row: Row, rowNum: nat) returns (cols': ColumnMap, ok: bool)
    requires rowNum == |rows| && Building(cols, rows)
    modifies cols.Values
    ensures Extends(cols', cols) && forall name :: name in cols' && name !in cols ==> fresh(cols'[name])
    ensures ok ==> Building(cols', rows + [row])
    ensures !ok ==> exists name :: name in row && !NameOk(rows + [row], name)
  {
    hide Built, HasName, NameOk;
    cols' := cols;
    var todo := row.Keys;
    while todo != {}
      invariant todo <= row.Keys && Extends(cols', cols)
      invariant forall name :: name in cols' && name !in cols ==> fresh(cols'[name])
      invariant HalfBuilt(cols', rows, row, row.Keys - todo)
    {
      var name :| name in todo;
      if name in cols' {
        ok := AddToColumn(cols'[name], rows, row, rowNum);
        if !ok {
          return;
        }
      } else {
        var col := StartColumn(rows, row, rowNum, name);
        if col.None? {
          ok := false;
          return;
        }
        cols' := cols'[name := col.value];
      }
      todo := todo - {name};
    }
    PadMissing(cols', rows, row, rowNum);
    ok := true;
  }

  /** `Extend columns not in row`. */
  method PadMissing(cols: ColumnMap, ghost rows: seq<Row>, row: Row, rowNum: nat)
    requires rowNum == |rows| && HalfBuilt(cols, rows, row, row.Keys)
    modifies cols.Values
    ensures Building(cols, rows + [row])
  {
    hide Built, HasName;
    var todo := cols.Keys - row.Keys;
    while todo != {}
      invariant todo <= cols.Keys - row.Keys
      invariant HalfBuilt(cols, rows, row, cols.Keys + row.Keys - todo)
    {
      var name :| name in todo;
      PadColumn(cols[name], rows, row, rowNum);
      todo := todo - {name};
    }
    forall name | HasName(rows + [row], name) ensures name in cols {
      SnocNames(rows, row, name);
    }
  }

  method PadColumn(col: Column, ghost rows: seq<Row>, row: Row, rowNum: nat)
    requires col.name !in row && rowNum == |rows| && Built(col, col.name, rows)
    modifies col
    ensures Built(col, col.name, rows + [row])
  {
    hide Builds;
    ghost var was := col.View();
    BuildsLength(rows, was);
    ExtendCol(col, rowNum + 1);
    assert Copies(ZeroCell(was.dtype), 1) == [ZeroCell(was.dtype)];
    SnocBuilds(rows, row, was, ZeroCell(was.dtype));
  }

  lemma SnocNames(rows: seq<Row>, row: Row, name: string)
    ensures HasName(rows + [row], name) <==> HasName(rows, name) || name in row
  {
    assert (rows + [row])[|rows|] == row;
    if r :| 0 <= r < |rows| && name in rows[r] {
      assert name in (rows + [row])[r];
    }
  }

  ghost predicate Listed(columns: seq<Column>, rows: seq<Row>)
    reads columns
  {
    && (forall i :: 0 <= i < |columns| ==> Built(columns[i], columns[i].name, rows))
    && (forall i, j :: 0 <= i < j < |columns| ==> columns[i].name != columns[j].name)
  }

  ghost predicate NameListed(columns: seq<Column>, name: string) {
    exists i :: 0 <= i < |columns| && columns[i].name == name
  }

  /** Splits the columns into data and index columns, in whatever order the map is walked. */
  method Partition(cols: ColumnMap, ghost rows: seq<Row>, indices: seq<string>)
    returns (dataCols: seq<Column>, indexCols: seq<Column>)
    requires Building(cols, rows)
    ensures Listed(dataCols, rows) && Listed(indexCols, rows)
    ensures forall i :: 0 <= i < |dataCols| ==> dataCols[i].name !in indices
    ensures forall i :: 0 <= i < |indexCols| ==> indexCols[i].name in indices
    ensures forall name :: name in cols ==> NameListed(if name in indices then indexCols else dataCols, name)
  {
    hide Built, NameListed;
    dataCols, indexCols := [], [];
    var todo := cols.Keys;
    while todo != {}
      invariant todo <= cols.Keys
      invariant forall c :: c in dataCols ==> c.name !in indices && c.name in cols && cols[c.name] == c && c.name !in todo
      invariant forall c :: c in indexCols ==> c.name in indices && c.name in cols && cols[c.name] == c && c.name !in todo
      invariant forall i, j :: 0 <= i < j < |dataCols| ==> dataCols[i].name != dataCols[j].name
      invariant forall i, j :: 0 <= i < j < |indexCols| ==> indexCols[i].name != indexCols[j].name
      invariant forall name :: name in cols && name !in todo ==>
                  NameListed(if name in indices then indexCols else dataCols, name)
    {
      var name :| name in todo;
      if name in indices {
        NameListedSnoc(indexCols, cols[name]);
        indexCols := indexCols + [cols[name]];
      } else {
        NameListedSnoc(dataCols, cols[name]);
        dataCols := dataCols + [cols[name]];
      }
      todo := todo - {name};
    }
  }

  lemma NameListedSnoc(columns: seq<Column>, col: Column)
    ensures forall name :: NameListed(columns, name) ==> NameListed(columns + [col], name)
    ensures NameListed(columns + [col], col.name)
  {
    assert (columns + [col])[|columns|] == col;
    forall name | NameListed(columns, name) ensures NameListed(columns + [col], name) {
      var i :| 0 <= i < |columns| && columns[i].name == name;
      assert (columns + [col])[i].name == name;
    }
  }

  lemma ListedViews(columns: seq<Column>, rows: seq<Row>)
    requires Listed(columns, rows)
    ensures AllValid(columns) && DistinctNames(Views(columns))
    ensures forall i :: 0 <= i < |columns| ==> Builds(rows, Views(columns)[i]) && Views(columns)[i].name == columns[i].name
    ensures forall name :: NameListed(columns, name) ==> NameIn(Views(columns), name)
  {
    hide Builds, Column.Valid, Column.Cells;
    forall i | 0 <= i < |columns| ensures columns[i].Valid() && Builds(rows, columns[i].View()) {
      assert Built(columns[i], columns[i].name, rows);
    }
    forall name | NameListed(columns, name) ensures NameIn(Views(columns), name) {
      var i :| 0 <= i < |columns| && columns[i].name == name;
      assert Views(columns)[i].name == name;
    }
  }

  lemma PartitionViews(dataCols: seq<Column>, indexCols: seq<Column>, rows: seq<Row>, indices: seq<string>)
    requires Listed(dataCols, rows) && Listed(indexCols, rows)
    requires forall i :: 0 <= i < |dataCols| ==> dataCols[i].name !in indices
    requires forall i :: 0 <= i < |indexCols| ==> indexCols[i].name in indices
    requires forall name :: HasName(rows, name) ==> NameListed(if name in indices then indexCols else dataCols, name)
    ensures AllValid(dataCols) && AllValid(indexCols)
    ensures FromRows(rows, indices, FrameVal(Views(dataCols), Views(indexCols)))
  {
    hide Builds, HasName, Views, NameListed, NameIn, Listed;
    ListedViews(dataCols, rows);
    ListedViews(indexCols, rows);
  }

  lemma ListedUncached(columns: seq<Column>, rows: seq<Row>)
    requires Listed(columns, rows)
    ensures forall col :: col in columns ==> col.times == None
  {
    hide Builds, Column.Valid, Column.Cells;
    forall col | col in columns ensures col.times == None {
      var i :| 0 <= i < |columns| && columns[i] == col;
      assert Built(columns[i], columns[i].name, rows);
    }
  }

  /** All columns have as many cells as there are rows, so the lengths agree unless only index columns are left. */
  lemma LensAgree(rows: seq<Row>, indices: seq<string>, f: FrameVal)
    requires FromRows(rows, indices, f)
    ensures EqualLens(f.columns, f.indices) <==>
            ((exists name :: HasName(rows, name)) ==> exists name :: HasName(rows, name) && name !in indices)
  {
    hide Builds, HasName;
    forall v | Builds(rows, v) ensures |v.cells| == |rows| && HasName(rows, v.name) {
      BuildsLength(rows, v);
      BuildsHasName(rows, v);
    }
    if f.columns != [] {
      assert f.columns[0].name !in indices && HasName(rows, f.columns[0].name);
    } else if f.indices != [] {
      assert HasName(rows, f.indices[0].name);
      forall name | HasName(rows, name) ensures name in indices {
        assert NameIn(if name in indices then f.indices else f.columns, name);
      }
    } else {
      forall name ensures !HasName(rows, name) {
        assert HasName(rows, name) ==> NameIn(if name in indices then f.indices else f.columns, name);
      }
    }
  }

  /** `NewFrameFromRows`. */
  method NewFrameFromRows(rows: seq<Row>, indices: seq<string>, labels: Labels) returns (r: Result<Frame, FrameError>)
    ensures r.Success? <==> RowsOk(rows, indices, labels)
    ensures r.Success? ==> fresh(r.value) && r.value.Valid() && FromRows(rows, indices, r.value.View())
    ensures r.Success? ==> AllKeepRows(rows, r.value.View()) && r.value.labels == labels
    ensures r.Success? ==> forall col :: col in r.value.columns + r.value.indices ==> col.times == None
  {
    hide AllKeepRows;
    hide Built, HasName, NameOk, Builds, FromRows, Listed, NameListed, EqualLens, Column.Valid, Column.Cells, LabelsOk;
    var cols: ColumnMap := map[];
    assert forall name :: !HasName(rows[..0], name) by {
      NoRowsNoNames();
    }
    for n := 0 to |rows|
      invariant Building(cols, rows[..n])
      invariant forall name :: name in cols ==> fresh(cols[name])
    {
      var ok;
      cols, ok := AddRow(cols, rows[..n], rows[n], n);
      assert rows[..n] + [rows[n]] == rows[..n + 1];
      if !ok {
        ghost var name :| name in rows[n] && !NameOk(rows[..n + 1], name);
        SnocNames(rows[..n], rows[n], name);
        NotOkStays(rows, n + 1, name);
        return Failure(UnsupportedValue);
      }
    }
    assert rows[..|rows|] == rows;
    forall name | HasName(rows, name) ensures NameOk(rows, name) {
      BuiltIsOk(cols[name], rows);
    }
    var dataCols, indexCols := Partition(cols, rows, indices);
    PartitionViews(dataCols, indexCols, rows, indices);
    ListedUncached(dataCols, rows);
    ListedUncached(indexCols, rows);
    LensAgree(rows, indices, FrameVal(Views(dataCols), Views(indexCols)));
    r := NewFrame(dataCols, indexCols, labels);
    if r.Success? {
      FromRowsKeepsRows(rows, indices, r.value.View());
    }
  }

  lemma NoRowsNoNames()
    ensures forall name :: !HasName([], name)
  {
  }

  lemma BuiltIsOk(col: Column, rows: seq<Row>)
    requires Built(col, col.name, rows)
    ensures NameOk(rows, col.name)
  {
    BuildsIsOneClass(rows, col.View());
  }
}
