/** The key-value reader: batching the cursor's items into frames (backends/kv/reader.go). */
module KvReader {
  import opened Wrappers
  import opened Values
  import opened Columns
  import opened Frames
  import opened RowBuilder
  import opened KvBuilder
  import opened AsyncCursor

  // --- One more row -----------------------------------------------------------------------------

  lemma KvSnoc(batch: seq<Row>, row: Row, v: ColVal, cell: Cell)
    requires KvBuilds(batch, v) && !IsSchema(row) && CellOf(row, v.name, v.dtype) == Some(cell)
    ensures KvBuilds(batch + [row], v.(cells := v.cells + [cell]))
  {
    hide Builds, IsSchema;
    var p: nat :| StartsAt(batch, v, p);
    var all, w := batch + [row], v.(cells := v.cells + [cell]);
    assert all[..p] == batch[..p] && all[p..] == batch[p..] + [row];
    DataRowsAppend(batch[p..], [row]);
    assert [row][..0] == [];
    SnocBuilds(DataRows(batch[p..]), row, v.(cells := v.cells[p..]), cell);
    assert w.cells[p..] == v.cells[p..] + [cell] && w.cells[..p] == v.cells[..p];
    assert StartsAt(all, w, p);
  }

  lemma KvSkip(batch: seq<Row>, row: Row, v: ColVal)
    requires KvBuilds(batch, v) && IsSchema(row)
    ensures KvBuilds(batch + [row], v)
  {
    hide Builds;
    var p: nat :| StartsAt(batch, v, p);
    var all := batch + [row];
    assert all[..p] == batch[..p] && all[p..] == batch[p..] + [row];
    DataRowsAppend(batch[p..], [row]);
    assert [row][..0] == [] && DataRows([row]) == [];
    assert DataRows(all[p..]) == DataRows(batch[p..]);
    assert StartsAt(all, v, p);
  }

  lemma KvFirst(batch: seq<Row>, row: Row, name: string, dtype: DType, cell: Cell)
    requires !HasName(DataRows(batch), name) && !IsSchema(row)
    requires name in row && CellFor(dtype, row[name]) == Some(cell)
    ensures KvBuilds(batch + [row], ColVal(name, dtype, Copies(PrefillCell(dtype), |batch|) + [cell]))
  {
    hide Builds, HasName, IsSchema;
    var all, p := batch + [row], |batch|;
    var v := ColVal(name, dtype, Copies(PrefillCell(dtype), p) + [cell]);
    assert all[..p] == batch && all[p..] == [row];
    DataRowsSnoc([], row);
    assert [] + [row] == [row];
    NoRowsNoNames();
    FirstBuilds([], row, name, dtype, cell);
    assert Copies(ZeroCell(dtype), 0) + [cell] == [cell];
    assert v.cells[..p] == Copies(PrefillCell(dtype), p) && v.cells[p..] == [cell];
    assert StartsAt(all, v, p);
  }

  lemma KvWrong(batch: seq<Row>, row: Row, v: ColVal)
    requires KvBuilds(batch, v) && !IsSchema(row) && v.name in row && CellFor(v.dtype, row[v.name]).None?
    ensures !NameOk(DataRows(batch + [row]), v.name)
  {
    hide Builds, NameOk, IsSchema;
    var p: nat :| StartsAt(batch, v, p);
    WrongClass(DataRows(batch[p..]), row, v.(cells := v.cells[p..]));
    DataRowsSplit(batch, p);
    DataRowsSnoc(batch, row);
    NotOkInTail(DataRows(batch[..p]), DataRows(batch[p..]) + [row], v.name);
    assert DataRows(batch + [row]) == DataRows(batch[..p]) + (DataRows(batch[p..]) + [row]);
  }

  lemma NotOkInTail(front: seq<Row>, rows: seq<Row>, name: string)
    requires !NameOk(rows, name)
    ensures !NameOk(front + rows, name)
  {
    forall d ensures !OneClass(front + rows, name, d) {
      if OneClass(front + rows, name, d) {
        forall r | 0 <= r < |rows| && name in rows[r] ensures ClassOf(rows[r][name]) == Some(d) {
          assert (front + rows)[|front| + r] == rows[r];
        }
        assert OneClass(rows, name, d);
      }
    }
  }

  lemma DataRowsSnoc(batch: seq<Row>, row: Row)
    ensures DataRows(batch + [row]) == DataRows(batch) + (if IsSchema(row) then [] else [row])
  {
    assert (batch + [row])[..|batch|] == batch;
  }

  /** `NewColumn`: the dtype of a column that starts with this value. */
  function FirstType(v: Value): Option<DType> {
    ClassOf(v)
  }

  // --- The builder's loop -------------------------------------------------------------------------

  /** `col` is the column that the batch so far has made under `name`. */
  ghost predicate KvBuilt(col: Column, name: string, batch: seq<Row>)
    reads col
  {
    col.Valid() && col.kind == SliceKind && col.times == None && col.name == name && KvBuilds(batch, col.View())
  }

  method AddToKvColumn(col: Column, ghost batch: seq<Row>, row: Row) returns (ok: bool)
    requires KvBuilt(col, col.name, batch) && !IsSchema(row) && col.name in row
    modifies col`data, col`size
    ensures ok ==> KvBuilt(col, col.name, batch + [row])
    ensures !ok ==> !NameOk(DataRows(batch + [row]), col.name)
  {
    hide KvBuilds, NameOk, IsSchema;
    ghost var was := col.View();
    ok := col.Append(row[col.name]);
    if ok {
      KvSnoc(batch, row, was, CellFor(col.dtype, row[col.name]).value);
    } else {
      KvWrong(batch, row, was);
    }
  }

  method StartKvColumn(ghost batch: seq<Row>, row: Row, rowNum: nat, name: string) returns (r: Option<Column>)
    requires rowNum == |batch| && !IsSchema(row) && name in row && !HasName(DataRows(batch), name)
    ensures r.Some? ==> fresh(r.value) && r.value.name == name && KvBuilt(r.value, name, batch + [row])
    ensures r.None? ==> !NameOk(DataRows(batch + [row]), name)
  {
    hide KvBuilds, NameOk, HasName, IsSchema;
    var dtype := FirstType(row[name]);
    DataRowsSnoc(batch, row);
    if dtype.None? {
      NoClass(DataRows(batch), row, name);
      return None;
    }
    var col := new Column.Slice(name, dtype.value, Copies(PrefillCell(dtype.value), rowNum));
    var ok := col.Append(row[name]);
    KvFirst(batch, row, name, dtype.value, CellFor(dtype.value, row[name]).value);
    return Some(col);
  }

  method PadKvColumn(col: Column, ghost batch: seq<Row>, row: Row)
    requires KvBuilt(col, col.name, batch) && !IsSchema(row) && col.name !in row
    modifies col`data, col`size
    ensures KvBuilt(col, col.name, batch + [row])
  {
    hide KvBuilds, IsSchema;
    ghost var was := col.View();
    var ok := col.Append(ZeroValue(col.dtype));
    KvSnoc(batch, row, was, ZeroCell(was.dtype));
  }

  /** The reader's list of columns, and its map from names, hold the same columns. */
  ghost predicate InSync(columns: seq<Column>, byName: ColumnMap) {
    && Keyed(byName)
    && (forall i :: 0 <= i < |columns| ==> columns[i].name in byName && byName[columns[i].name] == columns[i])
    && (forall i, j :: 0 <= i < j < |columns| ==> columns[i].name != columns[j].name)
    && (forall name :: name in byName ==> NameListed(columns, name))
  }

  lemma SyncOne(columns: seq<Column>, byName: ColumnMap, col: Column)
    requires InSync(columns, byName) && col.name !in byName
    ensures InSync(columns + [col], byName[col.name := col])
  {
    NameListedSnoc(columns, col);
  }

  ghost predicate KvHalfBuilt(byName: ColumnMap, batch: seq<Row>, row: Row, done: set<string>)
    reads byName.Values
  {
    && (forall name :: name in byName ==> KvBuilt(byName[name], name, if name in done then batch + [row] else batch))
    && (forall name :: HasName(DataRows(batch), name) || name in done ==> name in byName)
  }

  ghost predicate KvBuilding(byName: ColumnMap, batch: seq<Row>)
    reads byName.Values
  {
    && (forall name :: name in byName ==> KvBuilt(byName[name], name, batch))
    && (forall name :: HasName(DataRows(batch), name) ==> name in byName)
  }

  /** The values of one item, in whatever order its fields are walked. */
  method AddFields(columns: seq<Column>, byName: ColumnMap, ghost batch: seq<Row>, row: Row, rowNum: nat)
    returns (columns': seq<Column>, byName': ColumnMap, ok: bool)
    requires rowNum == |batch| && !IsSchema(row)
    requires InSync(columns, byName) && KvBuilding(byName, batch)
    modifies byName.Values
    ensures ok ==> InSync(columns', byName') && KvHalfBuilt(byName', batch, row, row.Keys)
    ensures ok ==> forall name :: name in byName' ==> byName'[name] in byName.Values || fresh(byName'[name])
    ensures !ok ==> exists name :: name in row && !NameOk(DataRows(batch + [row]), name)
  {
    hide KvBuilt, HasName, NameOk, IsSchema, DataRows, NameListed;
    columns', byName' := columns, byName;
    var todo := row.Keys;
    while todo != {}
      invariant todo <= row.Keys && InSync(columns', byName')
      invariant forall name :: name in byName' ==> byName'[name] in byName.Values || fresh(byName'[name])
      invariant KvHalfBuilt(byName', batch, row, row.Keys - todo)
    {
      var name :| name in todo;
      if name in byName' {
        ok := AddToKvColumn(byName'[name], batch, row);
        if !ok {
          return;
        }
      } else {
        var col := StartKvColumn(batch, row, rowNum, name);
        if col.None? {
          ok := false;
          return;
        }
        SyncOne(columns', byName', col.value);
        columns', byName' := columns' + [col.value], byName'[name := col.value];
      }
      todo := todo - {name};
    }
    ok := true;
  }

  /** `fill columns with nil if there was no value`. */
  method FillMissing(byName: ColumnMap, ghost batch: seq<Row>, row: Row)
    requires !IsSchema(row) && Keyed(byName) && KvHalfBuilt(byName, batch, row, row.Keys)
    modifies byName.Values
    ensures KvBuilding(byName, batch + [row])
  {
    hide KvBuilt, HasName, IsSchema, DataRows;
    var todo := byName.Keys - row.Keys;
    while todo != {}
      invariant todo <= byName.Keys - row.Keys
      invariant KvHalfBuilt(byName, batch, row, byName.Keys + row.Keys - todo)
    {
      var name :| name in todo;
      PadKvColumn(byName[name], batch, row);
      todo := todo - {name};
    }
    DataRowsSnoc(batch, row);
    forall name | HasName(DataRows(batch + [row]), name) ensures name in byName {
      SnocNames(DataRows(batch), row, name);
    }
  }

  lemma SkipSchemaObject(byName: ColumnMap, batch: seq<Row>, row: Row)
    requires KvBuilding(byName, batch) && IsSchema(row)
    ensures KvBuilding(byName, batch + [row])
  {
    hide KvBuilds, HasName, IsSchema;
    DataRowsSnoc(batch, row);
    assert DataRows(batch + [row]) == DataRows(batch);
    forall name | name in byName ensures KvBuilt(byName[name], name, batch + [row]) {
      assert KvBuilt(byName[name], name, batch);
      KvSkip(batch, row, byName[name].View());
    }
  }

  // --- Frames from batches --------------------------------------------------------------------------

  lemma {:induction false} KvLength(batch: seq<Row>, v: ColVal)
    requires KvBuilds(batch, v)
    ensures HasName(DataRows(batch), v.name) && NameOk(DataRows(batch), v.name)
    ensures exists k: nat :: Shift(batch, v.name, k) && |v.cells| == |DataRows(batch)| + k
    ensures forall k: nat :: Shift(batch, v.name, k) ==> |v.cells| == |DataRows(batch)| + k
  {
    hide HasName, IsSchema, NameOk;
    var p: nat :| StartsAt(batch, v, p);
    assert FirstAt(batch, v.name, p);
    FirstHasName(batch, v.name, p);
    DataRowsSplit(batch, p);
    var tail := v.(cells := v.cells[p..]);
    BuildsAfter(DataRows(batch[..p]), DataRows(batch[p..]), tail);
    BuildsIsOk(DataRows(batch), v.(cells := Copies(ZeroCell(v.dtype), |DataRows(batch[..p])|) + tail.cells));
    assert Shift(batch, v.name, p - |DataRows(batch[..p])|);
    forall k: nat | Shift(batch, v.name, k) ensures |v.cells| == |DataRows(batch)| + k {
      var q: nat :| FirstAt(batch, v.name, q) && k == q - |DataRows(batch[..q])|;
      FirstIsUnique(batch, v.name, p, q);
    }
  }

  lemma BuildsIsOk(rows: seq<Row>, v: ColVal)
    requires Builds(rows, v)
    ensures NameOk(rows, v.name)
  {
    BuildsIsOneClass(rows, v);
  }

  /** The columns of a batch have equal lengths exactly when all of them are shifted alike. */
  lemma KvLens(batch: seq<Row>, f: FrameVal)
    requires KvFrame(batch, f)
    ensures EqualLens(f.columns, f.indices) <==> KvOk(batch)
  {
    hide KvBuilds, HasName, IsSchema, NameOk, Shift, DataRows;
    forall v | KvBuilds(batch, v)
      ensures HasName(DataRows(batch), v.name) && NameOk(DataRows(batch), v.name)
      ensures forall k: nat :: Shift(batch, v.name, k) ==> |v.cells| == |DataRows(batch)| + k
      ensures exists k: nat :: Shift(batch, v.name, k)
    {
      KvLength(batch, v);
    }
    forall name | HasName(DataRows(batch), name) ensures NameOk(DataRows(batch), name) {
      assert NameIn(if name == INDEX_NAME then f.indices else f.columns, name);
    }
    if f.columns == [] {
      forall name | HasName(DataRows(batch), name) ensures name == INDEX_NAME && f.indices != [] {
        assert NameIn(if name == INDEX_NAME then f.indices else f.columns, name);
      }
      if f.indices != [] {
        assert HasName(DataRows(batch), f.indices[0].name);
      } else {
        NoShift(batch);
      }
    } else {
      assert HasName(DataRows(batch), f.columns[0].name);
      KvLensWithData(batch, f);
    }
  }

  lemma NoShift(batch: seq<Row>)
    requires forall name :: !HasName(DataRows(batch), name)
    ensures forall name, k: nat :: !Shift(batch, name, k)
  {
    hide HasName;
    forall name, k: nat ensures !Shift(batch, name, k) {
      if p: nat :| FirstAt(batch, name, p) {
        FirstHasName(batch, name, p);
      }
    }
  }

  lemma KvLensWithData(batch: seq<Row>, f: FrameVal)
    requires KvFrame(batch, f) && f.columns != []
    ensures EqualLens(f.columns, f.indices) <==>
            forall m, n, i: nat, j: nat :: Shift(batch, m, i) && Shift(batch, n, j) ==> i == j
  {
    hide KvBuilds, HasName, IsSchema, NameOk, Shift, DataRows;
    if EqualLens(f.columns, f.indices) {
      forall m, n, i: nat, j: nat | Shift(batch, m, i) && Shift(batch, n, j) ensures i == j {
        ShiftedLength(batch, f, m, i);
        ShiftedLength(batch, f, n, j);
      }
    } else {
      KvLength(batch, f.columns[0]);
      var i: nat :| Shift(batch, f.columns[0].name, i);
      if k :| 0 <= k < |f.columns| && |f.columns[k].cells| != |f.columns[0].cells| {
        KvLength(batch, f.columns[k]);
        var j: nat :| Shift(batch, f.columns[k].name, j);
        assert i != j;
      } else {
        var k :| 0 <= k < |f.indices| && |f.indices[k].cells| != |f.columns[0].cells|;
        KvLength(batch, f.indices[k]);
        var j: nat :| Shift(batch, f.indices[k].name, j);
        assert i != j;
      }
    }
  }

  lemma ShiftedLength(batch: seq<Row>, f: FrameVal, name: string, k: nat)
    requires KvFrame(batch, f) && f.columns != [] && EqualLens(f.columns, f.indices) && Shift(batch, name, k)
    ensures |f.columns[0].cells| == |DataRows(batch)| + k
  {
    hide KvBuilds, HasName, IsSchema, DataRows;
    var p: nat :| FirstAt(batch, name, p) && k == p - |DataRows(batch[..p])|;
    FirstHasName(batch, name, p);
    var side := if name == INDEX_NAME then f.indices else f.columns;
    assert NameIn(side, name);
    var i :| 0 <= i < |side| && side[i].name == name;
    KvLength(batch, side[i]);
  }

  /** `RemoveColumn`: drops the first column with this name. */
  method RemoveColumn(name: string, columns: seq<Column>) returns (left: seq<Column>)
    ensures (forall i :: 0 <= i < |columns| ==> columns[i].name != name) ==> left == columns
    ensures forall i :: 0 <= i < |columns| && columns[i].name == name && (forall j :: 0 <= j < i ==> columns[j].name != name)
                        ==> left == columns[..i] + columns[i + 1..]
  {
    for i := 0 to |columns|
      invariant forall j :: 0 <= j < i ==> columns[j].name != name
    {
      if columns[i].name == name {
        return columns[..i] + columns[i + 1..];
      }
    }
    return columns;
  }

  ghost predicate KvListed(columns: seq<Column>, batch: seq<Row>)
    reads columns
  {
    && (forall i :: 0 <= i < |columns| ==> KvBuilt(columns[i], columns[i].name, batch))
    && (forall i, j :: 0 <= i < j < |columns| ==> columns[i].name != columns[j].name)
  }

  lemma KvViews(columns: seq<Column>, batch: seq<Row>)
    requires KvListed(columns, batch)
    ensures AllValid(columns) && DistinctNames(Views(columns))
    ensures forall i :: 0 <= i < |columns| ==> KvBuilds(batch, Views(columns)[i]) && Views(columns)[i].name == columns[i].name
    ensures forall name :: NameListed(columns, name) ==> NameIn(Views(columns), name)
  {
    hide KvBuilds, Column.Valid, Column.Cells;
    forall i | 0 <= i < |columns| ensures columns[i].Valid() && KvBuilds(batch, columns[i].View()) {
      assert KvBuilt(columns[i], columns[i].name, batch);
    }
    forall name | NameListed(columns, name) ensures NameIn(Views(columns), name) {
      var i :| 0 <= i < |columns| && columns[i].name == name;
      assert Views(columns)[i].name == name;
    }
  }

  /** What is left of a list of columns without the one at `k`. */
  lemma WithoutIndex(columns: seq<Column>, byName: ColumnMap, k: nat)
    requires InSync(columns, byName) && k < |columns| && columns[k].name == INDEX_NAME
    ensures var data := columns[..k] + columns[k + 1..];
            && (forall i :: 0 <= i < |data| ==> data[i].name in byName && byName[data[i].name] == data[i] && data[i].name != INDEX_NAME)
            && (forall i, j :: 0 <= i < j < |data| ==> data[i].name != data[j].name)
            && (forall name :: name in byName && name != INDEX_NAME ==> NameListed(data, name))
  {
    var data := columns[..k] + columns[k + 1..];
    assert forall i :: 0 <= i < |data| ==> data[i] == columns[if i < k then i else i + 1];
    forall name | name in byName && name != INDEX_NAME ensures NameListed(data, name) {
      assert NameListed(columns, name);
      var i :| 0 <= i < |columns| && columns[i].name == name;
      assert data[if i < k then i else i - 1] == columns[i];
    }
  }

  /** Moves the index column, if there is one, out of the list. */
  method SplitIndex(columns: seq<Column>, byName: ColumnMap, ghost batch: seq<Row>)
    returns (data: seq<Column>, indices: seq<Column>)
    requires InSync(columns, byName) && KvBuilding(byName, batch)
    ensures KvListed(data, batch) && KvListed(indices, batch)
    ensures forall i :: 0 <= i < |data| ==> data[i].name != INDEX_NAME
    ensures forall i :: 0 <= i < |indices| ==> indices[i].name == INDEX_NAME
    ensures forall name :: name in byName ==> NameListed(if name == INDEX_NAME then indices else data, name)
  {
    hide KvBuilt, HasName, DataRows, NameListed;
    if INDEX_NAME in byName {
      ghost var k := IndexOf(columns, INDEX_NAME);
      WithoutIndex(columns, byName, k);
      data := RemoveColumn(INDEX_NAME, columns);
      assert data == columns[..k] + columns[k + 1..];
      indices := [byName[INDEX_NAME]];
      ListedAlone(indices[0]);
    } else {
      data, indices := columns, [];
    }
  }

  lemma IndexOf(columns: seq<Column>, name: string) returns (k: nat)
    requires NameListed(columns, name)
    ensures k < |columns| && columns[k].name == name
  {
    k :| k < |columns| && columns[k].name == name;
  }

  lemma ListedAlone(col: Column)
    ensures NameListed([col], col.name)
  {
    assert [col][0].name == col.name;
  }

  /** The frame of one batch. */
  method MakeFrame(columns: seq<Column>, byName: ColumnMap, ghost batch: seq<Row>) returns (r: Result<Frame, FrameError>)
    requires InSync(columns, byName) && KvBuilding(byName, batch)
    ensures r.Success? <==> KvOk(batch)
    ensures r.Success? ==> fresh(r.value) && r.value.Valid() && KvFrame(batch, r.value.View())
  {
    hide KvBuilt, KvBuilds, HasName, DataRows, NameListed, NameIn, KvOk, EqualLens, Column.Valid, Column.Cells, InSync, KvListed, Views;
    var data, indices := SplitIndex(columns, byName, batch);
    KvViews(data, batch);
    KvViews(indices, batch);
    ghost var f := FrameVal(Views(data), Views(indices));
    assert KvFrame(batch, f) by {
      assert DistinctNames(AllCols(f));
    }
    KvLens(batch, f);
    r := NewFrame(data, indices, map[]);
  }

  // --- The iterator -----------------------------------------------------------------------------------

  datatype KvError = CursorError(cursor: AsyncCursor.Failure) | BuildError

  class Iterator {
    const iter: AsyncItemsCursor
    const messageLimit: int
    var err: Option<KvError>
    var currFrame: Option<Frame>

    /** A message limit of 0 in the request stands for 256. */
    constructor (iter: AsyncItemsCursor, requestLimit: int)
      ensures this.iter == iter && messageLimit == if requestLimit == 0 then 256 else requestLimit
      ensures err == None && currFrame == None
    {
      this.iter := iter;
      messageLimit := if requestLimit == 0 then 256 else requestLimit;
      err, currFrame := None, None;
    }

    /** What taking `batch` off the cursor did to it, if it met no error. */
    ghost predicate Took(before: Log, batch: seq<Row>)
      reads iter, iter.container
    {
      iter.currentError.None? ==> iter.Valid() && Untag(iter.delivered) == Untag(before) + batch
    }

    /** `iter.Next()`, guarded by the limit: the limit is looked at before an item is taken. */
    method Advance(rowNum: nat) returns (more: bool)
      requires iter.Valid() && iter.currentError == None
      modifies iter, iter.container
      ensures iter.currentError.Some? ==> !more && iter.SomeShardFails()
      ensures Took(old(iter.delivered), if more then [iter.currentItem] else [])
      ensures more ==> rowNum < messageLimit
      ensures !more && iter.currentError.None? && rowNum < messageLimit ==> iter.Drained() || iter.LimitReached()
    {
      hide Inv, Untag;
      more := rowNum < messageLimit;
      ghost var was := iter.delivered;
      assert Untag(was) + [] == Untag(was);
      if more {
        more := iter.Next();
        if more {
          LogSnoc(was, (iter.lane, iter.currentItem));
        }
      }
    }

    /** One item: the schema object is skipped, and yet it counts as a row. */
    method AddItem(columns: seq<Column>, byName: ColumnMap, ghost batch: seq<Row>, row: Row, rowNum: nat)
      returns (columns': seq<Column>, byName': ColumnMap, ok: bool)
      requires rowNum == |batch| && InSync(columns, byName) && KvBuilding(byName, batch)
      modifies byName.Values
      ensures ok ==> InSync(columns', byName') && KvBuilding(byName', batch + [row])
      ensures ok ==> forall name :: name in byName' ==> byName'[name] in byName.Values || fresh(byName'[name])
      ensures !ok ==> !KvOk(batch + [row])
    {
      hide KvBuilt, HasName, NameOk, IsSchema, InSync, KvBuilding, KvHalfBuilt;
      if IsSchema(row) {
        SkipSchemaObject(byName, batch, row);
        return columns, byName, true;
      }
      columns', byName', ok := AddFields(columns, byName, batch, row, rowNum);
      if ok {
        SyncIsKeyed(columns', byName');
        FillMissing(byName', batch, row);
      } else {
        NotOkRow(batch, row);
      }
    }

    /** The loop of `Next`: takes items off the cursor, up to the limit, and adds them to columns. */
    method ReadBatch() returns (columns: seq<Column>, byName: ColumnMap, rowNum: nat, ok: bool, ghost batch: seq<Row>)
      requires iter.Valid() && iter.currentError == None
      modifies iter, iter.container
      ensures rowNum <= |batch| <= if messageLimit > 0 then messageLimit else 0
      ensures ok ==> rowNum == |batch| && InSync(columns, byName) && KvBuilding(byName, batch)
      ensures !ok ==> !KvOk(batch) && iter.currentError == None
      ensures iter.currentError.Some? ==> iter.SomeShardFails()
      ensures Took(old(iter.delivered), batch)
      ensures ok && iter.currentError.None? && |batch| < messageLimit ==> iter.Drained() || iter.LimitReached()
    {
      hide Inv, Untag, InSync, KvBuilding, KvOk;
      columns, byName, ok, batch := [], map[], true, [];
      NothingBuilt();
      rowNum := 0;
      var more := Advance(rowNum);
      while more
        invariant rowNum == |batch| && (batch != [] ==> |batch| <= messageLimit) && (more ==> |batch| < messageLimit)
        invariant InSync(columns, byName) && KvBuilding(byName, batch)
        invariant forall name :: name in byName ==> fresh(byName[name])
        invariant iter.currentError.Some? ==> !more && iter.SomeShardFails()
        invariant Took(old(iter.delivered), batch + (if more then [iter.currentItem] else []))
        invariant !more && iter.currentError.None? && |batch| < messageLimit ==> iter.Drained() || iter.LimitReached()
        decreases messageLimit - rowNum, more
      {
        var row := iter.currentItem;
        columns, byName, ok := AddItem(columns, byName, batch, row, rowNum);
        batch := batch + [row];
        if !ok {
          return;
        }
        rowNum := rowNum + 1;
        label Before:
        more := Advance(rowNum);
        assert batch + (if more then [iter.currentItem] else []) + [] == batch + (if more then [iter.currentItem] else []);
      }
      assert batch + [] == batch;
    }

    /** `Next`: one frame for one batch, and an error exactly when the cursor fails or the batch makes no frame. */
    method Next() returns (ok: bool, ghost batch: seq<Row>)
      requires iter.Valid() && iter.currentError == None && err == None
      modifies this, iter, iter.container
      ensures ok ==> err == None && iter.currentError == None
      ensures err == None ==> iter.currentError == None && iter.Valid()
      ensures Took(old(iter.delivered), batch) && |batch| <= if messageLimit > 0 then messageLimit else 0
      ensures ok ==> batch != [] && currFrame.Some? && currFrame.value.Valid() && KvFrame(batch, currFrame.value.View())
      ensures ok ==> AllKeepBatch(batch, currFrame.value.View())
      ensures ok && |batch| < messageLimit ==> iter.Drained() || iter.LimitReached()
      ensures !ok && err == None ==> batch == [] && (messageLimit > 0 ==> iter.Drained() || iter.LimitReached())
      ensures err == Some(BuildError) ==> !KvOk(batch)
      ensures err.Some? && err != Some(BuildError) ==> iter.SomeShardFails()
      ensures KvOk(batch) && iter.currentError.None? ==> err == None
    {
      hide Inv, Untag, InSync, KvBuilding, KvOk, KvFrame, AllKeepBatch, Frame.Valid, Frame.View;
      hide AsyncItemsCursor.Drained, AsyncItemsCursor.LimitReached, AsyncItemsCursor.Valid, AsyncItemsCursor.SomeShardFails;
      var columns, byName, rowNum;
      columns, byName, rowNum, ok, batch := ReadBatch();
      if !ok {
        err := Some(BuildError);
        return;
      }
      if iter.currentError.Some? {
        err := Some(CursorError(iter.currentError.value));
        ok := false;
        return;
      }
      if rowNum == 0 {
        ok := false;
        return;
      }
      var r := MakeFrame(columns, byName, batch);
      if r.Failure? {
        err := Some(BuildError);
        ok := false;
        return;
      }
      KvFrameKeepsBatch(batch, r.value.View());
      currFrame := Some(r.value);
    }
  }

  lemma NothingBuilt()
    ensures InSync([], map[]) && KvBuilding(map[], [])
  {
  }

  lemma SyncIsKeyed(columns: seq<Column>, byName: ColumnMap)
    requires InSync(columns, byName)
    ensures Keyed(byName)
  {
  }

  lemma NotOkRow(batch: seq<Row>, row: Row)
    requires !IsSchema(row) && exists name :: name in row && !NameOk(DataRows(batch + [row]), name)
    ensures !KvOk(batch + [row])
  {
    hide NameOk, IsSchema;
    var name :| name in row && !NameOk(DataRows(batch + [row]), name);
    DataRowsSnoc(batch, row);
    SnocNames(DataRows(batch), row, name);
  }

  // --- A whole read -------------------------------------------------------------------------------------

  function Joined(batches: seq<seq<Row>>): seq<Row> {
    if batches == [] then [] else Joined(batches[..|batches| - 1]) + batches[|batches| - 1]
  }

  /** Full batches, except that the last may be shorter; none is empty. */
  predicate WellCut(batches: seq<seq<Row>>, k: int) {
    forall i :: 0 <= i < |batches| ==> 0 < |batches[i]| <= k && (i < |batches| - 1 ==> |batches[i]| == k)
  }

  ghost predicate FramesOf(views: seq<FrameVal>, batches: seq<seq<Row>>) {
    |views| == |batches| && forall i :: 0 <= i < |views| ==> KvFrame(batches[i], views[i])
  }

  /** What a read run has come to: `views` are the frames that were current, one for each batch. */
  ghost predicate RunOk(cursor: AsyncItemsCursor, views: seq<FrameVal>, batches: seq<seq<Row>>, k: int)
    reads cursor, cursor.container
  {
    && cursor.Valid() && cursor.currentError == None
    && Untag(cursor.delivered) == Joined(batches)
    && FramesOf(views, batches) && WellCut(batches, k)
    && (batches != [] && |batches[|batches| - 1]| < k ==> cursor.Drained())
  }

  /** One more batch keeps the run well cut: a short batch is only ever the last. */
  lemma OneMoreBatch(views: seq<FrameVal>, batches: seq<seq<Row>>, k: int, view: FrameVal, batch: seq<Row>)
    requires FramesOf(views, batches) && WellCut(batches, k) && KvFrame(batch, view)
    requires 0 < |batch| <= k && (batches != [] ==> |batches[|batches| - 1]| == k)
    ensures FramesOf(views + [view], batches + [batch]) && WellCut(batches + [batch], k)
    ensures Joined(batches + [batch]) == Joined(batches) + batch
  {
    hide KvFrame;
    assert (batches + [batch])[..|batches|] == batches;
  }

  /** One round of the loop that reads all frames. */
  method ReadOne(it: Iterator, ghost views: seq<FrameVal>, ghost batches: seq<seq<Row>>)
    returns (ok: bool, ghost views': seq<FrameVal>, ghost batches': seq<seq<Row>>)
    requires it.err == None && it.messageLimit > 0 && it.iter.limit <= 0
    requires RunOk(it.iter, views, batches, it.messageLimit)
    modifies it, it.iter, it.iter.container
    ensures it.err == None ==> RunOk(it.iter, views', batches', it.messageLimit) && |views'| == |views| + (if ok then 1 else 0)
    ensures ok ==> it.err == None && Undelivered(it.iter) < old(Undelivered(it.iter))
    ensures !ok && it.err == None ==> it.iter.Drained()
    ensures it.err == Some(BuildError) ==> exists b :: b in batches' && !KvOk(b)
    ensures it.err.Some? && it.err != Some(BuildError) ==> it.iter.SomeShardFails()
  {
    hide Inv, Untag, IsInterleaving, KvOk, KvFrame, SumLen, AllExpected, Frame.Valid, Fails, FramesOf, Joined;
    ghost var cursor, before := it.iter, it.iter.delivered;
    cursor.DeliveredSoFar();
    ghost var batch;
    ok, batch := it.Next();
    views', batches' := views, batches;
    if ok {
      assert |Untag(cursor.delivered)| == |Untag(before)| + |batch|;
      cursor.DeliveredSoFar();
      ghost var view := it.currFrame.value.View();
      OneMoreBatch(views, batches, it.messageLimit, view, batch);
      views', batches' := views + [view], batches + [batch];
      assert batches'[|batches'| - 1] == batch;
    } else if it.err.Some? {
      batches' := batches + [batch];
      assert batches'[|batches|] == batch;
    } else {
      assert Untag(before) + [] == Untag(before);
    }
  }

  ghost function Undelivered(cursor: AsyncItemsCursor): int
    reads cursor
  {
    SumLen(AllExpected(cursor.container.shards)) - |cursor.delivered|
  }

  /**
    * A whole read ends. Without an error its frames stand for every item of every shard exactly
    * once, in the order in which the cursor delivered them, cut into batches of the limit.
    */
  method ReadAll(it: Iterator) returns (nFrames: nat, ghost views: seq<FrameVal>, ghost batches: seq<seq<Row>>)
    requires it.iter.Valid() && it.iter.currentError == None && it.iter.delivered == [] && it.err == None
    requires it.messageLimit > 0 && it.iter.limit <= 0
    modifies it, it.iter, it.iter.container
    ensures it.err == None ==> nFrames == |views| && FramesOf(views, batches) && WellCut(batches, it.messageLimit)
    ensures it.err == None ==> forall i :: 0 <= i < |views| ==> AllKeepBatch(batches[i], views[i])
    ensures it.err == None ==> IsInterleaving(Joined(batches), AllExpected(it.iter.container.shards))
    ensures it.err == Some(BuildError) ==> exists b :: b in batches && !KvOk(b)
    ensures it.err.Some? && it.err != Some(BuildError) ==> it.iter.SomeShardFails()
    ensures it.iter.SomeShardFails() ==> it.err.Some?
  {
    hide Inv, IsInterleaving, KvOk, KvFrame, SumLen, AllExpected, Fails;
    nFrames, views, batches := 0, [], [];
    var ok := true;
    while ok
      invariant ok ==> it.err == None
      invariant it.err == None ==> nFrames == |views| && RunOk(it.iter, views, batches, it.messageLimit)
      invariant !ok && it.err == None ==> it.iter.Drained()
      invariant it.err == Some(BuildError) ==> exists b :: b in batches && !KvOk(b)
      invariant it.err.Some? && it.err != Some(BuildError) ==> it.iter.SomeShardFails()
      decreases if ok then Undelivered(it.iter) + 1 else 0
    {
      it.iter.DeliveredSoFar();
      ok, views, batches := ReadOne(it, views, batches);
      if ok {
        it.iter.DeliveredSoFar();
        nFrames := nFrames + 1;
      }
      assert it.err == None ==> nFrames == |views|;
    }
    if it.err == None {
      it.iter.DeliveredSoFar();
      forall i | 0 <= i < |views| ensures AllKeepBatch(batches[i], views[i]) {
        KvFrameKeepsBatch(batches[i], views[i]);
      }
    }
  }
}
