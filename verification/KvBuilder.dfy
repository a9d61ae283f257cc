/** The key-value reader's own row-to-column builder (backends/kv/reader.go, backends/utils/utils.go). */
module KvBuilder {
  import opened Wrappers
  import opened Values
  import opened Columns
  import opened Frames
  import opened RowBuilder

  const INDEX_NAME := "__name"
  const SCHEMA_NAME := ".#schema"

  // --- Specification ----------------------------------------------------------------------------

  /** The table's schema object, which the reader skips. */
  predicate IsSchema(row: Row) {
    INDEX_NAME in row && row[INDEX_NAME] == Str(SCHEMA_NAME)
  }

  function DataRows(batch: seq<Row>): seq<Row> {
    if batch == [] then [] else
      DataRows(batch[..|batch| - 1]) + (if IsSchema(batch[|batch| - 1]) then [] else [batch[|batch| - 1]])
  }

  /** The padding that `NewColumn` makes: as elsewhere, except that a time is `time.Time{}`. */
  function PrefillCell(dtype: DType): (c: Cell)
    ensures c.DType() == dtype
    ensures c == ZeroCell(dtype) <==> dtype != TimeType
  {
    if dtype == TimeType then
      assert ZERO_TIME.UnixNano() != 0 && Unix(0, 0).UnixNano() == 0;
      TimeCell(ZERO_TIME.UnixNano())
    else ZeroCell(dtype)
  }

  /** `v` first appears in row `p` of the batch; it is prefilled for all rows before, schema objects too. */
  ghost predicate StartsAt(batch: seq<Row>, v: ColVal, p: nat) {
    && p < |batch| && !IsSchema(batch[p]) && v.name in batch[p]
    && !HasName(DataRows(batch[..p]), v.name)
    && p <= |v.cells|
    && v.cells[..p] == Copies(PrefillCell(v.dtype), p)
    && Builds(DataRows(batch[p..]), v.(cells := v.cells[p..]))
  }

  ghost predicate KvBuilds(batch: seq<Row>, v: ColVal) {
    exists p: nat :: StartsAt(batch, v, p)
  }

  /** `f` is a frame that the reader makes of this batch. */
  ghost predicate KvFrame(batch: seq<Row>, f: FrameVal) {
    && DistinctNames(AllCols(f))
    && (forall i :: 0 <= i < |f.columns| ==> KvBuilds(batch, f.columns[i]) && f.columns[i].name != INDEX_NAME)
    && (forall i :: 0 <= i < |f.indices| ==> KvBuilds(batch, f.indices[i]) && f.indices[i].name == INDEX_NAME)
    && (forall name :: HasName(DataRows(batch), name) ==>
          NameIn(if name == INDEX_NAME then f.indices else f.columns, name))
  }

  /** What stands before the first value of a column: a time is the first instant of year 1, in wrapped nanoseconds. */
  predicate IsPrefill(cell: Cell) {
    match cell
    case TimeCell(ns) => ns == -6795364578871345152
    case _ => IsPadding(cell)
  }

  /**
    * What a column of the reader holds, cell by cell: prefill for every row before the first with its
    * name, schema objects counted, and from there on, schema objects not counted, each row's value or
    * what stands for a missing one.
    */
  ghost predicate KeepsBatch(batch: seq<Row>, v: ColVal) {
    exists p: nat ::
      && FirstAt(batch, v.name, p) && p <= |v.cells|
      && (forall i :: 0 <= i < p ==> v.cells[i].DType() == v.dtype && IsPrefill(v.cells[i]))
      && KeepsRows(DataRows(batch[p..]), v.(cells := v.cells[p..]))
  }

  ghost predicate AllKeepBatch(batch: seq<Row>, f: FrameVal) {
    && (forall i :: 0 <= i < |f.columns| ==> KeepsBatch(batch, f.columns[i]) && f.columns[i].name != "__name")
    && (forall i :: 0 <= i < |f.indices| ==> KeepsBatch(batch, f.indices[i]) && f.indices[i].name == "__name")
  }

  /** Row `p` is the first data row with this name. */
  ghost predicate FirstAt(batch: seq<Row>, name: string, p: nat) {
    p < |batch| && !IsSchema(batch[p]) && name in batch[p] && !HasName(DataRows(batch[..p]), name)
  }

  /** No name first appears behind a schema object, and no time column first appears after row 0. */
  ghost predicate Aligned(batch: seq<Row>) {
    forall name, p: nat :: FirstAt(batch, name, p) ==>
      && DataRows(batch[..p]) == batch[..p]
      && (p > 0 ==> ClassOf(batch[p][name]) != Some(TimeType))
  }

  // --- Facts about the specification ---------------------------------------------------------------

  lemma PrefillCellIsPrefill(dtype: DType)
    ensures IsPrefill(PrefillCell(dtype))
  {
  }

  /** The rows that are skipped: the ones named `.#schema`, whatever else they hold. */
  lemma SchemaObject(batch: seq<Row>, row: Row)
    ensures DataRows(batch + [row]) == DataRows(batch) +
      (if "__name" in row && row["__name"] == Str(".#schema") then [] else [row])
  {
    assert (batch + [row])[..|batch|] == batch;
  }

  lemma KvBuildsKeepsBatch(batch: seq<Row>, v: ColVal)
    requires KvBuilds(batch, v)
    ensures KeepsBatch(batch, v)
  {
    hide DataRows, HasName, IsSchema, Builds, KeepsRows, IsPrefill, PrefillCell;
    var p: nat :| StartsAt(batch, v, p);
    PrefillCellIsPrefill(v.dtype);
    forall i | 0 <= i < p ensures v.cells[i].DType() == v.dtype && IsPrefill(v.cells[i]) {
      assert v.cells[..p][i] == PrefillCell(v.dtype);
    }
    BuildsKeepsRows(DataRows(batch[p..]), v.(cells := v.cells[p..]));
    assert FirstAt(batch, v.name, p);
  }

  /** Every column of the reader's frame holds what the batch says. */
  lemma KvFrameKeepsBatch(batch: seq<Row>, f: FrameVal)
    requires KvFrame(batch, f)
    ensures AllKeepBatch(batch, f)
  {
    hide KvBuilds, KeepsBatch, HasName, DataRows;
    forall v | v in f.columns || v in f.indices ensures KeepsBatch(batch, v) {
      KvBuildsKeepsBatch(batch, v);
    }
  }

  lemma {:induction false} DataRowsAppend(a: seq<Row>, b: seq<Row>)
    ensures DataRows(a + b) == DataRows(a) + DataRows(b)
  {
    if b == [] {
      assert a + b == a;
    } else {
      DataRowsAppend(a, b[..|b| - 1]);
      assert (a + b)[..|a + b| - 1] == a + b[..|b| - 1];
    }
  }

  lemma {:induction false} DataRowsSplit(batch: seq<Row>, p: nat)
    requires p <= |batch|
    ensures DataRows(batch) == DataRows(batch[..p]) + DataRows(batch[p..])
    ensures |DataRows(batch[..p])| <= p
    ensures |DataRows(batch[..p])| == p ==> DataRows(batch[..p]) == batch[..p]
  {
    assert batch == batch[..p] + batch[p..];
    DataRowsAppend(batch[..p], batch[p..]);
    DataRowsLength(batch[..p]);
  }

  lemma {:induction false} DataRowsLength(batch: seq<Row>)
    ensures |DataRows(batch)| <= |batch|
    ensures |DataRows(batch)| == |batch| ==> DataRows(batch) == batch
  {
    if batch != [] {
      DataRowsLength(batch[..|batch| - 1]);
    }
  }

  lemma FirstIsUnique(batch: seq<Row>, name: string, p: nat, q: nat)
    requires FirstAt(batch, name, p) && FirstAt(batch, name, q)
    ensures p == q
  {
    if p < q {
      HasNameAt(batch, name, p, q);
    } else if q < p {
      HasNameAt(batch, name, q, p);
    }
  }

  lemma HasNameAt(batch: seq<Row>, name: string, p: nat, q: nat)
    requires p < q <= |batch| && !IsSchema(batch[p]) && name in batch[p]
    ensures HasName(DataRows(batch[..q]), name)
  {
    var front := batch[..p + 1];
    assert front[..p] == batch[..p] && batch[..q][..p + 1] == front;
    DataRowsSplit(batch[..q], p + 1);
    var k := |DataRows(batch[..p])|;
    assert DataRows(front) == DataRows(batch[..p]) + [batch[p]];
    assert DataRows(batch[..q])[k] == batch[p];
  }

  /** Joining a run of rows without the name to the front of a column's own rows. */
  lemma BuildsAfter(front: seq<Row>, rows: seq<Row>, v: ColVal)
    requires Builds(rows, v) && !HasName(front, v.name)
    ensures Builds(front + rows, v.(cells := Copies(ZeroCell(v.dtype), |front|) + v.cells))
  {
    var all := front + rows;
    var r :| 0 <= r < |rows| && v.name in rows[r];
    assert v.name in all[|front| + r];
    forall i | 0 <= i < |front| ensures v.name !in all[i] {
      assert all[i] == front[i];
    }
  }

  /** The reader's column is the other builder's exactly if it starts aligned and not late with a time. */
  lemma ColumnAgrees(batch: seq<Row>, v: ColVal, w: ColVal, p: nat)
    requires StartsAt(batch, v, p) && Builds(DataRows(batch), w) && v.name == w.name
    ensures v == w <==> DataRows(batch[..p]) == batch[..p] && (p > 0 ==> w.dtype != TimeType)
    ensures v.dtype == w.dtype && ClassOf(batch[p][v.name]) == Some(v.dtype)
    ensures |v.cells| == |w.cells| + p - |DataRows(batch[..p])|
  {
    hide Builds, HasName, IsSchema, DataRows;
    var front, rows := DataRows(batch[..p]), DataRows(batch[p..]);
    var tail := v.(cells := v.cells[p..]);
    DataRowsSplit(batch, p);
    BuildsAfter(front, rows, tail);
    var u := v.(cells := Copies(ZeroCell(v.dtype), |front|) + v.cells[p..]);
    BuildsIsUnique(DataRows(batch), u, w);
    FirstRow(batch, p);
    ClassAt(rows, tail);
    assert v.cells == Copies(PrefillCell(v.dtype), p) + v.cells[p..];
    if |front| == p && p > 0 {
      assert v.cells[0] == PrefillCell(v.dtype) && u.cells[0] == ZeroCell(v.dtype);
      if v.dtype != TimeType {
        assert Copies(PrefillCell(v.dtype), p) == Copies(ZeroCell(v.dtype), p);
      }
    } else if p == 0 {
      assert Copies(ZeroCell(v.dtype), 0) == Copies(PrefillCell(v.dtype), 0) == [];
    }
  }

  lemma FirstRow(batch: seq<Row>, p: nat)
    requires p < |batch| && !IsSchema(batch[p])
    ensures DataRows(batch[p..]) != [] && DataRows(batch[p..])[0] == batch[p]
  {
    DataRowsSplit(batch[p..], 1);
    assert batch[p..][..1] == [batch[p]];
    assert [batch[p]][..0] == [];
  }

  lemma ClassAt(rows: seq<Row>, v: ColVal)
    requires rows != [] && Builds(rows, v) && v.name in rows[0]
    ensures ClassOf(rows[0][v.name]) == Some(v.dtype)
  {
    BuildsIsOneClass(rows, v);
  }

  /**
    * The two builders agree: what the reader makes of a batch is, up to the order of columns, what
    * `NewFrameFromRows` makes of its data rows, exactly when the batch is aligned.
    */
  lemma BuildersAgree(batch: seq<Row>, f: FrameVal, g: FrameVal)
    requires KvFrame(batch, f) && FromRows(DataRows(batch), [INDEX_NAME], g)
    ensures multiset(f.columns) == multiset(g.columns) && multiset(f.indices) == multiset(g.indices) <==> Aligned(batch)
  {
    hide Builds, HasName, IsSchema, DataRows, StartsAt;
    Halves(f);
    Halves(g);
    if Aligned(batch) {
      forall v | v in f.columns || v in f.indices ensures v in (if v.name == INDEX_NAME then g.indices else g.columns) {
        var w := Counterpart(batch, g, v);
      }
      forall w | w in g.columns || w in g.indices ensures w in (if w.name == INDEX_NAME then f.indices else f.columns) {
        BuildsHasName(DataRows(batch), w);
        var side := if w.name == INDEX_NAME then f.indices else f.columns;
        assert NameIn(side, w.name);
        var i :| 0 <= i < |side| && side[i].name == w.name;
        var w' := Counterpart(batch, g, side[i]);
        BuildsIsUnique(DataRows(batch), w, w');
      }
      PermutationOf(f.columns, g.columns);
      PermutationOf(f.indices, g.indices);
    } else {
      var name, p: nat :| FirstAt(batch, name, p) &&
                     !(DataRows(batch[..p]) == batch[..p] && (p > 0 ==> ClassOf(batch[p][name]) != Some(TimeType)));
      FirstHasName(batch, name, p);
      var side := if name == INDEX_NAME then f.indices else f.columns;
      assert NameIn(side, name);
      var i :| 0 <= i < |side| && side[i].name == name;
      Misaligned(batch, g, side[i], p);
      assert side[i] in multiset(side);
    }
  }

  lemma FirstHasName(batch: seq<Row>, name: string, p: nat)
    requires FirstAt(batch, name, p)
    ensures HasName(DataRows(batch), name)
  {
    assert batch[..|batch|] == batch;
    HasNameAt(batch, name, p, |batch|);
  }

  /** The other builder's column of the same name, equal to the reader's in an aligned batch. */
  lemma Counterpart(batch: seq<Row>, g: FrameVal, v: ColVal) returns (w: ColVal)
    requires KvBuilds(batch, v) && FromRows(DataRows(batch), [INDEX_NAME], g) && Aligned(batch)
    ensures w in (if v.name == INDEX_NAME then g.indices else g.columns) && w == v && Builds(DataRows(batch), w)
  {
    hide Builds, HasName, IsSchema, DataRows;
    var p: nat :| StartsAt(batch, v, p);
    assert FirstAt(batch, v.name, p);
    FirstHasName(batch, v.name, p);
    var side := if v.name in [INDEX_NAME] then g.indices else g.columns;
    assert NameIn(side, v.name);
    var i :| 0 <= i < |side| && side[i].name == v.name;
    w := side[i];
    ColumnAgrees(batch, v, w, p);
    FirstRow(batch, p);
  }

  lemma Misaligned(batch: seq<Row>, g: FrameVal, v: ColVal, p: nat)
    requires KvBuilds(batch, v) && FromRows(DataRows(batch), [INDEX_NAME], g) && FirstAt(batch, v.name, p)
    requires !(DataRows(batch[..p]) == batch[..p] && (p > 0 ==> ClassOf(batch[p][v.name]) != Some(TimeType)))
    ensures v !in (if v.name == INDEX_NAME then g.indices else g.columns)
  {
    hide Builds, HasName, IsSchema, DataRows;
    var q: nat :| StartsAt(batch, v, q);
    assert FirstAt(batch, v.name, q);
    FirstIsUnique(batch, v.name, p, q);
    var side := if v.name in [INDEX_NAME] then g.indices else g.columns;
    forall i | 0 <= i < |side| ensures side[i] != v {
      if side[i].name == v.name {
        ColumnAgrees(batch, v, side[i], p);
      }
    }
  }

  // --- When each builder succeeds -------------------------------------------------------------------

  /** How many schema objects precede the first row with this name. */
  ghost predicate Shift(batch: seq<Row>, name: string, k: nat) {
    exists p: nat :: FirstAt(batch, name, p) && k == p - |DataRows(batch[..p])|
  }

  /** When the reader makes a frame of a batch: as for its data rows, and all columns shifted alike. */
  ghost predicate KvOk(batch: seq<Row>) {
    && RowsOk(DataRows(batch), [INDEX_NAME], map[])
    && (forall m, n, i: nat, j: nat :: Shift(batch, m, i) && Shift(batch, n, j) ==> i == j)
  }

  /** On an aligned batch the reader succeeds exactly when the other builder does. */
  lemma AlignedIsEnough(batch: seq<Row>)
    requires Aligned(batch)
    ensures KvOk(batch) <==> RowsOk(DataRows(batch), [INDEX_NAME], map[])
  {
    hide RowsOk, HasName, IsSchema;
  }

  /** Without schema objects only late time columns are misaligned, and they never make the reader fail. */
  lemma WithoutSchemaObject(batch: seq<Row>)
    requires forall i :: 0 <= i < |batch| ==> !IsSchema(batch[i])
    ensures DataRows(batch) == batch
    ensures KvOk(batch) <==> RowsOk(batch, [INDEX_NAME], map[])
    ensures Aligned(batch) <==> forall name, p: nat :: FirstAt(batch, name, p) && p > 0 ==> ClassOf(batch[p][name]) != Some(TimeType)
  {
    hide RowsOk, HasName;
    forall p: nat | p <= |batch| ensures DataRows(batch[..p]) == batch[..p] {
      NothingSkipped(batch[..p]);
    }
    assert batch[..|batch|] == batch;
  }

  lemma {:induction false} NothingSkipped(batch: seq<Row>)
    requires forall i :: 0 <= i < |batch| ==> !IsSchema(batch[i])
    ensures DataRows(batch) == batch
  {
    if batch != [] {
      NothingSkipped(batch[..|batch| - 1]);
    }
  }

  lemma OnlyRow(schema: Row, row: Row)
    requires IsSchema(schema) && !IsSchema(row)
    ensures DataRows([schema]) == [] && DataRows([row]) == [row] && DataRows([schema, row]) == [row]
    ensures [schema, row][..1] == [schema] && [schema, row][1..] == [row] && DataRows([schema, row][..0]) == []
  {
    assert [schema, row][..1] == [schema] && [schema][..0] == [] && [row][..0] == [];
  }

  lemma OnlyName(row: Row, name: string, i: int64)
    requires row == map[name := Int(KInt64, i)]
    ensures forall n :: HasName([row], n) <==> n == name
    ensures OneClass([row], name, IntType) && Builds([row], ColVal(name, IntType, [IntCell(i)]))
  {
    assert name in [row][0];
    forall n ensures HasName([row], n) <==> n == name {
    }
  }

  /** A schema object read first shifts every column: the frame gets a row that no item stands for. */
  lemma PhantomRow(schema: Row, row: Row, name: string, i: int64)
    requires IsSchema(schema) && !IsSchema(row) && row == map[name := Int(KInt64, i)] && name != INDEX_NAME
    ensures StartsAt([schema, row], ColVal(name, IntType, [IntCell(0), IntCell(i)]), 1)
    ensures KvOk([schema, row])
  {
    OnlyRow(schema, row);
    OnlyName(row, name, i);
    hide HasName, Builds, IsSchema, DataRows, OneClass;
    var batch, v := [schema, row], ColVal(name, IntType, [IntCell(0), IntCell(i)]);
    assert v.cells[..1] == Copies(IntCell(0), 1) && v.cells[1..] == [IntCell(i)];
    assert !HasName([], name) by {
      NoRowsNoNames();
    }
    forall n, p: nat | FirstAt(batch, n, p) ensures n == name && p == 1 {
      FirstHasName(batch, n, p);
    }
    assert NameOk([row], name);
  }
}
