/** Frames and the row-to-column builder (frame.go). */
module Frames {
  import opened Wrappers
  import opened Values
  import opened Columns

  datatype FrameError = SizeMismatch | UnsupportedValue | UnsupportedLabel | SliceBounds | ColumnFailure(ColumnError)

  /** What a frame holds, column by column. */
  datatype FrameVal = FrameVal(columns: seq<ColVal>, indices: seq<ColVal>)

  type Labels = map<string, Value>

  /** `Len`: the length of the first data column. */
  function Height(f: FrameVal): nat {
    if f.columns == [] then 0 else |f.columns[0].cells|
  }

  // --- Frames -----------------------------------------------------------------------------------

  /** The lengths that `checkEqualLen` accepts: all equal, and no index column without a data column. */
  ghost predicate EqualLens(columns: seq<ColVal>, indices: seq<ColVal>) {
    && (columns == [] ==> indices == [])
    && (forall i :: 0 <= i < |columns| ==> |columns[i].cells| == |columns[0].cells|)
    && (forall i :: 0 <= i < |indices| ==> columns != [] && |indices[i].cells| == |columns[0].cells|)
  }

  ghost predicate Typed(vs: seq<ColVal>) {
    forall i, r :: 0 <= i < |vs| && 0 <= r < |vs[i].cells| ==> vs[i].cells[r].DType() == vs[i].dtype
  }

  /** The frames that `NewFrame` makes. */
  ghost predicate FrameOk(f: FrameVal) {
    EqualLens(f.columns, f.indices) && Typed(f.columns) && Typed(f.indices)
  }

  /** The label values that a protobuf message can carry. */
  predicate LabelsOk(labels: Labels) {
    forall name :: name in labels ==>
      var v := labels[name];
      v.Bool? || v.Float64? || v.Int? || v.Str? || v.TimeVal?
  }

  /** `pb.FromGoMap`: sets the values one by one. */
  method FromGoMap(labels: Labels) returns (ok: bool)
    ensures ok <==> LabelsOk(labels)
  {
    var todo := labels.Keys;
    while todo != {}
      invariant todo <= labels.Keys
      invariant forall name :: name in labels && name !in todo ==> !labels[name].Float32? && !labels[name].Other?
    {
      var name :| name in todo;
      match labels[name] {
        case Float32(_) => return false;
        case Other => return false;
        case _ =>
      }
      todo := todo - {name};
    }
    ok := true;
  }

  ghost predicate AllValid(columns: seq<Column>)
    reads columns
  {
    forall i :: 0 <= i < |columns| ==> columns[i].Valid()
  }

  ghost function Views(columns: seq<Column>): (vs: seq<ColVal>)
    requires AllValid(columns)
    reads columns
    ensures |vs| == |columns| && forall i :: 0 <= i < |columns| ==> vs[i] == columns[i].View()
  {
    seq(|columns|, i requires 0 <= i < |columns| && columns[i].Valid() reads columns => columns[i].View())
  }

  class Frame {
    const columns: seq<Column>
    const indices: seq<Column>
    const labels: Labels

    constructor (columns: seq<Column>, indices: seq<Column>, labels: Labels)
      ensures this.columns == columns && this.indices == indices && this.labels == labels
    {
      this.columns, this.indices, this.labels := columns, indices, labels;
    }

    ghost predicate Valid()
      reads columns, indices
    {
      && AllValid(columns) && AllValid(indices)
      && EqualLens(Views(columns), Views(indices))
      && LabelsOk(labels)
    }

    ghost function View(): FrameVal
      requires Valid()
      reads columns, indices
    {
      FrameVal(Views(columns), Views(indices))
    }

    function Len(): nat
      reads columns
    {
      if |columns| > 0 then columns[0].Len() else 0
    }

    /** Where the column called `name` is: of several with that name, the last. */
    function Lookup(name: string): (i: int)
      ensures -1 <= i < |columns|
      ensures i >= 0 ==> columns[i].name == name
      ensures forall j :: i < j < |columns| ==> columns[j].name != name
    {
      FindLast(columns, name)
    }

    /** `Slice`: unlike a column, a frame does not accept `end == Len()`. */
    method Slice(start: int, end: int) returns (r: Result<Frame, FrameError>)
      requires Valid()
      ensures r.Success? <==> 0 <= start <= end < Len()
      ensures r.Success? ==>
                && fresh(r.value) && r.value.Valid() && r.value.labels == labels
                && r.value.View() == FrameVal(SlicedCols(Views(columns), start, end), SlicedCols(Views(indices), start, end))
    {
      hide Column.Valid, Column.Cells, Views, SlicedCols, IsSliceOf;
      if start < 0 || end < 0 || end < start || start >= Len() || end >= Len() {
        return Failure(SliceBounds);
      }
      // all columns have the frame's length, so slicing them cannot fail
      var cols := SliceCols(columns, start, end);
      var idx := SliceCols(indices, start, end);
      AllSliced(Views(cols.value), Views(columns), start, end);
      AllSliced(Views(idx.value), Views(indices), start, end);
      r := NewFrame(cols.value, idx.value, labels);
    }
  }

  function FindLast(columns: seq<Column>, name: string): (i: int)
    ensures -1 <= i < |columns|
    ensures i >= 0 ==> columns[i].name == name
    ensures forall j :: i < j < |columns| ==> columns[j].name != name
  {
    LastWhere(columns, (c: Column) => c.name == name)
  }

  ghost function SlicedCols(vs: seq<ColVal>, start: nat, end: nat): seq<ColVal>
    requires start <= end && forall i :: 0 <= i < |vs| ==> end <= |vs[i].cells|
  {
    seq(|vs|, i requires 0 <= i < |vs| => vs[i].(cells := vs[i].cells[start..end]))
  }

  predicate InRange(len: nat, start: int, end: int) {
    0 <= start < len && start <= end <= len
  }

  predicate IsSliceOf(v: ColVal, of: ColVal, start: int, end: int) {
    0 <= start <= end <= |of.cells| && v == of.(cells := of.cells[start..end])
  }

  lemma AllSliced(vs: seq<ColVal>, of: seq<ColVal>, start: int, end: int)
    requires |vs| == |of| && 0 <= start <= end && forall i :: 0 <= i < |vs| ==> IsSliceOf(vs[i], of[i], start, end)
    ensures forall i :: 0 <= i < |of| ==> end <= |of[i].cells|
    ensures vs == SlicedCols(of, start, end) && forall i :: 0 <= i < |vs| ==> |vs[i].cells| == end - start
  {
  }

  /** `sliceCols`. */
  method SliceCols(columns: seq<Column>, start: int, end: int) returns (r: Result<seq<Column>, FrameError>)
    requires AllValid(columns)
    ensures r.Success? <==> forall i :: 0 <= i < |columns| ==> InRange(|Views(columns)[i].cells|, start, end)
    ensures r.Success? ==>
              && (forall c :: c in r.value ==> fresh(c))
              && AllValid(r.value) && |r.value| == |columns|
              && (forall i :: 0 <= i < |columns| ==> IsSliceOf(Views(r.value)[i], Views(columns)[i], start, end))
  {
    hide Column.Valid, Column.Cells, Views;
    var slices := [];
    for i := 0 to |columns|
      invariant |slices| == i && AllValid(slices)
      invariant forall c :: c in slices ==> fresh(c)
      invariant forall k :: 0 <= k < i ==>
                  InRange(|Views(columns)[k].cells|, start, end) && IsSliceOf(slices[k].View(), Views(columns)[k], start, end)
    {
      var slice := columns[i].SliceOf(start, end);
      if slice.Failure? {
        assert !InRange(|Views(columns)[i].cells|, start, end);
        return Failure(ColumnFailure(slice.error));
      }
      slices := slices + [slice.value];
    }
    return Success(slices);
  }

  /** `checkEqualLen`: -1 is the size of a frame without data columns. */
  method CheckEqualLen(columns: seq<Column>, indices: seq<Column>) returns (ok: bool)
    requires AllValid(columns) && AllValid(indices)
    ensures ok <==> EqualLens(Views(columns), Views(indices))
  {
    ghost var cs, xs := Views(columns), Views(indices);
    var size: int := -1;
    for i := 0 to |columns|
      invariant if i == 0 then size == -1 else size == |cs[0].cells|
      invariant forall k :: 0 <= k < i ==> |cs[k].cells| == |cs[0].cells|
    {
      if size == -1 {
        size := columns[i].Len();
      } else if columns[i].Len() != size {
        assert |cs[i].cells| != |cs[0].cells|;
        return false;
      }
    }
    for i := 0 to |indices|
      invariant forall k :: 0 <= k < i ==> |xs[k].cells| == size
    {
      if indices[i].Len() != size {
        assert |xs[i].cells| != size;
        return false;
      }
    }
    assert indices != [] ==> |xs[0].cells| == size;
    return true;
  }

  method NewFrame(columns: seq<Column>, indices: seq<Column>, labels: Labels) returns (r: Result<Frame, FrameError>)
    requires AllValid(columns) && AllValid(indices)
    ensures r.Success? <==> EqualLens(Views(columns), Views(indices)) && LabelsOk(labels)
    ensures r.Success? ==>
              && fresh(r.value) && r.value.columns == columns && r.value.indices == indices && r.value.labels == labels
              && r.value.Valid() && r.value.View() == FrameVal(Views(columns), Views(indices))
  {
    var ok := CheckEqualLen(columns, indices);
    if !ok {
      return Failure(SizeMismatch);
    }
    ok := FromGoMap(labels);
    if !ok {
      return Failure(UnsupportedLabel);
    }
    var frame := new Frame(columns, indices, labels);
    return Success(frame);
  }
}
