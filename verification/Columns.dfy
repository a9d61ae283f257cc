/** Slice and label columns (column.go). */
module Columns {
  import opened Wrappers
  import opened Values
  import opened Decimal

  datatype Kind = SliceKind | LabelKind

  /** IndexPanic stands for a Go run-time panic on an index out of range. */
  datatype ColumnError = WrongDType | OutOfBounds | BadRange | IndexPanic | UnsupportedType

  /** What a column holds, whichever way it stores it. */
  datatype ColVal = ColVal(name: string, dtype: DType, cells: seq<Cell>)

  function TimesOf(cells: seq<Cell>): (ts: seq<Time>)
    requires forall c :: c in cells ==> c.TimeCell?
    ensures |ts| == |cells|
    ensures forall i :: 0 <= i < |cells| ==> ts[i] == NSToTime(cells[i].ns)
  {
    seq(|cells|, i requires 0 <= i < |cells| => assert cells[i] in cells; NSToTime(cells[i].ns))
  }

  function Copies(cell: Cell, n: nat): (cells: seq<Cell>)
    ensures |cells| == n && forall i :: 0 <= i < n ==> cells[i] == cell
  {
    seq(n, _ => cell)
  }

  /** Go's `==` between the value of a label column and another value. */
  predicate SameLabelValue(cell: Cell, v: Value) {
    match cell
    case IntCell(i) => AsInt64(v) == Some(i)
    case FloatCell(f) => v.Float64? && FloatEq(v.f, f)
    case StringCell(s) => v == Str(s)
    case TimeCell(ns) => v.TimeVal? && v.t.UnixNano() == ns
    case BoolCell(b) => v == Bool(b)
  }

  /** Label columns accept exactly the values that a slice column would store as one more equal cell. */
  lemma SameLabelIsSameCell(cell: Cell, v: Value)
    ensures SameLabelValue(cell, v) <==> CellFor(cell.DType(), v) == Some(cell) && cell != FloatCell(NaN)
  {
  }

  class Column {
    const name: string
    const dtype: DType
    const kind: Kind
    var data: seq<Cell>             // the array that `dtype` selects; one value for a label
    var size: nat                   // of a label
    var times: Option<seq<Time>>    // the cache of `Times`

    constructor Slice(name: string, dtype: DType, data: seq<Cell>)
      requires forall c :: c in data ==> c.DType() == dtype
      ensures Valid() && kind == SliceKind && times == None
      ensures this.name == name && this.dtype == dtype && Cells() == data
    {
      this.name, this.dtype, kind := name, dtype, SliceKind;
      this.data, size, times := data, 0, None;
    }

    constructor Label(name: string, value: Cell, size: nat)
      ensures Valid() && kind == LabelKind && times == None
      ensures this.name == name && dtype == value.DType() && data == [value] && this.size == size
    {
      this.name, dtype, kind := name, value.DType(), LabelKind;
      data, this.size, times := [value], size, None;
    }

    /** The cache never says anything wrong, but it may be shorter than the column. */
    ghost predicate Valid()
      reads this
    {
      && (forall c :: c in data ==> c.DType() == dtype)
      && (kind == LabelKind ==> |data| == 1)
      && (times.Some? ==>
            && dtype == TimeType
            && |times.value| <= Len()
            && (forall c :: c in Cells() ==> c.TimeCell?)
            && times.value == TimesOf(Cells())[..|times.value|])
    }

    function Len(): nat
      reads this
    {
      if kind == LabelKind then size else |data|
    }

    /** The cells one by one: a label repeats its value. */
    ghost function Cells(): (cells: seq<Cell>)
      requires kind == LabelKind ==> |data| == 1
      reads this
      ensures |cells| == Len()
    {
      if kind == LabelKind then Copies(data[0], size) else data
    }

    ghost function View(): ColVal
      requires Valid()
      reads this
    {
      ColVal(name, dtype, Cells())
    }

    predicate InBounds(i: int)
      reads this
    {
      0 <= i < Len()
    }

    function ValidateAt(want: DType, i: int): Option<ColumnError>
      reads this
    {
      if dtype != want then Some(WrongDType) else if !InBounds(i) then Some(OutOfBounds) else None
    }

    /** Where cell `i` is stored. */
    function Slot(i: int): int {
      if kind == LabelKind then 0 else i
    }

    lemma SlotHoldsCell(i: int)
      requires Valid() && InBounds(i)
      ensures 0 <= Slot(i) < |data| && data[Slot(i)] == Cells()[i] && Cells()[i].DType() == dtype
    {
      assert data[Slot(i)] in data;
    }

    function IntAt(i: int): (r: Result<int64, ColumnError>)
      requires Valid()
      reads this
      ensures r.Success? <==> dtype == IntType && InBounds(i)
      ensures r.Success? ==> Cells()[i] == IntCell(r.value)
    {
      var err := ValidateAt(IntType, i);
      if err.Some? then Failure(err.value) else
        SlotHoldsCell(i);
        Success(data[Slot(i)].i)
    }

    function FloatAt(i: int): (r: Result<Float, ColumnError>)
      requires Valid()
      reads this
      ensures r.Success? <==> dtype == FloatType && InBounds(i)
      ensures r.Success? ==> Cells()[i] == FloatCell(r.value)
    {
      var err := ValidateAt(FloatType, i);
      if err.Some? then Failure(err.value) else
        SlotHoldsCell(i);
        Success(data[Slot(i)].f)
    }

    function BoolAt(i: int): (r: Result<bool, ColumnError>)
      requires Valid()
      reads this
      ensures r.Success? <==> dtype == BoolType && InBounds(i)
      ensures r.Success? ==> Cells()[i] == BoolCell(r.value)
    {
      var err := ValidateAt(BoolType, i);
      if err.Some? then Failure(err.value) else
        SlotHoldsCell(i);
        Success(data[Slot(i)].b)
    }

    /** Is there a cache that does not reach cell `i`? */
    predicate CacheTooShort(i: int)
      reads this
    {
      times.Some? && Slot(i) >= |times.value|
    }

    /** `TimeAt`: cached and uncached reads agree unless the cache was taken before an `Append`. */
    function TimeAt(i: int): (r: Result<Time, ColumnError>)
      requires Valid()
      reads this
      ensures r.Success? <==> dtype == TimeType && InBounds(i) && !CacheTooShort(i)
      ensures r == Failure(IndexPanic) <==> dtype == TimeType && InBounds(i) && CacheTooShort(i)
      ensures r.Success? ==> Cells()[i].TimeCell? && r.value == NSToTime(Cells()[i].ns)
    {
      var err := ValidateAt(TimeType, i);
      if err.Some? then Failure(err.value) else
        SlotHoldsCell(i);
        assert Cells()[i] in Cells();
        if times.None? then Success(NSToTime(data[Slot(i)].ns))
        else if Slot(i) < |times.value| then
          assert Cells()[Slot(i)] == Cells()[i];
          Success(times.value[Slot(i)])
        else Failure(IndexPanic)
    }

    /** `StringAt`: the cell as text, whatever its type; a time is read like any other. */
    function StringAt(fmt: Formats, i: int): (r: Result<string, ColumnError>)
      requires Valid()
      reads this
      ensures r.Success? <==> InBounds(i) && !(dtype == TimeType && CacheTooShort(i))
      ensures r == Failure(IndexPanic) <==> InBounds(i) && dtype == TimeType && CacheTooShort(i)
      ensures r.Success? ==> r.value == Text(fmt, Cells()[i])
    {
      if !InBounds(i) then Failure(OutOfBounds) else
        SlotHoldsCell(i);
        match dtype
        case IntType => Success(FormatInt(IntAt(i).value))
        case FloatType => Success(fmt.float(FloatAt(i).value))
        case StringType => Success(data[Slot(i)].s)
        case TimeType => (var t := TimeAt(i); if t.Success? then Success(fmt.time(t.value)) else Failure(t.error))
        case BoolType => Success(if BoolAt(i).value then "true" else "false")
    }

    /** `Strings`: all cells as text, unless one of them is a time that the cache does not reach. */
    method Strings(fmt: Formats) returns (r: Result<seq<string>, ColumnError>)
      requires Valid()
      ensures r.Success? ==> |r.value| == Len() && forall i :: 0 <= i < Len() ==> r.value[i] == Text(fmt, Cells()[i])
      ensures r.Failure? ==> r.error == IndexPanic
      ensures r.Failure? <==> dtype == TimeType && exists i :: 0 <= i < Len() && CacheTooShort(i)
    {
      hide Text, FormatInt;
      var texts := [];
      for i := 0 to Len()
        invariant |texts| == i && forall k :: 0 <= k < i ==> texts[k] == Text(fmt, Cells()[k])
        invariant dtype == TimeType ==> forall k :: 0 <= k < i ==> !CacheTooShort(k)
      {
        var text := StringAt(fmt, i);
        if text.Failure? {
          return Failure(text.error);
        }
        texts := texts + [text.value];
      }
      return Success(texts);
    }

    /** `Ints`: a label is expanded. */
    method Ints() returns (r: Result<seq<int64>, ColumnError>)
      requires Valid()
      ensures r.Success? <==> dtype == IntType
      ensures r.Success? ==> |r.value| == Len() && forall i :: 0 <= i < Len() ==> Cells()[i] == IntCell(r.value[i])
    {
      if dtype != IntType {
        return Failure(WrongDType);
      }
      var ints := [];
      if kind == SliceKind {
        for i := 0 to |data|
          invariant |ints| == i && forall k :: 0 <= k < i ==> data[k] == IntCell(ints[k])
        {
          assert data[i] in data;
          ints := ints + [data[i].i];
        }
      } else {
        assert data[0] in data;
        for i := 0 to size
          invariant |ints| == i && forall k :: 0 <= k < i ==> data[0] == IntCell(ints[k])
        {
          ints := ints + [data[0].i];
        }
      }
      return Success(ints);
    }

    /** `Floats`: a label is expanded. */
    method Floats() returns (r: Result<seq<Float>, ColumnError>)
      requires Valid()
      ensures r.Success? <==> dtype == FloatType
      ensures r.Success? ==> |r.value| == Len() && forall i :: 0 <= i < Len() ==> Cells()[i] == FloatCell(r.value[i])
    {
      if dtype != FloatType {
        return Failure(WrongDType);
      }
      var floats := [];
      if kind == SliceKind {
        for i := 0 to |data|
          invariant |floats| == i && forall k :: 0 <= k < i ==> data[k] == FloatCell(floats[k])
        {
          assert data[i] in data;
          floats := floats + [data[i].f];
        }
      } else {
        assert data[0] in data;
        for i := 0 to size
          invariant |floats| == i && forall k :: 0 <= k < i ==> data[0] == FloatCell(floats[k])
        {
          floats := floats + [data[0].f];
        }
      }
      return Success(floats);
    }

    /** `Bools`: a label is not expanded, so its result has the column's length only for one row. */
    method Bools() returns (r: Result<seq<bool>, ColumnError>)
      requires Valid()
      ensures r.Success? <==> dtype == BoolType
      ensures r.Success? ==> (|r.value| == Len() <==> kind == SliceKind || size == 1)
      ensures r.Success? && |r.value| == Len() ==> forall i :: 0 <= i < Len() ==> Cells()[i] == BoolCell(r.value[i])
    {
      if dtype != BoolType {
        return Failure(WrongDType);
      }
      var bools := [];
      for i := 0 to |data|
        invariant |bools| == i && forall k :: 0 <= k < i ==> data[k] == BoolCell(bools[k])
      {
        assert data[i] in data;
        bools := bools + [data[i].b];
      }
      return Success(bools);
    }

    /** `Times`: fills the cache on the first call, and gives the cache back ever after. */
    method Times() returns (r: Result<seq<Time>, ColumnError>)
      requires Valid()
      modifies `times
      ensures Valid()
      ensures r.Success? <==> dtype == TimeType
      ensures r.Success? ==> times == Some(r.value) && (old(times).Some? ==> times == old(times))
      ensures r.Success? && old(times).None? ==> |r.value| == Len()
    {
      if dtype != TimeType {
        return Failure(WrongDType);
      }
      if times.None? {
        forall c | c in Cells() ensures c.TimeCell? {
          var i :| 0 <= i < Len() && Cells()[i] == c;
          SlotHoldsCell(i);
        }
        var ts := [];
        for i := 0 to Len()
          invariant times == None && Valid() && ts == TimesOf(Cells())[..i]
        {
          SlotHoldsCell(i);
          ts := ts + [NSToTime(data[Slot(i)].ns)];
        }
        times := Some(ts);
      }
      return Success(times.value);
    }

    /** `Slice`: both kinds of column accept the same ranges and give the same cells. */
    method SliceOf(start: int, end: int) returns (r: Result<Column, ColumnError>)
      requires Valid()
      ensures r.Success? <==> 0 <= start < Len() && start <= end <= Len()
      ensures r.Success? ==>
                && fresh(r.value) && r.value.Valid() && r.value.kind == kind && r.value.times == None
                && r.value.View() == ColVal(name, dtype, Cells()[start..end])
    {
      if start > end {
        return Failure(BadRange);
      }
      if !InBounds(start) {
        return Failure(OutOfBounds);
      }
      if end != 0 && !InBounds(end - 1) {
        return Failure(OutOfBounds);
      }
      var col;
      if kind == LabelKind {
        assert data[0] in data;
        col := new Column.Label(name, data[0], end - start);
        assert col.Cells() == Cells()[start..end];
      } else {
        col := new Column.Slice(name, dtype, data[start..end]);
      }
      return Success(col);
    }

    /** `Append`: the cache stays as it is. */
    method Append(value: Value) returns (ok: bool)
      requires Valid()
      modifies `data, `size
      ensures Valid()
      ensures kind == SliceKind ==> (ok <==> CellFor(dtype, value).Some?)
      ensures kind == LabelKind ==> (ok <==> SameLabelValue(data[0], value)) && data == old(data)
      ensures ok ==> CellFor(dtype, value).Some? && Cells() == old(Cells()) + [CellFor(dtype, value).value]
      ensures !ok ==> data == old(data) && size == old(size)
    {
      if kind == LabelKind {
        assert data[0] in data;
        SameLabelIsSameCell(data[0], value);
        ok := SameLabelValue(data[0], value);
        if ok {
          size := size + 1;
          assert Cells() == old(Cells()) + [data[0]];
        }
      } else {
        var cell := CellFor(dtype, value);
        ok := cell.Some?;
        if ok {
          data := data + [cell.value];
        }
      }
    }
  }

  /** A label column is indistinguishable from the slice column of its copies to every element accessor. */
  lemma LabelAgreesWithSlice(l: Column, s: Column, i: int, fmt: Formats)
    requires l.Valid() && s.Valid() && l.dtype == s.dtype && l.Cells() == s.Cells()
    ensures l.IntAt(i).Success? == s.IntAt(i).Success? && (l.IntAt(i).Success? ==> l.IntAt(i) == s.IntAt(i))
    ensures l.FloatAt(i).Success? == s.FloatAt(i).Success? && (l.FloatAt(i).Success? ==> l.FloatAt(i) == s.FloatAt(i))
    ensures !l.CacheTooShort(i) && !s.CacheTooShort(i) ==> l.StringAt(fmt, i) == s.StringAt(fmt, i)
    ensures l.BoolAt(i).Success? == s.BoolAt(i).Success? && (l.BoolAt(i).Success? ==> l.BoolAt(i) == s.BoolAt(i))
    ensures !l.CacheTooShort(i) && !s.CacheTooShort(i) ==> l.TimeAt(i) == s.TimeAt(i)
  {
    assert l.Len() == |l.Cells()| == s.Len();
  }

  /** Slices of slices: the inner range is accepted within the outer one, and the offsets add up. */
  method SliceOfSlice(col: Column, a: int, b: int, c: int, d: int) returns (r: Result<Column, ColumnError>)
    requires col.Valid() && 0 <= a < col.Len() && a <= b <= col.Len()
    ensures r.Success? <==> 0 <= c < b - a && c <= d <= b - a
    ensures r.Success? ==> r.value.Valid() && r.value.View() == ColVal(col.name, col.dtype, col.Cells()[a + c..a + d])
  {
    var outer := col.SliceOf(a, b);
    assert outer.value.Len() == b - a;
    r := outer.value.SliceOf(c, d);
    if r.Success? {
      assert col.Cells()[a..b][c..d] == col.Cells()[a + c..a + d];
    }
  }

  /** Reading the times, appending one more and reading again: the new cell panics, the old do not change. */
  method AppendAfterTimes(col: Column, t: Time) returns (ok: bool)
    requires col.Valid() && col.dtype == TimeType && col.kind == SliceKind
    modifies col
    ensures col.Valid() && col.Cells() == old(col.Cells()) + [TimeCell(t.UnixNano())]
    ensures col.TimeAt(old(col.Len())) == Failure(IndexPanic)
  {
    var ts := col.Times();
    ok := col.Append(TimeVal(t));
  }
}
