/** The CSV backend (backends/csv/backend.go), on records: quoting is left to encoding/csv. */
module Csv {
  import opened Wrappers
  import opened Values
  import opened Columns
  import opened Decimal
  import opened Frames
  import opened RowIter

  type Record = seq<string>

  /** Library parsing and formatting. `parseTime` tries the formats that the code lists. */
  datatype Library = Library(
    parseTime: string -> Option<Time>, parseFloat: string -> Option<Float>,
    fmt: Formats)

  // --- Cells as text ---------------------------------------------------------------------------------

  /** `strings.ToLower`: no other characters than these have a letter of "true" or "false" as lower case. */
  function LowerChar(c: char): char {
    if 'A' <= c <= 'Z' then c - 'A' + 'a' else c
  }

  function ToLower(s: string): string {
    seq(|s|, i requires 0 <= i < |s| => LowerChar(s[i]))
  }

  function ParseValue(lib: Library, text: string): Value {
    if lib.parseTime(text).Some? then TimeVal(lib.parseTime(text).value)
    else if ToLower(text) == "true" then Bool(true)
    else if ToLower(text) == "false" then Bool(false)
    else if Atoi(text).Some? then Int(KInt64, Atoi(text).value)
    else if lib.parseFloat(text).Some? then Float64(lib.parseFloat(text).value)
    else Str(text)
  }

  /** The type that a first cell gives to its column. */
  function TypeOf(lib: Library, text: string): DType {
    ClassOf(ParseValue(lib, text)).value
  }

  /** A cell of a column of that type. In a string column the text is kept, whatever it looks like. */
  function CellOfText(lib: Library, dtype: DType, text: string): (c: Option<Cell>)
    ensures c.Some? ==> c.value.DType() == dtype
  {
    if dtype == StringType then Some(StringCell(text)) else CellFor(dtype, ParseValue(lib, text))
  }

  // --- What a text reads as, without the parser ------------------------------------------------------

  /** `text` is the word, in letters of either case. */
  predicate IsWord(text: string, lower: string, upper: string)
    requires |lower| == |upper|
  {
    |text| == |lower| && forall i :: 0 <= i < |text| ==> text[i] == lower[i] || text[i] == upper[i]
  }

  predicate IsTrue(text: string) {
    IsWord(text, "true", "TRUE")
  }

  predicate IsFalse(text: string) {
    IsWord(text, "false", "FALSE")
  }

  /** The type that a text has by itself: times first, then words, integers, floats, and else a string. */
  predicate LooksLike(lib: Library, dtype: DType, text: string) {
    match dtype
    case TimeType => lib.parseTime(text).Some?
    case BoolType => lib.parseTime(text).None? && (IsTrue(text) || IsFalse(text))
    case IntType => lib.parseTime(text).None? && !IsTrue(text) && !IsFalse(text) && Atoi(text).Some?
    case FloatType =>
      lib.parseTime(text).None? && !IsTrue(text) && !IsFalse(text) && Atoi(text).None? && lib.parseFloat(text).Some?
    case StringType =>
      lib.parseTime(text).None? && !IsTrue(text) && !IsFalse(text) && Atoi(text).None? && lib.parseFloat(text).None?
  }

  /** The cell of a column of `dtype` for a text that has the type, or for any text if the type is string. */
  predicate ReadsAs(lib: Library, dtype: DType, text: string, cell: Cell) {
    match dtype
    case TimeType => lib.parseTime(text).Some? && cell.TimeCell? && Stores(cell, TimeVal(lib.parseTime(text).value))
    case BoolType => LooksLike(lib, dtype, text) && cell == BoolCell(IsTrue(text))
    case IntType => LooksLike(lib, dtype, text) && cell == IntCell(Atoi(text).value)
    case FloatType => LooksLike(lib, dtype, text) && cell == FloatCell(lib.parseFloat(text).value)
    case StringType => cell == StringCell(text)
  }

  lemma ToLowerIsWord(text: string, lower: string, upper: string)
    requires |lower| == |upper|
    requires forall i :: 0 <= i < |lower| ==> 'a' <= lower[i] <= 'z' && upper[i] == lower[i] - 'a' + 'A'
    ensures ToLower(text) == lower <==> IsWord(text, lower, upper)
  {
    if IsWord(text, lower, upper) {
      assert forall i :: 0 <= i < |text| ==> LowerChar(text[i]) == lower[i];
    } else if |text| == |lower| {
      var i :| 0 <= i < |text| && text[i] != lower[i] && text[i] != upper[i];
      assert LowerChar(text[i]) != lower[i];
      assert ToLower(text)[i] != lower[i];
    }
  }

  /** `parseValue` finds the one type that a text has. */
  lemma TypeOfMeans(lib: Library, text: string, dtype: DType)
    ensures TypeOf(lib, text) == dtype <==> LooksLike(lib, dtype, text)
  {
    ToLowerIsWord(text, "true", "TRUE");
    ToLowerIsWord(text, "false", "FALSE");
    hide ToLower, IsWord, Atoi;
    assert "true" != "false" by {
      assert |"true"| != |"false"|;
    }
  }

  lemma CellOfTextMeans(lib: Library, text: string, dtype: DType)
    ensures CellOfText(lib, dtype, text).Some? <==> dtype == StringType || LooksLike(lib, dtype, text)
    ensures forall cell :: CellOfText(lib, dtype, text) == Some(cell) <==> ReadsAs(lib, dtype, text, cell)
  {
    TypeOfMeans(lib, text, dtype);
    ToLowerIsWord(text, "true", "TRUE");
    ToLowerIsWord(text, "false", "FALSE");
    hide ToLower, IsWord, Atoi;
    if dtype == TimeType && lib.parseTime(text).Some? {
      TimeCellMeans(lib.parseTime(text).value);
    }
  }

  /** A time is stored as one cell only. */
  lemma TimeCellMeans(t: Time)
    ensures forall cell: Cell :: cell == TimeCell(t.UnixNano()) <==> cell.TimeCell? && Stores(cell, TimeVal(t))
  {
    forall cell: Cell | cell.TimeCell? && Stores(cell, TimeVal(t)) ensures cell == TimeCell(t.UnixNano()) {
      CellForStores(TimeType, TimeVal(t));
      var x, y := t.Instant() - cell.ns, t.Instant() - t.UnixNano();
      assert x % TWO_64 == 0 && y % TWO_64 == 0;
      var p, q := x / TWO_64, y / TWO_64;
      assert x == TWO_64 * p && y == TWO_64 * q;
      assert t.UnixNano() - cell.ns == TWO_64 * (p - q);
    }
    CellForStores(TimeType, TimeVal(t));
  }

  /** What is assumed of the time parser: it does not take integers and booleans for times. */
  ghost predicate Plain(lib: Library) {
    && (forall i: int64 :: lib.parseTime(FormatInt(i)) == None)
    && lib.parseTime("true") == None && lib.parseTime("false") == None
  }

  predicate Printable(dtype: DType) {
    dtype == IntType || dtype == BoolType || dtype == StringType
  }

  lemma IntegersAreNotWords(i: int64)
    ensures !IsTrue(FormatInt(i)) && !IsFalse(FormatInt(i))
  {
    hide Digits;
    var s := FormatInt(i);
    assert s[0] == '-' || IsDigit(s[0]);
  }

  /**
    * A printed cell reads back as itself and nothing else in a column of its type. An integer or a
    * boolean has that type by itself; a string is its own text.
    */
  lemma CellRoundTrip(lib: Library, cell: Cell)
    requires Plain(lib) && Printable(cell.DType())
    ensures !cell.StringCell? ==> LooksLike(lib, cell.DType(), Text(lib.fmt, cell))
    ensures cell.StringCell? ==> Text(lib.fmt, cell) == cell.s
    ensures forall other :: ReadsAs(lib, cell.DType(), Text(lib.fmt, cell), other) <==> other == cell
  {
    match cell
    case IntCell(i) =>
      FormatThenAtoi(i);
      hide Atoi, FormatInt;
      assert lib.parseTime(FormatInt(i)) == None;
      IntegersAreNotWords(i);
    case BoolCell(b) =>
      assert !IsTrue("false") && !IsFalse("true") && IsTrue("true") && IsFalse("false");
    case StringCell(s) =>
  }

  /** A string of digits at the start of a frame makes its column one of integers. */
  lemma DigitsBecomeIntegers(lib: Library)
    requires lib.parseTime("12") == None
    ensures LooksLike(lib, IntType, Text(lib.fmt, StringCell("12")))
    ensures ReadsAs(lib, IntType, Text(lib.fmt, StringCell("12")), IntCell(12))
  {
    assert "12"[..1] == "1" && "1"[..0] == "";
    assert DigitsValue("1") == 1;
  }

  // --- Reading --------------------------------------------------------------------------------------------

  datatype CsvError = ReadError | FieldCount | TypeMismatch(column: nat)

  /** encoding/csv: records, unreadable ones as None, then io.EOF. */
  class CsvReader {
    var rest: seq<Option<Record>>

    constructor (records: seq<Option<Record>>)
      ensures rest == records
    {
      rest := records;
    }

    /** `None` is io.EOF; `Some(None)` any other error. */
    method Read() returns (r: Option<Option<Record>>)
      modifies this
      ensures old(rest) == [] ==> r == None && rest == []
      ensures old(rest) != [] ==> r == Some(old(rest)[0]) && rest == old(rest)[1..]
    {
      if rest == [] {
        return None;
      }
      r, rest := Some(rest[0]), rest[1..];
    }
  }

  predicate WellFormed(record: Option<Record>, width: nat) {
    record.Some? && |record.value| == width
  }

  predicate AllWellFormed(records: seq<Option<Record>>, width: nat) {
    forall i :: 0 <= i < |records| ==> WellFormed(records[i], width)
  }

  function Texts(records: seq<Option<Record>>, width: nat): (rows: seq<Record>)
    requires AllWellFormed(records, width)
    ensures |rows| == |records|
  {
    seq(|records|, i requires 0 <= i < |records| => records[i].value)
  }

  /** How many of the records ahead one call of `readNextRows` may take. */
  function Quota(limit: int, frameLimit: int, nRows: nat, ahead: nat): (k: nat)
    ensures k <= ahead
  {
    var left := if limit <= 0 then ahead else if nRows >= limit then 0 else limit - nRows;
    Min(Min(ahead, left), if frameLimit > 0 then frameLimit else ahead)
  }

  /** Column `c` of the text: of the type that its first cell has by itself, every cell read as that. */
  predicate IsColumnOf(lib: Library, name: string, rows: seq<Record>, c: nat, v: ColVal)
    requires forall r :: 0 <= r < |rows| ==> c < |rows[r]|
  {
    && |rows| > 0 && v.name == name && LooksLike(lib, v.dtype, rows[0][c]) && |v.cells| == |rows|
    && (forall r :: 0 <= r < |rows| ==> ReadsAs(lib, v.dtype, rows[r][c], v.cells[r]))
  }

  /** All cells of column `c` have the type of its first one, unless that is a string. */
  ghost predicate Fits(lib: Library, rows: seq<Record>, c: nat)
    requires forall r :: 0 <= r < |rows| ==> c < |rows[r]|
  {
    forall dtype, r :: 0 < r < |rows| && dtype != StringType && LooksLike(lib, dtype, rows[0][c]) ==>
      LooksLike(lib, dtype, rows[r][c])
  }

  ghost predicate Buildable(lib: Library, rows: seq<Record>, width: nat)
    requires forall r :: 0 <= r < |rows| ==> |rows[r]| == width
  {
    forall c :: 0 <= c < width ==> Fits(lib, rows, c)
  }

  /** The frame is the text, column by column. */
  predicate IsFrameOf(lib: Library, names: seq<string>, rows: seq<Record>, f: FrameVal)
    requires forall r :: 0 <= r < |rows| ==> |rows[r]| == |names|
  {
    && f.indices == [] && |f.columns| == |names|
    && (forall c :: 0 <= c < |names| ==> IsColumnOf(lib, names[c], rows, c, f.columns[c]))
  }

  /** The first cell's type is the only one to be considered. */
  lemma FitsMeans(lib: Library, rows: seq<Record>, c: nat)
    requires rows != [] && forall r :: 0 <= r < |rows| ==> c < |rows[r]|
    ensures Fits(lib, rows, c) <==>
      forall r :: 0 < r < |rows| ==> CellOfText(lib, TypeOf(lib, rows[0][c]), rows[r][c]).Some?
  {
    var dtype := TypeOf(lib, rows[0][c]);
    forall d ensures d == dtype <==> LooksLike(lib, d, rows[0][c]) {
      TypeOfMeans(lib, rows[0][c], d);
    }
    forall r | 0 < r < |rows|
      ensures CellOfText(lib, dtype, rows[r][c]).Some? <==> dtype == StringType || LooksLike(lib, dtype, rows[r][c])
    {
      CellOfTextMeans(lib, rows[r][c], dtype);
    }
    TypeOfMeans(lib, rows[0][c], dtype);
    hide CellOfText, TypeOf, LooksLike;
    if Fits(lib, rows, c) {
      forall r | 0 < r < |rows| ensures CellOfText(lib, dtype, rows[r][c]).Some? {
        assert dtype != StringType ==> LooksLike(lib, dtype, rows[r][c]);
      }
    } else {
      var d, r :| 0 < r < |rows| && d != StringType && LooksLike(lib, d, rows[0][c]) && !LooksLike(lib, d, rows[r][c]);
      assert CellOfText(lib, dtype, rows[r][c]).None?;
    }
  }

  lemma ColumnMeans(lib: Library, name: string, rows: seq<Record>, c: nat, v: ColVal)
    requires rows != [] && forall r :: 0 <= r < |rows| ==> c < |rows[r]|
    requires v.name == name && v.dtype == TypeOf(lib, rows[0][c]) && |v.cells| == |rows|
    requires forall r :: 0 <= r < |rows| ==> CellOfText(lib, v.dtype, rows[r][c]) == Some(v.cells[r])
    ensures IsColumnOf(lib, name, rows, c, v)
  {
    TypeOfMeans(lib, rows[0][c], v.dtype);
    forall r | 0 <= r < |rows| ensures ReadsAs(lib, v.dtype, rows[r][c], v.cells[r]) {
      CellOfTextMeans(lib, rows[r][c], v.dtype);
    }
    hide CellOfText, TypeOf, LooksLike, ReadsAs;
  }

  /** One column of `buildFrame`. */
  method BuildColumn(lib: Library, name: string, rows: seq<Record>, c: nat) returns (r: Result<ColVal, CsvError>)
    requires rows != [] && forall i :: 0 <= i < |rows| ==> c < |rows[i]|
    ensures r.Success? ==> IsColumnOf(lib, name, rows, c, r.value)
    ensures r.Success? <==> Fits(lib, rows, c)
  {
    hide ParseValue, CellFor, CellOfText, LooksLike, Fits, IsColumnOf, TypeOf;
    FitsMeans(lib, rows, c);
    var dtype := TypeOf(lib, rows[0][c]);
    TypeOfMeans(lib, rows[0][c], dtype);
    CellOfTextMeans(lib, rows[0][c], dtype);
    var data := [CellOfText(lib, dtype, rows[0][c]).value];
    for i := 1 to |rows|
      invariant |data| == i && forall k :: 0 <= k < i ==> CellOfText(lib, dtype, rows[k][c]) == Some(data[k])
    {
      var cell := CellOfText(lib, dtype, rows[i][c]);
      if cell.None? {
        return Failure(TypeMismatch(c));
      }
      data := data + [cell.value];
    }
    r := Success(ColVal(name, dtype, data));
    ColumnMeans(lib, name, rows, c, r.value);
  }

  /** `buildFrame`: the columns all have as many cells as there are rows. */
  method BuildFrame(lib: Library, names: seq<string>, rows: seq<Record>) returns (r: Result<FrameVal, CsvError>)
    requires rows != [] && forall i :: 0 <= i < |rows| ==> |rows[i]| == |names|
    ensures r.Success? <==> Buildable(lib, rows, |names|)
    ensures r.Success? ==> IsFrameOf(lib, names, rows, r.value) && EqualLens(r.value.columns, [])
  {
    hide CellOfText, TypeOf, Fits;
    var columns := [];
    for c := 0 to |names|
      invariant |columns| == c && forall k :: 0 <= k < c ==> Fits(lib, rows, k) && IsColumnOf(lib, names[k], rows, k, columns[k])
    {
      var col := BuildColumn(lib, names[c], rows, c);
      if col.Failure? {
        return Failure(col.error);
      }
      columns := columns + [col.value];
    }
    r := Success(FrameVal(columns, []));
  }

  class FrameIterator {
    const lib: Library
    const reader: CsvReader
    const columnNames: seq<string>
    const limit: int
    const frameLimit: int
    var frame: Option<FrameVal>
    var err: Option<CsvError>
    var nRows: nat

    constructor (lib: Library, reader: CsvReader, columnNames: seq<string>, limit: int, frameLimit: int)
      ensures this.lib == lib && this.reader == reader && this.columnNames == columnNames
      ensures this.limit == limit && this.frameLimit == frameLimit && nRows == 0 && err == None && frame == None
    {
      this.lib, this.reader, this.columnNames := lib, reader, columnNames;
      this.limit, this.frameLimit, nRows, err, frame := limit, frameLimit, 0, None, None;
    }

    predicate InLimits(frameRow: int)
      reads `nRows
    {
      if limit > 0 && nRows >= limit then false
      else if frameLimit > 0 && frameRow >= frameLimit then false
      else true
    }

    /** `readNextRows`. */
    method ReadNextRows() returns (r: Result<seq<Record>, CsvError>)
      modifies `nRows, reader
      ensures var k := Quota(limit, frameLimit, old(nRows), |old(reader.rest)|);
        && (r.Success? <==> AllWellFormed(old(reader.rest)[..k], |columnNames|))
        && (r.Success? ==>
              && r.value == Texts(old(reader.rest)[..k], |columnNames|)
              && reader.rest == old(reader.rest)[k..] && nRows == old(nRows) + k)
    {
      ghost var ahead := reader.rest;
      ghost var k := Quota(limit, frameLimit, nRows, |ahead|);
      var rows, row := [], 0;
      while InLimits(row)
        invariant row == |rows| <= k && nRows == old(nRows) + row && reader.rest == ahead[row..]
        invariant forall i :: 0 <= i < row ==> WellFormed(ahead[i], |columnNames|) && rows[i] == ahead[i].value
        decreases |reader.rest|
      {
        var record := reader.Read();
        if record.None? {
          return Success(rows);
        }
        if record.value.None? {
          assert !WellFormed(ahead[..k][row], |columnNames|);
          return Failure(ReadError);
        }
        if |record.value.value| != |columnNames| {
          assert !WellFormed(ahead[..k][row], |columnNames|);
          return Failure(FieldCount);
        }
        rows, row, nRows := rows + [record.value.value], row + 1, nRows + 1;
      }
      r := Success(rows);
    }

    /** `Next`: the frame of the next few records. */
    method Next() returns (more: bool)
      modifies this, reader
      ensures var k := Quota(limit, frameLimit, old(nRows), |old(reader.rest)|);
        && (more <==> k > 0 && Good(lib, old(reader.rest)[..k], |columnNames|))
        && (more ==> frame.Some? && IsChunk(lib, columnNames, old(reader.rest)[..k], frame.value)
                     && err == old(err) && reader.rest == old(reader.rest)[k..] && nRows == old(nRows) + k)
        && (!more ==> if k == 0 then err == old(err) else err.Some?)
    {
      hide IsFrameOf, Buildable;
      var rows := ReadNextRows();
      if rows.Failure? {
        err := Some(rows.error);
        return false;
      }
      if |rows.value| == 0 {
        return false;
      }
      var built := BuildFrame(lib, columnNames, rows.value);
      if built.Failure? {
        err := Some(built.error);
        return false;
      }
      frame := Some(built.value);
      more := true;
    }
  }

  /** Records that make a frame. */
  ghost predicate Good(lib: Library, records: seq<Option<Record>>, width: nat) {
    AllWellFormed(records, width) && Buildable(lib, Texts(records, width), width)
  }

  ghost predicate IsChunk(lib: Library, names: seq<string>, records: seq<Option<Record>>, f: FrameVal) {
    Good(lib, records, |names|) && IsFrameOf(lib, names, Texts(records, |names|), f)
  }

  // --- A whole reading run ------------------------------------------------------------------------------

  /** Consecutive pieces of f elements, the last one possibly shorter; one piece if there is no such limit. */
  function Chunked<T>(s: seq<T>, f: int): seq<seq<T>> {
    if s == [] then [] else
      var k := if 0 < f < |s| then f else |s|;
      [s[..k]] + Chunked(s[k..], f)
  }

  function Flat<T>(chunks: seq<seq<T>>): seq<T> {
    if chunks == [] then [] else chunks[0] + Flat(chunks[1..])
  }

  /** Nothing is lost or repeated, no chunk is empty, and all but the last have f elements. */
  lemma {:induction false} ChunksCover<T>(s: seq<T>, f: int)
    ensures Flat(Chunked(s, f)) == s
    ensures forall i :: 0 <= i < |Chunked(s, f)| ==> Chunked(s, f)[i] != []
    ensures f > 0 ==> forall i :: 0 <= i < |Chunked(s, f)| ==>
      |Chunked(s, f)[i]| <= f && (i < |Chunked(s, f)| - 1 ==> |Chunked(s, f)[i]| == f)
    ensures f <= 0 ==> |Chunked(s, f)| <= 1
    decreases |s|
  {
    if s != [] {
      var k := if 0 < f < |s| then f else |s|;
      ChunksCover(s[k..], f);
      var rest := Chunked(s[k..], f);
      assert Chunked(s, f) == [s[..k]] + rest && Chunked(s, f)[1..] == rest;
      assert s == s[..k] + s[k..];
    }
  }

  /** The records that a limit leaves to be read, after the first nRows. */
  function Remaining<T>(limit: int, nRows: nat, rest: seq<T>): seq<T> {
    if limit <= 0 then rest else if nRows >= limit then [] else rest[..Min(limit - nRows, |rest|)]
  }

  /** What a limit lets through: the first so many, or all if it is not positive. */
  lemma LimitTakes<T>(limit: int, s: seq<T>)
    ensures Remaining(limit, 0, s) == if 0 < limit < |s| then s[..limit] else s
  {
  }

  /** One call of `Next` takes one chunk. */
  lemma OneChunk<T>(limit: int, frameLimit: int, nRows: nat, rest: seq<T>)
    ensures var left, k := Remaining(limit, nRows, rest), Quota(limit, frameLimit, nRows, |rest|);
      var after := Remaining(limit, nRows + k, rest[k..]);
      && (k == 0 <==> left == [])
      && |after| == |left| - k
      && (k > 0 ==> Chunked(left, frameLimit) == [rest[..k]] + Chunked(after, frameLimit))
  {
    var left, k := Remaining(limit, nRows, rest), Quota(limit, frameLimit, nRows, |rest|);
    if k > 0 {
      assert left[..k] == rest[..k] && left[k..] == Remaining(limit, nRows + k, rest[k..]);
      assert k == if 0 < frameLimit < |left| then frameLimit else |left|;
    }
  }

  /** Frames for the chunks up to the first bad one; all of them exactly when there is no error. */
  ghost predicate IsReading(lib: Library, names: seq<string>, chunks: seq<seq<Option<Record>>>, fs: seq<FrameVal>, clean: bool) {
    && |fs| <= |chunks|
    && (forall i :: 0 <= i < |fs| ==> IsChunk(lib, names, chunks[i], fs[i]))
    && (if clean then |fs| == |chunks| else |fs| < |chunks| && !Good(lib, chunks[|fs|], |names|))
  }

  /** A client's loop over the iterator. */
  method ReadAll(it: FrameIterator) returns (fs: seq<FrameVal>, clean: bool)
    requires it.nRows == 0 && it.err == None
    modifies it, it.reader
    ensures var all := old(it.reader.rest);
      var limited := if 0 < it.limit < |all| then all[..it.limit] else all;
      IsReading(it.lib, it.columnNames, Chunked(limited, it.frameLimit), fs, clean)
  {
    hide IsChunk, Good, Chunked, Remaining, Quota, IsReading;
    ghost var all := it.reader.rest;
    ghost var chunks := Chunked(Remaining(it.limit, 0, all), it.frameLimit);
    fs := [];
    while true
      invariant it.err == None && |fs| <= |chunks|
      invariant chunks[|fs|..] == Chunked(Remaining(it.limit, it.nRows, it.reader.rest), it.frameLimit)
      invariant forall i :: 0 <= i < |fs| ==> IsChunk(it.lib, it.columnNames, chunks[i], fs[i])
      decreases |Remaining(it.limit, it.nRows, it.reader.rest)|
    {
      OneChunk(it.limit, it.frameLimit, it.nRows, it.reader.rest);
      ghost var todo := chunks[|fs|..];
      NoChunks(Remaining(it.limit, it.nRows, it.reader.rest), it.frameLimit);
      var more := it.Next();
      if !more {
        ReadingEnds(it.lib, it.columnNames, chunks, fs, it.err == None);
        break;
      }
      assert chunks[|fs|] == todo[0] && chunks[|fs| + 1..] == todo[1..];
      fs := fs + [it.frame.value];
    }
    clean := it.err == None;
    LimitTakes(it.limit, all);
  }

  lemma ReadingEnds(lib: Library, names: seq<string>, chunks: seq<seq<Option<Record>>>, fs: seq<FrameVal>, clean: bool)
    requires |fs| <= |chunks| && forall i :: 0 <= i < |fs| ==> IsChunk(lib, names, chunks[i], fs[i])
    requires if clean then chunks[|fs|..] == [] else |fs| < |chunks| && !Good(lib, chunks[|fs|], |names|)
    ensures IsReading(lib, names, chunks, fs, clean)
  {
  }

  lemma NoChunks<T>(s: seq<T>, f: int)
    ensures Chunked(s, f) == [] <==> s == []
  {
  }

  // --- Writing -----------------------------------------------------------------------------------------

  /** Does every column, found by name, reach row r? */
  predicate HasRow(f: FrameVal, r: nat) {
    forall c :: 0 <= c < |f.columns| ==> r < |Resolved(f.columns)[c].cells|
  }

  function RowOf(f: FrameVal, r: nat): seq<Cell>
    requires HasRow(f, r)
  {
    seq(|f.columns|, c requires 0 <= c < |f.columns| => Resolved(f.columns)[c].cells[r])
  }

  function RowsOf(f: FrameVal, n: nat): seq<seq<Cell>>
    requires forall r :: 0 <= r < n ==> HasRow(f, r)
  {
    seq(n, r requires 0 <= r < n => RowOf(f, r))
  }

  /** `fmt.Sprintf("%v", …)` of what `utils.ColAt` gives, cell by cell. */
  function PrintRow(lib: Library, row: seq<Cell>): Record {
    seq(|row|, c requires 0 <= c < |row| => Text(lib.fmt, row[c]))
  }

  function Printed(lib: Library, rows: seq<seq<Cell>>): seq<Record> {
    seq(|rows|, r requires 0 <= r < |rows| => PrintRow(lib, rows[r]))
  }

  function ColumnNames(f: FrameVal): Record {
    seq(|f.columns|, c requires 0 <= c < |f.columns| => f.columns[c].name)
  }

  /** The record has the text of row r's cell in the last column of each column's name. */
  ghost predicate HasTexts(lib: Library, f: FrameVal, r: nat, record: Record) {
    && |record| == |f.columns|
    && forall c, k: nat :: 0 <= c < |f.columns| && IsLastNamed(f.columns, k, f.columns[c].name) ==>
         r < |f.columns[k].cells| && IsText(lib.fmt, f.columns[k].cells[r], record[c])
  }

  lemma RowHasTexts(lib: Library, f: FrameVal, r: nat)
    requires HasRow(f, r)
    ensures HasTexts(lib, f, r, PrintRow(lib, RowOf(f, r)))
  {
    hide Text, IsText;
    var record := PrintRow(lib, RowOf(f, r));
    forall c, k: nat | 0 <= c < |f.columns| && IsLastNamed(f.columns, k, f.columns[c].name)
      ensures r < |f.columns[k].cells| && IsText(lib.fmt, f.columns[k].cells[r], record[c])
    {
      assert k == LastNamed(f.columns, f.columns[c].name) && Resolved(f.columns)[c] == f.columns[k];
      TextIsText(lib.fmt, f.columns[k].cells[r]);
    }
  }

  /** The last records are those of the frame's rows. */
  lemma LastRecords(lib: Library, f: FrameVal, before: seq<Record>, records: seq<Record>)
    requires forall r :: 0 <= r < Height(f) ==> HasRow(f, r)
    requires records == before + Printed(lib, RowsOf(f, Height(f)))
    ensures AreRecordsOf(lib, f, records[|before|..])
  {
    hide HasRow, RowOf, PrintRow, HasTexts;
    forall r | 0 <= r < Height(f) ensures HasTexts(lib, f, r, records[|before|..][r]) {
      RowHasTexts(lib, f, r);
      assert records[|before|..][r] == PrintRow(lib, RowOf(f, r));
    }
  }

  ghost predicate AreRecordsOf(lib: Library, f: FrameVal, records: seq<Record>) {
    |records| == Height(f) && forall r :: 0 <= r < |records| ==> HasTexts(lib, f, r, records[r])
  }

  class CsvAppender {
    const lib: Library
    var records: seq<Record>         // what encoding/csv has been given
    var refused: nat
    var headerWritten: bool

    constructor (lib: Library)
      ensures this.lib == lib && records == [] && refused == 0 && !headerWritten
    {
      this.lib, records, refused, headerWritten := lib, [], 0, false;
    }

    method Write(record: Record) returns (ok: bool)
      modifies `records, `refused
      ensures records == if ok then old(records) + [record] else old(records)
      ensures refused == old(refused) + (if ok then 0 else 1)
    {
      ok := *;
      if ok {
        records := records + [record];
      } else {
        refused := refused + 1;
      }
    }

    /** The header goes before the first frame only. */
    function Header(f: FrameVal): seq<Record>
      reads `headerWritten
    {
      if headerWritten then [] else [ColumnNames(f)]
    }

    /** `Add`: a header if need be, and a record for each row; fewer only on an error. */
    method Add(f: FrameVal) returns (ok: bool)
      modifies this
      ensures ok <==> (forall r :: 0 <= r < Height(f) ==> HasRow(f, r)) && refused == old(refused)
      ensures ok ==> headerWritten && old(records) + old(Header(f)) <= records
                     && AreRecordsOf(lib, f, records[|old(records) + old(Header(f))|..])
      ensures refused >= old(refused)
      ensures ok ==> records == old(records) + old(Header(f)) + Printed(lib, RowsOf(f, Height(f)))
      ensures headerWritten ==> exists n: nat ::
                && n <= Height(f) && (forall r :: 0 <= r < n ==> HasRow(f, r))
                && records == old(records) + old(Header(f)) + Printed(lib, RowsOf(f, n))
      ensures !headerWritten ==> !ok && records == old(records)
    {
      hide Resolved, AreRecordsOf;
      if !headerWritten {
        ok := Write(ColumnNames(f));
        if !ok {
          return;
        }
        headerWritten := true;
      }
      assert RowsOf(f, 0) == [] && records + [] == records;
      ghost var before := old(records) + old(Header(f));
      for r := 0 to Height(f)
        invariant headerWritten && refused == old(refused) && forall k :: 0 <= k < r ==> HasRow(f, k)
        invariant records == before + Printed(lib, RowsOf(f, r))
      {
        var record := RecordOf(f, r);
        if record.None? {
          return false;
        }
        ok := Write(record.value);
        if !ok {
          return;
        }
        assert Printed(lib, RowsOf(f, r + 1)) == Printed(lib, RowsOf(f, r)) + [record.value];
      }
      LastRecords(lib, f, before, records);
      ok := true;
    }

    /** The record of a row; none if `utils.ColAt` finds a column too short. */
    method RecordOf(f: FrameVal, r: nat) returns (record: Option<Record>)
      ensures record.Some? <==> HasRow(f, r)
      ensures record.Some? ==> record.value == PrintRow(lib, RowOf(f, r))
      ensures record.Some? ==> HasTexts(lib, f, r, record.value)
    {
      hide Text, HasTexts;
      var texts := [];
      for c := 0 to |f.columns|
        invariant |texts| == c
        invariant forall k :: 0 <= k < c ==>
          r < |Resolved(f.columns)[k].cells| && texts[k] == Text(lib.fmt, Resolved(f.columns)[k].cells[r])
      {
        var col := f.columns[LastNamed(f.columns, f.columns[c].name)];
        assert col == Resolved(f.columns)[c];
        if r >= |col.cells| {
          return None;
        }
        texts := texts + [Text(lib.fmt, col.cells[r])];
      }
      record := Some(texts);
      RowHasTexts(lib, f, r);
    }
  }

  // --- Writing and reading back ----------------------------------------------------------------------------

  function Lifted(records: seq<Record>): seq<Option<Record>> {
    seq(|records|, i requires 0 <= i < |records| => Some(records[i]))
  }

  /** Rows whose cells have the given types, all of which print and parse exactly. */
  predicate TypedRows(rows: seq<seq<Cell>>, dtypes: seq<DType>) {
    && (forall c :: 0 <= c < |dtypes| ==> Printable(dtypes[c]))
    && (forall r :: 0 <= r < |rows| ==> |rows[r]| == |dtypes|)
    && (forall r, c :: 0 <= r < |rows| && 0 <= c < |dtypes| ==> rows[r][c].DType() == dtypes[c])
  }

  /** No string of the row looks like a value of another type. */
  predicate PlainRow(lib: Library, row: seq<Cell>) {
    forall c :: 0 <= c < |row| ==> PlainCell(lib, row[c])
  }

  predicate HoldsColumn(v: ColVal, name: string, dtype: DType, rows: seq<seq<Cell>>, c: nat)
    requires forall r :: 0 <= r < |rows| ==> c < |rows[r]|
  {
    && v.name == name && v.dtype == dtype && |v.cells| == |rows|
    && (forall r :: 0 <= r < |rows| ==> v.cells[r] == rows[r][c])
  }

  /** The frame has these names, types and cells. */
  predicate Holds(f: FrameVal, names: seq<string>, dtypes: seq<DType>, rows: seq<seq<Cell>>)
    requires TypedRows(rows, dtypes) && |names| == |dtypes|
  {
    && f.indices == [] && |f.columns| == |names|
    && (forall c :: 0 <= c < |names| ==> HoldsColumn(f.columns[c], names[c], dtypes[c], rows, c))
  }

  lemma ChunkIsWellFormed(lib: Library, rows: seq<seq<Cell>>, width: nat)
    requires forall r :: 0 <= r < |rows| ==> |rows[r]| == width
    ensures AllWellFormed(Lifted(Printed(lib, rows)), width)
    ensures Texts(Lifted(Printed(lib, rows)), width) == Printed(lib, rows)
  {
  }

  predicate PlainCell(lib: Library, cell: Cell) {
    cell.StringCell? ==> LooksLike(lib, StringType, cell.s)
  }

  /** Column by column: what is built from printed rows has their cells exactly if the first one is plain. */
  lemma ColumnRoundTrip(lib: Library, name: string, dtypes: seq<DType>, rows: seq<seq<Cell>>, c: nat, v: ColVal)
    requires Plain(lib) && TypedRows(rows, dtypes) && rows != [] && c < |dtypes|
    ensures PlainCell(lib, rows[0][c]) ==> Fits(lib, Printed(lib, rows), c)
    ensures IsColumnOf(lib, name, Printed(lib, rows), c, v) ==>
      (HoldsColumn(v, name, dtypes[c], rows, c) <==> PlainCell(lib, rows[0][c]))
  {
    forall r | 0 <= r < |rows|
      ensures Printed(lib, rows)[r][c] == Text(lib.fmt, rows[r][c])
      ensures dtypes[c] != StringType ==> LooksLike(lib, dtypes[c], Text(lib.fmt, rows[r][c]))
      ensures dtypes[c] == StringType ==> rows[r][c].StringCell? && Text(lib.fmt, rows[r][c]) == rows[r][c].s
      ensures forall other :: ReadsAs(lib, dtypes[c], Text(lib.fmt, rows[r][c]), other) <==> other == rows[r][c]
    {
      assert rows[r][c].DType() == dtypes[c];
      CellRoundTrip(lib, rows[r][c]);
    }
    assert rows[0][c].DType() == dtypes[c];
    OneType(lib, Printed(lib, rows)[0][c]);
    hide ReadsAs, LooksLike, Text, Plain, Printed;
  }

  /** No text has two types. */
  lemma OneType(lib: Library, text: string)
    ensures forall d, e :: LooksLike(lib, d, text) && LooksLike(lib, e, text) ==> d == e
  {
    hide IsTrue, IsFalse, Atoi;
  }

  /** A chunk of printed rows that starts plain is not refused. */
  lemma PlainChunkIsGood(lib: Library, dtypes: seq<DType>, rows: seq<seq<Cell>>)
    requires Plain(lib) && TypedRows(rows, dtypes) && rows != [] && PlainRow(lib, rows[0])
    ensures Good(lib, Lifted(Printed(lib, rows)), |dtypes|)
  {
    ChunkIsWellFormed(lib, rows, |dtypes|);
    forall c | 0 <= c < |dtypes| ensures Fits(lib, Printed(lib, rows), c) {
      assert PlainCell(lib, rows[0][c]);
      ColumnRoundTrip(lib, "", dtypes, rows, c, ColVal("", IntType, []));
    }
    hide Fits, Printed, Lifted, Texts, AllWellFormed;
  }

  /** A chunk of printed rows reads back as it was exactly if its first row is plain. */
  lemma ChunkRoundTrip(lib: Library, names: seq<string>, dtypes: seq<DType>, rows: seq<seq<Cell>>, f: FrameVal)
    requires Plain(lib) && TypedRows(rows, dtypes) && rows != [] && |names| == |dtypes|
    requires IsChunk(lib, names, Lifted(Printed(lib, rows)), f)
    ensures Holds(f, names, dtypes, rows) <==> PlainRow(lib, rows[0])
  {
    ChunkIsWellFormed(lib, rows, |names|);
    hide IsColumnOf, HoldsColumn, Printed, Lifted, Texts, LooksLike, AllWellFormed, Good, Plain;
    forall c | 0 <= c < |names|
      ensures HoldsColumn(f.columns[c], names[c], dtypes[c], rows, c) <==> PlainCell(lib, rows[0][c])
    {
      assert IsColumnOf(lib, names[c], Printed(lib, rows), c, f.columns[c]);
      ColumnRoundTrip(lib, names[c], dtypes, rows, c, f.columns[c]);
    }
  }

  /** Printing commutes with cutting into chunks. */
  lemma {:induction false} ChunkedPrinted(lib: Library, rows: seq<seq<Cell>>, f: int)
    ensures var cs, ts := Chunked(rows, f), Chunked(Lifted(Printed(lib, rows)), f);
      |ts| == |cs| && forall i :: 0 <= i < |cs| ==> ts[i] == Lifted(Printed(lib, cs[i]))
    decreases |rows|
  {
    if rows != [] {
      var k := if 0 < f < |rows| then f else |rows|;
      ChunkedPrinted(lib, rows[k..], f);
      var all := Lifted(Printed(lib, rows));
      assert all[..k] == Lifted(Printed(lib, rows[..k]));
      assert all[k..] == Lifted(Printed(lib, rows[k..]));
      assert Chunked(rows, f) == [rows[..k]] + Chunked(rows[k..], f);
      assert Chunked(all, f) == [all[..k]] + Chunked(all[k..], f);
    }
  }

  lemma {:induction false} ChunksAreTyped(rows: seq<seq<Cell>>, dtypes: seq<DType>, f: int)
    requires TypedRows(rows, dtypes)
    ensures forall i :: 0 <= i < |Chunked(rows, f)| ==> TypedRows(Chunked(rows, f)[i], dtypes) && Chunked(rows, f)[i] != []
    decreases |rows|
  {
    if rows != [] {
      var k := if 0 < f < |rows| then f else |rows|;
      ChunksAreTyped(rows[k..], dtypes, f);
      assert Chunked(rows, f) == [rows[..k]] + Chunked(rows[k..], f);
    }
  }

  /** The reading gave back all rows, in chunks, with their names and types. */
  ghost predicate GaveBack(names: seq<string>, dtypes: seq<DType>, rows: seq<seq<Cell>>, f: int, got: seq<FrameVal>, clean: bool)
    requires |names| == |dtypes|
  {
    var cs := Chunked(rows, f);
    clean && |got| == |cs| && forall i :: 0 <= i < |cs| ==> TypedRows(cs[i], dtypes) && Holds(got[i], names, dtypes, cs[i])
  }

  /** Every frame that is read starts with a row in which no string looks like something else. */
  ghost predicate StartsPlain(lib: Library, rows: seq<seq<Cell>>, f: int) {
    forall i :: 0 <= i < |Chunked(rows, f)| ==> Chunked(rows, f)[i] != [] && PlainRow(lib, Chunked(rows, f)[i][0])
  }

  /** Written rows are read back exactly when every frame starts plain. */
  lemma ReadingRoundTrip(lib: Library, names: seq<string>, dtypes: seq<DType>, rows: seq<seq<Cell>>, f: int,
      got: seq<FrameVal>, clean: bool)
    requires Plain(lib) && TypedRows(rows, dtypes) && |names| == |dtypes|
    requires IsReading(lib, names, Chunked(Lifted(Printed(lib, rows)), f), got, clean)
    ensures GaveBack(names, dtypes, rows, f, got, clean) <==> StartsPlain(lib, rows, f)
  {
    var cs := Chunked(rows, f);
    ChunkedPrinted(lib, rows, f);
    ChunksAreTyped(rows, dtypes, f);
    hide Chunked, Good, IsChunk, Holds, PlainRow, TypedRows, Plain;
    forall i | 0 <= i < |cs|
      ensures PlainRow(lib, cs[i][0]) ==> Good(lib, Lifted(Printed(lib, cs[i])), |names|)
      ensures i < |got| ==> (Holds(got[i], names, dtypes, cs[i]) <==> PlainRow(lib, cs[i][0]))
    {
      if PlainRow(lib, cs[i][0]) {
        PlainChunkIsGood(lib, dtypes, cs[i]);
      }
      if i < |got| {
        ChunkRoundTrip(lib, names, dtypes, cs[i], got[i]);
      }
    }
  }

  /** Frames with these columns, and types that print and parse exactly. */
  predicate Shaped(f: FrameVal, names: seq<string>, dtypes: seq<DType>)
    requires |names| == |dtypes|
  {
    && |f.columns| == |names|
    && (forall c :: 0 <= c < |names| ==> Printable(dtypes[c]) && f.columns[c].name == names[c])
    && (forall c :: 0 <= c < |names| ==> |f.columns[c].cells| == Height(f))
    && (forall c, r :: 0 <= c < |names| && 0 <= r < Height(f) ==> f.columns[c].cells[r].DType() == dtypes[c])
  }

  function FrameRows(f: FrameVal, names: seq<string>, dtypes: seq<DType>): seq<seq<Cell>>
    requires |names| == |dtypes| && Shaped(f, names, dtypes)
  {
    seq(Height(f), r requires 0 <= r < Height(f) =>
      seq(|names|, c requires 0 <= c < |names| => f.columns[c].cells[r]))
  }

  function AllRows(fs: seq<FrameVal>, names: seq<string>, dtypes: seq<DType>): (rows: seq<seq<Cell>>)
    requires |names| == |dtypes| && forall i :: 0 <= i < |fs| ==> Shaped(fs[i], names, dtypes)
    ensures TypedRows(rows, dtypes) || |fs| == 0
  {
    if fs == [] then [] else AllRows(fs[..|fs| - 1], names, dtypes) + FrameRows(fs[|fs| - 1], names, dtypes)
  }

  /** Distinct names find their own columns. */
  lemma RowsFound(f: FrameVal, names: seq<string>, dtypes: seq<DType>)
    requires |names| == |dtypes| && Shaped(f, names, dtypes) && Distinct(names)
    ensures forall r :: 0 <= r < Height(f) ==> HasRow(f, r)
    ensures RowsOf(f, Height(f)) == FrameRows(f, names, dtypes)
    ensures ColumnNames(f) == names
  {
    forall c | 0 <= c < |f.columns| ensures Resolved(f.columns)[c] == f.columns[c] {
      var k := LastNamed(f.columns, f.columns[c].name);
      assert k >= c && names[k] == names[c];
    }
    hide Resolved, LastNamed;
    forall r | 0 <= r < Height(f) ensures HasRow(f, r) && RowOf(f, r) == FrameRows(f, names, dtypes)[r] {
      assert RowOf(f, r) == FrameRows(f, names, dtypes)[r];
    }
  }

  lemma MoreRows(lib: Library, names: seq<string>, dtypes: seq<DType>, fs: seq<FrameVal>, i: nat)
    requires |names| == |dtypes| && i < |fs| && forall k :: 0 <= k < |fs| ==> Shaped(fs[k], names, dtypes)
    ensures Printed(lib, AllRows(fs[..i + 1], names, dtypes)) ==
            Printed(lib, AllRows(fs[..i], names, dtypes)) + Printed(lib, FrameRows(fs[i], names, dtypes))
  {
    hide Shaped, FrameRows;
    assert fs[..i + 1][..i] == fs[..i];
    var before, more := AllRows(fs[..i], names, dtypes), FrameRows(fs[i], names, dtypes);
    assert Printed(lib, before + more) == Printed(lib, before) + Printed(lib, more);
  }

  lemma NoRows(lib: Library, names: seq<string>, dtypes: seq<DType>)
    requires |names| == |dtypes|
    ensures Printed(lib, AllRows([], names, dtypes)) == []
  {
  }

  /** Writes frames one after the other. */
  method WriteAll(appender: CsvAppender, names: seq<string>, dtypes: seq<DType>, fs: seq<FrameVal>) returns (written: bool)
    requires |names| == |dtypes| && Distinct(names) && fs != []
    requires forall i :: 0 <= i < |fs| ==> Shaped(fs[i], names, dtypes)
    requires appender.records == [] && !appender.headerWritten
    modifies appender
    ensures written ==> appender.records == [names] + Printed(appender.lib, AllRows(fs, names, dtypes))
    ensures written <==> appender.refused == old(appender.refused)
  {
    hide FrameRows, Shaped, Distinct, Printed, RowsOf, HasRow, Height, AllRows;
    NoRows(appender.lib, names, dtypes);
    for i := 0 to |fs|
      invariant (appender.headerWritten <==> i > 0) && appender.refused == old(appender.refused)
      invariant appender.records == (if i == 0 then [] else [names]) + Printed(appender.lib, AllRows(fs[..i], names, dtypes))
    {
      RowsFound(fs[i], names, dtypes);
      MoreRows(appender.lib, names, dtypes, fs, i);
      ghost var before := Printed(appender.lib, AllRows(fs[..i], names, dtypes));
      var ok := appender.Add(fs[i]);
      if !ok {
        return false;
      }
      assert i == 0 ==> before == [];
    }
    assert fs[..|fs|] == fs;
    written := true;
  }

  lemma FirstPrinted(lib: Library, rows: seq<seq<Cell>>, n: nat)
    requires n <= |rows|
    ensures Lifted(Printed(lib, rows))[..n] == Lifted(Printed(lib, rows[..n]))
  {
  }

  /**
    * Writing frames and reading the table: the rows, up to the limit, come back in chunks with their
    * names and types, exactly when no chunk starts with a string that looks like something else.
    */
  method WriteAndRead(lib: Library, names: seq<string>, dtypes: seq<DType>, fs: seq<FrameVal>, limit: int, frameLimit: int)
    returns (written: bool, got: seq<FrameVal>, clean: bool)
    requires Plain(lib) && |names| == |dtypes| && Distinct(names) && fs != []
    requires forall i :: 0 <= i < |fs| ==> Shaped(fs[i], names, dtypes)
    ensures written ==>
              var all := AllRows(fs, names, dtypes);
              var rows := if 0 < limit < |all| then all[..limit] else all;
              GaveBack(names, dtypes, rows, frameLimit, got, clean) <==> StartsPlain(lib, rows, frameLimit)
  {
    hide GaveBack, StartsPlain, Shaped, IsReading;
    var appender := new CsvAppender(lib);
    written := WriteAll(appender, names, dtypes, fs);
    if !written {
      return false, [], false;
    }
    ghost var all := AllRows(fs, names, dtypes);
    ghost var rows := if 0 < limit < |all| then all[..limit] else all;
    var reader := new CsvReader(Lifted(appender.records));
    assert reader.rest[0] == Some(names) && reader.rest[1..] == Lifted(Printed(lib, all));
    var header := reader.Read();
    var it := new FrameIterator(lib, reader, header.value.value, limit, frameLimit);
    got, clean := ReadAll(it);
    FirstPrinted(lib, all, |rows|);
    ReadingRoundTrip(lib, names, dtypes, rows, frameLimit, got, clean);
  }
}
