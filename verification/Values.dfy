/** Go values, the cells that columns store, and time and integer normalisation (pb/methods.go). */
module Values {
  import opened Wrappers

  const TWO_63: int := 0x8000_0000_0000_0000
  const TWO_64: int := 0x1_0000_0000_0000_0000
  const NANOS: int := 1_000_000_000

  type int64 = x: int | -TWO_63 <= x < TWO_63

  // --- Go integer arithmetic ------------------------------------------------------------------

  /** Go's `/` truncates toward zero. */
  function Quot(a: int, b: int): int
    requires b > 0
  {
    if a >= 0 then a / b else -(-a / b)
  }

  /** Go's `%` has the sign of the dividend. */
  function Rem(a: int, b: int): int
    requires b > 0
  {
    a - Quot(a, b) * b
  }

  /** Two's-complement wrap-around to 64 bits. */
  function Wrap64(x: int): int64 {
    var m := x % TWO_64;
    if m < TWO_63 then m else m - TWO_64
  }

  lemma WrapIsIdentityInRange(x: int)
    ensures Wrap64(x) == x <==> -TWO_63 <= x < TWO_63
  {
    if 0 <= x < TWO_63 {
      assert x % TWO_64 == x;
    } else if -TWO_63 <= x < 0 {
      assert x % TWO_64 == x + TWO_64 by {
        assert x == TWO_64 * -1 + (x + TWO_64);
      }
    }
  }

  // --- Times ----------------------------------------------------------------------------------

  /** A `time.Time`: whole seconds since the epoch and the nanoseconds within that second. */
  datatype Time = Time(sec: int, nsec: int) {
    predicate Normal() {
      0 <= nsec < NANOS
    }

    function Instant(): int {
      sec * NANOS + nsec
    }

    /** `UnixNano`: the instant, wrapped to 64 bits outside the years 1678 to 2262. */
    function UnixNano(): int64 {
      Wrap64(Instant())
    }
  }

  /** `time.Time{}`: midnight of January 1st, year 1. */
  const ZERO_TIME := Time(-62135596800, 0)

  /** `time.Unix`: carries nanoseconds outside [0, 1e9) into the seconds. */
  function Unix(sec: int, nsec: int): Time {
    if 0 <= nsec < NANOS then Time(sec, nsec) else
      var n := Quot(nsec, NANOS);
      var rest := nsec - n * NANOS;
      if rest < 0 then Time(sec + n - 1, rest + NANOS) else Time(sec + n, rest)
  }

  function NSToTime(ns: int64): Time {
    Unix(Quot(ns, NANOS), Rem(ns, NANOS))
  }

  /** Nanoseconds survive the trip through `time.Time`, negative ones included. */
  lemma NSToTimeExact(ns: int64)
    ensures NSToTime(ns).Normal() && NSToTime(ns).Instant() == ns
    ensures NSToTime(ns).UnixNano() == ns
  {
    WrapIsIdentityInRange(ns);
  }

  /** A time survives the trip through nanoseconds exactly when 64 bits can hold it. */
  lemma TimeThroughNanos(t: Time)
    requires t.Normal()
    ensures NSToTime(t.UnixNano()) == t <==> -TWO_63 <= t.Instant() < TWO_63
  {
    NSToTimeExact(t.UnixNano());
    WrapIsIdentityInRange(t.Instant());
    if t.UnixNano() == t.Instant() {
      var u := NSToTime(t.UnixNano());
      assert (u.sec - t.sec) * NANOS == t.nsec - u.nsec;
    }
  }

  // --- Values and cells -----------------------------------------------------------------------

  datatype DType = IntType | FloatType | StringType | TimeType | BoolType

  /** A float64: rounding, infinities and signed zeros play no part in what is modelled. */
  datatype Float = NaN | Num(real)

  /** Go's `==` on floats: NaN differs from everything. */
  predicate FloatEq(a: Float, b: Float) {
    a.Num? && a == b
  }

  datatype IntKind = KInt | KInt64 | KInt32 | KInt16 | KInt8

  /** An `interface{}`; `Other` is any value of a type the code has no case for, nil included. */
  datatype Value =
    | Int(kind: IntKind, i: int64)
    | Float64(f: Float)
    | Float32(f: Float)
    | Str(s: string)
    | TimeVal(t: Time)
    | Bool(b: bool)
    | Other

  type Row = map<string, Value>

  /** One element of the array that a column of the matching dtype stores. */
  datatype Cell = IntCell(i: int64) | FloatCell(f: Float) | StringCell(s: string) | TimeCell(ns: int64) | BoolCell(b: bool) {
    function DType(): DType {
      match this
      case IntCell(_) => IntType
      case FloatCell(_) => FloatType
      case StringCell(_) => StringType
      case TimeCell(_) => TimeType
      case BoolCell(_) => BoolType
    }

    /** What the typed accessors of a column give back for this cell. */
    function ToValue(): Value {
      match this
      case IntCell(i) => Int(KInt64, i)
      case FloatCell(f) => Float64(f)
      case StringCell(s) => Str(s)
      case TimeCell(ns) => TimeVal(NSToTime(ns))
      case BoolCell(b) => Bool(b)
    }
  }

  function AsInt64(v: Value): Option<int64> {
    if v.Int? then Some(v.i) else None
  }

  /** The cell a column of type `dtype` appends for `v`, if it accepts `v` at all. */
  function CellFor(dtype: DType, v: Value): (c: Option<Cell>)
    ensures c.Some? ==> c.value.DType() == dtype
  {
    match dtype
    case IntType => if AsInt64(v).Some? then Some(IntCell(AsInt64(v).value)) else None
    case FloatType => if v.Float64? then Some(FloatCell(v.f)) else None
    case StringType => if v.Str? then Some(StringCell(v.s)) else None
    case TimeType => if v.TimeVal? then Some(TimeCell(v.t.UnixNano())) else None
    case BoolType => if v.Bool? then Some(BoolCell(v.b)) else None
  }

  /** The values that a column of type `d` takes. */
  predicate IsOf(d: DType, v: Value) {
    match d
    case IntType => v.Int?
    case FloatType => v.Float64?
    case StringType => v.Str?
    case TimeType => v.TimeVal?
    case BoolType => v.Bool?
  }

  /** `cell` is what is kept of `v`; of a time, the nanoseconds since the epoch as far as 64 bits go. */
  predicate Stores(cell: Cell, v: Value) {
    match cell
    case IntCell(i) => v.Int? && v.i == i
    case FloatCell(f) => v == Float64(f)
    case StringCell(s) => v == Str(s)
    case TimeCell(ns) => v.TimeVal? && (v.t.sec * 1_000_000_000 + v.t.nsec - ns) % 0x1_0000_0000_0000_0000 == 0
    case BoolCell(b) => v == Bool(b)
  }

  /** What stands for a missing value. */
  predicate IsPadding(cell: Cell) {
    match cell
    case IntCell(i) => i == 0
    case FloatCell(f) => f == NaN
    case StringCell(s) => s == ""
    case TimeCell(ns) => ns == 0
    case BoolCell(b) => !b
  }

  lemma CellForStores(dtype: DType, v: Value)
    ensures CellFor(dtype, v).Some? <==> IsOf(dtype, v)
    ensures CellFor(dtype, v).Some? ==> Stores(CellFor(dtype, v).value, v)
  {
    if dtype == TimeType && v.TimeVal? {
      WrapIsCongruent(v.t.Instant());
    }
  }

  lemma WrapIsCongruent(x: int)
    ensures (x - Wrap64(x)) % TWO_64 == 0
  {
    var q := x / TWO_64;
    assert x - x % TWO_64 == q * TWO_64 && x - (x % TWO_64 - TWO_64) == (q + 1) * TWO_64;
    assert q * TWO_64 % TWO_64 == 0 && (q + 1) * TWO_64 % TWO_64 == 0;
  }

  /** The one class of columns that accepts `v`. */
  function ClassOf(v: Value): (d: Option<DType>)
    ensures forall e :: CellFor(e, v).Some? <==> d == Some(e)
    ensures forall e :: IsOf(e, v) <==> d == Some(e)
  {
    match v
    case Int(_, _) => Some(IntType)
    case Float64(_) => Some(FloatType)
    case Str(_) => Some(StringType)
    case TimeVal(_) => Some(TimeType)
    case Bool(_) => Some(BoolType)
    case _ => None
  }

  /** Padding for rows without a value: 0, NaN, "", the epoch, false. */
  function ZeroValue(dtype: DType): Value {
    match dtype
    case IntType => Int(KInt64, 0)
    case FloatType => Float64(NaN)
    case StringType => Str("")
    case TimeType => TimeVal(Unix(0, 0))
    case BoolType => Bool(false)
  }

  function ZeroCell(dtype: DType): (c: Cell)
    ensures c.DType() == dtype
    ensures CellFor(dtype, ZeroValue(dtype)) == Some(c)
  {
    CellFor(dtype, ZeroValue(dtype)).value
  }

  /** Padding by class: 0, NaN, the empty string, the epoch, false. */
  lemma ZeroCellIsPadding(dtype: DType)
    ensures IsPadding(ZeroCell(dtype))
  {
  }
}
