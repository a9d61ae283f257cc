/**
  * Values as text: decimal printing and parsing of integers (strconv.FormatInt, strconv.Atoi and
  * fmt's %d and %v), and cells as text.
  */
module Decimal {
  import opened Wrappers
  import opened Values

  function Digit(d: nat): (c: char)
    requires d < 10
    ensures IsDigit(c) && DigitValue(c) == d
  {
    '0' + d as char
  }

  predicate IsDigit(c: char) {
    '0' <= c <= '9'
  }

  function DigitValue(c: char): nat
    requires IsDigit(c)
  {
    (c - '0') as nat
  }

  predicate AllDigits(s: string) {
    forall i :: 0 <= i < |s| ==> IsDigit(s[i])
  }

  function Digits(n: nat): (s: string)
    ensures s != [] && AllDigits(s)
  {
    if n < 10 then [Digit(n)] else Digits(n / 10) + [Digit(n % 10)]
  }

  function DigitsValue(s: string): nat
    requires AllDigits(s)
  {
    if s == [] then 0 else 10 * DigitsValue(s[..|s| - 1]) + DigitValue(s[|s| - 1])
  }

  lemma {:induction false} DigitsParse(n: nat)
    ensures DigitsValue(Digits(n)) == n
  {
    var s := Digits(n);
    if n < 10 {
      assert s[..0] == [];
    } else {
      DigitsParse(n / 10);
      assert s[..|s| - 1] == Digits(n / 10);
    }
  }

  function FormatInt(i: int): string {
    if i < 0 then "-" + Digits(-i) else Digits(i)
  }

  /** An optional sign, then digits only, and no overflow. */
  function Atoi(s: string): Option<int64> {
    var signed := s != [] && s[0] in {'-', '+'};
    var body := if signed then s[1..] else s;
    if body == [] || !AllDigits(body) then None else
      var v: int := DigitsValue(body);
      var i := if signed && s[0] == '-' then -v else v;
      if -TWO_63 <= i < TWO_63 then Some(i) else None
  }

  /** Every int64 survives printing and parsing. */
  lemma FormatThenAtoi(i: int64)
    ensures Atoi(FormatInt(i)) == Some(i)
  {
    hide Digits, DigitsValue;
    var n: nat := if i < 0 then -(i as int) else i;
    var s := FormatInt(i);
    DigitsParse(n);
    if i < 0 {
      assert s[1..] == Digits(n);
    } else {
      assert s == Digits(n) && IsDigit(s[0]);
    }
  }

  /** Digits parse with either sign or without one, as far as 64 bits go. */
  lemma AtoiTakes(digits: string)
    requires digits != "" && AllDigits(digits)
    ensures Atoi(digits) == Atoi("+" + digits) == if DigitsValue(digits) < TWO_63 then Some(DigitsValue(digits)) else None
    ensures var v: int := DigitsValue(digits); Atoi("-" + digits) == if v <= TWO_63 then Some(-v) else None
  {
    hide DigitsValue;
    assert ("+" + digits)[1..] == digits && ("-" + digits)[1..] == digits && IsDigit(digits[0]);
  }

  /** Nothing else parses. */
  lemma AtoiRejects(s: string)
    ensures Atoi(s).Some? ==> exists digits ::
      AllDigits(digits) && digits != "" && (s == digits || s == "+" + digits || s == "-" + digits)
  {
    if Atoi(s).Some? {
      var digits := if s[0] in {'-', '+'} then s[1..] else s;
      assert AllDigits(digits) && digits != "" && (s == digits || s == [s[0]] + digits);
    }
  }

  /** Library formatting of times and floats. */
  datatype Formats = Formats(time: Time -> string, float: Float -> string)

  /** A cell as text. */
  function Text(fmt: Formats, cell: Cell): string {
    match cell
    case IntCell(i) => FormatInt(i)
    case FloatCell(f) => fmt.float(f)
    case StringCell(s) => s
    case TimeCell(ns) => fmt.time(NSToTime(ns))
    case BoolCell(b) => if b then "true" else "false"
  }

  /** `s` is the text of the cell: a time has that of the one normal time at its instant. */
  ghost predicate IsText(fmt: Formats, cell: Cell, s: string) {
    match cell
    case IntCell(i) => s == FormatInt(i)
    case FloatCell(f) => s == fmt.float(f)
    case StringCell(text) => s == text
    case TimeCell(ns) =>
      forall t: Time :: 0 <= t.nsec < 1_000_000_000 && t.sec * 1_000_000_000 + t.nsec == ns ==> s == fmt.time(t)
    case BoolCell(b) => if b then s == "true" else s == "false"
  }

  lemma TextIsText(fmt: Formats, cell: Cell)
    ensures IsText(fmt, cell, Text(fmt, cell))
  {
    if cell.TimeCell? {
      NSToTimeExact(cell.ns);
      var u := NSToTime(cell.ns);
      forall t: Time | 0 <= t.nsec < 1_000_000_000 && t.sec * 1_000_000_000 + t.nsec == cell.ns ensures t == u {
        assert (t.sec - u.sec) * 1_000_000_000 == u.nsec - t.nsec;
      }
    }
  }

  /** The digits of a number have no leading zero. */
  lemma {:induction false} NoLeadingZero(n: nat)
    ensures n > 0 ==> Digits(n)[0] != '0'
    ensures Digits(0) == "0"
  {
    if n >= 10 {
      NoLeadingZero(n / 10);
    }
  }

  /** The printed form: digits without a leading zero, behind a minus for a negative number. */
  lemma FormatIsCanonical(i: int)
    ensures var s := FormatInt(i); var body := if i < 0 then s[1..] else s;
      && (i < 0 ==> s[0] == '-')
      && AllDigits(body) && DigitsValue(body) == (if i < 0 then -i else i)
      && (i != 0 ==> body[0] != '0')
  {
    var n := if i < 0 then -i else i;
    NoLeadingZero(n);
    DigitsParse(n);
    hide Digits, DigitsValue;
    assert i < 0 ==> FormatInt(i)[1..] == Digits(n);
  }
}
