/** Calendar dates and their `YYYY-MM-DD` text form, as the handlers produce
    it with `moment(...).format('YYYY-MM-DD')` and as penalty records store it. */
module Dates {
  import opened Results
  import opened StringOrder

  /** A proleptic Gregorian calendar day. */
  datatype Date = Date(year: int, month: int, day: int)

  predicate IsLeapYear(y: int) {
    (y % 4 == 0 && y % 100 != 0) || y % 400 == 0
  }

  function DaysInMonth(y: int, m: int): int
    requires 1 <= m <= 12
  {
    if m == 2 then (if IsLeapYear(y) then 29 else 28)
    else if m == 4 || m == 6 || m == 9 || m == 11 then 30
    else 31
  }

  /** A real day whose year has four digits. */
  predicate Valid(d: Date) {
    && 0 <= d.year <= 9999
    && 1 <= d.month <= 12
    && 1 <= d.day <= DaysInMonth(d.year, d.month)
  }

  type CalendarDate = d: Date | Valid(d) witness Date(1970, 1, 1)

  /** Calendar order: `a` is the same day as `b` or an earlier one. */
  predicate Le(a: Date, b: Date) {
    || a.year < b.year
    || (a.year == b.year && (a.month < b.month || (a.month == b.month && a.day <= b.day)))
  }

  // ---------------------------------------------------------------- digits

  predicate IsDigit(c: char) {
    '0' <= c <= '9'
  }

  function Digit(k: int): (c: char)
    requires 0 <= k < 10
    ensures IsDigit(c)
  {
    ('0' as int + k) as char
  }

  function DigitValue(c: char): (k: int)
    requires IsDigit(c)
    ensures 0 <= k < 10
  {
    c as int - '0' as int
  }

  /** `n` written with exactly two decimal digits, zero-padded. */
  function Pad2(n: int): (s: string)
    requires 0 <= n < 100
    ensures |s| == 2 && IsDigit(s[0]) && IsDigit(s[1])
  {
    [Digit(n / 10), Digit(n % 10)]
  }

  /** `n` written with exactly four decimal digits, zero-padded. */
  function Pad4(n: int): (s: string)
    requires 0 <= n < 10000
    ensures |s| == 4
  {
    Pad2(n / 100) + Pad2(n % 100)
  }

  /** The number a two-digit string denotes. */
  function Value2(s: string): int
    requires |s| == 2 && IsDigit(s[0]) && IsDigit(s[1])
  {
    10 * DigitValue(s[0]) + DigitValue(s[1])
  }

  predicate IsDigits4(s: string) {
    |s| == 4 && IsDigit(s[0]) && IsDigit(s[1]) && IsDigit(s[2]) && IsDigit(s[3])
  }

  /** The number a four-digit string denotes. */
  function Value4(s: string): int
    requires IsDigits4(s)
  {
    100 * Value2(s[..2]) + Value2(s[2..])
  }

  // ---------------------------------------------------------------- text form

  /** `d` as `YYYY-MM-DD`. */
  function Format(d: CalendarDate): (s: string)
    ensures |s| == 10 && s[4] == '-' && s[7] == '-'
  {
    Pad4(d.year) + "-" + Pad2(d.month) + "-" + Pad2(d.day)
  }

  /** Has the shape `DDDD-DD-DD`, each `D` a decimal digit. */
  predicate IsDateShaped(s: string) {
    && |s| == 10 && s[4] == '-' && s[7] == '-'
    && IsDigits4(s[..4])
    && IsDigit(s[5]) && IsDigit(s[6]) && IsDigit(s[8]) && IsDigit(s[9])
  }

  /** The day a strictly well-formed `YYYY-MM-DD` string names; `None` for
      any other string, including shaped strings naming no real day. */
  function Parse(s: string): Option<CalendarDate> {
    if !IsDateShaped(s) then None
    else
      var d := Date(Value4(s[..4]), Value2(s[5..7]), Value2(s[8..]));
      if Valid(d) then Some(d) else None
  }

  /** The text moment's `format` gives for a date it could not parse. */
  const INVALID_DATE: string := "Invalid date"

  /** A stored date string as `moment(date).format('YYYY-MM-DD')` renders
      it: the day it names when it is well formed, the invalid-date text
      otherwise. */
  function Reformat(s: string): string {
    match Parse(s)
    case Some(d) => Format(d)
    case None => INVALID_DATE
  }

  // ---------------------------------------------------------------- lemmas

  lemma {:induction false} Value2Pad2(n: int)
    requires 0 <= n < 100
    ensures Value2(Pad2(n)) == n
  {
  }

  lemma {:induction false} Pad2Value2(s: string)
    requires |s| == 2 && IsDigit(s[0]) && IsDigit(s[1])
    ensures 0 <= Value2(s) < 100 && Pad2(Value2(s)) == s
  {
    var a, b := DigitValue(s[0]), DigitValue(s[1]);
    assert (10 * a + b) / 10 == a && (10 * a + b) % 10 == b;
  }

  lemma {:induction false} Value4Pad4(n: int)
    requires 0 <= n < 10000
    ensures IsDigits4(Pad4(n)) && Value4(Pad4(n)) == n
  {
    var s := Pad4(n);
    assert s[..2] == Pad2(n / 100) && s[2..] == Pad2(n % 100);
    Value2Pad2(n / 100);
    Value2Pad2(n % 100);
  }

  lemma {:induction false} Pad4Value4(s: string)
    requires IsDigits4(s)
    ensures 0 <= Value4(s) < 10000 && Pad4(Value4(s)) == s
  {
    var hi, lo := Value2(s[..2]), Value2(s[2..]);
    Pad2Value2(s[..2]);
    Pad2Value2(s[2..]);
    assert (100 * hi + lo) / 100 == hi && (100 * hi + lo) % 100 == lo;
    assert s == s[..2] + s[2..];
  }

  /** Reading back a formatted date gives the date itself. */
  lemma {:induction false} ParseFormat(d: CalendarDate)
    ensures Parse(Format(d)) == Some(d)
  {
    var s := Format(d);
    assert s[..4] == Pad4(d.year);
    assert s[5..7] == Pad2(d.month);
    assert s[8..] == Pad2(d.day);
    Value4Pad4(d.year);
    Value2Pad2(d.month);
    Value2Pad2(d.day);
  }

  /** A string that parses is exactly the formatted form of what it names,
      so reformatting a well-formed stored date leaves it unchanged. */
  lemma {:induction false} FormatParse(s: string)
    requires Parse(s).Some?
    ensures Format(Parse(s).value) == s
  {
    var d := Parse(s).value;
    Pad4Value4(s[..4]);
    Pad2Value2(s[5..7]);
    Pad2Value2(s[8..]);
    assert s == s[..4] + "-" + s[5..7] + "-" + s[8..];
  }

  lemma {:induction false} DigitOrder(j: int, k: int)
    requires 0 <= j < 10 && 0 <= k < 10
    ensures Digit(j) < Digit(k) <==> j < k
    ensures Digit(j) == Digit(k) <==> j == k
  {
  }

  /** Two-digit text sorts as the numbers do. */
  lemma {:induction false} Pad2Order(m: int, n: int)
    requires 0 <= m < 100 && 0 <= n < 100
    ensures Pad2(m) == Pad2(n) <==> m == n
    ensures LexLe(Pad2(m), Pad2(n)) <==> m <= n
  {
    var m1, m0, n1, n0 := m / 10, m % 10, n / 10, n % 10;
    DigitOrder(m1, n1);
    DigitOrder(m0, n0);
    Value2Pad2(m);
    Value2Pad2(n);
    assert Pad2(m) == [Digit(m1)] + [Digit(m0)] && Pad2(n) == [Digit(n1)] + [Digit(n0)];
    LexLeConcat([Digit(m1)], [Digit(m0)], [Digit(n1)], [Digit(n0)]);
    assert LexLe([Digit(m0)], [Digit(n0)]) <==> m0 <= n0 by {
      assert [Digit(m0)][1..] == [] && [Digit(n0)][1..] == [];
    }
    assert m <= n <==> m1 < n1 || (m1 == n1 && m0 <= n0);
  }

  /** Four-digit text sorts as the numbers do. */
  lemma {:induction false} Pad4Order(m: int, n: int)
    requires 0 <= m < 10000 && 0 <= n < 10000
    ensures Pad4(m) == Pad4(n) <==> m == n
    ensures LexLe(Pad4(m), Pad4(n)) <==> m <= n
  {
    Pad2Order(m / 100, n / 100);
    Pad2Order(m % 100, n % 100);
    LexLeConcat(Pad2(m / 100), Pad2(m % 100), Pad2(n / 100), Pad2(n % 100));
    Value4Pad4(m);
    Value4Pad4(n);
  }

  /** Zero-padded `YYYY-MM-DD` text sorts exactly as the calendar does. */
  lemma {:induction false} FormatOrder(a: CalendarDate, b: CalendarDate)
    ensures LexLe(Format(a), Format(b)) <==> Le(a, b)
  {
    var yA, mA, dA := Pad4(a.year), Pad2(a.month), Pad2(a.day);
    var yB, mB, dB := Pad4(b.year), Pad2(b.month), Pad2(b.day);
    assert Format(a) == yA + ("-" + (mA + ("-" + dA)));
    assert Format(b) == yB + ("-" + (mB + ("-" + dB)));
    Pad4Order(a.year, b.year);
    Pad2Order(a.month, b.month);
    Pad2Order(a.day, b.day);
    LexLeConcat(yA, "-" + (mA + ("-" + dA)), yB, "-" + (mB + ("-" + dB)));
    LexLeConcat("-", mA + ("-" + dA), "-", mB + ("-" + dB));
    LexLeConcat(mA, "-" + dA, mB, "-" + dB);
    LexLeConcat("-", dA, "-", dB);
  }

  /** The string range test on formatted bounds agrees with the calendar
      range test for every stored date string that is well formed. */
  lemma {:induction false} StringRangeIsCalendarRange(lo: CalendarDate, hi: CalendarDate, s: string)
    requires Parse(s).Some?
    ensures LexLe(Format(lo), s) && LexLe(s, Format(hi))
        <==> Le(lo, Parse(s).value) && Le(Parse(s).value, hi)
  {
    FormatParse(s);
    FormatOrder(lo, Parse(s).value);
    FormatOrder(Parse(s).value, hi);
  }

  /** Reformatting keeps a well-formed date string as it is and turns any
      other string into the invalid-date text. */
  lemma {:induction false} ReformatCases(s: string)
    ensures Parse(s).Some? ==> Reformat(s) == s
    ensures Parse(s).None? ==> Reformat(s) == INVALID_DATE
  {
    if Parse(s).Some? {
      FormatParse(s);
    }
  }

  /** The invalid-date text sorts after every formatted day, so it never
      lies between two formatted bounds. */
  lemma {:induction false} InvalidDateAfterEveryDay(d: CalendarDate)
    ensures !LexLe(INVALID_DATE, Format(d))
  {
    var f := Format(d);
    assert f[0] == Pad2(d.year / 100)[0];
    assert IsDigit(f[0]);
  }
}
