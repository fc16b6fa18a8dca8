/** Calendar dates as Python's `datetime.date` has them: proleptic Gregorian, years 1 to 9999,
    ordered chronologically and rendered by `isoformat()` as `YYYY-MM-DD`. */
module Dates {
  import opened Wrappers

  datatype CalendarDate = CalendarDate(year: int, month: int, day: int)

  const MinYear: int := 1
  const MaxYear: int := 9999

  predicate IsLeapYear(y: int) {
    y % 4 == 0 && (y % 100 != 0 || y % 400 == 0)
  }

  function DaysInMonth(y: int, m: int): (n: int)
    requires 1 <= m <= 12
    ensures 28 <= n <= 31
    ensures n == 29 <==> m == 2 && IsLeapYear(y)
  {
    if m == 2 then (if IsLeapYear(y) then 29 else 28)
    else if m == 4 || m == 6 || m == 9 || m == 11 then 30
    else 31
  }

  predicate IsValid(d: CalendarDate) {
    MinYear <= d.year <= MaxYear && 1 <= d.month <= 12 && 1 <= d.day <= DaysInMonth(d.year, d.month)
  }

  /** Only valid calendar dates exist, as for Python `date` values. */
  type Date = d: CalendarDate | IsValid(d) witness CalendarDate(1, 1, 1)

  /** Chronological order: by year, then month, then day. */
  predicate Before(a: Date, b: Date) {
    a.year < b.year
    || (a.year == b.year && a.month < b.month)
    || (a.year == b.year && a.month == b.month && a.day < b.day)
  }

  predicate NotAfter(a: Date, b: Date) {
    Before(a, b) || a == b
  }

  lemma OrderIsTotal(a: Date, b: Date)
    ensures Before(a, b) || a == b || Before(b, a)
    ensures !(Before(a, b) && Before(b, a))
  {
  }

  lemma OrderIsTransitive(a: Date, b: Date, c: Date)
    ensures Before(a, b) && Before(b, c) ==> Before(a, c)
    ensures NotAfter(a, b) && NotAfter(b, c) ==> NotAfter(a, c)
  {
  }

  // ---------------------------------------------------------------------------
  // ISO 8601 extended calendar date, `YYYY-MM-DD`

  predicate IsDigit(c: char) {
    '0' <= c <= '9'
  }

  function DigitChar(n: int): (c: char)
    requires 0 <= n <= 9
    ensures IsDigit(c)
  {
    (48 + n) as char
  }

  function DigitValue(c: char): (n: int)
    requires IsDigit(c)
    ensures 0 <= n <= 9
    ensures DigitChar(n) == c
  {
    c as int - 48
  }

  /** `n` written with exactly two digits, zero-padded. */
  function Pad2(n: int): (s: string)
    requires 0 <= n < 100
  {
    [DigitChar(n / 10), DigitChar(n % 10)]
  }

  /** `n` written with exactly four digits, zero-padded. */
  function Pad4(n: int): (s: string)
    requires 0 <= n < 10000
  {
    Pad2(n / 100) + Pad2(n % 100)
  }

  predicate AllDigits(s: string) {
    forall i :: 0 <= i < |s| ==> IsDigit(s[i])
  }

  function DigitsValue2(s: string): (n: int)
    requires |s| == 2 && AllDigits(s)
  {
    10 * DigitValue(s[0]) + DigitValue(s[1])
  }

  function DigitsValue4(s: string): (n: int)
    requires |s| == 4 && AllDigits(s)
  {
    100 * DigitsValue2(s[..2]) + DigitsValue2(s[2..])
  }

  lemma Pad2RoundTrip(n: int)
    requires 0 <= n < 100
    ensures |Pad2(n)| == 2 && AllDigits(Pad2(n)) && DigitsValue2(Pad2(n)) == n
  {
  }

  lemma Pad4RoundTrip(n: int)
    requires 0 <= n < 10000
    ensures |Pad4(n)| == 4 && AllDigits(Pad4(n)) && DigitsValue4(Pad4(n)) == n
  {
    var hi, lo := n / 100, n % 100;
    Pad2RoundTrip(hi);
    Pad2RoundTrip(lo);
    var s := Pad4(n);
    assert s[..2] == Pad2(hi) && s[2..] == Pad2(lo);
    assert n == 100 * hi + lo;
  }

  lemma DigitsValue2RoundTrip(s: string)
    requires |s| == 2 && AllDigits(s)
    ensures 0 <= DigitsValue2(s) < 100 && Pad2(DigitsValue2(s)) == s
  {
    var a, b := DigitValue(s[0]), DigitValue(s[1]);
    assert (10 * a + b) / 10 == a && (10 * a + b) % 10 == b;
  }

  lemma DigitsValue4RoundTrip(s: string)
    requires |s| == 4 && AllDigits(s)
    ensures 0 <= DigitsValue4(s) < 10000 && Pad4(DigitsValue4(s)) == s
  {
    var hi, lo := s[..2], s[2..];
    DigitsValue2RoundTrip(hi);
    DigitsValue2RoundTrip(lo);
    var a, b := DigitsValue2(hi), DigitsValue2(lo);
    assert (100 * a + b) / 100 == a && (100 * a + b) % 100 == b;
    assert s == hi + lo;
  }

  /** `date.isoformat()`: four-digit year, two-digit month and day, separated by hyphens. */
  function IsoFormat(d: Date): (s: string)
    ensures |s| == 10 && s[4] == '-' && s[7] == '-'
    ensures AllDigits(s[..4]) && AllDigits(s[5..7]) && AllDigits(s[8..])
  {
    Pad4(d.year) + "-" + Pad2(d.month) + "-" + Pad2(d.day)
  }

  /** Reads a `YYYY-MM-DD` string back, failing on anything that is not a valid date so written. */
  function ParseIso(s: string): (r: Option<Date>)
    ensures r.Some? ==> |s| == 10
  {
    if |s| == 10 && s[4] == '-' && s[7] == '-' && AllDigits(s[..4]) && AllDigits(s[5..7]) && AllDigits(s[8..]) then
      var d := CalendarDate(DigitsValue4(s[..4]), DigitsValue2(s[5..7]), DigitsValue2(s[8..]));
      if IsValid(d) then Some(d) else None
    else None
  }

  /** Every date renders to a string that parses back to the same date. */
  lemma ParseOfFormat(d: Date)
    ensures ParseIso(IsoFormat(d)) == Some(d)
  {
    var s := IsoFormat(d);
    Pad4RoundTrip(d.year);
    Pad2RoundTrip(d.month);
    Pad2RoundTrip(d.day);
    assert s[..4] == Pad4(d.year);
    assert s[5..7] == Pad2(d.month);
    assert s[8..] == Pad2(d.day);
  }

  /** Every string that parses is exactly the rendering of the date it parses to. */
  lemma FormatOfParse(s: string)
    requires ParseIso(s).Some?
    ensures IsoFormat(ParseIso(s).value) == s
  {
    var d := ParseIso(s).value;
    DigitsValue4RoundTrip(s[..4]);
    DigitsValue2RoundTrip(s[5..7]);
    DigitsValue2RoundTrip(s[8..]);
    assert s == s[..4] + "-" + s[5..7] + "-" + s[8..];
  }

  /** Distinct dates render to distinct strings. */
  lemma IsoFormatInjective(a: Date, b: Date)
    ensures IsoFormat(a) == IsoFormat(b) <==> a == b
  {
    if IsoFormat(a) == IsoFormat(b) {
      ParseOfFormat(a);
      ParseOfFormat(b);
    }
  }
}
