/** The values one row of the society dataset carries, and the calendar
    arithmetic and date text format the dashboard relies on. */
module Records {

  datatype Option<+T> = None | Some(value: T)

  datatype Result<+T, +E> = Ok(value: T) | Err(error: E)

  /** A calendar date as held in the "Date of Registration" column. */
  datatype Date = Date(year: int, month: int, day: int)

  predicate IsLeapYear(y: int) {
    y % 4 == 0 && (y % 100 != 0 || y % 400 == 0)
  }

  function DaysInMonth(y: int, m: int): (n: int)
    requires 1 <= m <= 12
    ensures 28 <= n <= 31
    ensures n == 29 <==> m == 2 && IsLeapYear(y)
  {
    if m == 2 then (if IsLeapYear(y) then 29 else 28)
    else if m == 4 || m == 6 || m == 9 || m == 11 then 30
    else 31
  }

  /** The dates a Python `datetime.date` can hold (years 1 to 9999). */
  predicate ValidDate(d: Date) {
    1 <= d.year <= 9999 && 1 <= d.month <= 12 && 1 <= d.day <= DaysInMonth(d.year, d.month)
  }

  type CalendarDate = d: Date | ValidDate(d) witness Date(1970, 1, 1)

  /** Chronological order on dates. */
  predicate DateLe(a: Date, b: Date) {
    a.year < b.year || (a.year == b.year && (a.month < b.month || (a.month == b.month && a.day <= b.day)))
  }

  /** One row of the unified dataset once its trailing column is gone. */
  datatype Record = Record(
    name: string,
    address: string,
    state: string,
    district: Option<string>,  // None: no value in the District column
    registered: CalendarDate,
    sector: string,
    area: string)              // comma-separated list of states

  function NameOf(r: Record): string { r.name }
  function StateOf(r: Record): string { r.state }
  function SectorOf(r: Record): string { r.sector }
  function RegisteredOn(r: Record): CalendarDate { r.registered }
  function StateAndSector(r: Record): (string, string) { (r.state, r.sector) }

  // ---------------------------------------------------------------------
  // Months: the buckets of a monthly resample.

  /** Months counted from January of year 0. */
  function MonthIndex(d: Date): int {
    d.year * 12 + (d.month - 1)
  }

  /** The months of valid dates: January of year 1 to December of 9999. */
  predicate ValidMonth(m: int) {
    12 <= m < 120000
  }

  /** The label a monthly resample gives to month `m`: its last day. */
  function MonthEnd(m: int): (d: CalendarDate)
    requires ValidMonth(m)
    ensures MonthIndex(d) == m
    ensures d.day == DaysInMonth(d.year, d.month)
  {
    var y, mo := m / 12, m % 12 + 1;
    Date(y, mo, DaysInMonth(y, mo))
  }

  lemma ValidDateMonth(d: Date)
    requires ValidDate(d)
    ensures ValidMonth(MonthIndex(d))
  {
  }

  /** A date in an earlier month is an earlier date. */
  lemma EarlierMonth(a: Date, b: Date)
    requires ValidDate(a) && ValidDate(b) && MonthIndex(a) < MonthIndex(b)
    ensures DateLe(a, b) && a != b
  {
  }

  // ---------------------------------------------------------------------
  // The "%Y-%m-%d" text form of a date.

  function Pow10(n: nat): (p: nat)
    ensures p >= 1
  {
    if n == 0 then 1 else 10 * Pow10(n - 1)
  }

  predicate IsDigit(c: char) {
    '0' <= c <= '9'
  }

  function DigitChar(v: nat): (c: char)
    requires v < 10
    ensures IsDigit(c)
  {
    ('0' as int + v) as char
  }

  function DigitValue(c: char): (v: nat)
    requires IsDigit(c)
    ensures v < 10 && DigitChar(v) == c
  {
    c as int - '0' as int
  }

  predicate AllDigits(s: string) {
    forall i :: 0 <= i < |s| ==> IsDigit(s[i])
  }

  lemma DivBound(n: nat, p: nat)
    requires n < 10 * p
    ensures n / 10 < p
  {
  }

  /** `n` in exactly `width` decimal digits, zero-padded on the left. */
  function Digits(n: nat, width: nat): (s: string)
    requires n < Pow10(width)
    ensures |s| == width && AllDigits(s)
  {
    if width == 0 then []
    else
      DivBound(n, Pow10(width - 1));
      Digits(n / 10, width - 1) + [DigitChar(n % 10)]
  }

  /** The number a string of decimal digits spells. */
  function ParseDigits(s: string): (n: nat)
    requires AllDigits(s)
    ensures n < Pow10(|s|)
  {
    if s == [] then 0 else 10 * ParseDigits(s[..|s| - 1]) + DigitValue(s[|s| - 1])
  }

  lemma {:induction false} ParseDigitsOfDigits(n: nat, width: nat)
    requires n < Pow10(width)
    ensures ParseDigits(Digits(n, width)) == n
  {
    if width > 0 {
      DivBound(n, Pow10(width - 1));
      var s := Digits(n, width);
      assert s[..|s| - 1] == Digits(n / 10, width - 1);
      ParseDigitsOfDigits(n / 10, width - 1);
    }
  }

  lemma DivMod10(a: nat, b: nat)
    requires b < 10
    ensures (10 * a + b) / 10 == a && (10 * a + b) % 10 == b
  {
  }

  lemma {:induction false} DigitsOfParseDigits(s: string)
    requires AllDigits(s)
    ensures Digits(ParseDigits(s), |s|) == s
  {
    if s != [] {
      var init, last := s[..|s| - 1], s[|s| - 1];
      var a, b := ParseDigits(init), DigitValue(last);
      assert ParseDigits(s) == 10 * a + b;
      assert Digits(10 * a + b, |s|) == Digits(a, |init|) + [DigitChar(b)] by {
        DivMod10(a, b);
      }
      assert Digits(a, |init|) == init by {
        DigitsOfParseDigits(init);
      }
      assert s == init + [last];
    }
  }

  /** `strftime("%Y-%m-%d")` of a date (dashboard.py:49). */
  function FormatDate(d: CalendarDate): (s: string)
    ensures |s| == 10 && s[4] == '-' && s[7] == '-'
  {
    Digits(d.year, 4) + "-" + Digits(d.month, 2) + "-" + Digits(d.day, 2)
  }

  /** The reading of the text `FormatDate` writes: exactly four, two and
      two digits separated by '-', naming a valid date; None for any
      other text. It is the partner of `FormatDate`, so that the profile's
      date text can be said to carry the row's registration date. */
  function ParseDate(s: string): (r: Option<CalendarDate>)
    ensures r.Some? ==> |s| == 10 && s[4] == '-' && s[7] == '-'
  {
    if |s| == 10 && s[4] == '-' && s[7] == '-'
       && AllDigits(s[..4]) && AllDigits(s[5..7]) && AllDigits(s[8..])
    then
      var d := Date(ParseDigits(s[..4]), ParseDigits(s[5..7]), ParseDigits(s[8..]));
      if ValidDate(d) then Some(d) else None
    else None
  }

  /** Formatting and then parsing gives the date back. */
  lemma ParseFormattedDate(d: CalendarDate)
    ensures ParseDate(FormatDate(d)) == Some(d)
  {
    var s := FormatDate(d);
    assert s[..4] == Digits(d.year, 4);
    assert s[5..7] == Digits(d.month, 2);
    assert s[8..] == Digits(d.day, 2);
    ParseDigitsOfDigits(d.year, 4);
    ParseDigitsOfDigits(d.month, 2);
    ParseDigitsOfDigits(d.day, 2);
  }

  /** Every text that parses is the formatted form of what it parses to. */
  lemma FormatParsedDate(s: string, d: CalendarDate)
    requires ParseDate(s) == Some(d)
    ensures FormatDate(d) == s
  {
    DigitsOfParseDigits(s[..4]);
    DigitsOfParseDigits(s[5..7]);
    DigitsOfParseDigits(s[8..]);
    assert s == s[..4] + "-" + s[5..7] + "-" + s[8..];
  }
}
