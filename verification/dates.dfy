/**
 Calendar dates and instants, as far as the suppression parser needs them.

 An instant is a calendar date plus the number of 100-nanosecond ticks elapsed
 since midnight, ordered lexicographically; on valid values this is the order of
 .NET `DateTime` ticks. The two sentinels are `DateTime.MinValue` and
 `DateTime.MaxValue`.
 */
module Dates {
  import opened Options
  import opened Text

  datatype Date = Date(year: int, month: int, day: int)

  datatype DateTime = DateTime(date: Date, tick: int)

  const TicksPerDay: int := 864_000_000_000

  predicate IsLeapYear(y: int) {
    y % 4 == 0 && (y % 100 != 0 || y % 400 == 0)
  }

  function DaysInMonth(y: int, m: int): int
    requires 1 <= m <= 12
  {
    if m == 2 then (if IsLeapYear(y) then 29 else 28)
    else if m == 4 || m == 6 || m == 9 || m == 11 then 30
    else 31
  }

  /** A date of the proleptic Gregorian calendar that `DateTime` can represent. */
  predicate ValidDate(d: Date) {
    1 <= d.year <= 9999 && 1 <= d.month <= 12 && 1 <= d.day <= DaysInMonth(d.year, d.month)
  }

  predicate ValidDateTime(t: DateTime) {
    ValidDate(t.date) && 0 <= t.tick < TicksPerDay
  }

  /** `DateTime.MinValue`: 0001-01-01 00:00:00. */
  const MinValue: DateTime := DateTime(Date(1, 1, 1), 0)

  /** `DateTime.MaxValue`: the last tick of 9999-12-31. */
  const MaxValue: DateTime := DateTime(Date(9999, 12, 31), TicksPerDay - 1)

  /** The instant `DateTime.ParseExact` gives for a date without a time part. */
  function Midnight(d: Date): DateTime {
    DateTime(d, 0)
  }

  predicate DateBefore(a: Date, b: Date) {
    a.year < b.year
    || (a.year == b.year && (a.month < b.month || (a.month == b.month && a.day < b.day)))
  }

  /** The `<` of `DateTime`. */
  predicate Before(a: DateTime, b: DateTime) {
    DateBefore(a.date, b.date) || (a.date == b.date && a.tick < b.tick)
  }

  /** `Before` is a strict total order. */
  lemma BeforeIsStrictTotalOrder(a: DateTime, b: DateTime, c: DateTime)
    ensures !Before(a, a)
    ensures Before(a, b) && Before(b, c) ==> Before(a, c)
    ensures a == b || Before(a, b) || Before(b, a)
  {
  }

  /** No representable instant is earlier than `MinValue`. */
  lemma MinValueIsLeast(t: DateTime)
    requires ValidDateTime(t)
    ensures !Before(t, MinValue)
    ensures t != MinValue ==> Before(MinValue, t)
  {
  }

  /** Every representable instant other than `MaxValue` is earlier than it. */
  lemma MaxValueIsGreatest(t: DateTime)
    requires ValidDateTime(t)
    ensures Before(t, MaxValue) <==> t != MaxValue
  {
  }

  /** An instant is before midnight of `d` exactly when its own date is earlier than `d`. */
  lemma BeforeMidnight(t: DateTime, d: Date)
    requires ValidDateTime(t)
    ensures Before(t, Midnight(d)) <==> DateBefore(t.date, d)
  {
  }

  /** Text starting at `k` has the shape `\d{4}-\d{2}-\d{2}`. */
  predicate DateAt(t: string, k: int) {
    && 0 <= k && k + 10 <= |t|
    && IsDigit(t[k]) && IsDigit(t[k + 1]) && IsDigit(t[k + 2]) && IsDigit(t[k + 3])
    && t[k + 4] == '-'
    && IsDigit(t[k + 5]) && IsDigit(t[k + 6])
    && t[k + 7] == '-'
    && IsDigit(t[k + 8]) && IsDigit(t[k + 9])
  }

  /** The date of an `until` clause: exactly ten characters of the shape `\d{4}-\d{2}-\d{2}`. */
  predicate IsDateText(t: string) {
    |t| == 10 && DateAt(t, 0)
  }

  /** The date shape at `k` is the date shape of the ten characters from `k`. */
  lemma DateAtIsDateText(t: string, k: int)
    requires 0 <= k && k + 10 <= |t|
    ensures DateAt(t, k) <==> IsDateText(t[k..k + 10])
  {
  }

  function DigitValue(c: char): int
    requires IsDigit(c)
  {
    c as int - '0' as int
  }

  function DigitChar(n: int): char
    requires 0 <= n <= 9
  {
    ('0' as int + n) as char
  }

  /** The fields read by the custom format `yyyy-MM-dd`, before any range check. */
  function Fields(t: string): Date
    requires IsDateText(t)
  {
    Date(
      1000 * DigitValue(t[0]) + 100 * DigitValue(t[1]) + 10 * DigitValue(t[2]) + DigitValue(t[3]),
      10 * DigitValue(t[5]) + DigitValue(t[6]),
      10 * DigitValue(t[8]) + DigitValue(t[9]))
  }

  /** Writes a date in the custom format `yyyy-MM-dd`, zero-padded. */
  function FormatDate(d: Date): (t: string)
    requires 0 <= d.year <= 9999 && 0 <= d.month <= 99 && 0 <= d.day <= 99
    ensures IsDateText(t)
  {
    [DigitChar(d.year / 1000), DigitChar(d.year / 100 % 10), DigitChar(d.year / 10 % 10), DigitChar(d.year % 10),
     '-', DigitChar(d.month / 10), DigitChar(d.month % 10),
     '-', DigitChar(d.day / 10), DigitChar(d.day % 10)]
  }

  lemma FieldsOfFormat(d: Date)
    requires 0 <= d.year <= 9999 && 0 <= d.month <= 99 && 0 <= d.day <= 99
    ensures Fields(FormatDate(d)) == d
  {
    var y := d.year;
    var a, r1 := y / 1000, y % 1000;
    var b, r2 := r1 / 100, r1 % 100;
    var c, e := r2 / 10, r2 % 10;
    DivMod(y, 1000, a, r1);
    DivMod(r1, 100, b, r2);
    DivMod(r2, 10, c, e);
    DivMod(y, 100, 10 * a + b, r2);
    DivMod(10 * a + b, 10, a, b);
    DivMod(y, 10, 100 * a + 10 * b + c, e);
    DivMod(100 * a + 10 * b + c, 10, 10 * a + b, c);
    DivMod(d.month, 10, d.month / 10, d.month % 10);
    DivMod(d.day, 10, d.day / 10, d.day % 10);
    var t := FormatDate(d);
    assert DigitValue(t[0]) == a && DigitValue(t[1]) == b && DigitValue(t[2]) == c && DigitValue(t[3]) == e;
    assert DigitValue(t[5]) == d.month / 10 && DigitValue(t[6]) == d.month % 10;
    assert DigitValue(t[8]) == d.day / 10 && DigitValue(t[9]) == d.day % 10;
  }

  lemma FormatOfFields(t: string)
    requires IsDateText(t)
    ensures FormatDate(Fields(t)) == t
  {
    var a, b, c, e := DigitValue(t[0]), DigitValue(t[1]), DigitValue(t[2]), DigitValue(t[3]);
    var y := 1000 * a + 100 * b + 10 * c + e;
    DivMod(y, 1000, a, 100 * b + 10 * c + e);
    DivMod(y, 100, 10 * a + b, 10 * c + e);
    DivMod(10 * a + b, 10, a, b);
    DivMod(y, 10, 100 * a + 10 * b + c, e);
    DivMod(100 * a + 10 * b + c, 10, 10 * a + b, c);
    var m1, m2 := DigitValue(t[5]), DigitValue(t[6]);
    DivMod(10 * m1 + m2, 10, m1, m2);
    var d1, d2 := DigitValue(t[8]), DigitValue(t[9]);
    DivMod(10 * d1 + d2, 10, d1, d2);
    var f := FormatDate(Fields(t));
    assert f[0] == t[0] && f[1] == t[1] && f[2] == t[2] && f[3] == t[3];
    assert f[5] == t[5] && f[6] == t[6] && f[8] == t[8] && f[9] == t[9];
  }

  /** Quotient and remainder by the decimal place values used in `yyyy-MM-dd`. */
  lemma DivMod(x: int, n: int, q: int, r: int)
    requires n == 10 || n == 100 || n == 1000
    requires x == q * n + r && 0 <= r < n
    ensures x / n == q && x % n == r
  {
    if n == 10 {
      assert x == q * 10 + r;
    } else if n == 100 {
      assert x == q * 100 + r;
    } else {
      assert x == q * 1000 + r;
    }
  }

  /**
   `DateTime.ParseExact(t, "yyyy-MM-dd", InvariantCulture)` on text already known to
   have the shape `\d{4}-\d{2}-\d{2}`: it yields the date written as `t`, and fails
   (a `FormatException` in the original) when no representable date is written so.
   */
  function ParseDate(t: string): (r: Option<Date>)
    requires IsDateText(t)
    ensures r.Some? ==> ValidDate(r.value) && FormatDate(r.value) == t
    ensures r.None? ==> forall d :: ValidDate(d) ==> FormatDate(d) != t
  {
    var d := Fields(t);
    FormatOfFields(t);
    if ValidDate(d) then Some(d)
    else
      assert forall d' :: ValidDate(d') ==> FormatDate(d') != t by {
        forall d' | ValidDate(d') ensures FormatDate(d') != t {
          FieldsOfFormat(d');
        }
      }
      None
  }

  /** Formatting a representable date and parsing it back gives the date. */
  lemma ParseFormatRoundTrip(d: Date)
    requires ValidDate(d)
    ensures ParseDate(FormatDate(d)) == Some(d)
  {
    var t := FormatDate(d);
    FieldsOfFormat(d);
    if ParseDate(t).Some? {
      FieldsOfFormat(ParseDate(t).value);
    }
  }
}
