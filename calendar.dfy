/** Python `datetime` values in UTC, as calendar fields, with chronological order. */
module Calendar {
  import Ordering

  datatype DateTime = DateTime(
    year: int, month: int, day: int,
    hour: int, minute: int, second: int, microsecond: int)

  /** Proleptic Gregorian leap years, as `datetime` counts them. */
  predicate IsLeapYear(y: int) {
    y % 4 == 0 && (y % 100 != 0 || y % 400 == 0)
  }

  function DaysInMonth(y: int, m: int): (d: int)
    requires 1 <= m <= 12
    ensures 28 <= d <= 31
    ensures d == 29 <==> m == 2 && IsLeapYear(y)
  {
    if m == 2 then (if IsLeapYear(y) then 29 else 28)
    else if m == 4 || m == 6 || m == 9 || m == 11 then 30
    else 31
  }

  /** The field ranges `datetime` itself enforces (`MINYEAR` is 1, `MAXYEAR` is 9999). */
  predicate Valid(dt: DateTime) {
    && 1 <= dt.year <= 9999
    && 1 <= dt.month <= 12
    && 1 <= dt.day <= DaysInMonth(dt.year, dt.month)
    && 0 <= dt.hour < 24
    && 0 <= dt.minute < 60
    && 0 <= dt.second < 60
    && 0 <= dt.microsecond < 1000000
  }

  /** Chronological order: for valid values, field by field from the year down. */
  predicate Before(a: DateTime, b: DateTime) {
    if a.year != b.year then a.year < b.year
    else if a.month != b.month then a.month < b.month
    else if a.day != b.day then a.day < b.day
    else if a.hour != b.hour then a.hour < b.hour
    else if a.minute != b.minute then a.minute < b.minute
    else if a.second != b.second then a.second < b.second
    else a.microsecond < b.microsecond
  }

  lemma BeforeIsStrictTotalOrder()
    ensures Ordering.IsStrictTotalOrder(Before)
  {
  }

  /** "Not before", the order `sort_values` arranges dates in, is transitive. */
  lemma NotBeforeTransitive(a: DateTime, b: DateTime, c: DateTime)
    requires !Before(b, a) && !Before(c, b)
    ensures !Before(c, a)
  {
  }

  lemma BeforeAsymmetric(a: DateTime, b: DateTime)
    requires Before(a, b)
    ensures !Before(b, a)
  {
  }

  lemma BeforeConnected(a: DateTime, b: DateTime)
    requires a != b && !Before(a, b)
    ensures Before(b, a)
  {
  }

  lemma BeforeThenNotBefore(a: DateTime, b: DateTime, c: DateTime)
    requires Before(a, b) && !Before(c, b)
    ensures Before(a, c)
  {
  }
}
