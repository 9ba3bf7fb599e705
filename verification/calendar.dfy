/** Proleptic Gregorian calendar dates, as Python's `datetime.date` and
    `calendar.monthrange` see them. */
module Calendar {

  /** `date(year, month, day)` */
  datatype Date = Date(year: int, month: int, day: int)

  /** `datetime.MINYEAR` and `datetime.MAXYEAR`. */
  const MinYear := 1
  const MaxYear := 9999

  /** Gregorian leap years: every fourth year, except centuries not divisible by 400. */
  predicate IsLeap(y: int)
  {
    y % 4 == 0 && (y % 100 != 0 || y % 400 == 0)
  }

  /** `monthrange(y, m)[1]`: the number of days in month `m` of year `y`. */
  function DaysInMonth(y: int, m: int): (n: int)
    requires 1 <= m <= 12
    ensures 28 <= n <= 31
    ensures n == 29 <==> m == 2 && IsLeap(y)
  {
    if m == 2 then (if IsLeap(y) then 29 else 28)
    else if m == 4 || m == 6 || m == 9 || m == 11 then 30
    else 31
  }

  /** A date `date(...)` accepts without raising `ValueError`. */
  predicate ValidDate(d: Date)
  {
    MinYear <= d.year <= MaxYear && 1 <= d.month <= 12 && 1 <= d.day <= DaysInMonth(d.year, d.month)
  }

  /** `a < b` on dates: by year, then month, then day. */
  predicate Before(a: Date, b: Date)
  {
    a.year < b.year || (a.year == b.year && (a.month < b.month || (a.month == b.month && a.day < b.day)))
  }

  /** `a <= b` on dates. */
  predicate NotAfter(a: Date, b: Date)
  {
    !Before(b, a)
  }

  /** The days in months `1..m` of year `y`. */
  function DaysThrough(y: int, m: nat): nat
    requires m <= 12
  {
    if m == 0 then 0 else DaysThrough(y, m - 1) + DaysInMonth(y, m)
  }

  /** The month lengths add up to the length of the Gregorian year. */
  lemma YearLength(y: int)
    ensures DaysThrough(y, 12) == if IsLeap(y) then 366 else 365
  {
    assert DaysThrough(y, 1) == 31;
    assert DaysThrough(y, 2) == 31 + DaysInMonth(y, 2);
    assert DaysThrough(y, 3) == DaysThrough(y, 2) + 31;
    assert DaysThrough(y, 4) == DaysThrough(y, 3) + 30;
    assert DaysThrough(y, 5) == DaysThrough(y, 4) + 31;
    assert DaysThrough(y, 6) == DaysThrough(y, 5) + 30;
    assert DaysThrough(y, 7) == DaysThrough(y, 6) + 31;
    assert DaysThrough(y, 8) == DaysThrough(y, 7) + 31;
    assert DaysThrough(y, 9) == DaysThrough(y, 8) + 30;
    assert DaysThrough(y, 10) == DaysThrough(y, 9) + 31;
    assert DaysThrough(y, 11) == DaysThrough(y, 10) + 30;
    assert DaysThrough(y, 12) == DaysThrough(y, 11) + 31;
  }
}
