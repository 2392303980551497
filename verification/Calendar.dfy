/** The proleptic Gregorian calendar of Python's `datetime`: dates, their ordinal
    (1 is Monday, 1 January of year 1) and the order of both. */
module Calendar {

  datatype Date = Date(year: int, month: int, day: int)

  const MAX_ORDINAL := 3652059

  predicate IsLeap(y: int) {
    y % 4 == 0 && (y % 100 != 0 || y % 400 == 0)
  }

  function YearLength(y: int): int {
    if IsLeap(y) then 366 else 365
  }

  function MonthLength(y: int, m: int): int {
    if m == 2 then (if IsLeap(y) then 29 else 28)
    else if m == 4 || m == 6 || m == 9 || m == 11 then 30
    else 31
  }

  /** Days in the years before `y`. */
  function DaysBeforeYear(y: int): int {
    365 * (y - 1) + (y - 1) / 4 - (y - 1) / 100 + (y - 1) / 400
  }

  /** Days in the months of year `y` before month `m`. */
  function DaysBeforeMonth(y: int, m: int): int
    decreases m
  {
    if m <= 1 then 0 else DaysBeforeMonth(y, m - 1) + MonthLength(y, m - 1)
  }

  predicate ValidDate(d: Date) {
    1 <= d.year <= 9999 && 1 <= d.month <= 12 && 1 <= d.day <= MonthLength(d.year, d.month)
  }

  function Ordinal(d: Date): int {
    DaysBeforeYear(d.year) + DaysBeforeMonth(d.year, d.month) + d.day
  }

  /** Monday is 0, as in `date.weekday`. */
  function Weekday(ordinal: int): int {
    (ordinal + 6) % 7
  }

  predicate DateLess(a: Date, b: Date) {
    || a.year < b.year
    || (a.year == b.year && (a.month < b.month || (a.month == b.month && a.day < b.day)))
  }

  lemma NextYear(y: int)
    ensures DaysBeforeYear(y + 1) == DaysBeforeYear(y) + YearLength(y)
  {
    assert y / 4 == (y - 1) / 4 + (if y % 4 == 0 then 1 else 0);
    assert y / 100 == (y - 1) / 100 + (if y % 100 == 0 then 1 else 0);
    assert y / 400 == (y - 1) / 400 + (if y % 400 == 0 then 1 else 0);
    if y % 400 == 0 {
      assert y % 100 == 0 && y % 4 == 0;
    } else if y % 100 == 0 {
      assert y % 4 == 0;
    }
  }

  lemma {:induction false} YearsMonotone(a: int, b: int)
    requires a < b
    ensures DaysBeforeYear(a) + YearLength(a) <= DaysBeforeYear(b)
    decreases b - a
  {
    NextYear(b - 1);
    if a < b - 1 {
      YearsMonotone(a, b - 1);
    }
  }

  lemma {:induction false} MonthsMonotone(y: int, a: int, b: int)
    requires 1 <= a < b
    ensures DaysBeforeMonth(y, a) + MonthLength(y, a) <= DaysBeforeMonth(y, b)
    decreases b - a
  {
    if a < b - 1 {
      MonthsMonotone(y, a, b - 1);
    }
  }

  lemma TwelveMonths(y: int)
    ensures DaysBeforeMonth(y, 12) + 31 == YearLength(y)
  {
    assert DaysBeforeMonth(y, 3) == 31 + MonthLength(y, 2);
    assert DaysBeforeMonth(y, 5) == DaysBeforeMonth(y, 3) + 61;
    assert DaysBeforeMonth(y, 7) == DaysBeforeMonth(y, 5) + 61;
    assert DaysBeforeMonth(y, 9) == DaysBeforeMonth(y, 7) + 62;
    assert DaysBeforeMonth(y, 11) == DaysBeforeMonth(y, 9) + 61;
  }

  lemma OrdinalBounds(d: Date)
    requires ValidDate(d)
    ensures DaysBeforeYear(d.year) < Ordinal(d) <= DaysBeforeYear(d.year) + YearLength(d.year)
    ensures DaysBeforeMonth(d.year, d.month) < Ordinal(d) - DaysBeforeYear(d.year)
    ensures DaysBeforeMonth(d.year, d.month) >= 0
  {
    TwelveMonths(d.year);
    if d.month < 12 {
      MonthsMonotone(d.year, d.month, 12);
    }
    if 1 < d.month {
      MonthsMonotone(d.year, 1, d.month);
    }
  }

  /** Ordinals order dates exactly as (year, month, day) does. */
  lemma OrdinalOrder(a: Date, b: Date)
    requires ValidDate(a) && ValidDate(b)
    ensures DateLess(a, b) <==> Ordinal(a) < Ordinal(b)
    ensures a == b <==> Ordinal(a) == Ordinal(b)
  {
    if DateLess(a, b) {
      OrdinalLess(a, b);
    } else if DateLess(b, a) {
      OrdinalLess(b, a);
    } else {
      assert a == b;
    }
  }

  lemma OrdinalLess(a: Date, b: Date)
    requires ValidDate(a) && ValidDate(b) && DateLess(a, b)
    ensures Ordinal(a) < Ordinal(b)
  {
    OrdinalBounds(a);
    OrdinalBounds(b);
    if a.year < b.year {
      YearsMonotone(a.year, b.year);
    } else if a.month < b.month {
      MonthsMonotone(a.year, a.month, b.month);
    }
  }

  // ----- from an ordinal back to its date -----

  function YearFrom(n: int, y: int): (r: int)
    requires DaysBeforeYear(y) < n
    ensures DaysBeforeYear(r) < n <= DaysBeforeYear(r) + YearLength(r)
    ensures y <= r
    decreases n - DaysBeforeYear(y)
  {
    NextYear(y);
    if n <= DaysBeforeYear(y + 1) then y else YearFrom(n, y + 1)
  }

  function MonthFrom(y: int, n: int, m: int): (r: int)
    requires 1 <= m <= 12 && DaysBeforeMonth(y, m) < n <= YearLength(y)
    ensures m <= r <= 12 && DaysBeforeMonth(y, r) < n <= DaysBeforeMonth(y, r) + MonthLength(y, r)
    decreases 12 - m
  {
    TwelveMonths(y);
    if n <= DaysBeforeMonth(y, m) + MonthLength(y, m) then m else MonthFrom(y, n, m + 1)
  }

  lemma YearInRange(y: int)
    requires DaysBeforeYear(y) < MAX_ORDINAL
    ensures y <= 9999
  {
    if 10000 < y {
      YearsMonotone(10000, y);
    }
  }

  function FromOrdinal(n: int): (d: Date)
    requires 1 <= n <= MAX_ORDINAL
    ensures ValidDate(d) && Ordinal(d) == n
  {
    var y := YearFrom(n, 1);
    YearInRange(y);
    var m := MonthFrom(y, n - DaysBeforeYear(y), 1);
    Date(y, m, n - DaysBeforeYear(y) - DaysBeforeMonth(y, m))
  }

  // ----- the calendar everybody knows -----

  /** A year has 366 days every fourth year, but not at full centuries unless divisible by 400. */
  lemma YearDays(y: int)
    ensures Ordinal(Date(y + 1, 1, 1)) - Ordinal(Date(y, 1, 1))
         == if y % 4 == 0 && (y % 100 != 0 || y % 400 == 0) then 366 else 365
  {
    NextYear(y);
  }

  /** The lengths of the twelve months. */
  lemma MonthDays(y: int, m: int)
    requires 1 <= m < 12
    ensures Ordinal(Date(y, m + 1, 1)) - Ordinal(Date(y, m, 1))
         == if m == 2 then Ordinal(Date(y + 1, 1, 1)) - Ordinal(Date(y, 1, 1)) - 337
            else if m == 1 || m == 3 || m == 5 || m == 7 || m == 8 || m == 10 then 31
            else 30
  {
    NextYear(y);
  }

  lemma FirstOfYear(y: int)
    ensures Ordinal(Date(y, 1, 1)) == 365 * (y - 1) + (y - 1) / 4 - (y - 1) / 100 + (y - 1) / 400 + 1
  {
  }

  /** The anchor: 1 January 1970 was a Thursday, 1 January 2024 a Monday. */
  lemma KnownDays()
    ensures Ordinal(Date(1970, 1, 1)) == 719163
    ensures Weekday(719163) == 3 && Weekday(Ordinal(Date(2024, 1, 1))) == 0
  {
    FirstOfYear(1970);
    FirstOfYear(2024);
  }

  /** The last date is 31 December 9999. */
  lemma LastDay()
    ensures MAX_ORDINAL == Ordinal(Date(9999, 12, 31))
  {
    TwelveMonths(9999);
  }

  /** Each day has the weekday after the one before it. */
  lemma WeekdaysFollow(ordinal: int)
    ensures 0 <= Weekday(ordinal) < 7 && Weekday(ordinal + 1) == (Weekday(ordinal) + 1) % 7
  {
  }
}
