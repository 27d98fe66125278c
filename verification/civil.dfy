/** Calendar dates in the proleptic Gregorian calendar, in the shape a
    JavaScript `Date` reports them in local time: full year, month counted
    from 0 (January) to 11 (December), day of the month from 1. Dates are
    numbered consecutively from 0001-01-01 (day 0), which gives leap years,
    weekdays and day differences without milliseconds or time zones. */
module Civil {
  import Text

  datatype Date = Date(year: int, month: int, day: int)

  /** A local date and time of day, as the fields of a JavaScript `Date`. */
  datatype DateTime = DateTime(date: Date, hour: int, minute: int, second: int, millisecond: int)

  predicate IsLeapYear(y: int) {
    y % 4 == 0 && (y % 100 != 0 || y % 400 == 0)
  }

  /** Number of days of month `m` (0-based) of year `y`. */
  function DaysInMonth(y: int, m: int): (n: int)
    requires 0 <= m < 12
    ensures 28 <= n <= 31
  {
    if m == 1 then (if IsLeapYear(y) then 29 else 28)
    else if m == 3 || m == 5 || m == 8 || m == 10 then 30
    else 31
  }

  predicate ValidDate(d: Date) {
    0 <= d.month < 12 && 1 <= d.day <= DaysInMonth(d.year, d.month)
  }

  predicate ValidDateTime(t: DateTime) {
    && ValidDate(t.date)
    && 0 <= t.hour < 24 && 0 <= t.minute < 60
    && 0 <= t.second < 60 && 0 <= t.millisecond < 1000
  }

  function YearLength(y: int): int {
    if IsLeapYear(y) then 366 else 365
  }

  /** Days of year `y` that come before the first of month `m`. */
  function DaysBeforeMonth(y: int, m: int): int
    requires 0 <= m <= 12
  {
    if m == 0 then 0 else DaysBeforeMonth(y, m - 1) + DaysInMonth(y, m - 1)
  }

  /** Days from 0001-01-01 to January 1 of year `y`. */
  function DaysBeforeYear(y: int): int {
    var p := y - 1;
    365 * p + p / 4 - p / 100 + p / 400
  }

  /** The number of the day `d`, counting 0001-01-01 as day 0. */
  function DayNumber(d: Date): int
    requires 0 <= d.month < 12
  {
    DaysBeforeYear(d.year) + DaysBeforeMonth(d.year, d.month) + d.day - 1
  }

  /** `Date.prototype.getDay`: 0 for Sunday to 6 for Saturday
      (0001-01-01 was a Monday). */
  function Weekday(d: Date): (w: int)
    requires 0 <= d.month < 12
    ensures 0 <= w < 7
  {
    (DayNumber(d) + 1) % 7
  }

  /** The twelve months add up to the length of the year. */
  lemma MonthsFillYear(y: int)
    ensures DaysBeforeMonth(y, 12) == YearLength(y)
  {
    var f := DaysInMonth(y, 1);
    assert DaysBeforeMonth(y, 1) == 31;
    assert DaysBeforeMonth(y, 2) == 31 + f;
    assert DaysBeforeMonth(y, 3) == 62 + f;
    assert DaysBeforeMonth(y, 4) == 92 + f;
    assert DaysBeforeMonth(y, 5) == 123 + f;
    assert DaysBeforeMonth(y, 6) == 153 + f;
    assert DaysBeforeMonth(y, 7) == 184 + f;
    assert DaysBeforeMonth(y, 8) == 215 + f;
    assert DaysBeforeMonth(y, 9) == 245 + f;
    assert DaysBeforeMonth(y, 10) == 276 + f;
    assert DaysBeforeMonth(y, 11) == 306 + f;
  }

  /** The count of leap days matches the leap-year rule: consecutive
      January firsts are one year length apart. */
  lemma YearStep(y: int)
    ensures DaysBeforeYear(y + 1) == DaysBeforeYear(y) + YearLength(y)
  {
    var p := y - 1;
    var d4, d100, d400 := y % 4 == 0, y % 100 == 0, y % 400 == 0;
    DivStep(y, 4);
    DivStep(y, 100);
    DivStep(y, 400);
    DivisorsNest(y);
    assert DaysBeforeYear(y + 1) == 365 * y + y / 4 - y / 100 + y / 400;
    assert DaysBeforeYear(y) == 365 * p + p / 4 - p / 100 + p / 400;
    assert YearLength(y) == if d4 && (!d100 || d400) then 366 else 365;
  }

  /** Going from year `y - 1` to `y`, the quotient by `k` grows by one
      exactly when `k` divides `y`. */
  lemma DivStep(y: int, k: int)
    requires k == 4 || k == 100 || k == 400
    ensures y % k == 0 ==> y / k == (y - 1) / k + 1
    ensures y % k != 0 ==> y / k == (y - 1) / k
  {
    var q, r := (y - 1) / k, (y - 1) % k;
    assert y - 1 == k * q + r && 0 <= r < k;
    if r == k - 1 {
      assert y == k * (q + 1);
    } else {
      assert y == k * q + (r + 1);
    }
  }

  /** Multiples of 400 are multiples of 100, and those are multiples of 4. */
  lemma DivisorsNest(y: int)
    ensures y % 400 == 0 ==> y % 100 == 0
    ensures y % 100 == 0 ==> y % 4 == 0
  {
    if y % 400 == 0 {
      MultipleMod(y, 100, 4 * (y / 400));
    }
    if y % 100 == 0 {
      MultipleMod(y, 4, 25 * (y / 100));
    }
  }

  /** A multiple of `d` leaves no remainder. */
  lemma MultipleMod(y: int, d: int, m: int)
    requires d == 4 || d == 100
    requires y == d * m
    ensures y % d == 0
  {
    var q, r := y / d, y % d;
    assert y == d * q + r && 0 <= r < d;
    assert d * (m - q) == r;
  }

  /** January firsts are increasing: every later year starts after the
      whole of an earlier one. */
  lemma {:induction false} DaysBeforeYearIncreasing(a: int, b: int)
    requires a < b
    ensures DaysBeforeYear(a) + YearLength(a) <= DaysBeforeYear(b)
    decreases b - a
  {
    YearStep(a);
    if a + 1 < b {
      DaysBeforeYearIncreasing(a + 1, b);
      YearStep(a + 1);
    }
  }

  /** A later month of the same year starts after the whole of an earlier
      month. */
  lemma {:induction false} DaysBeforeMonthIncreasing(y: int, m: int, n: int)
    requires 0 <= m < n <= 12
    ensures DaysBeforeMonth(y, m) + DaysInMonth(y, m) <= DaysBeforeMonth(y, n)
    decreases n - m
  {
    if m + 1 < n {
      DaysBeforeMonthIncreasing(y, m + 1, n);
    }
  }

  /** The position of a valid date inside its year. */
  lemma DayOfYearBounds(d: Date)
    requires ValidDate(d)
    ensures 0 <= DaysBeforeMonth(d.year, d.month) + d.day - 1 < YearLength(d.year)
  {
    MonthsFillYear(d.year);
    if d.month < 11 {
      DaysBeforeMonthIncreasing(d.year, d.month, 12);
    }
    DaysBeforeMonthNonNegative(d.year, d.month);
  }

  lemma {:induction false} DaysBeforeMonthNonNegative(y: int, m: int)
    requires 0 <= m <= 12
    ensures DaysBeforeMonth(y, m) >= 0
  {
    if m > 0 {
      DaysBeforeMonthNonNegative(y, m - 1);
    }
  }

  /** Calendar order: by year, then month, then day. */
  predicate Before(a: Date, b: Date) {
    || a.year < b.year
    || (a.year == b.year && a.month < b.month)
    || (a.year == b.year && a.month == b.month && a.day < b.day)
  }

  /** Day numbers follow calendar order. */
  lemma DayNumberOrdered(a: Date, b: Date)
    requires ValidDate(a) && ValidDate(b)
    ensures Before(a, b) ==> DayNumber(a) < DayNumber(b)
  {
    if a.year < b.year {
      DayOfYearBounds(a);
      DayOfYearBounds(b);
      DaysBeforeYearIncreasing(a.year, b.year);
    } else if a.year == b.year && a.month < b.month {
      DaysBeforeMonthIncreasing(a.year, a.month, b.month);
    }
  }

  /** Different valid dates have different day numbers. */
  lemma DayNumberInjective(a: Date, b: Date)
    requires ValidDate(a) && ValidDate(b)
    ensures DayNumber(a) == DayNumber(b) <==> a == b
  {
    DayNumberOrdered(a, b);
    DayNumberOrdered(b, a);
  }

  /** The following calendar day, rolling over month and year ends. */
  function NextDay(d: Date): (r: Date)
    requires ValidDate(d)
    ensures ValidDate(r)
    ensures DayNumber(r) == DayNumber(d) + 1
  {
    if d.day < DaysInMonth(d.year, d.month) then
      Date(d.year, d.month, d.day + 1)
    else if d.month < 11 then
      Date(d.year, d.month + 1, 1)
    else
      MonthsFillYear(d.year);
      YearStep(d.year);
      Date(d.year + 1, 0, 1)
  }

  /** The preceding calendar day: day 0 of a month is the last day of the
      month before, and month -1 is December of the year before. */
  function PrevDay(d: Date): (r: Date)
    requires ValidDate(d)
    ensures ValidDate(r)
    ensures DayNumber(r) == DayNumber(d) - 1
  {
    if d.day > 1 then
      Date(d.year, d.month, d.day - 1)
    else if d.month > 0 then
      Date(d.year, d.month - 1, DaysInMonth(d.year, d.month - 1))
    else
      MonthsFillYear(d.year - 1);
      YearStep(d.year - 1);
      Date(d.year - 1, 11, 31)
  }

  /** Weekdays follow each other day by day, Saturday wrapping to Sunday. */
  lemma WeekdaySuccessor(d: Date)
    requires ValidDate(d)
    ensures Weekday(NextDay(d)) == (Weekday(d) + 1) % 7
  {
    var n := DayNumber(d) + 1;
    assert Weekday(NextDay(d)) == (n + 1) % 7;
    assert Weekday(d) == n % 7;
    ModSevenStep(n);
  }

  lemma ModSevenStep(n: int)
    ensures (n + 1) % 7 == (n % 7 + 1) % 7
  {
    var q, r := n / 7, n % 7;
    assert n + 1 == 7 * q + (r + 1);
  }

  /** Two known anchors: 1 January 1970 was a Thursday and 15 June 2025 a
      Sunday. */
  lemma WeekdayAnchors()
    ensures Weekday(Date(1970, 0, 1)) == 4
    ensures Weekday(Date(2025, 5, 15)) == 0
  {
    assert DayNumber(Date(1970, 0, 1)) == 719162;
    assert DaysBeforeMonth(2025, 5) == 151;
    assert DayNumber(Date(2025, 5, 15)) == 739416;
  }

  /** Stepping a day forward and back returns to the same date. */
  lemma NextPrevInverse(d: Date)
    requires ValidDate(d)
    ensures PrevDay(NextDay(d)) == d
    ensures NextDay(PrevDay(d)) == d
  {
    DayNumberInjective(PrevDay(NextDay(d)), d);
    DayNumberInjective(NextDay(PrevDay(d)), d);
  }

  /** English month names, January first. */
  const MonthNames: seq<string> := [
    "January", "February", "March", "April", "May", "June",
    "July", "August", "September", "October", "November", "December"
  ]

  /** The short English month name ("Jan" .. "Dec"): the first three
      letters of the full name, which is also what en-US short formatting
      prints. */
  function MonthAbbrev(m: int): (r: string)
    requires 0 <= m < 12
    ensures |r| == 3
  {
    MonthNames[m][..3]
  }

  /** Distinct months have distinct short names. */
  lemma MonthAbbrevInjective(m: int, n: int)
    requires 0 <= m < 12 && 0 <= n < 12
    requires MonthAbbrev(m) == MonthAbbrev(n)
    ensures m == n
  {
    var a := ["Jan", "Feb", "Mar", "Apr", "May", "Jun", "Jul", "Aug", "Sep", "Oct", "Nov", "Dec"];
    forall i | 0 <= i < 12
      ensures MonthAbbrev(i) == a[i]
    {
      assert MonthNames[i][..3] == a[i];
    }
    assert a[m] == a[n];
    assert a[m][0] == a[n][0] && a[m][1] == a[n][1] && a[m][2] == a[n][2];
  }

  /** en-US `toLocaleDateString` with `{ month: 'short', day: 'numeric' }`:
      "Jun 20". */
  function ShortMonthDay(d: Date): string
    requires ValidDate(d)
  {
    MonthAbbrev(d.month) + " " + Text.NatToString(d.day)
  }
}
