/** Calendar dates as the JavaScript `Date` objects of the calculator use them:
    a local midnight named by (year, zero-based month, day of month), on the
    proleptic Gregorian calendar. Instead of millisecond timestamps, a date is
    measured by its day number: the count of days since 0001-01-01 (a Monday),
    negative before it. Two local midnights compare like their day numbers. */
module Calendar {

  datatype Date = Date(year: int, month: int, day: int)

  predicate IsLeapYear(y: int) {
    y % 4 == 0 && (y % 100 != 0 || y % 400 == 0)
  }

  function DaysInMonth(y: int, m: int): (n: int)
    requires 0 <= m <= 11
    ensures 28 <= n <= 31
  {
    if m == 1 then (if IsLeapYear(y) then 29 else 28)
    else if m == 3 || m == 5 || m == 8 || m == 10 then 30
    else 31
  }

  /** A date that names a real day: month 0..11 and a day that exists in it. */
  predicate ValidDate(d: Date) {
    0 <= d.month <= 11 && 1 <= d.day <= DaysInMonth(d.year, d.month)
  }

  /** The year `new Date(year, month, day)` uses: ECMAScript's MakeFullYear
      reads a year argument 0..99 as 1900..1999. */
  function ConstructorYear(year: int): (y: int)
    ensures 0 <= year <= 99 ==> y == 1900 + year
    ensures !(0 <= year <= 99) ==> y == year
  {
    if 0 <= year <= 99 then 1900 + year else year
  }

  /** Days from 0001-01-01 to the first of January of year y. */
  function DaysBeforeYear(y: int): int {
    var n := y - 1;
    365 * n + n / 4 - n / 100 + n / 400
  }

  /** Days from the first of January of year y to the first of month m. */
  function DaysBeforeMonth(y: int, m: int): int
    requires 0 <= m <= 11
  {
    [0, 31, 59, 90, 120, 151, 181, 212, 243, 273, 304, 334][m]
      + (if m >= 2 && IsLeapYear(y) then 1 else 0)
  }

  function MonthStart(y: int, m: int): int
    requires 0 <= m <= 11
  {
    DaysBeforeYear(y) + DaysBeforeMonth(y, m)
  }

  function DayNumber(d: Date): int
    requires 0 <= d.month <= 11
  {
    MonthStart(d.year, d.month) + d.day - 1
  }

  /** `getDay()`: 0 is Sunday, ..., 6 is Saturday. Day number 0 is a Monday. */
  function Weekday(d: Date): (w: int)
    requires 0 <= d.month <= 11
    ensures 0 <= w <= 6
  {
    (DayNumber(d) + 1) % 7
  }

  /** JavaScript's `>=` between two `Date` objects taken at local midnight. */
  predicate OnOrAfter(a: Date, b: Date)
    requires 0 <= a.month <= 11 && 0 <= b.month <= 11
  {
    DayNumber(a) >= DayNumber(b)
  }

  /** Calendar order, read off the fields: by year, then month, then day. */
  predicate CalendarBefore(a: Date, b: Date) {
    a.year < b.year
    || (a.year == b.year && (a.month < b.month || (a.month == b.month && a.day < b.day)))
  }

  /** Months counted from January of year 0: (y, m) is month 12 * y + m. */
  function MonthIndex(y: int, m: int): int {
    12 * y + m
  }

  function MonthStartAt(i: int): int {
    MonthStart(i / 12, i % 12)
  }

  function DaysInMonthAt(i: int): int {
    DaysInMonth(i / 12, i % 12)
  }

  /** The day after d, rolling over into the next month and year. */
  function NextDay(d: Date): Date
    requires ValidDate(d)
  {
    if d.day < DaysInMonth(d.year, d.month) then Date(d.year, d.month, d.day + 1)
    else if d.month < 11 then Date(d.year, d.month + 1, 1)
    else Date(d.year + 1, 0, 1)
  }

  /** The day before d, rolling back into the previous month and year. */
  function PrevDay(d: Date): Date
    requires ValidDate(d)
  {
    if d.day > 1 then Date(d.year, d.month, d.day - 1)
    else if d.month > 0 then Date(d.year, d.month - 1, DaysInMonth(d.year, d.month - 1))
    else Date(d.year - 1, 11, 31)
  }

  lemma FloorDivStep(n: int, k: int)
    requires k > 0
    ensures (n + 1) / k - n / k == if (n + 1) % k == 0 then 1 else 0
  {
    var q, r := n / k, n % k;
    assert n == q * k + r && 0 <= r < k;
    if r + 1 < k {
      assert n + 1 == q * k + (r + 1);
      DivUnique(n + 1, k, q, r + 1);
    } else {
      assert n + 1 == (q + 1) * k + 0;
      DivUnique(n + 1, k, q + 1, 0);
    }
  }

  lemma DivUnique(a: int, k: int, q: int, r: int)
    requires k > 0 && 0 <= r < k && a == q * k + r
    ensures a / k == q && a % k == r
  {
    var q', r' := a / k, a % k;
    assert a == q' * k + r' && 0 <= r' < k;
    if q > q' {
      assert (q - q') * k == r' - r;
      MulAtLeast(q - q', k);
    } else if q < q' {
      assert (q' - q) * k == r - r';
      MulAtLeast(q' - q, k);
    }
  }

  lemma {:induction false} MulAtLeast(x: int, k: int)
    requires x >= 1 && k > 0
    ensures x * k >= k
  {
    if x > 1 {
      MulAtLeast(x - 1, k);
      assert x * k == (x - 1) * k + k;
    }
  }

  /** A year has 366 days exactly when it is a leap year. */
  lemma YearLength(y: int)
    ensures DaysBeforeYear(y + 1) == DaysBeforeYear(y) + (if IsLeapYear(y) then 366 else 365)
  {
    FloorDivStep(y - 1, 4);
    FloorDivStep(y - 1, 100);
    FloorDivStep(y - 1, 400);
  }

  /** Inside a year, the first of the next month is DaysInMonth days later. */
  lemma NextMonthStart(y: int, m: int)
    requires 0 <= m < 11
    ensures MonthStart(y, m + 1) == MonthStart(y, m) + DaysInMonth(y, m)
  {
  }

  /** The first of January is 31 days after the first of December before it. */
  lemma NextYearStart(y: int)
    ensures MonthStart(y + 1, 0) == MonthStart(y, 11) + 31
  {
    YearLength(y);
  }

  /** The first of the next month is DaysInMonth days after the first of this one. */
  lemma MonthStartStep(i: int)
    ensures MonthStartAt(i + 1) == MonthStartAt(i) + DaysInMonthAt(i)
  {
    var y, m := i / 12, i % 12;
    if m < 11 {
      DivUnique(i + 1, 12, y, m + 1);
      NextMonthStart(y, m);
    } else {
      DivUnique(i + 1, 12, y + 1, 0);
      NextYearStart(y);
    }
  }

  lemma MonthIndexRoundTrip(y: int, m: int)
    requires 0 <= m <= 11
    ensures MonthIndex(y, m) / 12 == y && MonthIndex(y, m) % 12 == m
  {
    DivUnique(MonthIndex(y, m), 12, y, m);
  }

  /** Every day of month i comes before the first of any later month j. */
  lemma {:induction false} MonthStartMonotone(i: int, j: int)
    requires i < j
    ensures MonthStartAt(j) >= MonthStartAt(i) + DaysInMonthAt(i)
    decreases j - i
  {
    var k := j - 1;
    MonthStartStep(k);
    if i < k {
      MonthStartMonotone(i, k);
      assert DaysInMonthAt(k) >= 28;
    }
  }

  /** Day numbers order valid dates exactly as the calendar does. */
  lemma DayNumberOrder(a: Date, b: Date)
    requires ValidDate(a) && ValidDate(b)
    ensures DayNumber(a) < DayNumber(b) <==> CalendarBefore(a, b)
  {
    if CalendarBefore(a, b) {
      DayNumberBefore(a, b);
    } else if CalendarBefore(b, a) {
      DayNumberBefore(b, a);
    }
  }

  /** Two valid dates share a day number exactly when they are the same date. */
  lemma DayNumberInjective(a: Date, b: Date)
    requires ValidDate(a) && ValidDate(b)
    ensures DayNumber(a) == DayNumber(b) <==> a == b
  {
    if CalendarBefore(a, b) {
      DayNumberBefore(a, b);
    } else if CalendarBefore(b, a) {
      DayNumberBefore(b, a);
    }
  }

  lemma DayNumberBefore(a: Date, b: Date)
    requires ValidDate(a) && ValidDate(b)
    requires CalendarBefore(a, b)
    ensures DayNumber(a) < DayNumber(b)
  {
    var ia, ib := MonthIndex(a.year, a.month), MonthIndex(b.year, b.month);
    MonthIndexRoundTrip(a.year, a.month);
    MonthIndexRoundTrip(b.year, b.month);
    if ia < ib {
      MonthStartMonotone(ia, ib);
    }
  }

  lemma NextDayNumber(d: Date)
    requires ValidDate(d)
    ensures ValidDate(NextDay(d))
    ensures DayNumber(NextDay(d)) == DayNumber(d) + 1
  {
    if d.day == DaysInMonth(d.year, d.month) {
      if d.month < 11 {
        NextMonthStart(d.year, d.month);
      } else {
        NextYearStart(d.year);
      }
    }
  }

  lemma PrevDayNumber(d: Date)
    requires ValidDate(d)
    ensures ValidDate(PrevDay(d))
    ensures DayNumber(PrevDay(d)) == DayNumber(d) - 1
  {
    if d.day == 1 {
      if d.month > 0 {
        NextMonthStart(d.year, d.month - 1);
      } else {
        NextYearStart(d.year - 1);
      }
    }
  }

  /** Moving k days forward inside one month moves the weekday k steps. */
  lemma WeekdayInMonth(y: int, m: int, d: int)
    requires 0 <= m <= 11
    ensures Weekday(Date(y, m, d)) == (Weekday(Date(y, m, 1)) + d - 1) % 7
  {
    var s := MonthStart(y, m);
    var q := (s + 1) / 7;
    assert s + 1 == 7 * q + Weekday(Date(y, m, 1));
    DivModShift(Weekday(Date(y, m, 1)) + d - 1, q);
  }

  lemma DivModShift(a: int, q: int)
    ensures (a + 7 * q) % 7 == a % 7
  {
    DivUnique(a + 7 * q, 7, a / 7 + q, a % 7);
  }

  /** 1 January 2025 was a Wednesday. */
  lemma NewYear2025()
    ensures Weekday(Date(2025, 0, 1)) == 3
  {
  }
}
