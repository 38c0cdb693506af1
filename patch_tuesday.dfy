/** The date arithmetic of the calculator: the Patch Tuesday of a month, the
    list of upcoming Patch Tuesdays, and the number of days to a date. The
    clock is the explicit parameter `today`, a valid date read at midnight. */
module Schedule {
  import opened Calendar

  /** `getPatchTuesday(year, month)`: the second Tuesday of the month. The
      offset from the 1st to the first Tuesday is (9 - weekday) % 7; with the
      weekday in 0..6 the left operand is positive, so JavaScript's `%`
      agrees with Dafny's. The day is at most 14, so the `Date` constructor
      never rolls over into the next month. */
  function PatchTuesdayOf(year: int, month: int): (r: Date)
    requires 0 <= month <= 11
    ensures ValidDate(r)
    ensures r.year == ConstructorYear(year) && r.month == month
    ensures 8 <= r.day <= 14
    ensures Weekday(r) == 2
  {
    var y := ConstructorYear(year);
    var dayOfWeek := Weekday(Date(y, month, 1));
    var daysUntilTuesday := (9 - dayOfWeek) % 7;
    var firstTuesday := 1 + daysUntilTuesday;
    var secondTuesday := firstTuesday + 7;
    WeekdayInMonth(y, month, secondTuesday);
    Date(y, month, secondTuesday)
  }

  /** The Tuesdays of the month up to the result are the result and the day
      one week earlier: the result is the second Tuesday of its month. */
  lemma PatchTuesdayIsSecondTuesday(year: int, month: int)
    requires 0 <= month <= 11
    ensures var r := PatchTuesdayOf(year, month);
      (set d | 1 <= d <= r.day && Weekday(Date(r.year, month, d)) == 2) == {r.day - 7, r.day}
  {
    var r := PatchTuesdayOf(year, month);
    var w := Weekday(Date(r.year, month, 1));
    assert r.day == 8 + (9 - w) % 7;
    forall d | 1 <= d <= r.day
      ensures Weekday(Date(r.year, month, d)) == 2 <==> d == r.day - 7 || d == r.day
    {
      WeekdayInMonth(r.year, month, d);
      TuesdayOffsets(w, d);
    }
  }

  /** With the 1st on weekday w, the days 1 .. 8 + (9 - w) % 7 that fall on a
      Tuesday are the last one and the day a week before it. */
  lemma TuesdayOffsets(w: int, d: int)
    requires 0 <= w <= 6 && 1 <= d <= 8 + (9 - w) % 7
    ensures (w + d - 1) % 7 == 2 <==> d == 1 + (9 - w) % 7 || d == 8 + (9 - w) % 7
  {
    if w == 0 {
    } else if w == 1 {
    } else if w == 2 {
    } else if w == 3 {
    } else if w == 4 {
    } else if w == 5 {
    } else {
    }
  }

  /** January 2025: the 1st is a Wednesday, the offset is 6, the first
      Tuesday is the 7th and Patch Tuesday is the 14th. */
  lemma January2025()
    ensures PatchTuesdayOf(2025, 0) == Date(2025, 0, 14)
  {
    NewYear2025();
  }

  /** The Patch Tuesday of month index i (see `MonthIndex`). */
  function PatchTuesdayAt(i: int): Date {
    PatchTuesdayOf(i / 12, i % 12)
  }

  /** The month index the upcoming list starts at: today's month, or the next
      one when this month's Patch Tuesday is already past. */
  function StartIndex(today: Date): (s: int)
    requires ValidDate(today)
    ensures MonthIndex(today.year, today.month) <= s <= MonthIndex(today.year, today.month) + 1
  {
    var i := MonthIndex(today.year, today.month);
    if OnOrAfter(PatchTuesdayOf(today.year, today.month), today) then i else i + 1
  }

  /** The specification of `getNextPatchTuesdays(count)`: the Patch Tuesdays
      of `count` consecutive months, beginning at `StartIndex(today)`. */
  function Upcoming(today: Date, count: nat): (r: seq<Date>)
    requires ValidDate(today)
    ensures |r| == count && forall k :: 0 <= k < count ==> ValidDate(r[k])
  {
    var r := seq(count, k => PatchTuesdayAt(StartIndex(today) + k));
    assert forall k :: 0 <= k < count ==> r[k] == PatchTuesdayAt(StartIndex(today) + k);
    r
  }

  /** Any month after today's month has its Patch Tuesday after today. */
  lemma LaterMonthAfterToday(today: Date, i: int)
    requires ValidDate(today)
    requires i > MonthIndex(today.year, today.month)
    ensures DayNumber(PatchTuesdayAt(i)) > DayNumber(today)
  {
    var r := PatchTuesdayAt(i);
    assert 12 * (i / 12) + i % 12 == i;
    assert CalendarBefore(today, r);
    DayNumberOrder(today, r);
  }

  /** From today's month on, a month's Patch Tuesday is on or after today
      exactly when the month is at or past `StartIndex(today)`: the loop
      skips today's month at most, and only when its Patch Tuesday is past. */
  lemma StartIndexIsFirstUpcoming(today: Date, i: int)
    requires ValidDate(today)
    requires i >= MonthIndex(today.year, today.month)
    ensures OnOrAfter(PatchTuesdayAt(i), today) <==> i >= StartIndex(today)
  {
    if i == MonthIndex(today.year, today.month) {
      MonthIndexRoundTrip(today.year, today.month);
    } else {
      LaterMonthAfterToday(today, i);
    }
  }

  /** Every date in the upcoming list is on or after today. */
  lemma UpcomingOnOrAfterToday(today: Date, count: nat)
    requires ValidDate(today)
    ensures forall k :: 0 <= k < count ==> OnOrAfter(Upcoming(today, count)[k], today)
  {
    forall k | 0 <= k < count
      ensures OnOrAfter(Upcoming(today, count)[k], today)
    {
      StartIndexIsFirstUpcoming(today, StartIndex(today) + k);
    }
  }

  /** The upcoming list is strictly increasing once the clock reads a year
      from 100 on; for years 0..99 the `Date` constructor moves the second
      Tuesday into the 1900s (see `ConstructorYear`). */
  lemma UpcomingIncreasing(today: Date, count: nat, k: nat, l: nat)
    requires ValidDate(today) && today.year >= 100
    requires k < l < count
    ensures DayNumber(Upcoming(today, count)[k]) < DayNumber(Upcoming(today, count)[l])
  {
    var i, j := StartIndex(today) + k, StartIndex(today) + l;
    var a, b := Upcoming(today, count)[k], Upcoming(today, count)[l];
    assert a == PatchTuesdayAt(i) && b == PatchTuesdayAt(j);
    var qi, qj := i / 12, j / 12;
    assert i == 12 * qi + i % 12 && j == 12 * qj + j % 12;
    assert qi >= 100 && qj >= 100;
    assert a.year == qi && a.month == i % 12 && b.year == qj && b.month == j % 12;
    assert CalendarBefore(a, b);
    DayNumberOrder(a, b);
  }

  /** Why `UpcomingIncreasing` needs a year from 100 on: on 20 December of
      year 99 the list starts with 14 December 1999 and goes on to January of
      year 100, about 694,000 days (some 1,900 years) earlier. */
  lemma TwoDigitYearsBreakOrder()
    ensures var u := Upcoming(Date(99, 11, 20), 2);
      u[0] == Date(1999, 11, 14) && u[1].year == 100
      && DayNumber(u[1]) < DayNumber(u[0])
  {
    var today := Date(99, 11, 20);
    MonthIndexRoundTrip(99, 11);
    DivUnique(MonthIndex(99, 11) + 1, 12, 100, 0);
    assert PatchTuesdayOf(99, 11) == Date(1999, 11, 14);
    assert StartIndex(today) == 1199;
    var u := Upcoming(today, 2);
    assert u[0] == PatchTuesdayAt(1199) == PatchTuesdayOf(99, 11);
    assert u[1] == PatchTuesdayAt(1200) == PatchTuesdayOf(100, 0);
  }

  /** `getNextPatchTuesdays(count)`: scans months forward from today's month,
      keeping each Patch Tuesday on or after today, until `count` are kept. */
  method NextPatchTuesdays(today: Date, count: int) returns (dates: seq<Date>)
    requires ValidDate(today)
    ensures |dates| == if count < 0 then 0 else count
    ensures dates == Upcoming(today, |dates|)
    ensures forall k :: 0 <= k < |dates| ==> OnOrAfter(dates[k], today)
  {
    dates := [];
    var year := today.year;
    var month := today.month;
    ghost var start := MonthIndex(year, month);
    ghost var i := start;
    while |dates| < count
      invariant 0 <= month <= 11 && MonthIndex(year, month) == i && i >= start
      invariant i == start ==> year == today.year && month == today.month
      invariant count < 0 ==> dates == []
      invariant count >= 0 ==> |dates| <= count
      invariant (i == start && dates == []) || i == StartIndex(today) + |dates| > start
      invariant dates == Upcoming(today, |dates|)
      decreases 2 * (count - |dates|) + (if i == start then 1 else 0)
    {
      if i == start {
        ScanFirst(today);
      } else {
        ScanLater(today, year, month);
      }
      var patchTuesday := PatchTuesdayOf(year, month);
      if OnOrAfter(patchTuesday, today) {
        dates := dates + [patchTuesday];
      }
      month := month + 1;
      if month > 11 {
        month := 0;
        year := year + 1;
      }
      i := i + 1;
    }
    UpcomingOnOrAfterToday(today, |dates|);
  }

  /** The first month of the scan, today's: its Patch Tuesday is kept and
      starts the upcoming list, or it is skipped and the list starts a month
      later. */
  lemma ScanFirst(today: Date)
    requires ValidDate(today)
    ensures var start, pt := MonthIndex(today.year, today.month), PatchTuesdayOf(today.year, today.month);
      if OnOrAfter(pt, today)
      then StartIndex(today) == start && [pt] == Upcoming(today, 1)
      else StartIndex(today) == start + 1
  {
    PatchTuesdayAtIndex(today.year, today.month);
    UpcomingSnoc(today, 0);
    assert Upcoming(today, 0) == [];
  }

  /** A later month of the scan: its Patch Tuesday is kept, and it is the
      upcoming list's next date after the months from the start month. */
  lemma ScanLater(today: Date, year: int, month: int)
    requires ValidDate(today) && 0 <= month <= 11
    requires MonthIndex(year, month) > MonthIndex(today.year, today.month)
    ensures OnOrAfter(PatchTuesdayOf(year, month), today)
    ensures var n := MonthIndex(year, month) - StartIndex(today);
      n >= 0 && Upcoming(today, n) + [PatchTuesdayOf(year, month)] == Upcoming(today, n + 1)
  {
    var i := MonthIndex(year, month);
    StartIndexIsFirstUpcoming(today, i);
    PatchTuesdayAtIndex(year, month);
    UpcomingSnocAt(today, i);
  }

  lemma PatchTuesdayAtIndex(year: int, month: int)
    requires 0 <= month <= 11
    ensures PatchTuesdayAt(MonthIndex(year, month)) == PatchTuesdayOf(year, month)
  {
    MonthIndexRoundTrip(year, month);
  }

  lemma UpcomingSnocAt(today: Date, i: int)
    requires ValidDate(today) && i > MonthIndex(today.year, today.month)
    ensures i >= StartIndex(today)
    ensures Upcoming(today, i - StartIndex(today)) + [PatchTuesdayAt(i)]
      == Upcoming(today, i - StartIndex(today) + 1)
  {
    var n := i - StartIndex(today);
    UpcomingSnoc(today, n);
    assert StartIndex(today) + n == i;
  }

  lemma UpcomingSnoc(today: Date, n: nat)
    requires ValidDate(today)
    ensures Upcoming(today, n + 1) == Upcoming(today, n) + [PatchTuesdayAt(StartIndex(today) + n)]
  {
  }

  /** `getDaysAway(date)`: the number of calendar days from today to date. */
  function DaysAway(date: Date, today: Date): (n: int)
    requires ValidDate(date) && ValidDate(today)
    ensures n == 0 <==> date == today
    ensures n > 0 <==> CalendarBefore(today, date)
    ensures n < 0 <==> CalendarBefore(date, today)
  {
    DayNumberOrder(date, today);
    DayNumberOrder(today, date);
    DayNumberInjective(date, today);
    DayNumber(date) - DayNumber(today)
  }

  /** Today is 0 days away, tomorrow 1 and yesterday -1. */
  lemma DaysAwayNeighbours(today: Date)
    requires ValidDate(today)
    ensures DaysAway(today, today) == 0
    ensures ValidDate(NextDay(today)) && DaysAway(NextDay(today), today) == 1
    ensures ValidDate(PrevDay(today)) && DaysAway(PrevDay(today), today) == -1
  {
    NextDayNumber(today);
    PrevDayNumber(today);
  }

  /** 1000 * 60 * 60 * 24 */
  const MsPerDay: int := 86400000

  /** The `getTime()` of local midnight on d in a zone whose offset from UTC
      at that instant is utcOffsetMs milliseconds (east of UTC positive). */
  function LocalMidnightTime(d: Date, utcOffsetMs: int): int
    requires 0 <= d.month <= 11
  {
    DayNumber(d) * MsPerDay - utcOffsetMs
  }

  /** `Math.ceil(ms / MsPerDay)` on an integer number of milliseconds. */
  function CeilDays(ms: int): (c: int)
    ensures (c - 1) * MsPerDay < ms <= c * MsPerDay
  {
    var q := (-ms) / MsPerDay;
    assert -ms == q * MsPerDay + (-ms) % MsPerDay;
    -q
  }

  /** `getDaysAway` as written: the ceiling of the difference of the two
      local-midnight timestamps, in days. The UTC offsets in effect at the two
      midnights come from the host's time zone rules; here they are inputs. */
  function DaysAwayAsWritten(date: Date, today: Date, dateOffsetMs: int, todayOffsetMs: int): int
    requires 0 <= date.month <= 11 && 0 <= today.month <= 11
  {
    CeilDays(LocalMidnightTime(date, dateOffsetMs) - LocalMidnightTime(today, todayOffsetMs))
  }

  /** The code as written gives the calendar-day difference exactly when the
      UTC offset at the date is not below today's (and less than a day above
      it). When the zone leaves summer time between today and a later date,
      the offset drops by an hour and the count comes out one day too large. */
  lemma DaysAwayAsWrittenAgrees(date: Date, today: Date, dateOffsetMs: int, todayOffsetMs: int)
    requires ValidDate(date) && ValidDate(today)
    ensures DaysAwayAsWritten(date, today, dateOffsetMs, todayOffsetMs) == DaysAway(date, today)
      <==> 0 <= dateOffsetMs - todayOffsetMs < MsPerDay
  {
    var n := DaysAway(date, today);
    var ms := LocalMidnightTime(date, dateOffsetMs) - LocalMidnightTime(today, todayOffsetMs);
    assert ms == n * MsPerDay - (dateOffsetMs - todayOffsetMs);
  }

  /** US Eastern time, today Saturday 31 October 2026 (UTC-4) and Patch
      Tuesday 10 November 2026 (UTC-5, after summer time ends on 1 November):
      ten calendar days, but the code as written says eleven. */
  lemma FallBackOvercount()
    ensures ValidDate(Date(2026, 9, 31)) && Date(2026, 10, 10) == PatchTuesdayOf(2026, 10)
    ensures DaysAway(Date(2026, 10, 10), Date(2026, 9, 31)) == 10
    ensures DaysAwayAsWritten(Date(2026, 10, 10), Date(2026, 9, 31), -5 * 3600000, -4 * 3600000) == 11
  {
    DaysAwayAsWrittenAgrees(Date(2026, 10, 10), Date(2026, 9, 31), -5 * 3600000, -4 * 3600000);
  }
}
