/** The data the page is built from: the rows of the upcoming list, the
    options of the month and year selectors, and the lookup result. Creating
    and attaching the elements themselves is left to the browser. */
module Page {
  import opened Calendar
  import opened Schedule
  import opened Badges

  /** One row of the upcoming list: the date (shown through the locale's
      date label), the row's class, the badge text and the badge's class. */
  datatype Row = Row(date: Date, itemClass: string, badgeText: string, badgeClass: string)

  /** `renderUpcomingDates`: the next twelve Patch Tuesdays, the first row
      highlighted, each badge saying how many days away its date is. */
  method RenderUpcomingDates(today: Date) returns (rows: seq<Row>)
    requires ValidDate(today)
    ensures |rows| == 12
    ensures forall k :: 0 <= k < 12 ==> rows[k].date == Upcoming(today, 12)[k]
    ensures forall k :: 0 <= k < 12 ==>
      ValidDate(rows[k].date) && OnOrAfter(rows[k].date, today)
      && rows[k].badgeText == FormatDaysAway(DaysAway(rows[k].date, today))
      && ParseBadge(rows[k].badgeText, ListWording) == Some(DaysAway(rows[k].date, today))
      && !HasSuffix(rows[k].badgeText, " ago")
    ensures forall k :: 0 <= k < 12 ==>
      rows[k].itemClass == (if k == 0 then "date-item highlight" else "date-item")
      && rows[k].badgeClass == (if k == 0 then "badge primary" else "badge")
  {
    var dates := NextPatchTuesdays(today, 12);
    rows := [];
    for index := 0 to |dates|
      invariant |rows| == index
      invariant forall k :: 0 <= k < index ==>
        rows[k].date == dates[k]
        && rows[k].badgeText == FormatDaysAway(DaysAway(dates[k], today))
        && DaysAway(dates[k], today) >= 0
        && rows[k].itemClass == (if k == 0 then "date-item highlight" else "date-item")
        && rows[k].badgeClass == (if k == 0 then "badge primary" else "badge")
    {
      var date := dates[index];
      var daysAway := DaysAway(date, today);
      var isFirst := index == 0;
      var itemClass := if isFirst then "date-item highlight" else "date-item";
      var badgeClass := if isFirst then "badge primary" else "badge";
      rows := rows + [Row(date, itemClass, FormatDaysAway(daysAway), badgeClass)];
    }
    forall k | 0 <= k < 12
      ensures ParseBadge(rows[k].badgeText, ListWording) == Some(DaysAway(rows[k].date, today))
      ensures !HasSuffix(rows[k].badgeText, " ago")
    {
      FormatDaysAwayRoundTrip(DaysAway(rows[k].date, today));
      FormatDaysAwayTense(DaysAway(rows[k].date, today));
    }
  }

  /** An option of a `<select>`: its text, its value and whether it is selected. */
  datatype SelectOption = SelectOption(text: string, value: int, selected: bool)

  const MonthNames: seq<string> := [
    "January", "February", "March", "April", "May", "June",
    "July", "August", "September", "October", "November", "December"
  ]

  /** The month selector: the twelve names with values 0..11. */
  function MonthOptions(defaultMonth: int): (opts: seq<SelectOption>)
    ensures |opts| == 12
  {
    seq(12, i requires 0 <= i < 12 => SelectOption(MonthNames[i], i, i == defaultMonth))
  }

  /** The year selector: from five years before to ten years after the current year. */
  function YearOptions(currentYear: int, defaultYear: int): (opts: seq<SelectOption>)
    ensures |opts| == 16
  {
    seq(16, k => SelectOption(IntToString(currentYear - 5 + k), currentYear - 5 + k,
                              currentYear - 5 + k == defaultYear))
  }

  /** The positions of the selected options. */
  function SelectedPositions(opts: seq<SelectOption>): set<int> {
    set k | 0 <= k < |opts| && opts[k].selected
  }

  /** The month options carry values 0..11 in order, and exactly the default
      month is selected. */
  lemma MonthOptionsSelectDefault(defaultMonth: int)
    requires 0 <= defaultMonth <= 11
    ensures forall i :: 0 <= i < 12 ==> MonthOptions(defaultMonth)[i].value == i
    ensures SelectedPositions(MonthOptions(defaultMonth)) == {defaultMonth}
  {
    var opts := MonthOptions(defaultMonth);
    assert opts[defaultMonth].selected;
  }

  /** The year options run up from currentYear - 5 to currentYear + 10; the
      default year is selected when it is in that range, and nothing else is.
      The clauses on the first and last option restate the first clause at
      the two ends of the range, as a summary for the reader. */
  lemma YearOptionsSelectDefault(currentYear: int, defaultYear: int)
    ensures forall k :: 0 <= k < 16 ==> YearOptions(currentYear, defaultYear)[k].value == currentYear - 5 + k
    ensures YearOptions(currentYear, defaultYear)[0].value == currentYear - 5
    ensures YearOptions(currentYear, defaultYear)[15].value == currentYear + 10
    ensures SelectedPositions(YearOptions(currentYear, defaultYear))
      == if currentYear - 5 <= defaultYear <= currentYear + 10
         then {defaultYear - currentYear + 5} else {}
  {
    var opts := YearOptions(currentYear, defaultYear);
    if currentYear - 5 <= defaultYear <= currentYear + 10 {
      assert opts[defaultYear - currentYear + 5].selected;
    }
  }

  /** The first upcoming Patch Tuesday falls in today's year or the next;
      once the clock reads a year from 100 on, that year is one of the
      year options. */
  lemma DefaultYearInRange(today: Date)
    requires ValidDate(today) && today.year >= 100
    ensures var first := Upcoming(today, 1)[0];
      (first.year == today.year || first.year == today.year + 1)
      && today.year - 5 <= first.year <= today.year + 10
  {
    var i := StartIndex(today);
    assert Upcoming(today, 1)[0] == PatchTuesdayAt(i);
    if i == MonthIndex(today.year, today.month) {
      PatchTuesdayAtIndex(today.year, today.month);
    } else if today.month < 11 {
      PatchTuesdayAtIndex(today.year, today.month + 1);
    } else {
      PatchTuesdayAtIndex(today.year + 1, 0);
    }
  }

  /** Exactly one month option and exactly one year option are selected:
      those of the first upcoming Patch Tuesday. */
  lemma SelectorsSelectFirstUpcoming(today: Date)
    requires ValidDate(today) && today.year >= 100
    ensures var first := Upcoming(today, 1)[0];
      var months, years := MonthOptions(first.month), YearOptions(today.year, first.year);
      SelectedPositions(months) == {first.month} && months[first.month].value == first.month
      && |SelectedPositions(years)| == 1
      && years[first.year - today.year + 5].value == first.year
      && years[first.year - today.year + 5].selected
  {
    var first := Upcoming(today, 1)[0];
    DefaultYearInRange(today);
    MonthOptionsSelectDefault(first.month);
    YearOptionsSelectDefault(today.year, first.year);
  }

  /** `populateSelectors`: the month and year options, with the month and
      year of the first upcoming Patch Tuesday selected. */
  method PopulateSelectors(today: Date) returns (monthOptions: seq<SelectOption>, yearOptions: seq<SelectOption>)
    requires ValidDate(today)
    ensures var first := Upcoming(today, 1)[0];
      monthOptions == MonthOptions(first.month)
      && yearOptions == YearOptions(today.year, first.year)
  {
    var currentYear := today.year;
    var next := NextPatchTuesdays(today, 1);
    var nextPatchTuesday := next[0];
    var defaultMonth := nextPatchTuesday.month;
    var defaultYear := nextPatchTuesday.year;

    monthOptions := [];
    for index := 0 to |MonthNames|
      invariant |monthOptions| == index
      invariant forall i :: 0 <= i < index ==>
        monthOptions[i] == SelectOption(MonthNames[i], i, i == defaultMonth)
    {
      var isSelected := index == defaultMonth;
      monthOptions := monthOptions + [SelectOption(MonthNames[index], index, isSelected)];
    }

    yearOptions := [];
    var y := currentYear - 5;
    while y <= currentYear + 10
      invariant currentYear - 5 <= y <= currentYear + 11
      invariant |yearOptions| == y - (currentYear - 5)
      invariant forall k :: 0 <= k < |yearOptions| ==>
        yearOptions[k] == SelectOption(IntToString(currentYear - 5 + k), currentYear - 5 + k,
                                       currentYear - 5 + k == defaultYear)
    {
      var isSelected := y == defaultYear;
      yearOptions := yearOptions + [SelectOption(IntToString(y), y, isSelected)];
      y := y + 1;
    }
  }

  /** What the lookup shows: the date, the badge text and the badge class. */
  datatype LookupResult = LookupResult(date: Date, badgeText: string, badgeClass: string)

  /** `updateLookupResult` for the selected month and year: that month's
      Patch Tuesday, past or not, a badge that reads back as its day count,
      and the accent class exactly when the date is not before today. */
  function UpdateLookupResult(month: int, year: int, today: Date): (r: LookupResult)
    requires 0 <= month <= 11 && ValidDate(today)
    ensures r.date == PatchTuesdayOf(year, month)
    ensures ParseBadge(r.badgeText, LookupWording) == Some(DaysAway(r.date, today))
    ensures r.badgeClass == "badge accent" <==> !CalendarBefore(r.date, today)
    ensures r.badgeClass == "badge" <==> CalendarBefore(r.date, today)
  {
    var patchTuesday := PatchTuesdayOf(year, month);
    var daysAway := DaysAway(patchTuesday, today);
    LookupBadgeRoundTrip(daysAway);
    LookupResult(patchTuesday, LookupBadge(daysAway), BadgeClass(daysAway))
  }

  /** At start-up the selectors hold the month and year of the first upcoming
      Patch Tuesday, so the lookup shows that very date, accented. */
  lemma InitialLookupIsFirstUpcoming(today: Date)
    requires ValidDate(today) && today.year >= 100
    ensures var first := Upcoming(today, 1)[0];
      var r := UpdateLookupResult(first.month, first.year, today);
      r.date == first && r.badgeClass == "badge accent"
  {
    var first := Upcoming(today, 1)[0];
    var i := StartIndex(today);
    assert first == PatchTuesdayAt(i);
    assert 12 * (i / 12) + i % 12 == i;
    assert i / 12 >= 100;
    UpcomingOnOrAfterToday(today, 1);
    DayNumberOrder(first, today);
  }
}
