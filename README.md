# Patch Tuesday Calculator, modelled in Dafny

This models the date logic of the Patch Tuesday Calculator web page (`app.js`). Patch Tuesday is the second Tuesday of a month. The logic covers:

- the Patch Tuesday of a month;
- the list of upcoming Patch Tuesdays;
- the signed number of days between today and a date;
- the two badge wordings and the lookup badge's class;
- the options of the month and year selectors, with the default selection.

A JavaScript `Date` at local midnight is a `Calendar.Date` triple: a year, a month 0..11 and a day. It is measured by its day number on the proleptic Gregorian calendar, the day count since 0001-01-01. `getDay()` is `(dayNumber + 1) % 7`, with 0 meaning Sunday. Comparing two `Date` objects is comparing their day numbers. `Calendar.DayNumberOrder` proves that this is the calendar's own year/month/day order.

The clock is an explicit parameter `today`: a valid date, already truncated to midnight. The current year of `populateSelectors` is `today.year`.

Files:

- `calendar.dfy` holds dates, leap years, day numbers, weekdays, and the year rule of the `Date` constructor.
- `patch_tuesday.dfy` holds `getPatchTuesday`, `getNextPatchTuesdays` and `getDaysAway`.
- `badges.dfy` holds `formatDaysAway`, the lookup badge wording and class, and a reader that turns a badge text back into its day count.
- `page.dfy` holds the data of `renderUpcomingDates`, `populateSelectors` and `updateLookupResult`.

`getNextPatchTuesdays`, `renderUpcomingDates` and `populateSelectors` are loops in the source. They are methods here, each proved against a specification function (`Schedule.Upcoming`, `Page.MonthOptions`, `Page.YearOptions`).

One behaviour of the code is easy to miss: `new Date(year, month, day)` reads a year from 0 to 99 as 1900 to 1999. So `getPatchTuesday(25, 0)` is a date in January 1925. The model keeps this rule (`Calendar.ConstructorYear`). The properties that need "the same year" therefore require a year outside 0..99, or a clock year of at least 100.

## Model

| member | source | states |
|---|---|---|
| `Calendar.ConstructorYear` | app.js:7 | the `Date` constructor keeps a year outside 0..99 and maps 0..99 to 1900..1999 |
| `Calendar.WeekdayInMonth` | app.js:8 | `getDay()` of day d of a month is the weekday of the 1st moved d - 1 steps, modulo 7 |
| `Calendar.NewYear2025` | app.js:8 | 1 January 2025 has `getDay()` 3 (Wednesday) |
| `Calendar.DayNumberOrder` | app.js:27 | for valid dates, comparing day numbers (the `Date` comparison) agrees with the calendar order of year, month, day |
| `Calendar.DayNumberInjective` | app.js:27 | two valid dates have the same day number exactly when they are equal |
| `Calendar.NextDayNumber` | app.js:45-46 | the next day (rolling over month and year) is valid and its day number is one more |
| `Calendar.PrevDayNumber` | app.js:45-46 | the previous day (rolling back month and year) is valid and its day number is one less |
| `Schedule.PatchTuesdayOf` | app.js:6-13 | the result is a valid date in the constructor's year and the given month, with a day in 8..14, on a Tuesday (`getDay()` 2) |
| `Schedule.PatchTuesdayIsSecondTuesday` | app.js:9-11 | the Tuesdays from the 1st up to the result are exactly the result and the day a week before it: the result is the second Tuesday |
| `Schedule.January2025` | app.js:6-13 | Patch Tuesday of January 2025 is 2025-01-14 |
| `Schedule.Upcoming` | app.js:22-35 | the specified list has `count` valid dates: the Patch Tuesdays of consecutive months from the start month |
| `Schedule.LaterMonthAfterToday` | app.js:25-35 | every month after today's has its Patch Tuesday strictly after today |
| `Schedule.StartIndexIsFirstUpcoming` | app.js:22-35 | from today's month on, a month's Patch Tuesday is on or after today exactly when the month is at or past the start month; only today's month can be skipped, and only when its Patch Tuesday is past |
| `Schedule.UpcomingOnOrAfterToday` | app.js:27-28 | every date of the upcoming list is on or after today |
| `Schedule.UpcomingIncreasing` | app.js:25-35 | with a clock year of 100 or more, the upcoming list is strictly increasing |
| `Schedule.TwoDigitYearsBreakOrder` | app.js:25-35 | on 20 December of year 99 the list goes from 1999-12-14 to a date in year 100, which is earlier |
| `Schedule.NextPatchTuesdays` | app.js:18-37 | the loop returns exactly `count` dates (none for a negative count), equal to the specified upcoming list, each on or after today |
| `Schedule.DaysAway` | app.js:42-47 | the day count is 0 exactly for today, positive exactly for later dates and negative exactly for earlier ones |
| `Schedule.DaysAwayNeighbours` | app.js:42-47 | today is 0 days away, the next day +1 and the previous day -1 |
| `Schedule.CeilDays` | app.js:46 | `Math.ceil(ms / 86400000)` is the least integer c with ms <= c * 86400000 |
| `Schedule.DaysAwayAsWrittenAgrees` | app.js:45-46 | the ceiling of the timestamp difference equals the calendar-day count exactly when the UTC offset at the date minus the one at today lies in [0, one day) |
| `Schedule.FallBackOvercount` | app.js:42-47 | in US Eastern time, from 2026-10-31 to Patch Tuesday 2026-11-10 is 10 calendar days, but the code as written gives 11 |
| `Badges.NatToString` | app.js:68 | the decimal text of a count is non-empty, made of digits, with no leading zero |
| `Badges.ParseNatToString` | app.js:68 | reading the decimal text back gives the count |
| `Badges.FormatDaysAwayRoundTrip` | app.js:64-70 | the list badge text reads back as exactly its day count, so distinct counts get distinct texts |
| `Badges.FormatDaysAwayTense` | app.js:64-70 | a list badge ends in " ago" exactly when the count is negative |
| `Badges.FormatDaysAwayExamples` | app.js:64-70 | 0, 1, -1, 5, -5 and 12 give "Today", "1 day", "1 day ago", "5 days", "5 days ago" and "12 days" |
| `Badges.LookupBadgeRoundTrip` | app.js:151-162 | the lookup badge text reads back as exactly its day count |
| `Badges.LookupBadgeVersusList` | app.js:151-162 | the lookup wording is the list wording plus " away" for positive counts and the same otherwise |
| `Badges.BadgeClass` | app.js:165 | the class is "badge accent" exactly when the count is not negative, and "badge" exactly when it is |
| `Page.RenderUpcomingDates` | app.js:75-101 | twelve rows of the upcoming list; each badge reads back as its row's non-negative day count and never says " ago"; only the first row is highlighted |
| `Page.MonthOptions` | app.js:117-128 | the month selector has twelve options |
| `Page.YearOptions` | app.js:130-136 | the year selector has sixteen options |
| `Page.MonthOptionsSelectDefault` | app.js:124-128 | the month options have values 0..11 in order, and exactly the default month is selected |
| `Page.YearOptionsSelectDefault` | app.js:131-136 | the year options run from currentYear - 5 to currentYear + 10 in order; exactly the default year is selected when it is in range, and no option otherwise |
| `Page.DefaultYearInRange` | app.js:109-114 | with a clock year of 100 or more, the first upcoming Patch Tuesday falls in today's year or the next, so inside the year range |
| `Page.SelectorsSelectFirstUpcoming` | app.js:112-136 | exactly one month option and exactly one year option are selected, and they are the month and year of the first upcoming Patch Tuesday |
| `Page.PopulateSelectors` | app.js:106-137 | the loops build the month and year options with the month and year of the first upcoming Patch Tuesday selected |
| `Page.UpdateLookupResult` | app.js:142-166 | the lookup shows the selected month's Patch Tuesday (past or not); its badge reads back as the day count, and its class is accented exactly when the date is not before today |
| `Page.InitialLookupIsFirstUpcoming` | app.js:171-174 | at start-up, the lookup for the default selection shows the first upcoming Patch Tuesday, accented |

## Left out

- `formatDate` (app.js:52-59) calls the locale library `toLocaleDateString`, which is not part of this model. A row keeps the date itself instead of its label.
- DOM work is not modelled: element lookup, `replaceChildren`, `createElement`, `appendChild`, `new Option`, `add`, `addEventListener` and the `DOMContentLoaded` trigger. Only the data handed to the DOM is modelled: rows, options, texts and classes.
- The source reads the clock on every call of `getNextPatchTuesdays` and `getDaysAway` (app.js:19, 43) and once more in `populateSelectors` (app.js:109). The model reads it once, as `today`. A run that straddles midnight is not modelled.
- `parseInt` of the selector values (app.js:143-144) is not modelled. `UpdateLookupResult` takes an integer month in 0..11, the only values the month selector offers.
- Month arguments outside 0..11, which the `Date` constructor rolls over, are not modelled. No caller passes one.
- JavaScript `Date` values exist only within 100,000,000 days (about 273,790 years) of 1970, that is, years -271,821 to 275,760. Outside that range the code gets an Invalid Date. The model's years are unbounded.
- Floating-point arithmetic is not modelled. The millisecond difference and its division are integers here.
- UTC offsets come from the host's time zone rules, which are not part of this model. `DaysAwayAsWritten` takes the offsets at the two midnights as inputs.
- `Schedule.UpcomingIncreasing`: requires a clock year of at least 100. For years 0..99 the constructor's 1900 rule breaks the order (`Schedule.TwoDigitYearsBreakOrder`).
- `Page.DefaultYearInRange`, `Page.SelectorsSelectFirstUpcoming` and `Page.InitialLookupIsFirstUpcoming`: require a clock year of at least 100, for the same reason.
- `count` in `getNextPatchTuesdays` is an integer here. A fractional count is not modelled.

## Findings

| source | as written | input that shows it | evidently intended | confidence | as-written member | corrected member |
|---|---|---|---|---|---|---|
| app.js:45-46 | `Math.ceil((date - today) / 86400000)` over local-midnight timestamps | US Eastern time: today 2026-10-31 (UTC-4), date 2026-11-10 (UTC-5, after summer time ends on 1 November) gives 11 | the calendar-day difference, 10; the code over-counts by one whenever the UTC offset drops between today and the date | not executed | `Schedule.FallBackOvercount` | `Schedule.DaysAway` |

The rest of the model uses the corrected `Schedule.DaysAway`. `Schedule.DaysAwayAsWritten` is the code as written, and `Schedule.DaysAwayAsWrittenAgrees` states exactly when the two agree.
