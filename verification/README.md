# Busy-date extractor, modelled in Dafny

The repository publishes the days on which a calendar owner is busy. A
script fetches an iCalendar feed. For every VEVENT it takes the decoded
DTSTART and DTEND values (section 3.6.1 of RFC 5545), walks day by day from
the start's calendar date while midnight of that day is before the end,
and collects each day as a `YYYY-MM-DD` string. It then writes the sorted
list of distinct strings.

`get_busy_dates` exists in two copies, and this project models both:

- `script.js` is Python despite its extension. It is the corrected copy: a
  plain-date DTEND (an all-day event) is turned into midnight of that date
  before the day loop compares with it.
- `update_data.py` is the original copy. It compares the start-of-day
  `datetime` with DTEND as decoded. Python refuses to order a `datetime`
  against a plain `date` (TypeError), so all-day events add nothing.

In both copies the start is cut down to its wall-clock date, dropping the
time and any zone. An aware (zoned) DTEND therefore meets a naive
`datetime` in the comparison, which raises TypeError. The per-event
`except` catches these errors, and the event is skipped after whatever
days it had already added. An event missing DTSTART or DTEND is skipped
with no error.

A same-day 09:00–17:00 event marks its day: the end is never cut to its
date, and midnight of the day is before 17:00 (`Script.SameDayExample`,
`UpdateData.SameDayExample`).

Modules:

- `Calendar` (calendar.dfy): proleptic Gregorian dates as Python's `date`
  has them. It covers years 1 to 9999, days per month with leap years, the
  day ordinal, and the next day (`+ timedelta(days=1)`).
- `DateTimes` (datetimes.dfy): the three kinds of decoded value (plain
  date, naive date-time, aware date-time). It defines Python's `<` between
  a naive `datetime` and each kind, including the TypeError cases.
- `IsoDates` (iso_dates.dfy): `strftime('%Y-%m-%d')`, Python's string
  order, and `sorted(list(...))` of a set of strings.
- `Events` (events.dfy):
  - the per-event meaning shared by both copies: which days an event
    covers and how its processing ends;
  - the shared day loop: `ExpandDays` for its first comparison, which
    raises for an end that is not naive, and `WalkDays` for the walk itself,
    both proved against that meaning;
  - the properties of the union over a whole feed.
- `Script` (script.dfy) and `UpdateData` (update_data.dfy): the two
  `get_busy_dates` loops, each proved against the specification for its
  own copy, with worked examples.

Each event's outcome is one of: skipped for a missing field, expanded
normally, or stopped by an exception. The sequence of outcomes stands in
for the error lines the code prints.

## Model

| member | source | states |
|---|---|---|
| Calendar.DaysInMonth | script.js:49 | a month has 28 to 31 days; 29 exactly for February of a leap year, 28 exactly for February of a common year |
| Calendar.DaysBeforeYear | script.js:49 | the days before year y number between 365·(y−1) and 366·(y−1) |
| Calendar.DaysBeforeYearClosedForm | script.js:49 | the days before a year, counted year by year, equal the Gregorian closed form 365·(y−1) + (y−1)/4 − (y−1)/100 + (y−1)/400 |
| Calendar.Ordinal | script.js:49 | `toordinal()` is at least 1 and places a date after every day of the earlier years |
| Calendar.NextDay | script.js:49 | adding one day gives a valid date whose ordinal is one more, later than the day it came from, across month ends, year ends and 29 February |
| Calendar.OrdinalOrder | script.js:46 | date order is ordinal order, and two dates are equal exactly when their ordinals are |
| Calendar.NextDayIsSuccessor | script.js:49 | nothing lies strictly between a day and the next one: x is before the next day exactly when x is before or equal to the day |
| Calendar.MaxOrdinalIsLastDay | script.js:49 | 1 January of year 1 has ordinal 1, and 31 December 9999 has ordinal 3652059, Python's largest |
| Calendar.MaxDateIsLast | script.js:49 | every valid date is on or before 31 December 9999, with an ordinal at most the largest |
| DateTimes.WallDate | script.js:38-41 | the date read off a valid value is valid, and truncating a date-time to midnight of that date never moves it later |
| DateTimes.AtMidnight | script.js:39 | `datetime.combine(d, datetime.min.time())` keeps the date d and has a valid time of day |
| DateTimes.NaiveLess | script.js:46 | comparing a naive `datetime` with a value raises exactly when the value is not a naive date-time, and what it raises is TypeError |
| DateTimes.MidnightBefore | script.js:43-46 | midnight of day d is before a date-time exactly when d is before its date, or is its date and its time is not 00:00 |
| IsoDates.StrLess | script.js:55 | Python's `str <` never holds between equal strings |
| IsoDates.StrLessTransitive | script.js:55 | Python's string order is transitive |
| IsoDates.StrLessTotal | script.js:55 | any two distinct strings are ordered one way or the other |
| IsoDates.Digits | script.js:47 | `%04d` / `%02d` padding gives exactly w characters, each a decimal digit |
| IsoDates.DigitsOrder | script.js:47 | numbers zero-padded to one width compare as strings as they compare as numbers, and are equal as strings only when equal |
| IsoDates.Format | script.js:47 | a formatted day is ten characters with `-` at positions 4 and 7 |
| IsoDates.FormatOrder | script.js:47 | for four-digit years, string order of formatted days is chronological order, and distinct days format distinctly |
| IsoDates.FormatAllMember | script.js:47-48 | a day's string is in the formatted set exactly when the day is in the set of days |
| IsoDates.ListedDays | script.js:55 | a list holding exactly the formatted days contains a day's string exactly when the day is among them |
| IsoDates.Least | script.js:55 | returns a member of a non-empty set that is below every other member |
| IsoDates.SortedList | script.js:55 | the list is strictly ascending (sorted, no repeats) and holds exactly the members of the set, each once |
| Events.ExpandDays | script.js:46 | the day loop adds to the busy set exactly the formatted days its end covers; its first comparison raises TypeError, adding nothing, exactly when the end is not a naive date-time |
| Events.WalkDays | script.js:43-49 | for a naive end, the loop adds exactly the formatted days from the start day whose midnight is before the end; it ends normally, or raises OverflowError after adding 31 December 9999 when the end lies beyond that day |
| Events.NormalizeEnd | script.js:30-35 | the fixed end is a naive date-time unless DTEND was zoned; it keeps DTEND's date and validity, and leaves a date-time end untouched (its effect on whole events is Events.OriginalWithinCorrected and Script.AllDayEventDays) |
| Events.EndOperand | script.js:46 | the value the loop compares with is naive exactly when DTEND is naive, or DTEND is a plain date in the corrected copy; it keeps DTEND's date |
| Events.BusyDaysMember | script.js:21-48 | a day is busy exactly when some event of the feed covers it |
| Events.BusyDaysConcat | script.js:21 | the busy days of two feeds in sequence are the union of their busy days |
| Events.AddingEventsKeepsDays | script.js:21 | adding events before or after a feed never removes a busy day |
| Events.BusyDaysSameEvents | script.js:21 | two feeds with the same events, in any order and with any repeats, give the same busy days |
| Events.BusyDaysIdempotent | script.js:21 | repeating the whole feed changes nothing |
| Events.MissingFieldIsSkipped | script.js:23-25 | an event missing DTSTART or DTEND is skipped and leaves the busy days of the rest of the feed unchanged |
| Events.StartKeepsWallDate | script.js:37-41 | a date-time start, naive or zoned, covers the same days as a plain-date start on its own wall-clock date, with no zone conversion |
| Events.NaiveEndDays | script.js:34-35 | with a naive date-time end, day d is covered exactly when it is on or after the start's date and midnight of d is before the end; such an event never raises TypeError |
| Events.AwareEndAddsNothing | script.js:46 | a zoned end raises TypeError on the first comparison, and the event covers no day |
| Events.OriginalWithinCorrected | script.js:30-35 | the corrected copy covers every day the original covers; the two agree on date-time ends; the original covers nothing for a plain-date end |
| Events.OriginalBusyWithinCorrected | script.js:30-35 | over a whole feed, the original's busy days are among the corrected copy's |
| Script.GetBusyDates | script.js:9-55 | the result is strictly ascending, holds exactly the formatted busy days of the feed in the corrected copy's meaning, holds a day's string exactly when the day is busy, logs each event's outcome in order, and is empty after a failed fetch |
| Script.AddEvent | script.js:22-53 | processing one event adds exactly that event's formatted days and reports its outcome |
| Script.AllDayEventDays | script.js:31-33 | an all-day event covers exactly the days from its start date up to, and not including, its end date, and ends normally |
| Script.AllDayExample | script.js:31-33 | DTSTART;VALUE=DATE 20240301 to DTEND 20240303 covers 1 and 2 March 2024 |
| Script.OvernightExample | script.js:43-49 | 23:00 to 01:00 the next day covers both days |
| Script.SameDayExample | script.js:43-49 | 09:00 to 17:00 on one day covers that day |
| Script.MidnightEndExample | script.js:43-49 | an event ending at exactly 00:00 on 1 March 2024 covers 28 and 29 February but not 1 March |
| UpdateData.GetBusyDates | update_data.py:9-47 | the result is strictly ascending, holds exactly the formatted busy days of the feed in the original copy's meaning, holds a day's string exactly when the day is busy, logs each event's outcome in order, and is empty after a failed fetch |
| UpdateData.AddEvent | update_data.py:22-45 | processing one event adds exactly that event's formatted days and reports its outcome |
| UpdateData.PlainDateEndAddsNothing | update_data.py:39 | a plain-date DTEND raises TypeError on the first comparison, so the event covers no day |
| UpdateData.AllDayExample | update_data.py:39 | the all-day event of 1 and 2 March 2024 covers no day here, and both days in the corrected copy |
| UpdateData.SameDayExample | update_data.py:36-42 | 09:00 to 17:00 on one day covers that day |
| UpdateData.AwareEventExample | update_data.py:34-45 | an event with a zoned start and a UTC end raises TypeError and covers no day |

## Findings

| source | as written | input that shows it | evidently intended | confidence | as-written member | corrected member |
|---|---|---|---|---|---|---|
| update_data.py:39 | compares the start-of-day `datetime` with DTEND as decoded; a plain-date DTEND raises TypeError, which the `except` swallows | DTSTART;VALUE=DATE:20240301, DTEND;VALUE=DATE:20240303 | the event marks 1 and 2 March 2024 busy, as the corrected copy in script.js does | not executed | UpdateData.PlainDateEndAddsNothing | Script.AllDayEventDays |

## Left out

- HTTP fetch (timeout, status check): the feed is an input. A failed fetch is the `FetchFailed` case, which returns the empty list.
- iCalendar parsing and `walk('vevent')`: these belong to the icalendar library. The model starts from each event's decoded DTSTART and DTEND values.
- `if not dtstart_comp or not dtend_comp`: a property's truth value is taken as its presence.
- The `print` of error messages: each event's outcome is returned in the log instead.
- The module-level code (the environment variable, `exit(1)`, `json.dump` to `data.json`, the final `print`): process and file I/O.
- Zone arithmetic: an aware value keeps only its zone name. The code never converts zones; an aware end only matters because comparing with it raises.
- Recurrence rules: the code never expands them, so the model does not either.
- Script.GetBusyDates: requires each event's start year to have four digits (1000 to 9999). `strftime('%Y')` pads smaller years differently on different platforms.
- UpdateData.GetBusyDates: the same four-digit restriction on start years, for the same reason.
- Exceptions other than the TypeError of a comparison and the OverflowError after 31 December 9999 (for example a malformed property whose `.dt` raises) are not modelled: they arise in the parsing library.
