# Calendar columns, modelled in Dafny

A model of the calendar engine of a small React calendar app. The model covers:

- **Segmentation.** `DateRangeColumns` splits a date range into day, week, month or year columns.
- **Week numbers.** ISO and US week numbers label the week columns.
- **Type switch.** The app shell converts a range when the column type changes (`calcRangeForType`).
- **Menu handler.** The app shell applies a menu change (`handleMenuChange`) to its per-column-type state.
- **Context menu.** The context menu has two day-filter chips and a three-week selector.

Dates are whole days, numbered from 0000-01-01 (proleptic Gregorian), which is day 0. `Calendar.Civil` gives the year, the month (0-based, as `getMonth` has it) and the day of the month. `Calendar.MakeDay` follows `new Date(y, m, d)`: an out-of-range month or day rolls over into the next month or year. One rule of that constructor is not modelled: it reads the years 0 to 99 as 1900 to 1999 (see "## Left out"). Texts are `seq<char>`. `DateText.ParseIsoDate` reads `YYYY-MM-DD`, `DateText.IsoDateText` is `formatISO(…, { representation: 'date' })`, and `DateText.DateKey` is `format(…, 'yyyy-MM-dd')`.

Modules:

- `Types` holds the four string unions of `src/DateRangeColumns.types.ts`.
- `Calendar` holds the day arithmetic.
- `DateText` holds the texts and their parsing.
- `WeekNumbers` holds the two week numberings.
- `Columns` holds the segmentation. Its loops are methods, each proved equal to a grid function.
- `ScaleConvert` holds `calcRangeForType`.
- `AppState` holds the app shell's state. It is the class `CalendarApp`, whose method `HandleMenuChange` updates its fields.
- `ContextMenu` holds the chips, `getWeekInfo` and the class `WeekSelector`.

Where the documented behaviour and the code differ, the model follows the code:

- **US week number 54.** A US week number can be 54, not at most 53. Example: the week of Sunday 2000-12-31 (`WeekNumbers.UsWeekExample2000`).
- **Week containing 1 January.** The source comment says US week 1 contains 1 January. The code numbers a week by the year of its Sunday. So a week that starts in December and holds 1 January is numbered 53 or 54, and that new year then has no week 1 (`WeekNumbers.UsWeekAcrossNewYear`, `WeekNumbers.UsWeekExample2022`).
- **Month conversion can give n + 1 columns.** Converting to months keeps the start's day of the month, so the new range does not always hold exactly `n` month columns. When that day does not exist `n - 1` months on, it overflows into the next month and the range shows `n + 1` columns. Example: 2024-01-31 with 2 columns ends 2024-03-02 (`ScaleConvert.MonthColumnCount`, `ScaleConvert.MonthOverflowExample`).

## Model

| member | source | states |
|---|---|---|
| Calendar.MakeDay | src/DateRangeColumns.tsx:121-132 | defines `new Date(y, m, d)` on day numbers, letting months and days roll over; what it computes is stated by `Calendar.MakeDayDef` and `Calendar.MakeDayAsMonthStart` |
| Calendar.MakeDayDef | src/DateRangeColumns.tsx:121-132 | `new Date(y, m, d)` is day `d` of month `m mod 12` of year `y + m div 12`, the day counted on from that month's first even past its end |
| Calendar.Weekday | src/DateRangeColumns.tsx:46 | `getDay` is a weekday index 0 (Sunday) to 6 (Saturday) |
| Calendar.StartOfWeek | src/DateRangeColumns.tsx:65 | the week start is the chosen weekday, on or at most six days before the date |
| Calendar.EndOfWeek | src/DateRangeColumns.tsx:67 | the week end is six days after the week start and holds the date |
| Calendar.Min | src/DateRangeColumns.tsx:70 | `Math.min` is one of its arguments and no larger than either |
| Calendar.Civil | src/DateRangeColumns.tsx:121 | `getFullYear`/`getMonth`/`getDate` give a valid calendar date that names the same day |
| Calendar.CivilOfDayOf | src/DateRangeColumns.tsx:121 | every valid calendar date names exactly one day, and reading that day back gives the same date |
| Calendar.DayOfOrder | src/DateRangeColumns.tsx:122 | comparing days agrees with comparing their dates year, then month, then day |
| Calendar.MakeDayAsMonthStart | src/DateRangeColumns.tsx:121-133 | `new Date(y, m, d)` is day `d` of absolute month `12y + m`; months and days outside their range roll over |
| Calendar.MonthIndex | src/DateRangeColumns.tsx:121 | the absolute month of a day is the one whose first day is on or before it and whose successor's first day is after it |
| Calendar.MonthIndexUnique | src/DateRangeColumns.tsx:121 | exactly one absolute month holds any given day |
| Calendar.CivilYearMonotone | src/DateRangeColumns.tsx:145 | a later day never has an earlier `getFullYear` |
| DateText.ParseIsoDate | src/DateRangeColumns.tsx:33-34 | defines `parseISO` (and `new Date(string)` at src/App.tsx:130 and src/DateRangeContextMenu.tsx:65) on `YYYY-MM-DD` text: the day named, or none for any other text or a day that does not exist; its meaning is stated by the two round-trip lemmas |
| DateText.IsoDateText | src/App.tsx:29-36 | defines `formatISO(d, { representation: 'date' })` (also at src/App.tsx:138-157): four-digit year, two-digit month and day; its meaning is stated by the round-trip lemmas |
| DateText.DateKey | src/DateRangeColumns.tsx:58 | defines `format(d, 'yyyy-MM-dd')` with the era year of `yyyy`; stated by `DateText.DateKeyIsIsoText`, `DateText.DateKeyInjective` and `DateText.DateKeyOrder` |
| DateText.MonthKey | src/DateRangeColumns.tsx:140 | defines `format(d, 'yyyy-MM')`; stated by `DateText.MonthKeyInjective` and `DateText.MonthKeyOrder` |
| DateText.YearKey | src/DateRangeColumns.tsx:156 | defines `format(d, 'yyyy')`; stated by `DateText.YearKeyInjective` and `DateText.YearKeyOrder` |
| DateText.FormatParseRoundTrip | src/DateRangeColumns.tsx:33 | text that parses is exactly the ISO text of the day it names |
| DateText.ParseFormatRoundTrip | src/App.tsx:29-36 | the ISO text of any day of the years 0000 to 9999 parses back to that day |
| DateText.IsoDateTextInjective | src/App.tsx:138-157 | distinct days of the years 0000 to 9999 have distinct ISO texts |
| DateText.DateKeyIsIsoText | src/DateRangeColumns.tsx:58 | from year 1 on, the `yyyy-MM-dd` key is the ISO date text |
| DateText.DateKeyInjective | src/DateRangeColumns.tsx:58 | distinct days of the years 0001 to 9999 have distinct date keys |
| DateText.DateKeyLength | src/DateRangeColumns.tsx:58 | a date key of the years 0001 to 9999 is ten characters long |
| DateText.MonthKeyInjective | src/DateRangeColumns.tsx:140 | equal `yyyy-MM` keys mean the same year and month |
| DateText.YearKeyInjective | src/DateRangeColumns.tsx:156 | equal `yyyy` keys mean the same year |
| DateText.DateKeyOrder | src/DateRangeColumns.tsx:58 | in the years 0001 to 9999 a later day has a `yyyy-MM-dd` key that comes later as text |
| DateText.MonthKeyOrder | src/DateRangeColumns.tsx:140 | in the years 0001 to 9999 a day of a later month has a `yyyy-MM` key that comes later as text |
| DateText.YearKeyOrder | src/DateRangeColumns.tsx:156 | in the years 0001 to 9999 a day of a later year has a `yyyy` key that comes later as text |
| WeekNumbers.IsoWeekNumber | src/DateRangeColumns.tsx:77-88 | defines the column's ISO number: whole weeks from the Monday of the week holding 4 January of the Thursday's year to the Thursday, plus one; its meaning is stated by `WeekNumbers.IsoWeekOfJanuaryFourth` and `WeekNumbers.IsoWeekNumberNext` |
| WeekNumbers.UsWeekNumber | src/DateRangeColumns.tsx:89-98 | defines the column's US number: whole weeks from the Sunday on or before 1 January of the start's year to the start, plus one; stated by `WeekNumbers.UsWeekNumberRange` and `WeekNumbers.UsWeekAcrossNewYear` |
| WeekNumbers.IsoWeek | src/DateRangeContextMenu.tsx:55 | defines `getISOWeek` as the ISO number of the Monday-start week holding the day; stated by `WeekNumbers.IsoWeekOfMonday` and `ContextMenu.GetWeekInfo` |
| WeekNumbers.IsoWeekNumberRange | src/DateRangeColumns.tsx:77-88 | the ISO number of a Monday-start week is between 1 and 53 |
| WeekNumbers.IsoWeekOfJanuaryFourth | src/DateRangeColumns.tsx:79-88 | in every year the week that holds 4 January is ISO week 1 |
| WeekNumbers.IsoWeekNumberNext | src/DateRangeColumns.tsx:79-88 | the next Monday's number goes up by one within one ISO year and starts again at 1 when the Thursday changes year |
| WeekNumbers.IsoWeekOfMonday | src/DateRangeContextMenu.tsx:55 | on a Monday, `getISOWeek` agrees with the column's own ISO computation |
| WeekNumbers.IsoWeekExample2024 | src/DateRangeColumns.tsx:79-88 | the week of Monday 2024-01-01 is week 1 |
| WeekNumbers.IsoWeekExample2020 | src/DateRangeColumns.tsx:79-88 | the week of Monday 2020-12-28 is week 53 |
| WeekNumbers.IsoWeekExample2021 | src/DateRangeContextMenu.tsx:55 | Friday 2021-01-01 lies in ISO week 53 |
| WeekNumbers.UsWeekNumberRange | src/DateRangeColumns.tsx:89-98 | a Sunday-start week is numbered 1 to 54; 54 only in a leap year that began on a Saturday; the week starts that many weeks after the Sunday on or before 1 January |
| WeekNumbers.UsWeekAcrossNewYear | src/DateRangeColumns.tsx:89-98 | a week starting in December and ending in January is numbered at least 53, and the following week is numbered 2 |
| WeekNumbers.UsWeekExample2021 | src/DateRangeColumns.tsx:89-98 | the week of Sunday 2021-12-26 is week 53 |
| WeekNumbers.UsWeekExample2022 | src/DateRangeColumns.tsx:89-98 | the week of Sunday 2022-01-02 is week 2 |
| WeekNumbers.UsWeekExample2023 | src/DateRangeColumns.tsx:89-98 | the week of Sunday 2023-01-01 is week 1 |
| WeekNumbers.UsWeekExample2000 | src/DateRangeColumns.tsx:89-98 | the week of Sunday 2000-12-31 is week 54 |
| Columns.ColumnsFor | src/DateRangeColumns.tsx:40-158 | defines the columns of a valid range, one branch per column type; stated by `Columns.ValidRangeColumns` and the per-type lemmas |
| Columns.RangeColumns | src/DateRangeColumns.tsx:32-38 | the range is rejected exactly when either end does not parse or the start is after the end |
| Columns.DateRangeColumns | src/DateRangeColumns.tsx:25-158 | the component's column list equals the segmentation specification for every column type |
| Columns.ValidRangeColumns | src/DateRangeColumns.tsx:42-157 | a valid range gives at least one week, month or year column, and `e - s + 1` unfiltered date columns |
| Columns.InvertedRangeExample | src/DateRangeColumns.tsx:36-38 | 2024-03-10 to 2024-03-01 is an invalid range for every column type |
| Columns.WeekRangeExample | src/DateRangeColumns.tsx:60-117 | 2024-01-01 to 2024-01-07, ISO weeks, is one column: Week 1, key `2024-01-01_2024-01-07`, its seven days |
| Columns.EachDay | src/DateRangeColumns.tsx:43 | `eachDayOfInterval` is the consecutive days from start to end inclusive; the component calls it only with start on or before end, because line 36 rejects the other case |
| Columns.KeepDay | src/DateRangeColumns.tsx:44-54 | defines which weekdays each filter keeps: Monday to Friday, Saturday and Sunday, or all; stated by `ContextMenu.ChipsShowFilter` and `Columns.FilterPartition` |
| Columns.FilterDays | src/DateRangeColumns.tsx:44-54 | a day is kept exactly when it is in the input and the filter keeps its weekday |
| Columns.FilterSubsequence | src/DateRangeColumns.tsx:44-54 | the filter keeps the input's order: its result is a subsequence of the input |
| Columns.FilterIncreasing | src/DateRangeColumns.tsx:44-54 | filtering increasing days gives increasing days |
| Columns.FilterAll | src/DateRangeColumns.tsx:44-54 | the `all` filter keeps every day |
| Columns.FilterPartition | src/DateRangeColumns.tsx:44-54 | the business-day and weekend columns together count as many as the unfiltered ones |
| Columns.DateColumnOf | src/DateRangeColumns.tsx:55-59 | defines a date column: month and day for the label, weekday for the sublabel, `yyyy-MM-dd` key |
| Columns.DateColumnsFacts | src/DateRangeColumns.tsx:42-59 | date columns are increasing, in range order, and hold exactly the in-range days the filter keeps |
| Columns.DateColumnsAll | src/DateRangeColumns.tsx:42-59 | unfiltered, column `i` is keyed by the date `start + i` |
| Columns.DateKeysInOrder | src/DateRangeColumns.tsx:55-59 | in the years 0001 to 9999, date column keys are distinct and a later column's key comes later as text |
| Columns.WeekStartsOn | src/DateRangeColumns.tsx:64 | the week start is a weekday index |
| Columns.WeekGrid | src/DateRangeColumns.tsx:62-74 | defines the week buckets in closed form; stated by `Columns.WeekGridShape`, `Columns.WeekGridCovers` and `Columns.WeekGridFirst` |
| Columns.WeekBuckets | src/DateRangeColumns.tsx:62-74 | the week loop yields the week grid from the week start on or before the start date |
| Columns.WeekGridShape | src/DateRangeColumns.tsx:65-74 | buckets start 7 days apart, each ends at its week end or the range end, and the last one starts within a week of the range end |
| Columns.WeekGridCovers | src/DateRangeColumns.tsx:65-74 | every day of the range falls in exactly one week bucket |
| Columns.WeekGridFirst | src/DateRangeColumns.tsx:65 | the first bucket starts on the chosen weekday, less than a week before the start date, and holds it |
| Columns.WeekNumberOf | src/DateRangeColumns.tsx:76-98 | picks the ISO or the US number of a bucket by the numbering type; stated by `Columns.WeekNumberBounds` |
| Columns.WeekColumnOf | src/DateRangeColumns.tsx:100-116 | defines a week column: its number, the key `start_end`, its seven days and its bucket |
| Columns.WeekDays | src/DateRangeColumns.tsx:104-113 | defines the seven day tags of a week column; stated by `Columns.WeekDaysConsecutive` |
| Columns.WeekColumnsOf | src/DateRangeColumns.tsx:75-117 | there is one week column per bucket |
| Columns.WeekDaysConsecutive | src/DateRangeColumns.tsx:104-113 | a week column lists the seven consecutive days from its start |
| Columns.WeekNumberBounds | src/DateRangeColumns.tsx:76-98 | week labels are 1 to 53 under ISO and 1 to 54 under US numbering |
| Columns.WeekKeysDistinct | src/DateRangeColumns.tsx:103 | week columns with different starts have different keys |
| Columns.WeekKeysInOrder | src/DateRangeColumns.tsx:103 | in the years 0001 to 9999, a week column with a later start has the later key as text |
| Columns.MonthGrid | src/DateRangeColumns.tsx:120-133 | defines the month buckets in closed form; stated by `Columns.MonthGridEnds`, `Columns.MonthGridBuckets`, `Columns.MonthGridCovers` and `Columns.MonthGridFirst` |
| Columns.MonthBuckets | src/DateRangeColumns.tsx:120-133 | the month loop yields the month grid from the start date's month |
| Columns.MonthGridEnds | src/DateRangeColumns.tsx:121-133 | the grid is empty exactly when the first month starts after the end, and stops at the first month starting after it |
| Columns.MonthGridBuckets | src/DateRangeColumns.tsx:121-133 | bucket `i` starts on the 1st of month `k0 + i`, ends in that month no later than the range end, and buckets are contiguous |
| Columns.MonthGridCovers | src/DateRangeColumns.tsx:121-133 | every day of the range lies in the bucket of its own month |
| Columns.MonthGridFirst | src/DateRangeColumns.tsx:121 | the first month bucket holds the start date |
| Columns.MonthColumnOf | src/DateRangeColumns.tsx:134-141 | defines a month column: month label, the start's or the end's year as sublabel, `yyyy-MM` key; stated by `Columns.MonthSublabel` |
| Columns.MonthColumnsOf | src/DateRangeColumns.tsx:134-141 | there is one month column per bucket |
| Columns.MonthSublabel | src/DateRangeColumns.tsx:134-141 | a bucket's start and end share a year, so the sublabel is that year; label is the month and key its `yyyy-MM` |
| Columns.MonthKeysInOrder | src/DateRangeColumns.tsx:140 | in the years 0001 to 9999, month column keys are distinct and a later column's key comes later as text |
| Columns.YearGrid | src/DateRangeColumns.tsx:144-153 | defines the year buckets in closed form; stated by `Columns.YearGridEnds`, `Columns.YearGridBuckets`, `Columns.YearGridCovers` and `Columns.YearGridFirst` |
| Columns.YearBuckets | src/DateRangeColumns.tsx:144-153 | the year loop yields the year grid from the start date's year |
| Columns.YearGridEnds | src/DateRangeColumns.tsx:145-153 | the grid is empty exactly when the first year starts after the end, and stops at the first year starting after it |
| Columns.YearGridBuckets | src/DateRangeColumns.tsx:145-153 | bucket `i` starts on 1 January of year `y0 + i`, ends in that year no later than the range end, and buckets are contiguous |
| Columns.YearGridCovers | src/DateRangeColumns.tsx:145-153 | every day of the range lies in the bucket of its own year |
| Columns.YearGridFirst | src/DateRangeColumns.tsx:145 | the first year bucket holds the start date |
| Columns.YearColumnOf | src/DateRangeColumns.tsx:154-157 | defines a year column: its `yyyy` as label and key |
| Columns.YearColumnsOf | src/DateRangeColumns.tsx:154-157 | there is one year column per bucket |
| Columns.YearKeysInOrder | src/DateRangeColumns.tsx:156 | in the years 0001 to 9999, year column keys are distinct and a later column's key comes later as text |
| ScaleConvert.LastColumnStart | src/App.tsx:136-157 | defines the day the last of `n` target columns begins: `n - 1` days or weeks on, or `setMonth`/`setFullYear` with day overflow; stated by the column-count lemmas below |
| ScaleConvert.CalcRangeForType | src/App.tsx:125-160 | the same type returns the state untouched; otherwise the start and count are kept, the end moves to the start of the last target column, and the conversion fails exactly when the start is not a date |
| ScaleConvert.ConvertedEndReadsBack | src/App.tsx:136-158 | the converted end parses back to the last column's start day |
| ScaleConvert.DateColumnCount | src/App.tsx:136-141 | converted to days, the range shows exactly `n` date columns |
| ScaleConvert.WeekColumnCount | src/App.tsx:142-147 | converted to weeks, the range shows exactly `n` week columns under either numbering |
| ScaleConvert.MonthColumnCount | src/App.tsx:148-152 | converted to months, `n` columns when the start's day exists `n - 1` months on, otherwise `n + 1` |
| ScaleConvert.YearColumnCount | src/App.tsx:153-157 | converted to years, exactly `n` year columns |
| ScaleConvert.JanuaryEndOverflow | src/App.tsx:148-152 | 31 January plus one month rolls over past the end of February into March |
| ScaleConvert.MonthOverflowExample | src/App.tsx:148-152 | 2024-01-31 with two columns ends 2024-03-02 |
| ScaleConvert.LeapDayOverflow | src/App.tsx:153-157 | 29 February plus one year into a common year is 1 March |
| ScaleConvert.LeapDayExample | src/App.tsx:153-157 | 2024-02-29 with two columns ends 2025-03-01 |
| ScaleConvert.ThreeYearsExample | src/App.tsx:153-157 | 2024-01-15 with three columns ends 2026-01-15 |
| AppState.InitialStates | src/App.tsx:51-76 | every column type has an entry on the shared range; counts 7, 4, 3, 2; only the week type uses the week picker |
| AppState.DefaultRange | src/App.tsx:27-36 | defines the default range: the ISO texts of the Monday and the Sunday of today's week; stated by `AppState.DefaultRangeIsTodaysWeek` |
| AppState.DefaultRangeIsTodaysWeek | src/App.tsx:26-36 | the default range reads back as the Monday-to-Sunday week holding today |
| AppState.TruthyText | src/App.tsx:198-199 | a supplied text counts only when it is not empty |
| AppState.TruthyCount | src/App.tsx:201 | a supplied count counts only when it is not 0 |
| AppState.Overlay | src/App.tsx:194-203 | each supplied, truthy field overwrites the entry; the others are kept |
| AppState.OverlayIdempotent | src/App.tsx:194-203 | applying the same change twice is applying it once |
| AppState.OverlayIgnoresFalsy | src/App.tsx:198-201 | a change of absent, empty or zero fields leaves the entry as it was |
| AppState.SwitchStates | src/App.tsx:172-191 | a switch succeeds exactly when the conversion does; the target keeps its range type and takes the source's start and count; every other entry is unchanged |
| AppState.SwitchEnd | src/App.tsx:174-189 | after a switch the target's end is the ISO text of the day its last column starts |
| AppState.CalendarApp.constructor | src/App.tsx:26-76 | the app starts on date columns, ISO numbering, every day shown, with the initial states on today's week |
| AppState.CalendarApp.HandleMenuChange | src/App.tsx:162-210 | a type switch changes only the type and the states, and only when the conversion succeeds; otherwise the active entry takes the change and numbering and filter take the supplied values |
| ContextMenu.BusinessChipActive | src/DateRangeContextMenu.tsx:220 | the Business days chip is lit under `business` and `all`; stated by `ContextMenu.ChipsShowFilter` |
| ContextMenu.WeekendChipActive | src/DateRangeContextMenu.tsx:236 | the Weekends chip is lit under `weekend` and `all`; stated by `ContextMenu.ChipsShowFilter` |
| ContextMenu.BusinessChipClick | src/DateRangeContextMenu.tsx:218-233 | clicking Business days flips that chip and leaves Weekends lit |
| ContextMenu.WeekendChipClick | src/DateRangeContextMenu.tsx:234-249 | clicking Weekends flips that chip and leaves Business days lit |
| ContextMenu.SomeChipActive | src/DateRangeContextMenu.tsx:220-236 | under every filter at least one chip is lit |
| ContextMenu.ChipsShowFilter | src/DateRangeContextMenu.tsx:216-251 | a weekday is shown exactly when Business days is lit, a weekend day exactly when Weekends is lit |
| ContextMenu.ChipsDetermineFilter | src/DateRangeContextMenu.tsx:220-236 | the lit chips determine the filter |
| ContextMenu.GetWeekInfo | src/DateRangeContextMenu.tsx:52-57 | the week info is the Monday-to-Sunday week holding the date, and its ISO number is 1 to 53 |
| ContextMenu.WeekInfoSameWeek | src/DateRangeContextMenu.tsx:52-57 | every day of a week gets the same week info |
| ContextMenu.WeekInfoNextWeek | src/DateRangeContextMenu.tsx:67-70 | a day one week on lies in the week starting seven days later |
| ContextMenu.WeekInfoNewYear2021 | src/DateRangeContextMenu.tsx:55 | 2021-01-01 is shown in week 53 and 2021-01-04 in week 1 |
| ContextMenu.JanuaryFourthWeek | src/DateRangeContextMenu.tsx:55 | 4 January is always in ISO week 1 |
| ContextMenu.ShiftWeeks | src/DateRangeContextMenu.tsx:72-73 | a shift moves a date by exactly seven days per week, and an invalid date stays invalid |
| ContextMenu.ShiftWeeksUndo | src/DateRangeContextMenu.tsx:72-73 | a step back and a step forward undo each other |
| ContextMenu.WeeksAround | src/DateRangeContextMenu.tsx:66-70 | three weeks are listed; their Mondays are seven days apart and the middle one holds the centre |
| ContextMenu.WeekClick | src/DateRangeContextMenu.tsx:88 | defines what a week click emits: the `yyyy-MM-dd` keys of its Monday and Sunday; stated by `ContextMenu.WeekClickReadsBack` |
| ContextMenu.WeekClickReadsBack | src/DateRangeContextMenu.tsx:88 | the dates a week click emits parse back to the week's Monday and Sunday |
| ContextMenu.Highlighted | src/DateRangeContextMenu.tsx:87 | defines the highlight test: the week's Monday and the start date have the same `yyyy-MM-dd` key, none when the start is not a date; stated by `ContextMenu.HighlightedIffMonday` |
| ContextMenu.HighlightedIffMonday | src/DateRangeContextMenu.tsx:87 | a week is highlighted exactly when its Monday is the start date |
| ContextMenu.WeekSelector.constructor | src/DateRangeContextMenu.tsx:65 | the selector starts centred on the start date, or on an invalid date when it does not parse |
| ContextMenu.WeekSelector.Weeks | src/DateRangeContextMenu.tsx:66-70 | the listed weeks are those around the centre, none when the centre is invalid |
| ContextMenu.WeekSelector.HandlePrev | src/DateRangeContextMenu.tsx:72 | the centre moves one week back |
| ContextMenu.WeekSelector.HandleNext | src/DateRangeContextMenu.tsx:73 | the centre moves one week on |

## Left out

- Rendering: the JSX of every component is not modelled, and neither is the markup of the "Invalid date range" message. `src/CalendarGrid.tsx`, `src/HoursColumn.tsx`, placeholder events, the menu's outside-click listener and its positioning are not part of this model.
- Persistence: the PGlite persister and the store are not part of this model. The day filter is a plain field of `CalendarApp`, and the store's fallback to `'all'` is the constructor's initial value.
- Calendar.MakeDay: reads the years 0 to 99 as written. JavaScript's `new Date(y, m, d)` reads them as 1900 + y, and `parseISO` does accept the years 0000 to 0099. So for dates in those years the source and the model differ wherever the source builds a date from a year: the ISO and US week numbers (src/DateRangeColumns.tsx:82, :91), the days of a week column (:106-110), and the month and year buckets (:121-132, :145-152). Example: from 0050-03-05 to 0050-05-01, by month, the source shows no column (its first bucket, 1950-03-01, is after the end) while the model shows three. What the model proves about these members describes the source only for dates from the year 100 on.
- Columns.ValidRangeColumns: "at least one column" holds in the source only when the range starts in the year 100 or later; see `Calendar.MakeDay`.
- Columns.WeekNumberBounds: the bounds 1 to 53 and 1 to 54 hold in the source only for weeks whose Thursday (ISO) or start (US) lies in the year 100 or later; see `Calendar.MakeDay`.
- Wall clock: `new Date()` for the default range becomes the parameter `today` of `CalendarApp`'s constructor.
- Time of day: timezones, daylight-saving shifts and milliseconds are not modelled; every date is a whole day. `new Date(string)` (UTC) and `parseISO` (local time) are read the same way.
- Labels: locale month and weekday names (`MMMM dd`, `EEEE`, `MMMM`, `EEE dd`) are kept as month and weekday indices, not text.
- Date texts: `parseISO` and `new Date(string)` accept many more forms (times, week dates, ordinal dates, expanded years). Only `YYYY-MM-DD` is modelled. Start and end props given as `Date` objects are not modelled; they are always texts here.
- Column counts: `numColumns` is an integer. Fractional and `NaN` counts are not modelled.
- Type-switch errors: `formatISO` throws on an invalid date during a type switch, and `setColumnType` has already been queued by then. `CalendarApp.HandleMenuChange` reports this as `ok == false` and leaves the state unchanged. React's batching of state updates is not modelled.
- DateText.DateKeyInjective: distinctness of date, month and year keys is proved only for the years 0001 to 9999, where `yyyy` has four digits. Outside them, the era years of `yyyy` can repeat.
- WeekNumbers.IsoWeekNumber: the `setDate` on the copied `thursday` touches only a local copy. It is written as the expression `start + 3`.
- ContextMenu.WeekSelector: React's `key={weekNumber}` and the `onChange` callback are not modelled. A week click is modelled by the texts it emits (`ContextMenu.WeekClick`).
