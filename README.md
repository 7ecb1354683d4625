# Calendar component model

A Dafny model of the date-picker calendar in `src/components/Calendar.tsx`.
The component keeps three pieces of state: the reference date
`currentDate`, the picked date `selectedDate` (possibly none) and the
`viewMode` (date, month or year). From that state it draws one of three
grids. The day grid shows six weeks around the reference month. The month
grid shows the twelve months of the reference year. The year grid shows
twelve years around the reference year. Six click handlers change the state.

The model has two files.

- `dates.dfy` (module `Dates`) defines calendar dates without a time of day.
  A `Date` is a year, a month 0..11 and a day. The module covers the
  proleptic Gregorian leap-year rule and a day number (`Serial`, days since
  1970-01-01). It also defines the date-fns operations the component calls:
  `addDays`, `startOfMonth`, `startOfWeek` and `endOfWeek` (weeks start on
  Sunday), `addMonths`, `subMonths`, `addYears` and `subYears`. Finally it
  models the JavaScript `new Date(year, month, 1)` constructor.
- `calendar.dfy` (module `CalendarComponent`) has two layers:
  - Pure specification functions: the cells of each grid (`DayCells`,
    `DayRows`, `MonthCells`, `YearCells`), the header label (`Header`) and the
    handlers as a transition function (`Transition`). Lemmas state what each
    promises.
  - The class `Calendar`: the component itself, with the three state fields
    and one method per handler and per render function. The render methods
    are the source's loops, with invariants, proved equal to the
    specification functions. Each handler is proved to perform `Transition`.

"Today" and the reference date at mount time are parameters: the source reads
them from the wall clock. The `onSelect` callback is recorded as a ghost log
`selections`: each entry is a date handed to it.

Two behaviours of the code worth noting:

- The month grid highlights the month of `currentDate`, not the month of
  `selectedDate`. The highlight also requires that the selected date's year
  (or `currentDate`'s year when nothing is picked) equals `currentDate`'s
  year. See `getMonth(currentDate)` at `Calendar.tsx:255-256`.
- Month and year steps clamp the day to the end of a shorter target month:
  Jan 31 plus one month is the last day of February. They do not roll over
  into the next month. This is what date-fns `addMonths` and `addYears` do.

## Model

| member | source | states |
|---|---|---|
| `Dates.NextDaySerial` | src/components/Calendar.tsx:221 | `addDays(day, 1)` yields a valid date whose day number is one more |
| `Dates.AddDaysSerial` | src/components/Calendar.tsx:196 | `addDays(d, n)` is a valid date exactly `n` day numbers after `d`, for every `n` |
| `Dates.StartOfMonth` | src/components/Calendar.tsx:194 | `startOfMonth` is the 1st of the same month: same year and month, and `day - 1` days earlier |
| `Dates.StartOfWeek` | src/components/Calendar.tsx:195 | `startOfWeek` is a Sunday, on or before the date and at most six days before it |
| `Dates.EndOfWeek` | src/components/Calendar.tsx:196 | `endOfWeek` is a Saturday, on or after the date and at most six days after it |
| `Dates.AddMonths` | src/components/Calendar.tsx:132 | `addMonths(d, n)` lands `n` months on (year and month carry), keeps the day unless the target month is shorter, and then takes that month's last day |
| `Dates.SubMonths` | src/components/Calendar.tsx:122 | `subMonths(d, n)` lands `n` months back, as a valid date, keeping the day unless the target month is shorter, and then taking that month's last day |
| `Dates.AddYears` | src/components/Calendar.tsx:134-136 | `addYears(d, n)` keeps the month, moves the year by `n`, and clamps the day as `addMonths` does (Feb 29 to Feb 28) |
| `Dates.SubYears` | src/components/Calendar.tsx:124-126 | `subYears(d, n)` keeps the month, moves the year back by `n`, and clamps the day to the target month's last day when that month is shorter (Feb 29 to Feb 28) |
| `Dates.JsFirstOfMonth` | src/components/Calendar.tsx:237 | `new Date(year, month, 1)` as JavaScript evaluates it: the 1st of the month, with the month carrying into the year, and years 0..99 read as 1900..1999 |
| `Dates.FirstOfMonth` | src/components/Calendar.tsx:277 | the 1st of `month` in `year`, for every year as written, with the month carrying into the year |
| `Dates.FirstOfMonthInRange` | src/components/Calendar.tsx:236-240 | for a month 0..11, the date built by the pick handlers is exactly (year, month, 1) |
| `Dates.JsFirstOfMonthTwoDigitYear` | src/components/Calendar.tsx:276-280 | for years 0..99 the as-written constructor yields (1900 + year, month, 1), which differs from the intended date |
| `Dates.JsFirstOfMonthOtherYears` | src/components/Calendar.tsx:277 | outside years 0..99 the as-written constructor and the corrected one agree |
| `Dates.IsOnOrBeforeSerial` | src/components/Calendar.tsx:202 | comparing two dates with `<=` agrees with comparing their day numbers |
| `CalendarComponent.ThreeRowsOfFour` | src/components/Calendar.tsx:269-271 | three rows of four, where cell `c` of row `r` is cell `4r + c` of the twelve |
| `CalendarComponent.GridStart` | src/components/Calendar.tsx:194-195 | the first day of the grid is a Sunday, `DayOfWeek(1st)` days before the 1st of the month |
| `CalendarComponent.GridEndBound` | src/components/Calendar.tsx:196-202 | the loop test `day <= endOfWeek(startDate + 41)` holds for the day `k` days after the first Sunday exactly when `k <= 41` |
| `CalendarComponent.GridWalkEnds` | src/components/Calendar.tsx:196-202 | for every `k >= 0`, the loop test holds on the day `k` days after the first Sunday exactly when `k <= 41`, so the walk stops after six weeks |
| `CalendarComponent.DaysFromAt` | src/components/Calendar.tsx:203-221 | cell `i` of a run of cells that begins `offset` days after the grid's start is the cell for `addDays(start, offset + i)` |
| `CalendarComponent.WeeksFromAt` | src/components/Calendar.tsx:202-231 | row `r` of a run of weeks is the seven cells from `7r` days after the run's start |
| `CalendarComponent.WeekCellAt` | src/components/Calendar.tsx:202-231 | cell `c` of row `r` of a run of weeks is cell `7r + c` of the run of consecutive days from the same start |
| `CalendarComponent.DayCells` | src/components/Calendar.tsx:196-231 | the day grid has exactly 42 cells |
| `CalendarComponent.DayCellAt` | src/components/Calendar.tsx:203-221 | cell `k` is drawn for the valid date `k` days after the grid's first Sunday |
| `CalendarComponent.DayCellOf` | src/components/Calendar.tsx:200-221 | each cell carries the flags for its own date; the first is the grid's Sunday; each next cell holds the following day |
| `CalendarComponent.DayRows` | src/components/Calendar.tsx:224-228 | the day grid is 6 rows of 7 cells |
| `CalendarComponent.DayRowsAreWeeks` | src/components/Calendar.tsx:202-231 | cell `c` of row `r` is cell `7r + c` of the 42: the rows are the 42 days in order, seven at a time |
| `CalendarComponent.DayGridConsecutive` | src/components/Calendar.tsx:194-221 | the cells hold 42 consecutive days; the first is a Sunday on or up to 6 days before the 1st of the month |
| `CalendarComponent.DayGridCoversMonth` | src/components/Calendar.tsx:193-234 | every day `d` of the displayed month appears, at index `DayOfWeek(1st) + d - 1` |
| `CalendarComponent.DayGridOutsideMonth` | src/components/Calendar.tsx:212 | a cell is flagged outside the month exactly when its index falls before the 1st or after the month's last day |
| `CalendarComponent.DayGridFlagsAtMostOnce` | src/components/Calendar.tsx:210-211 | at most one cell is today; at most one is selected; with nothing picked, none is selected |
| `CalendarComponent.DayGridShowsToday` | src/components/Calendar.tsx:210 | some cell is today exactly when today falls within the 42 days shown |
| `CalendarComponent.DayGridShowsSelection` | src/components/Calendar.tsx:211 | some cell is selected exactly when a date is picked and it falls within the 42 days shown |
| `CalendarComponent.MonthCells` | src/components/Calendar.tsx:248-265 | the month grid has exactly 12 cells |
| `CalendarComponent.MonthGridLayout` | src/components/Calendar.tsx:245-258 | months 0..11 in order, all in the reference year; at most one highlighted; cell `i` is highlighted exactly when `i` is the reference month and the selected (or reference) year equals the reference year |
| `CalendarComponent.YearCells` | src/components/Calendar.tsx:284-304 | the year grid has exactly 12 cells |
| `CalendarComponent.YearGridLayout` | src/components/Calendar.tsx:284-296 | years run from Y-4 to Y+7, one apart; only the first and last are edges; only Y is highlighted |
| `CalendarComponent.HeaderMatchesYearGrid` | src/components/Calendar.tsx:146-154 | in year view the header range is the first and last year of the year grid |
| `CalendarComponent.BuildGrid` | src/components/Calendar.tsx:315-329 | exactly one grid is drawn, the one the view mode selects |
| `CalendarComponent.Transition` | src/components/Calendar.tsx:112-280 | the six handlers (header click :112-118, prev :120-128, next :130-138, day :172-177, month :236-240, year :276-280) as one step function: only picking a day changes the selection, and every handler keeps the state valid |
| `CalendarComponent.HeaderClickDrillsDown` | src/components/Calendar.tsx:112-118 | header click goes date to month, month to year, and year stays year; the dates are unchanged |
| `CalendarComponent.PrevNextStep` | src/components/Calendar.tsx:120-138 | prev/next move the reference date back/on by 1, 12 or 144 months (by view), never lengthen its day, and keep the view and the selection |
| `CalendarComponent.NextUndoesPrev` | src/components/Calendar.tsx:120-138 | next after prev restores the reference year and month (and the whole state when the day is at most 28) |
| `CalendarComponent.PrevUndoesNext` | src/components/Calendar.tsx:120-138 | prev after next restores the reference year and month (and the whole state when the day is at most 28) |
| `CalendarComponent.PickDayEffects` | src/components/Calendar.tsx:172-173 | picking a day selects it and leaves the reference date and the view alone |
| `CalendarComponent.PickMonthEffects` | src/components/Calendar.tsx:236-240 | picking month `m` shows (year, m, 1) in date view; the selection stays |
| `CalendarComponent.PickYearEffects` | src/components/Calendar.tsx:276-280 | picking year `y` shows (y, month, 1) in month view; the selection stays |
| `CalendarComponent.PickYearFiftyAsWritten` | src/components/Calendar.tsx:276-280 | as written, picking year 50 gives a date in 1950; the corrected transition gives year 50 |
| `CalendarComponent.PickMonthInYearFiftyAsWritten` | src/components/Calendar.tsx:236-240 | as written, picking a month while the reference year is 50 gives a date in 1950; the corrected transition stays in year 50 |
| `CalendarComponent.February2024GridStart` | src/components/Calendar.tsx:194-195 | the February 2024 grid opens on Sunday, January 28 |
| `CalendarComponent.February2024Grid` | src/components/Calendar.tsx:193-234 | February 2024 seen on the 15th: Jan 28 first, Feb 1 at index 4, today at index 18, Feb 29 at index 32, the rest greyed |
| `CalendarComponent.NextClampsToEndOfFebruary` | src/components/Calendar.tsx:130-132 | next from Jan 31 lands on Feb 29 in 2024 and on Feb 28 in 2023 |
| `CalendarComponent.PrevNextAcrossFebruary` | src/components/Calendar.tsx:120-132 | prev then next from Mar 31, 2024 returns to Mar 29, because the day was clamped in February |
| `CalendarComponent.Year2024Grid` | src/components/Calendar.tsx:146-154 | around 2024 the year grid and header span 2020..2031, with 2020 and 2031 as edges and 2024 highlighted |
| `CalendarComponent.Calendar.constructor` | src/components/Calendar.tsx:107-110 | mounting sets the reference date to now and the selection to the `date` prop, shows the day grid, and has called onSelect for nothing yet |
| `CalendarComponent.Calendar.OnClickHeaderView` | src/components/Calendar.tsx:112-118 | the new state is `Transition(old, HeaderClick)`; onSelect is not called |
| `CalendarComponent.Calendar.OnClickHeaderPrev` | src/components/Calendar.tsx:120-128 | the new state is `Transition(old, Prev)`; onSelect is not called |
| `CalendarComponent.Calendar.OnClickHeaderNext` | src/components/Calendar.tsx:130-138 | the new state is `Transition(old, Next)`; onSelect is not called |
| `CalendarComponent.Calendar.OnClickCellsDate` | src/components/Calendar.tsx:172-177 | the new state is `Transition(old, PickDay(day))`; onSelect receives the day exactly once when the host passed one, and never otherwise |
| `CalendarComponent.Calendar.OnClickMonth` | src/components/Calendar.tsx:236-240 | the new state is `Transition(old, PickMonth(month))`; onSelect is not called |
| `CalendarComponent.Calendar.OnClickYear` | src/components/Calendar.tsx:276-280 | the new state is `Transition(old, PickYear(year))`; onSelect is not called |
| `CalendarComponent.Calendar.RenderCells` | src/components/Calendar.tsx:193-234 | the rows drawn are exactly `DayRows` of the current state |
| `CalendarComponent.Calendar.RenderRows` | src/components/Calendar.tsx:198-231 | the loop on `day <= endDate` pushes exactly six rows of seven consecutive days from the first Sunday |
| `CalendarComponent.Calendar.RenderWeek` | src/components/Calendar.tsx:203-222 | the inner loop draws the seven cells of the week that begins `offset` days after the first Sunday, and leaves the day seven days on |
| `CalendarComponent.Calendar.RenderMonths` | src/components/Calendar.tsx:242-274 | the rows drawn are exactly `MonthCells` of the current state, sliced 4/4/4 |
| `CalendarComponent.Calendar.RenderYears` | src/components/Calendar.tsx:282-313 | the rows drawn are exactly `YearCells` of the current state, sliced 4/4/4 |
| `CalendarComponent.Calendar.RenderContent` | src/components/Calendar.tsx:315-329 | the grid drawn is `BuildGrid` of the current state |

## Left out

- Styles and JSX markup (`Calendar.tsx:25-105` and the JSX of every render function): a cell is a record of its date and flags, and a grid is a sequence of rows.
- Locale text from date-fns `format`: the "MMMM yyyy" and "yyyy" header labels, the day numbers, the month names, and all of `renderDays` (`Calendar.tsx:179-191`), which only prints the weekday names. `Header` keeps the year and month the labels are made of.
- The wall clock: `new Date()` at `Calendar.tsx:108` and `:210` is the `now` constructor parameter and the `today` parameter of the render methods.
- Time of day, time zones and daylight saving time. Dates are calendar days. The `23:59:59` of `endOfWeek` only ends the loop, and `IsOnOrBefore` compares whole days.
- The range limit of JavaScript dates (about 275,000 years either side of 1970): years are unbounded integers.
- The body of the `onSelect` callback, which is the host's code: the ghost sequence `selections` records each call.
- React's scheduling of state updates: each handler's updates are applied at once. The handlers read only the state from before the click, so the final state is the same.
- A `date` prop that is an invalid JavaScript date: the constructor requires a valid date.
- `src/App.tsx` is not part of this model. It is a demonstration page that mounts the component.

## Findings

| source | as written | input that shows it | evidently intended | confidence | as-written member | corrected member |
|---|---|---|---|---|---|---|
| src/components/Calendar.tsx:277 | `new Date(year, getMonth(currentDate), 1)`: JavaScript reads a year 0..99 as 1900..1999 | in year view, press prev until year 50 is shown, then pick 50: the reference date becomes the 1st of the month in 1950, not in year 50 | the 1st of that month in the picked year | not executed | `CalendarComponent.PickYearFiftyAsWritten` | `CalendarComponent.PickYearEffects` |
| src/components/Calendar.tsx:237 | `new Date(getYear(currentDate), month, 1)`: the same reading of years 0..99 | in month view, press prev until the year is 50, then pick any month: the reference date jumps to 1950 | the 1st of the picked month in the displayed year | not executed | `CalendarComponent.PickMonthInYearFiftyAsWritten` | `CalendarComponent.PickMonthEffects` |

`Dates.JsFirstOfMonth` models the constructor as written. `Dates.JsFirstOfMonthTwoDigitYear` proves the discrepancy for every year 0..99 and every month. The model's transitions and handlers use the corrected `Dates.FirstOfMonth`.
