# Calendar reminders — a Dafny model of calendar.js

`calendar.js` drives a browser month calendar with reminders. It draws the grid of the shown
month, writes each reminder's label into the cell of its day, and steps between months.
It checks the add form's fields before sending them to a reminder store. Every five seconds
it compares the clock with every reminder and alerts once for each reminder that comes due.
This project models the local logic of that file and proves what each piece promises:

- `gregorian.dfy` (module `Gregorian`): the date arithmetic that `new Date(...)` performs,
  written after ECMA-262 section 21.4.1. It covers the leap-year rule, `DayFromYear`, `MakeDay`
  (months outside 0..11 carry into the year; date 0 is the last day of the previous month),
  `WeekDay`, and the constructor's reading of years 0..99 as 1900..1999. From these it defines
  the grid's `firstDay` and `daysInMonth`.
- `text.dfy` (module `Text`): `String.prototype.trim`, `Number.prototype.toString` for
  non-negative integers, `padStart(2, "0")`, and the `"HH:MM"` string of the due check,
  together with a reference reader `ParseClock`. The program itself never parses times (it
  compares strings with `==`); the reader only states what the formatted string means.
- `reminders.dfy` (module `Reminders`): the reminder record, the day-match test, the label
  `"<title> (<time>)"`, and the per-day `forEach` loop.
- `submit.dfy` (module `Submit`): the field check of the add/update button.
- `grid.dfy` (module `Grid`): `loadCalendar`. It is a loop with a mutable `row` that is cut
  every seven cells; a final partial row is kept only when it is not empty.
- `navigation.dfy` (module `Navigation`): the previous/next month steps as functions.
- `due.dfy` (module `Due`): the specification of one tick of the due check.
- `page.dfy` (module `CalendarPage`): the page's global state as a class. Its methods change
  that state in place: navigation, the refresh after a fetch, and the due-check loop over the
  reminder array.

The clock is a parameter (`Due.Clock`), and so is the outcome of a fetch (`Refresh`'s
argument). No network, DOM, timer or audio behaviour is modelled.

## Model

| member | source | states |
|---|---|---|
| `Gregorian.DaysInYear` | calendar.js:61 | a year has 366 days exactly when it is a Gregorian leap year (divisible by 4 and not by 100, or by 400), otherwise 365 |
| `Gregorian.DaysInMonth` | calendar.js:61 | every month has 28 to 31 days |
| `Gregorian.MonthLength` | calendar.js:61 | `daysInMonth` is between 28 and 31 |
| `Gregorian.FirstDay` | calendar.js:60 | `firstDay` is a weekday index 0..6 |
| `Gregorian.WeekDay` | calendar.js:60 | `getDay` is in 0..6 |
| `Gregorian.MakeFullYear` | calendar.js:60-61 | definition: the Date constructor reads a year 0..99 as 1900 + year; `TwoDigitYears` and `Grid.TwoDigitGrid` state what this does to the page |
| `Gregorian.TwoDigitYears` | calendar.js:60-61 | for a year y in 0..99 the grid's `firstDay` and `daysInMonth` are those of 1900 + y |
| `Gregorian.DayFromYear` | calendar.js:60-61 | definition: ECMA-262's day number of 1 January of a year, with floor divisions; `DayFromYearStep` states its meaning |
| `Gregorian.MonthStart` | calendar.js:60-61 | definition: days of the year before a month; `MonthStartStep` ties it to the month lengths |
| `Gregorian.MakeDay` | calendar.js:60-61 | definition: ECMA-262's MakeDay with month carry and date 0 meaning the last day of the previous month; `MakeDayInYear`, `MakeDayCarry` and `LastDateOfMonth` state its meaning |
| `Gregorian.DayFromYearStep` | calendar.js:61 | the first days of consecutive years lie `DaysInYear` apart |
| `Gregorian.MonthStartStep` | calendar.js:61 | the month thresholds are the running sums of the month lengths, and the twelve months fill the year |
| `Gregorian.LastDateOfMonth` | calendar.js:61 | `new Date(y, m + 1, 0)` is the day numbered `DaysInMonth(y, m)` of month m, including December carrying into the next year; so the next month starts `DaysInMonth` days after this one |
| `Gregorian.DatesInsideMonth` | calendar.js:61 | each date 1..DaysInMonth falls between the month's first day and the next month's first day |
| `Gregorian.NextFirstWeekDay` | calendar.js:60-61 | consecutive months' first weekdays differ by the first month's length mod 7 |
| `Gregorian.MakeDayInYear` | calendar.js:60-61 | for a month in 0..11 nothing carries: the day is the year's first day plus the days of the earlier months plus date - 1 |
| `Gregorian.MakeDayCarry` | calendar.js:61 | month 12 carries into January of the next year |
| `Gregorian.FirstDayStep` | calendar.js:60-61 | for years from 100 on, the first weekday of the following month (January of the next year after December) is `firstDay` plus `daysInMonth`, mod 7 |
| `Gregorian.FirstDay2000` | calendar.js:60 | `firstDay` of January 2000 is 6 (a Saturday) |
| `Gregorian.FebruaryLengths` | calendar.js:61 | `daysInMonth` of February is 29 in 2024 and 28 in 1900 |
| `Text.TrimStart` | calendar.js:98-99 | the result is the suffix after the leading whitespace and starts with a non-whitespace character or is empty |
| `Text.TrimEnd` | calendar.js:98-99 | the result is the prefix before the trailing whitespace and ends with a non-whitespace character or is empty |
| `Text.Trim` | calendar.js:98-99 | definition: `trim()` as TrimEnd of TrimStart; `TrimSlice`, `TrimEnds`, `TrimEmptyIff` and `TrimIdempotent` state its meaning |
| `Text.TrimSlice` | calendar.js:98-99 | `trim()` keeps one contiguous slice and removes only whitespace on both sides |
| `Text.TrimEnds` | calendar.js:98-99 | a trimmed string is empty or starts and ends with a non-whitespace character |
| `Text.TrimEmptyIff` | calendar.js:98-101 | a trimmed field is empty exactly when the input is all whitespace |
| `Text.TrimIdempotent` | calendar.js:98-99 | trimming twice is the same as trimming once |
| `Text.DecimalString` | calendar.js:217 | `toString()` gives one or more decimal digits, a single digit exactly below 10, and no leading zero |
| `Text.DecimalRoundTrip` | calendar.js:217 | reading back the decimal string gives the number |
| `Text.PadStart` | calendar.js:217-219 | `padStart` keeps a string that is already long enough and otherwise fills it at the front to exactly the target length |
| `Text.TwoDigitsOf` | calendar.js:216-219 | for 0..99 the padded string is exactly the tens digit followed by the units digit |
| `Text.TwoDigits` | calendar.js:216-219 | definition: `toString().padStart(2, "0")`; `TwoDigitsOf` states its value below 100 |
| `Text.ClockString` | calendar.js:216-219 | definition: the `HH:MM` string of the tick; `ClockChars`, `ClockRoundTrip` and `ParseClockExact` state its meaning |
| `Text.ClockChars` | calendar.js:216-219 | the `HH:MM` string is the four digits with a colon in the middle |
| `Text.ParseDigits` | calendar.js:216-219 | the model's reference reader `ParseClock` (not part of the program) reads a digit string by the digits' values and accepts it only within 00:00..23:59 |
| `Text.ClockRoundTrip` | calendar.js:216-219 | for hours 0..23 and minutes 0..59 the time string has length 5, a colon at position 2, and parses back to the same hours and minutes |
| `Text.ParseClockShape` | calendar.js:216-219 | a string the reference reader `ParseClock` accepts is two digits, a colon and two digits, read as hours 0..23 and minutes 0..59 |
| `Text.ClockOfDigits` | calendar.js:216-219 | the time formatted from two-digit hours and minutes is those digits around a colon |
| `Text.ParseClockExact` | calendar.js:216-219 | every string the reference reader `ParseClock` accepts is exactly the formatted form of what it reads |
| `Text.ClockStringIff` | calendar.js:216-222 | a string equals the formatted clock exactly when it parses to that clock's hours and minutes |
| `Reminders.OnDay` | calendar.js:72 | definition: the match of a reminder with a day, 1-based month month + 1 and year; `LabelsIn` and `OnDayIndices` use it |
| `Reminders.Label` | calendar.js:75 | definition: the event text `title (time)`; `LabelsAt` places it |
| `Reminders.Labels` | calendar.js:71-78 | definition: the labels of a day cell in list order; `LabelsIn`, `LabelsCount`, `LabelsAt` and `DayLabels` state its meaning |
| `Reminders.LabelsAppend` | calendar.js:71-78 | a cell's labels for a concatenated list are the first part's labels followed by the second's: list order is kept |
| `Reminders.LabelsIn` | calendar.js:72-75 | a label is in a day's cell exactly when some reminder with that day, month + 1 and year has that label |
| `Reminders.OnDayIndices` | calendar.js:72 | the positions, strictly increasing, of exactly the reminders matching the day |
| `Reminders.LabelsCount` | calendar.js:71-78 | a cell holds one label per matching reminder |
| `Reminders.LabelsAt` | calendar.js:71-78 | the k-th label of a cell is `title (time)` of the k-th matching reminder in list order |
| `Reminders.DayLabels` | calendar.js:71-78 | the loop over the reminder list returns exactly the day's labels |
| `Submit.ReadForm` | calendar.js:95-106 | the submission is refused exactly when day, month or year is 0 or a trimmed text field is empty; otherwise the record holds exactly the five fields, with title and time trimmed and starting with a non-whitespace character |
| `Submit.ReadFormStable` | calendar.js:95-106 | putting a built record back into the form, as edit mode does, and submitting it gives the same record |
| `Grid.Layout` | calendar.js:65-80 | the cells appended for `firstDay` blanks and `daysInMonth` days number `firstDay + daysInMonth` |
| `Grid.LayoutAt` | calendar.js:65-80 | by induction over the appended cells: the first `blanks` cells are blank and cell k after them is day k - blanks + 1 with its labels |
| `Grid.MonthCells` | calendar.js:60-80 | definition: the layout for `firstDay` blanks and `daysInMonth` days of the shown month; `LoadCalendar` states that the rows hold exactly these cells |
| `Grid.LayoutDays` | calendar.js:65-80 | the first `firstDay` cells are blank and day d is cell firstDay + d - 1, holding the labels of exactly the reminders of that day |
| `Grid.LayoutShown` | calendar.js:67-78 | a reminder with 1-based month month + 1, the shown year and a day of the month has its label in that day's cell |
| `Grid.TwoDigitGrid` | calendar.js:60-72 | for a year y in 0..99 the cells are laid out for the first weekday and length of that month of 1900 + y, and each day's labels are those of the reminders whose year is y itself |
| `Grid.BuildRows` | calendar.js:63-88 | the row loop yields rows holding exactly the layout's cells, every row but the last has 7 cells and the last 1..7, and there are ⌈(firstDay + daysInMonth) / 7⌉ rows |
| `Grid.LoadCalendar` | calendar.js:60-88 | the rows hold exactly `firstDay` blanks, then days 1..daysInMonth with their labels; every row but the last has 7 cells and the last has 1..7; there are ⌈(firstDay + daysInMonth) / 7⌉ rows |
| `Grid.FullRowsLength` | calendar.js:82-85 | rows closed at 7 cells hold 7 cells each |
| `Grid.RowCount` | calendar.js:82-88 | with only the last row partial and non-empty, the row count is the number of cells divided by 7, rounded up |
| `Grid.WeeksDetermined` | calendar.js:63-88 | rows of that shape are determined by their cells alone, so the grid has exactly one possible layout |
| `Navigation.Following` | calendar.js:242-247 | next keeps the month in 0..11 and advances the absolute month count `12 * year + month` by one |
| `Navigation.Preceding` | calendar.js:233-238 | prev keeps the month in 0..11 and moves the absolute month count back by one |
| `Navigation.MonthIndexInjective` | calendar.js:233-249 | a (month, year) pair with month in 0..11 is fixed by its absolute month count |
| `Navigation.StepsInverse` | calendar.js:233-249 | prev after next, and next after prev, restore the original (month, year) |
| `Navigation.FollowingFirstDay` | calendar.js:242-247 | after next, the new month's first weekday is the old one's plus the old month's length, mod 7 (for years from 100 on) |
| `Due.Reading` | calendar.js:212-219 | definition: the date, 1-based month, year and `HH:MM` time read off the clock; `ReadingTime` states its time string's meaning |
| `Due.IsDue` | calendar.js:222 | definition: the tick's test on date, month, year, time and the notified flag; `DueIff` states it in terms of the clock's hours and minutes |
| `Due.Notify` | calendar.js:222-225 | a reminder ends up notified exactly when it was notified or was due, and no other field changes |
| `Due.Tick` | calendar.js:221-227 | one tick maps every reminder through `Notify` and keeps the list's length |
| `Due.DueIndices` | calendar.js:221-224 | the alerts are the positions, strictly increasing, of exactly the due reminders |
| `Due.DueIndicesStep` | calendar.js:221-224 | visiting one more reminder appends its position exactly when it is due |
| `Due.TickPointwise` | calendar.js:221-225 | a list holding each reminder after `Notify` is the list after the tick |
| `Due.DueIff` | calendar.js:212-222 | a reminder is due exactly when its date, 1-based month and year equal the clock's, its time string parses to the clock's hours and minutes, and it has not fired yet |
| `Due.ReadingTime` | calendar.js:216-219 | the compared time is a 5-character `HH:MM` string that parses back to the clock's hours and minutes |
| `Due.NoneDue` | calendar.js:221-224 | with no reminder due, a tick raises no alert |
| `Due.TickIdempotent` | calendar.js:221-225 | a second tick at the same time changes nothing and raises no alert |
| `Due.TickMarksAlerted` | calendar.js:222-225 | a reminder alerts exactly when the tick turns its `notified` flag from false to true |
| `CalendarPage.Page.constructor` | calendar.js:4-11 | the page starts with the current month in 0..11 and an empty reminder list |
| `CalendarPage.Page.Refresh` | calendar.js:39-46 | the fetched list replaces the local one, or a failed fetch empties it; the redrawn grid is that of the shown month |
| `CalendarPage.Page.PrevMonth` | calendar.js:233-238 | the state becomes `Preceding` of the old state and keeps the month in 0..11 |
| `CalendarPage.Page.NextMonth` | calendar.js:242-247 | the state becomes `Following` of the old state and keeps the month in 0..11 |
| `CalendarPage.Page.CheckDue` | calendar.js:211-227 | the alerts are `DueIndices` for the clock's reading and the array becomes `Tick` of its old contents |
| `CalendarPage.Page.AlertDue` | calendar.js:221-227 | the loop marks exactly the due reminders notified in place and returns their positions in order |

## Left out

- Network: the `fetch` calls and their sequencing (calendar.js:36-38, 110-142, 179-187) are remote I/O. `Refresh` models only what the two callbacks do with the outcome. The update path (delete, then add) and its lost-update window are not modelled.
- DOM: `innerHTML`, `createElement`, the form reset (146-150), the list view (156-169) and the edit-mode form population (191-205) are left out. `ReadFormStable` covers the one local consequence of edit mode: an unchanged record passes the check again.
- The month-and-year heading (54-58) uses `toLocaleString`, which depends on the locale.
- Popups, the alert sound and timers are left out: `showPopup`'s `setTimeout`, `alertSound.play()`, and the 5-second `setInterval` schedule. A tick is one call of `CheckDue` with the clock reading passed in. The alert message text is not modelled; the alerts are the positions of the reminders that fire.
- The `editingReminderId` branch (109, 123) chooses between the add and update requests. It only picks a network sequence, so it is not modelled.
- JavaScript coercion: the number fields are typed integers, and a field that coerces to 0 or NaN is represented by 0. Fractional input (`+"1.5"`) is not represented. Loose `==` between string and number fields (72, 222) becomes typed equality. The `===` id lookup (193) is not modelled.
- `Submit.ReadForm` checks only that the fields are present, as the handler does. A day outside its month or a time not in `HH:MM` form is accepted.
- Reminder objects are values in an array, so two array slots can never alias one object. `notified` is a plain boolean; a store record without it counts as not notified.
- `Gregorian.MonthLength`: it stands for `getDate()` of `new Date(year, month + 1, 0)`. `LastDateOfMonth` proves that this day is date `DaysInMonth` of the month. ECMA-262's general `DateFromTime` is not modelled. The time-value range limit of ±8.64e15 ms and the local time zone are not modelled either.
- `Grid.LoadCalendar` requires a month in 0..11. Its only callers pass `currentMonth`, which `PrevMonth` and `NextMonth` keep in that range.
- `Navigation.FollowingFirstDay` is stated for years from 100 on. Below 100, the Date constructor's 1900 offset makes the shown year jump between 99 and 100.
- The last grid row is not padded with trailing blanks (calendar.js:88), so a row can hold fewer than seven cells. The model follows the code.
