# Iron tracker: verified model of the daily-iron core

This project models the server-side logic of the iron tracker, a small Flask
application that records how much dietary iron a user ate on a day and shows
it on a dashboard and a monthly calendar. Four pieces of `app.py` are
modelled and proved:

- **Daily aggregation** (`handle_day`, POST branch). The numbered form fields
  `product_i`/`grams_i` are read for indices 0, 1, 2, … until the first
  missing one. Each item's iron comes from the static `IRON_DATA` table, and
  an unknown food counts as 0. Items are rounded to two decimals, and the day
  total adds up the rounded items. The percentage of the daily norm is then
  computed; a zero norm raises `ZeroDivisionError`.
- **The record table.** It has no uniqueness constraint. A save deletes every
  row for `(user_id, record_date)` and then inserts one row. Reads are a point
  lookup (`fetchone`, first match in table order) and a `BETWEEN` range read
  into a dictionary (the last row wins). The table is a class whose `rows`
  and `nextId` (the `AUTOINCREMENT` counter) are updated in place.
- **The calendar** (`calendar_view`). Dates are `(year, month, day)` with
  Python's proleptic-Gregorian ordinal, `weekday() == (ordinal + 6) % 7`, and
  `date ± timedelta` as ordinal arithmetic. `OverflowError` is raised outside
  0001-01-01 … 9999-12-31. The page covers the whole-week window around the
  month. Its row loop emits seven cells per row. Each cell is classified as
  gray, empty, red or green, and the previous/next links wrap across years.
- **The dashboard** (`dashboard`). It shows today's record and the five days
  before it, most recent first. A recorded day gets a green or red icon by
  its percentage rounded to one decimal. A day with no record gets a neutral
  marker.

Numbers are fixed-point integers:
- submitted grams are in thousandths of a gram;
- an item's grams and iron, the day total and the norm are in hundredths;
- `IRON_DATA` is in tenths of a milligram per 100 g;
- the stored percentage is in hundredths of a percent;
- the dashboard's percentage is in tenths of a percent.

Python's `round(x, n)` is modelled as exact round-half-to-even of the
rational value (`FixedPoint.RoundDiv`). Errors Python raises become the
`Err` cases of `Base.Result`: `ZeroDivision`, `IllegalMonth` (from
`calendar.monthrange`), `YearOutOfRange` (from `date(year, month, 1)`) and
`Overflow` (from `date ± timedelta`).

Modules: `Base` (Option, Result, errors), `FixedPoint` (rounding), `IronData`
(the table), `Aggregation` (the collection loop and percentage), `Dates`
(Python's `date` arithmetic), `DateStrings` (`isoformat` and SQLite text
order), `Records` (the table), `CalendarGrid` (window, cells, rows,
navigation) and `Handlers` (the three pages over the table).

Two behaviours of the code are worth stating plainly:
- a zero norm raises `ZeroDivisionError`; a negative norm is accepted and
  gives a negative percentage (`Aggregation.Percentage`);
- the table has no uniqueness constraint; saves preserve "at most one row
  per (user, date)" (`Records.AtMostOnePerKey`).

## Model

| member | source | states |
|---|---|---|
| FixedPoint.RoundDiv | app.py:343-351 | the result is the integer nearest to `n / d`, and a tie between two integers goes to the even one (Python's `round`) |
| FixedPoint.RoundDivUnique | app.py:343-351 | any integer strictly nearer than half a unit to `n / d` is the rounded value |
| FixedPoint.RoundDivExact | app.py:350 | rounding an exact multiple returns it unchanged, so re-rounding the already rounded total is a no-op |
| FixedPoint.RoundDivMonotone | app.py:351 | rounding by a positive divisor preserves order |
| IronData.IronPer100g | app.py:13-30 | `IRON_DATA.get(name, 0)`: 0 exactly for names missing from the table; no food has more than 15.7 mg per 100 g |
| Aggregation.ItemIron | app.py:343 | the item's iron is within half a hundredth of a milligram of the exact product of grams and content per gram; an unknown name gives exactly 0 mg |
| Aggregation.MakeItem | app.py:341-344 | the appended item keeps the submitted name, its grams within half a hundredth of the submitted grams, and the item's iron |
| Aggregation.SumIron | app.py:345-350 | the total of the already rounded item irons; with non-negative items it is non-negative and at least every item; additivity is `Aggregation.SumIronAppend` |
| Aggregation.SumIronAppend | app.py:345 | the running total over a concatenation is the sum of the parts |
| Aggregation.CollectionUnique | app.py:336-348 | the collected item list is determined by the form fields |
| Aggregation.CollectItems | app.py:334-348 | the loop returns the items of indices 0.. up to the first index missing `product_i` or `grams_i`, in index order, and the total of their rounded irons |
| Aggregation.Percentage | app.py:351 | an error exactly when the norm is 0 (ZeroDivision); otherwise the percentage is within half a unit of `total / norm * 100` |
| Aggregation.WithinNormNotOver | app.py:351 | a total not above a positive norm gives at most 100 % |
| Aggregation.ScenarioSpinach | app.py:343-351 | 100 g of spinach with a 15 mg norm gives 2.70 mg and 18.00 % |
| Aggregation.ScenarioLiverAndApple | app.py:343-351 | 50 g beef liver and 200 g apple give 3.10 + 0.20 = 3.30 mg, 33.00 % of 10 mg |
| Dates.IsLeap | app.py:385 | the Gregorian leap rule used by `calendar.monthrange`; its effect on month lengths is stated by `Dates.DaysInMonth` |
| Dates.LeapYears | app.py:385 | 2024 and 2000 are leap years; 2023 and 1900 are not |
| Dates.Ordinal | app.py:387-392 | `toordinal()` by Python's closed form; its properties are `Dates.MinDateOrdinal`, `Dates.MaxDateOrdinal`, `Dates.OrdinalOrder` and `Dates.OrdinalBounds` |
| Dates.DaysInMonth | app.py:385 | months have 28 to 31 days; February has 29 exactly in leap years; April, June, September and November have 30 |
| Dates.Weekday | app.py:387 | the weekday is in 0..6 |
| Dates.MinDateOrdinal | app.py:387 | 0001-01-01 has ordinal 1 and is a Monday |
| Dates.MaxDateOrdinal | app.py:392 | 9999-12-31 has ordinal 3652059 |
| Dates.OrdinalOrder | app.py:387-392 | the ordinal orders dates chronologically and identifies them |
| Dates.OrdinalBounds | app.py:387-392 | every valid date has an ordinal in 1..3652059 |
| Dates.NextDay | app.py:528 | `date + timedelta(days=1)`: a valid date one ordinal later, for every date except the last |
| Dates.PrevDay | app.py:580 | `date - timedelta(days=1)`: a valid date one ordinal earlier, for every date except the first |
| Dates.AddDays | app.py:387 | `date + timedelta(days=n)` when representable: a valid date `n` ordinals away |
| DateStrings.Iso | app.py:392 | `isoformat()` is always ten characters |
| DateStrings.DigitsOrder | app.py:391 | zero-padded numerals of equal width compare as text like the numbers |
| DateStrings.IsoOrder | app.py:391-392 | ISO strings compare as SQLite text exactly as the dates compare |
| DateStrings.IsoInjective | app.py:391-394 | two dates have the same ISO string exactly when they are equal |
| Records.KeyRows | app.py:327-328 | the rows with a given key are exactly the table's rows with that key |
| Records.Without | app.py:352 | DELETE keeps exactly the rows without the key |
| Records.FirstMatch | app.py:327-328 | `fetchone`: nothing exactly when no row has the key; otherwise the first such row in table order |
| Records.InRange | app.py:391 | `user_id = ? AND record_date BETWEEN ? AND ?` as text comparison; `Handlers.RangeQuerySelectsWindow` proves it selects exactly the window's dates |
| Records.RangeMap | app.py:390-394 | the dictionary's keys are exactly the dates of rows in the text range, and each value is the percentage of such a row |
| Records.RangeMapLastWins | app.py:394 | for duplicate dates the dictionary keeps the last row's percentage |
| Records.Upserted | app.py:352-354 | the save: the inserted row is last, and the table holds exactly that row plus the old rows without its key |
| Records.UpsertedKeyRows | app.py:352-355 | after a save the saved key has exactly the inserted row, and every other key keeps its rows in order |
| Records.UpsertKeepsKeysUnique | app.py:352-355 | a save preserves "at most one row per (user, date)" |
| Records.FirstMatchAfterUpsert | app.py:327-355 | after a save, the point lookup of the saved key returns the inserted row; other keys read as before |
| Records.LastSaveWins | app.py:352-355 | two saves of one key leave only the second row for it |
| Records.RangeAgreesWithFirstMatch | app.py:390-394 | with one row per key, the range dictionary and the point lookup agree on every date in range |
| Records.RecordTable.constructor | app.py:51-60 | a fresh table is empty and the first id is 1 |
| Records.RecordTable.Delete | app.py:352 | the rows become the old rows without the key; ids stay increasing |
| Records.RecordTable.Insert | app.py:353-354 | appends one row with the next id and advances the counter |
| CalendarGrid.Classify | app.py:514-525 | gray exactly when there is no percentage and the date is outside the month; empty when there is none inside it; red exactly above 100 %; green exactly at or below 100 %, inside or outside the month; every class but gray carries the edit link |
| CalendarGrid.Lookup | app.py:512 | `data.get(day_str)`: a value exactly when the key is present, and then that key's value |
| CalendarGrid.CellFor | app.py:511-525 | the cell for a date: gray exactly when nothing is stored and the month differs, a link in every other case, red exactly when the stored percentage exceeds 100 % |
| CalendarGrid.PrevMonth | app.py:533-535 | the previous month is in 1..12 and is one month earlier counting `12 * year + month` |
| CalendarGrid.NextMonth | app.py:534-536 | the next month is in 1..12 and is one month later |
| CalendarGrid.NavigationRoundTrip | app.py:533-536 | next of previous and previous of next are the original month |
| CalendarGrid.FirstOfMonth | app.py:386 | `first_day`: the valid 1st of the month; `CalendarGrid.EndOfPrevMonth` proves it follows the previous month's last day |
| CalendarGrid.LastOfMonth | app.py:388 | `end_day`: the valid last day of the month; `CalendarGrid.MonthSpan` proves it is `DaysInMonth - 1` days after the 1st |
| CalendarGrid.MonthSpan | app.py:385-388 | the last day is `DaysInMonth - 1` days after the 1st |
| CalendarGrid.EndOfPrevMonth | app.py:386-387 | the previous month's last day is the day before the 1st |
| CalendarGrid.StartOfNextMonth | app.py:388-392 | the next month's 1st is the day after the last day |
| CalendarGrid.WindowStartDate | app.py:387 | `start_day`: a valid date whose ordinal is the window's start |
| CalendarGrid.WindowEndDate | app.py:392 | the range query's upper bound: a valid date whose ordinal is the window's end, for every month but December 9999 |
| CalendarGrid.WindowShape | app.py:385-392 | the window starts on the Monday on or before the 1st and never before 0001-01-01; it ends on the Sunday on or after the last day; it is 28 to 42 days, in whole weeks |
| CalendarGrid.WindowFits | app.py:392 | the window's end exists exactly when the month is not December 9999 |
| CalendarGrid.NearMonth | app.py:514 | a date within a week of the month is in the previous month, the month or the next month, by its ordinal |
| CalendarGrid.OtherMonthInWindow | app.py:514 | inside the window, `current.month != month` means exactly "outside the page's month" |
| CalendarGrid.GridColumns | app.py:507-529 | a grid starting on a Monday has Monday..Sunday as its columns |
| CalendarGrid.GridCovers | app.py:507-529 | every date of the grid's span appears in it |
| CalendarGrid.GridDistinct | app.py:507-529 | no date appears twice |
| CalendarGrid.LeapFebruary2024 | app.py:385-392 | February 2024 has 29 days and a 5-week window from 29 January to 3 March |
| CalendarGrid.EmitRow | app.py:510-528 | seven classified cells for seven consecutive dates and the date after them; Overflow exactly when that would pass 9999-12-31 |
| CalendarGrid.StopsAsWritten | app.py:530 | the break test as written; `CalendarGrid.RowBoundary` proves it never fires in December |
| CalendarGrid.StopsAfterMonth | app.py:530 | the break test comparing (year, month); `CalendarGrid.RowBoundary` proves it fires exactly at the window's end |
| CalendarGrid.RowBoundary | app.py:530 | after each row, the intended break fires exactly once the last day is passed, at the window's end; the written break agrees for January to November and never fires in December |
| CalendarGrid.BuildGrid | app.py:507-531 | the row loop with the intended break: rows of cells that cover the window exactly, day by day from `start_day` |
| CalendarGrid.BuildGridAsWritten | app.py:507-531 | the row loop as written: the same grid for January to November; Overflow for December |
| Handlers.HandleDayPost | app.py:330-355 | a zero norm fails and leaves the table unchanged; otherwise the items, total and percentage are as collected and the table is the old one with the day upserted; one row per key is preserved |
| Handlers.ShowDay | app.py:359-366 | a day shows a record exactly when a row with its key exists |
| Handlers.SaveThenShow | app.py:327-366 | showing a day after saving it returns the saved record; other days are unaffected |
| Handlers.RangeQuerySelectsWindow | app.py:390-392 | the text `BETWEEN` of the range query selects exactly the dates of the window |
| Handlers.RangeData | app.py:390-394 | the range dictionary over the window; `Handlers.RangeQuerySelectsWindow` and `Handlers.CellReflectsStore` state what it holds |
| Handlers.CellReflectsStore | app.py:390-525 | with one row per day, each cell of the window is classified from its own date's stored percentage |
| Handlers.SavedOverLimitShowsRed | app.py:511-522 | a day saved above 100 % shows red in its month, whatever was stored before |
| Handlers.CalendarView | app.py:381-536 | bad month, bad year and December 9999 fail as Python does; otherwise the page has the window's grid over the range data, and the previous/next links |
| Handlers.TenthsWithinLimit | app.py:590-591 | a percentage rounds to at most 100.0 exactly when it is at most 100.05 |
| Handlers.Figures | app.py:589-590 | the total as stored, and the percentage within half a tenth of the stored one |
| Handlers.RecentEntry | app.py:586-593 | a recorded day shows its figures and is green exactly up to 100.05 % and red above; an unrecorded day shows no figures and the neutral icon |
| Handlers.IconAndCellDisagree | app.py:588-591 | the dashboard icon and the calendar colour disagree exactly for percentages in (100 %, 100.05 %] |
| Handlers.Dashboard | app.py:563-601 | fails with Overflow exactly when `today` is within five days of 0001-01-01; otherwise today's figures come from the point lookup, and there are five entries for today−1 … today−5 in that order, each from its own lookup |

## Left out

- Flask routing, `request`, `session` (including the default norm of 15.0), `redirect`, `url_for` and `render_template_string` are web plumbing. The form comes in as two maps from index to field value; the norm is a parameter.
- HTML, CSS, markup strings, the status sentences and the browser-side JavaScript are rendering only.
- SQLite connection handling (`get_db`, `close_connection`, `init_db`) is I/O. The table is an in-memory sequence of rows, and `commit` is not modelled.
- `date.today()` becomes the `today` parameter of `Handlers.Dashboard`. `calendar_view` takes year and month as parameters, so its default to the current month is not modelled.
- `float(...)` parsing and its exceptions are not modelled. Grams must be whole thousandths of a gram, and the norm whole hundredths of a milligram.
- Binary floating point is not modelled. `round` is exact round-half-even on the decimal value. A double whose nearest binary value falls on the other side of a tie may round differently in Python.
- JSON encoding of `items_json` is not modelled: items are stored as a sequence.
- `strftime("%d %b")` display of dashboard dates is not modelled: entries carry the date itself.
- The dashboard's `saved` alert and the `sorted(IRON_DATA.keys())` list for the form are display-only and not modelled.
- Row order of SQLite results is taken to be insertion order: `fetchone` returns the first matching row in the order rows were inserted, and `fetchall` yields rows in that order. SQLite does not promise an order without `ORDER BY`. The choice matters only when a key has duplicate rows, which saves never create (`Records.UpsertKeepsKeysUnique`).
- Concurrent requests and transactions are not modelled: each handler runs on its own.
- Handlers.CalendarView: uses the corrected row loop (`CalendarGrid.BuildGrid`); the loop as written is `CalendarGrid.BuildGridAsWritten`, which fails for December (see Findings).
- Handlers.ShowDay: returns the stored record only; the placeholder empty form row and the rounding of stored values for display are not modelled.

## Findings

| source | as written | input that shows it | evidently intended | confidence | as-written member | corrected member |
|---|---|---|---|---|---|---|
| app.py:530 | the row loop stops at a Monday whose `current.month > month`; when `month == 12` no month is greater, so the loop never stops inside the window and runs on until `current += timedelta(days=1)` passes 9999-12-31 and raises OverflowError | `/calendar?year=2024&month=12` (any December) | stop at the first Monday after the month, comparing `(year, month)`: `(current.year, current.month) > (year, month)` | high, not executed | CalendarGrid.BuildGridAsWritten | CalendarGrid.BuildGrid |
