/** The calendar page of `calendar_view` (app.py:381-394, 507-536): the
    whole-week window around a month, the rows of seven cells, the class
    of each cell and the previous/next month links. */
module CalendarGrid {
  import opened Base
  import opened Dates
  import opened DateStrings

  /** `gray-day`, `empty-day`, `red-day`, `green-day`. */
  datatype CellKind = Gray | Empty | Red | Green

  datatype Cell = Cell(date: Date, kind: CellKind)

  predicate ValidMonth(year: int, month: int) {
    MinYear <= year <= MaxYear && 1 <= month <= 12
  }

  /** The class of a cell from its stored percentage (hundredths of a
      percent), if any, and whether its month differs from the page's. */
  function Classify(percentage: Option<int>, otherMonth: bool): (k: CellKind)
    ensures k == Gray <==> percentage.None? && otherMonth
    ensures k == Empty <==> percentage.None? && !otherMonth
    ensures k == Red <==> percentage.Some? && percentage.value > 10000
    ensures k == Green <==> percentage.Some? && percentage.value <= 10000
    ensures HasEditLink(k) <==> !(percentage.None? && otherMonth)
  {
    if percentage.None? && otherMonth then Gray
    else if percentage.None? then Empty
    else if percentage.value > 10000 then Red
    else Green
  }

  /** Every cell but a gray one is a link to `/edit/<date>`. */
  predicate HasEditLink(k: CellKind) {
    k != Gray
  }

  /** `data.get(day_str)`. */
  function Lookup(data: map<string, int>, key: string): (r: Option<int>)
    ensures r.Some? <==> key in data
    ensures r.Some? ==> r.value == data[key]
  {
    if key in data then Some(data[key]) else None
  }

  /** The cell the inner loop emits for date `x`. */
  function CellFor(data: map<string, int>, month: int, x: Date): (c: Cell)
    requires Valid(x)
    ensures c.date == x
    ensures c.kind == Gray <==> Iso(x) !in data && x.month != month
    ensures HasEditLink(c.kind) <==> Iso(x) in data || x.month == month
    ensures Iso(x) in data ==> (c.kind == Red <==> data[Iso(x)] > 10000)
  {
    Cell(x, Classify(Lookup(data, Iso(x)), x.month != month))
  }

  /** The "Previous" link: the month before, counting months as
      `12 * year + month`. */
  function PrevMonth(year: int, month: int): (r: (int, int))
    requires 1 <= month <= 12
    ensures 1 <= r.1 <= 12
    ensures 12 * r.0 + r.1 == 12 * year + month - 1
  {
    (if month == 1 then year - 1 else year, if month > 1 then month - 1 else 12)
  }

  /** The "Next" link: the month after. */
  function NextMonth(year: int, month: int): (r: (int, int))
    requires 1 <= month <= 12
    ensures 1 <= r.1 <= 12
    ensures 12 * r.0 + r.1 == 12 * year + month + 1
  {
    (if month == 12 then year + 1 else year, if month < 12 then month + 1 else 1)
  }

  /** Going back and then forward, or forward and then back, returns to
      the page's own month. */
  lemma NavigationRoundTrip(year: int, month: int)
    requires 1 <= month <= 12
    ensures NextMonth(PrevMonth(year, month).0, PrevMonth(year, month).1) == (year, month)
    ensures PrevMonth(NextMonth(year, month).0, NextMonth(year, month).1) == (year, month)
  {
  }

  function FirstOfMonth(year: int, month: int): (x: Date)
    requires ValidMonth(year, month)
    ensures Valid(x) && x.year == year && x.month == month
    ensures x.day == 1
  {
    Date(year, month, 1)
  }

  function LastOfMonth(year: int, month: int): (x: Date)
    requires ValidMonth(year, month)
    ensures Valid(x) && x.year == year && x.month == month
    ensures x.day == DaysInMonth(year, month)
  {
    Date(year, month, DaysInMonth(year, month))
  }

  /** Ordinal of the Monday on or before the date with ordinal `o`
      (`weekday()` is `(o + 6) % 7`). */
  function MondayOnOrBefore(o: int): int {
    o - (o + 6) % 7
  }

  /** Ordinal of the Sunday on or after the date with ordinal `o`. */
  function SundayOnOrAfter(o: int): int {
    o + 6 - (o + 6) % 7
  }

  /** Ordinal of `start_day`: the 1st minus its weekday. */
  function WindowStart(year: int, month: int): int
    requires ValidMonth(year, month)
  {
    MondayOnOrBefore(Ordinal(FirstOfMonth(year, month)))
  }

  /** Ordinal of `end_day + timedelta(days=6 - end_day.weekday())`. */
  function WindowEnd(year: int, month: int): int
    requires ValidMonth(year, month)
  {
    SundayOnOrAfter(Ordinal(LastOfMonth(year, month)))
  }

  /** `start_day`: the 1st moved back by its weekday. */
  function WindowStartDate(year: int, month: int): (x: Date)
    requires ValidMonth(year, month)
    ensures Valid(x) && Ordinal(x) == WindowStart(year, month)
  {
    WindowShape(year, month);
    var first := FirstOfMonth(year, month);
    OrdinalBounds(first);
    AddDays(first, WindowStart(year, month) - Ordinal(first))
  }

  /** The last date of the range query: the last day moved on to its
      Sunday, which overflows for December 9999. */
  function WindowEndDate(year: int, month: int): (x: Date)
    requires ValidMonth(year, month) && !(year == MaxYear && month == 12)
    ensures Valid(x) && Ordinal(x) == WindowEnd(year, month)
  {
    WindowShape(year, month);
    WindowFits(year, month);
    var last := LastOfMonth(year, month);
    OrdinalBounds(last);
    AddDays(last, WindowEnd(year, month) - Ordinal(last))
  }

  /** The week arithmetic of the window, on plain ordinals. */
  lemma WeekBounds(first: int, last: int)
    requires 1 <= first && first + 27 <= last <= first + 30
    ensures 1 <= MondayOnOrBefore(first) <= first < MondayOnOrBefore(first) + 7
    ensures SundayOnOrAfter(last) - 7 < last <= SundayOnOrAfter(last)
    ensures (MondayOnOrBefore(first) + 6) % 7 == 0
    ensures (SundayOnOrAfter(last) + 6) % 7 == 6
    ensures (SundayOnOrAfter(last) - MondayOnOrBefore(first) + 1) % 7 == 0
    ensures 28 <= SundayOnOrAfter(last) - MondayOnOrBefore(first) + 1 <= 42
  {
    var q1, q2 := (first + 6) / 7, (last + 6) / 7;
    assert MondayOnOrBefore(first) + 6 == 7 * q1;
    assert SundayOnOrAfter(last) + 6 == 7 * q2 + 6;
  }

  /** The last day of a month is `DaysInMonth - 1` days after the first. */
  lemma MonthSpan(year: int, month: int)
    requires ValidMonth(year, month)
    ensures Ordinal(LastOfMonth(year, month)) == Ordinal(FirstOfMonth(year, month)) + DaysInMonth(year, month) - 1
    ensures 1 <= Ordinal(FirstOfMonth(year, month))
  {
    SameMonth(FirstOfMonth(year, month), DaysInMonth(year, month));
    OrdinalBounds(FirstOfMonth(year, month));
  }

  /** The window runs from the Monday on or before the 1st to the Sunday on
      or after the last day, so it is 4, 5 or 6 whole weeks; it never
      starts before 0001-01-01, which is a Monday. */
  lemma WindowShape(year: int, month: int)
    requires ValidMonth(year, month)
    ensures 1 <= WindowStart(year, month)
    ensures WindowStart(year, month) <= Ordinal(FirstOfMonth(year, month)) < WindowStart(year, month) + 7
    ensures WindowEnd(year, month) - 7 < Ordinal(LastOfMonth(year, month)) <= WindowEnd(year, month)
    ensures (WindowStart(year, month) + 6) % 7 == 0
    ensures (WindowEnd(year, month) + 6) % 7 == 6
    ensures (WindowEnd(year, month) - WindowStart(year, month) + 1) % 7 == 0
    ensures 28 <= WindowEnd(year, month) - WindowStart(year, month) + 1 <= 42
  {
    MonthSpan(year, month);
    WeekBounds(Ordinal(FirstOfMonth(year, month)), Ordinal(LastOfMonth(year, month)));
  }

  /** Only the last representable month, December 9999, has a window end
      past 9999-12-31; every other window ends well before it. */
  lemma WindowFits(year: int, month: int)
    requires ValidMonth(year, month)
    ensures WindowEnd(year, month) <= MaxOrdinal <==> !(year == MaxYear && month == 12)
    ensures !(year == MaxYear && month == 12) ==> WindowEnd(year, month) + 7 <= MaxOrdinal
  {
    var last := LastOfMonth(year, month);
    MaxDateOrdinal();
    WindowShape(year, month);
    if year == MaxYear && month == 12 {
      assert last == MaxDate;
      assert SundayOnOrAfter(MaxOrdinal) == MaxOrdinal + 2;
    } else {
      OrdinalOrder(last, MaxDate);
      var next := NextDay(last);
      SameMonth(next, 28);
      OrdinalBounds(Date(next.year, next.month, 28));
    }
  }

  /** The last day of the month before (year, month) is the day before the 1st. */
  lemma EndOfPrevMonth(year: int, month: int)
    requires ValidMonth(year, month) && (year, month) != (MinYear, 1)
    ensures ValidMonth(PrevMonth(year, month).0, PrevMonth(year, month).1)
    ensures Ordinal(LastOfMonth(PrevMonth(year, month).0, PrevMonth(year, month).1))
              == Ordinal(FirstOfMonth(year, month)) - 1
  {
    var first := FirstOfMonth(year, month);
    var before := PrevDay(first);
    assert before == LastOfMonth(before.year, before.month);
  }

  /** The 1st of the month after (year, month) is the day after the last day. */
  lemma StartOfNextMonth(year: int, month: int)
    requires ValidMonth(year, month) && Ordinal(LastOfMonth(year, month)) < MaxOrdinal
    ensures ValidMonth(NextMonth(year, month).0, NextMonth(year, month).1)
    ensures Ordinal(FirstOfMonth(NextMonth(year, month).0, NextMonth(year, month).1))
              == Ordinal(LastOfMonth(year, month)) + 1
  {
    MaxDateOrdinal();
    assert LastOfMonth(year, month) != MaxDate;
    var (ny, nm) := NextMonth(year, month);
    assert NextDay(LastOfMonth(year, month)) == Date(ny, nm, 1);
  }

  /** A date at most a week before the 1st is in the month before. */
  lemma InPrevMonth(year: int, month: int, x: Date)
    requires ValidMonth(year, month) && (year, month) != (MinYear, 1) && Valid(x)
    requires Ordinal(FirstOfMonth(year, month)) - 7 <= Ordinal(x) < Ordinal(FirstOfMonth(year, month))
    ensures (x.year, x.month) == PrevMonth(year, month)
  {
    EndOfPrevMonth(year, month);
    var prev := PrevMonth(year, month);
    var end := LastOfMonth(prev.0, prev.1);
    var d := end.day - (Ordinal(FirstOfMonth(year, month)) - Ordinal(x)) + 1;
    SameMonth(end, d);
    OrdinalOrder(Date(prev.0, prev.1, d), x);
  }

  /** A date at most a week after the last day is in the month after. */
  lemma InNextMonth(year: int, month: int, x: Date)
    requires ValidMonth(year, month) && Valid(x)
    requires Ordinal(LastOfMonth(year, month)) < Ordinal(x) <= Ordinal(LastOfMonth(year, month)) + 7
    ensures (x.year, x.month) == NextMonth(year, month)
  {
    OrdinalBounds(x);
    StartOfNextMonth(year, month);
    var next := NextMonth(year, month);
    var start := FirstOfMonth(next.0, next.1);
    var d := Ordinal(x) - Ordinal(LastOfMonth(year, month));
    SameMonth(start, d);
    OrdinalOrder(Date(next.0, next.1, d), x);
  }

  /** Nothing precedes January of year 1. */
  lemma NotFirstMonth(year: int, month: int, x: Date)
    requires ValidMonth(year, month) && Valid(x) && Ordinal(x) < Ordinal(FirstOfMonth(year, month))
    ensures (year, month) != (MinYear, 1)
  {
    MinDateOrdinal();
    OrdinalBounds(x);
  }

  /** A date between the 1st and the last day is in the month. */
  lemma InThisMonth(year: int, month: int, x: Date)
    requires ValidMonth(year, month) && Valid(x)
    requires Ordinal(FirstOfMonth(year, month)) <= Ordinal(x) <= Ordinal(LastOfMonth(year, month))
    ensures x.year == year && x.month == month
  {
    OrdinalOrder(x, FirstOfMonth(year, month));
    OrdinalOrder(LastOfMonth(year, month), x);
  }

  /** A date within a week of the month lies in the month before it, in
      the month itself or in the month after it, according to its ordinal. */
  lemma NearMonth(year: int, month: int, x: Date)
    requires ValidMonth(year, month) && Valid(x)
    requires Ordinal(FirstOfMonth(year, month)) - 7 <= Ordinal(x) <= Ordinal(LastOfMonth(year, month)) + 7
    ensures Ordinal(x) < Ordinal(FirstOfMonth(year, month)) ==> (x.year, x.month) == PrevMonth(year, month)
    ensures Ordinal(FirstOfMonth(year, month)) <= Ordinal(x) <= Ordinal(LastOfMonth(year, month)) ==>
              x.year == year && x.month == month
    ensures Ordinal(x) > Ordinal(LastOfMonth(year, month)) ==> (x.year, x.month) == NextMonth(year, month)
  {
    if Ordinal(x) < Ordinal(FirstOfMonth(year, month)) {
      NotFirstMonth(year, month, x);
      InPrevMonth(year, month, x);
    } else if Ordinal(x) > Ordinal(LastOfMonth(year, month)) {
      InNextMonth(year, month, x);
    } else {
      InThisMonth(year, month, x);
    }
  }

  /** Within the window, `current.month != month` is exactly "not in the
      page's month": the year never needs comparing there. */
  lemma OtherMonthInWindow(year: int, month: int, x: Date)
    requires ValidMonth(year, month) && Valid(x)
    requires WindowStart(year, month) <= Ordinal(x) <= WindowEnd(year, month)
    ensures x.month != month <==> !(x.year == year && x.month == month)
    ensures x.month == month <==>
              Ordinal(FirstOfMonth(year, month)) <= Ordinal(x) <= Ordinal(LastOfMonth(year, month))
  {
    WindowShape(year, month);
    NearMonth(year, month, x);
  }

  /** Seven cells whose dates run on day by day from ordinal `o`, each
      classified from `data`. */
  ghost predicate IsRowFrom(row: seq<Cell>, data: map<string, int>, month: int, o: int) {
    |row| == 7 &&
    forall j :: 0 <= j < 7 ==>
      && Valid(row[j].date)
      && Ordinal(row[j].date) == o + j
      && row[j] == CellFor(data, month, row[j].date)
  }

  /** Rows of seven cells whose dates run on day by day from `start`. */
  ghost predicate IsGridFrom(rows: seq<seq<Cell>>, data: map<string, int>, month: int, start: int) {
    forall i :: 0 <= i < |rows| ==> IsRowFrom(rows[i], data, month, start + 7 * i)
  }

  lemma GridAppend(rows: seq<seq<Cell>>, row: seq<Cell>, data: map<string, int>, month: int, start: int)
    requires IsGridFrom(rows, data, month, start)
    requires IsRowFrom(row, data, month, start + 7 * |rows|)
    ensures IsGridFrom(rows + [row], data, month, start)
  {
    assert forall i :: 0 <= i < |rows| ==> (rows + [row])[i] == rows[i];
  }

  /** Day `7 * i + j` after a Monday falls on weekday `j`. */
  lemma ColumnWeekday(start: int, i: int, j: int)
    requires (start + 6) % 7 == 0 && 0 <= j < 7
    ensures (start + 7 * i + j + 6) % 7 == j
  {
    var q := (start + 6) / 7;
    assert start + 7 * i + j + 6 == 7 * (q + i) + j;
  }

  /** A grid that starts on a Monday has the weekdays as its columns,
      Monday first. */
  lemma GridColumns(rows: seq<seq<Cell>>, data: map<string, int>, month: int, start: int)
    requires IsGridFrom(rows, data, month, start) && (start + 6) % 7 == 0
    ensures forall i, j :: 0 <= i < |rows| && 0 <= j < 7 ==> Weekday(rows[i][j].date) == j
  {
    forall i, j | 0 <= i < |rows| && 0 <= j < 7
      ensures Weekday(rows[i][j].date) == j
    {
      assert IsRowFrom(rows[i], data, month, start + 7 * i);
      ColumnWeekday(start, i, j);
    }
  }

  /** A grid holds every date of its span. */
  lemma GridCovers(rows: seq<seq<Cell>>, data: map<string, int>, month: int, start: int, x: Date)
    requires IsGridFrom(rows, data, month, start)
    requires Valid(x) && start <= Ordinal(x) < start + 7 * |rows|
    ensures exists i, j :: 0 <= i < |rows| && 0 <= j < 7 && rows[i][j].date == x
  {
    var i, j := (Ordinal(x) - start) / 7, (Ordinal(x) - start) % 7;
    assert IsRowFrom(rows[i], data, month, start + 7 * i);
    assert Ordinal(rows[i][j].date) == Ordinal(x);
    OrdinalOrder(rows[i][j].date, x);
  }

  /** A grid holds no date twice. */
  lemma GridDistinct(rows: seq<seq<Cell>>, data: map<string, int>, month: int, start: int,
                     i: int, j: int, i': int, j': int)
    requires IsGridFrom(rows, data, month, start)
    requires 0 <= i < |rows| && 0 <= j < 7 && 0 <= i' < |rows| && 0 <= j' < 7
    requires rows[i][j].date == rows[i'][j'].date
    ensures i == i' && j == j'
  {
    assert IsRowFrom(rows[i], data, month, start + 7 * i);
    assert IsRowFrom(rows[i'], data, month, start + 7 * i');
    assert 7 * i + j == 7 * i' + j';
  }

  /** February 2024: 29 days, a window from Monday 29 January to Sunday
      3 March, five rows. */
  lemma LeapFebruary2024()
    ensures DaysInMonth(2024, 2) == 29
    ensures WindowStart(2024, 2) == Ordinal(Date(2024, 1, 29))
    ensures WindowEnd(2024, 2) == Ordinal(Date(2024, 3, 3))
    ensures WindowEnd(2024, 2) - WindowStart(2024, 2) + 1 == 5 * 7
  {
    assert DaysBeforeYear(2024) == 738885 by {
      assert 2023 / 4 == 505 && 2023 / 100 == 20 && 2023 / 400 == 5;
    }
  }

  /** The inner `for _ in range(7)` loop: seven cells from `current`, then
      the date after them; `current += timedelta(days=1)` raises
      OverflowError when `current` is 9999-12-31. */
  method EmitRow(data: map<string, int>, month: int, current: Date) returns (row: seq<Cell>, next: Result<Date>)
    requires Valid(current)
    ensures next.Ok? <==> Ordinal(current) + 7 <= MaxOrdinal
    ensures next.Err? ==> next.error == Overflow
    ensures next.Ok? ==> Valid(next.value) && Ordinal(next.value) == Ordinal(current) + 7
    ensures next.Ok? ==> IsRowFrom(row, data, month, Ordinal(current))
  {
    MaxDateOrdinal();
    row := [];
    var c := current;
    for k := 0 to 7
      invariant Valid(c) && Ordinal(c) == Ordinal(current) + k
      invariant Ordinal(c) <= MaxOrdinal
      invariant |row| == k
      invariant forall j :: 0 <= j < k ==>
                  Valid(row[j].date) && Ordinal(row[j].date) == Ordinal(current) + j
                  && row[j] == CellFor(data, month, row[j].date)
    {
      row := row + [CellFor(data, month, c)];
      if c == MaxDate {
        return row, Err(Overflow);
      }
      OrdinalOrder(c, MaxDate);
      c := NextDay(c);
    }
    next := Ok(c);
  }

  /** The break test of app.py:530 as written. */
  predicate StopsAsWritten(current: Date, month: int)
    requires Valid(current)
  {
    current.month > month && Weekday(current) == 0
  }

  /** The break test as intended: `current` is in a later month than the
      page's, comparing the year as well. */
  predicate StopsAfterMonth(current: Date, year: int, month: int)
    requires Valid(current)
  {
    (current.year > year || (current.year == year && current.month > month)) && Weekday(current) == 0
  }

  /** Whole weeks after a Monday land on a Monday; past the last day and
      within one week after the window's end, they land on the day after it. */
  lemma WeekStep(start: int, end: int, last: int, o: int, n: int)
    requires (start + 6) % 7 == 0 && (end - start + 1) % 7 == 0
    requires end - 7 < last <= end && o <= end + 1
    requires o == start + 7 * n
    ensures (o + 6) % 7 == 0
    ensures o > last ==> o == end + 1
    ensures o <= last ==> o + 6 <= end
  {
    var r := (end + 1 - start) / 7;
    assert end + 1 == start + 7 * r;
    assert o + 6 == 7 * ((start + 6) / 7 + n);
  }

  /** At the start of every row after the first, the intended break fires
      exactly when the rows emitted so far have passed the last day; the
      break as written agrees with it except in December, where it never
      fires inside the window. */
  lemma RowBoundary(year: int, month: int, current: Date, n: int)
    requires ValidMonth(year, month) && Valid(current) && 1 <= n
    requires Ordinal(current) == WindowStart(year, month) + 7 * n <= WindowEnd(year, month) + 1
    ensures StopsAfterMonth(current, year, month) <==> Ordinal(current) > Ordinal(LastOfMonth(year, month))
    ensures month < 12 ==> (StopsAsWritten(current, month) <==> StopsAfterMonth(current, year, month))
    ensures month == 12 ==> !StopsAsWritten(current, month)
    ensures Ordinal(current) > Ordinal(LastOfMonth(year, month)) ==> Ordinal(current) == WindowEnd(year, month) + 1
    ensures Ordinal(current) <= Ordinal(LastOfMonth(year, month)) ==> Ordinal(current) + 6 <= WindowEnd(year, month)
  {
    WindowShape(year, month);
    WeekStep(WindowStart(year, month), WindowEnd(year, month), Ordinal(LastOfMonth(year, month)), Ordinal(current), n);
    assert Weekday(current) == 0;
    NearMonth(year, month, current);
  }

  /** The row loop with the intended break: the rows cover the window
      exactly, for every month. */
  method BuildGrid(data: map<string, int>, year: int, month: int) returns (rows: seq<seq<Cell>>)
    requires ValidMonth(year, month) && WindowEnd(year, month) <= MaxOrdinal
    ensures IsGridFrom(rows, data, month, WindowStart(year, month))
    ensures 7 * |rows| == WindowEnd(year, month) - WindowStart(year, month) + 1
  {
    WindowShape(year, month);
    WindowFits(year, month);
    ghost var start, end := WindowStart(year, month), WindowEnd(year, month);
    var current := WindowStartDate(year, month);
    rows := [];
    while true
      invariant Valid(current) && Ordinal(current) == start + 7 * |rows|
      invariant Ordinal(current) + 6 <= end
      invariant IsGridFrom(rows, data, month, start)
      decreases end - Ordinal(current)
    {
      var row, next := EmitRow(data, month, current);
      GridAppend(rows, row, data, month, start);
      rows := rows + [row];
      current := next.value;
      RowBoundary(year, month, current, |rows|);
      if StopsAfterMonth(current, year, month) {
        break;
      }
    }
  }

  /** The row loop as written: for January to November it is `BuildGrid`;
      for December `current.month > 12` never holds, the loop runs on
      past the window and ends only when `current` overflows 9999-12-31. */
  method BuildGridAsWritten(data: map<string, int>, year: int, month: int) returns (result: Result<seq<seq<Cell>>>)
    requires ValidMonth(year, month) && WindowEnd(year, month) <= MaxOrdinal
    ensures month < 12 ==> result.Ok?
    ensures month < 12 ==> IsGridFrom(result.value, data, month, WindowStart(year, month))
    ensures month < 12 ==> 7 * |result.value| == WindowEnd(year, month) - WindowStart(year, month) + 1
    ensures month == 12 ==> result == Err(Overflow)
  {
    WindowShape(year, month);
    WindowFits(year, month);
    ghost var start, end := WindowStart(year, month), WindowEnd(year, month);
    var current := WindowStartDate(year, month);
    var rows := [];
    while true
      invariant Valid(current) && Ordinal(current) == start + 7 * |rows|
      invariant month < 12 ==> Ordinal(current) + 6 <= end
      invariant IsGridFrom(rows, data, month, start)
      invariant Ordinal(current) <= MaxOrdinal
      decreases MaxOrdinal - Ordinal(current)
    {
      var row, next := EmitRow(data, month, current);
      if next.Err? {
        return Err(Overflow);
      }
      GridAppend(rows, row, data, month, start);
      rows := rows + [row];
      current := next.value;
      if month < 12 {
        RowBoundary(year, month, current, |rows|);
      }
      if StopsAsWritten(current, month) {
        break;
      }
    }
    result := Ok(rows);
  }
}
