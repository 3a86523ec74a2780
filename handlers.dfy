/** The three pages of the application (app.py:315-376, 378-549, 551-620)
    over the record table: saving and showing a day, the calendar of a
    month and the dashboard. */
module Handlers {
  import opened Base
  import opened FixedPoint
  import opened Dates
  import opened DateStrings
  import opened Aggregation
  import opened Records
  import opened CalendarGrid

  /** The POST branch of `handle_day`: collect the numbered form fields,
      compute the percentage of the norm and replace the day's record.
      A norm of zero raises ZeroDivisionError before the table is touched. */
  method HandleDayPost(db: RecordTable, day: string, products: map<nat, string>, grams: map<nat, int>, norm: int)
    returns (saved: Result<DayRecord>)
    requires db.Valid()
    modifies db
    ensures db.Valid()
    ensures saved.Err? <==> norm == 0
    ensures saved.Err? ==> saved.error == ZeroDivision && db.rows == old(db.rows) && db.nextId == old(db.nextId)
    ensures saved.Ok? ==> IsCollectionOf(products, grams, saved.value.items)
    ensures saved.Ok? ==> saved.value.total == SumIron(saved.value.items)
    ensures saved.Ok? ==> Percentage(saved.value.total, norm) == Ok(saved.value.percentage)
    ensures saved.Ok? ==> db.nextId == old(db.nextId) + 1
    ensures saved.Ok? ==>
              db.rows == Upserted(old(db.rows), Row(old(db.nextId), UserId, day, saved.value.total,
                                                   saved.value.percentage, saved.value.items))
    ensures AtMostOnePerKey(old(db.rows)) ==> AtMostOnePerKey(db.rows)
  {
    var items, total := CollectItems(products, grams);
    var percentage := Percentage(total, norm);
    if percentage.Err? {
      return Err(percentage.error);
    }
    ghost var before := db.rows;
    db.Delete(UserId, day);
    var id := db.Insert(UserId, day, total, percentage.value, items);
    saved := Ok(DayRecord(total, percentage.value, items));
    if AtMostOnePerKey(before) {
      UpsertKeepsKeysUnique(before, Row(id, UserId, day, total, percentage.value, items));
    }
  }

  /** The GET branch of `handle_day`: the day's stored record, if any. */
  function ShowDay(rows: seq<Row>, day: string): (r: Option<DayRecord>)
    ensures r.None? <==> forall i :: 0 <= i < |rows| ==> !HasKey(rows[i], UserId, day)
  {
    match FirstMatch(rows, UserId, day)
    case None => None
    case Some(row) => Some(DayRecord(row.total, row.percentage, row.items))
  }

  /** Showing a day right after saving it gives back what was saved, and
      showing any other day gives what it gave before. */
  lemma SaveThenShow(rows: seq<Row>, id: int, day: string, record: DayRecord, other: string)
    requires other != day
    ensures ShowDay(Upserted(rows, Row(id, UserId, day, record.total, record.percentage, record.items)), day)
              == Some(record)
    ensures ShowDay(Upserted(rows, Row(id, UserId, day, record.total, record.percentage, record.items)), other)
              == ShowDay(rows, other)
  {
    var row := Row(id, UserId, day, record.total, record.percentage, record.items);
    FirstMatchAfterUpsert(rows, row, UserId, day);
    FirstMatchAfterUpsert(rows, row, UserId, other);
  }

  /** The percentage stored for `key`, as the point query reads it. */
  function StoredPercentage(rows: seq<Row>, key: string): Option<int> {
    match FirstMatch(rows, UserId, key)
    case None => None
    case Some(row) => Some(row.percentage)
  }

  /** The dictionary `data` of `calendar_view`: the range query from
      `start_day` to the Sunday after the last day. */
  function RangeData(rows: seq<Row>, year: int, month: int): map<string, int>
    requires ValidMonth(year, month) && !(year == MaxYear && month == 12)
  {
    RangeMap(rows, UserId, Iso(WindowStartDate(year, month)), Iso(WindowEndDate(year, month)))
  }

  /** Zero-padded ISO strings compare like dates, so the text `BETWEEN` of
      the range query selects exactly the dates of the window. */
  lemma RangeQuerySelectsWindow(year: int, month: int, x: Date)
    requires ValidMonth(year, month) && !(year == MaxYear && month == 12) && Valid(x)
    ensures LexLe(Iso(WindowStartDate(year, month)), Iso(x)) && LexLe(Iso(x), Iso(WindowEndDate(year, month)))
            <==> WindowStart(year, month) <= Ordinal(x) <= WindowEnd(year, month)
  {
    IsoOrder(WindowStartDate(year, month), x);
    IsoOrder(x, WindowEndDate(year, month));
  }

  /** With one record per day, every cell of the window is classified from
      what the point lookup of its own date returns: gray or empty when
      nothing is stored (gray exactly outside the month), red above 100 %
      and green up to 100 %. */
  lemma CellReflectsStore(rows: seq<Row>, year: int, month: int, x: Date)
    requires ValidMonth(year, month) && !(year == MaxYear && month == 12)
    requires AtMostOnePerKey(rows)
    requires Valid(x) && WindowStart(year, month) <= Ordinal(x) <= WindowEnd(year, month)
    ensures CellFor(RangeData(rows, year, month), month, x).kind
              == Classify(StoredPercentage(rows, Iso(x)), !(x.year == year && x.month == month))
  {
    var lo, hi := WindowStartDate(year, month), WindowEndDate(year, month);
    IsoOrder(lo, x);
    IsoOrder(x, hi);
    RangeAgreesWithFirstMatch(rows, UserId, Iso(lo), Iso(hi), Iso(x));
    OtherMonthInWindow(year, month, x);
  }

  /** A day saved with more than 100 % shows as a red cell on its month's
      page, whatever was stored for it before. */
  lemma SavedOverLimitShowsRed(rows: seq<Row>, row: Row, x: Date)
    requires AtMostOnePerKey(rows) && Valid(x) && !(x.year == MaxYear && x.month == 12)
    requires row.userId == UserId && row.date == Iso(x) && row.percentage > 10000
    ensures CellFor(RangeData(Upserted(rows, row), x.year, x.month), x.month, x).kind == Red
  {
    UpsertKeepsKeysUnique(rows, row);
    FirstMatchAfterUpsert(rows, row, UserId, Iso(x));
    WindowShape(x.year, x.month);
    InThisMonthWindow(x);
    CellReflectsStore(Upserted(rows, row), x.year, x.month, x);
  }

  /** A date lies in its own month's window. */
  lemma InThisMonthWindow(x: Date)
    requires Valid(x)
    ensures WindowStart(x.year, x.month) <= Ordinal(x) <= WindowEnd(x.year, x.month)
  {
    WindowShape(x.year, x.month);
    SameMonth(x, 1);
    SameMonth(x, DaysInMonth(x.year, x.month));
  }

  /** The page `calendar_view` renders: the rows of cells and the targets
      of the "Previous" and "Next" links. */
  datatype CalendarPage = CalendarPage(rows: seq<seq<Cell>>, prev: (int, int), next: (int, int))

  /** `calendar_view` for the month `year`-`month`, with the row loop's
      intended break. `calendar.monthrange` rejects the month first,
      `date(year, month, 1)` then rejects the year, and the Sunday after
      9999-12-31 does not exist. */
  method CalendarView(db: RecordTable, year: int, month: int) returns (page: Result<CalendarPage>)
    ensures !(1 <= month <= 12) ==> page == Err(IllegalMonth)
    ensures 1 <= month <= 12 && !(MinYear <= year <= MaxYear) ==> page == Err(YearOutOfRange)
    ensures year == MaxYear && month == 12 ==> page == Err(Overflow)
    ensures page.Ok? <==> ValidMonth(year, month) && !(year == MaxYear && month == 12)
    ensures page.Ok? ==> IsGridFrom(page.value.rows, RangeData(db.rows, year, month), month, WindowStart(year, month))
    ensures page.Ok? ==> 7 * |page.value.rows| == WindowEnd(year, month) - WindowStart(year, month) + 1
    ensures page.Ok? ==> page.value.prev == PrevMonth(year, month) && page.value.next == NextMonth(year, month)
  {
    if !(1 <= month <= 12) {
      return Err(IllegalMonth);
    }
    if !(MinYear <= year <= MaxYear) {
      return Err(YearOutOfRange);
    }
    WindowFits(year, month);
    if year == MaxYear && month == 12 {
      return Err(Overflow);
    }
    var data := RangeData(db.rows, year, month);
    var rows := BuildGrid(data, year, month);
    page := Ok(CalendarPage(rows, PrevMonth(year, month), NextMonth(year, month)));
  }

  /** The dashboard's square icons. */
  datatype Icon = GreenSquare | RedSquare | WhiteSquare

  /** One of the five recent days: its date, its total (hundredths of a
      milligram) and percentage (tenths of a percent) if recorded, and its icon. */
  datatype RecentDay = RecentDay(date: Date, figures: Option<(int, int)>, icon: Icon)

  /** What the dashboard shows: today's figures if recorded, and the five
      days before today, the most recent first. */
  datatype Summary = Summary(today: Option<(int, int)>, recent: seq<RecentDay>)

  /** `round(total_iron, 2)` and `round(percentage, 1)`. */
  function Figures(row: Row): (f: (int, int))
    ensures f.0 == row.total
    ensures 2 * Abs(f.1 * 10 - row.percentage) <= 10
  {
    (row.total, RoundDiv(row.percentage, 10))
  }

  /** Rounded to tenths, a percentage is at most 100.0 exactly when it is
      at most 100.05: the tie 100.05 rounds to the even 100.0. */
  lemma TenthsWithinLimit(p: int)
    ensures RoundDiv(p, 10) <= 1000 <==> p <= 10005
  {
  }

  /** One entry of the recent-days loop. */
  function RecentEntry(x: Date, row: Option<Row>): (e: RecentDay)
    ensures e.date == x
    ensures e.figures.None? <==> row.None?
    ensures row.Some? ==> e.figures == Some(Figures(row.value))
    ensures e.icon == GreenSquare <==> row.Some? && row.value.percentage <= 10005
    ensures e.icon == RedSquare <==> row.Some? && row.value.percentage > 10005
    ensures e.icon == WhiteSquare <==> row.None?
  {
    if row.None? then RecentDay(x, None, WhiteSquare)
    else
      var figures := Figures(row.value);
      TenthsWithinLimit(row.value.percentage);
      RecentDay(x, Some(figures), if figures.1 <= 1000 then GreenSquare else RedSquare)
  }

  /** The dashboard and the calendar colour a recorded day differently
      exactly when its percentage is above 100 % but at most 100.05 %. */
  lemma IconAndCellDisagree(x: Date, row: Row, otherMonth: bool)
    ensures ((RecentEntry(x, Some(row)).icon == GreenSquare) != (Classify(Some(row.percentage), otherMonth) == Green))
            <==> 10000 < row.percentage <= 10005
  {
  }

  /** `dashboard` on the day `today`: today's figures from the point query
      and the five days before it; `today - timedelta(days=offset)` raises
      OverflowError when it would precede 0001-01-01. */
  method Dashboard(db: RecordTable, today: Date) returns (r: Result<Summary>)
    requires Valid(today)
    ensures r.Err? <==> Ordinal(today) <= 5
    ensures r.Err? ==> r.error == Overflow
    ensures r.Ok? ==> (r.value.today.None? <==> FirstMatch(db.rows, UserId, Iso(today)).None?)
    ensures r.Ok? && r.value.today.Some? ==> r.value.today.value == Figures(FirstMatch(db.rows, UserId, Iso(today)).value)
    ensures r.Ok? ==> |r.value.recent| == 5
    ensures r.Ok? ==> forall k :: 0 <= k < 5 ==>
              && Valid(r.value.recent[k].date)
              && Ordinal(r.value.recent[k].date) == Ordinal(today) - (k + 1)
              && r.value.recent[k] == RecentEntry(r.value.recent[k].date,
                                                  FirstMatch(db.rows, UserId, Iso(r.value.recent[k].date)))
  {
    OrdinalBounds(today);
    var todayRow := FirstMatch(db.rows, UserId, Iso(today));
    var figures := if todayRow.Some? then Some(Figures(todayRow.value)) else None;
    var recent: seq<RecentDay> := [];
    for offset := 1 to 6
      invariant Ordinal(today) >= offset
      invariant |recent| == offset - 1
      invariant forall k :: 0 <= k < |recent| ==>
                  && Valid(recent[k].date)
                  && Ordinal(recent[k].date) == Ordinal(today) - (k + 1)
                  && recent[k] == RecentEntry(recent[k].date, FirstMatch(db.rows, UserId, Iso(recent[k].date)))
    {
      if Ordinal(today) - offset < 1 {
        return Err(Overflow);
      }
      var day := AddDays(today, -offset);
      recent := recent + [RecentEntry(day, FirstMatch(db.rows, UserId, Iso(day)))];
    }
    r := Ok(Summary(figures, recent));
  }
}
