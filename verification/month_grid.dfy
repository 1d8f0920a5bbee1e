/**
 * One month's grid of day cells (`getMonthCells`): week rows of seven consecutive days, starting
 * on the default locale's first weekday on or before the 1st, with the flags each
 * `MonthCellDescriptor` is created with.
 */
module MonthGrid {
  import opened Calendar

  /** A cell's position inside a selected range. */
  datatype RangeState = NONE | FIRST | MIDDLE | LAST

  /** `MonthCellDescriptor`. */
  datatype Cell = Cell(
    date: Day,
    isCurrentMonth: bool,
    isSelectable: bool,
    isSelected: bool,
    isToday: bool,
    isHighlighted: bool,
    value: int,
    rangeState: RangeState)

  type Grid = seq<seq<Cell>>

  /** The fields of the view that `getMonthCells` reads while it builds a grid. */
  datatype GridContext = GridContext(
    minCal: Instant,
    maxCal: Instant,
    today: Day,
    highlighted: seq<Day>,
    selected: seq<Day>,
    firstDayOfWeek: DayOfWeek)

  /** `containsDate`: some listed day has the same date. */
  function ContainsDate(days: seq<Day>, d: Day): (b: bool)
    ensures b <==> d in days
  {
    if |days| == 0 then false
    else
      SameDateIsEquality(d, days[0]);
      SameDate(d, days[0]) || ContainsDate(days[1..], d)
  }

  /** `minDate`: the earliest listed day. */
  function MinDate(days: seq<Day>): (m: Day)
    requires |days| > 0
    ensures m in days && forall x :: x in days ==> m <= x
  {
    if |days| == 1 then days[0]
    else
      var rest := MinDate(days[1..]);
      assert forall x :: x in days ==> x == days[0] || x in days[1..];
      if days[0] <= rest then days[0] else rest
  }

  /** `maxDate`: the latest listed day. */
  function MaxDate(days: seq<Day>): (m: Day)
    requires |days| > 0
    ensures m in days && forall x :: x in days ==> x <= m
  {
    if |days| == 1 then days[0]
    else
      var rest := MaxDate(days[1..]);
      assert forall x :: x in days ==> x == days[0] || x in days[1..];
      if rest <= days[0] then days[0] else rest
  }

  /** The range position `getMonthCells` gives a day while two or more dates are selected. */
  function RangeOf(d: Day, selected: seq<Day>): RangeState {
    if |selected| > 1 then
      var lo := MinDate(selected);
      var hi := MaxDate(selected);
      if SameDate(lo, d) then FIRST
      else if SameDate(hi, d) then LAST
      else if BetweenDates(StartOf(d), StartOf(lo), StartOf(hi)) then MIDDLE
      else NONE
    else NONE
  }

  /** The earliest selected day is FIRST, the latest LAST, the days strictly between MIDDLE. */
  lemma RangeOfSpec(d: Day, selected: seq<Day>)
    ensures |selected| <= 1 ==> RangeOf(d, selected) == NONE
    ensures |selected| > 1 ==>
      var lo, hi := MinDate(selected), MaxDate(selected);
      && (RangeOf(d, selected) == FIRST <==> d == lo)
      && (RangeOf(d, selected) == LAST <==> d == hi && d != lo)
      && (RangeOf(d, selected) == MIDDLE <==> lo < d < hi)
      && (RangeOf(d, selected) == NONE <==> d < lo || hi < d)
  {
    if |selected| > 1 {
      var lo, hi := MinDate(selected), MaxDate(selected);
      SameDateIsEquality(lo, d);
      SameDateIsEquality(hi, d);
    }
  }

  /**
   * How far before the 1st the grid starts: `firstDayOfWeek - DAY_OF_WEEK(1st)`, moved into
   * (-7, 0] so that the first row starts on the first weekday on or before the 1st.
   */
  function StartOffset(k: MonthKey, firstDayOfWeek: DayOfWeek): (offset: int)
    ensures -7 < offset <= 0
    ensures Weekday(FirstOf(k) + offset) == firstDayOfWeek
  {
    var first := FirstOf(k);
    WeekdayOffset(first, firstDayOfWeek);
    OffsetTo(Weekday(first), firstDayOfWeek)
  }

  function OffsetTo(weekday: DayOfWeek, firstDayOfWeek: DayOfWeek): int {
    var offset := firstDayOfWeek - weekday;
    if offset > 0 then offset - 7 else offset
  }

  lemma WeekdayOffset(n: Day, firstDayOfWeek: DayOfWeek)
    ensures -7 < OffsetTo(Weekday(n), firstDayOfWeek) <= 0
    ensures Weekday(n + OffsetTo(Weekday(n), firstDayOfWeek)) == firstDayOfWeek
  {
  }

  function GridStart(k: MonthKey, firstDayOfWeek: DayOfWeek): Day {
    FirstOf(k) + StartOffset(k, firstDayOfWeek)
  }

  /** The cell `getMonthCells` creates for day `d` while building month `k`. */
  function MakeCell(k: MonthKey, d: Day, ctx: GridContext): Cell {
    var dt := Civil(d);
    var isCurrentMonth := dt.month == k.month;
    Cell(
      d,
      isCurrentMonth,
      isCurrentMonth && BetweenDates(StartOf(d), ctx.minCal, ctx.maxCal),
      isCurrentMonth && ContainsDate(ctx.selected, d),
      SameDate(d, ctx.today),
      ContainsDate(ctx.highlighted, d),
      dt.day,
      RangeOf(d, ctx.selected))
  }

  /** One week row: the seven days `s .. s + 6`. */
  function WeekDays(s: Day): seq<Day> {
    seq(7, c requires 0 <= c < 7 => s + c)
  }

  /** The row loop's guard: the row's first day is not past month `k` (by month, then year). */
  predicate RowContinues(k: MonthKey, s: Day) {
    var dt := Civil(s);
    (dt.month < k.month + 1 || dt.year < k.year) && dt.year <= k.year
  }

  /** The guard holds exactly while the row starts before the first day of the next month. */
  lemma RowContinuesIff(k: MonthKey, s: Day)
    ensures RowContinues(k, s) <==> s < FirstOf(NextMonth(k))
  {
    var ks := KeyOf(s);
    assert RowContinues(k, s) <==> Ordinal(ks) <= Ordinal(k);
    KeyOfIff(s, ks);
    NextMonthOrdinal(k);
    if Ordinal(ks) <= Ordinal(k) {
      if Ordinal(ks) < Ordinal(NextMonth(k)) {
        FirstOfMonotone(ks, NextMonth(k));
      }
    } else {
      OrdinalOrderIsDayOrder(NextMonth(k), ks);
    }
  }

  /** The days of the row loop, row by row, from row start `s` on. */
  function DayRows(k: MonthKey, s: Day): seq<seq<Day>>
    decreases FirstOf(NextMonth(k)) - s
  {
    RowContinuesIff(k, s);
    if RowContinues(k, s) then [WeekDays(s)] + DayRows(k, s + 7) else []
  }

  /** The number of rows starting at `s`, `s + 7`, ... before day `end`. */
  function RowCount(s: Day, end: Day): nat {
    if s < end then (end - s - 1) / 7 + 1 else 0
  }

  /** Row `i` holds the seven days from `s + 7 * i`, and rows stop before the next month. */
  lemma {:induction false} DayRowsShape(k: MonthKey, s: Day)
    ensures var g := DayRows(k, s);
      && |g| == RowCount(s, FirstOf(NextMonth(k)))
      && (forall i :: 0 <= i < |g| ==> |g[i]| == 7)
      && (forall i, c :: 0 <= i < |g| && 0 <= c < 7 ==> g[i][c] == s + 7 * i + c)
    decreases FirstOf(NextMonth(k)) - s
  {
    RowContinuesIff(k, s);
    if RowContinues(k, s) {
      DayRowsShape(k, s + 7);
      var g := DayRows(k, s);
      var tail := DayRows(k, s + 7);
      assert g == [WeekDays(s)] + tail;
      forall i, c | 0 <= i < |g| && 0 <= c < 7
        ensures g[i][c] == s + 7 * i + c
      {
        if i > 0 {
          assert g[i] == tail[i - 1];
        }
      }
    }
  }

  /** A grid spans 28 to 37 days up to the next month's 1st, so it has four to six rows. */
  lemma GridRowCount(k: MonthKey, firstDayOfWeek: DayOfWeek)
    ensures 4 <= RowCount(GridStart(k, firstDayOfWeek), FirstOf(NextMonth(k))) <= 6
  {
    var s, end := GridStart(k, firstDayOfWeek), FirstOf(NextMonth(k));
    NextMonthFirst(k);
    MonthLengthBounds(k);
    assert 28 <= end - s <= 37;
    RowCountBounds(s, end);
  }

  lemma RowCountBounds(s: Day, end: Day)
    requires 28 <= end - s <= 37
    ensures 4 <= RowCount(s, end) <= 6
  {
  }

  /** `getMonthCells`: the week rows of month `k`, each cell made from its day. */
  function MonthCells(k: MonthKey, ctx: GridContext): (g: Grid)
    ensures 4 <= |g| <= 6
    ensures forall i :: 0 <= i < |g| ==> |g[i]| == 7
  {
    GridRowCount(k, ctx.firstDayOfWeek);
    CellsFrom(k, GridStart(k, ctx.firstDayOfWeek), ctx)
  }

  /** The rows of the row loop started at day `s`, each cell made from its day. */
  function CellsFrom(k: MonthKey, s: Day, ctx: GridContext): (g: Grid)
    ensures |g| == RowCount(s, FirstOf(NextMonth(k)))
    ensures forall i :: 0 <= i < |g| ==> |g[i]| == 7
  {
    var rows := DayRows(k, s);
    DayRowsShape(k, s);
    seq(|rows|, i requires 0 <= i < |rows| =>
      seq(7, c requires 0 <= c < 7 => MakeCell(k, rows[i][c], ctx)))
  }

  lemma CellsFromAt(k: MonthKey, s: Day, ctx: GridContext, i: int, c: int)
    requires 0 <= i < |CellsFrom(k, s, ctx)| && 0 <= c < 7
    ensures CellsFrom(k, s, ctx)[i][c] == MakeCell(k, s + 7 * i + c, ctx)
  {
    DayRowsShape(k, s);
    var d := DayRows(k, s)[i][c];
    assert d == s + 7 * i + c;
    assert CellsFrom(k, s, ctx)[i][c] == MakeCell(k, d, ctx);
  }

  /** Cell `c` of row `i` is the cell for day `GridStart + 7 * i + c`: rows hold consecutive days. */
  lemma MonthCellAt(k: MonthKey, ctx: GridContext, i: int, c: int)
    requires 0 <= i < |MonthCells(k, ctx)| && 0 <= c < 7
    ensures MonthCells(k, ctx)[i][c] == MakeCell(k, GridStart(k, ctx.firstDayOfWeek) + 7 * i + c, ctx)
  {
    CellsFromAt(k, GridStart(k, ctx.firstDayOfWeek), ctx, i, c);
  }

  /** Every row starts before the next month; one more row would start in it. */
  lemma RowCountSpec(s: Day, end: Day)
    requires s < end
    ensures s + 7 * (RowCount(s, end) - 1) < end <= s + 7 * RowCount(s, end)
  {
  }

  /**
   * The grid's first cell is the default locale's first weekday on or before the 1st, its last row
   * starts in month `k`, and a further row would start in the next month.
   */
  lemma GridBounds(k: MonthKey, ctx: GridContext)
    ensures var s, g := GridStart(k, ctx.firstDayOfWeek), MonthCells(k, ctx);
      && s <= FirstOf(k) < s + 7
      && Weekday(s) == ctx.firstDayOfWeek
      && |g| == RowCount(s, FirstOf(NextMonth(k)))
      && s + 7 * (|g| - 1) < FirstOf(NextMonth(k)) <= s + 7 * |g|
  {
    var s := GridStart(k, ctx.firstDayOfWeek);
    DayRowsShape(k, s);
    NextMonthFirst(k);
    MonthLengthBounds(k);
    RowCountSpec(s, FirstOf(NextMonth(k)));
  }

  /** A day in `[s, end)`, with `end` within `rows` weeks of `s`, sits at row `i`, column `c`. */
  lemma CoverIndex(s: int, d: int, end: int, rows: int) returns (i: int, c: int)
    requires s <= d < end <= s + 7 * rows
    ensures 0 <= i < rows && 0 <= c < 7 && s + 7 * i + c == d
  {
    i, c := (d - s) / 7, (d - s) % 7;
  }

  /** Every day of month `k` appears in its grid, selectable exactly when it is within the bounds. */
  lemma GridCoversSelectable(k: MonthKey, ctx: GridContext, g: Grid, d: Day)
    requires KeyOf(d) == k && g == MonthCells(k, ctx)
    ensures exists i, c ::
      && 0 <= i < |g| && 0 <= c < |g[i]|
      && g[i][c].date == d
      && (g[i][c].isSelectable <==> BetweenDates(StartOf(d), ctx.minCal, ctx.maxCal))
  {
    var s := GridStart(k, ctx.firstDayOfWeek);
    assert s <= d < FirstOf(NextMonth(k)) <= s + 7 * |g| by {
      KeyOfIff(d, k); GridBounds(k, ctx); NextMonthFirst(k);
    }
    var i, c := CoverIndex(s, d, FirstOf(NextMonth(k)), |g|);
    GridCell(k, ctx, i, c);
  }

  /** What each flag of a cell near month `k` means. */
  lemma MakeCellSpec(k: MonthKey, d: Day, ctx: GridContext)
    requires FirstOf(k) - 7 < d < FirstOf(NextMonth(k)) + 7
    ensures var cell := MakeCell(k, d, ctx);
      && cell.date == d
      && (cell.isCurrentMonth <==> KeyOf(d) == k)
      && (cell.isSelectable <==> KeyOf(d) == k && BetweenDates(StartOf(d), ctx.minCal, ctx.maxCal))
      && (cell.isSelected <==> KeyOf(d) == k && d in ctx.selected)
      && (cell.isToday <==> d == ctx.today)
      && (cell.isHighlighted <==> d in ctx.highlighted)
      && cell.value == Civil(d).day
      && cell.rangeState == RangeOf(d, ctx.selected)
  {
    NearbyMonthField(k, d);
    SameDateIsEquality(d, ctx.today);
  }

  /** Every day a grid shows lies within a week of its month. */
  lemma GridCellBounds(k: MonthKey, ctx: GridContext, i: int, c: int)
    requires 0 <= i < |MonthCells(k, ctx)| && 0 <= c < 7
    ensures FirstOf(k) - 7 < GridStart(k, ctx.firstDayOfWeek) + 7 * i + c < FirstOf(NextMonth(k)) + 7
  {
    GridBounds(k, ctx);
  }

  /** What the month and bound flags of a laid-out descriptor mean. */
  lemma GridCell(k: MonthKey, ctx: GridContext, i: int, c: int)
    requires 0 <= i < |MonthCells(k, ctx)| && 0 <= c < 7
    ensures var cell := MonthCells(k, ctx)[i][c];
      && cell.date == GridStart(k, ctx.firstDayOfWeek) + 7 * i + c
      && (cell.isCurrentMonth <==> KeyOf(cell.date) == k)
      && (cell.isSelectable <==> KeyOf(cell.date) == k && BetweenDates(StartOf(cell.date), ctx.minCal, ctx.maxCal))
  {
    var d := GridStart(k, ctx.firstDayOfWeek) + 7 * i + c;
    assert MonthCells(k, ctx)[i][c] == MakeCell(k, d, ctx) by {
      MonthCellAt(k, ctx, i, c);
    }
    assert FirstOf(k) - 7 < d < FirstOf(NextMonth(k)) + 7 by {
      GridCellBounds(k, ctx, i, c);
    }
    CellFlags(MonthCells(k, ctx)[i][c], k, d, ctx);
  }

  lemma CellFlags(cell: Cell, k: MonthKey, d: Day, ctx: GridContext)
    requires cell == MakeCell(k, d, ctx) && FirstOf(k) - 7 < d < FirstOf(NextMonth(k)) + 7
    ensures cell.date == d
    ensures cell.isCurrentMonth <==> KeyOf(d) == k
    ensures cell.isSelectable <==> KeyOf(d) == k && BetweenDates(StartOf(d), ctx.minCal, ctx.maxCal)
  {
    MakeCellSpec(k, d, ctx);
  }

  /** A grid laid out with nothing selected has no selected descriptor and no range mark. */
  lemma GridCellUnselected(k: MonthKey, ctx: GridContext, i: int, c: int)
    requires 0 <= i < |MonthCells(k, ctx)| && 0 <= c < 7
    requires ctx.selected == []
    ensures !MonthCells(k, ctx)[i][c].isSelected && MonthCells(k, ctx)[i][c].rangeState == NONE
  {
    MonthCellAt(k, ctx, i, c);
  }

}
