/**
 * `CalendarMainView.init`: validate the bounds, normalise them to midnight, move the exclusive
 * upper bound back one minute, and build one grid per month from the month of `minCal` to the
 * month of `maxCal`.
 */
module CalendarView {
  import opened Wrappers
  import opened Calendar
  import opened IndexedMap
  import opened MonthGrid
  import opened CellStore

  /** The conditions under which the view throws `IllegalArgumentException` (or dereferences null). */
  datatype Error =
    | NullBound      // init: minDate or maxDate is null
    | MinAfterMax    // init: minDate is after maxDate
    | NullDate       // validateDate: the selected date is null
    | OutOfRange     // validateDate: before minCal or after maxCal
    | TooManyDates   // withSelectedDates: more than two dates
    | MissingMonth   // getMonthCellWithIndexByDate / doSelectDate: the month key is not in `cells`

  /**
   * The fields of the view the date logic reads and writes. `selectedCals` holds the selected
   * days (each normalised to midnight), `selectedCells` references to the selected descriptors.
   */
  datatype Picker = Picker(
    minCal: Instant,
    maxCal: Instant,
    today: Day,
    firstDayOfWeek: DayOfWeek,
    cells: Months,
    selectedCals: seq<Day>,
    selectedCells: seq<CellRef>)

  /** The first selectable day. */
  function MinDay(p: Picker): Day {
    DayOf(p.minCal)
  }

  /** The first day after the last selectable one: `maxCal` lies one minute before its midnight. */
  function MaxDay(p: Picker): Day {
    DayOf(p.maxCal) + 1
  }

  /**
   * What `getMonthCells` reads while `init` runs: both selection lists have just been cleared, and
   * nothing in the view ever adds to `highlightedCals`.
   */
  function InitContext(minDay: Day, maxDay: Day, today: Day, firstDayOfWeek: DayOfWeek): GridContext {
    GridContext(StartOf(minDay), StartOf(maxDay) - MS_PER_MINUTE, today, [], [], firstDayOfWeek)
  }

  /** The condition of the `init` month loop, as written: month, year and the bounds of `maxCal`. */
  predicate MonthLoopContinues(counter: MonthKey, maxMonth: int, maxYear: int) {
    (counter.month <= maxMonth || counter.year < maxYear) && counter.year < maxYear + 1
  }

  /** The loop condition is exactly "the counter's month is not after the last month". */
  lemma MonthLoopContinuesIff(counter: MonthKey, last: MonthKey)
    ensures MonthLoopContinues(counter, last.month, last.year) <==> Ordinal(counter) <= Ordinal(last)
  {
  }

  /** How many months lie from `first` to `last`, both included. */
  function MonthSpan(first: MonthKey, last: MonthKey): nat {
    if Ordinal(first) <= Ordinal(last) then Ordinal(last) - Ordinal(first) + 1 else 0
  }

  /** Entry `i` of `cells` is the `i`-th month from `first`, with the grid `getMonthCells` builds for it. */
  predicate BuiltMonth(cells: Months, i: int, first: MonthKey, ctx: GridContext)
    requires 0 <= i < |cells|
  {
    Ordinal(cells[i].0) == Ordinal(first) + i && cells[i].1 == MonthCells(cells[i].0, ctx)
  }

  /**
   * The `init` month loop from `counter` on: put the month's grid under its key, then advance the
   * counter by one month, while the loop condition holds. The months already put are the ones
   * from `first` up to just before `counter`, so each `put` appends a new key.
   */
  function MonthLoop(cells: Months, first: MonthKey, counter: MonthKey, last: MonthKey, ctx: GridContext)
    : (out: Months)
    requires Ordinal(counter) == Ordinal(first) + |cells|
    requires forall i :: 0 <= i < |cells| ==> BuiltMonth(cells, i, first, ctx)
    ensures |out| == |cells| + MonthSpan(counter, last)
    ensures forall i :: 0 <= i < |out| ==> BuiltMonth(out, i, first, ctx)
    decreases Ordinal(last) - Ordinal(counter) + 1
  {
    MonthLoopContinuesIff(counter, last);
    if MonthLoopContinues(counter, last.month, last.year) then
      var g := MonthCells(counter, ctx);
      var next := Put(cells, counter, g);
      assert next == cells + [(counter, g)] by {
        assert counter !in Keys(cells) by {
          forall i | 0 <= i < |cells|
            ensures cells[i].0 != counter
          {
            assert BuiltMonth(cells, i, first, ctx);
          }
        }
      }
      assert forall i :: 0 <= i < |next| ==> BuiltMonth(next, i, first, ctx) by {
        forall i | 0 <= i < |next|
          ensures BuiltMonth(next, i, first, ctx)
        {
          if i < |cells| {
            assert BuiltMonth(cells, i, first, ctx);
          }
        }
      }
      NextMonthOrdinal(counter);
      MonthLoop(next, first, NextMonth(counter), last, ctx)
    else
      cells
  }

  lemma SpanIndex(first: MonthKey, k: MonthKey, last: MonthKey)
    requires Ordinal(first) <= Ordinal(k) <= Ordinal(last)
    ensures 0 <= Ordinal(k) - Ordinal(first) < MonthSpan(first, last)
  {
  }

  /**
   * `cells` is what the `init` loop builds for the days `[minDay, maxDay)`: one entry per month from
   * the month of `minDay` to the month of `maxDay - 1`, each with its grid.
   */
  ghost predicate LaysOut(cells: Months, minDay: Day, maxDay: Day, today: Day, firstDayOfWeek: DayOfWeek) {
    var ctx := InitContext(minDay, maxDay, today, firstDayOfWeek);
    && |cells| == MonthSpan(KeyOf(minDay), KeyOf(maxDay - 1))
    && forall i :: 0 <= i < |cells| ==> BuiltMonth(cells, i, KeyOf(minDay), ctx)
  }

  /**
   * The bounds of `p` are a midnight and one minute before a midnight, and its grids differ from
   * the ones `init` built for those bounds at most in selection flags.
   */
  ghost predicate LaidOut(p: Picker) {
    && p.minCal == StartOf(MinDay(p))
    && p.maxCal == StartOf(MaxDay(p)) - MS_PER_MINUTE
    && exists base :: LaysOut(base, MinDay(p), MaxDay(p), p.today, p.firstDayOfWeek) && SameLayout(p.cells, base)
  }

  /**
   * `init(minDate, maxDate)`, with instants on the configured zone's clock and `today` and the
   * default locale's first weekday as inputs. Null bounds and a `minDate` after `maxDate` are
   * rejected before any state is built.
   */
  function Init(minDate: Option<Instant>, maxDate: Option<Instant>, today: Day, firstDayOfWeek: DayOfWeek)
    : (r: Result<Picker, Error>)
    ensures r.Failure? <==> minDate.None? || maxDate.None? || minDate.value > maxDate.value
    ensures r.Failure? ==> r.error == if minDate.None? || maxDate.None? then NullBound else MinAfterMax
    ensures r.Success? ==>
      && r.value.minCal <= minDate.value < r.value.minCal + MS_PER_DAY
      && r.value.maxCal + MS_PER_MINUTE <= maxDate.value < r.value.maxCal + MS_PER_MINUTE + MS_PER_DAY
  {
    if minDate.None? || maxDate.None? then Failure(NullBound)
    else if minDate.value > maxDate.value then Failure(MinAfterMax)
    else
      var minCal := Midnight(minDate.value);
      var maxCal := Midnight(maxDate.value) - MS_PER_MINUTE;
      Success(Picker(minCal, maxCal, today, firstDayOfWeek, InitCells(minCal, maxCal, today, firstDayOfWeek), [], []))
  }

  /**
   * The month loop of `init`, run from the month of `minCal` while the month of `maxCal` is not
   * passed, with both selection lists empty.
   */
  function InitCells(minCal: Instant, maxCal: Instant, today: Day, firstDayOfWeek: DayOfWeek): Months {
    var first := KeyOf(DayOf(minCal));
    MonthLoop([], first, first, KeyOf(DayOf(maxCal)), GridContext(minCal, maxCal, today, [], [], firstDayOfWeek))
  }

  /** With midnight bounds, `init`'s loop lays out the months of `[minDay, maxDay)`. */
  lemma InitCellsLayOut(minDay: Day, maxDay: Day, today: Day, firstDayOfWeek: DayOfWeek)
    ensures LaysOut(InitCells(StartOf(minDay), StartOf(maxDay) - MS_PER_MINUTE, today, firstDayOfWeek),
                    minDay, maxDay, today, firstDayOfWeek)
  {
    DayOfStart(minDay);
    MinuteBeforeMidnight(maxDay);
  }

  /**
   * After `init`, the selectable days are those from the day of `minDate` up to, not including,
   * the day of `maxDate`; the grids are the months of those days, and nothing is selected.
   */
  lemma InitLaysOut(minDate: Option<Instant>, maxDate: Option<Instant>, today: Day, firstDayOfWeek: DayOfWeek)
    requires Init(minDate, maxDate, today, firstDayOfWeek).Success?
    ensures var p := Init(minDate, maxDate, today, firstDayOfWeek).value;
      && MinDay(p) == DayOf(minDate.value) && MaxDay(p) == DayOf(maxDate.value)
      && LaysOut(p.cells, MinDay(p), MaxDay(p), today, firstDayOfWeek)
      && LaidOut(p)
      && p.selectedCals == [] && p.selectedCells == []
  {
    var p := Init(minDate, maxDate, today, firstDayOfWeek).value;
    var minDay, maxDay := DayOf(minDate.value), DayOf(maxDate.value);
    assert p.minCal == StartOf(minDay) && p.maxCal == StartOf(maxDay) - MS_PER_MINUTE;
    DayOfStart(minDay);
    MinuteBeforeMidnight(maxDay);
    InitCellsLayOut(minDay, maxDay, today, firstDayOfWeek);
    assert SameLayout(p.cells, p.cells);
  }

  /**
   * The months `init` lays out run consecutively from the month of `minDay` to the month of the
   * last selectable day `maxDay - 1`; none is in a year after that day's year, and no key repeats.
   */
  lemma LayoutMonths(cells: Months, minDay: Day, maxDay: Day, today: Day, firstDayOfWeek: DayOfWeek)
    requires LaysOut(cells, minDay, maxDay, today, firstDayOfWeek)
    ensures var first, last := KeyOf(minDay), KeyOf(maxDay - 1);
      && |cells| == MonthSpan(first, last)
      && (forall i :: 0 <= i < |cells| ==> Ordinal(cells[i].0) == Ordinal(first) + i)
      && (forall i :: 0 <= i < |cells| ==> cells[i].0.year <= last.year)
      && DistinctKeys(cells)
  {
    var first, last := KeyOf(minDay), KeyOf(maxDay - 1);
    var ctx := InitContext(minDay, maxDay, today, firstDayOfWeek);
    forall i | 0 <= i < |cells|
      ensures Ordinal(cells[i].0) == Ordinal(first) + i
    {
      assert BuiltMonth(cells, i, first, ctx);
    }
    forall i, j | 0 <= i < j < |cells|
      ensures cells[i].0 != cells[j].0
    {
      assert Ordinal(cells[i].0) != Ordinal(cells[j].0);
    }
  }

  /** The entry built at position `i` holds the month `i` months after `first`, with its grid. */
  lemma BuiltMonthAt(cells: Months, i: int, first: MonthKey, ctx: GridContext, k: MonthKey)
    requires 0 <= i < |cells| && BuiltMonth(cells, i, first, ctx)
    requires Ordinal(k) == Ordinal(first) + i
    ensures cells[i].0 == k && cells[i].1 == MonthCells(k, ctx)
  {
    OrdinalInjective(cells[i].0, k);
  }

  /** A selectable day's month is in the layout, at position `Ordinal(KeyOf(d)) - Ordinal(KeyOf(minDay))`. */
  lemma LayoutMonthOf(cells: Months, minDay: Day, maxDay: Day, today: Day, firstDayOfWeek: DayOfWeek, d: Day)
    requires LaysOut(cells, minDay, maxDay, today, firstDayOfWeek)
    requires minDay <= d < maxDay
    ensures var i := Ordinal(KeyOf(d)) - Ordinal(KeyOf(minDay));
      && 0 <= i < |cells|
      && cells[i].0 == KeyOf(d)
      && cells[i].1 == MonthCells(KeyOf(d), InitContext(minDay, maxDay, today, firstDayOfWeek))
  {
    var i := Ordinal(KeyOf(d)) - Ordinal(KeyOf(minDay));
    assert 0 <= i < |cells| by {
      KeyOfMonotone(minDay, d);
      KeyOfMonotone(d, maxDay - 1);
      SpanIndex(KeyOf(minDay), KeyOf(d), KeyOf(maxDay - 1));
    }
    BuiltMonthAt(cells, i, KeyOf(minDay), InitContext(minDay, maxDay, today, firstDayOfWeek), KeyOf(d));
  }

  /** A day shown selectable somewhere in the grid of month `m` has a valid reference. */
  lemma CellInMonth(cells: Months, m: int, k: MonthKey, d: Day)
    requires 0 <= m < |cells| && cells[m].0 == k
    requires exists i, c ::
      && 0 <= i < |cells[m].1| && 0 <= c < |cells[m].1[i]|
      && cells[m].1[i][c].date == d && cells[m].1[i][c].isSelectable
    ensures exists r ::
      && ValidRef(cells, r)
      && r.month == m
      && cells[r.month].0 == k
      && CellAt(cells, r).date == d
      && CellAt(cells, r).isSelectable
  {
    var g: Grid := cells[m].1;
    var i: int, c: int :| 0 <= i < |g| && 0 <= c < |g[i]| && g[i][c].date == d && g[i][c].isSelectable;
    assert ValidRef(cells, CellRef(m, i, c));
  }

  /**
   * Every selectable day has a selectable cell, in the month at position
   * `Ordinal(KeyOf(d)) - Ordinal(KeyOf(minDay))`, which is the month stored under `KeyOf(d)`.
   */
  lemma LayoutCovers(cells: Months, minDay: Day, maxDay: Day, today: Day, firstDayOfWeek: DayOfWeek, d: Day)
    requires LaysOut(cells, minDay, maxDay, today, firstDayOfWeek)
    requires minDay <= d < maxDay
    ensures exists r ::
      && ValidRef(cells, r)
      && r.month == Ordinal(KeyOf(d)) - Ordinal(KeyOf(minDay))
      && cells[r.month].0 == KeyOf(d)
      && CellAt(cells, r).date == d
      && CellAt(cells, r).isSelectable
  {
    var ctx := InitContext(minDay, maxDay, today, firstDayOfWeek);
    var k := KeyOf(d);
    var m := Ordinal(k) - Ordinal(KeyOf(minDay));
    assert 0 <= m < |cells| && cells[m].0 == k && cells[m].1 == MonthCells(k, ctx) by {
      LayoutMonthOf(cells, minDay, maxDay, today, firstDayOfWeek, d);
    }
    assert exists i, c ::
      && 0 <= i < |cells[m].1| && 0 <= c < |cells[m].1[i]|
      && cells[m].1[i][c].date == d && cells[m].1[i][c].isSelectable
    by {
      BetweenMidnights(d, minDay, maxDay);
      GridCoversSelectable(k, ctx, cells[m].1, d);
    }
    CellInMonth(cells, m, k, d);
  }

  /**
   * A selectable cell of the layout lies in its own month, which is the month the layout stores it
   * under, and its day is in `[minDay, maxDay)`.
   */
  lemma LayoutSelectable(cells: Months, minDay: Day, maxDay: Day, today: Day, firstDayOfWeek: DayOfWeek, r: CellRef)
    requires LaysOut(cells, minDay, maxDay, today, firstDayOfWeek)
    requires ValidRef(cells, r) && CellAt(cells, r).isSelectable
    ensures var c := CellAt(cells, r);
      && c.isCurrentMonth
      && KeyOf(c.date) == cells[r.month].0
      && minDay <= c.date < maxDay
  {
    var ctx := InitContext(minDay, maxDay, today, firstDayOfWeek);
    assert BuiltMonth(cells, r.month, KeyOf(minDay), ctx);
    GridCell(cells[r.month].0, ctx, r.row, r.col);
    BetweenMidnights(CellAt(cells, r).date, minDay, maxDay);
  }

  /** Right after `init` no cell is selected and no cell is part of a range. */
  lemma LayoutUnselected(cells: Months, minDay: Day, maxDay: Day, today: Day, firstDayOfWeek: DayOfWeek, r: CellRef)
    requires LaysOut(cells, minDay, maxDay, today, firstDayOfWeek)
    requires ValidRef(cells, r)
    ensures !CellAt(cells, r).isSelected && CellAt(cells, r).rangeState == NONE
  {
    var ctx := InitContext(minDay, maxDay, today, firstDayOfWeek);
    assert BuiltMonth(cells, r.month, KeyOf(minDay), ctx);
    GridCellUnselected(cells[r.month].0, ctx, r.row, r.col);
  }

  /** Two positions `7 * row + col` with columns in `[0, 7)` agree only when rows and columns do. */
  lemma WeekPositionUnique(row1: int, col1: int, row2: int, col2: int)
    requires 0 <= col1 < 7 && 0 <= col2 < 7 && 7 * row1 + col1 == 7 * row2 + col2
    ensures row1 == row2 && col1 == col2
  {
  }

  /** After `init`, a day has at most one selectable cell: the search for it cannot pick a wrong one. */
  lemma LayoutUnique(cells: Months, minDay: Day, maxDay: Day, today: Day, firstDayOfWeek: DayOfWeek,
                     r1: CellRef, r2: CellRef)
    requires LaysOut(cells, minDay, maxDay, today, firstDayOfWeek)
    requires ValidRef(cells, r1) && CellAt(cells, r1).isSelectable
    requires ValidRef(cells, r2) && CellAt(cells, r2).isSelectable
    requires CellAt(cells, r1).date == CellAt(cells, r2).date
    ensures r1 == r2
  {
    var ctx := InitContext(minDay, maxDay, today, firstDayOfWeek);
    assert r1.month == r2.month by {
      LayoutSelectable(cells, minDay, maxDay, today, firstDayOfWeek, r1);
      LayoutSelectable(cells, minDay, maxDay, today, firstDayOfWeek, r2);
      assert BuiltMonth(cells, r1.month, KeyOf(minDay), ctx);
      assert BuiltMonth(cells, r2.month, KeyOf(minDay), ctx);
    }
    var k := cells[r1.month].0;
    assert BuiltMonth(cells, r1.month, KeyOf(minDay), ctx);
    assert |cells[r1.month].1[r1.row]| == 7 && |cells[r1.month].1[r2.row]| == 7;
    GridCell(k, ctx, r1.row, r1.col);
    GridCell(k, ctx, r2.row, r2.col);
    WeekPositionUnique(r1.row, r1.col, r2.row, r2.col);
  }

  /** A picker whose grids have the layout `init` built: one such layout and its difference from it. */
  lemma LaidOutBase(p: Picker) returns (base: Months)
    requires LaidOut(p)
    ensures LaysOut(base, MinDay(p), MaxDay(p), p.today, p.firstDayOfWeek)
    ensures SameLayout(p.cells, base)
  {
    base :| LaysOut(base, MinDay(p), MaxDay(p), p.today, p.firstDayOfWeek) && SameLayout(p.cells, base);
  }

  /** Changing only selection flags, and none of the bounds or settings, keeps a picker laid out. */
  lemma LaidOutKeep(p: Picker, q: Picker)
    requires LaidOut(p) && SameLayout(q.cells, p.cells)
    requires q.minCal == p.minCal && q.maxCal == p.maxCal
    requires q.today == p.today && q.firstDayOfWeek == p.firstDayOfWeek
    ensures LaidOut(q)
  {
    var base := LaidOutBase(p);
    SameLayoutTrans(q.cells, p.cells, base);
    assert LaysOut(base, MinDay(q), MaxDay(q), q.today, q.firstDayOfWeek);
  }

  /** Selection flags aside, a cell of a laid-out picker is the cell `init` built at that place. */
  lemma LaidOutCell(p: Picker, base: Months, q: CellRef)
    requires SameLayout(p.cells, base) && ValidRef(p.cells, q)
    ensures ValidRef(base, q) && p.cells[q.month].0 == base[q.month].0
    ensures var c, b := CellAt(p.cells, q), CellAt(base, q);
      c.date == b.date && c.isCurrentMonth == b.isCurrentMonth && c.isSelectable == b.isSelectable
  {
    SameShapeRefs(p.cells, base, q);
    assert Strip(CellAt(p.cells, q)) == Strip(CellAt(base, q));
  }

  /** The months of a laid-out picker run consecutively from the month of its first selectable day. */
  lemma PickerMonths(p: Picker)
    requires LaidOut(p)
    ensures var first, last := KeyOf(MinDay(p)), KeyOf(MaxDay(p) - 1);
      && |p.cells| == MonthSpan(first, last)
      && (forall i :: 0 <= i < |p.cells| ==> Ordinal(p.cells[i].0) == Ordinal(first) + i)
      && DistinctKeys(p.cells)
  {
    var base := LaidOutBase(p);
    LayoutMonths(base, MinDay(p), MaxDay(p), p.today, p.firstDayOfWeek);
  }

  /** `getIndexOfKey` finds the month of every selectable day, at its distance from the first month. */
  lemma PickerMonthIndex(p: Picker, d: Day)
    requires LaidOut(p) && MinDay(p) <= d < MaxDay(p)
    ensures IndexOfKey(p.cells, KeyOf(d)) == Some(Ordinal(KeyOf(d)) - Ordinal(KeyOf(MinDay(p))))
  {
    var i := Ordinal(KeyOf(d)) - Ordinal(KeyOf(MinDay(p)));
    assert 0 <= i < |p.cells| && p.cells[i].0 == KeyOf(d) by {
      var base := LaidOutBase(p);
      LayoutMonthOf(base, MinDay(p), MaxDay(p), p.today, p.firstDayOfWeek, d);
    }
    assert DistinctKeys(p.cells) by {
      PickerMonths(p);
    }
    IndexOfDistinct(p.cells, i);
  }

  /** A selectable cell of a laid-out picker is in its own month, stored under that month, and in range. */
  lemma PickerSelectable(p: Picker, q: CellRef)
    requires LaidOut(p) && ValidRef(p.cells, q) && CellAt(p.cells, q).isSelectable
    ensures var c := CellAt(p.cells, q);
      && c.isCurrentMonth
      && KeyOf(c.date) == p.cells[q.month].0
      && MinDay(p) <= c.date < MaxDay(p)
  {
    var base := LaidOutBase(p);
    LaidOutCell(p, base, q);
    LayoutSelectable(base, MinDay(p), MaxDay(p), p.today, p.firstDayOfWeek, q);
  }

  /** Every selectable day of a laid-out picker has a selectable cell in the month stored under its key. */
  lemma PickerCovers(p: Picker, d: Day)
    requires LaidOut(p) && MinDay(p) <= d < MaxDay(p)
    ensures exists r ::
      && ValidRef(p.cells, r)
      && r.month == Ordinal(KeyOf(d)) - Ordinal(KeyOf(MinDay(p)))
      && CellAt(p.cells, r).date == d
      && CellAt(p.cells, r).isSelectable
  {
    var base := LaidOutBase(p);
    LayoutCovers(base, MinDay(p), MaxDay(p), p.today, p.firstDayOfWeek, d);
    var r :| ValidRef(base, r)
      && r.month == Ordinal(KeyOf(d)) - Ordinal(KeyOf(MinDay(p)))
      && CellAt(base, r).date == d
      && CellAt(base, r).isSelectable;
    SameShapeRefs(p.cells, base, r);
    LaidOutCell(p, base, r);
  }

  /** In a laid-out picker no two selectable cells show the same day. */
  lemma PickerUnique(p: Picker, r1: CellRef, r2: CellRef)
    requires LaidOut(p)
    requires ValidRef(p.cells, r1) && CellAt(p.cells, r1).isSelectable
    requires ValidRef(p.cells, r2) && CellAt(p.cells, r2).isSelectable
    requires CellAt(p.cells, r1).date == CellAt(p.cells, r2).date
    ensures r1 == r2
  {
    var base := LaidOutBase(p);
    LaidOutCell(p, base, r1);
    LaidOutCell(p, base, r2);
    LayoutUnique(base, MinDay(p), MaxDay(p), p.today, p.firstDayOfWeek, r1, r2);
  }
}
