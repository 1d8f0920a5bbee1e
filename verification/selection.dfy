/**
 * The selection half of `CalendarMainView` in RANGE mode: `selectDate`, `validateDate`,
 * `getMonthCellWithIndexByDate`, `doSelectDate`, `clearOldSelections` and
 * `Initializer.withSelectedDates`.
 *
 * The view keeps two lists in step: `selectedCals`, the selected days, and `selectedCells`,
 * references to the descriptors whose `isSelected` flag is on. A first date is an anchor; a
 * second, later date makes a range whose first cell is FIRST, whose last is LAST, and whose
 * selectable days in between are MIDDLE. A third date, or one before the anchor, starts over.
 */
module Selection {
  import opened Wrappers
  import opened Calendar
  import opened IndexedMap
  import opened MonthGrid
  import opened CellStore
  import opened CalendarView

  /** `validateDate`: a null date, or one before `minCal` or after `maxCal`, is rejected. */
  function ValidateDate(p: Picker, date: Option<Instant>): (r: Result<Instant, Error>)
    ensures r.Success? <==> date.Some? && p.minCal <= date.value <= p.maxCal
    ensures r.Success? ==> r.value == date.value
    ensures r.Failure? ==> r.error == if date.None? then NullDate else OutOfRange
  {
    if date.None? then Failure(NullDate)
    else if date.value < p.minCal || date.value > p.maxCal then Failure(OutOfRange)
    else Success(date.value)
  }

  /** On a laid-out picker, every date `validateDate` accepts falls on a selectable day. */
  lemma ValidDateDay(p: Picker, t: Instant)
    requires LaidOut(p) && ValidateDate(p, Some(t)).Success?
    ensures MinDay(p) <= DayOf(t) < MaxDay(p)
  {
    DayOfStart(MinDay(p));
    MinuteBeforeMidnight(MaxDay(p));
    DayOfMonotone(StartOf(MinDay(p)), t);
    DayOfMonotone(t, StartOf(MaxDay(p)) - MS_PER_MINUTE);
  }

  /** On a laid-out picker, `validateDate` accepts the midnight of exactly the selectable days. */
  lemma ValidMidnight(p: Picker, d: Day)
    requires LaidOut(p)
    ensures ValidateDate(p, Some(StartOf(d))).Success? <==> MinDay(p) <= d < MaxDay(p)
  {
  }

  /** The test in the search loop of `getMonthCellWithIndexByDate`: same calendar day, and selectable. */
  predicate Matches(c: Cell, d: Day) {
    SameDate(c.date, d) && c.isSelectable
  }

  /** The inner search loop: the first cell of a week row that passes the test. */
  function FindInRow(row: seq<Cell>, wanted: Cell -> bool): (r: Option<nat>)
    ensures r.Some? ==> r.value < |row| && wanted(row[r.value])
    ensures r.Some? ==> forall j :: 0 <= j < r.value ==> !wanted(row[j])
    ensures r.None? <==> forall j :: 0 <= j < |row| ==> !wanted(row[j])
  {
    if |row| == 0 then None
    else if wanted(row[0]) then Some(0)
    else match FindInRow(row[1..], wanted)
      case None => None
      case Some(j) => Some(j + 1)
  }

  /** Both search loops: the first cell of a month grid, in row-major order, that passes the test. */
  function FindInGrid(g: Grid, wanted: Cell -> bool): (r: Option<(nat, nat)>)
    ensures r.Some? ==> r.value.0 < |g| && r.value.1 < |g[r.value.0]| && wanted(g[r.value.0][r.value.1])
    ensures r.Some? ==> forall i, c :: 0 <= i < r.value.0 && 0 <= c < |g[i]| ==> !wanted(g[i][c])
    ensures r.Some? ==> forall c :: 0 <= c < r.value.1 ==> !wanted(g[r.value.0][c])
    ensures r.None? <==> forall i, c :: 0 <= i < |g| && 0 <= c < |g[i]| ==> !wanted(g[i][c])
  {
    if |g| == 0 then None
    else match FindInRow(g[0], wanted)
      case Some(c) => Some((0, c))
      case None =>
        match FindInGrid(g[1..], wanted)
        case None =>
          assert forall i, c :: 1 <= i < |g| && 0 <= c < |g[i]| ==> g[i][c] == g[1..][i - 1][c];
          None
        case Some((i, c)) => Some((i + 1, c))
  }

  /**
   * `getMonthCellWithIndexByDate`: the first selectable cell showing the day `d` in the grid
   * stored under `d`'s month key. `Success(None)` is Java's `null` result; a month key that is not
   * in `cells` makes `cells.get` return `null` and the search loop dereference it.
   */
  function FindCell(p: Picker, d: Day): (r: Result<Option<CellRef>, Error>)
    ensures r.Failure? <==> KeyOf(d) !in Keys(p.cells)
    ensures r.Failure? ==> r.error == MissingMonth
    ensures r.Success? && r.value.Some? ==>
      var q := r.value.value;
      && ValidRef(p.cells, q)
      && p.cells[q.month].0 == KeyOf(d)
      && CellAt(p.cells, q).date == d
      && CellAt(p.cells, q).isSelectable
    ensures r.Success? && r.value.None? ==>
      forall m, i, c :: 0 <= m < |p.cells| && p.cells[m].0 == KeyOf(d) && IndexOfKey(p.cells, KeyOf(d)) == Some(m)
        && 0 <= i < |p.cells[m].1| && 0 <= c < |p.cells[m].1[i]|
        ==> !Matches(p.cells[m].1[i][c], d)
  {
    match IndexOfKey(p.cells, KeyOf(d))
    case None => Failure(MissingMonth)
    case Some(m) =>
      match FindInGrid(p.cells[m].1, c => Matches(c, d))
      case None => Success(None)
      case Some((i, c)) =>
        SameDateIsEquality(p.cells[m].1[i][c].date, d);
        Success(Some(CellRef(m, i, c)))
  }

  /**
   * On a laid-out picker the search finds a cell exactly for the selectable days; the cell it
   * finds is in the month at position `Ordinal(KeyOf(d)) - Ordinal(KeyOf(MinDay(p)))` and is the
   * only selectable cell showing `d`.
   */
  lemma FindCellLaidOut(p: Picker, d: Day)
    requires LaidOut(p)
    ensures (FindCell(p, d).Success? && FindCell(p, d).value.Some?) <==> MinDay(p) <= d < MaxDay(p)
    ensures FindCell(p, d).Success? && FindCell(p, d).value.Some? ==>
      var r := FindCell(p, d).value.value;
      && r.month == Ordinal(KeyOf(d)) - Ordinal(KeyOf(MinDay(p)))
      && forall q :: ValidRef(p.cells, q) && CellAt(p.cells, q).isSelectable && CellAt(p.cells, q).date == d ==> q == r
  {
    var f := FindCell(p, d);
    if f.Success? && f.value.Some? {
      FindCellFound(p, d);
    } else if MinDay(p) <= d < MaxDay(p) {
      FindCellCovers(p, d);
    }
  }

  /** The cell found on a laid-out picker is in range, at its month's position, and unique. */
  lemma FindCellFound(p: Picker, d: Day)
    requires LaidOut(p) && FindCell(p, d).Success? && FindCell(p, d).value.Some?
    ensures MinDay(p) <= d < MaxDay(p)
    ensures var r := FindCell(p, d).value.value;
      && r.month == Ordinal(KeyOf(d)) - Ordinal(KeyOf(MinDay(p)))
      && forall q :: ValidRef(p.cells, q) && CellAt(p.cells, q).isSelectable && CellAt(p.cells, q).date == d ==> q == r
  {
    var r := FindCell(p, d).value.value;
    PickerSelectable(p, r);
    PickerMonthIndex(p, d);
    forall q | ValidRef(p.cells, q) && CellAt(p.cells, q).isSelectable && CellAt(p.cells, q).date == d
      ensures q == r
    {
      PickerUnique(p, q, r);
    }
  }

  /** On a laid-out picker the search finds a cell for every selectable day. */
  lemma FindCellCovers(p: Picker, d: Day)
    requires LaidOut(p) && MinDay(p) <= d < MaxDay(p)
    ensures FindCell(p, d).Success? && FindCell(p, d).value.Some?
  {
    var m := Ordinal(KeyOf(d)) - Ordinal(KeyOf(MinDay(p)));
    assert IndexOfKey(p.cells, KeyOf(d)) == Some(m) by {
      PickerMonthIndex(p, d);
    }
    PickerCovers(p, d);
    var r :| && ValidRef(p.cells, r) && r.month == m && CellAt(p.cells, r).date == d && CellAt(p.cells, r).isSelectable;
    FindCellMatch(p, d, r);
  }

  /** A selectable cell of day `d` in the month that `getIndexOfKey` finds makes the search find a cell. */
  lemma FindCellMatch(p: Picker, d: Day, r: CellRef)
    requires ValidRef(p.cells, r) && IndexOfKey(p.cells, KeyOf(d)) == Some(r.month)
    requires CellAt(p.cells, r).date == d && CellAt(p.cells, r).isSelectable
    ensures FindCell(p, d).Success? && FindCell(p, d).value.Some?
  {
  }

  /** What `doSelectDate` relies on: references it can follow, and no listed cell without a listed day. */
  predicate Consistent(p: Picker) {
    ValidRefs(p.cells, p.selectedCells) && (p.selectedCals == [] ==> p.selectedCells == [])
  }

  /**
   * The invariant the selection code keeps: a cell is selected exactly when it is listed in
   * `selectedCells`, only listed cells carry a range state, and the two lists are empty together.
   */
  ghost predicate Tracked(p: Picker) {
    && ValidRefs(p.cells, p.selectedCells)
    && (p.selectedCals == [] <==> p.selectedCells == [])
    && (forall q :: ValidRef(p.cells, q) ==> (CellAt(p.cells, q).isSelected <==> q in p.selectedCells))
    && (forall q :: ValidRef(p.cells, q) && CellAt(p.cells, q).rangeState != NONE ==> q in p.selectedCells)
  }

  /** No cell carries a range state, and exactly the cells listed in `rs` are selected. */
  ghost predicate Plain(cells: Months, rs: seq<CellRef>) {
    forall q :: ValidRef(cells, q) ==> (CellAt(cells, q).isSelected <==> q in rs) && CellAt(cells, q).rangeState == NONE
  }

  /** The first loop of `doSelectDate`: every listed cell's range state goes back to NONE. */
  function ResetRanges(p: Picker): (out: Picker)
    requires ValidRefs(p.cells, p.selectedCells)
    ensures out.(cells := p.cells) == p
    ensures SameShape(p.cells, out.cells)
  {
    p.(cells := ApplyAll(p.cells, p.selectedCells, SetRange(NONE)))
  }

  /** Resetting the listed cells' range states leaves no range state anywhere, when only listed cells had one. */
  lemma ResetRangesPlain(p: Picker)
    requires Tracked(p)
    ensures Plain(ResetRanges(p).cells, p.selectedCells)
    ensures SameLayout(p.cells, ResetRanges(p).cells)
  {
    ApplyAllLayout(p.cells, p.selectedCells, SetRange(NONE));
  }

  /** `clearOldSelections`: deselect every listed cell, then empty both lists. */
  function ClearOldSelections(p: Picker): (out: Picker)
    requires ValidRefs(p.cells, p.selectedCells)
    ensures out.selectedCals == [] && out.selectedCells == []
    ensures out.(cells := p.cells, selectedCals := p.selectedCals, selectedCells := p.selectedCells) == p
    ensures SameShape(p.cells, out.cells)
  {
    p.(cells := ApplyAll(p.cells, p.selectedCells, SetSelected(false)), selectedCals := [], selectedCells := [])
  }

  /** When the listed cells are exactly the selected ones, clearing them leaves nothing selected. */
  lemma ClearPlain(p: Picker)
    requires ValidRefs(p.cells, p.selectedCells) && Plain(p.cells, p.selectedCells)
    ensures Plain(ClearOldSelections(p).cells, [])
    ensures SameLayout(p.cells, ClearOldSelections(p).cells)
  {
    ApplyAllLayout(p.cells, p.selectedCells, SetSelected(false));
  }

  /** Whether selecting day `d` starts over: a range is listed, or `d` is before the single listed day. */
  predicate StartsOver(p: Picker, d: Day) {
    |p.selectedCals| > 1 || (|p.selectedCals| == 1 && d < p.selectedCals[0])
  }

  /** The part of `doSelectDate` before the new cell is touched: reset the range states, then clear when starting over. */
  function Prepare(p: Picker, d: Day): (out: Picker)
    requires ValidRefs(p.cells, p.selectedCells)
    ensures SameShape(p.cells, out.cells) && ValidRefs(out.cells, out.selectedCells)
    ensures StartsOver(p, d) ==> out.selectedCals == [] && out.selectedCells == []
    ensures !StartsOver(p, d) ==> out.selectedCals == p.selectedCals && out.selectedCells == p.selectedCells
    ensures out.(cells := p.cells, selectedCals := p.selectedCals, selectedCells := p.selectedCells) == p
  {
    var reset := ResetRanges(p);
    if StartsOver(p, d) then
      var out := ClearOldSelections(reset);
      SameShapeTrans(p.cells, reset.cells, out.cells);
      out
    else
      SameShapeValidRefs(p.cells, reset.cells, p.selectedCells);
      reset
  }

  lemma PrepareLayout(p: Picker, d: Day)
    requires ValidRefs(p.cells, p.selectedCells)
    ensures SameLayout(p.cells, Prepare(p, d).cells)
  {
    var reset := ResetRanges(p);
    ApplyAllLayout(p.cells, p.selectedCells, SetRange(NONE));
    if StartsOver(p, d) {
      ApplyAllLayout(reset.cells, reset.selectedCells, SetSelected(false));
      SameLayoutTrans(p.cells, reset.cells, Prepare(p, d).cells);
    }
  }

  /** After the reset (and the clear, if any) exactly the still-listed cells are selected and none has a range state. */
  lemma PreparePlain(p: Picker, d: Day)
    requires Tracked(p)
    ensures Plain(Prepare(p, d).cells, Prepare(p, d).selectedCells)
  {
    var reset := ResetRanges(p);
    ResetRangesPlain(p);
    if StartsOver(p, d) {
      ClearPlain(reset);
    }
  }

  /**
   * The start of the `date != null` block: the cell is selected and listed unless it already is
   * the first listed cell; the day is listed in any case.
   */
  function AddAnchor(p: Picker, d: Day, r: CellRef): (out: Picker)
    requires ValidRef(p.cells, r)
    ensures out.selectedCals == p.selectedCals + [d]
    ensures out.selectedCells == if p.selectedCells != [] && p.selectedCells[0] == r then p.selectedCells
                                 else p.selectedCells + [r]
    ensures out.(cells := p.cells, selectedCals := p.selectedCals, selectedCells := p.selectedCells) == p
    ensures SameShape(p.cells, out.cells)
  {
    var q := if p.selectedCells == [] || p.selectedCells[0] != r
      then p.(cells := Apply(p.cells, r, SetSelected(true)), selectedCells := p.selectedCells + [r])
      else p;
    q.(selectedCals := q.selectedCals + [d])
  }

  lemma AddAnchorRefs(p: Picker, d: Day, r: CellRef)
    requires ValidRef(p.cells, r) && ValidRefs(p.cells, p.selectedCells)
    ensures ValidRefs(AddAnchor(p, d, r).cells, AddAnchor(p, d, r).selectedCells)
  {
    var out := AddAnchor(p, d, r);
    SameShapeRefs(p.cells, out.cells, r);
    SameShapeValidRefs(p.cells, out.cells, p.selectedCells);
    ValidRefsConcat(out.cells, p.selectedCells, [r]);
  }

  lemma AddAnchorLayout(p: Picker, d: Day, r: CellRef)
    requires ValidRef(p.cells, r)
    ensures SameLayout(p.cells, AddAnchor(p, d, r).cells)
  {
    if p.selectedCells == [] || p.selectedCells[0] != r {
      ApplyLayout(p.cells, r, SetSelected(true));
    }
  }

  /** Adding a cell keeps "exactly the listed cells are selected, no range state". */
  lemma AddAnchorPlain(p: Picker, d: Day, r: CellRef)
    requires ValidRef(p.cells, r) && Plain(p.cells, p.selectedCells)
    ensures Plain(AddAnchor(p, d, r).cells, AddAnchor(p, d, r).selectedCells)
    ensures SameLayout(p.cells, AddAnchor(p, d, r).cells)
  {
    if p.selectedCells == [] || p.selectedCells[0] != r {
      ApplyLayout(p.cells, r, SetSelected(true));
    } else {
      assert r in p.selectedCells;
    }
  }

  /** The test of the MIDDLE loop: strictly after the first day, strictly before the last, and selectable. */
  predicate IsMiddle(c: Cell, start: Day, end: Day) {
    start < c.date < end && c.isSelectable
  }

  /** The innermost MIDDLE loop: the passing cells of one week row, from column `col` on. */
  function RowMiddles(cells: Months, m: int, row: int, col: int, start: Day, end: Day): (rs: seq<CellRef>)
    requires 0 <= m < |cells| && 0 <= row < |cells[m].1| && 0 <= col <= |cells[m].1[row]|
    ensures forall q :: q in rs <==>
      ValidRef(cells, q) && q.month == m && q.row == row && col <= q.col && IsMiddle(CellAt(cells, q), start, end)
    decreases |cells[m].1[row]| - col
  {
    if col == |cells[m].1[row]| then []
    else
      var rest := RowMiddles(cells, m, row, col + 1, start, end);
      if IsMiddle(cells[m].1[row][col], start, end) then [CellRef(m, row, col)] + rest else rest
  }

  /** The week loop: the passing cells of month `m`, from week row `row` on, row by row. */
  function MonthMiddles(cells: Months, m: int, row: int, start: Day, end: Day): (rs: seq<CellRef>)
    requires 0 <= m < |cells| && 0 <= row <= |cells[m].1|
    ensures forall q :: q in rs <==>
      ValidRef(cells, q) && q.month == m && row <= q.row && IsMiddle(CellAt(cells, q), start, end)
    decreases |cells[m].1| - row
  {
    if row == |cells[m].1| then []
    else RowMiddles(cells, m, row, 0, start, end) + MonthMiddles(cells, m, row + 1, start, end)
  }

  /**
   * The month loop `for (monthIndex = startMonthIndex; monthIndex <= endMonthIndex; monthIndex++)`:
   * the cells strictly between `start` and `end` that are selectable, in the months `m .. hi`.
   */
  function MiddleRefs(cells: Months, m: int, hi: int, start: Day, end: Day): (rs: seq<CellRef>)
    requires 0 <= m && hi < |cells|
    ensures forall q :: q in rs <==>
      ValidRef(cells, q) && m <= q.month <= hi && IsMiddle(CellAt(cells, q), start, end)
    decreases |cells| - m
  {
    if m > hi then []
    else MonthMiddles(cells, m, 0, start, end) + MiddleRefs(cells, m + 1, hi, start, end)
  }

  lemma MembersValid(cells: Months, rs: seq<CellRef>)
    requires forall q :: q in rs ==> ValidRef(cells, q)
    ensures ValidRefs(cells, rs)
  {
  }

  /** `setRangeState(FIRST)` on the first listed cell, then `setRangeState(LAST)` on the second. */
  function MarkEnds(cells: Months, first: CellRef, last: CellRef): (out: Months)
    requires ValidRef(cells, first) && ValidRef(cells, last)
    ensures SameShape(cells, out)
  {
    var once := Apply(cells, first, SetRange(FIRST));
    SameShapeRefs(cells, once, last);
    var out := Apply(once, last, SetRange(LAST));
    SameShapeTrans(cells, once, out);
    out
  }

  /** The second cell ends up LAST, the first (when different) FIRST; the others keep all their fields. */
  lemma MarkEndsCells(cells: Months, first: CellRef, last: CellRef)
    requires ValidRef(cells, first) && ValidRef(cells, last)
    ensures forall q :: ValidRef(cells, q) ==>
      CellAt(MarkEnds(cells, first, last), q) == (if q == last then CellAt(cells, q).(rangeState := LAST)
                                                 else if q == first then CellAt(cells, q).(rangeState := FIRST)
                                                 else CellAt(cells, q))
  {
    var once := Apply(cells, first, SetRange(FIRST));
    forall q | ValidRef(cells, q)
      ensures ValidRef(once, q)
    {
      SameShapeRefs(cells, once, q);
    }
  }

  /** `setSelected(true)` and `setRangeState(MIDDLE)` on each of the cells `mids`. */
  function MarkMiddles(cells: Months, mids: seq<CellRef>): (out: Months)
    requires ValidRefs(cells, mids)
    ensures SameShape(cells, out)
  {
    var selected := ApplyAll(cells, mids, SetSelected(true));
    SameShapeValidRefs(cells, selected, mids);
    var out := ApplyAll(selected, mids, SetRange(MIDDLE));
    SameShapeTrans(cells, selected, out);
    out
  }

  /** The listed cells end up selected and MIDDLE; the others keep all their fields. */
  lemma MarkMiddlesCells(cells: Months, mids: seq<CellRef>)
    requires ValidRefs(cells, mids)
    ensures forall q :: ValidRef(cells, q) ==>
      CellAt(MarkMiddles(cells, mids), q) == (if q in mids then CellAt(cells, q).(isSelected := true, rangeState := MIDDLE)
                                             else CellAt(cells, q))
  {
    var selected := ApplyAll(cells, mids, SetSelected(true));
    SameShapeValidRefs(cells, selected, mids);
    forall q | ValidRef(cells, q)
      ensures ValidRef(selected, q)
    {
      SameShapeRefs(cells, selected, q);
    }
  }

  /**
   * The month lookups and the MIDDLE loops of the range branch: the cells strictly between the
   * days `start` and `end` that are selectable, in the months from the month of the first listed
   * day `a` to the month of the second listed day `b`, in the order the loops visit them. A month
   * key that is not in `cells` is an error.
   */
  function RangeMiddles(cells: Months, a: Day, b: Day, start: Day, end: Day): (res: Result<seq<CellRef>, Error>)
    ensures res.Failure? <==> KeyOf(a) !in Keys(cells) || KeyOf(b) !in Keys(cells)
    ensures res.Failure? ==> res.error == MissingMonth
    ensures res.Success? ==> ValidRefs(cells, res.value)
  {
    match (IndexOfKey(cells, KeyOf(a)), IndexOfKey(cells, KeyOf(b)))
    case (Some(lo), Some(hi)) =>
      var mids := MiddleRefs(cells, lo, hi, start, end);
      MembersValid(cells, mids);
      Success(mids)
    case _ => Failure(MissingMonth)
  }

  /** The cells the range branch marks MIDDLE: those that pass the test in the months between the two days' months. */
  lemma RangeMiddlesMembers(cells: Months, a: Day, b: Day, start: Day, end: Day)
    requires RangeMiddles(cells, a, b, start, end).Success?
    ensures forall q :: q in RangeMiddles(cells, a, b, start, end).value <==>
      && ValidRef(cells, q)
      && IndexOfKey(cells, KeyOf(a)).value <= q.month <= IndexOfKey(cells, KeyOf(b)).value
      && IsMiddle(CellAt(cells, q), start, end)
  {
  }

  /**
   * The range branch of `doSelectDate`, taken when two cells are listed: the first listed cell
   * becomes FIRST, the second LAST, and every cell that passes the MIDDLE test in the months from
   * the first day's month to the second day's is selected, marked MIDDLE and listed. The loop's
   * test reads only a cell's day and `isSelectable`, which no setter changes, so the model finds
   * those cells first and then calls the two setters on each of them.
   */
  function MarkRange(p: Picker): (res: Result<Picker, Error>)
    requires ValidRefs(p.cells, p.selectedCells) && |p.selectedCells| > 1 && |p.selectedCals| > 1
    ensures res.Failure? ==> res.error == MissingMonth
    ensures res.Success? ==>
      && res.value.(cells := p.cells, selectedCells := p.selectedCells) == p
      && SameShape(p.cells, res.value.cells)
      && ValidRefs(res.value.cells, res.value.selectedCells)
  {
    var sel := p.selectedCells;
    var marked := MarkEnds(p.cells, sel[0], sel[1]);
    var start, end := CellAt(p.cells, sel[0]).date, CellAt(p.cells, sel[1]).date;
    match RangeMiddles(marked, p.selectedCals[0], p.selectedCals[1], start, end)
    case Failure(e) => Failure(e)
    case Success(mids) =>
      var out := MarkMiddles(marked, mids);
      SameShapeTrans(p.cells, marked, out);
      SameShapeValidRefs(p.cells, out, sel);
      SameShapeValidRefs(marked, out, mids);
      ValidRefsConcat(out, sel, mids);
      Success(p.(cells := out, selectedCells := sel + mids))
  }

  /**
   * `doSelectDate(date, cell)` for the day `d` of `date` and the reference `r` to `cell`, with the
   * final `validateAndUpdate` (a redraw) left out. It returns `true` whenever it does not throw.
   */
  function DoSelectDate(p: Picker, d: Day, r: CellRef): (res: Result<Picker, Error>)
    requires Consistent(p) && ValidRef(p.cells, r)
    ensures res.Failure? ==> res.error == MissingMonth
    ensures res.Success? ==>
      && Consistent(res.value)
      && SameShape(p.cells, res.value.cells)
      && res.value.(cells := p.cells, selectedCals := p.selectedCals, selectedCells := p.selectedCells) == p
  {
    var kept := Prepare(p, d);
    SameShapeRefs(p.cells, kept.cells, r);
    var added := AddAnchor(kept, d, r);
    SameShapeTrans(p.cells, kept.cells, added.cells);
    AddAnchorRefs(kept, d, r);
    if |added.selectedCells| > 1 then
      var res := MarkRange(added);
      if res.Success? then SameShapeTrans(p.cells, added.cells, res.value.cells); res else res
    else
      Success(added)
  }

  /** The range branch as the composition of its steps, when both month keys are found. */
  lemma MarkRangeSteps(p: Picker)
    requires ValidRefs(p.cells, p.selectedCells) && |p.selectedCells| > 1 && |p.selectedCals| > 1
    requires MarkRange(p).Success?
    ensures var sel := p.selectedCells;
      var marked := MarkEnds(p.cells, sel[0], sel[1]);
      var mids := RangeMiddles(marked, p.selectedCals[0], p.selectedCals[1],
                               CellAt(p.cells, sel[0]).date, CellAt(p.cells, sel[1]).date);
      && mids.Success?
      && MarkRange(p).value == p.(cells := MarkMiddles(marked, mids.value), selectedCells := sel + mids.value)
  {
  }

  lemma MarkEndsLayout(cells: Months, first: CellRef, last: CellRef)
    requires ValidRef(cells, first) && ValidRef(cells, last)
    ensures SameLayout(cells, MarkEnds(cells, first, last))
  {
    var once := Apply(cells, first, SetRange(FIRST));
    ApplyLayout(cells, first, SetRange(FIRST));
    SameShapeRefs(cells, once, last);
    ApplyLayout(once, last, SetRange(LAST));
    SameLayoutTrans(cells, once, MarkEnds(cells, first, last));
  }

  lemma MarkMiddlesLayout(cells: Months, mids: seq<CellRef>)
    requires ValidRefs(cells, mids)
    ensures SameLayout(cells, MarkMiddles(cells, mids))
  {
    var selected := ApplyAll(cells, mids, SetSelected(true));
    ApplyAllLayout(cells, mids, SetSelected(true));
    SameShapeValidRefs(cells, selected, mids);
    ApplyAllLayout(selected, mids, SetRange(MIDDLE));
    SameLayoutTrans(cells, selected, MarkMiddles(cells, mids));
  }

  /** Setters never change what a cell shows besides its two selection flags. */
  lemma MarkRangeLayout(p: Picker)
    requires ValidRefs(p.cells, p.selectedCells) && |p.selectedCells| > 1 && |p.selectedCals| > 1
    requires MarkRange(p).Success?
    ensures SameLayout(p.cells, MarkRange(p).value.cells)
  {
    MarkRangeSteps(p);
    var sel := p.selectedCells;
    var marked := MarkEnds(p.cells, sel[0], sel[1]);
    var mids := RangeMiddles(marked, p.selectedCals[0], p.selectedCals[1],
                             CellAt(p.cells, sel[0]).date, CellAt(p.cells, sel[1]).date).value;
    MarkEndsLayout(p.cells, sel[0], sel[1]);
    MarkMiddlesLayout(marked, mids);
    SameLayoutTrans(p.cells, marked, MarkMiddles(marked, mids));
  }

  /** The flags of one cell after the range branch, from "exactly the listed cells are selected, no range state". */
  lemma MarkedFlags(cells: Months, sel: seq<CellRef>, mids: seq<CellRef>, q: CellRef)
    requires |sel| > 1 && ValidRefs(cells, sel) && Plain(cells, sel) && ValidRef(cells, q)
    requires ValidRefs(MarkEnds(cells, sel[0], sel[1]), mids)
    ensures var c := CellAt(MarkMiddles(MarkEnds(cells, sel[0], sel[1]), mids), q);
      && (c.isSelected <==> q in sel + mids)
      && (c.rangeState != NONE ==> q in sel + mids)
  {
    var marked := MarkEnds(cells, sel[0], sel[1]);
    MarkEndsCells(cells, sel[0], sel[1]);
    SameShapeRefs(cells, marked, q);
    MarkMiddlesCells(marked, mids);
  }

  /**
   * The range branch keeps the invariant: starting from "exactly the listed cells are selected,
   * no range state", every cell it marks is selected and listed.
   */
  lemma MarkRangeTracked(p: Picker)
    requires ValidRefs(p.cells, p.selectedCells) && |p.selectedCells| > 1 && |p.selectedCals| > 1
    requires Plain(p.cells, p.selectedCells)
    requires MarkRange(p).Success?
    ensures Tracked(MarkRange(p).value)
  {
    MarkRangeSteps(p);
    var sel := p.selectedCells;
    var marked := MarkEnds(p.cells, sel[0], sel[1]);
    var mids := RangeMiddles(marked, p.selectedCals[0], p.selectedCals[1],
                             CellAt(p.cells, sel[0]).date, CellAt(p.cells, sel[1]).date).value;
    var out := MarkRange(p).value;
    forall q | ValidRef(out.cells, q)
      ensures (CellAt(out.cells, q).isSelected <==> q in out.selectedCells)
      ensures CellAt(out.cells, q).rangeState != NONE ==> q in out.selectedCells
    {
      SameShapeRefs(p.cells, out.cells, q);
      MarkedFlags(p.cells, sel, mids, q);
    }
  }

  /** `doSelectDate` changes no cell except in its selection flags. */
  lemma DoSelectLayout(p: Picker, d: Day, r: CellRef)
    requires Consistent(p) && ValidRef(p.cells, r) && DoSelectDate(p, d, r).Success?
    ensures SameLayout(p.cells, DoSelectDate(p, d, r).value.cells)
  {
    var kept := Prepare(p, d);
    PrepareLayout(p, d);
    SameShapeRefs(p.cells, kept.cells, r);
    var added := AddAnchor(kept, d, r);
    AddAnchorLayout(kept, d, r);
    SameLayoutTrans(p.cells, kept.cells, added.cells);
    if |added.selectedCells| > 1 {
      AddAnchorRefs(kept, d, r);
      MarkRangeLayout(added);
      SameLayoutTrans(p.cells, added.cells, MarkRange(added).value.cells);
    }
  }

  /** `doSelectDate` keeps a laid-out picker laid out. */
  lemma DoSelectLaidOut(p: Picker, d: Day, r: CellRef)
    requires Consistent(p) && ValidRef(p.cells, r) && DoSelectDate(p, d, r).Success?
    requires LaidOut(p)
    ensures LaidOut(DoSelectDate(p, d, r).value)
  {
    var out := DoSelectDate(p, d, r).value;
    DoSelectLayout(p, d, r);
    SameLayoutSym(p.cells, out.cells);
    LaidOutKeep(p, out);
  }

  /** `doSelectDate` keeps the flags and the two lists in step. */
  lemma DoSelectTracked(p: Picker, d: Day, r: CellRef)
    requires Tracked(p) && ValidRef(p.cells, r)
    requires DoSelectDate(p, d, r).Success?
    ensures Tracked(DoSelectDate(p, d, r).value)
  {
    var kept := Prepare(p, d);
    PreparePlain(p, d);
    SameShapeRefs(p.cells, kept.cells, r);
    var added := AddAnchor(kept, d, r);
    AddAnchorPlain(kept, d, r);
    AddAnchorRefs(kept, d, r);
    if |added.selectedCells| > 1 {
      MarkRangeTracked(added);
    }
  }

  /** The cells after a single selection of `r`: as `init` built them, with only `r` selected. */
  function Anchored(c: Cell, q: CellRef, r: CellRef): Cell {
    Strip(c).(isSelected := q == r)
  }

  /**
   * The cells after a range from `ra` (showing day `a`) to `rb` (showing day `b`): `ra` is FIRST,
   * `rb` is LAST, the selectable cells strictly between the two days are MIDDLE, and those are
   * exactly the selected cells.
   */
  function Ranged(c: Cell, q: CellRef, ra: CellRef, rb: CellRef, a: Day, b: Day): Cell {
    var middle := IsMiddle(c, a, b);
    Strip(c).(isSelected := q == ra || q == rb || middle,
              rangeState := if q == ra then FIRST else if q == rb then LAST else if middle then MIDDLE else NONE)
  }

  lemma PlainCell(cells: Months, rs: seq<CellRef>, q: CellRef)
    requires Plain(cells, rs) && ValidRef(cells, q)
    ensures CellAt(cells, q) == Strip(CellAt(cells, q)).(isSelected := q in rs)
  {
  }

  /** A plain map with only `r` selected shows the single-selection picture of any map of the same layout. */
  lemma AnchoredPlain(orig: Months, cells: Months, r: CellRef)
    requires SameLayout(orig, cells) && Plain(cells, [r])
    ensures forall q :: ValidRef(orig, q) ==> ValidRef(cells, q) && CellAt(cells, q) == Anchored(CellAt(orig, q), q, r)
  {
    forall q | ValidRef(orig, q)
      ensures ValidRef(cells, q) && CellAt(cells, q) == Anchored(CellAt(orig, q), q, r)
    {
      SameLayoutCell(orig, cells, q);
      PlainCell(cells, [r], q);
    }
  }

  /**
   * With no day listed, with a range already listed, or with a day before the single listed one,
   * `doSelectDate` clears the old selection and leaves exactly the new cell selected and listed.
   */
  lemma SelectRestarts(p: Picker, d: Day, r: CellRef)
    requires Tracked(p) && ValidRef(p.cells, r)
    requires p.selectedCals == [] || StartsOver(p, d)
    ensures DoSelectDate(p, d, r).Success?
    ensures var out := DoSelectDate(p, d, r).value;
      && out.selectedCals == [d] && out.selectedCells == [r]
      && forall q :: ValidRef(p.cells, q) ==> CellAt(out.cells, q) == Anchored(CellAt(p.cells, q), q, r)
  {
    var kept := Prepare(p, d);
    PrepareLayout(p, d);
    PreparePlain(p, d);
    SameShapeRefs(p.cells, kept.cells, r);
    var out := AddAnchor(kept, d, r);
    AddAnchorPlain(kept, d, r);
    SameLayoutTrans(p.cells, kept.cells, out.cells);
    AnchoredPlain(p.cells, out.cells, r);
  }

  /**
   * Selecting the single listed day again, on its own cell: the cell is not listed a second time
   * but the day is, so the view holds two days and one cell and draws no range.
   */
  lemma ReselectAnchor(p: Picker)
    requires Tracked(p) && |p.selectedCals| == 1 && |p.selectedCells| == 1
    ensures ValidRef(p.cells, p.selectedCells[0])
    ensures DoSelectDate(p, p.selectedCals[0], p.selectedCells[0]).Success?
    ensures var a, r := p.selectedCals[0], p.selectedCells[0];
      var out := DoSelectDate(p, a, r).value;
      && out.selectedCals == [a, a] && out.selectedCells == [r]
      && forall q :: ValidRef(p.cells, q) ==> CellAt(out.cells, q) == Anchored(CellAt(p.cells, q), q, r)
  {
    var a, r := p.selectedCals[0], p.selectedCells[0];
    assert ValidRef(p.cells, r);
    var kept := Prepare(p, a);
    PrepareLayout(p, a);
    PreparePlain(p, a);
    assert DoSelectDate(p, a, r).value.cells == kept.cells;
    AnchoredPlain(p.cells, kept.cells, r);
  }

  /** A selectable cell strictly between two days lies in a month between theirs. */
  lemma MiddleInMonths(p: Picker, q: CellRef, a: Day, b: Day)
    requires LaidOut(p) && ValidRef(p.cells, q) && IsMiddle(CellAt(p.cells, q), a, b)
    ensures Ordinal(KeyOf(a)) - Ordinal(KeyOf(MinDay(p))) <= q.month <= Ordinal(KeyOf(b)) - Ordinal(KeyOf(MinDay(p)))
  {
    var c := CellAt(p.cells, q);
    PickerSelectable(p, q);
    PickerMonths(p);
    KeyOfMonotone(a, c.date);
    KeyOfMonotone(c.date, b);
  }

  /**
   * On a laid-out picker, the month lookups of the range branch succeed for two selectable days,
   * and the MIDDLE loops find exactly the selectable cells strictly between them, wherever they lie:
   * every such cell is in a month from the first day's month to the second's.
   */
  lemma MiddlesBetween(p: Picker, cells: Months, a: Day, b: Day)
    requires LaidOut(p) && SameLayout(p.cells, cells)
    requires MinDay(p) <= a <= b < MaxDay(p)
    ensures RangeMiddles(cells, a, b, a, b).Success?
    ensures forall q :: ValidRef(cells, q) ==>
      (q in RangeMiddles(cells, a, b, a, b).value <==> IsMiddle(CellAt(cells, q), a, b))
  {
    PickerMonthIndex(p, a);
    PickerMonthIndex(p, b);
    IndexOfKeySameKeys(p.cells, cells, KeyOf(a));
    IndexOfKeySameKeys(p.cells, cells, KeyOf(b));
    RangeMiddlesMembers(cells, a, b, a, b);
    forall q | ValidRef(cells, q)
      ensures q in RangeMiddles(cells, a, b, a, b).value <==> IsMiddle(CellAt(cells, q), a, b)
    {
      SameShapeRefs(p.cells, cells, q);
      SameLayoutCell(p.cells, cells, q);
      if IsMiddle(CellAt(p.cells, q), a, b) {
        MiddleInMonths(p, q, a, b);
      }
    }
  }

  /**
   * Selecting a day `b` after the single listed day `a`: before the range branch runs, both cells
   * are selected and listed in order, and nothing else is selected or carries a range state.
   */
  lemma RangeStart(p: Picker, b: Day, rb: CellRef) returns (added: Picker)
    requires Tracked(p) && |p.selectedCals| == 1 && |p.selectedCells| == 1
    requires ValidRef(p.cells, rb) && rb != p.selectedCells[0] && p.selectedCals[0] < b
    ensures added.selectedCals == [p.selectedCals[0], b] && added.selectedCells == [p.selectedCells[0], rb]
    ensures ValidRefs(added.cells, added.selectedCells) && SameLayout(p.cells, added.cells)
    ensures Plain(added.cells, added.selectedCells)
    ensures DoSelectDate(p, b, rb) == MarkRange(added)
  {
    added := RangeAnchors(p, b, rb);
  }

  /** The picker `doSelectDate` hands to its range branch when `b` follows the single anchor. */
  lemma RangeAnchors(p: Picker, b: Day, rb: CellRef) returns (added: Picker)
    requires Tracked(p) && |p.selectedCals| == 1 && |p.selectedCells| == 1
    requires ValidRef(p.cells, rb) && rb != p.selectedCells[0] && p.selectedCals[0] < b
    ensures ValidRef(Prepare(p, b).cells, rb) && added == AddAnchor(Prepare(p, b), b, rb)
    ensures added.selectedCals == [p.selectedCals[0], b] && added.selectedCells == [p.selectedCells[0], rb]
    ensures ValidRefs(added.cells, added.selectedCells) && SameLayout(p.cells, added.cells)
    ensures Plain(added.cells, added.selectedCells)
  {
    var kept := Prepare(p, b);
    PrepareLayout(p, b);
    PreparePlain(p, b);
    SameShapeRefs(p.cells, kept.cells, rb);
    assert !StartsOver(p, b);
    assert kept.selectedCells == p.selectedCells == [p.selectedCells[0]];
    added := AddAnchor(kept, b, rb);
    AddAnchorRefs(kept, b, rb);
    AddAnchorPlain(kept, b, rb);
    SameLayoutTrans(p.cells, kept.cells, added.cells);
  }

  /** One cell through the range branch: plain with only the ends selected, then the ends, then the middles. */
  lemma RangedCell(c: Cell, ended: Cell, out: Cell, q: CellRef, ra: CellRef, rb: CellRef, a: Day, b: Day, inMids: bool)
    requires ra != rb && c == Strip(c).(isSelected := q == ra || q == rb)
    requires ended == if q == rb then c.(rangeState := LAST) else if q == ra then c.(rangeState := FIRST) else c
    requires out == if inMids then ended.(isSelected := true, rangeState := MIDDLE) else ended
    requires inMids <==> IsMiddle(c, a, b)
    requires q == ra || q == rb ==> !IsMiddle(c, a, b)
    ensures out == Ranged(c, q, ra, rb, a, b)
  {
  }

  /**
   * The cells the range branch leaves: starting from a plain state with only `ra` and `rb`
   * selected, marking the ends and then the cells strictly between the two days yields the
   * reference picture at every cell.
   */
  lemma RangedCells(cells: Months, ra: CellRef, rb: CellRef, a: Day, b: Day, mids: seq<CellRef>)
    requires Plain(cells, [ra, rb]) && ValidRef(cells, ra) && ValidRef(cells, rb) && ra != rb
    requires !IsMiddle(CellAt(cells, ra), a, b) && !IsMiddle(CellAt(cells, rb), a, b)
    requires ValidRefs(MarkEnds(cells, ra, rb), mids)
    requires forall q :: ValidRef(cells, q) ==> (q in mids <==> IsMiddle(CellAt(MarkEnds(cells, ra, rb), q), a, b))
    ensures forall q :: ValidRef(cells, q) ==>
      CellAt(MarkMiddles(MarkEnds(cells, ra, rb), mids), q) == Ranged(CellAt(cells, q), q, ra, rb, a, b)
  {
    var marked := MarkEnds(cells, ra, rb);
    var out := MarkMiddles(marked, mids);
    MarkEndsCells(cells, ra, rb);
    MarkMiddlesCells(marked, mids);
    forall q | ValidRef(cells, q)
      ensures CellAt(out, q) == Ranged(CellAt(cells, q), q, ra, rb, a, b)
    {
      SameShapeRefs(cells, marked, q);
      PlainCell(cells, [ra, rb], q);
      RangedCell(CellAt(cells, q), CellAt(marked, q), CellAt(out, q), q, ra, rb, a, b, q in mids);
    }
  }

  /** `Ranged` reads only what a setter cannot change, so the picture carries over to a map of the same layout. */
  lemma RangedTransfer(orig: Months, cells: Months, out: Months, ra: CellRef, rb: CellRef, a: Day, b: Day)
    requires SameLayout(orig, cells) && SameShape(cells, out)
    requires forall q :: ValidRef(cells, q) ==> CellAt(out, q) == Ranged(CellAt(cells, q), q, ra, rb, a, b)
    ensures forall q :: ValidRef(orig, q) ==> ValidRef(out, q) && CellAt(out, q) == Ranged(CellAt(orig, q), q, ra, rb, a, b)
  {
    forall q | ValidRef(orig, q)
      ensures ValidRef(out, q) && CellAt(out, q) == Ranged(CellAt(orig, q), q, ra, rb, a, b)
    {
      SameLayoutCell(orig, cells, q);
      SameShapeRefs(cells, out, q);
    }
  }

  /** Marking the ends changes no cell's day or selectability, so the MIDDLE test reads the same before and after. */
  lemma MarkEndsMiddles(cells: Months, ra: CellRef, rb: CellRef, a: Day, b: Day, mids: seq<CellRef>)
    requires ValidRef(cells, ra) && ValidRef(cells, rb)
    requires forall q :: ValidRef(MarkEnds(cells, ra, rb), q) ==>
      (q in mids <==> IsMiddle(CellAt(MarkEnds(cells, ra, rb), q), a, b))
    ensures forall q :: ValidRef(cells, q) ==> (q in mids <==> IsMiddle(CellAt(MarkEnds(cells, ra, rb), q), a, b))
  {
    forall q | ValidRef(cells, q)
      ensures ValidRef(MarkEnds(cells, ra, rb), q)
    {
      SameShapeRefs(cells, MarkEnds(cells, ra, rb), q);
    }
  }

  /**
   * Selecting a later day `b` while a single day `a` is listed on its own cell `ra`: `ra` becomes
   * FIRST, the cell `rb` of `b` LAST, every selectable cell strictly between the two days MIDDLE,
   * exactly those cells are selected, and both days and both cells are listed in order.
   */
  lemma SelectRange(p: Picker, b: Day, rb: CellRef)
    requires LaidOut(p) && Tracked(p) && |p.selectedCals| == 1 && |p.selectedCells| == 1
    requires ValidRef(p.cells, p.selectedCells[0])
    requires CellAt(p.cells, p.selectedCells[0]).date == p.selectedCals[0]
    requires CellAt(p.cells, p.selectedCells[0]).isSelectable
    requires ValidRef(p.cells, rb) && CellAt(p.cells, rb).date == b && CellAt(p.cells, rb).isSelectable
    requires p.selectedCals[0] < b
    ensures DoSelectDate(p, b, rb).Success?
    ensures var a, ra, out := p.selectedCals[0], p.selectedCells[0], DoSelectDate(p, b, rb).value;
      && out.selectedCals == [a, b]
      && |out.selectedCells| >= 2 && out.selectedCells[0] == ra && out.selectedCells[1] == rb
      && forall q :: ValidRef(p.cells, q) ==> CellAt(out.cells, q) == Ranged(CellAt(p.cells, q), q, ra, rb, a, b)
  {
    var a, ra := p.selectedCals[0], p.selectedCells[0];
    assert rb != ra;
    var added := RangeStart(p, b, rb);
    var marked := MarkEnds(added.cells, ra, rb);
    assert SameLayout(p.cells, marked) by {
      MarkEndsLayout(added.cells, ra, rb);
      SameLayoutTrans(p.cells, added.cells, marked);
    }
    assert MinDay(p) <= a < b < MaxDay(p) by {
      PickerSelectable(p, ra);
      PickerSelectable(p, rb);
    }
    MiddlesBetween(p, marked, a, b);
    SameLayoutCell(p.cells, added.cells, ra);
    SameLayoutCell(p.cells, added.cells, rb);
    var mids := RangeMiddles(marked, a, b, a, b).value;
    MarkRangeSteps(added);
    MarkEndsMiddles(added.cells, ra, rb, a, b, mids);
    RangedCells(added.cells, ra, rb, a, b, mids);
    RangedTransfer(p.cells, added.cells, MarkMiddles(marked, mids), ra, rb, a, b);
  }

  /**
   * `selectDate(date)`: validate the date, find the selectable cell of its day, and select it.
   * No cell found gives `false` and changes nothing; otherwise the result is `doSelectDate`'s,
   * which is `true` for a non-null date. Scrolling to the month is left out.
   */
  function SelectDate(p: Picker, date: Option<Instant>): (res: Result<(Picker, bool), Error>)
    requires Consistent(p)
    ensures date.None? ==> res == Failure(NullDate)
    ensures date.Some? && (date.value < p.minCal || date.value > p.maxCal) ==> res == Failure(OutOfRange)
    ensures res.Failure? ==> res.error == NullDate || res.error == OutOfRange || res.error == MissingMonth
    ensures res.Success? && !res.value.1 ==> res.value.0 == p
    ensures res.Success? ==>
      && Consistent(res.value.0)
      && SameShape(p.cells, res.value.0.cells)
      && res.value.0.(cells := p.cells, selectedCals := p.selectedCals, selectedCells := p.selectedCells) == p
  {
    var t :- ValidateDate(p, date);
    var found :- FindCell(p, DayOf(t));
    match found
    case None => Success((p, false))
    case Some(r) =>
      var out :- DoSelectDate(p, DayOf(t), r);
      Success((out, true))
  }

  /** Every listed day is selectable, so its month has a grid. */
  predicate InSpan(p: Picker) {
    forall i :: 0 <= i < |p.selectedCals| ==> MinDay(p) <= p.selectedCals[i] < MaxDay(p)
  }

  /**
   * The shape of the two lists that `clearOldSelections` keeps: at most two days are listed, a
   * single listed day goes with a single listed cell, and the first listed cell is a selectable
   * cell showing the first listed day.
   */
  predicate Listed(p: Picker) {
    && |p.selectedCals| <= 2
    && (|p.selectedCals| <= 1 ==> |p.selectedCells| == |p.selectedCals|)
    && (|p.selectedCells| > 0 ==>
          && |p.selectedCals| > 0 && ValidRef(p.cells, p.selectedCells[0])
          && CellAt(p.cells, p.selectedCells[0]).date == p.selectedCals[0]
          && CellAt(p.cells, p.selectedCells[0]).isSelectable)
  }

  /** What holds of a picker that `init` built and only `selectDate` changed since. */
  ghost predicate Sound(p: Picker) {
    LaidOut(p) && Tracked(p) && InSpan(p) && Listed(p)
  }

  /** `init` builds a sound picker with nothing selected and no range state anywhere. */
  lemma InitSound(minDate: Option<Instant>, maxDate: Option<Instant>, today: Day, firstDayOfWeek: DayOfWeek)
    requires Init(minDate, maxDate, today, firstDayOfWeek).Success?
    ensures var p := Init(minDate, maxDate, today, firstDayOfWeek).value;
      Sound(p) && p.selectedCals == [] && Plain(p.cells, [])
  {
    var p := Init(minDate, maxDate, today, firstDayOfWeek).value;
    InitLaysOut(minDate, maxDate, today, firstDayOfWeek);
    forall q | ValidRef(p.cells, q)
      ensures !CellAt(p.cells, q).isSelected && CellAt(p.cells, q).rangeState == NONE
    {
      LayoutUnselected(p.cells, MinDay(p), MaxDay(p), today, firstDayOfWeek, q);
    }
  }

  /** `doSelectDate` as its two stages: prepare and add the anchor, then the range branch when two cells are listed. */
  lemma DoSelectSteps(p: Picker, d: Day, r: CellRef) returns (added: Picker)
    requires Consistent(p) && ValidRef(p.cells, r)
    ensures added == AddAnchor(Prepare(p, d), d, r)
    ensures SameShape(p.cells, added.cells) && ValidRefs(added.cells, added.selectedCells)
    ensures added.selectedCals == (if StartsOver(p, d) then [] else p.selectedCals) + [d]
    ensures |added.selectedCells| > 1 ==> |added.selectedCals| > 1 && DoSelectDate(p, d, r) == MarkRange(added)
    ensures |added.selectedCells| <= 1 ==> DoSelectDate(p, d, r) == Success(added)
  {
    var kept := Prepare(p, d);
    SameShapeRefs(p.cells, kept.cells, r);
    added := AddAnchor(kept, d, r);
    AddAnchorRefs(kept, d, r);
    SameShapeTrans(p.cells, kept.cells, added.cells);
  }

  /** The range branch finds both month keys when the two listed days are selectable days of a laid-out picker. */
  lemma MarkRangeSucceeds(p: Picker, q: Picker)
    requires LaidOut(p) && SameShape(p.cells, q.cells)
    requires ValidRefs(q.cells, q.selectedCells) && |q.selectedCells| > 1 && |q.selectedCals| > 1
    requires MinDay(p) <= q.selectedCals[0] < MaxDay(p) && MinDay(p) <= q.selectedCals[1] < MaxDay(p)
    ensures MarkRange(q).Success?
  {
    var marked := MarkEnds(q.cells, q.selectedCells[0], q.selectedCells[1]);
    SameShapeTrans(p.cells, q.cells, marked);
    var a, b := q.selectedCals[0], q.selectedCals[1];
    PickerMonthIndex(p, a);
    PickerMonthIndex(p, b);
    IndexOfKeySameKeys(p.cells, marked, KeyOf(a));
    IndexOfKeySameKeys(p.cells, marked, KeyOf(b));
  }

  /**
   * On a sound picker, `doSelectDate` on a selectable day cannot fail, lists the day last, and
   * keeps the cells laid out and in step with the lists; given the day's own cell, as `selectDate`
   * and a click pass it, the picker stays sound.
   */
  lemma DoSelectSound(p: Picker, d: Day, r: CellRef)
    requires Sound(p) && ValidRef(p.cells, r) && MinDay(p) <= d < MaxDay(p)
    ensures DoSelectDate(p, d, r).Success?
    ensures var out := DoSelectDate(p, d, r).value; LaidOut(out) && Tracked(out) && InSpan(out)
    ensures CellAt(p.cells, r).date == d && CellAt(p.cells, r).isSelectable ==> Sound(DoSelectDate(p, d, r).value)
    ensures DoSelectDate(p, d, r).value.selectedCals == (if StartsOver(p, d) then [] else p.selectedCals) + [d]
    ensures var cals := DoSelectDate(p, d, r).value.selectedCals; |cals| > 0 && cals[|cals| - 1] == d
  {
    DoSelectKeeps(p, d, r);
    if CellAt(p.cells, r).date == d && CellAt(p.cells, r).isSelectable {
      DoSelectListed(p, d, r);
    }
  }

  /** The part of `DoSelectSound` that holds for any cell of the picker. */
  lemma DoSelectKeeps(p: Picker, d: Day, r: CellRef)
    requires LaidOut(p) && Tracked(p) && InSpan(p) && ValidRef(p.cells, r) && MinDay(p) <= d < MaxDay(p)
    ensures DoSelectDate(p, d, r).Success?
    ensures var out := DoSelectDate(p, d, r).value; LaidOut(out) && Tracked(out) && InSpan(out)
    ensures DoSelectDate(p, d, r).value.selectedCals == (if StartsOver(p, d) then [] else p.selectedCals) + [d]
    ensures var cals := DoSelectDate(p, d, r).value.selectedCals; |cals| > 0 && cals[|cals| - 1] == d
  {
    var added := DoSelectSteps(p, d, r);
    if |added.selectedCells| > 1 {
      MarkRangeSucceeds(p, added);
    }
    DoSelectLaidOut(p, d, r);
    DoSelectTracked(p, d, r);
    CalsInSpan(p, DoSelectDate(p, d, r).value, d);
  }

  /**
   * `doSelectDate` on a day's own selectable cell keeps the lists' shape: starting over lists the
   * day and its cell alone, and otherwise the single listed day and its cell stay first.
   */
  lemma DoSelectListed(p: Picker, d: Day, r: CellRef)
    requires Consistent(p) && Listed(p) && ValidRef(p.cells, r)
    requires CellAt(p.cells, r).date == d && CellAt(p.cells, r).isSelectable
    requires DoSelectDate(p, d, r).Success?
    ensures Listed(DoSelectDate(p, d, r).value)
  {
    var out := DoSelectDate(p, d, r).value;
    var added := DoSelectSteps(p, d, r);
    DoSelectLayout(p, d, r);
    assert out.selectedCals == added.selectedCals && out.selectedCells[0] == added.selectedCells[0] by {
      if |added.selectedCells| > 1 {
        MarkRangeSteps(added);
      }
    }
    if StartsOver(p, d) || p.selectedCals == [] {
      assert added.selectedCells == [r];
      SameLayoutCell(p.cells, out.cells, r);
    } else {
      var ra := p.selectedCells[0];
      assert added.selectedCells[0] == ra;
      SameLayoutCell(p.cells, out.cells, ra);
    }
  }

  /** The days listed after `doSelectDate` on a selectable day are selectable, and the new one is last. */
  lemma CalsInSpan(p: Picker, out: Picker, d: Day)
    requires InSpan(p) && out.minCal == p.minCal && out.maxCal == p.maxCal && MinDay(p) <= d < MaxDay(p)
    requires out.selectedCals == (if StartsOver(p, d) then [] else p.selectedCals) + [d]
    ensures InSpan(out) && |out.selectedCals| > 0 && out.selectedCals[|out.selectedCals| - 1] == d
  {
    var cals := if StartsOver(p, d) then [] else p.selectedCals;
    forall i | 0 <= i < |out.selectedCals|
      ensures MinDay(out) <= out.selectedCals[i] < MaxDay(out)
    {
      if i < |cals| {
        assert out.selectedCals[i] == cals[i];
      }
    }
  }

  /** On a sound picker, a date `validateDate` accepts has a cell, so `selectDate` goes on to `doSelectDate`. */
  lemma SelectDateFinds(p: Picker, t: Instant) returns (r: CellRef)
    requires Sound(p) && ValidateDate(p, Some(t)).Success?
    ensures MinDay(p) <= DayOf(t) < MaxDay(p) && ValidRef(p.cells, r)
    ensures CellAt(p.cells, r).date == DayOf(t) && CellAt(p.cells, r).isSelectable
    ensures DoSelectDate(p, DayOf(t), r).Success? ==>
      SelectDate(p, Some(t)) == Success((DoSelectDate(p, DayOf(t), r).value, true))
  {
    var d := DayOf(t);
    ValidDateDay(p, t);
    FindCellLaidOut(p, d);
    r := FindCell(p, d).value.value;
  }

  /**
   * On a sound picker, `selectDate` fails exactly when `validateDate` does, never answers
   * `false`, lists the date's day last, and leaves the picker sound.
   */
  lemma SelectDateSound(p: Picker, date: Option<Instant>)
    requires Sound(p)
    ensures SelectDate(p, date).Success? <==> ValidateDate(p, date).Success?
    ensures SelectDate(p, date).Success? ==>
      var out := SelectDate(p, date).value.0;
      && SelectDate(p, date).value.1
      && Sound(out)
      && |out.selectedCals| > 0 && out.selectedCals[|out.selectedCals| - 1] == DayOf(date.value)
  {
    if ValidateDate(p, date).Success? {
      var r := SelectDateFinds(p, date.value);
      DoSelectSound(p, DayOf(date.value), r);
    }
  }

  /**
   * The loop of `withSelectedDates`: `selectDate` on each date in order, stopping at the first
   * that throws.
   */
  function SelectAll(p: Picker, dates: seq<Option<Instant>>): (res: Result<Picker, Error>)
    requires Consistent(p)
    ensures res.Failure? ==> res.error == NullDate || res.error == OutOfRange || res.error == MissingMonth
    ensures res.Success? ==>
      && Consistent(res.value)
      && SameShape(p.cells, res.value.cells)
      && res.value.(cells := p.cells, selectedCals := p.selectedCals, selectedCells := p.selectedCells) == p
    decreases |dates|
  {
    if |dates| == 0 then Success(p)
    else
      var (next, _) :- SelectDate(p, dates[0]);
      var out := SelectAll(next, dates[1..]);
      if out.Success? then SameShapeTrans(p.cells, next.cells, out.value.cells); out else out
  }

  /**
   * `Initializer.withSelectedDates`: RANGE mode takes at most two dates; more is an error before
   * any date is selected. Scrolling and the redraw are left out.
   */
  function WithSelectedDates(p: Picker, dates: seq<Option<Instant>>): (res: Result<Picker, Error>)
    requires Consistent(p)
    ensures res.Failure? && res.error == TooManyDates <==> |dates| > 2
    ensures res.Success? ==> SameShape(p.cells, res.value.cells)
  {
    if |dates| > 2 then Failure(TooManyDates) else SelectAll(p, dates)
  }

  /** Every date of the list passes `validateDate`. */
  predicate AllValid(p: Picker, dates: seq<Option<Instant>>) {
    forall i :: 0 <= i < |dates| ==> ValidateDate(p, dates[i]).Success?
  }

  lemma AllValidCons(p: Picker, next: Picker, dates: seq<Option<Instant>>)
    requires |dates| > 0 && next.minCal == p.minCal && next.maxCal == p.maxCal
    ensures AllValid(p, dates) <==> ValidateDate(p, dates[0]).Success? && AllValid(next, dates[1..])
  {
    assert forall i :: 0 < i < |dates| ==> dates[i] == dates[1..][i - 1];
  }

  /** On a sound picker, the loop fails exactly when one of the dates is null or out of range, and stays sound. */
  lemma {:induction false} SelectAllSound(p: Picker, dates: seq<Option<Instant>>)
    requires Sound(p)
    ensures SelectAll(p, dates).Success? <==> AllValid(p, dates)
    ensures SelectAll(p, dates).Success? ==> Sound(SelectAll(p, dates).value)
    decreases |dates|
  {
    if |dates| > 0 {
      SelectDateSound(p, dates[0]);
      if SelectDate(p, dates[0]).Success? {
        var next := SelectDate(p, dates[0]).value.0;
        SelectAllSound(next, dates[1..]);
        AllValidCons(p, next, dates);
      } else {
        AllValidCons(p, p, dates);
      }
    }
  }

  /**
   * The cells after selecting the day `d1` and then the day `d2` on a fresh picker, described by
   * the days alone: when `d2` is not before `d1`, the selectable days from `d1` to `d2` are
   * selected, with `d1` FIRST, `d2` LAST and the days between MIDDLE when the two differ, and no
   * range state when they are equal; when `d2` is before `d1`, it is selected alone.
   */
  function TwoDays(c: Cell, d1: Day, d2: Day): Cell {
    if d2 < d1 then Strip(c).(isSelected := c.isSelectable && c.date == d2)
    else
      var on := c.isSelectable && d1 <= c.date <= d2;
      Strip(c).(isSelected := on,
                rangeState := if !on || d1 == d2 then NONE
                              else if c.date == d1 then FIRST
                              else if c.date == d2 then LAST
                              else MIDDLE)
  }

  lemma RangedTwoDays(c: Cell, q: CellRef, ra: CellRef, rb: CellRef, a: Day, b: Day)
    requires a < b
    requires q == ra <==> c.isSelectable && c.date == a
    requires q == rb <==> c.isSelectable && c.date == b
    ensures Ranged(c, q, ra, rb, a, b) == TwoDays(c, a, b)
  {
  }

  lemma AnchoredTwoDays(c: Cell, q: CellRef, r: CellRef, d1: Day, d2: Day)
    requires d2 <= d1
    requires q == r <==> c.isSelectable && c.date == d2
    ensures Anchored(c, q, r) == TwoDays(c, d1, d2)
  {
  }

  /** `p1` is the fresh picker `p` after selecting the day `d1` on its cell `r1`. */
  ghost predicate AnchoredAt(p: Picker, p1: Picker, r1: CellRef, d1: Day) {
    && LaidOut(p) && Sound(p1) && SameShape(p.cells, p1.cells)
    && p1.selectedCals == [d1] && p1.selectedCells == [r1]
    && ValidRef(p.cells, r1) && CellAt(p.cells, r1).date == d1 && CellAt(p.cells, r1).isSelectable
    && forall q :: ValidRef(p.cells, q) ==> ValidRef(p1.cells, q) && CellAt(p1.cells, q) == Anchored(CellAt(p.cells, q), q, r1)
  }

  /** The first selection on a fresh picker selects the date's cell alone. */
  lemma FirstSelection(p: Picker, t1: Instant) returns (r1: CellRef)
    requires Sound(p) && p.selectedCals == [] && ValidateDate(p, Some(t1)).Success?
    ensures SelectDate(p, Some(t1)).Success?
    ensures AnchoredAt(p, SelectDate(p, Some(t1)).value.0, r1, DayOf(t1))
  {
    var d1 := DayOf(t1);
    r1 := SelectDateFinds(p, t1);
    DoSelectSound(p, d1, r1);
    SelectRestarts(p, d1, r1);
    var p1 := SelectDate(p, Some(t1)).value.0;
    forall q | ValidRef(p.cells, q)
      ensures ValidRef(p1.cells, q)
    {
      SameShapeRefs(p.cells, p1.cells, q);
    }
  }

  /** On a laid-out picker, `r` is the only selectable cell of its day. */
  lemma OnlyCell(p: Picker, r: CellRef)
    requires LaidOut(p) && ValidRef(p.cells, r) && CellAt(p.cells, r).isSelectable
    ensures forall q :: ValidRef(p.cells, q) ==>
      (q == r <==> CellAt(p.cells, q).isSelectable && CellAt(p.cells, q).date == CellAt(p.cells, r).date)
  {
    forall q | ValidRef(p.cells, q) && CellAt(p.cells, q).isSelectable && CellAt(p.cells, q).date == CellAt(p.cells, r).date
      ensures q == r
    {
      PickerUnique(p, q, r);
    }
  }

  /** A single selection of `r1` followed by a range to `r2` shows `TwoDays` at every cell. */
  lemma LaterCells(cells: Months, cells1: Months, cells2: Months, r1: CellRef, r2: CellRef, d1: Day, d2: Day)
    requires d1 < d2 && SameShape(cells1, cells2)
    requires forall q :: ValidRef(cells, q) ==> (q == r1 <==> CellAt(cells, q).isSelectable && CellAt(cells, q).date == d1)
    requires forall q :: ValidRef(cells, q) ==> (q == r2 <==> CellAt(cells, q).isSelectable && CellAt(cells, q).date == d2)
    requires forall q :: ValidRef(cells, q) ==> ValidRef(cells1, q) && CellAt(cells1, q) == Anchored(CellAt(cells, q), q, r1)
    requires forall q :: ValidRef(cells1, q) ==> CellAt(cells2, q) == Ranged(CellAt(cells1, q), q, r1, r2, d1, d2)
    ensures forall q :: ValidRef(cells, q) ==> ValidRef(cells2, q) && CellAt(cells2, q) == TwoDays(CellAt(cells, q), d1, d2)
  {
    forall q | ValidRef(cells, q)
      ensures ValidRef(cells2, q) && CellAt(cells2, q) == TwoDays(CellAt(cells, q), d1, d2)
    {
      SameShapeRefs(cells1, cells2, q);
      RangedTwoDays(CellAt(cells, q), q, r1, r2, d1, d2);
    }
  }

  /** A single selection of `r1` followed by a single selection of `r2`, not after it, shows `TwoDays` at every cell. */
  lemma ReanchoredCells(cells: Months, cells1: Months, cells2: Months, r1: CellRef, r2: CellRef, d1: Day, d2: Day)
    requires d2 <= d1
    requires forall q :: ValidRef(cells, q) ==> (q == r2 <==> CellAt(cells, q).isSelectable && CellAt(cells, q).date == d2)
    requires forall q :: ValidRef(cells, q) ==> ValidRef(cells1, q) && CellAt(cells1, q) == Anchored(CellAt(cells, q), q, r1)
    requires forall q :: ValidRef(cells1, q) ==> ValidRef(cells2, q) && CellAt(cells2, q) == Anchored(CellAt(cells1, q), q, r2)
    ensures forall q :: ValidRef(cells, q) ==> ValidRef(cells2, q) && CellAt(cells2, q) == TwoDays(CellAt(cells, q), d1, d2)
  {
    forall q | ValidRef(cells, q)
      ensures ValidRef(cells2, q) && CellAt(cells2, q) == TwoDays(CellAt(cells, q), d1, d2)
    {
      AnchoredTwoDays(CellAt(cells, q), q, r2, d1, d2);
    }
  }

  /** A later second day makes a range. */
  lemma SecondLater(p: Picker, p1: Picker, r1: CellRef, d1: Day, r2: CellRef, d2: Day)
    requires AnchoredAt(p, p1, r1, d1) && d1 < d2
    requires ValidRef(p1.cells, r2) && CellAt(p1.cells, r2).date == d2 && CellAt(p1.cells, r2).isSelectable
    ensures DoSelectDate(p1, d2, r2).Success?
    ensures var p2 := DoSelectDate(p1, d2, r2).value;
      && p2.selectedCals == [d1, d2]
      && forall q :: ValidRef(p.cells, q) ==> ValidRef(p2.cells, q) && CellAt(p2.cells, q) == TwoDays(CellAt(p.cells, q), d1, d2)
  {
    SelectRange(p1, d2, r2);
    var p2 := DoSelectDate(p1, d2, r2).value;
    SameShapeRefs(p.cells, p1.cells, r2);
    OnlyCell(p, r1);
    OnlyCell(p, r2);
    LaterCells(p.cells, p1.cells, p2.cells, r1, r2, d1, d2);
  }

  /** The same day again keeps its single cell selected, with the day listed twice. */
  lemma SecondSame(p: Picker, p1: Picker, r1: CellRef, d1: Day, r2: CellRef)
    requires AnchoredAt(p, p1, r1, d1)
    requires ValidRef(p1.cells, r2) && CellAt(p1.cells, r2).date == d1 && CellAt(p1.cells, r2).isSelectable
    ensures DoSelectDate(p1, d1, r2).Success?
    ensures var p2 := DoSelectDate(p1, d1, r2).value;
      && p2.selectedCals == [d1, d1]
      && forall q :: ValidRef(p.cells, q) ==> ValidRef(p2.cells, q) && CellAt(p2.cells, q) == TwoDays(CellAt(p.cells, q), d1, d1)
  {
    SameShapeRefs(p.cells, p1.cells, r2);
    OnlyCell(p, r1);
    assert r2 == r1;
    ReselectAnchor(p1);
    var p2 := DoSelectDate(p1, d1, r2).value;
    forall q | ValidRef(p1.cells, q)
      ensures ValidRef(p2.cells, q) && CellAt(p2.cells, q) == Anchored(CellAt(p1.cells, q), q, r1)
    {
      SameShapeRefs(p1.cells, p2.cells, q);
    }
    ReanchoredCells(p.cells, p1.cells, p2.cells, r1, r1, d1, d1);
  }

  /** An earlier second day starts over with that day alone. */
  lemma SecondEarlier(p: Picker, p1: Picker, r1: CellRef, d1: Day, r2: CellRef, d2: Day)
    requires AnchoredAt(p, p1, r1, d1) && d2 < d1
    requires ValidRef(p1.cells, r2) && CellAt(p1.cells, r2).date == d2 && CellAt(p1.cells, r2).isSelectable
    ensures DoSelectDate(p1, d2, r2).Success?
    ensures var p2 := DoSelectDate(p1, d2, r2).value;
      && p2.selectedCals == [d2]
      && forall q :: ValidRef(p.cells, q) ==> ValidRef(p2.cells, q) && CellAt(p2.cells, q) == TwoDays(CellAt(p.cells, q), d1, d2)
  {
    SameShapeRefs(p.cells, p1.cells, r2);
    SelectRestarts(p1, d2, r2);
    var p2 := DoSelectDate(p1, d2, r2).value;
    OnlyCell(p, r2);
    forall q | ValidRef(p1.cells, q)
      ensures ValidRef(p2.cells, q) && CellAt(p2.cells, q) == Anchored(CellAt(p1.cells, q), q, r2)
    {
      SameShapeRefs(p1.cells, p2.cells, q);
    }
    ReanchoredCells(p.cells, p1.cells, p2.cells, r1, r2, d1, d2);
  }

  /**
   * Two `selectDate` calls on a fresh picker, described by the days alone: the cells end up as
   * `TwoDays` says, and the listed days are the two days in order, or the second alone when it
   * is earlier.
   */
  lemma SelectTwoDates(p: Picker, t1: Instant, t2: Instant)
    requires Sound(p) && p.selectedCals == []
    requires ValidateDate(p, Some(t1)).Success? && ValidateDate(p, Some(t2)).Success?
    ensures SelectDate(p, Some(t1)).Success?
    ensures var p1 := SelectDate(p, Some(t1)).value.0;
      && SelectDate(p1, Some(t2)).Success?
      && var p2, d1, d2 := SelectDate(p1, Some(t2)).value.0, DayOf(t1), DayOf(t2);
      && p2.selectedCals == (if d2 < d1 then [d2] else [d1, d2])
      && forall q :: ValidRef(p.cells, q) ==> ValidRef(p2.cells, q) && CellAt(p2.cells, q) == TwoDays(CellAt(p.cells, q), d1, d2)
  {
    var d1, d2 := DayOf(t1), DayOf(t2);
    var r1 := FirstSelection(p, t1);
    var p1 := SelectDate(p, Some(t1)).value.0;
    var r2 := SelectDateFinds(p1, t2);
    if d1 < d2 {
      SecondLater(p, p1, r1, d1, r2, d2);
    } else if d1 == d2 {
      SecondSame(p, p1, r1, d1, r2);
    } else {
      SecondEarlier(p, p1, r1, d1, r2, d2);
    }
  }

  /** A restart on a sound picker shows the new day alone, whatever was selected before. */
  lemma NextRestarts(p: Picker, d: Day, r: CellRef)
    requires Sound(p) && ValidRef(p.cells, r) && CellAt(p.cells, r).date == d && CellAt(p.cells, r).isSelectable
    requires p.selectedCals == [] || StartsOver(p, d)
    ensures DoSelectDate(p, d, r).Success?
    ensures var out := DoSelectDate(p, d, r).value;
      && out.selectedCals == [d]
      && forall q :: ValidRef(p.cells, q) ==> ValidRef(out.cells, q) && CellAt(out.cells, q) == TwoDays(CellAt(p.cells, q), d, d)
  {
    SelectRestarts(p, d, r);
    OnlyCell(p, r);
    var out := DoSelectDate(p, d, r).value;
    forall q | ValidRef(p.cells, q)
      ensures ValidRef(out.cells, q) && CellAt(out.cells, q) == TwoDays(CellAt(p.cells, q), d, d)
    {
      SameShapeRefs(p.cells, out.cells, q);
      AnchoredTwoDays(CellAt(p.cells, q), q, r, d, d);
    }
  }

  /** The single listed day again, on a sound picker, keeps it selected alone and lists it twice. */
  lemma NextSame(p: Picker, r: CellRef)
    requires Sound(p) && |p.selectedCals| == 1 && ValidRef(p.cells, r)
    requires CellAt(p.cells, r).date == p.selectedCals[0] && CellAt(p.cells, r).isSelectable
    ensures DoSelectDate(p, p.selectedCals[0], r).Success?
    ensures var a, out := p.selectedCals[0], DoSelectDate(p, p.selectedCals[0], r).value;
      && out.selectedCals == [a, a]
      && forall q :: ValidRef(p.cells, q) ==> ValidRef(out.cells, q) && CellAt(out.cells, q) == TwoDays(CellAt(p.cells, q), a, a)
  {
    var a := p.selectedCals[0];
    OnlyCell(p, r);
    assert r == p.selectedCells[0];
    ReselectAnchor(p);
    var out := DoSelectDate(p, a, r).value;
    forall q | ValidRef(p.cells, q)
      ensures ValidRef(out.cells, q) && CellAt(out.cells, q) == TwoDays(CellAt(p.cells, q), a, a)
    {
      SameShapeRefs(p.cells, out.cells, q);
      AnchoredTwoDays(CellAt(p.cells, q), q, r, a, a);
    }
  }

  /** A day after the single listed one, on a sound picker, makes the range between the two. */
  lemma NextLater(p: Picker, b: Day, rb: CellRef)
    requires Sound(p) && |p.selectedCals| == 1 && p.selectedCals[0] < b
    requires ValidRef(p.cells, rb) && CellAt(p.cells, rb).date == b && CellAt(p.cells, rb).isSelectable
    ensures DoSelectDate(p, b, rb).Success?
    ensures var a, out := p.selectedCals[0], DoSelectDate(p, b, rb).value;
      && out.selectedCals == [a, b]
      && forall q :: ValidRef(p.cells, q) ==> ValidRef(out.cells, q) && CellAt(out.cells, q) == TwoDays(CellAt(p.cells, q), a, b)
  {
    var a, ra := p.selectedCals[0], p.selectedCells[0];
    SelectRange(p, b, rb);
    OnlyCell(p, ra);
    OnlyCell(p, rb);
    var out := DoSelectDate(p, b, rb).value;
    forall q | ValidRef(p.cells, q)
      ensures ValidRef(out.cells, q) && CellAt(out.cells, q) == TwoDays(CellAt(p.cells, q), a, b)
    {
      SameShapeRefs(p.cells, out.cells, q);
      RangedTwoDays(CellAt(p.cells, q), q, ra, rb, a, b);
    }
  }

  /**
   * `selectDate` on any sound picker, described by the days alone: the date's day `d` is listed
   * after the single listed day when it is not before it, and alone otherwise, and the cells show
   * `TwoDays` from the first listed day to `d`, whatever the selection was before.
   */
  lemma SelectNext(p: Picker, t: Instant)
    requires Sound(p) && ValidateDate(p, Some(t)).Success?
    ensures SelectDate(p, Some(t)).Success?
    ensures var out, d := SelectDate(p, Some(t)).value.0, DayOf(t);
      && out.selectedCals == (if StartsOver(p, d) then [] else p.selectedCals) + [d]
      && forall q :: ValidRef(p.cells, q) ==>
           ValidRef(out.cells, q) && CellAt(out.cells, q) == TwoDays(CellAt(p.cells, q), out.selectedCals[0], d)
  {
    var d := DayOf(t);
    var r := SelectDateFinds(p, t);
    DoSelectSound(p, d, r);
    if p.selectedCals == [] || StartsOver(p, d) {
      NextRestarts(p, d, r);
    } else if p.selectedCals[0] == d {
      NextSame(p, r);
    } else {
      NextLater(p, d, r);
    }
  }

  /** `withSelectedDates` with two dates is the two `selectDate` calls in order. */
  lemma WithTwoDates(p: Picker, t1: Instant, t2: Instant)
    requires Sound(p) && p.selectedCals == []
    requires ValidateDate(p, Some(t1)).Success? && ValidateDate(p, Some(t2)).Success?
    ensures SelectDate(p, Some(t1)).Success?
    ensures SelectDate(SelectDate(p, Some(t1)).value.0, Some(t2)).Success?
    ensures WithSelectedDates(p, [Some(t1), Some(t2)])
         == Success(SelectDate(SelectDate(p, Some(t1)).value.0, Some(t2)).value.0)
  {
    SelectTwoDates(p, t1, t2);
    var p1 := SelectDate(p, Some(t1)).value.0;
    assert [Some(t1), Some(t2)][1..] == [Some(t2)];
    assert [Some(t2)][1..] == [];
    assert SelectAll(p1, [Some(t2)]) == SelectAll(SelectDate(p1, Some(t2)).value.0, []);
  }
}
