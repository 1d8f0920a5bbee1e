# Date grid and range selection of `CalendarMainView`

A Dafny model of the core of `CalendarMainView`, an Android date picker that runs in RANGE
selection mode. The model covers two parts.

- **The date grid** (`init`, `getMonthCells`). `init` checks its bounds and moves both of them
  to midnight. It then moves the exclusive upper bound back one minute and builds one grid per
  month, from the month of `minCal` to the month of `maxCal`. Each grid is made of week rows of
  seven consecutive days. The first row starts on the default locale's first weekday, on or
  before the 1st. Each cell is a `MonthCellDescriptor` carrying the flags `isCurrentMonth`, `isSelectable`,
  `isSelected`, `isToday` and `rangeState`.
- **The selection state machine** (`selectDate`, `validateDate`, `getMonthCellWithIndexByDate`,
  `doSelectDate`, `clearOldSelections`, `Initializer.withSelectedDates`). The first date becomes
  the anchor. A later date closes a range: the anchor's cell is FIRST and the new cell is LAST.
  Every selectable cell strictly between them becomes selected and MIDDLE. An earlier date, or
  any date after a range, starts over.

Files:

- `calendar.dfy`: day numbers and the Gregorian fields YEAR, MONTH and DAY_OF_MONTH, proved to
  round-trip. It also holds month keys, `setMidnight` and `betweenDates`.
- `indexed_map.dfy`: the insertion-ordered month map, with `getIndexOfKey`, `get`,
  `getValueAtIndex` and `put`.
- `month_grid.dfy`: `getMonthCells` and its helpers `minDate`, `maxDate` and `containsDate`.
- `cell_store.dfy`: references to descriptors, and the two setters `setSelected` and
  `setRangeState`.
- `calendar_view.dfy`: `init`, its month loop, and what a laid-out picker guarantees.
- `selection.dfy`: validation, the cell search, `doSelectDate` step by step,
  `selectDate`, `withSelectedDates`, and the properties of whole selection sequences.

Descriptors are compared by identity in Java, and the same object sits both in the grid and in
`selectedCells`. The model names a descriptor by its position, `CellRef(month, row, col)`. A setter
call becomes a functional update at that position. Four invariants carry the selection proofs:

- `Tracked`: a cell is selected exactly when it is listed in `selectedCells`, and only listed
  cells carry a range state.
- `LaidOut`: the grids differ from the ones `init` built only in selection flags.
- `InSpan`: every listed day lies between the bounds.
- `Listed`: at most two days are listed, a single listed day goes with a single listed cell, and
  the first listed cell is a selectable cell showing the first listed day.

`Sound` is the four together. `init` establishes `Sound` and `selectDate` keeps it, so every
property stated for a `Sound` picker holds after any sequence of selections.

Behaviour of the code that the model keeps:

- `validateDate` accepts instants from the midnight of `minDate`'s day (`minCal`) up to and
  including one minute before the midnight of `maxDate`'s day (`maxCal`, 23:59:00.000 of the last
  selectable day). An instant earlier than `minDate` on the same day is accepted. An instant later
  than 23:59:00.000 on the last selectable day is rejected, although that day's cell is
  selectable.
- A date whose cell cannot be found makes `selectDate` return `false`. It does not raise an error.
- `highlightedCals` is never filled, so `isHighlighted` is always false.
- `doSelectDate` changes cells before it reads the month index, so a failing lookup would leave a
  partial update behind. This cannot happen on a `Sound` picker: `SelectDateSound` shows
  that every valid date succeeds.
- Selecting the single anchor's date again lists the day a second time but not the cell. The
  result is two listed days, one listed cell and no range (`ReselectAnchor`). The next date then
  starts over.
- `getMonthCells` starts each grid on the first weekday of a `Calendar.getInstance()`, that is, of
  the default locale, not of the locale given to `init`.

## Model

All source paths are below `app/src/main/java/com/example/luke/customcalendar/calendar/`,
written in full in the table.

| member | source | states |
|---|---|---|
| Calendar.CivilOfDayNumber | app/src/main/java/com/example/luke/customcalendar/calendar/CalendarMainView.java:374-378 | The YEAR, MONTH and DAY_OF_MONTH fields of a valid date's day number give back that date, so the fields identify a day. |
| Calendar.Civil | app/src/main/java/com/example/luke/customcalendar/calendar/CalendarMainView.java:374-378 | The fields of a day form a valid date whose day number is that day. |
| Calendar.SameDateIsEquality | app/src/main/java/com/example/luke/customcalendar/calendar/CalendarMainView.java:374-378 | `sameDate` holds exactly when both calendars fall on the same day. |
| Calendar.Midnight | app/src/main/java/com/example/luke/customcalendar/calendar/CalendarMainView.java:539-544 | `setMidnight` gives the midnight of the input's day: a whole number of days, no later than the input and less than a day before it. |
| Calendar.MinuteBeforeMidnight | app/src/main/java/com/example/luke/customcalendar/calendar/CalendarMainView.java:147-149 | One minute before the midnight of day `d` lies on day `d - 1`, so an upper bound at a month's first midnight does not pull in that month. |
| Calendar.BetweenMidnights | app/src/main/java/com/example/luke/customcalendar/calendar/CalendarMainView.java:284-288 | With bounds at a midnight and at one minute before a midnight, `betweenDates` holds for a day's midnight exactly when the day lies in the half-open day range. |
| Calendar.KeyOfIff | app/src/main/java/com/example/luke/customcalendar/calendar/CalendarMainView.java:546-552 | A day's `monthKey` is `k` exactly when the day lies between the first and last day of month `k`. |
| Calendar.KeyOfMonotone | app/src/main/java/com/example/luke/customcalendar/calendar/CalendarMainView.java:506-508 | A later day never has an earlier month key, so the start month index is not after the end month index. |
| Calendar.NextMonthFirst | app/src/main/java/com/example/luke/customcalendar/calendar/CalendarMainView.java:164 | `add(MONTH, 1)` moves to a month whose first day follows the last day of the current month. |
| Calendar.NearbyMonthField | app/src/main/java/com/example/luke/customcalendar/calendar/CalendarMainView.java:226 | For days less than a week outside month `k`, comparing only the MONTH field is the same as being in month `k`. |
| IndexedMap.IndexOfKey | app/src/main/java/com/example/luke/customcalendar/calendar/CalendarMainView.java:361 | `getIndexOfKey` returns the first position holding the key, and nothing exactly when no entry has it. |
| IndexedMap.Get | app/src/main/java/com/example/luke/customcalendar/calendar/CalendarMainView.java:362 | `get` returns a value stored under the key, and nothing exactly when the key is absent. |
| IndexedMap.Put | app/src/main/java/com/example/luke/customcalendar/calendar/CalendarMainView.java:162 | `put` appends a new key at the end and keeps the position of an existing one. Afterwards the key maps to the new value, no other key's lookup changes, and keys stay distinct. |
| MonthGrid.ContainsDate | app/src/main/java/com/example/luke/customcalendar/calendar/CalendarMainView.java:270-277 | `containsDate` is true exactly when the day is in the list. |
| MonthGrid.MinDate | app/src/main/java/com/example/luke/customcalendar/calendar/CalendarMainView.java:254-260 | `minDate` returns a listed day that no listed day precedes. |
| MonthGrid.MaxDate | app/src/main/java/com/example/luke/customcalendar/calendar/CalendarMainView.java:262-268 | `maxDate` returns a listed day that no listed day follows. |
| MonthGrid.RangeOfSpec | app/src/main/java/com/example/luke/customcalendar/calendar/CalendarMainView.java:234-243 | With at most one selected day, a new cell's range state is NONE. Otherwise it is FIRST exactly at the earliest day, LAST exactly at a distinct latest day, MIDDLE exactly strictly between them, and NONE outside. |
| MonthGrid.StartOffset | app/src/main/java/com/example/luke/customcalendar/calendar/CalendarMainView.java:209-215 | The grid starts 0 to 6 days before the 1st, on the default locale's first weekday. |
| MonthGrid.RowContinuesIff | app/src/main/java/com/example/luke/customcalendar/calendar/CalendarMainView.java:220-221 | The row loop's guard, written on MONTH and YEAR, holds exactly while the row starts before the next month's first day. |
| MonthGrid.DayRowsShape | app/src/main/java/com/example/luke/customcalendar/calendar/CalendarMainView.java:220-250 | The loop makes one row per started week up to the month's end. Each row has 7 cells, and row `i`, column `c` holds day `start + 7i + c`. |
| MonthGrid.MonthCells | app/src/main/java/com/example/luke/customcalendar/calendar/CalendarMainView.java:205-252 | A month grid has 4 to 6 rows of 7 cells. |
| MonthGrid.GridBounds | app/src/main/java/com/example/luke/customcalendar/calendar/CalendarMainView.java:205-252 | The first row starts on the first weekday, at most a week before the 1st. The last row still starts inside the month and reaches the month's end. |
| MonthGrid.MakeCellSpec | app/src/main/java/com/example/luke/customcalendar/calendar/CalendarMainView.java:224-247 | Each descriptor shows its date and day of month. It is current-month exactly in month `k`, selectable exactly in `k` and between the bounds, and selected exactly in `k` when the day is listed. It is today exactly on `today`, and its range state follows `RangeOf`. |
| MonthGrid.GridCell | app/src/main/java/com/example/luke/customcalendar/calendar/CalendarMainView.java:224-229 | Cell (`i`, `c`) of a built grid holds day `start + 7i + c`, with current-month and selectable flags as the month and bounds decide. |
| MonthGrid.GridCoversSelectable | app/src/main/java/com/example/luke/customcalendar/calendar/CalendarMainView.java:220-250 | Every day of the month appears in the grid, selectable exactly when it lies between the bounds. |
| MonthGrid.GridCellUnselected | app/src/main/java/com/example/luke/customcalendar/calendar/CalendarMainView.java:227-243 | With no selected days, no cell of a new grid is selected or has a range state. |
| CellStore.Apply | app/src/main/java/com/example/luke/customcalendar/calendar/CalendarMainView.java:495 | A setter call changes the one flag of the one descriptor and leaves every other descriptor and the grid shape unchanged. |
| CellStore.ApplyAll | app/src/main/java/com/example/luke/customcalendar/calendar/CalendarMainView.java:479-481 | A setter loop over a list changes exactly the listed descriptors, each in that one flag. |
| CalendarView.Init | app/src/main/java/com/example/luke/customcalendar/calendar/CalendarMainView.java:105-170 | `init` fails exactly on a null bound (NullBound) or `minDate` after `maxDate` (MinAfterMax). Otherwise `minCal` lies less than a day at or before `minDate`, and `maxCal` plus one minute lies less than a day at or before `maxDate`. |
| CalendarView.MonthLoopContinuesIff | app/src/main/java/com/example/luke/customcalendar/calendar/CalendarMainView.java:153-157 | The month loop's guard, on MONTH and YEAR, holds exactly while the counter's month is not after the month of `maxCal`. |
| CalendarView.MonthLoop | app/src/main/java/com/example/luke/customcalendar/calendar/CalendarMainView.java:152-165 | The loop appends one built month per month from the counter to the last month. Entry `i` is the `i`-th month after the first, with its grid. |
| CalendarView.InitLaysOut | app/src/main/java/com/example/luke/customcalendar/calendar/CalendarMainView.java:136-165 | After `init`, `minCal` is the midnight of `minDate`'s day and `maxCal` is one minute before the midnight of `maxDate`'s day. The grids lay out the months from `minDate`'s to that of the day before `maxDate`'s day, and both selection lists are empty. |
| CalendarView.LayoutMonths | app/src/main/java/com/example/luke/customcalendar/calendar/CalendarMainView.java:152-165 | The built months are consecutive and in order from the first month, and their keys are distinct. |
| CalendarView.LayoutCovers | app/src/main/java/com/example/luke/customcalendar/calendar/CalendarMainView.java:220-250 | Every day in the range has a selectable cell, in the month at its distance from the first month. |
| CalendarView.LayoutSelectable | app/src/main/java/com/example/luke/customcalendar/calendar/CalendarMainView.java:228-229 | A selectable cell is a current-month cell of its own month's grid, and its day lies in the range. |
| CalendarView.LayoutUnique | app/src/main/java/com/example/luke/customcalendar/calendar/CalendarMainView.java:224-229 | No two selectable cells show the same day. |
| CalendarView.LayoutUnselected | app/src/main/java/com/example/luke/customcalendar/calendar/CalendarMainView.java:136-137 | Right after `init`, no cell is selected or has a range state. |
| CalendarView.PickerMonthIndex | app/src/main/java/com/example/luke/customcalendar/calendar/CalendarMainView.java:361 | On a laid-out picker, `getIndexOfKey` finds every in-range day's month at its distance from the first month. |
| CalendarView.PickerUnique | app/src/main/java/com/example/luke/customcalendar/calendar/CalendarMainView.java:363-368 | On a laid-out picker, at most one selectable cell shows a given day, so the cell search has one answer. |
| Selection.ValidateDate | app/src/main/java/com/example/luke/customcalendar/calendar/CalendarMainView.java:333-343 | Null fails with NullDate. A date before `minCal` or after `maxCal` fails with OutOfRange. Otherwise the date passes. |
| Selection.ValidMidnight | app/src/main/java/com/example/luke/customcalendar/calendar/CalendarMainView.java:337 | A day's midnight passes validation exactly when the day lies in the picker's day range. |
| Selection.FindInRow | app/src/main/java/com/example/luke/customcalendar/calendar/CalendarMainView.java:364-369 | The inner search returns the first matching cell of a row, and nothing exactly when none matches. |
| Selection.FindInGrid | app/src/main/java/com/example/luke/customcalendar/calendar/CalendarMainView.java:363-371 | The row-by-row search returns the first matching cell in row-major order, and nothing exactly when none matches. |
| Selection.FindCell | app/src/main/java/com/example/luke/customcalendar/calendar/CalendarMainView.java:355-372 | The lookup fails exactly when the day's month key is missing. A found cell is a selectable cell showing the day in that month. Nothing found means no selectable cell of the month shows the day. |
| Selection.FindCellLaidOut | app/src/main/java/com/example/luke/customcalendar/calendar/CalendarMainView.java:355-372 | On a laid-out picker, a cell is found exactly for days in range. It is the one selectable cell showing the day. |
| Selection.ResetRangesPlain | app/src/main/java/com/example/luke/customcalendar/calendar/CalendarMainView.java:478-481 | Resetting the listed cells' range states leaves no range state anywhere, and the listed cells still exactly the selected ones. |
| Selection.ClearOldSelections | app/src/main/java/com/example/luke/customcalendar/calendar/CalendarMainView.java:530-537 | `clearOldSelections` empties both lists and changes nothing else of the view apart from cell flags. |
| Selection.ClearPlain | app/src/main/java/com/example/luke/customcalendar/calendar/CalendarMainView.java:530-537 | After clearing, no cell is selected. |
| Selection.Prepare | app/src/main/java/com/example/luke/customcalendar/calendar/CalendarMainView.java:478-489 | With more than one listed day, or one listed day later than the new date, both lists are emptied. Otherwise they are kept. |
| Selection.AddAnchor | app/src/main/java/com/example/luke/customcalendar/calendar/CalendarMainView.java:491-497 | The new day is always appended. The cell is appended unless it is already the first listed cell. |
| Selection.MiddleRefs | app/src/main/java/com/example/luke/customcalendar/calendar/CalendarMainView.java:508-521 | The middle scan lists exactly the selectable cells strictly between the two days within the scanned months. |
| Selection.RangeMiddlesMembers | app/src/main/java/com/example/luke/customcalendar/calendar/CalendarMainView.java:506-521 | The scan covers the months from the first day's month index through the second day's. |
| Selection.MarkEndsCells | app/src/main/java/com/example/luke/customcalendar/calendar/CalendarMainView.java:503-504 | The first listed cell becomes FIRST and the second LAST. LAST wins when both are the same cell. |
| Selection.MarkMiddlesCells | app/src/main/java/com/example/luke/customcalendar/calendar/CalendarMainView.java:515-517 | Exactly the scanned middle cells become selected and MIDDLE. |
| Selection.DoSelectDate | app/src/main/java/com/example/luke/customcalendar/calendar/CalendarMainView.java:472-528 | `doSelectDate` keeps the list references valid, keeps an empty day list with an empty cell list, and keeps the grid shape and the other fields. |
| Selection.DoSelectTracked | app/src/main/java/com/example/luke/customcalendar/calendar/CalendarMainView.java:472-528 | `doSelectDate` keeps selected flags equal to list membership, and range states only on listed cells. |
| Selection.DoSelectLaidOut | app/src/main/java/com/example/luke/customcalendar/calendar/CalendarMainView.java:472-528 | `doSelectDate` changes no cell except in its selection flags. |
| Selection.SelectRestarts | app/src/main/java/com/example/luke/customcalendar/calendar/CalendarMainView.java:483-497 | From an empty selection, after a range, or with a date before the anchor, the outcome is only the new day and cell. Every cell is deselected and unranged except the new one, which is selected. |
| Selection.ReselectAnchor | app/src/main/java/com/example/luke/customcalendar/calendar/CalendarMainView.java:491-497 | Selecting the anchor's date again lists that day twice and the cell once, and no range is drawn. |
| Selection.SelectRange | app/src/main/java/com/example/luke/customcalendar/calendar/CalendarMainView.java:499-521 | Selecting a later day after a single anchor lists both days. The anchor cell is FIRST and the new cell LAST. The selectable cells strictly between are selected and MIDDLE, and all others are plain. |
| Selection.SelectDate | app/src/main/java/com/example/luke/customcalendar/calendar/CalendarMainView.java:319-331 | Null fails with NullDate and an out-of-range date with OutOfRange; no other failure but a missing month. A `false` result leaves the view unchanged. A success keeps the picker consistent and changes only cell flags and the two lists. |
| Selection.InitSound | app/src/main/java/com/example/luke/customcalendar/calendar/CalendarMainView.java:105-170 | `init` yields a sound picker with nothing selected and no range state. |
| Selection.DoSelectSound | app/src/main/java/com/example/luke/customcalendar/calendar/CalendarMainView.java:472-528 | On a sound picker, `doSelectDate` with an in-range day succeeds, keeps the cells laid out and in step with the lists, and keeps the picker sound when given the day's own selectable cell. The day list becomes the old one, or empty when starting over, followed by the new day. |
| Selection.DoSelectKeeps | app/src/main/java/com/example/luke/customcalendar/calendar/CalendarMainView.java:472-528 | On a laid-out, tracked picker with listed days in range, `doSelectDate` with an in-range day and any cell succeeds and keeps all three properties. The day list becomes the old one, or empty when starting over, followed by the new day. |
| Selection.DoSelectListed | app/src/main/java/com/example/luke/customcalendar/calendar/CalendarMainView.java:483-497 | Selecting a day's own cell keeps at most two days listed and one cell per single listed day, with the first listed cell showing the first listed day. `clearOldSelections` runs whenever more than one day is listed. |
| Selection.SelectDateSound | app/src/main/java/com/example/luke/customcalendar/calendar/CalendarMainView.java:319-331 | On a sound picker, `selectDate` succeeds exactly for valid dates. It then returns `true`, keeps the picker sound, and lists the date's day last. |
| Selection.SelectAll | app/src/main/java/com/example/luke/customcalendar/calendar/CalendarMainView.java:303-307 | Selecting dates in turn fails only with a validation or lookup error, and otherwise keeps the picker consistent. |
| Selection.SelectAllSound | app/src/main/java/com/example/luke/customcalendar/calendar/CalendarMainView.java:303-307 | On a sound picker, selecting a sequence of dates succeeds exactly when every date is valid, and keeps the picker sound. |
| Selection.WithSelectedDates | app/src/main/java/com/example/luke/customcalendar/calendar/CalendarMainView.java:297-312 | `withSelectedDates` rejects more than two dates with TooManyDates, and only then. |
| Selection.FirstSelection | app/src/main/java/com/example/luke/customcalendar/calendar/CalendarMainView.java:491-497 | The first selection on an empty picker selects the date's cell alone. |
| Selection.SecondLater | app/src/main/java/com/example/luke/customcalendar/calendar/CalendarMainView.java:499-521 | After a single anchor at `d1`, selecting `d2 > d1` gives FIRST at `d1`, LAST at `d2` and MIDDLE on the selectable days between. |
| Selection.SecondSame | app/src/main/java/com/example/luke/customcalendar/calendar/CalendarMainView.java:491-497 | After a single anchor at `d1`, selecting `d1` again lists it twice and shows `d1` alone. |
| Selection.SecondEarlier | app/src/main/java/com/example/luke/customcalendar/calendar/CalendarMainView.java:486-489 | After a single anchor at `d1`, selecting `d2 < d1` clears the anchor and shows `d2` alone. |
| Selection.SelectTwoDates | app/src/main/java/com/example/luke/customcalendar/calendar/CalendarMainView.java:472-528 | Selecting two valid dates on an empty picker shows the range between them, or only the second date when it is earlier. The outcome is stated cell by cell in terms of the two days alone. |
| Selection.NextRestarts | app/src/main/java/com/example/luke/customcalendar/calendar/CalendarMainView.java:483-497 | On any sound picker, starting over lists only the new day, and the cells show that day alone as on a fresh picker. |
| Selection.NextSame | app/src/main/java/com/example/luke/customcalendar/calendar/CalendarMainView.java:491-497 | On any sound picker with one listed day, selecting that day's cell again lists the day twice and shows it alone. |
| Selection.NextLater | app/src/main/java/com/example/luke/customcalendar/calendar/CalendarMainView.java:499-521 | On any sound picker with one listed day, a later day lists both days and shows the range between them, FIRST, MIDDLE and LAST as on a fresh picker. |
| Selection.SelectNext | app/src/main/java/com/example/luke/customcalendar/calendar/CalendarMainView.java:319-331 | `selectDate` of a valid date on any sound picker succeeds. It lists the new day after the single listed day when it is not earlier, and alone otherwise. Every cell then shows `TwoDays` from the first listed day to the new day, whatever was selected before. |
| Selection.WithTwoDates | app/src/main/java/com/example/luke/customcalendar/calendar/CalendarMainView.java:297-312 | `withSelectedDates` with two dates equals selecting them one after the other. |

## Left out

- `IndexedLinkedHashMap` is not part of this model. It is modelled as a sequence of (key, value)
  pairs in insertion order. `getIndexOfKey` and `get` on a missing key are taken to fail: the
  result is `MissingMonth`, where Java would dereference null or use an unknown index. On a
  `Sound` picker this never happens.
- `MonthCellDescriptor` and `MonthDescriptor` are not part of this model. Descriptor equality
  (`selectedCells.get(0).equals(cell)`) is taken as object identity, that is, equal `CellRef`s.
- Time zones, locales and Java's `Calendar` class: the model reads instants on one wall clock with
  no daylight-saving shifts. It takes today's day and the default locale's first weekday as
  inputs. It ignores two mismatches. `getMonthCells`, `getMonthCellWithIndexByDate` and
  `doSelectDate` (source lines 206, 356 and 473) use the default zone while `init` uses the
  given one. `getMonthCells` also takes the first weekday from
  the default locale (source lines 206 and 211), not from the locale given to `init`.
- Dates before 1582-10-15: the model counts days in the proleptic Gregorian calendar. Java's
  `GregorianCalendar` switches to Julian rules before that date, so the model's YEAR, MONTH,
  DAY_OF_MONTH and DAY_OF_WEEK differ from Java's there.
- The `Locale`/`TimeZone` null checks of `init` (source lines 114-119): the model has no null
  locale or zone to reject.
- The constructor, `formatMonthDate`, the label and formatter setup, `MonthAdapter`, the
  scroll methods (`scrollToSelectedMonth`, `scrollToSelectedDates`), `validateAndUpdate` and
  `setCustomDayView`: these are view plumbing with no effect on the cells or the selection.
- `MonthView`, `CalendarGridView`, `DefaultDayViewAdapter` and `MainActivity`: these are
  rendering and the host activity.
- `CellClickedListener.handleClick`: this calls `doSelectDate` with a clicked cell, which
  `Selection.DoSelectDate` models directly. The view layer that delivers clicks is left out.
- `highlightedCals`: nothing in the view adds to it, so grids are built with an empty highlight
  list.
- `selectDate(date, smoothScroll)`: the scroll flag only affects scrolling. The month index it
  passes to the scroller is not returned.
- Selection.SelectDate: a failure returns an error without the partially changed view. Java would
  throw after the range-state reset. The failure is unreachable on `Sound` pickers.
- Selection.WithSelectedDates: a `null` collection is not modelled (a sequence is never null),
  and a failure does not keep the dates selected before it.
- MonthGrid.MinDate: the empty list, for which Java returns null, is excluded by the
  precondition. Its only use reads the result when more than one day is listed.
- MonthGrid.MaxDate: the empty list is excluded, as for `MinDate`.
- Instants and day numbers are unbounded integers, where Java uses 64-bit `long`
  milliseconds and `int` fields. Overflow is not modelled.
