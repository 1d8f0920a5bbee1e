/**
 * Whole-day Gregorian date arithmetic: the part of `java.util.Calendar` the date picker relies on.
 *
 * A day is a day number counted from 0001-01-01 of the proleptic Gregorian calendar (day 0 is a
 * Monday). Java's `GregorianCalendar` follows the Julian rules before 1582-10-15; the model does
 * not, so its days before that date differ from Java's. Months are numbered 0..11 and weekdays
 * 1 (Sunday) .. 7 (Saturday), as Java's MONTH and DAY_OF_WEEK fields are. An instant is a count
 * of milliseconds on the configured zone's wall clock since 1970-01-01T00:00.
 */
module Calendar {

  type Day = int
  type Instant = int
  type MonthOfYear = m: int | 0 <= m < 12
  type DayOfWeek = w: int | 1 <= w <= 7 witness 1

  const MS_PER_MINUTE: int := 60_000
  const MS_PER_DAY: int := 86_400_000
  /** The day number of 1970-01-01, where instants start. */
  const UNIX_EPOCH_DAY: Day := 719_162

  /** YEAR, MONTH (0-based) and DAY_OF_MONTH of a day. */
  datatype CivilDate = CivilDate(year: int, month: MonthOfYear, day: int)

  /** The (year, month) identity of a month; the source renders it as the string `year-month`. */
  datatype MonthKey = MonthKey(year: int, month: MonthOfYear)

  // ---------------------------------------------------------------------------------------------
  // Years and months
  // ---------------------------------------------------------------------------------------------

  predicate IsLeapYear(y: int) {
    y % 4 == 0 && (y % 100 != 0 || y % 400 == 0)
  }

  function DaysInYear(y: int): int {
    if IsLeapYear(y) then 366 else 365
  }

  function DaysInMonth(y: int, m: MonthOfYear): int {
    if m == 1 then (if IsLeapYear(y) then 29 else 28)
    else if m == 3 || m == 5 || m == 8 || m == 10 then 30
    else 31
  }

  /** Days of year `y` before the first of month `m`; `m == 12` gives the length of the year. */
  function DaysBeforeMonth(y: int, m: int): int
    requires 0 <= m <= 12
  {
    var common :=
      if m < 6 then
        (if m == 0 then 0 else if m == 1 then 31 else if m == 2 then 59
         else if m == 3 then 90 else if m == 4 then 120 else 151)
      else
        (if m == 6 then 181 else if m == 7 then 212 else if m == 8 then 243
         else if m == 9 then 273 else if m == 10 then 304 else if m == 11 then 334 else 365);
    common + (if 2 <= m && IsLeapYear(y) then 1 else 0)
  }

  /**
   * Days from 0001-01-01 to January 1st of year `y`, counted year by year from 1970 (see
   * `DaysBeforeYearClosedForm` for the usual closed form).
   */
  function DaysBeforeYear(y: int): int
    decreases if y < 1970 then 1970 - y else y - 1970
  {
    if y == 1970 then UNIX_EPOCH_DAY
    else if y > 1970 then DaysBeforeYear(y - 1) + DaysInYear(y - 1)
    else DaysBeforeYear(y + 1) - DaysInYear(y)
  }

  predicate ValidDate(dt: CivilDate) {
    1 <= dt.day <= DaysInMonth(dt.year, dt.month)
  }

  function DayNumber(dt: CivilDate): Day {
    DaysBeforeYear(dt.year) + DaysBeforeMonth(dt.year, dt.month) + dt.day - 1
  }

  lemma DaysBeforeYearStep(y: int)
    ensures DaysBeforeYear(y + 1) == DaysBeforeYear(y) + DaysInYear(y)
  {
  }

  /** Euclidean division by `k` steps up by one exactly where the dividend reaches a multiple of `k`. */
  lemma DivStep(p: int, k: int)
    requires k == 4 || k == 100 || k == 400
    ensures (p + 1) / k == p / k + (if (p + 1) % k == 0 then 1 else 0)
  {
  }

  function ClosedDaysBeforeYear(y: int): int {
    var p := y - 1;
    365 * p + p / 4 - p / 100 + p / 400
  }

  lemma ClosedFormStep(y: int)
    ensures ClosedDaysBeforeYear(y + 1) == ClosedDaysBeforeYear(y) + DaysInYear(y)
  {
    var p := y - 1;
    DivStep(p, 4);
    DivStep(p, 100);
    DivStep(p, 400);
  }

  /** The year-by-year count agrees with the closed form; in particular 0001-01-01 is day 0. */
  lemma {:induction false} DaysBeforeYearClosedForm(y: int)
    ensures DaysBeforeYear(y) == ClosedDaysBeforeYear(y)
    decreases if y < 1970 then 1970 - y else y - 1970
  {
    if y > 1970 {
      DaysBeforeYearClosedForm(y - 1);
      ClosedFormStep(y - 1);
    } else if y < 1970 {
      DaysBeforeYearClosedForm(y + 1);
      ClosedFormStep(y);
    }
  }

  lemma DaysBeforeMonthWholeYear(y: int)
    ensures DaysBeforeMonth(y, 12) == DaysInYear(y)
  {
  }

  lemma DaysBeforeMonthStep(y: int, m: MonthOfYear)
    ensures DaysBeforeMonth(y, m + 1) == DaysBeforeMonth(y, m) + DaysInMonth(y, m)
  {
  }

  /** Later years start strictly later. */
  lemma {:induction false} DaysBeforeYearMonotone(a: int, b: int)
    requires a < b
    ensures DaysBeforeYear(a + 1) <= DaysBeforeYear(b)
    decreases b - a
  {
    DaysBeforeYearStep(a);
    if a + 1 < b {
      DaysBeforeYearMonotone(a + 1, b);
      DaysBeforeYearStep(a + 1);
    }
  }

  /** Later months of a year start strictly later. */
  lemma {:induction false} DaysBeforeMonthMonotone(y: int, a: int, b: int)
    requires 0 <= a < b <= 12
    ensures DaysBeforeMonth(y, a + 1) <= DaysBeforeMonth(y, b)
    decreases b - a
  {
    DaysBeforeMonthStep(y, a);
    if a + 1 < b {
      DaysBeforeMonthMonotone(y, a + 1, b);
      DaysBeforeMonthStep(y, a + 1);
    }
  }

  // ---------------------------------------------------------------------------------------------
  // From a day number back to (year, month, day)
  // ---------------------------------------------------------------------------------------------

  function YearUp(n: Day, y: int): (r: int)
    requires DaysBeforeYear(y) <= n
    ensures DaysBeforeYear(r) <= n < DaysBeforeYear(r + 1)
    decreases n - DaysBeforeYear(y)
  {
    DaysBeforeYearStep(y);
    if n < DaysBeforeYear(y + 1) then y else YearUp(n, y + 1)
  }

  function YearDown(n: Day, y: int): (r: int)
    requires n < DaysBeforeYear(y + 1)
    ensures DaysBeforeYear(r) <= n < DaysBeforeYear(r + 1)
    decreases DaysBeforeYear(y + 1) - n
  {
    DaysBeforeYearStep(y);
    if DaysBeforeYear(y) <= n then y else YearDown(n, y - 1)
  }

  /** The year a day falls in, counted up or down from 1970. */
  function YearOf(n: Day): (y: int)
    ensures DaysBeforeYear(y) <= n < DaysBeforeYear(y + 1)
  {
    if DaysBeforeYear(1970) <= n then YearUp(n, 1970) else YearDown(n, 1969)
  }

  function MonthFrom(y: int, offset: int, m: MonthOfYear): (r: MonthOfYear)
    requires DaysBeforeMonth(y, m) <= offset < DaysBeforeMonth(y, 12)
    ensures m <= r && DaysBeforeMonth(y, r) <= offset < DaysBeforeMonth(y, r + 1)
    decreases 12 - m
  {
    DaysBeforeMonthWholeYear(y);
    if offset < DaysBeforeMonth(y, m + 1) then m else MonthFrom(y, offset, m + 1)
  }

  /** The calendar fields of a day: Java's `cal.get(YEAR)`, `cal.get(MONTH)`, `cal.get(DAY_OF_MONTH)`. */
  function Civil(n: Day): (dt: CivilDate)
    ensures ValidDate(dt) && DayNumber(dt) == n
  {
    var y := YearOf(n);
    DaysBeforeYearStep(y);
    DaysBeforeMonthWholeYear(y);
    var m := MonthFrom(y, n - DaysBeforeYear(y), 0);
    DaysBeforeMonthStep(y, m);
    CivilDate(y, m, n - DaysBeforeYear(y) - DaysBeforeMonth(y, m) + 1)
  }

  /** Only one year holds a given day. */
  lemma YearUnique(n: Day, y1: int, y2: int)
    requires DaysBeforeYear(y1) <= n < DaysBeforeYear(y1 + 1)
    requires DaysBeforeYear(y2) <= n < DaysBeforeYear(y2 + 1)
    ensures y1 == y2
  {
    if y1 < y2 {
      DaysBeforeYearMonotone(y1, y2);
    } else if y2 < y1 {
      DaysBeforeYearMonotone(y2, y1);
    }
  }

  /** Only one month of a year holds a given offset into the year. */
  lemma MonthUnique(y: int, offset: int, m1: MonthOfYear, m2: MonthOfYear)
    requires DaysBeforeMonth(y, m1) <= offset < DaysBeforeMonth(y, m1 + 1)
    requires DaysBeforeMonth(y, m2) <= offset < DaysBeforeMonth(y, m2 + 1)
    ensures m1 == m2
  {
    if m1 < m2 {
      DaysBeforeMonthMonotone(y, m1, m2);
    } else if m2 < m1 {
      DaysBeforeMonthMonotone(y, m2, m1);
    }
  }

  /** The offset of a valid date into its year lies before the end of that year. */
  lemma OffsetInYear(dt: CivilDate)
    requires ValidDate(dt)
    ensures DaysBeforeMonth(dt.year, dt.month) + dt.day - 1 < DaysBeforeMonth(dt.year, dt.month + 1)
    ensures DaysBeforeYear(dt.year) <= DayNumber(dt) < DaysBeforeYear(dt.year + 1)
  {
    DaysBeforeMonthStep(dt.year, dt.month);
    DaysBeforeMonthWholeYear(dt.year);
    DaysBeforeYearStep(dt.year);
    if dt.month < 11 {
      DaysBeforeMonthMonotone(dt.year, dt.month + 1, 12);
    }
  }

  /** Distinct valid dates have distinct day numbers, so `Civil` undoes `DayNumber`. */
  lemma CivilOfDayNumber(dt: CivilDate)
    requires ValidDate(dt)
    ensures Civil(DayNumber(dt)) == dt
  {
    var n := DayNumber(dt);
    var c := Civil(n);
    assert c.year == dt.year by {
      OffsetInYear(dt);
      OffsetInYear(c);
      YearUnique(n, dt.year, c.year);
    }
    assert c.month == dt.month by {
      OffsetInYear(dt);
      OffsetInYear(c);
      MonthUnique(dt.year, n - DaysBeforeYear(dt.year), dt.month, c.month);
    }
  }

  /**
   * Java's `sameDate`: the YEAR, MONTH and DAY_OF_MONTH fields agree. On day numbers this is
   * plain equality.
   */
  predicate SameDate(a: Day, b: Day) {
    var x := Civil(a);
    var y := Civil(b);
    x.month == y.month && x.year == y.year && x.day == y.day
  }

  lemma SameDateIsEquality(a: Day, b: Day)
    ensures SameDate(a, b) <==> a == b
  {
  }

  /** DAY_OF_WEEK of a day: 1 is Sunday, and day 0 (0001-01-01) is a Monday. */
  function Weekday(n: Day): DayOfWeek {
    (n + 1) % 7 + 1
  }

  // ---------------------------------------------------------------------------------------------
  // Months as keys
  // ---------------------------------------------------------------------------------------------

  /** `monthKey(cal)`: the month a day belongs to. */
  function KeyOf(n: Day): MonthKey {
    var dt := Civil(n);
    MonthKey(dt.year, dt.month)
  }

  function FirstOf(k: MonthKey): Day {
    DayNumber(CivilDate(k.year, k.month, 1))
  }

  function LengthOf(k: MonthKey): int {
    DaysInMonth(k.year, k.month)
  }

  /** `cal.add(MONTH, 1)`, on the month of `cal`. */
  function NextMonth(k: MonthKey): MonthKey {
    if k.month == 11 then MonthKey(k.year + 1, 0) else MonthKey(k.year, k.month + 1)
  }

  function PrevMonth(k: MonthKey): MonthKey {
    if k.month == 0 then MonthKey(k.year - 1, 11) else MonthKey(k.year, k.month - 1)
  }

  /** Months counted from year 0: a total order on months. */
  function Ordinal(k: MonthKey): int {
    12 * k.year + k.month
  }

  lemma OrdinalInjective(a: MonthKey, b: MonthKey)
    ensures Ordinal(a) == Ordinal(b) <==> a == b
  {
  }

  lemma NextMonthOrdinal(k: MonthKey)
    ensures Ordinal(NextMonth(k)) == Ordinal(k) + 1
  {
  }

  /** A month ends where the next one starts. */
  lemma NextMonthFirst(k: MonthKey)
    ensures FirstOf(NextMonth(k)) == FirstOf(k) + LengthOf(k)
  {
    if k.month == 11 {
      DaysBeforeMonthWholeYear(k.year);
      DaysBeforeYearStep(k.year);
    }
  }

  /**
   * Within a week of month `k`, Java's "same MONTH field" test (which ignores the year) tells the
   * days of `k` from those of the neighbouring months.
   */
  lemma NearbyMonthField(k: MonthKey, d: Day)
    requires FirstOf(k) - 7 < d < FirstOf(NextMonth(k)) + 7
    ensures Civil(d).month == k.month <==> KeyOf(d) == k
  {
    var p, n := PrevMonth(k), NextMonth(k);
    assert NextMonth(p) == k;
    NextMonthFirst(p);
    NextMonthFirst(k);
    NextMonthFirst(n);
    MonthLengthBounds(p);
    MonthLengthBounds(n);
    if d < FirstOf(k) {
      KeyOfIff(d, p);
    } else if d < FirstOf(n) {
      KeyOfIff(d, k);
    } else {
      KeyOfIff(d, n);
    }
  }

  lemma MonthLengthBounds(k: MonthKey)
    ensures 28 <= LengthOf(k) <= 31
  {
  }

  /** A day belongs to month `k` exactly when it lies in `k`'s run of days. */
  lemma KeyOfIff(n: Day, k: MonthKey)
    ensures KeyOf(n) == k <==> FirstOf(k) <= n < FirstOf(k) + LengthOf(k)
  {
    var c := Civil(n);
    assert DayNumber(c) == n && ValidDate(c);
    if FirstOf(k) <= n < FirstOf(k) + LengthOf(k) {
      var dt := CivilDate(k.year, k.month, n - FirstOf(k) + 1);
      assert DayNumber(dt) == n;
      CivilOfDayNumber(dt);
    }
  }

  /** Earlier months end no later than later months start. */
  lemma {:induction false} FirstOfMonotone(a: MonthKey, b: MonthKey)
    requires Ordinal(a) < Ordinal(b)
    ensures FirstOf(a) + LengthOf(a) <= FirstOf(b)
    decreases Ordinal(b) - Ordinal(a)
  {
    NextMonthFirst(a);
    NextMonthOrdinal(a);
    var n := NextMonth(a);
    if Ordinal(n) == Ordinal(b) {
      OrdinalInjective(n, b);
    } else {
      FirstOfMonotone(n, b);
    }
  }

  /** Later days never belong to earlier months. */
  lemma KeyOfMonotone(n1: Day, n2: Day)
    requires n1 <= n2
    ensures Ordinal(KeyOf(n1)) <= Ordinal(KeyOf(n2))
  {
    var k1, k2 := KeyOf(n1), KeyOf(n2);
    KeyOfIff(n1, k1);
    KeyOfIff(n2, k2);
    if Ordinal(k2) < Ordinal(k1) {
      FirstOfMonotone(k2, k1);
    }
  }

  /** Comparing months by ordinal is comparing them by their first day. */
  lemma OrdinalOrderIsDayOrder(a: MonthKey, b: MonthKey)
    ensures Ordinal(a) <= Ordinal(b) <==> FirstOf(a) <= FirstOf(b)
  {
    if Ordinal(a) < Ordinal(b) {
      FirstOfMonotone(a, b);
    } else if Ordinal(b) < Ordinal(a) {
      FirstOfMonotone(b, a);
    }
  }

  // ---------------------------------------------------------------------------------------------
  // Instants
  // ---------------------------------------------------------------------------------------------

  /** The day an instant falls on. */
  function DayOf(t: Instant): Day {
    t / MS_PER_DAY + UNIX_EPOCH_DAY
  }

  /** Midnight at the start of a day. */
  function StartOf(d: Day): Instant {
    (d - UNIX_EPOCH_DAY) * MS_PER_DAY
  }

  /**
   * `setMidnight`: clear the hours, minutes, seconds and milliseconds of an instant. The result
   * is a whole number of days, on the input's day and not after it, so it is that day's midnight.
   */
  function Midnight(t: Instant): (m: Instant)
    ensures m % MS_PER_DAY == 0
    ensures m <= t < m + MS_PER_DAY
    ensures DayOf(m) == DayOf(t)
  {
    StartOf(DayOf(t))
  }

  lemma DayOfStart(d: Day)
    ensures DayOf(StartOf(d)) == d
  {
  }

  /** Later instants never fall on earlier days. */
  lemma DayOfMonotone(t1: Instant, t2: Instant)
    requires t1 <= t2
    ensures DayOf(t1) <= DayOf(t2)
  {
  }

  /** The instant one minute before a midnight falls on the previous day. */
  lemma MinuteBeforeMidnight(d: Day)
    ensures DayOf(StartOf(d) - MS_PER_MINUTE) == d - 1
  {
  }

  /** Java's `betweenDates`: `min` inclusive, `max` exclusive. */
  predicate BetweenDates(t: Instant, min: Instant, max: Instant) {
    (t == min || t > min) && t < max
  }

  /**
   * Midnights between the midnight of `minDay` and one minute before the midnight of `maxDay` are
   * exactly the days of the half-open interval [minDay, maxDay).
   */
  lemma BetweenMidnights(d: Day, minDay: Day, maxDay: Day)
    ensures BetweenDates(StartOf(d), StartOf(minDay), StartOf(maxDay) - MS_PER_MINUTE)
            <==> minDay <= d < maxDay
  {
  }
}
