/**
  The month grid: the week-aligned range of days the card shows for a view
  month, month navigation, and the weekday header row.
 */
module Grid {
  import opened Civil
  import opened DateMath

  datatype GridRange = GridRange(
    gridStart: Time,
    gridEnd: Time,
    firstOfMonth: Time,
    lastOfMonth: Time,
    cellCount: int)

  /** The weekday (`getDay()`) on which a grid row starts: 1 for `"monday"`, 0 otherwise. */
  function WeekStartDay(startWeekday: string): int {
    if startWeekday == "monday" then 1 else 0
  }

  /** Column (0..6) of weekday `dow` in a row that starts on Monday or on Sunday. */
  function WeekIndex(dow: int, weekStartsOnMonday: bool): int {
    if weekStartsOnMonday then (if dow == 0 then 6 else dow - 1) else dow
  }

  /**
    The month the card shows. The card keeps it as the `Date` of the 1st of
    that month at midnight and reads only its year and
    0-based month, so the model keeps just those two numbers.
   */
  datatype ViewMonth = ViewMonth(year: int, month0: int) {
    ghost predicate Valid() {
      0 <= month0 < 12
    }
  }

  /** The view month of a date: `getFullYear()` and `getMonth()`. */
  function ViewMonthOf(t: Time): (v: ViewMonth)
    ensures v.Valid()
  {
    ViewMonth(FullYear(t), Month0(t))
  }

  /** `_getGridRange()` for view month `v`. */
  function GetGridRange(v: ViewMonth, startWeekday: string): GridRange {
    GridForMonth(v.year, v.month0, startWeekday)
  }

  /** The body of `_getGridRange()`, which reads only the view date's year and 0-based month. */
  function GridForMonth(year: int, month0: int, startWeekday: string): GridRange {
    var firstOfMonth := LocalDate(year, month0, 1);
    var lastOfMonth := LocalDate(year, month0 + 1, 0);
    GridAround(firstOfMonth, lastOfMonth, startWeekday == "monday")
  }

  /** Pads the days `firstOfMonth .. lastOfMonth` out to whole weeks. */
  function GridAround(firstOfMonth: Time, lastOfMonth: Time, weekStartsOnMonday: bool): GridRange {
    var offsetLeading := WeekIndex(GetDay(firstOfMonth), weekStartsOnMonday);
    var gridStart := AddDays(StartOfDay(firstOfMonth), -offsetLeading);
    var lastIndex := WeekIndex(GetDay(lastOfMonth), weekStartsOnMonday);
    var trailingDays := 6 - lastIndex;
    var gridEnd := AddDays(StartOfDay(lastOfMonth), trailingDays + 1);
    var cellCount := (gridEnd - gridStart) / DAY_MS;
    GridRange(gridStart, gridEnd, firstOfMonth, lastOfMonth, cellCount)
  }

  /** The column of a day is its distance, modulo 7, from the configured first weekday. */
  lemma WeekIndexOfDay(n: int, weekStartsOnMonday: bool)
    ensures WeekIndex(Weekday(n), weekStartsOnMonday) == (n + 4 - (if weekStartsOnMonday then 1 else 0)) % 7
  {
  }

  /**
    The grid length in days: `lead` leading days, the `dim` days of the month
    and `trail` trailing days make whole weeks, and the first grid day falls
    on weekday `ws`.
   */
  lemma WeekArithmetic(f: int, dim: int, ws: int, lead: int, trail: int)
    requires 28 <= dim <= 31 && 0 <= ws <= 1
    requires lead == (f + 4 - ws) % 7 && trail == 6 - (f + dim - 1 + 4 - ws) % 7
    ensures (lead + dim + trail) % 7 == 0 && 28 <= lead + dim + trail <= 42
    ensures (f - lead + 4) % 7 == ws
  {
    var q := (f + 4 - ws) / 7;
    var k, rest := (lead + dim - 1) / 7, (lead + dim - 1) % 7;
    assert f + 4 - ws == 7 * q + lead;
    assert trail == 6 - rest by {
      assert f + dim - 1 + 4 - ws == 7 * (q + k) + rest;
    }
    assert lead + dim + trail == 7 * (k + 1);
    assert f - lead + 4 == 7 * q + ws;
  }

  /** Where a grid that holds day `n` in its first row starts. */
  lemma GridStartOfDay(n: int, weekStartsOnMonday: bool)
    ensures var ws := if weekStartsOnMonday then 1 else 0;
      var t := n * DAY_MS;
      AddDays(StartOfDay(t), -WeekIndex(GetDay(t), weekStartsOnMonday)) == (n - (n + 4 - ws) % 7) * DAY_MS
  {
    MidnightFixed(n);
    WeekIndexOfDay(n, weekStartsOnMonday);
  }

  /** Where a grid that holds day `n` in its last row ends (exclusive). */
  lemma GridEndOfDay(n: int, weekStartsOnMonday: bool)
    ensures var ws := if weekStartsOnMonday then 1 else 0;
      var t := n * DAY_MS;
      AddDays(StartOfDay(t), 6 - WeekIndex(GetDay(t), weekStartsOnMonday) + 1) == (n + 7 - (n + 4 - ws) % 7) * DAY_MS
  {
    MidnightFixed(n);
    WeekIndexOfDay(n, weekStartsOnMonday);
  }

  /** The 1st and the last day of a month as day numbers. */
  lemma MonthBounds(y: int, m0: int)
    requires 0 <= m0 < 12
    ensures LocalDate(y, m0, 1) == DaysFromCivil(y, m0 + 1, 1) * DAY_MS
    ensures LocalDate(y, m0 + 1, 0) == (DaysFromCivil(y, m0 + 1, 1) + DaysInMonth(y, m0 + 1) - 1) * DAY_MS
  {
    MakeDayInRange(y, m0 + 1, 1);
    MakeDayLastOfMonth(y, m0);
    assert m0 / 12 == 0 && m0 % 12 + 1 == m0 + 1;
  }

  /** Leading days before the 1st of a month whose 1st is day `f`. */
  function Lead(f: int, ws: int): int {
    (f + 4 - ws) % 7
  }

  /** Trailing days after the last day `l` of a month. */
  function Trail(l: int, ws: int): int {
    6 - (l + 4 - ws) % 7
  }

  /** The day number of the 1st of the month `m0` (0-based) of year `y`. */
  function FirstDay(y: int, m0: int): int
    requires 0 <= m0 < 12
  {
    DaysFromCivil(y, m0 + 1, 1)
  }

  /** The padded grid around the midnights of days `f` and `l`, as day numbers. */
  lemma GridAroundShape(f: int, l: int, weekStartsOnMonday: bool)
    requires f <= l
    ensures var g := GridAround(f * DAY_MS, l * DAY_MS, weekStartsOnMonday);
      var ws := if weekStartsOnMonday then 1 else 0;
      && g.firstOfMonth == f * DAY_MS && g.lastOfMonth == l * DAY_MS
      && g.gridStart == (f - Lead(f, ws)) * DAY_MS
      && g.gridEnd == (l + 1 + Trail(l, ws)) * DAY_MS
      && g.cellCount == Lead(f, ws) + (l - f + 1) + Trail(l, ws)
  {
    var ws := if weekStartsOnMonday then 1 else 0;
    var g := GridAround(f * DAY_MS, l * DAY_MS, weekStartsOnMonday);
    GridStartOfDay(f, weekStartsOnMonday);
    GridEndOfDay(l, weekStartsOnMonday);
    var cells := Lead(f, ws) + (l - f + 1) + Trail(l, ws);
    assert g.gridEnd - g.gridStart == cells * DAY_MS;
    MidnightFixed(cells);
  }

  /** `_getGridRange()` pads the month's days `f .. f + dim - 1`, from the 1st to the last. */
  lemma GridForMonthDays(y: int, m0: int, startWeekday: string, f: int, dim: int)
    requires 0 <= m0 < 12
    requires f == FirstDay(y, m0) && dim == DaysInMonth(y, m0 + 1)
    ensures GridForMonth(y, m0, startWeekday) == GridAround(f * DAY_MS, (f + dim - 1) * DAY_MS, startWeekday == "monday")
  {
    MonthBounds(y, m0);
  }

  /**
    `g` pads a month of `dim` days to whole weeks that start on weekday `ws`:
    all four bounds are local midnights, the month's last day is `dim - 1`
    days after its first, fewer than 7 days pad each side, the grid starts
    and ends on weekday `ws`, and it holds `cellCount` days, a whole number
    of weeks from 4 to 6.
   */
  ghost predicate WholeWeeks(g: GridRange, dim: int, ws: int) {
    var lead := DayOf(g.firstOfMonth) - DayOf(g.gridStart);
    var trail := DayOf(g.gridEnd) - 1 - DayOf(g.lastOfMonth);
    && g.firstOfMonth % DAY_MS == 0 && g.lastOfMonth % DAY_MS == 0
    && g.gridStart % DAY_MS == 0 && g.gridEnd % DAY_MS == 0
    && DayOf(g.lastOfMonth) == DayOf(g.firstOfMonth) + dim - 1
    && 0 <= lead <= 6 && 0 <= trail <= 6
    && g.gridStart <= g.firstOfMonth && g.lastOfMonth < g.gridEnd
    && GetDay(g.gridStart) == ws && GetDay(g.gridEnd) == ws
    && g.gridEnd - g.gridStart == g.cellCount * DAY_MS
    && g.cellCount == lead + dim + trail
    && g.cellCount % 7 == 0 && 28 <= g.cellCount <= 42
  }

  /** The whole-week facts from the grid's bounds as day numbers. */
  lemma WholeWeeksOfDays(g: GridRange, f: int, dim: int, ws: int)
    requires 28 <= dim <= 31 && 0 <= ws <= 1
    requires g.firstOfMonth == f * DAY_MS && g.lastOfMonth == (f + dim - 1) * DAY_MS
    requires g.gridStart == (f - Lead(f, ws)) * DAY_MS
    requires g.gridEnd == (f + dim + Trail(f + dim - 1, ws)) * DAY_MS
    requires g.cellCount == Lead(f, ws) + dim + Trail(f + dim - 1, ws)
    ensures WholeWeeks(g, dim, ws)
  {
    var lead := Lead(f, ws);
    var trail := Trail(f + dim - 1, ws);
    assert DayOf(g.firstOfMonth) == f by { MidnightFixed(f); }
    assert DayOf(g.lastOfMonth) == f + dim - 1 by { MidnightFixed(f + dim - 1); }
    assert DayOf(g.gridStart) == f - lead by { MidnightFixed(f - lead); }
    assert DayOf(g.gridEnd) == f + dim + trail by { MidnightFixed(f + dim + trail); }
    WeekArithmetic(f, dim, ws, lead, trail);
    assert g.gridEnd - g.gridStart == g.cellCount * DAY_MS;
  }

  /**
    Padding a run of 28 to 31 days to whole weeks: the padding on each side is
    under a week, the grid starts and ends on the first weekday of a row, and
    it holds 4 to 6 rows.
   */
  lemma PaddedWeeks(g: GridRange, f: int, dim: int, weekStartsOnMonday: bool, ws: int)
    requires 28 <= dim <= 31
    requires g == GridAround(f * DAY_MS, (f + dim - 1) * DAY_MS, weekStartsOnMonday)
    requires ws == if weekStartsOnMonday then 1 else 0
    ensures WholeWeeks(g, dim, ws)
  {
    GridAroundShape(f, f + dim - 1, weekStartsOnMonday);
    WholeWeeksOfDays(g, f, dim, ws);
  }

  /** `PaddedWeeks` for the grid of month `m0` of year `y`, whose days are `f .. f + dim - 1`. */
  lemma MonthGridShape(y: int, m0: int, startWeekday: string, g: GridRange, f: int, dim: int)
    requires 0 <= m0 < 12
    requires g == GridForMonth(y, m0, startWeekday)
    requires f == FirstDay(y, m0) && dim == DaysInMonth(y, m0 + 1)
    ensures WholeWeeks(g, dim, WeekStartDay(startWeekday))
  {
    var monday := startWeekday == "monday";
    GridForMonthDays(y, m0, startWeekday, f, dim);
    PaddedWeeks(g, f, dim, monday, WeekStartDay(startWeekday));
  }

  /** The local date of the midnight of a valid date's day number is that date. */
  lemma MidnightDate(y: int, m: int, d: int, t: Time)
    requires ValidDate(y, m, d)
    requires t == DaysFromCivil(y, m, d) * DAY_MS
    ensures DateOf(t) == Date(y, m, d)
  {
    MidnightFixed(DaysFromCivil(y, m, d));
    DateOfDayNumber(DaysFromCivil(y, m, d), y, m, d);
  }

  /** The grid's first and last days are the 1st and the last day of the month. */
  lemma MonthGridDates(y: int, m0: int, startWeekday: string, g: GridRange, f: int, dim: int)
    requires 0 <= m0 < 12
    requires g == GridForMonth(y, m0, startWeekday)
    requires f == FirstDay(y, m0) && dim == DaysInMonth(y, m0 + 1)
    ensures DateOf(g.firstOfMonth) == Date(y, m0 + 1, 1)
    ensures DateOf(g.lastOfMonth) == Date(y, m0 + 1, dim)
  {
    var first, last := g.firstOfMonth, g.lastOfMonth;
    assert first == f * DAY_MS && last == (f + dim - 1) * DAY_MS by {
      GridForMonthDays(y, m0, startWeekday, f, dim);
      GridAroundShape(f, f + dim - 1, startWeekday == "monday");
    }
    MonthEndDates(y, m0 + 1, f, dim, first, last);
  }

  /** The midnights of the first and the last day of a month fall on its 1st and its last date. */
  lemma MonthEndDates(y: int, m: int, f: int, dim: int, first: Time, last: Time)
    requires 1 <= m <= 12
    requires f == DaysFromCivil(y, m, 1) && dim == DaysInMonth(y, m)
    requires first == f * DAY_MS && last == (f + dim - 1) * DAY_MS
    ensures DateOf(first) == Date(y, m, 1) && DateOf(last) == Date(y, m, dim)
  {
    assert DaysFromCivil(y, m, dim) == f + dim - 1;
    MidnightDate(y, m, 1, first);
    MidnightDate(y, m, dim, last);
  }

  /**
    The grid of the view month: its first and last days are the 1st and the
    last day of the month, all four bounds are local midnights, the grid
    starts on the configured first weekday at most 6 days before the 1st and
    ends (exclusive) 1 to 7 days after the last day, and it holds `cellCount`
    days, a whole number of weeks from 4 to 6.
   */
  lemma GridRangeProperties(v: ViewMonth, startWeekday: string)
    requires v.Valid()
    ensures var g := GetGridRange(v, startWeekday);
      var dim := DaysInMonth(v.year, v.month0 + 1);
      && WholeWeeks(g, dim, WeekStartDay(startWeekday))
      && DateOf(g.firstOfMonth) == Date(v.year, v.month0 + 1, 1)
      && DateOf(g.lastOfMonth) == Date(v.year, v.month0 + 1, dim)
  {
    var g := GetGridRange(v, startWeekday);
    var f, dim := FirstDay(v.year, v.month0), DaysInMonth(v.year, v.month0 + 1);
    MonthGridShape(v.year, v.month0, startWeekday, g, f, dim);
    MonthGridDates(v.year, v.month0, startWeekday, g, f, dim);
  }

  /** The week-alignment half of `GridRangeProperties`, without the calendar dates. */
  lemma GridRangeWeeks(v: ViewMonth, startWeekday: string)
    requires v.Valid()
    ensures WholeWeeks(GetGridRange(v, startWeekday), DaysInMonth(v.year, v.month0 + 1), WeekStartDay(startWeekday))
  {
    var g := GetGridRange(v, startWeekday);
    MonthGridShape(v.year, v.month0, startWeekday, g, FirstDay(v.year, v.month0), DaysInMonth(v.year, v.month0 + 1));
  }

  /** The February 2024 grid with weeks starting on Monday: 2024-01-29 up to 2024-03-04, 35 cells. */
  /** Day numbers around February 2024: its 1st is day 19754 and a Thursday, and it has 29 days. */
  lemma February2024Days()
    ensures FirstDay(2024, 1) == 19754 && DaysInMonth(2024, 2) == 29
    ensures Lead(19754, 1) == 3 && Trail(19782, 1) == 3
    ensures MakeDay(2024, 0, 29) == 19751 && MakeDay(2024, 2, 4) == 19786
    ensures MakeDay(2024, 1, 1) == 19754 && MakeDay(2024, 1, 29) == 19782
  {
    assert DaysBeforeYear(2024) == 739251;
  }

  /**
    The February 2024 grid with weeks starting on Monday runs from midnight of
    2024-01-29 up to midnight of 2024-03-04, 35 cells (`new Date(y, m0, d)`
    takes a 0-based month).
   */
  lemma February2024Example()
    ensures var g := GridForMonth(2024, 1, "monday");
      && g.gridStart == LocalDate(2024, 0, 29)
      && g.gridEnd == LocalDate(2024, 2, 4)
      && g.firstOfMonth == LocalDate(2024, 1, 1)
      && g.lastOfMonth == LocalDate(2024, 1, 29)
      && g.cellCount == 35
  {
    var g := GridForMonth(2024, 1, "monday");
    February2024Days();
    assert g == GridAround(19754 * DAY_MS, 19782 * DAY_MS, true) by {
      GridForMonthDays(2024, 1, "monday", 19754, 29);
    }
    GridAroundShape(19754, 19782, true);
  }

  /** The day numbers of January of the year 100, whose 1st is a Friday. */
  lemma January100Days()
    ensures FirstDay(100, 0) == -683003 && DaysInMonth(100, 1) == 31
    ensures Lead(-683003, 1) == 4 && Trail(-682973, 1) == 0
    ensures MakeDay(99, 11, 28) == -683007 && MakeDay(100, 1, 1) == -682972
  {
    assert DaysBeforeYear(100) == 36525;
    assert DaysBeforeYear(99) == 36160;
  }

  /**
    The January 100 grid with weeks starting on Monday runs from midnight of
    99-12-28 up to midnight of 100-02-01, 35 cells, so its four leading cells
    lie in the year 99.
   */
  lemma January100Example()
    ensures var g := GridForMonth(100, 0, "monday");
      && g.gridStart == LocalDate(99, 11, 28)
      && g.gridEnd == LocalDate(100, 1, 1)
      && g.firstOfMonth == g.gridStart + 4 * DAY_MS
      && g.cellCount == 35
      && forall t :: g.gridStart <= t < g.firstOfMonth ==> FullYear(t) == 99
  {
    var g := GridForMonth(100, 0, "monday");
    January100Days();
    assert g == GridAround(-683003 * DAY_MS, -682973 * DAY_MS, true) by {
      GridForMonthDays(100, 0, "monday", -683003, 31);
    }
    GridAroundShape(-683003, -682973, true);
    forall t | g.gridStart <= t < g.firstOfMonth
      ensures FullYear(t) == 99
    {
      var n := DayOf(t);
      assert -683007 <= n < -683003;
      var dd := n + 683035;
      assert 28 <= dd <= 31;
      assert n == DaysFromCivil(99, 12, dd) by {
        assert DaysFromCivil(99, 12, dd) == DaysFromCivil(99, 12, 1) + dd - 1;
        assert MakeDay(99, 11, 28) == DaysFromCivil(99, 12, 1) + 27;
      }
      DateOfDayNumber(n, 99, 12, dd);
    }
  }

  // ---------------------------------------------------------------------------
  // Month navigation

  /**
    `_navMonth(delta)`: the month `delta` months away from the view month,
    the month index overflowing into the year in either direction.
   */
  function NavMonth(v: ViewMonth, delta: int): (r: ViewMonth)
    ensures r.Valid()
    ensures 12 * r.year + r.month0 == 12 * v.year + v.month0 + delta
  {
    ViewMonth(v.year + (v.month0 + delta) / 12, (v.month0 + delta) % 12)
  }

  /**
    The `Date` the card stores after navigating, built from the view year and
    the shifted month index with day 1, is the midnight of the 1st of
    `NavMonth(v, delta)`.
   */
  lemma NavMonthIsFirstOfMonth(v: ViewMonth, delta: int, t: Time)
    requires t == LocalDate(v.year, v.month0 + delta, 1)
    ensures var r := NavMonth(v, delta);
      && t % DAY_MS == 0
      && DateOf(t) == Date(r.year, r.month0 + 1, 1)
      && ViewMonthOf(t) == r
  {
    var r := NavMonth(v, delta);
    var year, month := r.year, r.month0 + 1;
    LocalDateFields(v.year, v.month0 + delta, 1, year, month, t);
  }

  /** A month is determined by its month index `12 * year + month0`. */
  lemma MonthIndexInjective(a: ViewMonth, b: ViewMonth)
    requires a.Valid() && b.Valid()
    ensures a == b <==> 12 * a.year + a.month0 == 12 * b.year + b.month0
  {
  }

  /** Two navigations compose: `_navMonth(a)` then `_navMonth(b)` is `_navMonth(a + b)`. */
  lemma NavMonthCompose(v: ViewMonth, a: int, b: int)
    ensures NavMonth(NavMonth(v, a), b) == NavMonth(v, a + b)
  {
    MonthIndexInjective(NavMonth(NavMonth(v, a), b), NavMonth(v, a + b));
  }

  /** Forward then back returns to the same month; navigating by 0 changes nothing. */
  lemma NavMonthForwardBack(v: ViewMonth)
    requires v.Valid()
    ensures NavMonth(NavMonth(v, 1), -1) == v
    ensures NavMonth(v, 0) == v
  {
    NavMonthCompose(v, 1, -1);
    MonthIndexInjective(NavMonth(v, 0), v);
  }

  /**
    `_navMonth(delta)` as written, with the constructor's two-digit-year
    rule applied to the view year: the month reached from a view month whose
    year is 0..99 lands in the 1900s.
   */
  function NavMonthAsWritten(v: ViewMonth, delta: int): (r: ViewMonth)
    ensures r.Valid()
    ensures 12 * r.year + r.month0 == 12 * ConstructorYear(v.year) + v.month0 + delta
  {
    NavMonth(ViewMonth(ConstructorYear(v.year), v.month0), delta)
  }

  /**
    Going back from January of the year 100 reaches December 99, and going
    forward from there reaches January 2000, not January 100: forward-back
    is not the identity for the code as written.
   */
  lemma NavMonthAsWrittenSkipsCenturies()
    ensures NavMonthAsWritten(ViewMonth(100, 0), -1) == ViewMonth(99, 11)
    ensures NavMonthAsWritten(ViewMonth(99, 11), 1) == ViewMonth(2000, 0)
    ensures NavMonthAsWritten(NavMonthAsWritten(ViewMonth(100, 0), -1), 1) != ViewMonth(100, 0)
  {
    MonthIndexInjective(NavMonthAsWritten(ViewMonth(100, 0), -1), ViewMonth(99, 11));
    MonthIndexInjective(NavMonthAsWritten(ViewMonth(99, 11), 1), ViewMonth(2000, 0));
  }

  /** The corrected navigation, `NavMonth`, undoes itself in every year. */
  lemma NavMonthBackForward(v: ViewMonth)
    requires v.Valid()
    ensures NavMonth(NavMonth(v, -1), 1) == v
  {
    NavMonthCompose(v, -1, 1);
    MonthIndexInjective(NavMonth(v, 0), v);
  }

  // ---------------------------------------------------------------------------
  // Weekday header

  /** Czech two-letter weekday names, indexed by `getDay()` (0 = Sunday). */
  const WeekdayNames: seq<string> := ["Ne", "Po", "Út", "St", "Čt", "Pá", "So"]

  /** `_weekdayLabels()`: the header row for the configured first weekday. */
  function WeekdayLabels(startWeekday: string): (labels: seq<string>)
    ensures |labels| == 7
  {
    if startWeekday == "monday" then ["Po", "Út", "St", "Čt", "Pá", "So", "Ne"]
    else ["Ne", "Po", "Út", "St", "Čt", "Pá", "So"]
  }

  /** Column `i` of the header names weekday `(WeekStartDay + i) % 7`. */
  lemma WeekdayLabelsRotate(startWeekday: string, i: int)
    requires 0 <= i < 7
    ensures WeekdayLabels(startWeekday)[i] == WeekdayNames[(WeekStartDay(startWeekday) + i) % 7]
  {
  }

  /** A row that starts on weekday `ws` has weekday `(ws + i) % 7` in column `i`. */
  lemma CellWeekday(start: Time, ws: int, i: nat)
    requires GetDay(start) == ws
    ensures GetDay(AddDays(start, i)) == (ws + i % 7) % 7
  {
    var n := DayOf(start);
    assert DayOf(AddDays(start, i)) == n + i;
    WeekdayShift(n, i);
  }

  /** `i` days after weekday `w` comes weekday `(w + i % 7) % 7`. */
  lemma WeekdayShift(n: int, i: int)
    ensures Weekday(n + i) == (Weekday(n) + i % 7) % 7
  {
    var q, r := (n + 4) / 7, (n + 4) % 7;
    var p, s := i / 7, i % 7;
    assert n + i + 4 == 7 * (q + p) + (r + s);
    if r + s < 7 {
      assert (n + i + 4) % 7 == r + s;
    } else {
      assert n + i + 4 == 7 * (q + p + 1) + (r + s - 7);
      assert (n + i + 4) % 7 == r + s - 7;
    }
  }

  /** Under a header for `startWeekday`, a row starting on that weekday has the named weekday in every column. */
  lemma HeaderNamesRow(start: Time, startWeekday: string, i: nat)
    requires GetDay(start) == WeekStartDay(startWeekday)
    ensures WeekdayLabels(startWeekday)[i % 7] == WeekdayNames[GetDay(AddDays(start, i))]
  {
    CellWeekday(start, WeekStartDay(startWeekday), i);
    WeekdayLabelsRotate(startWeekday, i % 7);
  }

  /**
    The header matches the grid: the label above cell `i` (column `i % 7`)
    names the weekday of that cell's day.
   */
  lemma HeaderNamesCellWeekday(v: ViewMonth, startWeekday: string, i: nat)
    requires v.Valid()
    ensures var g := GetGridRange(v, startWeekday);
      WeekdayLabels(startWeekday)[i % 7] == WeekdayNames[GetDay(AddDays(g.gridStart, i))]
  {
    var g := GetGridRange(v, startWeekday);
    GridRangeWeeks(v, startWeekday);
    HeaderNamesRow(g.gridStart, startWeekday, i);
  }
}
