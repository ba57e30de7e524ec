/**
  The proleptic Gregorian calendar over integer day numbers.

  Day number 0 is 1970-01-01. Months are numbered 1..12 here; the JavaScript
  `Date` API numbers them 0..11, and the conversion happens in `MakeDay`.
 */
module Civil {

  predicate IsLeapYear(y: int) {
    y % 4 == 0 && (y % 100 != 0 || y % 400 == 0)
  }

  function DaysInYear(y: int): int {
    if IsLeapYear(y) then 366 else 365
  }

  function DaysInMonth(y: int, m: int): int
    requires 1 <= m <= 12
  {
    if m == 2 then (if IsLeapYear(y) then 29 else 28)
    else if m == 4 || m == 6 || m == 9 || m == 11 then 30
    else 31
  }

  predicate ValidDate(y: int, m: int, d: int) {
    1 <= m <= 12 && 1 <= d <= DaysInMonth(y, m)
  }

  /** Days of year `y` that precede the first of month `m` (`m == 13` gives the year length). */
  function DaysBeforeMonth(y: int, m: int): int
    requires 1 <= m <= 13
  {
    var leap := if IsLeapYear(y) then 1 else 0;
    if m == 1 then 0
    else if m == 2 then 31
    else if m == 3 then 59 + leap
    else if m == 4 then 90 + leap
    else if m == 5 then 120 + leap
    else if m == 6 then 151 + leap
    else if m == 7 then 181 + leap
    else if m == 8 then 212 + leap
    else if m == 9 then 243 + leap
    else if m == 10 then 273 + leap
    else if m == 11 then 304 + leap
    else if m == 12 then 334 + leap
    else 365 + leap
  }

  lemma DaysBeforeMonthStep(y: int, m: int)
    requires 1 <= m <= 12
    ensures DaysBeforeMonth(y, m + 1) == DaysBeforeMonth(y, m) + DaysInMonth(y, m)
    ensures DaysBeforeMonth(y, 13) == DaysInYear(y)
  {
  }

  /** The number of leap years in `[0, y)` (negative for `y < 0`). */
  function LeapsBefore(y: int): int {
    (y + 3) / 4 - (y + 99) / 100 + (y + 399) / 400
  }

  /** Days from 0000-01-01 to the first of January of year `y`. */
  function DaysBeforeYear(y: int): int {
    365 * y + LeapsBefore(y)
  }

  // Two constants appear as literals below so that the solver sees linear
  // arithmetic: 719528 == DaysBeforeYear(1970), the offset of day number 0
  // from 0000-01-01, and 146097 == DaysBeforeYear(400), the number of days in
  // one 400-year Gregorian cycle.

  lemma DivStep4(y: int)
    ensures (y + 4) / 4 - (y + 3) / 4 == if y % 4 == 0 then 1 else 0
  {
    var q, r := y / 4, y % 4;
    assert y == 4 * q + r && 0 <= r < 4;
    assert (y + 4) / 4 == q + 1;
    assert (y + 3) / 4 == if r == 0 then q else q + 1;
  }

  lemma DivStep100(y: int)
    ensures (y + 100) / 100 - (y + 99) / 100 == if y % 100 == 0 then 1 else 0
  {
    var q, r := y / 100, y % 100;
    assert y == 100 * q + r && 0 <= r < 100;
    assert (y + 100) / 100 == q + 1;
    assert (y + 99) / 100 == if r == 0 then q else q + 1;
  }

  lemma DivStep400(y: int)
    ensures (y + 400) / 400 - (y + 399) / 400 == if y % 400 == 0 then 1 else 0
  {
    var q, r := y / 400, y % 400;
    assert y == 400 * q + r && 0 <= r < 400;
    assert (y + 400) / 400 == q + 1;
    assert (y + 399) / 400 == if r == 0 then q else q + 1;
  }

  /** A multiple of 400 is a multiple of 100, which is a multiple of 4. */
  lemma DivisibilityChain(y: int)
    ensures y % 400 == 0 ==> y % 100 == 0
    ensures y % 100 == 0 ==> y % 4 == 0
  {
    if y % 400 == 0 {
      DivShift100(0, 4 * (y / 400));
    }
    if y % 100 == 0 {
      DivShift4(0, 25 * (y / 100));
    }
  }

  lemma YearStep(y: int)
    ensures DaysBeforeYear(y + 1) == DaysBeforeYear(y) + DaysInYear(y)
  {
    DivStep4(y);
    DivStep100(y);
    DivStep400(y);
    DivisibilityChain(y);
    var leaps := (if y % 4 == 0 then 1 else 0) - (if y % 100 == 0 then 1 else 0) + (if y % 400 == 0 then 1 else 0);
    assert LeapsBefore(y + 1) == LeapsBefore(y) + leaps;
    assert leaps == if IsLeapYear(y) then 1 else 0;
  }

  /** Shifting by `c * k` moves the quotient by `k` and keeps the remainder. */
  lemma DivShift4(a: int, k: int)
    ensures (a + 4 * k) / 4 == a / 4 + k && (a + 4 * k) % 4 == a % 4
  {
    var q, r := a / 4, a % 4;
    assert a + 4 * k == 4 * (q + k) + r;
  }

  lemma DivShift100(a: int, k: int)
    ensures (a + 100 * k) / 100 == a / 100 + k && (a + 100 * k) % 100 == a % 100
  {
    var q, r := a / 100, a % 100;
    assert a + 100 * k == 100 * (q + k) + r;
  }

  lemma DivShift400(a: int, k: int)
    ensures (a + 400 * k) / 400 == a / 400 + k && (a + 400 * k) % 400 == a % 400
  {
    var q, r := a / 400, a % 400;
    assert a + 400 * k == 400 * (q + k) + r;
  }

  lemma EraShift(y: int, k: int)
    ensures DaysBeforeYear(y + 400 * k) == DaysBeforeYear(y) + 146097 * k
    ensures IsLeapYear(y + 400 * k) == IsLeapYear(y)
  {
    DivShift4(y + 3, 100 * k);
    DivShift100(y + 99, 4 * k);
    DivShift400(y + 399, k);
    DivShift4(y, 100 * k);
    DivShift100(y, 4 * k);
    DivShift400(y, k);
    assert y + 3 + 4 * (100 * k) == y + 400 * k + 3;
    assert y + 99 + 100 * (4 * k) == y + 400 * k + 99;
  }

  /** Between years `a <= b` there are at least 365 and at most 366 days per year. */
  lemma {:induction false} YearBounds(a: int, b: int)
    requires a <= b
    ensures DaysBeforeYear(a) + 365 * (b - a) <= DaysBeforeYear(b) <= DaysBeforeYear(a) + 366 * (b - a)
    decreases b - a
  {
    if a < b {
      YearBounds(a + 1, b);
      YearStep(a);
    }
  }

  /** The year of the current 400-year era (0..399) in which day `doe` of the era falls. */
  function YearOfEra(doe: int, y: int): (r: int)
    requires 0 <= y && DaysBeforeYear(y) <= doe < 146097
    ensures 0 <= r < 400
    ensures DaysBeforeYear(r) <= doe < DaysBeforeYear(r + 1)
    decreases doe - DaysBeforeYear(y)
  {
    YearStep(y);
    if doe < DaysBeforeYear(y + 1) then
      (if y >= 400 then YearBounds(400, y); y else y)
    else
      YearOfEra(doe, y + 1)
  }

  /** The month (1..12) of year `y` in which day `doy` (0-based) of the year falls. */
  function MonthOfYear(y: int, doy: int, m: int): (r: int)
    requires 1 <= m <= 12 && DaysBeforeMonth(y, m) <= doy < DaysInYear(y)
    ensures 1 <= r <= 12
    ensures DaysBeforeMonth(y, r) <= doy < DaysBeforeMonth(y, r + 1)
    decreases 12 - m
  {
    if m == 12 || doy < DaysBeforeMonth(y, m + 1) then m
    else MonthOfYear(y, doy, m + 1)
  }

  datatype Date = Date(year: int, month: int, day: int)

  /** The day number of a calendar date. */
  function DaysFromCivil(y: int, m: int, d: int): int
    requires 1 <= m <= 12
  {
    DaysBeforeYear(y) + DaysBeforeMonth(y, m) + d - 1 - 719528
  }

  /** The date of day `doy` (0-based) of year `y`. */
  function DateInYear(y: int, doy: int): (dt: Date)
    requires 0 <= doy < DaysInYear(y)
    ensures dt.year == y && ValidDate(y, dt.month, dt.day)
    ensures DaysBeforeMonth(y, dt.month) + dt.day - 1 == doy
  {
    var m := MonthOfYear(y, doy, 1);
    DaysBeforeMonthStep(y, m);
    Date(y, m, doy - DaysBeforeMonth(y, m) + 1)
  }

  /** The year (0..399) of the 400-year era and the day within that year for day number `n`. */
  function EraYearAndDay(n: int): (r: (int, int))
    ensures 0 <= r.0 < 400 && 0 <= r.1 < DaysInYear(r.0)
    ensures n + 719528 == 146097 * ((n + 719528) / 146097) + DaysBeforeYear(r.0) + r.1
  {
    var z := n + 719528;
    var doe := z % 146097;
    EraStart(z, doe);
    var yoe := YearOfEra(doe, 0);
    YearStep(yoe);
    (yoe, doe - DaysBeforeYear(yoe))
  }

  /** The day of the era splits a day count into whole eras and a rest. */
  lemma EraStart(z: int, doe: int)
    requires doe == z % 146097
    ensures z == 146097 * (z / 146097) + doe
    ensures DaysBeforeYear(0) <= doe < 146097
  {
    assert LeapsBefore(0) == 0;
  }

  /** The calendar date of a day number: a valid date that `DaysFromCivil` maps back to `n`. */
  function CivilFromDays(n: int): (dt: Date)
    ensures ValidDate(dt.year, dt.month, dt.day)
    ensures DaysFromCivil(dt.year, dt.month, dt.day) == n
  {
    var era := (n + 719528) / 146097;
    var (yoe, doy) := EraYearAndDay(n);
    var inEra := DateInYear(yoe, doy);
    var year := yoe + 400 * era;
    EraDate(yoe, era, year, inEra.month, inEra.day);
    Date(year, inEra.month, inEra.day)
  }

  /** Moving a date by whole 400-year eras keeps it valid and moves its day number by whole eras. */
  lemma EraDate(y: int, k: int, y': int, m: int, d: int)
    requires y' == y + 400 * k && ValidDate(y, m, d)
    ensures ValidDate(y', m, d)
    ensures DaysFromCivil(y', m, d) == DaysFromCivil(y, m, d) + 146097 * k
  {
    EraShift(y, k);
  }

  /** Chronological order of dates: by year, then month, then day. */
  predicate DateBefore(a: Date, b: Date) {
    a.year < b.year
    || (a.year == b.year && a.month < b.month)
    || (a.year == b.year && a.month == b.month && a.day < b.day)
  }

  lemma MonthOrder(y: int, m: int, m': int)
    requires 1 <= m < m' <= 12
    ensures DaysBeforeMonth(y, m) + DaysInMonth(y, m) <= DaysBeforeMonth(y, m')
  {
  }

  /** The day of the year of a valid date is below the length of the year. */
  lemma DayOfYearBound(y: int, m: int, d: int)
    requires ValidDate(y, m, d)
    ensures DaysBeforeMonth(y, m) + d - 1 < DaysInYear(y)
  {
    DaysBeforeMonthStep(y, m);
    if m < 12 {
      MonthOrder(y, m, 12);
      DaysBeforeMonthStep(y, 12);
    }
  }

  /** `DaysFromCivil` is strictly increasing in chronological order. */
  lemma DaysFromCivilMonotone(a: Date, b: Date)
    requires ValidDate(a.year, a.month, a.day) && ValidDate(b.year, b.month, b.day)
    requires DateBefore(a, b)
    ensures DaysFromCivil(a.year, a.month, a.day) < DaysFromCivil(b.year, b.month, b.day)
  {
    if a.year < b.year {
      DayOfYearBound(a.year, a.month, a.day);
      YearStep(a.year);
      YearBounds(a.year + 1, b.year);
    } else if a.month < b.month {
      MonthOrder(a.year, a.month, b.month);
    }
  }

  lemma DaysFromCivilInjective(a: Date, b: Date)
    requires ValidDate(a.year, a.month, a.day) && ValidDate(b.year, b.month, b.day)
    requires DaysFromCivil(a.year, a.month, a.day) == DaysFromCivil(b.year, b.month, b.day)
    ensures a == b
  {
    if DateBefore(a, b) {
      DaysFromCivilMonotone(a, b);
    } else if DateBefore(b, a) {
      DaysFromCivilMonotone(b, a);
    }
  }

  /** The date of the day number of a valid date is that date. */
  lemma DateOfDayNumber(n: int, y: int, m: int, d: int)
    requires ValidDate(y, m, d) && n == DaysFromCivil(y, m, d)
    ensures CivilFromDays(n) == Date(y, m, d)
  {
    DaysFromCivilInjective(CivilFromDays(n), Date(y, m, d));
  }

  /** Every valid date survives the trip to a day number and back. */
  lemma CivilRoundTrip(y: int, m: int, d: int)
    requires ValidDate(y, m, d)
    ensures CivilFromDays(DaysFromCivil(y, m, d)) == Date(y, m, d)
  {
    DateOfDayNumber(DaysFromCivil(y, m, d), y, m, d);
  }

  /** Day of the week, 0 = Sunday .. 6 = Saturday (1970-01-01 was a Thursday). */
  function Weekday(n: int): (w: int)
    ensures 0 <= w < 7
  {
    (n + 4) % 7
  }

  /**
    The day number of JavaScript's `new Date(y, m0, d)` with a 0-based month:
    the month overflows into the year and the day counts from the first of
    the (normalised) month, so day 0 is the last day of the previous month.
   */
  function MakeDay(y: int, m0: int, d: int): int {
    DaysFromCivil(y + m0 / 12, m0 % 12 + 1, 1) + d - 1
  }

  /** `new Date(y, m0 + 1, 0)` is the last day of month `m0`. */
  lemma MakeDayLastOfMonth(y: int, m0: int)
    ensures MakeDay(y, m0 + 1, 0) == MakeDay(y, m0, 1) + DaysInMonth(y + m0 / 12, m0 % 12 + 1) - 1
  {
    var yy := y + m0 / 12;
    var mm := m0 % 12 + 1;
    DaysBeforeMonthStep(yy, mm);
    if mm == 12 {
      assert y + (m0 + 1) / 12 == yy + 1 && (m0 + 1) % 12 == 0;
      YearStep(yy);
    } else {
      assert y + (m0 + 1) / 12 == yy && (m0 + 1) % 12 + 1 == mm + 1;
    }
  }

  /** For an in-range month, `MakeDay` is `DaysFromCivil` with the month shifted to 1-based. */
  lemma MakeDayInRange(y: int, m: int, d: int)
    requires 1 <= m <= 12
    ensures MakeDay(y, m - 1, d) == DaysFromCivil(y, m, d)
  {
    assert (m - 1) / 12 == 0 && (m - 1) % 12 + 1 == m;
  }

  /** The same month and day 1900 years later lie at least `365 * 1900 - 1` days later. */
  lemma MakeDayCenturyJump(y: int, m0: int, d: int)
    requires 0 <= m0 < 12
    ensures MakeDay(y + 1900, m0, d) >= MakeDay(y, m0, d) + 365 * 1900 - 1
  {
    MakeDayInRange(y, m0 + 1, d);
    MakeDayInRange(y + 1900, m0 + 1, d);
    YearBounds(y, y + 1900);
  }
}
