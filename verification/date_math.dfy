/**
  Local-time helpers of the card. A time is an integer count of milliseconds
  of local wall-clock time since 1970-01-01 00:00 with no daylight-saving
  shifts, so every day is exactly `DAY_MS` long and the local date of a time
  is its day number `t / DAY_MS` read through the civil calendar.
 */
module DateMath {
  import opened Wrappers
  import opened Civil
  import opened Decimal

  /** Milliseconds per day, `24 * 60 * 60 * 1000`. */
  const DAY_MS: int := 86400000

  type Time = int

  /** The local day number of a time (floor division: earlier times give negative days). */
  function DayOf(t: Time): int {
    t / DAY_MS
  }

  /** The local calendar date of a time. */
  function DateOf(t: Time): Date {
    CivilFromDays(DayOf(t))
  }

  /** The local year of a time. */
  function FullYear(t: Time): int {
    DateOf(t).year
  }

  /** The local month of a time, 0-based as the `Date` API numbers it. */
  function Month0(t: Time): int {
    DateOf(t).month - 1
  }

  /** The local day of the month of a time. */
  function DayOfMonth(t: Time): int {
    DateOf(t).day
  }

  /** The local weekday of a time, 0 = Sunday. */
  function GetDay(t: Time): int {
    Weekday(DayOf(t))
  }

  /** The `Date` constructor on a year, a 0-based month and a day: local midnight of the normalised date. */
  function LocalDate(y: int, m0: int, d: int): (t: Time)
    ensures t % DAY_MS == 0 && DayOf(t) == MakeDay(y, m0, d)
  {
    MakeDay(y, m0, d) * DAY_MS
  }

  /** The constructed midnight falls on the normalised date `yy-mm-d` when that date exists. */
  lemma LocalDateFields(y: int, m0: int, d: int, yy: int, mm: int, t: Time)
    requires yy == y + m0 / 12 && mm == m0 % 12 + 1
    requires ValidDate(yy, mm, d)
    requires t == LocalDate(y, m0, d)
    ensures DateOf(t) == Date(yy, mm, d)
    ensures FullYear(t) == yy && Month0(t) == mm - 1 && DayOfMonth(t) == d
  {
    var n := MakeDay(y, m0, d);
    assert n == DaysFromCivil(yy, mm, d) by {
      assert DaysFromCivil(yy, mm, d) == DaysFromCivil(yy, mm, 1) + d - 1;
    }
    MidnightFixed(n);
    assert DayOf(t) == n;
    DateOfDayNumber(n, yy, mm, d);
    assert DateOf(t) == Date(yy, mm, d);
  }

  /**
    Midnight of the local day that contains `t`. The card builds it by
    passing the year, month and day of `t` back to the `Date` constructor;
    `StartOfDayRebuildsDate` shows that this is the same time.
   */
  function StartOfDay(t: Time): (r: Time)
    ensures r % DAY_MS == 0 && r <= t < r + DAY_MS
  {
    DayOf(t) * DAY_MS
  }

  /** Rebuilding the local date of `t` from its fields gives its start of day. */
  lemma StartOfDayRebuildsDate(t: Time)
    ensures LocalDate(FullYear(t), Month0(t), DayOfMonth(t)) == StartOfDay(t)
    ensures DateOf(StartOfDay(t)) == DateOf(t)
  {
    var dt := DateOf(t);
    MakeDayInRange(dt.year, dt.month, dt.day);
    MidnightFixed(DayOf(t));
  }

  /**
    The year JavaScript's `new Date(y, m, d)` actually uses: a year argument
    from 0 to 99 means 1900 + y (section 21.4.2.1 of ECMA-262).
   */
  function ConstructorYear(y: int): int {
    if 0 <= y <= 99 then 1900 + y else y
  }

  /**
    `startOfDay(d)` as written: the date of `t` rebuilt through the
    constructor, two-digit-year rule included.
   */
  function StartOfDayAsWritten(t: Time): (r: Time)
    ensures r % DAY_MS == 0
  {
    LocalDate(ConstructorYear(FullYear(t)), Month0(t), DayOfMonth(t))
  }

  /** Outside the years 0..99 the code as written gives the start of the day. */
  lemma StartOfDayAsWrittenAgrees(t: Time)
    requires FullYear(t) < 0 || 99 < FullYear(t)
    ensures StartOfDayAsWritten(t) == StartOfDay(t)
  {
    StartOfDayRebuildsDate(t);
  }

  /**
    In the years 0..99 the code as written jumps about 1900 years ahead: its
    day lies at least `365 * 1900 - 1` days after the day of `t`, so the
    result is far later than `t` itself.
   */
  lemma StartOfDayAsWrittenSkipsCenturies(t: Time)
    requires 0 <= FullYear(t) <= 99
    ensures DayOf(StartOfDayAsWritten(t)) >= DayOf(t) + 365 * 1900 - 1
    ensures StartOfDayAsWritten(t) > t
  {
    var y, m0, d := FullYear(t), Month0(t), DayOfMonth(t);
    var n := DayOf(t);
    StartOfDayRebuildsDate(t);
    MidnightFixed(n);
    assert MakeDay(y, m0, d) == n by {
      assert LocalDate(y, m0, d) == n * DAY_MS;
      assert DayOf(LocalDate(y, m0, d)) == MakeDay(y, m0, d);
    }
    var n2 := MakeDay(y + 1900, m0, d);
    var r := StartOfDayAsWritten(t);
    assert r == LocalDate(y + 1900, m0, d) && r == n2 * DAY_MS;
    assert DayOf(r) == n2;
    MakeDayCenturyJump(y, m0, d);
    assert n + 1 <= n2;
    assert t < (n + 1) * DAY_MS <= n2 * DAY_MS;
  }

  /** A midnight is its own start of day. */
  lemma MidnightFixed(n: int)
    ensures DayOf(n * DAY_MS) == n && StartOfDay(n * DAY_MS) == n * DAY_MS
  {
    var t := n * DAY_MS;
    assert DayOf(t) == n;
  }

  /** `addDays`: the time `n` whole days of milliseconds later (earlier for negative `n`). */
  function AddDays(t: Time, n: int): (r: Time)
    ensures DayOf(r) == DayOf(t) + n
    ensures r % DAY_MS == t % DAY_MS
  {
    t + n * DAY_MS
  }

  /** Half-open interval overlap: `[aStart, aEnd)` meets `[bStart, bEnd)`. */
  predicate IntervalsOverlap(aStart: Time, aEnd: Time, bStart: Time, bEnd: Time) {
    aStart < bEnd && aEnd > bStart
  }

  lemma OverlapSymmetric(aStart: Time, aEnd: Time, bStart: Time, bEnd: Time)
    ensures IntervalsOverlap(aStart, aEnd, bStart, bEnd) == IntervalsOverlap(bStart, bEnd, aStart, aEnd)
  {
  }

  /** Intervals that only touch do not overlap, in either order. */
  lemma TouchingIntervalsDisjoint(aStart: Time, aEnd: Time, bStart: Time, bEnd: Time)
    requires aEnd <= bStart || bEnd <= aStart
    ensures !IntervalsOverlap(aStart, aEnd, bStart, bEnd)
  {
  }

  /**
    A zero-length interval `[a, a)` still meets every interval that holds `a`
    strictly inside: the test compares endpoints only.
   */
  lemma ZeroLengthOverlap(a: Time, bStart: Time, bEnd: Time)
    ensures IntervalsOverlap(a, a, bStart, bEnd) <==> bStart < a < bEnd
  {
  }

  /** `YYYY-MM-DD` text of a date: the year as `String(year)`, unpadded; month and day padded to two digits. */
  function DateKey(dt: Date): (k: string)
    requires 1 <= dt.month && 1 <= dt.day
    ensures forall i :: 0 <= i < |k| ==> k[i] == '-' || IsDigit(k[i])
  {
    IntToString(dt.year) + "-" + PadStart2(NatToString(dt.month)) + "-" + PadStart2(NatToString(dt.day))
  }

  /** `toDateOnlyKey(d)`: the key of the local date of `t`. */
  function ToDateOnlyKey(t: Time): (k: string)
    ensures forall i :: 0 <= i < |k| ==> k[i] == '-' || IsDigit(k[i])
  {
    DateKey(DateOf(t))
  }

  /** Reads a key back: a year (possibly negative), then two-digit month and day fields. */
  function ParseDateKey(k: string): Option<Date> {
    if |k| < 7 || k[|k| - 6] != '-' || k[|k| - 3] != '-' then None
    else
      match (ParseInt(k[..|k| - 6]), ParseNat(k[|k| - 5..|k| - 3]), ParseNat(k[|k| - 2..]))
      case (Some(y), Some(m), Some(d)) => Some(Date(y, m, d))
      case _ => None
  }

  lemma ParseDateKeyFields(ys: string, ms: string, ds: string, y: int, m: nat, d: nat)
    requires ParseInt(ys) == Some(y)
    requires |ms| == 2 && ParseNat(ms) == Some(m)
    requires |ds| == 2 && ParseNat(ds) == Some(d)
    ensures ParseDateKey(ys + "-" + ms + "-" + ds) == Some(Date(y, m, d))
  {
    var k := ys + "-" + ms + "-" + ds;
    assert k[..|k| - 6] == ys;
    assert k[|k| - 5..|k| - 3] == ms;
    assert k[|k| - 2..] == ds;
  }

  /** Every valid date reads back from its key. */
  lemma DateKeyParses(dt: Date)
    requires ValidDate(dt.year, dt.month, dt.day)
    ensures ParseDateKey(DateKey(dt)) == Some(dt)
  {
    TwoDigitField(dt.month);
    TwoDigitField(dt.day);
    IntToStringRoundTrip(dt.year);
    ParseDateKeyFields(IntToString(dt.year), PadStart2(NatToString(dt.month)),
      PadStart2(NatToString(dt.day)), dt.year, dt.month, dt.day);
  }

  lemma DateKeyRoundTrip(t: Time)
    ensures ParseDateKey(ToDateOnlyKey(t)) == Some(DateOf(t))
  {
    DateKeyParses(DateOf(t));
  }

  /** Two times share a date key exactly when they fall on the same local day. */
  lemma DateKeyInjective(a: Time, b: Time)
    ensures ToDateOnlyKey(a) == ToDateOnlyKey(b) <==> DayOf(a) == DayOf(b)
  {
    if ToDateOnlyKey(a) == ToDateOnlyKey(b) {
      DateKeyRoundTrip(a);
      DateKeyRoundTrip(b);
      assert DateOf(a) == DateOf(b);
    }
  }
}
