/** The card's two numeric helpers: clamping configuration numbers and short durations. */
module NumberFormat {
  import opened Wrappers
  import opened Decimal

  /**
    A configuration value after JavaScript's `Number(...)`: either a finite
    number or something that is not (`NaN`, an infinity).
   */
  datatype Numeric = Finite(value: int) | NotFinite

  function Min(a: int, b: int): int {
    if a <= b then a else b
  }

  function Max(a: int, b: int): int {
    if a >= b then a else b
  }

  /**
    `clampNumber(n, min, max, fallback)`: a finite value is pulled into
    `[lo, hi]`; anything else yields the fallback (`None` is JavaScript's `null`).
   */
  function ClampNumber(n: Numeric, lo: int, hi: int, fallback: Option<int>): (r: Option<int>)
    ensures n.NotFinite? ==> r == fallback
    ensures n.Finite? ==> r.Some?
    ensures n.Finite? && lo <= hi ==> lo <= r.value <= hi
    ensures n.Finite? && lo <= n.value <= hi ==> r == Some(n.value)
    ensures n.Finite? && lo <= hi && n.value < lo ==> r == Some(lo)
    ensures n.Finite? && n.value > hi ==> r == Some(hi)
  {
    match n
    case NotFinite => fallback
    case Finite(x) => Some(Min(hi, Max(lo, x)))
  }

  /** Clamping an already clamped value changes nothing. */
  lemma ClampIdempotent(n: Numeric, lo: int, hi: int, fallback: Option<int>)
    requires lo <= hi && n.Finite?
    ensures var r := ClampNumber(n, lo, hi, fallback);
      ClampNumber(Finite(r.value), lo, hi, fallback) == r
  {
  }

  /** Whole seconds in `ms`, rounded down and never negative. */
  function WholeSeconds(ms: int): nat {
    if ms / 1000 > 0 then ms / 1000 else 0
  }

  /** `formatDurationShort(ms)`: `"<h>h <mm>m"` when at least an hour, else `"<m>m"`. */
  function FormatDurationShort(ms: int): (r: string)
    ensures |r| >= 2 && r[|r| - 1] == 'm'
  {
    var s := WholeSeconds(ms);
    var h := s / 3600;
    var m := (s % 3600) / 60;
    if h > 0 then NatToString(h) + "h " + PadStart2(NatToString(m)) + "m"
    else NatToString(m) + "m"
  }

  /** Reads a short duration back as a number of whole minutes. */
  function ParseDurationShort(r: string): Option<nat> {
    if |r| < 2 || r[|r| - 1] != 'm' then None
    else
      var body := r[..|r| - 1];
      if |body| >= 4 && body[|body| - 4..|body| - 2] == "h " then
        match (ParseNat(body[..|body| - 4]), ParseNat(body[|body| - 2..]))
        case (Some(h), Some(m)) => Some(h * 60 + m)
        case _ => None
      else ParseNat(body)
  }

  lemma ParseHoursMinutes(hs: string, ms: string, h: nat, m: nat)
    requires ParseNat(hs) == Some(h)
    requires |ms| == 2 && ParseNat(ms) == Some(m)
    ensures ParseDurationShort(hs + "h " + ms + "m") == Some(h * 60 + m)
  {
    var r := hs + "h " + ms + "m";
    var body := r[..|r| - 1];
    assert body == hs + "h " + ms;
    assert body[|body| - 4..|body| - 2] == "h ";
    assert body[..|body| - 4] == hs;
    assert body[|body| - 2..] == ms;
  }

  lemma ParseMinutes(ms: string, m: nat)
    requires |ms| <= 2 && ParseNat(ms) == Some(m)
    ensures ParseDurationShort(ms + "m") == Some(m)
  {
    assert (ms + "m")[..|ms + "m"| - 1] == ms;
  }

  lemma MinuteSplit(s: nat)
    ensures s / 60 == (s / 3600) * 60 + (s % 3600) / 60
    ensures (s % 3600) / 60 < 60
  {
  }

  lemma ShortMinutes(m: nat)
    requires m < 60
    ensures |NatToString(m)| <= 2
  {
    assert m >= 10 ==> |NatToString(m)| == |NatToString(m / 10)| + 1 == 2;
  }

  /** At least an hour: the hours, a space and the two-digit minutes read back. */
  lemma FormatHours(ms: int)
    requires WholeSeconds(ms) / 3600 > 0
    ensures ParseDurationShort(FormatDurationShort(ms)) == Some(WholeSeconds(ms) / 60)
  {
    var s := WholeSeconds(ms);
    var h, m := s / 3600, (s % 3600) / 60;
    MinuteSplit(s);
    var r := FormatDurationShort(ms);
    assert r == NatToString(h) + "h " + PadStart2(NatToString(m)) + "m";
    TwoDigitField(m);
    NatToStringRoundTrip(h);
    ParseHoursMinutes(NatToString(h), PadStart2(NatToString(m)), h, m);
  }

  /** Under an hour: the minutes alone read back. */
  lemma FormatMinutes(ms: int)
    requires WholeSeconds(ms) / 3600 == 0
    ensures ParseDurationShort(FormatDurationShort(ms)) == Some(WholeSeconds(ms) / 60)
  {
    var s := WholeSeconds(ms);
    var m := (s % 3600) / 60;
    MinuteSplit(s);
    var r := FormatDurationShort(ms);
    assert r == NatToString(m) + "m";
    ShortMinutes(m);
    NatToStringRoundTrip(m);
    ParseMinutes(NatToString(m), m);
  }

  /** The short form loses only the seconds: it reads back as the whole minutes of `ms`. */
  lemma DurationRoundTrip(ms: int)
    ensures ParseDurationShort(FormatDurationShort(ms)) == Some(WholeSeconds(ms) / 60)
  {
    if WholeSeconds(ms) / 3600 > 0 {
      FormatHours(ms);
    } else {
      FormatMinutes(ms);
    }
  }
}
