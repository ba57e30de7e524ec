/**
  How date keys compare as strings. With a four-digit year every key has the
  same shape, `YYYY-MM-DD`, and the string order of keys is the chronological
  order of their days. Outside the years 1000..9999 the unpadded year breaks
  this: the key of 1000-01-01 sorts before that of the day before it.
 */
module KeyOrder {
  import opened Civil
  import opened Decimal
  import opened DateMath
  import opened Sorting

  function Pow10(k: nat): (p: nat)
    ensures p >= 1
  {
    if k == 0 then 1 else 10 * Pow10(k - 1)
  }

  /** Strings compare on equal-length prefixes first, then on what follows. */
  lemma {:induction false} StrLessAppend(p: string, q: string, x: string, y: string)
    requires |p| == |q|
    ensures StrLess(p + x, q + y) <==> StrLess(p, q) || (p == q && StrLess(x, y))
    decreases |p|
  {
    if |p| == 0 {
      assert p + x == x && q + y == y;
    } else {
      assert (p + x)[0] == p[0] && (q + y)[0] == q[0];
      assert (p + x)[1..] == p[1..] + x && (q + y)[1..] == q[1..] + y;
      StrLessAppend(p[1..], q[1..], x, y);
      if p[0] == q[0] && p[1..] == q[1..] {
        assert p == [p[0]] + p[1..] && q == [q[0]] + q[1..];
      }
    }
  }

  /** Appending a digit multiplies what came before by ten. */
  lemma ShiftDigit(v: int, p: int, mid: int)
    ensures (v * p + mid) * 10 == v * (10 * p) + mid * 10
  {
  }

  /** The value of a digit string, read from its first digit. */
  lemma {:induction false} DigitsValueFront(s: string)
    requires AllDigits(s) && |s| > 0
    ensures DigitsValue(s) == DigitValue(s[0]) * Pow10(|s| - 1) + DigitsValue(s[1..])
    decreases |s|
  {
    if |s| > 1 {
      var init, tail := s[..|s| - 1], s[1..];
      var v0, last := DigitValue(s[0]), DigitValue(s[|s| - 1]);
      var p := Pow10(|s| - 2);
      DigitsValueFront(init);
      assert init[0] == s[0] && init[1..] == tail[..|tail| - 1];
      assert tail[|tail| - 1] == s[|s| - 1];
      var mid := DigitsValue(init[1..]);
      assert DigitsValue(init) == v0 * p + mid;
      assert DigitsValue(tail) == mid * 10 + last;
      assert DigitsValue(s) == (v0 * p + mid) * 10 + last;
      ShiftDigit(v0, p, mid);
      assert Pow10(|s| - 1) == 10 * p;
    } else {
      assert s[..0] == [] && s[1..] == [];
    }
  }

  /** A digit string of length `k` is worth less than `10^k`. */
  lemma {:induction false} DigitsValueBound(s: string)
    requires AllDigits(s)
    ensures DigitsValue(s) < Pow10(|s|)
    decreases |s|
  {
    if |s| > 0 {
      DigitsValueBound(s[..|s| - 1]);
    }
  }

  /** A smaller leading digit decides, whatever follows it. */
  lemma LeadingDigitDecides(x: int, y: int, p: int, ra: int, rb: int)
    requires 0 <= x < y && 0 <= ra < p && 0 <= rb
    ensures x * p + ra < y * p + rb
  {
    assert (x + 1) * p <= y * p;
  }

  /** Digit strings of one length compare as strings exactly as their values compare. */
  lemma {:induction false} DigitsOrder(a: string, b: string)
    requires AllDigits(a) && AllDigits(b) && |a| == |b|
    ensures StrLess(a, b) <==> DigitsValue(a) < DigitsValue(b)
    decreases |a|
  {
    if |a| > 0 {
      var p := Pow10(|a| - 1);
      var x, y := DigitValue(a[0]), DigitValue(b[0]);
      var ra, rb := DigitsValue(a[1..]), DigitsValue(b[1..]);
      DigitsValueFront(a);
      DigitsValueFront(b);
      DigitsValueBound(a[1..]);
      DigitsValueBound(b[1..]);
      assert DigitsValue(a) == x * p + ra && DigitsValue(b) == y * p + rb;
      if x < y {
        LeadingDigitDecides(x, y, p, ra, rb);
      } else if y < x {
        LeadingDigitDecides(y, x, p, rb, ra);
      } else {
        assert a[0] == b[0];
        DigitsOrder(a[1..], b[1..]);
      }
    }
  }

  /** `String(n)` has four digits for `n` in 1000..9999. */
  lemma FourDigits(n: nat)
    requires 1000 <= n <= 9999
    ensures |NatToString(n)| == 4
  {
    assert |NatToString(n / 1000)| == 1;
    assert NatToString(n / 100) == NatToString(n / 1000) + [DigitChar(n / 100 % 10)];
    assert NatToString(n / 10) == NatToString(n / 100) + [DigitChar(n / 10 % 10)];
  }

  /** The value of a number's decimal text is the number. */
  lemma TextValue(n: nat)
    ensures DigitsValue(NatToString(n)) == n
  {
    NatToStringRoundTrip(n);
  }

  /** Four-digit years: their texts compare as the years do. */
  lemma YearFieldOrder(a: int, b: int)
    requires 1000 <= a <= 9999 && 1000 <= b <= 9999
    ensures |IntToString(a)| == |IntToString(b)|
    ensures StrLess(IntToString(a), IntToString(b)) <==> a < b
    ensures IntToString(a) == IntToString(b) <==> a == b
  {
    FourDigits(a);
    FourDigits(b);
    TextValue(a);
    TextValue(b);
    DigitsOrder(NatToString(a), NatToString(b));
  }

  /** Two-digit fields: their texts compare as the numbers do. */
  lemma TwoDigitFieldOrder(a: nat, b: nat)
    requires a < 100 && b < 100
    ensures |PadStart2(NatToString(a))| == 2 && |PadStart2(NatToString(b))| == 2
    ensures StrLess(PadStart2(NatToString(a)), PadStart2(NatToString(b))) <==> a < b
    ensures PadStart2(NatToString(a)) == PadStart2(NatToString(b)) <==> a == b
  {
    TwoDigitField(a);
    TwoDigitField(b);
    DigitsOrder(PadStart2(NatToString(a)), PadStart2(NatToString(b)));
  }

  /** Keys of three dash-separated fields compare field by field when the first two fields have matching widths. */
  lemma ThreeFieldOrder(y1: string, m1: string, d1: string, y2: string, m2: string, d2: string)
    requires |y1| == |y2| && |m1| == |m2|
    ensures StrLess(y1 + "-" + m1 + "-" + d1, y2 + "-" + m2 + "-" + d2)
      <==> (StrLess(y1, y2) || (y1 == y2 && (StrLess(m1, m2) || (m1 == m2 && StrLess(d1, d2)))))
  {
    assert y1 + "-" + m1 + "-" + d1 == y1 + ("-" + (m1 + ("-" + d1)));
    assert y2 + "-" + m2 + "-" + d2 == y2 + ("-" + (m2 + ("-" + d2)));
    StrLessAppend(y1, y2, "-" + (m1 + ("-" + d1)), "-" + (m2 + ("-" + d2)));
    StrLessAppend("-", "-", m1 + ("-" + d1), m2 + ("-" + d2));
    StrLessAppend(m1, m2, "-" + d1, "-" + d2);
    StrLessAppend("-", "-", d1, d2);
    StrLessIrreflexive("-");
  }

  /**
    For the years 1000..9999 the string order of date keys is the
    chronological order of the dates.
   */
  lemma DateKeyOrder(a: Date, b: Date)
    requires 1000 <= a.year <= 9999 && 1000 <= b.year <= 9999
    requires 1 <= a.month <= 12 && 1 <= a.day <= 31
    requires 1 <= b.month <= 12 && 1 <= b.day <= 31
    ensures StrLess(DateKey(a), DateKey(b)) <==> DateBefore(a, b)
  {
    YearFieldOrder(a.year, b.year);
    TwoDigitFieldOrder(a.month, b.month);
    TwoDigitFieldOrder(a.day, b.day);
    ThreeFieldOrder(IntToString(a.year), PadStart2(NatToString(a.month)), PadStart2(NatToString(a.day)),
      IntToString(b.year), PadStart2(NatToString(b.month)), PadStart2(NatToString(b.day)));
  }

  /** Chronological order of dates is the order of their day numbers. */
  lemma DateBeforeDays(n1: int, n2: int)
    ensures DateBefore(CivilFromDays(n1), CivilFromDays(n2)) <==> n1 < n2
  {
    var a, b := CivilFromDays(n1), CivilFromDays(n2);
    if DateBefore(a, b) {
      DaysFromCivilMonotone(a, b);
    } else if DateBefore(b, a) {
      DaysFromCivilMonotone(b, a);
    } else {
      assert a == b;
    }
  }

  /**
    For times in the years 1000..9999, one date key sorts before another
    exactly when its day comes first.
   */
  lemma ToDateOnlyKeyOrder(s: Time, t: Time)
    requires 1000 <= FullYear(s) <= 9999 && 1000 <= FullYear(t) <= 9999
    ensures StrLess(ToDateOnlyKey(s), ToDateOnlyKey(t)) <==> DayOf(s) < DayOf(t)
  {
    DateKeyOrder(DateOf(s), DateOf(t));
    DateBeforeDays(DayOf(s), DayOf(t));
  }

  /**
    Below the year 1000 the order breaks: 999-12-31 is the day before
    1000-01-01, yet its key sorts after the later day's key.
   */
  lemma DateKeyOrderBreaksBelowYear1000()
    ensures DateKey(Date(999, 12, 31)) == "999-12-31"
    ensures DateKey(Date(1000, 1, 1)) == "1000-01-01"
    ensures DaysFromCivil(1000, 1, 1) == DaysFromCivil(999, 12, 31) + 1
    ensures StrLess(DateKey(Date(1000, 1, 1)), DateKey(Date(999, 12, 31)))
  {
    assert StrLess("1000-01-01", "999-12-31");
  }
}
