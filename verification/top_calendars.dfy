/**
  `_topCalendarsForDay`: which calendars get a dot in one day cell. The
  enabled calendars marked on that day, in configuration order, stably sorted
  by priority (a missing priority counts as 999), cut to `dots.max`.
 */
module TopCalendars {
  import opened Wrappers
  import opened Sorting
  import opened CalendarData
  import opened DayMarkers

  /** The priority of a calendar; one without a priority counts as 999. */
  function Priority(c: CalendarConfig): int {
    c.priority.GetOr(999)
  }

  /** The configured calendars that are enabled and marked on the day, in configuration order. */
  function Eligible(calendars: seq<CalendarConfig>, enabled: seq<string>, marked: set<string>): (r: seq<CalendarConfig>)
    ensures |r| <= |calendars|
    ensures forall x :: x in r <==> x in calendars && x.entity in enabled && x.entity in marked
    ensures Subsequence(r, calendars)
    ensures forall x :: multiset(r)[x] == if x.entity in enabled && x.entity in marked then multiset(calendars)[x] else 0
    decreases |calendars|
  {
    if |calendars| == 0 then []
    else
      var c := calendars[0];
      assert forall x :: x in calendars <==> x == c || x in calendars[1..] by {
        assert calendars == [c] + calendars[1..];
      }
      assert multiset(calendars) == multiset([c]) + multiset(calendars[1..]) by {
        assert calendars == [c] + calendars[1..];
      }
      var rest := Eligible(calendars[1..], enabled, marked);
      if c.entity in enabled && c.entity in marked then
        assert ([c] + rest)[1..] == rest;
        [c] + rest
      else
        rest
  }

  /**
    The end index `Array.prototype.slice(0, end)` stops at on a sequence of
    length `len`: a negative `end` counts back from the end, and both ends
    are clamped to the sequence.
   */
  function SliceEnd(len: nat, end: int): (n: nat)
    ensures n <= len
    ensures end >= 0 ==> n == (if end < len then end else len)
    ensures end < 0 ==> n == (if len + end < 0 then 0 else len + end)
  {
    if end < 0 then (if len + end < 0 then 0 else len + end)
    else if end > len then len
    else end
  }

  /** The `dots.max` option, 2 when absent. */
  function DotsMax(dotsMax: Option<int>): int {
    dotsMax.GetOr(2)
  }

  /** A prefix of a sorted sequence is sorted and holds only elements of the sequence. */
  lemma SortedPrefix<T>(s: seq<T>, n: nat, key: T -> int)
    requires SortedBy(s, key) && n <= |s|
    ensures SortedBy(s[..n], key)
    ensures forall x :: x in s[..n] ==> x in s
  {
    assert forall i :: 0 <= i < n ==> s[..n][i] == s[i];
  }

  /** The eligible calendars of one marker set, stably sorted by priority and cut at `max`. */
  function TopOfMarked(calendars: seq<CalendarConfig>, enabled: seq<string>, marked: set<string>, max: int)
    : (r: seq<CalendarConfig>)
    ensures forall x :: x in r ==> x in calendars && x.entity in enabled && x.entity in marked
    ensures SortedBy(r, Priority)
    ensures max >= 0 ==> |r| <= max
  {
    var sorted := SortBy(Eligible(calendars, enabled, marked), Priority);
    var n := SliceEnd(|sorted|, max);
    SortedPrefix(sorted, n, Priority);
    assert forall x :: x in sorted ==> x in multiset(sorted);
    sorted[..n]
  }

  /**
    `_topCalendarsForDay(dayKey, dayToCalendars)`: no marker set for the day
    gives no calendars; otherwise the eligible calendars by priority, cut to
    the configured maximum.
   */
  function TopCalendarsForDay(calendars: seq<CalendarConfig>, enabled: seq<string>, dayToCalendars: Markers,
                              dayKey: string, dotsMax: Option<int>): (r: seq<CalendarConfig>)
    ensures dayKey !in dayToCalendars ==> r == []
    ensures forall x :: x in r ==> x in calendars && x.entity in enabled && Marked(dayToCalendars, dayKey, x.entity)
    ensures SortedBy(r, Priority)
    ensures DotsMax(dotsMax) >= 0 ==> |r| <= DotsMax(dotsMax)
  {
    if dayKey !in dayToCalendars then []
    else TopOfMarked(calendars, enabled, dayToCalendars[dayKey], DotsMax(dotsMax))
  }

  /** The result, when the day has a marker set, is the first `n` of the priority-sorted eligible calendars. */
  lemma TopCalendarsPrefix(calendars: seq<CalendarConfig>, enabled: seq<string>, dayToCalendars: Markers,
                           dayKey: string, dotsMax: Option<int>)
    requires dayKey in dayToCalendars
    ensures var eligible := Eligible(calendars, enabled, dayToCalendars[dayKey]);
      var sorted := SortBy(eligible, Priority);
      var n := SliceEnd(|eligible|, DotsMax(dotsMax));
      TopCalendarsForDay(calendars, enabled, dayToCalendars, dayKey, dotsMax) == sorted[..n]
  {
    var eligible := Eligible(calendars, enabled, dayToCalendars[dayKey]);
    assert |SortBy(eligible, Priority)| == |eligible| by {
      assert |multiset(SortBy(eligible, Priority))| == |multiset(eligible)|;
    }
  }

  /**
    How many dots a marked day shows: `min(max, eligible)` for a non-negative
    maximum, and all but the last `-max` eligible calendars for a negative one.
   */
  lemma TopCalendarsCount(calendars: seq<CalendarConfig>, enabled: seq<string>, dayToCalendars: Markers,
                          dayKey: string, dotsMax: Option<int>)
    requires dayKey in dayToCalendars
    ensures var count := |Eligible(calendars, enabled, dayToCalendars[dayKey])|;
      var max := DotsMax(dotsMax);
      var r := TopCalendarsForDay(calendars, enabled, dayToCalendars, dayKey, dotsMax);
      && (max >= 0 ==> |r| == if max < count then max else count)
      && (max < 0 ==> |r| == if count + max < 0 then 0 else count + max)
  {
    TopCalendarsPrefix(calendars, enabled, dayToCalendars, dayKey, dotsMax);
  }

  /** In a sorted sequence, an element outside a prefix has a key no smaller than any key in the prefix. */
  lemma OutsideSortedPrefix<T>(s: seq<T>, n: nat, key: T -> int, i: int, x: T)
    requires SortedBy(s, key) && n <= |s|
    requires x in s && x !in s[..n] && 0 <= i < n
    ensures key(s[..n][i]) <= key(x)
  {
    var j :| 0 <= j < |s| && s[j] == x;
    assert n <= j by {
      assert forall k :: 0 <= k < n ==> s[..n][k] == s[k];
    }
    assert s[..n][i] == s[i];
  }

  /** Every eligible calendar left out has a priority no smaller than any shown one. */
  lemma TopCalendarsHighestPriority(calendars: seq<CalendarConfig>, enabled: seq<string>, dayToCalendars: Markers,
                                    dayKey: string, dotsMax: Option<int>, i: int, x: CalendarConfig)
    requires dayKey in dayToCalendars
    requires x in calendars && x.entity in enabled && x.entity in dayToCalendars[dayKey]
    requires x !in TopCalendarsForDay(calendars, enabled, dayToCalendars, dayKey, dotsMax)
    requires 0 <= i < |TopCalendarsForDay(calendars, enabled, dayToCalendars, dayKey, dotsMax)|
    ensures Priority(TopCalendarsForDay(calendars, enabled, dayToCalendars, dayKey, dotsMax)[i]) <= Priority(x)
  {
    var eligible := Eligible(calendars, enabled, dayToCalendars[dayKey]);
    var sorted := SortBy(eligible, Priority);
    TopCalendarsPrefix(calendars, enabled, dayToCalendars, dayKey, dotsMax);
    assert x in sorted by {
      assert x in multiset(eligible);
      assert x in multiset(sorted);
    }
    OutsideSortedPrefix(sorted, SliceEnd(|eligible|, DotsMax(dotsMax)), Priority, i, x);
  }

  /** The calendars with one priority taken from a prefix are a prefix of those in the whole sequence. */
  lemma {:induction false} WithKeyOfPrefix<T>(s: seq<T>, n: nat, key: T -> int, v: int)
    requires n <= |s|
    ensures WithKey(s[..n], key, v) <= WithKey(s, key, v)
    decreases n
  {
    if n > 0 {
      assert s[..n][1..] == s[1..][..n - 1];
      WithKeyOfPrefix(s[1..], n - 1, key, v);
      assert s[..n][0] == s[0];
    }
  }

  /**
    Ties keep configuration order: the shown calendars of any one priority
    are the first ones of that priority among the eligible calendars.
   */
  lemma TopCalendarsTiesInConfigOrder(calendars: seq<CalendarConfig>, enabled: seq<string>, dayToCalendars: Markers,
                                      dayKey: string, dotsMax: Option<int>, v: int)
    requires dayKey in dayToCalendars
    ensures WithKey(TopCalendarsForDay(calendars, enabled, dayToCalendars, dayKey, dotsMax), Priority, v)
      <= WithKey(Eligible(calendars, enabled, dayToCalendars[dayKey]), Priority, v)
  {
    var eligible := Eligible(calendars, enabled, dayToCalendars[dayKey]);
    var sorted := SortBy(eligible, Priority);
    TopCalendarsPrefix(calendars, enabled, dayToCalendars, dayKey, dotsMax);
    WithKeyOfPrefix(sorted, SliceEnd(|eligible|, DotsMax(dotsMax)), Priority, v);
    SortByWithKey(eligible, Priority, v);
  }
}
