/**
  The budget of the selected day's event list (`_renderEventList`): all-day
  events first, then timed ones; an optional `events.max_items` limit cuts
  the list and counts what it hides; `events.gap_reduction` narrows the time
  column and the gap of each row.
 */
module EventList {
  import opened Wrappers
  import opened Sorting
  import opened DayMarkers
  import opened NumberFormat

  /** The all-day events of the selection, in their order. */
  function AllDayOf(s: seq<SelectedEvent>): (r: seq<SelectedEvent>)
    ensures forall x :: x in r <==> x in s && x.event.allDay
    decreases |s|
  {
    if |s| == 0 then []
    else
      assert forall x :: x in s <==> x == s[0] || x in s[1..] by {
        assert s == [s[0]] + s[1..];
      }
      (if s[0].event.allDay then [s[0]] else []) + AllDayOf(s[1..])
  }

  /** The timed events of the selection, in their order. */
  function TimedOf(s: seq<SelectedEvent>): (r: seq<SelectedEvent>)
    ensures forall x :: x in r <==> x in s && !x.event.allDay
    decreases |s|
  {
    if |s| == 0 then []
    else
      assert forall x :: x in s <==> x == s[0] || x in s[1..] by {
        assert s == [s[0]] + s[1..];
      }
      (if !s[0].event.allDay then [s[0]] else []) + TimedOf(s[1..])
  }

  /** The place of an event in the merged list: all-day events rank first. */
  function AllDayRank(x: SelectedEvent): int {
    if x.event.allDay then 0 else 1
  }

  /** The list limit from `events.max_items`: none when the option is absent or `null`, else the option clamped to 1..50. */
  function ItemLimit(maxItems: Option<Numeric>): (limit: Option<int>)
    ensures maxItems.None? ==> limit.None?
    ensures limit.Some? ==> 1 <= limit.value <= 50
    ensures maxItems.Some? ==> limit == ClampNumber(maxItems.value, 1, 50, None)
  {
    match maxItems
    case None => None
    case Some(n) => ClampNumber(n, 1, 50, None)
  }

  /** The all-day events followed by the timed ones. */
  function MergedOf(selected: seq<SelectedEvent>): seq<SelectedEvent> {
    AllDayOf(selected) + TimedOf(selected)
  }

  /** The list the card shows for the selected day, and how many it leaves out. */
  datatype ListBudget = ListBudget(merged: seq<SelectedEvent>, shown: seq<SelectedEvent>, hiddenCount: nat)

  /**
    The merged list holds the all-day events and then the timed ones. With a
    limit, the shown list is its first `limit` entries and the hidden count
    is what is left; without one all is shown and nothing is hidden.
   */
  function EventListBudget(selected: seq<SelectedEvent>, maxItems: Option<Numeric>): (r: ListBudget)
    ensures r.merged == MergedOf(selected) && multiset(r.merged) == multiset(selected)
    ensures forall i, j :: 0 <= i < j < |r.merged| ==> AllDayRank(r.merged[i]) <= AllDayRank(r.merged[j])
    ensures r.shown <= r.merged
    ensures |r.shown| + r.hiddenCount == |r.merged|
    ensures ItemLimit(maxItems).None? ==> r.shown == r.merged && r.hiddenCount == 0
    ensures ItemLimit(maxItems).Some? ==> |r.shown| == Min(ItemLimit(maxItems).value, |r.merged|)
  {
    var merged := MergedOf(selected);
    MergedPermutation(selected);
    match ItemLimit(maxItems)
    case None => ListBudget(merged, merged, 0)
    case Some(limit) =>
      var shown := merged[..Min(limit, |merged|)];
      ListBudget(merged, shown, Max(0, |merged| - |shown|))
  }

  /** Splitting into all-day and timed events loses and adds nothing. */
  lemma {:induction false} FilterSplitMultiset(s: seq<SelectedEvent>)
    ensures multiset(AllDayOf(s)) + multiset(TimedOf(s)) == multiset(s)
    decreases |s|
  {
    if |s| > 0 {
      var head := [s[0]];
      FilterSplitMultiset(s[1..]);
      assert s == head + s[1..];
      assert multiset(s) == multiset(head) + multiset(s[1..]);
      var a := if s[0].event.allDay then head else [];
      var t := if s[0].event.allDay then [] else head;
      assert AllDayOf(s) == a + AllDayOf(s[1..]);
      assert TimedOf(s) == t + TimedOf(s[1..]);
      assert multiset(a) + multiset(t) == multiset(head);
    }
  }

  /** The merged list is a permutation of the selected list. */
  lemma MergedPermutation(s: seq<SelectedEvent>)
    ensures multiset(MergedOf(s)) == multiset(s) && |MergedOf(s)| == |s|
  {
    FilterSplitMultiset(s);
    assert |multiset(MergedOf(s))| == |multiset(s)|;
  }

  lemma {:induction false} WithKeyAppend<T>(a: seq<T>, b: seq<T>, key: T -> int, v: int)
    ensures WithKey(a + b, key, v) == WithKey(a, key, v) + WithKey(b, key, v)
    decreases |a|
  {
    if |a| > 0 {
      assert (a + b)[0] == a[0] && (a + b)[1..] == a[1..] + b;
      WithKeyAppend(a[1..], b, key, v);
    } else {
      assert a + b == b;
    }
  }

  /** The events of one rank, in order: rank 0 are the all-day ones, rank 1 the timed ones. */
  lemma {:induction false} WithRank(s: seq<SelectedEvent>, v: int)
    ensures WithKey(s, AllDayRank, v) == if v == 0 then AllDayOf(s) else if v == 1 then TimedOf(s) else []
    decreases |s|
  {
    if |s| > 0 {
      WithRank(s[1..], v);
    }
  }

  /** Filtering keeps one rank only. */
  lemma {:induction false} FilterRanks(s: seq<SelectedEvent>, v: int)
    ensures WithKey(AllDayOf(s), AllDayRank, v) == if v == 0 then AllDayOf(s) else []
    ensures WithKey(TimedOf(s), AllDayRank, v) == if v == 1 then TimedOf(s) else []
    decreases |s|
  {
    if |s| > 0 {
      FilterRanks(s[1..], v);
      var head := if s[0].event.allDay then [s[0]] else [];
      var rest := AllDayOf(s[1..]);
      WithKeyAppend(head, rest, AllDayRank, v);
      var thead := if !s[0].event.allDay then [s[0]] else [];
      WithKeyAppend(thead, TimedOf(s[1..]), AllDayRank, v);
    }
  }

  /** The events of each rank are the same, and in the same order, in the merged and in the sorted list. */
  lemma MergedWithKey(selected: seq<SelectedEvent>, v: int)
    ensures WithKey(MergedOf(selected), AllDayRank, v) == WithKey(SortBy(selected, AllDayRank), AllDayRank, v)
  {
    WithKeyAppend(AllDayOf(selected), TimedOf(selected), AllDayRank, v);
    FilterRanks(selected, v);
    WithRank(selected, v);
    SortByWithKey(selected, AllDayRank, v);
  }

  /**
    The merged list is the selected list stably sorted with all-day events
    first: all-day events before timed ones, each group in the start order
    of the selected list.
   */
  lemma MergedIsStableSortByAllDay(selected: seq<SelectedEvent>)
    ensures MergedOf(selected) == SortBy(selected, AllDayRank)
  {
    var merged := MergedOf(selected);
    var sorted := SortBy(selected, AllDayRank);
    MergedPermutation(selected);
    assert |merged| == |sorted| by {
      assert |multiset(sorted)| == |multiset(selected)|;
    }
    forall v
      ensures WithKey(merged, AllDayRank, v) == WithKey(sorted, AllDayRank, v)
    {
      MergedWithKey(selected, v);
    }
    StableSortUnique(merged, sorted, AllDayRank);
  }

  /** Without a limit everything is shown; with one the hidden count is what the limit cuts off. */
  lemma HiddenCount(selected: seq<SelectedEvent>, maxItems: Option<Numeric>)
    ensures var r := EventListBudget(selected, maxItems);
      var limit := ItemLimit(maxItems);
      && (limit.None? ==> r.hiddenCount == 0)
      && (limit.Some? ==> r.hiddenCount == Max(0, |selected| - limit.value))
      && r.shown == r.merged[..|r.shown|]
  {
    MergedPermutation(selected);
  }

  /** The `events.gap_reduction` option clamped to 0..40, 16 when it is not a finite number. */
  function GapReduction(gapReduction: Numeric): (g: int)
    ensures 0 <= g <= 40
    ensures gapReduction.NotFinite? ==> g == 16
    ensures gapReduction.Finite? && 0 <= gapReduction.value <= 40 ==> g == gapReduction.value
    ensures gapReduction.Finite? && gapReduction.value < 0 ==> g == 0
    ensures gapReduction.Finite? && 40 < gapReduction.value ==> g == 40
  {
    ClampNumber(gapReduction, 0, 40, Some(16)).value
  }

  /** The time column's width in pixels: 56 less the reduction, but at least 44. */
  function TimeColumn(g: int): int {
    Max(44, 56 - g)
  }

  /** An eighth of a whole `g`, rounded to the nearest integer with halves rounding up. */
  function RoundEighth(g: int): (q: int)
    ensures 8 * q - 4 <= g < 8 * q + 4
  {
    (g + 4) / 8
  }

  /** The row gap in pixels: 8 less a rounded eighth of the reduction, but at least 0. */
  function RowGap(g: int): int {
    Max(0, 8 - RoundEighth(g))
  }

  /**
    Over the clamped range the time column shrinks by the reduction down to
    44 px, and the gap by an eighth of it, rounded, never below 3 px; without
    a finite setting the reduction of 16 gives a 44 px column and a 6 px gap.
   */
  lemma RowLayout(gapReduction: Numeric)
    ensures var g := GapReduction(gapReduction);
      && 44 <= TimeColumn(g) <= 56
      && (g <= 12 ==> TimeColumn(g) == 56 - g)
      && 3 <= RowGap(g) <= 8
      && RowGap(g) == 8 - RoundEighth(g)
      && (gapReduction.NotFinite? ==> TimeColumn(g) == 44 && RowGap(g) == 6)
  {
  }
}
