/**
  The card's state and the operations that change it: `setConfig`, loading
  the visible range into the cache, toggling a calendar, navigating months,
  jumping to today and selecting a day. Each operation is a function from
  the old state to the new one; asynchronous work is reduced to its outcome.
 */
module Card {
  import opened Wrappers
  import opened DateMath
  import opened Grid
  import opened CalendarData
  import opened RangeCache
  import opened DayMarkers

  /**
    The options handed to `setConfig`, as far as the state reads them:
    `calendars` may be absent, `start_weekday` falls back to `"monday"`.
   */
  datatype RawConfig = RawConfig(calendars: Option<seq<CalendarConfig>>, startWeekday: Option<string>)

  /** The merged configuration the card keeps. */
  datatype CardConfig = CardConfig(calendars: seq<CalendarConfig>, startWeekday: string)

  /**
    The card's reactive state: `_viewDate` as its month, `_selectedDate`,
    the `_enabled` set in insertion order, `_eventsCache`, `_loading` and
    `_lastError`.
   */
  datatype CardState = CardState(
    config: CardConfig,
    viewMonth: ViewMonth,
    selectedDate: Time,
    enabled: seq<string>,
    cache: map<string, CacheEntry>,
    loading: bool,
    lastError: Option<string>)

  /** What every operation keeps: a real month, a set without repeats and a selected day at midnight. */
  ghost predicate Valid(s: CardState) {
    && s.viewMonth.Valid()
    && NoDuplicates(s.enabled)
    && s.selectedDate % DAY_MS == 0
  }

  /** Adding to a set: `x` goes at the end unless already present. */
  function SetAdd(s: seq<string>, x: string): (r: seq<string>)
    requires NoDuplicates(s)
    ensures NoDuplicates(r)
    ensures forall y :: y in r <==> y in s || y == x
  {
    if x in s then s else s + [x]
  }

  /** Removing `x` from a set: the others keep their order. */
  function SetDelete(s: seq<string>, x: string): (r: seq<string>)
    requires NoDuplicates(s)
    ensures NoDuplicates(r)
    ensures forall y :: y in r <==> y in s && y != x
    decreases |s|
  {
    if |s| == 0 then []
    else
      assert forall y :: y in s <==> y == s[0] || y in s[1..] by {
        assert s == [s[0]] + s[1..];
      }
      assert NoDuplicates(s[1..]) by {
        forall i, j | 0 <= i < j < |s[1..]|
          ensures s[1..][i] != s[1..][j]
        {
          assert s[1..][i] == s[i + 1] && s[1..][j] == s[j + 1];
        }
      }
      var rest := SetDelete(s[1..], x);
      if s[0] == x then rest
      else
        assert forall k :: 0 <= k < |rest| ==> rest[k] in s[1..];
        assert forall k :: 0 <= k < |rest| ==> rest[k] != s[0] by {
          forall k | 0 <= k < |rest|
            ensures rest[k] != s[0]
          {
            var j :| 0 <= j < |s[1..]| && s[1..][j] == rest[k];
            assert s[j + 1] == rest[k];
          }
        }
        [s[0]] + rest
  }

  /** A set built from `ids`: the ids without repeats, in order of first occurrence. */
  function SetOf(ids: seq<string>, acc: seq<string>): (r: seq<string>)
    requires NoDuplicates(acc)
    ensures NoDuplicates(r)
    ensures forall y :: y in r <==> y in acc || y in ids
    decreases |ids|
  {
    if |ids| == 0 then acc
    else
      assert forall y :: y in ids <==> y == ids[0] || y in ids[1..] by {
        assert ids == [ids[0]] + ids[1..];
      }
      SetOf(ids[1..], SetAdd(acc, ids[0]))
  }

  /**
    `setConfig(config)`: without a non-empty `calendars` list it throws;
    otherwise it views today's month, selects today, enables every
    configured calendar and starts with an empty cache and no error.
   */
  function SetConfig(config: Option<RawConfig>, now: Time): (r: Result<CardState>)
    ensures r.Failure? <==> config.None? || config.value.calendars.None? || |config.value.calendars.value| == 0
    ensures r.Failure? ==> r.error == "`calendars` is required."
    ensures r.Success? ==> Valid(r.value)
    ensures r.Success? ==> forall e :: e in r.value.enabled <==> e in Entities(r.value.config.calendars)
    ensures r.Success? ==> r.value.cache == map[] && !r.value.loading && r.value.lastError.None?
    ensures r.Success? ==> r.value.config.calendars == config.value.calendars.value
    ensures r.Success? ==> r.value.config.startWeekday == config.value.startWeekday.GetOr("monday")
  {
    if config.None? || config.value.calendars.None? || |config.value.calendars.value| == 0 then
      Failure("`calendars` is required.")
    else
      var raw := config.value;
      var merged := CardConfig(raw.calendars.value, raw.startWeekday.GetOr("monday"));
      Success(CardState(
        merged,
        ViewMonthOf(now),
        StartOfDay(now),
        SetOf(Entities(merged.calendars), []),
        map[],
        false,
        None))
  }

  /** The state `setConfig` starts from shows the month of `now` and selects its day. */
  lemma SetConfigStartsToday(config: Option<RawConfig>, now: Time)
    requires config.Some? && config.value.calendars.Some? && |config.value.calendars.value| > 0
    ensures var s := SetConfig(config, now).value;
      && DateOf(s.selectedDate) == DateOf(now)
      && ViewMonthOf(s.selectedDate) == s.viewMonth
  {
    StartOfDayRebuildsDate(now);
  }

  // ---------------------------------------------------------------------------
  // The active range and its cache entry

  /** `_getGridRange()` of the state. */
  function ActiveRange(s: CardState): GridRange {
    GetGridRange(s.viewMonth, s.config.startWeekday)
  }

  /** The cache key of the grid of view month `v` for the enabled ids. */
  function RangeKey(v: ViewMonth, startWeekday: string, enabled: seq<string>): string {
    var g := GetGridRange(v, startWeekday);
    MonthCacheKey(g.gridStart, g.gridEnd, enabled)
  }

  /** The cache key of the visible range for the enabled calendars. */
  function ActiveKey(s: CardState): string {
    RangeKey(s.viewMonth, s.config.startWeekday, s.enabled)
  }

  /** `_getActiveCache()`: the entry of the visible range, if loaded. */
  function GetActiveCache(s: CardState): (r: Option<CacheEntry>)
    ensures r.Some? <==> ActiveKey(s) in s.cache
    ensures r.Some? ==> r.value == s.cache[ActiveKey(s)]
  {
    var key := ActiveKey(s);
    if key in s.cache then Some(s.cache[key]) else None
  }

  /** The key reads only the view month, the first weekday and the enabled ids. */
  lemma ActiveKeyOfFields(s: CardState, t: CardState)
    requires s.viewMonth == t.viewMonth && s.config.startWeekday == t.config.startWeekday && s.enabled == t.enabled
    ensures ActiveKey(s) == ActiveKey(t)
  {
  }

  // ---------------------------------------------------------------------------
  // Loading the visible range

  /** The Home Assistant connection: present or not, and with `callWS` or not. */
  datatype Hass = Hass(hasCallWS: bool)

  /**
    How the awaited `calendar.get_events` call ended: it answered (with or
    without a `response`), or it threw an error with this message.
   */
  datatype FetchOutcome = Responded(response: Option<ByEntity>) | Threw(message: string)

  /** The service call sent: all enabled ids and the grid bounds. */
  datatype Request = Request(entityIds: seq<string>, start: Time, end: Time)

  /**
    One run of `_loadVisibleRange()`: the state while the call is awaited,
    the state after it, and the request sent, if any.
   */
  datatype LoadStep = LoadStep(during: CardState, after: CardState, request: Option<Request>)

  /** The message of the error `_callCalendarGetEvents` throws without `callWS`. */
  const NoCallWS := "hass.callWS is not available."

  /**
    `_loadVisibleRange()` once the grid `g` and its cache key are known:
    nothing without `hass` or when the key is cached; otherwise it marks the
    card as loading, calls the service, stores the answer under the key or
    records the error, and stops loading.
   */
  function LoadRange(s: CardState, hass: Option<Hass>, outcome: FetchOutcome, g: GridRange, key: string): (r: LoadStep)
    ensures hass.None? || key in s.cache ==> r.during == s && r.after == s && r.request.None?
    ensures hass.Some? && key !in s.cache ==>
      && r.during == s.(loading := true, lastError := None)
      && !r.after.loading
      && r.after.config == s.config && r.after.viewMonth == s.viewMonth
      && r.after.selectedDate == s.selectedDate && r.after.enabled == s.enabled
    ensures r.request.Some? <==> hass.Some? && hass.value.hasCallWS && key !in s.cache
    ensures r.request.Some? ==> r.request.value == Request(s.enabled, g.gridStart, g.gridEnd)
    ensures r.request.Some? && outcome.Responded? ==>
      && r.after.cache == s.cache[key := CacheEntry(g.gridStart, g.gridEnd, outcome.response.GetOr(map[]))]
      && r.after.lastError.None?
    ensures r.request.Some? && outcome.Threw? ==> r.after.cache == s.cache && r.after.lastError == Some(outcome.message)
    ensures hass.Some? && !hass.value.hasCallWS && key !in s.cache ==>
      r.after.cache == s.cache && r.after.lastError == Some(NoCallWS)
  {
    if hass.None? || key in s.cache then LoadStep(s, s, None)
    else
      var during := s.(loading := true, lastError := None);
      if !hass.value.hasCallWS then
        LoadStep(during, during.(lastError := Some(NoCallWS), loading := false), None)
      else
        var request := Request(s.enabled, g.gridStart, g.gridEnd);
        match outcome
        case Responded(response) =>
          var entry := CacheEntry(g.gridStart, g.gridEnd, response.GetOr(map[]));
          LoadStep(during, during.(cache := s.cache[key := entry], loading := false), Some(request))
        case Threw(message) =>
          LoadStep(during, during.(lastError := Some(message), loading := false), Some(request))
  }

  /** `_loadVisibleRange()`: the grid of the view month and the key of that grid for the enabled ids. */
  function LoadVisibleRange(s: CardState, hass: Option<Hass>, outcome: FetchOutcome): LoadStep {
    LoadRange(s, hass, outcome, ActiveRange(s), ActiveKey(s))
  }

  /** A load never changes the key of the visible range. */
  lemma LoadKeepsKey(s: CardState, hass: Option<Hass>, outcome: FetchOutcome)
    ensures ActiveKey(LoadVisibleRange(s, hass, outcome).after) == ActiveKey(s)
  {
    var r := LoadVisibleRange(s, hass, outcome);
    ActiveKeyOfFields(r.after, s);
  }

  /** A successful load adds the range's key to the cache and leaves every other entry as it was. */
  lemma LoadSuccessInsertsOnlyItsKey(s: CardState, response: Option<ByEntity>, g: GridRange, key: string, k: string)
    requires key !in s.cache
    ensures var r := LoadRange(s, Some(Hass(true)), Responded(response), g, key).after;
      && r.cache.Keys == s.cache.Keys + {key}
      && (k != key && k in s.cache ==> r.cache[k] == s.cache[k])
  {
  }

  /** After a successful load the answer is the active cache entry. */
  lemma LoadSuccessIsActive(s: CardState, response: Option<ByEntity>, g: GridRange, r: CardState)
    requires g == ActiveRange(s) && ActiveKey(s) !in s.cache
    requires r == LoadVisibleRange(s, Some(Hass(true)), Responded(response)).after
    ensures GetActiveCache(r) == Some(CacheEntry(g.gridStart, g.gridEnd, response.GetOr(map[])))
  {
    LoadKeepsKey(s, Some(Hass(true)), Responded(response));
  }

  /** Once a range is loaded, loading it again is a cache hit: nothing changes and nothing is sent. */
  lemma LoadTwiceHitsCache(s: CardState, hass: Hass, outcome: FetchOutcome, again: FetchOutcome)
    requires hass.hasCallWS && outcome.Responded?
    ensures var first := LoadVisibleRange(s, Some(hass), outcome).after;
      var second := LoadVisibleRange(first, Some(hass), again);
      second.after == first && second.request.None?
  {
    LoadKeepsKey(s, Some(hass), outcome);
  }

  /** A failed load leaves the cache as it was, so the range stays unloaded. */
  lemma LoadFailureKeepsCache(s: CardState, hass: Hass, message: string)
    requires ActiveKey(s) !in s.cache
    ensures var r := LoadVisibleRange(s, Some(hass), Threw(message)).after;
      && r.cache == s.cache
      && GetActiveCache(r).None?
      && r.lastError == Some(if hass.hasCallWS then message else NoCallWS)
  {
    LoadKeepsKey(s, Some(hass), Threw(message));
  }

  /** Loading keeps the state valid. */
  lemma LoadKeepsValid(s: CardState, hass: Option<Hass>, outcome: FetchOutcome)
    requires Valid(s)
    ensures Valid(LoadVisibleRange(s, hass, outcome).during) && Valid(LoadVisibleRange(s, hass, outcome).after)
  {
  }

  // ---------------------------------------------------------------------------
  // Toggling, navigation and selection

  /** `_toggleCalendar(entity)`: a copy of the set with `entity` removed if present, added if not. */
  function ToggleCalendar(s: CardState, entity: string): (r: CardState)
    requires Valid(s)
    ensures Valid(r)
    ensures forall e :: e in r.enabled <==> (e in s.enabled <==> e != entity)
    ensures r == s.(enabled := r.enabled)
  {
    var next := if entity in s.enabled then SetDelete(s.enabled, entity) else SetAdd(s.enabled, entity);
    s.(enabled := next)
  }

  /**
    Toggling the same calendar twice restores the enabled set; the order of
    the ids may change, but the cache key, and with it the active entry, does not.
   */
  lemma ToggleTwice(s: CardState, entity: string)
    requires Valid(s)
    ensures var t := ToggleCalendar(ToggleCalendar(s, entity), entity);
      && (forall e :: e in t.enabled <==> e in s.enabled)
      && ActiveKey(t) == ActiveKey(s)
      && GetActiveCache(t) == GetActiveCache(s)
  {
    var t := ToggleCalendar(ToggleCalendar(s, entity), entity);
    var g := ActiveRange(s);
    assert ActiveRange(t) == g;
    CacheKeyOfSet(g.gridStart, g.gridEnd, t.enabled, s.enabled);
  }

  /** `_navMonth(delta)`: only the view month moves. */
  function NavMonthState(s: CardState, delta: int): (r: CardState)
    ensures r.viewMonth.Valid()
    ensures 12 * r.viewMonth.year + r.viewMonth.month0 == 12 * s.viewMonth.year + s.viewMonth.month0 + delta
    ensures r == s.(viewMonth := r.viewMonth)
  {
    s.(viewMonth := NavMonth(s.viewMonth, delta))
  }

  /** Next month then previous month gives back the same state. */
  lemma NavForwardBack(s: CardState)
    requires Valid(s)
    ensures NavMonthState(NavMonthState(s, 1), -1) == s
    ensures NavMonthState(NavMonthState(s, -1), 1) == s
  {
    NavMonthForwardBack(s.viewMonth);
    NavMonthBackForward(s.viewMonth);
  }

  /** `_goToday()`: view the month of `now` and select its day. */
  function GoToday(s: CardState, now: Time): (r: CardState)
    ensures r == s.(viewMonth := r.viewMonth, selectedDate := r.selectedDate)
    ensures r.selectedDate % DAY_MS == 0 && r.selectedDate <= now < r.selectedDate + DAY_MS
  {
    s.(viewMonth := ViewMonthOf(now), selectedDate := StartOfDay(now))
  }

  /** After `_goToday()` the selected day lies in the viewed month, and it is today's date. */
  lemma GoTodayShowsSelection(s: CardState, now: Time)
    requires Valid(s)
    ensures var r := GoToday(s, now);
      && Valid(r)
      && ViewMonthOf(r.selectedDate) == r.viewMonth
      && DateOf(r.selectedDate) == DateOf(now)
  {
    StartOfDayRebuildsDate(now);
  }

  /** `_selectDay(d)`: select the start of `d`'s day. */
  function SelectDay(s: CardState, d: Time): (r: CardState)
    ensures r == s.(selectedDate := r.selectedDate)
    ensures r.selectedDate % DAY_MS == 0 && r.selectedDate <= d < r.selectedDate + DAY_MS
  {
    s.(selectedDate := StartOfDay(d))
  }

  /** Selecting any time of a day selects that day's date, and selecting it again changes nothing. */
  lemma SelectDayDate(s: CardState, d: Time)
    ensures DateOf(SelectDay(s, d).selectedDate) == DateOf(d)
    ensures SelectDay(SelectDay(s, d), SelectDay(s, d).selectedDate) == SelectDay(s, d)
  {
    StartOfDayRebuildsDate(d);
    MidnightFixed(DayOf(d));
  }

  /** The markers and selected events the card renders, from its active cache entry. */
  function ShownDays(s: CardState): (r: DayData)
    ensures GetActiveCache(s).None? ==> r.dayToCalendars == map[] && r.selectedEvents == []
  {
    ComputeDayMarkersAndSelectedEvents(s.config.calendars, s.enabled, GetActiveCache(s), s.selectedDate)
  }

  /**
    The two-digit-year rule on a grid the card does show: in the January 100
    grid with weeks starting on Monday, an event whose clamped start falls in
    the leading cells of December 99 (every event that starts before the
    grid among them) gets a dot on each grid day it meets when walked as
    intended, and on none of them as the code is written.
   */
  lemma January100GridLosesMarks(ev: Event, entity: string, d: int)
    requires ev.start < GridForMonth(100, 0, "monday").firstOfMonth
    requires EventMarksDay(ev, GridForMonth(100, 0, "monday").gridStart, GridForMonth(100, 0, "monday").gridEnd, d)
    ensures var g := GridForMonth(100, 0, "monday");
      && Marked(MarkEvent(DayKey, ev, entity, g.gridStart, g.gridEnd, map[]), DayKey(d), entity)
      && !Marked(MarkEventAsWritten(DayKey, ev, entity, g.gridStart, g.gridEnd, map[]), DayKey(d), entity)
  {
    var g := GridForMonth(100, 0, "monday");
    January100Example();
    DayKeyIsInjective();
    var clampStart := if ev.start < g.gridStart then g.gridStart else ev.start;
    assert FullYear(clampStart) == 99;
    MarkEventAsWrittenLosesMarks(DayKey, ev, entity, g.gridStart, g.gridEnd, d);
  }
}
