/**
  `_computeDayMarkersAndSelectedEvents`: from the cached range of the visible
  grid, the map from day key to the ids of the calendars with an event on
  that day, and the events that overlap the selected day, sorted by start.
 */
module DayMarkers {
  import opened Wrappers
  import opened DateMath
  import opened Sorting
  import opened CalendarData

  /** `dayToCalendars`: day key to the set of calendar ids marked on that day. */
  type Markers = map<string, set<string>>

  /** The date key of the local day with day number `d`. */
  function DayKey(d: int): string {
    ToDateOnlyKey(d * DAY_MS)
  }

  lemma DayKeyInjective(d1: int, d2: int)
    ensures DayKey(d1) == DayKey(d2) <==> d1 == d2
  {
    MidnightFixed(d1);
    MidnightFixed(d2);
    DateKeyInjective(d1 * DAY_MS, d2 * DAY_MS);
  }

  /** Calendar `c` is in the marker set of key `k`. */
  predicate Marked(m: Markers, k: string, c: string) {
    k in m && c in m[k]
  }

  /** Adds calendar `c` to the marker set of key `k`, creating the set when the key is new. */
  function AddMarker(m: Markers, k: string, c: string): (r: Markers)
    ensures forall k', c' :: Marked(r, k', c') <==> Marked(m, k', c') || (k' == k && c' == c)
    ensures r.Keys == m.Keys + {k}
  {
    m[k := (if k in m then m[k] else {}) + {c}]
  }

  /** The event overlaps local day `d`, both taken as half-open intervals. */
  predicate MeetsDay(ev: Event, d: int) {
    IntervalsOverlap(ev.start, ev.end, d * DAY_MS, (d + 1) * DAY_MS)
  }

  /**
    The day loop of one event: for each day `d` from the first one while its
    midnight is before `clampEnd`, mark `entity` on that day when the event
    meets it.
   */
  function WalkDays(key: int -> string, ev: Event, entity: string, d: int, clampEnd: Time, m: Markers): Markers
    decreases clampEnd - d * DAY_MS
  {
    if d * DAY_MS < clampEnd then
      WalkDays(key, ev, entity, d + 1, clampEnd, if MeetsDay(ev, d) then AddMarker(m, key(d), entity) else m)
    else m
  }

  /**
    The condition under which an event marks day `d` of the grid
    `[gridStart, gridEnd)`: the day starts inside the grid (on or after the
    grid's first day and before its end) and the event meets it.
   */
  predicate EventMarksDay(ev: Event, gridStart: Time, gridEnd: Time, d: int) {
    DayOf(gridStart) <= d && d * DAY_MS < gridEnd && MeetsDay(ev, d)
  }

  /** One event: clamp it to the grid and walk its days from the start of the clamped start. */
  function MarkEvent(key: int -> string, ev: Event, entity: string, gridStart: Time, gridEnd: Time, m: Markers): Markers {
    var clampStart := if ev.start < gridStart then gridStart else ev.start;
    var clampEnd := if ev.end > gridEnd then gridEnd else ev.end;
    WalkDays(key, ev, entity, DayOf(StartOfDay(clampStart)), clampEnd, m)
  }

  /** All events of one calendar, in order. */
  function MarkEvents(key: int -> string, evs: seq<Event>, entity: string, gridStart: Time, gridEnd: Time, m: Markers): Markers
    decreases |evs|
  {
    if |evs| == 0 then m
    else MarkEvents(key, evs[1..], entity, gridStart, gridEnd, MarkEvent(key, evs[0], entity, gridStart, gridEnd, m))
  }

  /** All configured calendars, in configuration order, skipping the disabled ones. */
  function MarkCalendars(key: int -> string, calendars: seq<CalendarConfig>, enabled: seq<string>, byEntity: ByEntity,
                         gridStart: Time, gridEnd: Time, m: Markers): Markers
    decreases |calendars|
  {
    if |calendars| == 0 then m
    else
      var entity := calendars[0].entity;
      var m' := if entity in enabled then MarkEvents(key, EventsOf(byEntity, entity), entity, gridStart, gridEnd, m) else m;
      MarkCalendars(key, calendars[1..], enabled, byEntity, gridStart, gridEnd, m')
  }

  // ---------------------------------------------------------------------------
  // Which days get marked

  /** Distinct days have distinct keys. */
  ghost predicate InjectiveKey(key: int -> string) {
    forall a, b :: key(a) == key(b) ==> a == b
  }

  lemma DayKeyIsInjective()
    ensures InjectiveKey(DayKey)
  {
    forall a, b
      ensures DayKey(a) == DayKey(b) ==> a == b
    {
      DayKeyInjective(a, b);
    }
  }

  /** `t` lies before the end of day `d` exactly when its day is at most `d`. */
  lemma DayOfAtMost(t: Time, d: int)
    ensures DayOf(t) <= d <==> t < (d + 1) * DAY_MS
  {
    var q, r := t / DAY_MS, t % DAY_MS;
    assert t == q * DAY_MS + r && 0 <= r < DAY_MS;
    if q <= d {
      assert q * DAY_MS <= d * DAY_MS;
    } else {
      assert (d + 1) * DAY_MS <= q * DAY_MS;
    }
  }

  /** One step of the walk adds at most the marker of the walked day. */
  lemma MarkStep(m: Markers, m': Markers, k: string, k0: string, entity: string, c: string, meets: bool)
    requires m' == if meets then AddMarker(m, k0, entity) else m
    ensures Marked(m', k, c) <==> Marked(m, k, c) || (meets && k == k0 && c == entity)
  {
  }

  /** The walk marks exactly the days from `d0` on whose midnight is before `clampEnd` and that the event meets. */
  lemma {:induction false} WalkDaysMarked(key: int -> string, ev: Event, entity: string, d0: int, clampEnd: Time,
                                           m: Markers, d: int, c: string)
    requires InjectiveKey(key)
    ensures Marked(WalkDays(key, ev, entity, d0, clampEnd, m), key(d), c)
      <==> (Marked(m, key(d), c) || (c == entity && d0 <= d && d * DAY_MS < clampEnd && MeetsDay(ev, d)))
    decreases clampEnd - d0 * DAY_MS
  {
    if d0 * DAY_MS < clampEnd {
      var meets := MeetsDay(ev, d0);
      var m' := if meets then AddMarker(m, key(d0), entity) else m;
      WalkDaysMarked(key, ev, entity, d0 + 1, clampEnd, m', d, c);
      MarkStep(m, m', key(d), key(d0), entity, c, meets);
      if d0 == d {
        assert d * DAY_MS < clampEnd;
      }
    } else {
      if d0 <= d {
        assert d0 * DAY_MS <= d * DAY_MS;
      }
    }
  }

  /** Clamping to the grid and starting at the clamped start's day marks exactly the grid days the event meets. */
  lemma MarkEventMarked(key: int -> string, ev: Event, entity: string, gridStart: Time, gridEnd: Time,
                        m: Markers, d: int, c: string)
    requires InjectiveKey(key)
    ensures Marked(MarkEvent(key, ev, entity, gridStart, gridEnd, m), key(d), c)
      <==> (Marked(m, key(d), c) || (c == entity && EventMarksDay(ev, gridStart, gridEnd, d)))
  {
    var clampStart := if ev.start < gridStart then gridStart else ev.start;
    var clampEnd := if ev.end > gridEnd then gridEnd else ev.end;
    WalkDaysMarked(key, ev, entity, DayOf(StartOfDay(clampStart)), clampEnd, m, d, c);
    MidnightFixed(DayOf(clampStart));
    DayOfAtMost(clampStart, d);
    DayOfAtMost(ev.start, d);
    DayOfAtMost(gridStart, d);
  }

  /**
    One event as the code is written: the walk starts at the start of the
    clamped start's day rebuilt through the constructor, whose two-digit-year
    rule moves the years 0..99 to the 1900s.
   */
  function MarkEventAsWritten(key: int -> string, ev: Event, entity: string, gridStart: Time, gridEnd: Time,
                              m: Markers): Markers {
    var clampStart := if ev.start < gridStart then gridStart else ev.start;
    var clampEnd := if ev.end > gridEnd then gridEnd else ev.end;
    WalkDays(key, ev, entity, DayOf(StartOfDayAsWritten(clampStart)), clampEnd, m)
  }

  /**
    As written, an event whose clamped start lies in the years 0..99 adds no
    marker on a grid of at most six weeks: its walk starts about 1900 years
    after the grid ends.
   */
  lemma MarkEventAsWrittenMarksNothing(key: int -> string, ev: Event, entity: string, gridStart: Time, gridEnd: Time,
                                       m: Markers)
    requires gridEnd <= gridStart + 42 * DAY_MS
    requires 0 <= FullYear(if ev.start < gridStart then gridStart else ev.start) <= 99
    ensures MarkEventAsWritten(key, ev, entity, gridStart, gridEnd, m) == m
  {
    var clampStart := if ev.start < gridStart then gridStart else ev.start;
    var clampEnd := if ev.end > gridEnd then gridEnd else ev.end;
    var d0 := DayOf(StartOfDayAsWritten(clampStart));
    StartOfDayAsWrittenSkipsCenturies(clampStart);
    assert DayOf(clampStart) * DAY_MS > clampStart - DAY_MS;
    assert d0 * DAY_MS >= (DayOf(clampStart) + 365 * 1900 - 1) * DAY_MS;
    assert d0 * DAY_MS >= clampEnd;
  }

  /**
    The discrepancy: on such a grid, every day an event of the years 0..99
    meets is marked by `MarkEvent` and left unmarked by the code as written.
   */
  lemma MarkEventAsWrittenLosesMarks(key: int -> string, ev: Event, entity: string, gridStart: Time, gridEnd: Time,
                                     d: int)
    requires InjectiveKey(key)
    requires gridEnd <= gridStart + 42 * DAY_MS
    requires 0 <= FullYear(if ev.start < gridStart then gridStart else ev.start) <= 99
    requires EventMarksDay(ev, gridStart, gridEnd, d)
    ensures Marked(MarkEvent(key, ev, entity, gridStart, gridEnd, map[]), key(d), entity)
    ensures !Marked(MarkEventAsWritten(key, ev, entity, gridStart, gridEnd, map[]), key(d), entity)
  {
    MarkEventMarked(key, ev, entity, gridStart, gridEnd, map[], d, entity);
    MarkEventAsWrittenMarksNothing(key, ev, entity, gridStart, gridEnd, map[]);
  }

  /** Some event of `evs` marks day `d` of the grid. */
  predicate SomeEventMarksDay(evs: seq<Event>, gridStart: Time, gridEnd: Time, d: int) {
    exists i :: 0 <= i < |evs| && EventMarksDay(evs[i], gridStart, gridEnd, d)
  }

  lemma SomeEventMarksDaySplit(evs: seq<Event>, gridStart: Time, gridEnd: Time, d: int)
    requires |evs| > 0
    ensures SomeEventMarksDay(evs, gridStart, gridEnd, d)
      <==> (EventMarksDay(evs[0], gridStart, gridEnd, d) || SomeEventMarksDay(evs[1..], gridStart, gridEnd, d))
  {
    if SomeEventMarksDay(evs[1..], gridStart, gridEnd, d) {
      var i :| 0 <= i < |evs[1..]| && EventMarksDay(evs[1..][i], gridStart, gridEnd, d);
      assert evs[1..][i] == evs[i + 1];
    }
    if SomeEventMarksDay(evs, gridStart, gridEnd, d) && !EventMarksDay(evs[0], gridStart, gridEnd, d) {
      var i :| 0 <= i < |evs| && EventMarksDay(evs[i], gridStart, gridEnd, d);
      assert evs[1..][i - 1] == evs[i];
    }
  }

  lemma {:induction false} MarkEventsMarked(key: int -> string, evs: seq<Event>, entity: string, gridStart: Time,
                                             gridEnd: Time, m: Markers, d: int, c: string)
    requires InjectiveKey(key)
    ensures Marked(MarkEvents(key, evs, entity, gridStart, gridEnd, m), key(d), c)
      <==> (Marked(m, key(d), c) || (c == entity && SomeEventMarksDay(evs, gridStart, gridEnd, d)))
    decreases |evs|
  {
    if |evs| > 0 {
      var m' := MarkEvent(key, evs[0], entity, gridStart, gridEnd, m);
      MarkEventsMarked(key, evs[1..], entity, gridStart, gridEnd, m', d, c);
      MarkEventMarked(key, evs[0], entity, gridStart, gridEnd, m, d, c);
      SomeEventMarksDaySplit(evs, gridStart, gridEnd, d);
    }
  }

  /** Some configured calendar has id `c`. */
  predicate Configured(calendars: seq<CalendarConfig>, c: string) {
    exists j :: 0 <= j < |calendars| && calendars[j].entity == c
  }

  lemma ConfiguredSplit(calendars: seq<CalendarConfig>, c: string)
    requires |calendars| > 0
    ensures Configured(calendars, c) <==> (calendars[0].entity == c || Configured(calendars[1..], c))
  {
    if Configured(calendars[1..], c) {
      var j :| 0 <= j < |calendars[1..]| && calendars[1..][j].entity == c;
      assert calendars[j + 1].entity == c;
    }
    if Configured(calendars, c) && calendars[0].entity != c {
      var j :| 0 <= j < |calendars| && calendars[j].entity == c;
      assert calendars[1..][j - 1] == calendars[j];
    }
  }

  lemma {:induction false} MarkCalendarsMarked(key: int -> string, calendars: seq<CalendarConfig>, enabled: seq<string>,
                                                byEntity: ByEntity, gridStart: Time, gridEnd: Time, m: Markers,
                                                d: int, c: string)
    requires InjectiveKey(key)
    ensures Marked(MarkCalendars(key, calendars, enabled, byEntity, gridStart, gridEnd, m), key(d), c)
      <==> (Marked(m, key(d), c)
        || (c in enabled && Configured(calendars, c) && SomeEventMarksDay(EventsOf(byEntity, c), gridStart, gridEnd, d)))
    decreases |calendars|
  {
    if |calendars| > 0 {
      var entity := calendars[0].entity;
      var m' := if entity in enabled then MarkEvents(key, EventsOf(byEntity, entity), entity, gridStart, gridEnd, m) else m;
      MarkCalendarsMarked(key, calendars[1..], enabled, byEntity, gridStart, gridEnd, m', d, c);
      if entity in enabled {
        MarkEventsMarked(key, EventsOf(byEntity, entity), entity, gridStart, gridEnd, m, d, c);
      }
      ConfiguredSplit(calendars, c);
    }
  }

  // ---------------------------------------------------------------------------
  // Which keys and ids can appear at all

  /** A key of a day of the grid `[gridStart, gridEnd)`. */
  ghost predicate GridDayKey(key: int -> string, k: string, gridStart: Time, gridEnd: Time) {
    exists d :: DayOf(gridStart) <= d && d * DAY_MS < gridEnd && key(d) == k
  }

  /**
    Every marker the walk adds is for a grid day and the walked calendar:
    what was not in `m` is a grid day's key holding `entity`.
   */
  lemma {:induction false} WalkDaysOnlyGridDays(key: int -> string, ev: Event, entity: string, d0: int, clampEnd: Time,
                                                 gridStart: Time, gridEnd: Time, m: Markers, k: string, c: string)
    requires DayOf(gridStart) <= d0 && clampEnd <= gridEnd
    requires Marked(WalkDays(key, ev, entity, d0, clampEnd, m), k, c)
    ensures Marked(m, k, c) || (c == entity && GridDayKey(key, k, gridStart, gridEnd))
    decreases clampEnd - d0 * DAY_MS
  {
    if d0 * DAY_MS < clampEnd {
      var meets := MeetsDay(ev, d0);
      var m' := if meets then AddMarker(m, key(d0), entity) else m;
      WalkDaysOnlyGridDays(key, ev, entity, d0 + 1, clampEnd, gridStart, gridEnd, m', k, c);
      MarkStep(m, m', k, key(d0), entity, c, meets);
      if !Marked(m, k, c) && c == entity && k == key(d0) {
        assert DayOf(gridStart) <= d0 && d0 * DAY_MS < gridEnd;
      }
    }
  }

  lemma MarkEventOnlyGridDays(key: int -> string, ev: Event, entity: string, gridStart: Time, gridEnd: Time,
                              m: Markers, k: string, c: string)
    requires Marked(MarkEvent(key, ev, entity, gridStart, gridEnd, m), k, c)
    ensures Marked(m, k, c) || (c == entity && GridDayKey(key, k, gridStart, gridEnd))
  {
    var clampStart := if ev.start < gridStart then gridStart else ev.start;
    var clampEnd := if ev.end > gridEnd then gridEnd else ev.end;
    MidnightFixed(DayOf(clampStart));
    assert DayOf(gridStart) <= DayOf(clampStart) by {
      DayOfAtMost(gridStart, DayOf(clampStart));
    }
    WalkDaysOnlyGridDays(key, ev, entity, DayOf(StartOfDay(clampStart)), clampEnd, gridStart, gridEnd, m, k, c);
  }

  lemma {:induction false} MarkEventsOnlyGridDays(key: int -> string, evs: seq<Event>, entity: string, gridStart: Time,
                                                   gridEnd: Time, m: Markers, k: string, c: string)
    requires Marked(MarkEvents(key, evs, entity, gridStart, gridEnd, m), k, c)
    ensures Marked(m, k, c) || (c == entity && GridDayKey(key, k, gridStart, gridEnd))
    decreases |evs|
  {
    if |evs| > 0 {
      var m' := MarkEvent(key, evs[0], entity, gridStart, gridEnd, m);
      MarkEventsOnlyGridDays(key, evs[1..], entity, gridStart, gridEnd, m', k, c);
      if Marked(m', k, c) {
        MarkEventOnlyGridDays(key, evs[0], entity, gridStart, gridEnd, m, k, c);
      }
    }
  }

  lemma {:induction false} MarkCalendarsOnlyGridDays(key: int -> string, calendars: seq<CalendarConfig>,
                                                      enabled: seq<string>, byEntity: ByEntity, gridStart: Time,
                                                      gridEnd: Time, m: Markers, k: string, c: string)
    requires Marked(MarkCalendars(key, calendars, enabled, byEntity, gridStart, gridEnd, m), k, c)
    ensures Marked(m, k, c) || (c in enabled && Configured(calendars, c) && GridDayKey(key, k, gridStart, gridEnd))
    decreases |calendars|
  {
    if |calendars| > 0 {
      var entity := calendars[0].entity;
      var m' := if entity in enabled then MarkEvents(key, EventsOf(byEntity, entity), entity, gridStart, gridEnd, m) else m;
      MarkCalendarsOnlyGridDays(key, calendars[1..], enabled, byEntity, gridStart, gridEnd, m', k, c);
      if Marked(m', k, c) && entity in enabled {
        MarkEventsOnlyGridDays(key, EventsOf(byEntity, entity), entity, gridStart, gridEnd, m, k, c);
      }
      ConfiguredSplit(calendars, c);
    }
  }
  // ---------------------------------------------------------------------------
  // Events of the selected day

  /** An event of the selected day together with the calendar it came from. */
  datatype SelectedEvent = SelectedEvent(event: Event, calendar: CalendarConfig)

  /** The sort key, `_start`. */
  function StartOf(x: SelectedEvent): int {
    x.event.start
  }

  /** The events of `evs` that overlap `[dayStart, dayEnd)`, tagged with their calendar, in order. */
  function SelectFrom(evs: seq<Event>, cal: CalendarConfig, dayStart: Time, dayEnd: Time): seq<SelectedEvent>
    decreases |evs|
  {
    if |evs| == 0 then []
    else
      (if IntervalsOverlap(evs[0].start, evs[0].end, dayStart, dayEnd) then [SelectedEvent(evs[0], cal)] else [])
      + SelectFrom(evs[1..], cal, dayStart, dayEnd)
  }

  /** The selected-day events of the enabled calendars, calendar by calendar in configuration order. */
  function CollectSelected(calendars: seq<CalendarConfig>, enabled: seq<string>, byEntity: ByEntity,
                           dayStart: Time, dayEnd: Time): seq<SelectedEvent>
    decreases |calendars|
  {
    if |calendars| == 0 then []
    else
      var cal := calendars[0];
      (if cal.entity in enabled then SelectFrom(EventsOf(byEntity, cal.entity), cal, dayStart, dayEnd) else [])
      + CollectSelected(calendars[1..], enabled, byEntity, dayStart, dayEnd)
  }

  lemma {:induction false} SelectFromMember(evs: seq<Event>, cal: CalendarConfig, dayStart: Time, dayEnd: Time,
                                             x: SelectedEvent)
    ensures x in SelectFrom(evs, cal, dayStart, dayEnd)
      <==> (x.calendar == cal && x.event in evs && IntervalsOverlap(x.event.start, x.event.end, dayStart, dayEnd))
    decreases |evs|
  {
    if |evs| > 0 {
      SelectFromMember(evs[1..], cal, dayStart, dayEnd, x);
      assert evs == [evs[0]] + evs[1..];
    }
  }

  /** The events an enabled, configured calendar has on the day `[dayStart, dayEnd)`. */
  predicate SelectedOnDay(calendars: seq<CalendarConfig>, enabled: seq<string>, byEntity: ByEntity,
                          dayStart: Time, dayEnd: Time, x: SelectedEvent) {
    && x.calendar in calendars
    && x.calendar.entity in enabled
    && x.event in EventsOf(byEntity, x.calendar.entity)
    && IntervalsOverlap(x.event.start, x.event.end, dayStart, dayEnd)
  }

  lemma {:induction false} CollectSelectedMember(calendars: seq<CalendarConfig>, enabled: seq<string>, byEntity: ByEntity,
                                                  dayStart: Time, dayEnd: Time, x: SelectedEvent)
    ensures x in CollectSelected(calendars, enabled, byEntity, dayStart, dayEnd)
      <==> SelectedOnDay(calendars, enabled, byEntity, dayStart, dayEnd, x)
    decreases |calendars|
  {
    if |calendars| > 0 {
      var cal := calendars[0];
      CollectSelectedMember(calendars[1..], enabled, byEntity, dayStart, dayEnd, x);
      SelectFromMember(EventsOf(byEntity, cal.entity), cal, dayStart, dayEnd, x);
      assert calendars == [cal] + calendars[1..];
    }
  }

  /** The selected-day events sorted by start time; the sort is stable, as JavaScript's is. */
  function SelectedEventsOfDay(calendars: seq<CalendarConfig>, enabled: seq<string>, byEntity: ByEntity,
                               dayStart: Time, dayEnd: Time): (r: seq<SelectedEvent>)
    ensures SortedBy(r, StartOf)
  {
    SortBy(CollectSelected(calendars, enabled, byEntity, dayStart, dayEnd), StartOf)
  }

  /**
    The selected events are exactly the events of enabled, configured
    calendars that overlap the day.
   */
  lemma SelectedEventsMember(calendars: seq<CalendarConfig>, enabled: seq<string>, byEntity: ByEntity,
                             dayStart: Time, dayEnd: Time, x: SelectedEvent)
    ensures x in SelectedEventsOfDay(calendars, enabled, byEntity, dayStart, dayEnd)
      <==> SelectedOnDay(calendars, enabled, byEntity, dayStart, dayEnd, x)
  {
    var selected := CollectSelected(calendars, enabled, byEntity, dayStart, dayEnd);
    var sorted := SortBy(selected, StartOf);
    CollectSelectedMember(calendars, enabled, byEntity, dayStart, dayEnd, x);
    assert x in sorted <==> x in multiset(sorted);
    assert x in selected <==> x in multiset(selected);
  }

  /**
    The sort is stable: the events with any one start time keep their
    calendar-then-event collection order.
   */
  lemma SelectedEventsStable(calendars: seq<CalendarConfig>, enabled: seq<string>, byEntity: ByEntity,
                             dayStart: Time, dayEnd: Time, v: int)
    ensures WithKey(SelectedEventsOfDay(calendars, enabled, byEntity, dayStart, dayEnd), StartOf, v)
      == WithKey(CollectSelected(calendars, enabled, byEntity, dayStart, dayEnd), StartOf, v)
  {
    SortByWithKey(CollectSelected(calendars, enabled, byEntity, dayStart, dayEnd), StartOf, v);
  }

  // ---------------------------------------------------------------------------
  // The whole computation

  datatype DayData = DayData(dayToCalendars: Markers, selectedEvents: seq<SelectedEvent>)

  /**
    `_computeDayMarkersAndSelectedEvents()` over the active cache entry: with
    no entry both results are empty; otherwise the markers of the enabled
    calendars' events over the entry's grid and the events of the selected
    day, stably sorted by start.
   */
  function ComputeDayMarkersAndSelectedEvents(calendars: seq<CalendarConfig>, enabled: seq<string>,
                                              cache: Option<CacheEntry>, selectedDate: Time): (r: DayData)
    ensures cache.None? ==> r.dayToCalendars == map[] && r.selectedEvents == []
    ensures SortedBy(r.selectedEvents, StartOf)
  {
    match cache
    case None => DayData(map[], [])
    case Some(entry) =>
      var selectedStart := StartOfDay(selectedDate);
      var selectedEnd := AddDays(selectedStart, 1);
      DayData(MarkCalendars(DayKey, calendars, enabled, entry.byEntity, entry.gridStart, entry.gridEnd, map[]),
              SelectedEventsOfDay(calendars, enabled, entry.byEntity, selectedStart, selectedEnd))
  }

  /** The two results of one computation over a cache entry. */
  lemma DayDataParts(calendars: seq<CalendarConfig>, enabled: seq<string>, entry: CacheEntry, selectedDate: Time,
                     dayStart: Time, dayEnd: Time)
    requires dayStart == StartOfDay(selectedDate) && dayEnd == AddDays(dayStart, 1)
    ensures var r := ComputeDayMarkersAndSelectedEvents(calendars, enabled, Some(entry), selectedDate);
      && r.dayToCalendars == MarkCalendars(DayKey, calendars, enabled, entry.byEntity, entry.gridStart, entry.gridEnd, map[])
      && r.selectedEvents == SelectedEventsOfDay(calendars, enabled, entry.byEntity, dayStart, dayEnd)
  {
  }

  /**
    Calendar `c` is marked on day `d` exactly when it is enabled, it is
    configured, and one of its events overlaps that day, which starts inside
    the entry's grid `[gridStart, gridEnd)`.
   */
  lemma MarkersCharacterised(calendars: seq<CalendarConfig>, enabled: seq<string>, entry: CacheEntry,
                             selectedDate: Time, d: int, c: string)
    ensures Marked(ComputeDayMarkersAndSelectedEvents(calendars, enabled, Some(entry), selectedDate).dayToCalendars,
                   DayKey(d), c)
      <==> (c in enabled && Configured(calendars, c)
        && SomeEventMarksDay(EventsOf(entry.byEntity, c), entry.gridStart, entry.gridEnd, d))
  {
    var dayStart := StartOfDay(selectedDate);
    DayDataParts(calendars, enabled, entry, selectedDate, dayStart, AddDays(dayStart, 1));
    DayKeyIsInjective();
    MarkCalendarsMarked(DayKey, calendars, enabled, entry.byEntity, entry.gridStart, entry.gridEnd, map[], d, c);
  }

  /**
    Every marker is an enabled, configured calendar on the key of a grid day:
    disabled calendars contribute nothing, and no key outside the grid appears.
   */
  lemma MarkersOnlyEnabledGridDays(calendars: seq<CalendarConfig>, enabled: seq<string>, entry: CacheEntry,
                                   selectedDate: Time, k: string, c: string)
    requires Marked(ComputeDayMarkersAndSelectedEvents(calendars, enabled, Some(entry), selectedDate).dayToCalendars, k, c)
    ensures c in enabled && Configured(calendars, c) && GridDayKey(DayKey, k, entry.gridStart, entry.gridEnd)
  {
    var dayStart := StartOfDay(selectedDate);
    DayDataParts(calendars, enabled, entry, selectedDate, dayStart, AddDays(dayStart, 1));
    MarkCalendarsOnlyGridDays(DayKey, calendars, enabled, entry.byEntity, entry.gridStart, entry.gridEnd, map[], k, c);
  }

  /**
    A zero-length event at time `a` marks day `d` exactly when `a` lies
    strictly inside that day: one at midnight marks nothing, any other marks its day.
   */
  lemma ZeroLengthEventMarks(ev: Event, gridStart: Time, gridEnd: Time, d: int)
    requires ev.start == ev.end
    ensures EventMarksDay(ev, gridStart, gridEnd, d)
      <==> (DayOf(gridStart) <= d && d * DAY_MS < gridEnd && d * DAY_MS < ev.start < (d + 1) * DAY_MS)
  {
    ZeroLengthOverlap(ev.start, d * DAY_MS, (d + 1) * DAY_MS);
  }

  /**
    The selected events are exactly the events of enabled, configured
    calendars that overlap the selected day, sorted by start, with the events
    of one start time in calendar-then-event order.
   */
  lemma SelectedEventsCharacterised(calendars: seq<CalendarConfig>, enabled: seq<string>, entry: CacheEntry,
                                    selectedDate: Time, dayStart: Time, dayEnd: Time, x: SelectedEvent, v: int)
    requires dayStart == StartOfDay(selectedDate) && dayEnd == AddDays(dayStart, 1)
    ensures var r := ComputeDayMarkersAndSelectedEvents(calendars, enabled, Some(entry), selectedDate).selectedEvents;
      && (x in r <==> SelectedOnDay(calendars, enabled, entry.byEntity, dayStart, dayEnd, x))
      && WithKey(r, StartOf, v) == WithKey(CollectSelected(calendars, enabled, entry.byEntity, dayStart, dayEnd), StartOf, v)
  {
    DayDataParts(calendars, enabled, entry, selectedDate, dayStart, dayEnd);
    SelectedEventsMember(calendars, enabled, entry.byEntity, dayStart, dayEnd, x);
    SelectedEventsStable(calendars, enabled, entry.byEntity, dayStart, dayEnd, v);
  }
}
