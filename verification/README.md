# Compact month card: a Dafny model of its core

`compact-month-card.js` is a Home Assistant Lovelace card. It shows one month
as a grid of whole weeks. Each day cell carries coloured dots for the
calendars that have an event on that day, and a list shows the events of the
selected day. The card fetches the events of the visible grid with one
`calendar.get_events` service call and caches the answer under a key built
from the grid bounds and the enabled calendar ids.

This project models the logic behind that:

- the date helpers;
- the grid range of a month;
- the cache key and the loading of the visible range;
- toggling calendars, navigating months, jumping to today and selecting a day;
- the day markers and the selected-day events;
- the choice of dots for a day cell;
- the budget of the event list.

Each operation is a pure function from the old card state to the new one.

Modelling choices:

- **Time.** A time is an integer number of milliseconds of local wall-clock
  time, with no daylight-saving shifts, so every day is `DAY_MS` long. The local
  date is the day number `t / DAY_MS` read through the proleptic Gregorian
  calendar (module `Civil`). `new Date(y, m0, d)` is modelled by ECMAScript's
  MakeDay normalisation: month and day overflow carry into the year. The
  constructor also reads a year in 0..99 as `1900 + y`; the model's helpers
  leave that rule out and use the year they are given. Its effects on month
  navigation and on `startOfDay` are modelled separately and recorded under
  "Findings"; its effect on the grid bounds is listed under "Left out".
- **The enabled set.** The JavaScript `Set` of enabled ids is a sequence
  without repeats, in insertion order.
- **Sorting.** JavaScript's sort is stable, so every sort is a stable
  insertion sort (module `Sorting`). A lemma shows that any stable sort gives
  the same output.
- **Service call and clock.** The service call becomes a parameter: whether
  `hass` and `hass.callWS` exist, and how the awaited call ended (an answer
  or a thrown message). The clock (`new Date()`) is a `now` parameter.
- **Module layout.** The modules follow the source:
  - `DateMath` for the top-level helpers;
  - `NumberFormat` for `clampNumber` and `formatDurationShort`;
  - `Grid` for `_getGridRange`, `_navMonth` and `_weekdayLabels`;
  - `RangeCache` for `_monthCacheKey`;
  - `DayMarkers` for `_computeDayMarkersAndSelectedEvents`;
  - `TopCalendars` for `_topCalendarsForDay`;
  - `EventList` for the budget part of `_renderEventList`;
  - `Card` for the state and the operations on it.

Behaviours of the code worth noting:

- **Zero-length events.** `intervalsOverlap` compares endpoints only. A
  zero-length event `[a, a)` therefore overlaps a day when `a` lies strictly
  inside it, so it marks its day and is listed for it. Only one that sits
  exactly at midnight meets no day (`DateMath.ZeroLengthOverlap`,
  `DayMarkers.ZeroLengthEventMarks`).
- **`addDays`.** It adds a fixed `n * DAY_MS` milliseconds, not calendar
  days. Without daylight-saving shifts the two agree.
- **Missing priority.** A missing `priority` counts as exactly 999. It is not
  "lowest": a priority above 999 sorts after it.
- **Repeated loads.** Loading checks only the cache, not fetches in flight.
  Two loads of one range started before either answers both send a request.
  The model treats one load at a time.
- **Toggle order.** Toggling a calendar off and on again moves its id to the
  end of the set. The cache key sorts the ids, so the key, and with it the
  active cache entry, is unchanged (`Card.ToggleTwice`).
- **Date keys.** `toDateOnlyKey` writes the year with `String(year)`,
  unpadded (years below 1000 give fewer than four digits). Month and day are
  padded to two digits. Keys are equal exactly when the days are
  (`DateMath.DateKeyInjective`); their string order is the order of the days
  only for the years 1000..9999 (`KeyOrder.ToDateOnlyKeyOrder`,
  `KeyOrder.DateKeyOrderBreaksBelowYear1000`). The card compares keys only for
  equality, as map keys.

## Model

| member | source | states |
|---|---|---|
| DateMath.ToDateOnlyKey | compact-month-card.js:9-14 | the key consists of digits and dashes only |
| DateMath.DateKeyRoundTrip | compact-month-card.js:9-14 | reading a key back (signed year, two-digit month, two-digit day) gives the local date of the time it was made from |
| DateMath.DateKeyInjective | compact-month-card.js:9-14 | two times have the same date key exactly when they fall on the same local day |
| DateMath.StartOfDay | compact-month-card.js:16-18 | the result is a local midnight, at or before `t` and less than a day before it |
| DateMath.StartOfDayRebuildsDate | compact-month-card.js:16-18 | rebuilding `new Date(year, month, date)` from the fields of `t` gives the start of `t`'s day, and that midnight has the same local date as `t` |
| DateMath.MidnightFixed | compact-month-card.js:16-18 | the start of day of a midnight is that midnight, and its day number is unchanged |
| DateMath.StartOfDayAsWritten | compact-month-card.js:16-18 | `startOfDay` with the constructor's two-digit-year rule still gives a midnight |
| DateMath.StartOfDayAsWrittenAgrees | compact-month-card.js:16-18 | outside the years 0..99 the two-digit-year rule does not apply, and the code's `startOfDay` is the start of `t`'s day |
| DateMath.StartOfDayAsWrittenSkipsCenturies | compact-month-card.js:16-18 | in the years 0..99 the code's `startOfDay` lands about 1900 years later, after `t` rather than at or before it |
| DateMath.AddDays | compact-month-card.js:20-22 | the result lies exactly `n` days later (or earlier), at the same time of day |
| DateMath.OverlapSymmetric | compact-month-card.js:42-44 | swapping the two intervals does not change whether they overlap |
| DateMath.TouchingIntervalsDisjoint | compact-month-card.js:42-44 | intervals that at most touch (one ends where or before the other starts) do not overlap |
| DateMath.ZeroLengthOverlap | compact-month-card.js:42-44 | a zero-length interval `[a, a)` overlaps `[b, e)` exactly when `b < a < e` |
| NumberFormat.ClampNumber | compact-month-card.js:46-50 | a non-finite value gives the fallback; a finite one gives a value in `[min, max]`: the value itself when inside, `min` when below and `max` when above |
| NumberFormat.ClampIdempotent | compact-month-card.js:46-50 | clamping a clamped value again changes nothing |
| NumberFormat.FormatDurationShort | compact-month-card.js:52-58 | the text always ends in `m` and is at least two characters long |
| NumberFormat.DurationRoundTrip | compact-month-card.js:52-58 | the short text (`"<h>h <mm>m"` or `"<m>m"`) reads back as the whole minutes of the duration, negative durations counting as zero |
| Grid.ViewMonthOf | compact-month-card.js:166-167 | the view month of a time is a real month (0-based month in 0..11) |
| Grid.GridRangeProperties | compact-month-card.js:211-231 | for every month and first weekday: `firstOfMonth` and `lastOfMonth` are the 1st and the last day of the month, all four bounds are midnights, the leading and trailing padding each lie in 0..6, the grid starts and ends (exclusive) on the configured first weekday, and `cellCount` is padding + days in month + padding, a multiple of 7 in 28..42 |
| Grid.GridRangeWeeks | compact-month-card.js:211-231 | the week-alignment facts of the grid of any month, without the calendar dates of its bounds |
| Grid.February2024Example | compact-month-card.js:211-231 | February 2024 with weeks starting on Monday gives the grid 2024-01-29 up to 2024-03-04 with 35 cells |
| Grid.January100Example | compact-month-card.js:211-231 | January 100 with weeks starting on Monday gives the grid 99-12-28 up to 100-02-01 with 35 cells, whose four leading cells lie in the year 99 |
| Grid.NavMonth | compact-month-card.js:281-285 | the result is a real month whose month index is the old index plus `delta`, the year carrying in either direction |
| Grid.NavMonthIsFirstOfMonth | compact-month-card.js:281-285 | the `Date` stored after navigating is the midnight of the 1st of the navigated month, and its view month is that month |
| Grid.NavMonthCompose | compact-month-card.js:281-285 | navigating by `a` then by `b` is navigating by `a + b` |
| Grid.NavMonthForwardBack | compact-month-card.js:281-285 | next month then previous month returns to the same month, and a delta of 0 changes nothing |
| Grid.NavMonthAsWritten | compact-month-card.js:281-285 | with the constructor's two-digit-year rule, the month index reached is that of year `1900 + y` for years 0..99 |
| Grid.NavMonthAsWrittenSkipsCenturies | compact-month-card.js:281-285 | as written, going back from January of the year 100 reaches December 99, and going forward from there reaches January 2000 |
| Grid.NavMonthBackForward | compact-month-card.js:281-285 | the corrected navigation undoes itself: previous then next month returns to the same month in every year |
| Grid.WeekdayLabels | compact-month-card.js:365-369 | the header has seven labels |
| Grid.WeekdayLabelsRotate | compact-month-card.js:365-369 | column `i` of the header names weekday `(first weekday + i) mod 7`, Monday first for `"monday"` and Sunday first otherwise |
| Grid.HeaderNamesCellWeekday | compact-month-card.js:211-231 | the label above grid cell `i` names the weekday of that cell's day, for every month and first weekday |
| RangeCache.CacheKeyOfSet | compact-month-card.js:206-209 | the key depends on the enabled ids as a set: any two insertion orders of the same ids give the same key |
| RangeCache.CacheKeyPermutation | compact-month-card.js:206-209 | permuting the enabled ids leaves the key unchanged |
| RangeCache.CacheKeyEquality | compact-month-card.js:206-209 | two keys are equal exactly when both bounds fall on the same local days and the sorted, joined ids agree, so ranges with different bound days never share a key |
| Card.SetConfig | compact-month-card.js:92-170 | it fails with "`calendars` is required." exactly when the config or its `calendars` list is missing or empty; on success the calendars are the configured ones, `start_weekday` defaults to `"monday"`, every configured calendar is enabled (each id once), the cache is empty, nothing is loading, there is no error and the selected day is a midnight |
| Card.SetConfigStartsToday | compact-month-card.js:166-167 | the initial state selects today's date and views the month that holds it |
| Card.GetActiveCache | compact-month-card.js:297-301 | the active entry exists exactly when the key of the visible grid for the enabled ids is cached, and it is the entry under that key |
| Card.LoadRange | compact-month-card.js:233-272 | without `hass`, or when the key is cached, nothing changes and nothing is sent; otherwise the state is loading with no error while the call is awaited, and afterwards loading is off and only the cache and the error changed; a request (all enabled ids, the grid bounds) is sent exactly when `callWS` exists and the key is missing; an answer is stored under the key (a missing `response` as `{}`) and clears the error; a thrown error leaves the cache as it was and records its message; without `callWS` the recorded error is "hass.callWS is not available." and the cache is unchanged |
| Card.LoadKeepsKey | compact-month-card.js:251-257 | a load never changes the key of the visible range |
| Card.LoadSuccessInsertsOnlyItsKey | compact-month-card.js:264-265 | a successful load adds exactly its key to the cache and leaves every other entry unchanged |
| Card.LoadSuccessIsActive | compact-month-card.js:251-265 | after a successful load of the visible range, its answer is the active cache entry |
| Card.LoadTwiceHitsCache | compact-month-card.js:251-256 | once a range is loaded, loading it again changes nothing and sends nothing |
| Card.LoadFailureKeepsCache | compact-month-card.js:266-268 | a failed load leaves the cache unchanged and the range unloaded, and records the thrown message or the missing-`callWS` message |
| Card.LoadKeepsValid | compact-month-card.js:251-272 | loading keeps the state's invariant (a real month, an enabled set without repeats, a midnight as the selected day) |
| Card.ToggleCalendar | compact-month-card.js:274-279 | exactly the membership of `entity` flips, every other id keeps its membership, nothing else in the state changes, and the invariant holds |
| Card.ToggleTwice | compact-month-card.js:274-279 | toggling the same calendar twice restores the enabled set, the cache key and the active cache entry |
| Card.NavMonthState | compact-month-card.js:281-285 | only the view month changes, by `delta` months with year carry |
| Card.NavForwardBack | compact-month-card.js:281-285 | next then previous month, and previous then next month, give back the same state |
| Card.GoToday | compact-month-card.js:287-291 | only the view month and the selected day change; the selected day is the midnight that starts the day of `now` |
| Card.GoTodayShowsSelection | compact-month-card.js:287-291 | after going to today, the selected day lies in the viewed month, has today's date, and the invariant holds |
| Card.SelectDay | compact-month-card.js:293-295 | only the selected day changes, to the midnight that starts `d`'s day |
| Card.SelectDayDate | compact-month-card.js:293-295 | the selected day has `d`'s date, and selecting it again changes nothing |
| Card.ShownDays | compact-month-card.js:303-308 | with no active cache entry there are no markers and no selected events |
| Card.January100GridLosesMarks | compact-month-card.js:316-334 | on the January 100 grid, an event whose clamped start lies in the leading December 99 cells is marked on every grid day it meets by the intended walk and on none of them as the code is written |
| DayMarkers.ComputeDayMarkersAndSelectedEvents | compact-month-card.js:303-351 | with no cache entry both results are empty; the selected events are sorted by start |
| DayMarkers.MarkersCharacterised | compact-month-card.js:310-336 | calendar `c` is marked on day `d` exactly when it is enabled, it is configured, and one of its events overlaps that day, which starts inside the grid of the entry |
| DayMarkers.MarkersOnlyEnabledGridDays | compact-month-card.js:310-336 | every marker is an enabled, configured calendar on the key of a grid day: disabled calendars add nothing, and no key outside the grid appears |
| DayMarkers.MarkEventMarked | compact-month-card.js:316-334 | walking one event's clamped days marks calendar `c` on day `d` exactly when it was marked before or `c` is the event's calendar and the event meets day `d` of the grid |
| DayMarkers.MarkEventAsWrittenMarksNothing | compact-month-card.js:323-334 | as written, an event whose clamped start lies in the years 0..99 adds no marker to a grid of at most six weeks, because the walk starts about 1900 years later |
| DayMarkers.MarkEventAsWrittenLosesMarks | compact-month-card.js:323-334 | as written, every grid day such an event meets, which the intended walk marks, is left unmarked |
| DayMarkers.ZeroLengthEventMarks | compact-month-card.js:323-330 | a zero-length event marks a grid day exactly when its instant lies strictly inside that day |
| DayMarkers.SelectedEventsCharacterised | compact-month-card.js:305-350 | the selected events are exactly the events of enabled, configured calendars that overlap the selected day, and those with one start time stay in calendar-then-event order |
| DayMarkers.SelectedEventsOfDay | compact-month-card.js:349 | the selected events are sorted by start |
| DayMarkers.SelectedEventsMember | compact-month-card.js:337-349 | an event is selected exactly when its calendar is configured and enabled and it overlaps the day |
| DayMarkers.SelectedEventsStable | compact-month-card.js:349 | the sort keeps the collection order of the events with any one start time |
| DayMarkers.DayKeyInjective | compact-month-card.js:331 | distinct days get distinct marker keys |
| DayMarkers.AddMarker | compact-month-card.js:331-333 | adding a marker adds exactly that calendar on that key and keeps every other marker |
| TopCalendars.TopCalendarsForDay | compact-month-card.js:353-363 | a day without a marker set gets no dots; otherwise every dot is an enabled, configured calendar marked on the day, ordered by priority (missing = 999), and there are at most `dots.max` (default 2) of them |
| TopCalendars.TopCalendarsCount | compact-month-card.js:356-362 | a marked day shows `min(max, eligible)` dots for a non-negative maximum, and all but the last `-max` eligible calendars for a negative one (`slice(0, max)`) |
| TopCalendars.TopCalendarsHighestPriority | compact-month-card.js:358-362 | an eligible calendar left out has a priority no smaller than that of any shown one |
| TopCalendars.TopCalendarsTiesInConfigOrder | compact-month-card.js:358-362 | ties keep configuration order: the shown calendars of one priority are the first of that priority among the eligible ones |
| TopCalendars.Eligible | compact-month-card.js:358-359 | the eligible calendars are exactly the configured ones that are enabled and marked on the day, in configuration order (an order-preserving subsequence of the configured list), each as many times as it is configured |
| KeyOrder.DateKeyOrder | compact-month-card.js:9-14 | for dates in the years 1000..9999 one key sorts before another exactly when its date is earlier |
| KeyOrder.ToDateOnlyKeyOrder | compact-month-card.js:9-14 | for times in the years 1000..9999 one key sorts before another exactly when its local day comes first |
| KeyOrder.DateKeyOrderBreaksBelowYear1000 | compact-month-card.js:9-14 | the key of 1000-01-01 sorts before that of 999-12-31, the day before it |
| EventList.AllDayOf | compact-month-card.js:486 | the all-day list holds exactly the selected all-day events |
| EventList.TimedOf | compact-month-card.js:487 | the timed list holds exactly the selected timed events |
| EventList.ItemLimit | compact-month-card.js:495-496 | no `max_items` gives no limit; a limit lies in 1..50 and is `max_items` clamped to that range |
| EventList.EventListBudget | compact-month-card.js:486-500 | `merged` is a permutation of the selected events with all-day ones first; `shown` is a prefix of it, of length `min(limit, merged)` with a limit and all of it without; shown and hidden add up to the merged count |
| EventList.MergedIsStableSortByAllDay | compact-month-card.js:486-498 | the merged list is the selected list stably sorted with all-day events first: each group keeps its order |
| EventList.MergedPermutation | compact-month-card.js:498 | the merged list is a permutation of the selected events |
| EventList.HiddenCount | compact-month-card.js:499-500 | without a limit nothing is hidden; with one the hidden count is `max(0, selected - limit)` |
| EventList.GapReduction | compact-month-card.js:489 | a finite setting in 0..40 is kept, one below gives 0 and one above gives 40; a non-finite setting gives 16 |
| EventList.RoundEighth | compact-month-card.js:493 | `Math.round(g / 8)` for a whole `g` is the nearest integer, halves rounding up |
| EventList.RowLayout | compact-month-card.js:489-493 | the time column lies in 44..56 px and shrinks by the reduction down to 44; the row gap lies in 3..8 px; a non-finite setting (the default reduction 16) gives a 44 px time column and a 6 px gap |

## Left out

- Rendering: the HTML templates, CSS, colours, icons, the legend, tooltips and the event rows' text. They are presentation and have no logic worth a contract.
- Lifecycle and timers: `connectedCallback`, `updated`, `_syncNowTimer` and the `_nowTick` refresh. They are scheduling in the host framework.
- `isoWithOffset` and the service-call transport. The call is reduced to its outcome, a `FetchOutcome` parameter; the request records the ids and the grid bounds, not their ISO text.
- Time zones, daylight saving and locale formatting (`toLocaleDateString`, `toLocaleTimeString`). Every day is exactly `DAY_MS` long.
- Parsing event times (`new Date(ev.start)`). Events carry their start and end as times already, and an unparsable date (`NaN`) is not modelled.
- `Number(...)` coercion and non-integer numbers. A configuration number is an integer or not finite (`NumberFormat.Numeric`); `clampNumber` on fractions and `slice` with a fractional limit are not modelled.
- Asynchronous interleaving. Loads are atomic steps, and a second load started while one is in flight is not modelled.
- The merging of presentation defaults in `setConfig` (`dots.style`, `events.*`, `now.*`, colours). Only `calendars`, `start_weekday`, `dots.max`, `events.max_items` and `events.gap_reduction` are read by the core and modelled.
- The progress text of an ongoing event (`now.text_mode`, `formatDurationShort` of the remaining or elapsed time). The helper itself is modelled; its use in a row is presentation.
- A `start_weekday` given explicitly as `null`. The spread `...config` would keep the `null`, and the grid would start on Sunday; the model has only a given or an absent value.
- The `.events` wrapper of the service response. `ByEntity` maps an entity straight to its events, and a missing entity has none.
- DateMath.ToDateOnlyKey: its contract states only the key's alphabet; what the key means is stated by `DateMath.DateKeyRoundTrip` and `DateMath.DateKeyInjective`. The string order of keys is the order of days only for the years 1000..9999 (`KeyOrder.ToDateOnlyKeyOrder`); below that it breaks (`KeyOrder.DateKeyOrderBreaksBelowYear1000`).
- Grid.GridRangeProperties: it states the grid of the intended year. For a view month in the years 0..99 the code builds the first and last of the month (lines 212-213) with the constructor's two-digit-year rule, so it shows the grid of the same month in `1900 + y`; navigating back from January 100 reaches such a view, December 99 (Findings, first row).
- DateMath.StartOfDay: it gives the start of `t`'s day in every year; the code's `startOfDay` does so only outside the years 0..99, where the constructor's two-digit-year rule moves the result to the 1900s (`DateMath.StartOfDayAsWrittenSkipsCenturies`, under "Findings").
- DateMath.StartOfDayRebuildsDate: it rebuilds the date without the two-digit-year rule; with it, the rebuild agrees only outside the years 0..99 (`DateMath.StartOfDayAsWrittenAgrees`).
- The range of a JavaScript `Date` (at most 8.64e15 ms either side of the epoch, an Invalid Date beyond it). Times are unbounded integers.
- String comparison. The model's `StrLess` compares characters as code points, while JavaScript's sort compares UTF-16 code units; the two differ only for ids with characters outside the Basic Multilingual Plane.
- NumberFormat.FormatDurationShort: its contract states only the shape of the text; its value is stated by `NumberFormat.DurationRoundTrip`, which loses the seconds the text drops.
- DayMarkers.ComputeDayMarkersAndSelectedEvents: its own contract states the empty case and the order only; its contents are stated by `DayMarkers.MarkersCharacterised`, `DayMarkers.MarkersOnlyEnabledGridDays` and `DayMarkers.SelectedEventsCharacterised`.
- Grid.WeekdayLabels: its contract states only the length; the labels' meaning is stated by `Grid.WeekdayLabelsRotate` and `Grid.HeaderNamesCellWeekday`.

## Findings

| source | as written | input that shows it | evidently intended | confidence | as-written member | corrected member |
|---|---|---|---|---|---|---|
| compact-month-card.js:281-285 | `new Date(y, m + delta, 1)` treats a year `y` in 0..99 as `1900 + y` (ECMA-262 section 21.4.2.1); `_getGridRange` (lines 212-213) builds its bounds the same way, and the model's grid uses the intended year | viewing January of the year 100 and navigating back reaches December 99; navigating forward from there reaches January 2000, not January 100 | month arithmetic on the shown year in every year, so that next and previous month undo each other | low (only years 0..100 reach it), not executed | Grid.NavMonthAsWrittenSkipsCenturies | Grid.NavMonthBackForward |
| compact-month-card.js:16-18 | `startOfDay` rebuilds the date with `new Date(year, month, date)`, so a time in the years 0..99 gets a midnight in 1900..1999 | the January 100 grid with weeks starting on Monday begins with the cells 99-12-28 to 99-12-31, since 100-01-01 is a Friday; an event whose clamped start falls in those cells, which includes every event that starts before the grid (lines 321, 323-324), gets no dot on any day, its January 100 days included, because its walk starts in 1999; `_selectDay` on one of those cells selects a day of December 1999 | the midnight that starts the given day, in every year | low (only years 0..99 reach it), not executed | Card.January100GridLosesMarks | DayMarkers.MarkEventMarked |
