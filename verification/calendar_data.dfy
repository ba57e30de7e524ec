/**
  The records the card works on: configured calendars, calendar events as the
  `calendar.get_events` service returns them, and one cached range of events.
 */
module CalendarData {
  import opened Wrappers
  import opened DateMath

  /**
    One entry of the `calendars` option. Only the fields the core reads are
    kept: the entity id and the optional `priority` (colours, icons and
    labels are presentation).
   */
  datatype CalendarConfig = CalendarConfig(entity: string, priority: Option<int>)

  /**
    An event of a calendar entity with its start and end already parsed into
    local times, its all-day flag and its title.
   */
  datatype Event = Event(start: Time, end: Time, allDay: bool, summary: string)

  /** The service response: the events of each entity that answered. */
  type ByEntity = map<string, seq<Event>>

  /** One cached range: the grid bounds it was fetched for and the response. */
  datatype CacheEntry = CacheEntry(gridStart: Time, gridEnd: Time, byEntity: ByEntity)

  /** The events the response holds for an entity; an entity with no answer has none. */
  function EventsOf(byEntity: ByEntity, entity: string): (evs: seq<Event>)
    ensures entity !in byEntity ==> evs == []
    ensures entity in byEntity ==> evs == byEntity[entity]
  {
    if entity in byEntity then byEntity[entity] else []
  }

  /** The entity ids of the configured calendars, in configuration order. */
  function Entities(calendars: seq<CalendarConfig>): (ids: seq<string>)
    ensures |ids| == |calendars|
    ensures forall i :: 0 <= i < |calendars| ==> ids[i] == calendars[i].entity
  {
    if |calendars| == 0 then [] else [calendars[0].entity] + Entities(calendars[1..])
  }

  /** A sequence without repeated elements, as the elements of a JavaScript `Set` in insertion order. */
  predicate NoDuplicates<T(==)>(s: seq<T>) {
    forall i, j :: 0 <= i < j < |s| ==> s[i] != s[j]
  }
}
