/**
 * The `device_events` handler of critter_api.py: query the `critter_events` table for one
 * device and project each row to its event type and timestamp. The query is an input.
 */
module EventQuery {
  import opened Values

  /**
   * The table query: it raises, or answers with a response whose `Items` entry may be
   * missing (`None`) or holds the rows in the order the store returned them.
   */
  datatype QueryReply = QueryFailed | Answered(items: Option<seq<Item>>)

  /** One event as the handler returns it. */
  datatype EventView = EventView(eventType: Value, eventTimestamp: Value)

  /** The handler's body: `{"device_id": ..., "events": [...]}`. */
  datatype EventsView = EventsView(deviceId: string, events: seq<EventView>)

  const EventType: string := "event_type"
  const Timestamp: string := "timestamp"

  /** A row the projection can read: `event["event_type"]` and `event["timestamp"]` do not raise. */
  predicate HasEventFields(row: Item)
  {
    EventType in row && Timestamp in row
  }

  /**
   * No rows (or no `Items`) is a 404; a row lacking either field raises inside the `try`
   * and so is a 500; otherwise every row is projected, in store order.
   */
  method DeviceEvents(deviceId: string, reply: QueryReply) returns (r: Outcome<EventsView>)
    ensures r == NotFound <==> reply == Answered(None) || reply == Answered(Some([]))
    ensures r == ServerError <==>
      || reply == QueryFailed
      || (reply.Answered? && reply.items.Some?
          && exists i :: 0 <= i < |reply.items.value| && !HasEventFields(reply.items.value[i]))
    ensures r.Ok? ==>
      var rows := reply.items.value;
      && r.value.deviceId == deviceId
      && |r.value.events| == |rows| > 0
      && forall i :: 0 <= i < |rows| ==>
           r.value.events[i] == EventView(rows[i][EventType], rows[i][Timestamp])
  {
    if reply.QueryFailed? {
      return ServerError;
    }
    if reply.items.None? || |reply.items.value| == 0 {
      return NotFound;
    }
    var rows := reply.items.value;
    var events: seq<EventView> := [];
    var i := 0;
    while i < |rows|
      invariant 0 <= i <= |rows|
      invariant forall j :: 0 <= j < i ==> HasEventFields(rows[j])
      invariant |events| == i
      invariant forall j :: 0 <= j < i ==> events[j] == EventView(rows[j][EventType], rows[j][Timestamp])
    {
      var event := rows[i];
      if EventType !in event || Timestamp !in event {
        return ServerError;
      }
      events := events + [EventView(event[EventType], event[Timestamp])];
      i := i + 1;
    }
    return Ok(EventsView(deviceId, events));
  }
}
