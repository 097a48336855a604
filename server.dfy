/**
 * The server's store and its request handlers. Each handler runs its queries
 * and its write with no `await` in between, so each is one atomic method on
 * the two tables.
 */
module Server {
  import opened Basics
  import opened Text
  import opened Validation
  import opened Schema
  import opened Ledger

  class Store {
    var events: seq<Event>
    var registrations: seq<Registration>
    /** The AUTOINCREMENT counters of the two tables. */
    var nextEventId: int
    var nextRegistrationId: int

    ghost predicate Valid()
      reads this
    {
      Consistent(events, registrations, nextEventId, nextRegistrationId)
    }

    /** Two empty tables, as `create table if not exists` leaves a fresh database. */
    constructor ()
      ensures Valid() && WithinCapacity(events, registrations)
      ensures events == [] && registrations == [] && nextEventId == 1 && nextRegistrationId == 1
    {
      events, registrations := [], [];
      nextEventId, nextRegistrationId := 1, 1;
    }

    /** `POST /api/events`. */
    method CreateEvent(q: EventRequest, now: Timestamp) returns (r: Outcome<Event>)
      requires Valid()
      modifies this
      ensures Valid()
      ensures r == NewEvent(q, old(nextEventId), now)
      ensures r.Ok? ==> events == old(events) + [r.row] && nextEventId == old(nextEventId) + 1
      ensures r.Fail? ==> events == old(events) && nextEventId == old(nextEventId)
      ensures registrations == old(registrations) && nextRegistrationId == old(nextRegistrationId)
      ensures old(WithinCapacity(events, registrations)) ==> WithinCapacity(events, registrations)
    {
      if !HasEventFields(q) {
        return Fail(MissingFields);
      }
      var capacity := CapacityFor(q.maxParticipants);
      if capacity.None? {
        return Fail(InvalidCapacity);
      }
      var time := NormalizeTime(q.time.value);
      if time.None? {
        return Fail(InvalidTime);
      }
      var row := Event(nextEventId, Trim(q.title.value), TrimmedOrNull(q.description), q.date.value, time.value,
                       Trim(q.location.value), q.kind.value, capacity, TrimmedOrNull(q.imageUrl), now, now);
      CreateKeepsConsistent(events, registrations, nextEventId, nextRegistrationId, row);
      events := events + [row];
      nextEventId := nextEventId + 1;
      r := Ok(row);
    }

    /**
     * `PUT /api/events/:id`: the body's keys, in order, become the assignments
     * of one `update`, followed by `updated_at`; the answer is the row read back,
     * or nothing when no event has that id.
     */
    method UpdateEvent(id: int, patch: seq<Assignment>, now: Timestamp) returns (r: Option<Event>)
      requires Valid()
      modifies this
      ensures Valid()
      ensures HasEvent(old(events), id) ==>
                var k := EventIndex(old(events), id);
                r == Some(UpdatedRow(old(events)[k], patch, now)) && events == old(events)[k := r.value]
      ensures !HasEvent(old(events), id) ==> r == None && events == old(events)
      ensures registrations == old(registrations)
      ensures nextEventId == old(nextEventId) && nextRegistrationId == old(nextRegistrationId)
    {
      var k := EventIndex(events, id);
      EventIndexFound(events, id);
      if k == |events| {
        return None;
      }
      var row := events[k];
      var i := 0;
      while i < |patch|
        invariant 0 <= i <= |patch|
        invariant row == ApplyAll(events[k], patch[..i])
      {
        assert patch[..i + 1][..i] == patch[..i];
        row := Assign(row, patch[i]);
        i := i + 1;
      }
      assert patch[..i] == patch;
      row := row.(updatedAt := now);
      UpdateKeepsConsistent(events, registrations, nextEventId, nextRegistrationId, k, row);
      events := events[k := row];
      r := Some(row);
    }

    /** `DELETE /api/events/:id`, with `on delete cascade` removing the event's registrations. */
    method DeleteEvent(id: int)
      requires Valid()
      modifies this
      ensures Valid()
      ensures events == EventsExcept(old(events), id)
      ensures registrations == RegistrationsExcept(old(registrations), id)
      ensures nextEventId == old(nextEventId) && nextRegistrationId == old(nextRegistrationId)
      ensures old(WithinCapacity(events, registrations)) ==> WithinCapacity(events, registrations)
    {
      DeleteKeepsConsistent(events, registrations, nextEventId, nextRegistrationId, id);
      events := EventsExcept(events, id);
      registrations := RegistrationsExcept(registrations, id);
    }

    /** `POST /api/registrations`. */
    method Register(q: RegistrationRequest, now: Timestamp) returns (r: Outcome<Registration>)
      requires Valid()
      modifies this
      ensures Valid()
      ensures r == NewRegistration(old(events), old(registrations), q, old(nextRegistrationId), now)
      ensures r.Ok? ==> registrations == old(registrations) + [r.row] && nextRegistrationId == old(nextRegistrationId) + 1
      ensures r.Fail? ==> registrations == old(registrations) && nextRegistrationId == old(nextRegistrationId)
      ensures events == old(events) && nextEventId == old(nextEventId)
      ensures old(WithinCapacity(events, registrations)) ==> WithinCapacity(events, registrations)
    {
      if !HasRegistrationFields(q) {
        return Fail(MissingFields);
      }
      var eventId, email := q.eventId.value, q.studentEmail.value;
      if !EmailShape(email) {
        return Fail(InvalidEmail);
      }
      var existing := Matching(registrations, eventId, email);
      if existing != [] {
        return Fail(AlreadyRegistered);
      }
      var event := FindEvent(events, eventId);
      if event.None? {
        return Fail(EventNotFound);
      }
      var count := |RegistrationsFor(registrations, eventId)|;
      if count >= Capacity(event.value) {
        return Fail(EventFull);
      }
      var row := Registration(nextRegistrationId, eventId, Trim(q.studentName.value), Lower(Trim(email)),
                              TrimmedOrNull(q.studentPhone), Registered, None, now, now);
      assert NewRegistration(events, registrations, q, nextRegistrationId, now) == Ok(row);
      assert Consistent(events, registrations + [row], nextEventId, nextRegistrationId + 1) by {
        RegisterKeepsConsistent(events, registrations, nextEventId, nextRegistrationId, q, now);
      }
      assert WithinCapacity(events, registrations) ==> WithinCapacity(events, registrations + [row]) by {
        if WithinCapacity(events, registrations) {
          RegisterWithinCapacity(events, registrations, q, nextRegistrationId, now);
        }
      }
      registrations := registrations + [row];
      nextRegistrationId := nextRegistrationId + 1;
      r := Ok(row);
    }

    /** `GET /api/registrations/:event_id`. */
    method ListByEvent(eventId: int) returns (rows: seq<Registration>)
      ensures rows == RegistrationsFor(registrations, eventId)
      ensures forall i :: 0 <= i < |rows| ==> rows[i] in registrations && rows[i].eventId == eventId
      ensures forall i :: 0 <= i < |registrations| && registrations[i].eventId == eventId ==> registrations[i] in rows
    {
      rows := RegistrationsFor(registrations, eventId);
    }

    /** `POST /api/checkin`: one conditional update, "not found" when it changes no row. */
    method CheckIn(eventId: int, email: string, now: Timestamp) returns (r: Outcome<Registration>)
      requires Valid()
      modifies this
      ensures Valid()
      ensures r == CheckInResult(old(registrations), eventId, email, now)
      ensures registrations == CheckInRows(old(registrations), eventId, email, now)
      ensures r.Fail? ==> registrations == old(registrations)
      ensures events == old(events)
      ensures nextEventId == old(nextEventId) && nextRegistrationId == old(nextRegistrationId)
      ensures old(WithinCapacity(events, registrations)) ==> WithinCapacity(events, registrations)
    {
      var changes := |Matching(registrations, eventId, email)|;
      CheckInKeepsConsistent(events, registrations, nextEventId, nextRegistrationId, eventId, email, now);
      r := CheckInResult(registrations, eventId, email, now);
      if changes == 0 {
        assert CheckInRows(registrations, eventId, email, now) == registrations;
      }
      registrations := CheckInRows(registrations, eventId, email, now);
    }

    /** `GET /api/analytics`: one entry per event, in table order. */
    method Analytics() returns (stats: seq<EventStats>)
      ensures |stats| == |events|
      ensures forall i :: 0 <= i < |events| ==> stats[i] == StatsFor(registrations, events[i])
    {
      stats := [];
      var i := 0;
      while i < |events|
        invariant 0 <= i <= |events|
        invariant |stats| == i
        invariant forall j :: 0 <= j < i ==> stats[j] == StatsFor(registrations, events[j])
      {
        stats := stats + [StatsFor(registrations, events[i])];
        i := i + 1;
      }
    }
  }
}
