/**
 * The two tables of the server's store, `events` and `registrations`, and the
 * `select` queries its handlers run over them. A table is a sequence of rows in
 * insertion (rowid) order.
 */
module Schema {
  import opened Basics
  import opened Seqs

  /** A `datetime('now')` text; the clock is a parameter of every operation that writes one. */
  type Timestamp = string

  /** The `status` column of a registration. */
  datatype Status = Registered | CheckedIn | Cancelled

  /** The text stored in the `status` column. */
  function StatusKey(s: Status): string {
    match s
    case Registered => "registered"
    case CheckedIn => "checked_in"
    case Cancelled => "cancelled"
  }

  /** A row of `events`; `kind` is the `type` column. */
  datatype Event = Event(
    id: int,
    title: string,
    description: Option<string>,
    date: string,
    time: string,
    location: string,
    kind: string,
    maxParticipants: Option<int>,
    imageUrl: Option<string>,
    createdAt: Timestamp,
    updatedAt: Timestamp)

  /** A row of `registrations`. */
  datatype Registration = Registration(
    id: int,
    eventId: int,
    studentName: string,
    studentEmail: string,
    studentPhone: Option<string>,
    status: Status,
    checkInTime: Option<Timestamp>,
    createdAt: Timestamp,
    updatedAt: Timestamp)

  /**
   * The capacity the register handler compares against: `count >= max_participants`
   * with a NULL capacity compares against 0, since JavaScript coerces null to 0.
   */
  function Capacity(e: Event): int {
    match e.maxParticipants
    case None => 0
    case Some(n) => n
  }

  /** The position of the row with this id (`select ... from events where id = ?`), or `|evs|` for none. */
  function EventIndex(evs: seq<Event>, id: int): (k: nat)
    ensures k <= |evs|
    ensures k < |evs| ==> evs[k].id == id
    ensures forall j :: 0 <= j < k ==> evs[j].id != id
  {
    if evs == [] then 0 else if evs[0].id == id then 0 else 1 + EventIndex(evs[1..], id)
  }

  /** Some row of `evs` has this id. */
  predicate HasEvent(evs: seq<Event>, id: int) {
    exists k :: 0 <= k < |evs| && evs[k].id == id
  }

  /** The lookup finds a row exactly when one exists. */
  lemma EventIndexFound(evs: seq<Event>, id: int)
    ensures EventIndex(evs, id) < |evs| <==> HasEvent(evs, id)
  {
  }

  /** `select ... from events where id = ?` with `.get()`: the first row with that id, if any. */
  function FindEvent(evs: seq<Event>, id: int): (r: Option<Event>)
    ensures r.Some? <==> HasEvent(evs, id)
    ensures r.Some? ==> r.value.id == id && r.value in evs
  {
    var k := EventIndex(evs, id);
    if k < |evs| then Some(evs[k]) else None
  }

  /** With ids in increasing order, looking up the id of any row finds that very row. */
  lemma FindEventUnique(evs: seq<Event>, i: int)
    requires Pairwise(evs, EventIdOrder())
    requires 0 <= i < |evs|
    ensures FindEvent(evs, evs[i].id) == Some(evs[i])
  {
    var k := EventIndex(evs, evs[i].id);
    assert forall j :: 0 <= j < i ==> EventIdOrder()(evs[j], evs[i]);
  }

  // The row tests of the `where` clauses, named so that every query and lemma uses the same one.

  function OfEvent(eventId: int): Registration -> bool {
    (x: Registration) => x.eventId == eventId
  }

  function NotOfEvent(eventId: int): Registration -> bool {
    (x: Registration) => x.eventId != eventId
  }

  function OfPair(eventId: int, email: string): Registration -> bool {
    (x: Registration) => x.eventId == eventId && x.studentEmail == email
  }

  function IsCheckedIn(): Registration -> bool {
    (x: Registration) => x.status == CheckedIn
  }

  function NotWithId(id: int): Event -> bool {
    (e: Event) => e.id != id
  }

  /** `select * from registrations where event_id = ?`, in table order. */
  function RegistrationsFor(regs: seq<Registration>, eventId: int): (r: seq<Registration>)
    ensures |r| <= |regs|
    ensures forall i :: 0 <= i < |r| ==> r[i] in regs && r[i].eventId == eventId
    ensures forall i :: 0 <= i < |regs| && regs[i].eventId == eventId ==> regs[i] in r
  {
    Filter(regs, OfEvent(eventId))
  }

  /** The rows of one event whose status is `checked_in`. */
  function CheckedInFor(regs: seq<Registration>, eventId: int): (r: seq<Registration>)
    ensures |r| <= |RegistrationsFor(regs, eventId)|
    ensures forall i :: 0 <= i < |r| ==> r[i] in regs && r[i].eventId == eventId && r[i].status == CheckedIn
    ensures forall i :: 0 <= i < |regs| && regs[i].eventId == eventId && regs[i].status == CheckedIn ==> regs[i] in r
  {
    Filter(RegistrationsFor(regs, eventId), IsCheckedIn())
  }

  /** `select * from registrations where event_id = ? and student_email = ?`: exact, case-sensitive text equality. */
  function Matching(regs: seq<Registration>, eventId: int, email: string): (r: seq<Registration>)
    ensures |r| <= |regs|
    ensures forall i :: 0 <= i < |r| ==> r[i] in regs && r[i].eventId == eventId && r[i].studentEmail == email
    ensures forall i :: 0 <= i < |regs| && regs[i].eventId == eventId && regs[i].studentEmail == email ==> regs[i] in r
  {
    Filter(regs, OfPair(eventId, email))
  }

  /** Appending one row adds it to the query result of its own event only. */
  lemma RegistrationsForAppend(regs: seq<Registration>, row: Registration, eventId: int)
    ensures RegistrationsFor(regs + [row], eventId)
            == RegistrationsFor(regs, eventId) + (if row.eventId == eventId then [row] else [])
  {
    FilterConcat(regs, [row], OfEvent(eventId));
  }

  /** The rows left in `events` after `delete from events where id = ?`. */
  function EventsExcept(evs: seq<Event>, id: int): (r: seq<Event>)
    ensures |r| <= |evs|
    ensures forall i :: 0 <= i < |r| ==> r[i] in evs && r[i].id != id
    ensures forall i :: 0 <= i < |evs| && evs[i].id != id ==> evs[i] in r
  {
    Filter(evs, NotWithId(id))
  }

  /** The rows left in `registrations` once that delete cascades (`on delete cascade`). */
  function RegistrationsExcept(regs: seq<Registration>, eventId: int): (r: seq<Registration>)
    ensures |r| <= |regs|
    ensures forall i :: 0 <= i < |r| ==> r[i] in regs && r[i].eventId != eventId
    ensures forall i :: 0 <= i < |regs| && regs[i].eventId != eventId ==> regs[i] in r
  {
    Filter(regs, NotOfEvent(eventId))
  }

  /** The cascade does not change the registrations of any other event. */
  lemma RegistrationsForAfterCascade(regs: seq<Registration>, deleted: int, eventId: int)
    requires eventId != deleted
    ensures RegistrationsFor(RegistrationsExcept(regs, deleted), eventId) == RegistrationsFor(regs, eventId)
  {
    FilterNarrow(regs, NotOfEvent(deleted), OfEvent(eventId));
  }

  /** No event has a registration when no row refers to it. */
  lemma RegistrationsForNone(regs: seq<Registration>, eventId: int)
    requires forall i :: 0 <= i < |regs| ==> regs[i].eventId != eventId
    ensures RegistrationsFor(regs, eventId) == []
  {
    FilterNone(regs, OfEvent(eventId));
  }

  /** Row ids in table order are strictly increasing (AUTOINCREMENT), hence unique. */
  function EventIdOrder(): (Event, Event) -> bool {
    (a: Event, b: Event) => a.id < b.id
  }

  function RegistrationIdOrder(): (Registration, Registration) -> bool {
    (a: Registration, b: Registration) => a.id < b.id
  }

  /** Deleting rows keeps the ids of what is left in increasing order. */
  lemma DeleteKeepsIdOrder(evs: seq<Event>, regs: seq<Registration>, id: int)
    requires Pairwise(evs, EventIdOrder()) && Pairwise(regs, RegistrationIdOrder())
    ensures Pairwise(EventsExcept(evs, id), EventIdOrder())
    ensures Pairwise(RegistrationsExcept(regs, id), RegistrationIdOrder())
  {
    FilterPairwise(evs, NotWithId(id), EventIdOrder());
    FilterPairwise(regs, NotOfEvent(id), RegistrationIdOrder());
  }
}
