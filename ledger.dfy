/**
 * The rules of the server's handlers, as functions of the two tables: what
 * create-event, update-event, delete-event, register, check-in and analytics
 * compute, the invariant the tables keep between requests, and what each
 * handler does to that invariant.
 */
module Ledger {
  import opened Basics
  import opened Text
  import opened Seqs
  import opened Validation
  import opened Schema

  /** The 400 and 404 answers of the handlers, one per message. */
  datatype Failure =
    | MissingFields         // "Missing required fields: ..."
    | InvalidCapacity       // "max_participants must be a positive number"
    | InvalidTime           // "Invalid time format. Use HH:MM or HH:MM:SS"
    | InvalidEmail          // "Invalid email format"
    | AlreadyRegistered     // "Already registered for this event"
    | EventNotFound         // "Event not found" (404)
    | EventFull             // "Event is full"
    | RegistrationNotFound  // "Registration not found" (404)

  /** The row a handler answers with, or the failure it reports. */
  datatype Outcome<T> = Ok(row: T) | Fail(failure: Failure)

  // ------------------------------------------------------------ the invariant

  /**
   * What a registration row looks like once a handler has written it: the
   * status is one of the two the handlers write, the check-in time is set
   * exactly for checked-in rows, and the address is lower-case.
   */
  predicate Stored(x: Registration) {
    x.status != Cancelled
    && (x.status == CheckedIn <==> x.checkInTime.Some?)
    && Lower(x.studentEmail) == x.studentEmail
  }

  /**
   * The tables between two requests. `nextEventId` and `nextRegistrationId`
   * are the AUTOINCREMENT counters: every id handed out so far is below them,
   * ids grow in table order, and every registration refers to an existing
   * event (`references events(id)`).
   */
  ghost predicate Consistent(evs: seq<Event>, regs: seq<Registration>, nextEventId: int, nextRegistrationId: int) {
    1 <= nextEventId && 1 <= nextRegistrationId
    && (forall i :: 0 <= i < |evs| ==> 1 <= evs[i].id < nextEventId)
    && (forall i :: 0 <= i < |regs| ==> RowConsistent(evs, regs, nextRegistrationId, i))
    && Pairwise(evs, EventIdOrder())
    && Pairwise(regs, RegistrationIdOrder())
  }

  /** Row `i` of `regs` has an id below the counter, refers to an existing event and is `Stored`. */
  ghost predicate RowConsistent(evs: seq<Event>, regs: seq<Registration>, nextRegistrationId: int, i: int) {
    0 <= i < |regs|
    && 1 <= regs[i].id < nextRegistrationId && HasEvent(evs, regs[i].eventId) && Stored(regs[i])
  }

  /** No event has more registrations than its `max_participants`. */
  ghost predicate WithinCapacity(evs: seq<Event>, regs: seq<Registration>) {
    forall i :: 0 <= i < |evs| ==> |RegistrationsFor(regs, evs[i].id)| <= Capacity(evs[i])
  }

  /** An event id that is not yet handed out has no registrations. */
  lemma FreshEventUnused(evs: seq<Event>, regs: seq<Registration>, nextEventId: int, nextRegistrationId: int)
    requires Consistent(evs, regs, nextEventId, nextRegistrationId)
    ensures RegistrationsFor(regs, nextEventId) == []
  {
    forall i | 0 <= i < |regs| ensures regs[i].eventId != nextEventId {
      assert RowConsistent(evs, regs, nextRegistrationId, i);
      var k :| 0 <= k < |evs| && evs[k].id == regs[i].eventId;
    }
    RegistrationsForNone(regs, nextEventId);
  }

  lemma HasEventAppend(evs: seq<Event>, e: Event, id: int)
    requires HasEvent(evs, id)
    ensures HasEvent(evs + [e], id)
  {
    var k :| 0 <= k < |evs| && evs[k].id == id;
    assert (evs + [e])[k] == evs[k];
  }

  // ------------------------------------------------------------ create-event

  /** The body of `POST /api/events`; `kind` is the `type` field. */
  datatype EventRequest = EventRequest(
    title: Option<string>,
    description: Option<string>,
    date: Option<string>,
    time: Option<string>,
    location: Option<string>,
    kind: Option<string>,
    maxParticipants: CapacityInput,
    imageUrl: Option<string>)

  /** `title`, `date`, `time`, `location` and `type` are all truthy. */
  predicate HasEventFields(q: EventRequest) {
    Present(q.title) && Present(q.date) && Present(q.time) && Present(q.location) && Present(q.kind)
  }

  /**
   * The answer of create-event when the next AUTOINCREMENT id is `id`: the
   * three checks in the handler's order, then the row the insert stores.
   */
  function NewEvent(q: EventRequest, id: int, now: Timestamp): Outcome<Event> {
    if !HasEventFields(q) then Fail(MissingFields)
    else if CapacityFor(q.maxParticipants).None? then Fail(InvalidCapacity)
    else match NormalizeTime(q.time.value)
      case None => Fail(InvalidTime)
      case Some(t) =>
        Ok(Event(id, Trim(q.title.value), TrimmedOrNull(q.description), q.date.value, t,
                 Trim(q.location.value), q.kind.value, CapacityFor(q.maxParticipants),
                 TrimmedOrNull(q.imageUrl), now, now))
  }

  /**
   * Create-event reports a missing field before a bad capacity, and a bad
   * capacity before a bad time; these three are its only failures.
   */
  lemma CreateEventChecksInOrder(q: EventRequest, id: int, now: Timestamp)
    ensures NewEvent(q, id, now) == Fail(MissingFields) <==> !HasEventFields(q)
    ensures NewEvent(q, id, now) == Fail(InvalidCapacity) <==>
              HasEventFields(q) && CapacityFor(q.maxParticipants).None?
    ensures NewEvent(q, id, now) == Fail(InvalidTime) <==>
              HasEventFields(q) && CapacityFor(q.maxParticipants).Some? && NormalizeTime(q.time.value).None?
    ensures NewEvent(q, id, now).Ok? <==>
              HasEventFields(q) && CapacityFor(q.maxParticipants).Some? && NormalizeTime(q.time.value).Some?
  {
  }

  /**
   * The created row: the given id, title and location trimmed, description and
   * image URL trimmed or NULL, the time of the shape `HH:MM:SS` (with `:00`
   * added to `HH:MM`), a capacity of at least 1, and both timestamps `now`.
   */
  lemma CreatedRow(q: EventRequest, id: int, now: Timestamp)
    requires NewEvent(q, id, now).Ok?
    ensures var e := NewEvent(q, id, now).row;
      e.id == id
      && e.title == Trim(q.title.value) && e.description == TrimmedOrNull(q.description)
      && e.date == q.date.value && NormalizeTime(q.time.value) == Some(e.time)
      && e.location == Trim(q.location.value) && e.kind == q.kind.value
      && e.maxParticipants == CapacityFor(q.maxParticipants)
      && e.imageUrl == TrimmedOrNull(q.imageUrl)
      && e.createdAt == now && e.updatedAt == now
    ensures HourMinuteSecond(NewEvent(q, id, now).row.time) && Capacity(NewEvent(q, id, now).row) >= 1
    ensures HourMinute(q.time.value) ==> NewEvent(q, id, now).row.time == q.time.value + ":00"
    ensures HourMinuteSecond(q.time.value) ==> NewEvent(q, id, now).row.time == q.time.value
  {
  }

  /** A falsy capacity (absent or 0) is stored as 100, whatever else the request holds. */
  lemma NewEventDefaultCapacity(q: EventRequest, id: int, now: Timestamp)
    requires q.maxParticipants == Missing || q.maxParticipants == Numeric(0)
    requires NewEvent(q, id, now).Ok?
    ensures NewEvent(q, id, now).row.maxParticipants == Some(DefaultMaxParticipants)
  {
  }

  /** Appending the created row keeps the invariant, and the new event starts empty. */
  lemma CreateKeepsConsistent(evs: seq<Event>, regs: seq<Registration>, nextEventId: int, nextRegistrationId: int, e: Event)
    requires Consistent(evs, regs, nextEventId, nextRegistrationId)
    requires e.id == nextEventId && Capacity(e) >= 0
    ensures Consistent(evs + [e], regs, nextEventId + 1, nextRegistrationId)
    ensures WithinCapacity(evs, regs) ==> WithinCapacity(evs + [e], regs)
  {
    PairwiseAppend(evs, e, EventIdOrder());
    forall i | 0 <= i < |regs| ensures RowConsistent(evs + [e], regs, nextRegistrationId, i) {
      assert RowConsistent(evs, regs, nextRegistrationId, i);
      HasEventAppend(evs, e, regs[i].eventId);
    }
    FreshEventUnused(evs, regs, nextEventId, nextRegistrationId);
    var evs' := evs + [e];
    if WithinCapacity(evs, regs) {
      forall i | 0 <= i < |evs'| ensures |RegistrationsFor(regs, evs'[i].id)| <= Capacity(evs'[i]) {
        if i < |evs| {
          assert evs'[i] == evs[i];
        }
      }
    }
  }

  // ------------------------------------------------------------ update-event

  /** The columns a client may name in the body of `PUT /api/events/:id`. */
  datatype Column = Title | Description | Date | Time | Location | Kind | MaxParticipants | ImageUrl

  /** The value of one column: NOT NULL text, nullable text or a nullable integer. */
  datatype FieldValue = Text(text: string) | MaybeText(maybeText: Option<string>) | MaybeNumber(maybeNumber: Option<int>)

  /** One `column = ?` of the generated `update events set ...`, with its value. */
  datatype Assignment =
    | SetTitle(title: string)
    | SetDescription(description: Option<string>)
    | SetDate(date: string)
    | SetTime(time: string)
    | SetLocation(location: string)
    | SetKind(kind: string)
    | SetMaxParticipants(maxParticipants: Option<int>)
    | SetImageUrl(imageUrl: Option<string>)

  function ColumnOf(a: Assignment): Column {
    match a
    case SetTitle(_) => Title
    case SetDescription(_) => Description
    case SetDate(_) => Date
    case SetTime(_) => Time
    case SetLocation(_) => Location
    case SetKind(_) => Kind
    case SetMaxParticipants(_) => MaxParticipants
    case SetImageUrl(_) => ImageUrl
  }

  function ValueOf(a: Assignment): FieldValue {
    match a
    case SetTitle(v) => Text(v)
    case SetDescription(v) => MaybeText(v)
    case SetDate(v) => Text(v)
    case SetTime(v) => Text(v)
    case SetLocation(v) => Text(v)
    case SetKind(v) => Text(v)
    case SetMaxParticipants(v) => MaybeNumber(v)
    case SetImageUrl(v) => MaybeText(v)
  }

  /** The value a row holds in a column. */
  function Field(e: Event, c: Column): FieldValue {
    match c
    case Title => Text(e.title)
    case Description => MaybeText(e.description)
    case Date => Text(e.date)
    case Time => Text(e.time)
    case Location => Text(e.location)
    case Kind => Text(e.kind)
    case MaxParticipants => MaybeNumber(e.maxParticipants)
    case ImageUrl => MaybeText(e.imageUrl)
  }

  /** One assignment: its column takes the value as sent, with no trimming and no validation. */
  function Assign(e: Event, a: Assignment): (r: Event)
    ensures Field(r, ColumnOf(a)) == ValueOf(a)
    ensures forall c :: c != ColumnOf(a) ==> Field(r, c) == Field(e, c)
    ensures r.id == e.id && r.createdAt == e.createdAt && r.updatedAt == e.updatedAt
  {
    match a
    case SetTitle(v) => e.(title := v)
    case SetDescription(v) => e.(description := v)
    case SetDate(v) => e.(date := v)
    case SetTime(v) => e.(time := v)
    case SetLocation(v) => e.(location := v)
    case SetKind(v) => e.(kind := v)
    case SetMaxParticipants(v) => e.(maxParticipants := v)
    case SetImageUrl(v) => e.(imageUrl := v)
  }

  /** The assignments of a patch, taken in the order the body lists its keys. */
  function ApplyAll(e: Event, patch: seq<Assignment>): (r: Event)
    ensures r.id == e.id && r.createdAt == e.createdAt && r.updatedAt == e.updatedAt
    decreases |patch|
  {
    if patch == [] then e else Assign(ApplyAll(e, patch[..|patch| - 1]), patch[|patch| - 1])
  }

  /** The value of the rightmost assignment to `c` in the patch, if there is one. */
  function LastValue(patch: seq<Assignment>, c: Column): (v: Option<FieldValue>)
    ensures v.None? <==> forall i :: 0 <= i < |patch| ==> ColumnOf(patch[i]) != c
    ensures v.Some? ==> exists i :: 0 <= i < |patch| && ColumnOf(patch[i]) == c && ValueOf(patch[i]) == v.value
                                   && forall j :: i < j < |patch| ==> ColumnOf(patch[j]) != c
    decreases |patch|
  {
    if patch == [] then None
    else if ColumnOf(patch[|patch| - 1]) == c then Some(ValueOf(patch[|patch| - 1]))
    else
      var v := LastValue(patch[..|patch| - 1], c);
      assert forall i :: 0 <= i < |patch| - 1 ==> patch[..|patch| - 1][i] == patch[i];
      v
  }

  /**
   * After the update a column holds the value of the rightmost assignment to it
   * (SQLite ignores all but the rightmost), and a column the patch does not
   * name keeps its old value.
   */
  lemma {:induction false} ApplyAllFields(e: Event, patch: seq<Assignment>, c: Column)
    ensures Field(ApplyAll(e, patch), c) == (match LastValue(patch, c) case None => Field(e, c) case Some(v) => v)
    decreases |patch|
  {
    if patch != [] {
      ApplyAllFields(e, patch[..|patch| - 1], c);
    }
  }

  /** The row `update events set ..., updated_at = datetime('now') where id = ?` leaves behind. */
  function UpdatedRow(e: Event, patch: seq<Assignment>, now: Timestamp): (r: Event)
    ensures r.id == e.id && r.createdAt == e.createdAt && r.updatedAt == now
    ensures forall c :: Field(r, c) == Field(ApplyAll(e, patch), c)
  {
    ApplyAll(e, patch).(updatedAt := now)
  }

  /** The update keeps every id, so it keeps the invariant. */
  lemma UpdateKeepsConsistent(evs: seq<Event>, regs: seq<Registration>, nextEventId: int, nextRegistrationId: int,
                              k: int, e: Event)
    requires Consistent(evs, regs, nextEventId, nextRegistrationId)
    requires 0 <= k < |evs| && e.id == evs[k].id
    ensures Consistent(evs[k := e], regs, nextEventId, nextRegistrationId)
  {
    var evs' := evs[k := e];
    forall i | 0 <= i < |regs| ensures RowConsistent(evs', regs, nextRegistrationId, i) {
      assert RowConsistent(evs, regs, nextRegistrationId, i);
      var j :| 0 <= j < |evs| && evs[j].id == regs[i].eventId;
      assert evs'[j].id == evs[j].id;
    }
    forall i, j | 0 <= i < j < |evs'| ensures EventIdOrder()(evs'[i], evs'[j]) {
      assert EventIdOrder()(evs[i], evs[j]);
    }
  }

  /**
   * The update does not check capacities: lowering `max_participants` below the
   * number of registrations is accepted, so the update alone can break
   * `WithinCapacity`.
   */
  lemma UpdateBreaksCapacity()
    ensures exists evs: seq<Event>, regs: seq<Registration>, e: Event, patch: seq<Assignment>, now: Timestamp ::
              Consistent(evs, regs, 2, 2) && WithinCapacity(evs, regs) && evs == [e]
              && !WithinCapacity([UpdatedRow(e, patch, now)], regs)
  {
    var e := Event(1, "Talk", None, "2024-01-01", "10:00:00", "Hall", "seminar", Some(1), None, "t", "t");
    var x := Registration(1, 1, "Ann", "a@b.cd", None, Registered, None, "t", "t");
    var patch := [SetMaxParticipants(Some(0))];
    LowerFacts(x.studentEmail);
    assert Lower(x.studentEmail) == x.studentEmail;
    assert HasEvent([e], 1) by { assert [e][0].id == 1; }
    assert RegistrationsFor([x], 1) == [x];
    var u := UpdatedRow(e, patch, "t");
    assert u.maxParticipants == Some(0);
    assert Consistent([e], [x], 2, 2);
    assert !WithinCapacity([u], [x]) by { assert [u][0] == u; }
  }

  // ------------------------------------------------------------ delete-event

  /** Deleting an event and cascading to its registrations keeps the invariant and every other event's count. */
  lemma DeleteKeepsConsistent(evs: seq<Event>, regs: seq<Registration>, nextEventId: int, nextRegistrationId: int, id: int)
    requires Consistent(evs, regs, nextEventId, nextRegistrationId)
    ensures Consistent(EventsExcept(evs, id), RegistrationsExcept(regs, id), nextEventId, nextRegistrationId)
    ensures WithinCapacity(evs, regs) ==> WithinCapacity(EventsExcept(evs, id), RegistrationsExcept(regs, id))
  {
    var evs' := EventsExcept(evs, id);
    var regs' := RegistrationsExcept(regs, id);
    DeleteKeepsIdOrder(evs, regs, id);
    forall i | 0 <= i < |evs'| ensures 1 <= evs'[i].id < nextEventId {
      var j :| 0 <= j < |evs| && evs[j] == evs'[i];
    }
    forall i | 0 <= i < |regs'| ensures RowConsistent(evs', regs', nextRegistrationId, i) {
      var j :| 0 <= j < |regs| && regs[j] == regs'[i];
      assert RowConsistent(evs, regs, nextRegistrationId, j);
      var k :| 0 <= k < |evs| && evs[k].id == regs[j].eventId;
      assert evs[k] in evs';
      var m :| 0 <= m < |evs'| && evs'[m] == evs[k];
    }
    if WithinCapacity(evs, regs) {
      forall i | 0 <= i < |evs'| ensures |RegistrationsFor(regs', evs'[i].id)| <= Capacity(evs'[i]) {
        var j :| 0 <= j < |evs| && evs[j] == evs'[i];
        RegistrationsForAfterCascade(regs, id, evs'[i].id);
      }
    }
  }

  /** Deleting an id that no event has changes neither table: no registration can refer to it. */
  lemma DeleteAbsent(evs: seq<Event>, regs: seq<Registration>, nextEventId: int, nextRegistrationId: int, id: int)
    requires Consistent(evs, regs, nextEventId, nextRegistrationId)
    requires !HasEvent(evs, id)
    ensures EventsExcept(evs, id) == evs
    ensures RegistrationsExcept(regs, id) == regs
  {
    FilterAll(evs, NotWithId(id));
    forall i | 0 <= i < |regs| ensures regs[i].eventId != id {
      assert RowConsistent(evs, regs, nextRegistrationId, i);
      var k :| 0 <= k < |evs| && evs[k].id == regs[i].eventId;
    }
    FilterAll(regs, NotOfEvent(id));
  }

  // ---------------------------------------------------------------- register

  /** The body of `POST /api/registrations`. */
  datatype RegistrationRequest = RegistrationRequest(
    eventId: Option<int>,
    studentName: Option<string>,
    studentEmail: Option<string>,
    studentPhone: Option<string>)

  /** `event_id`, `student_name` and `student_email` are all truthy (an event id of 0 is not). */
  predicate HasRegistrationFields(q: RegistrationRequest) {
    q.eventId.Some? && q.eventId.value != 0 && Present(q.studentName) && Present(q.studentEmail)
  }

  /**
   * The answer of register when the next AUTOINCREMENT id is `id`. The
   * duplicate test compares the address exactly as sent, while the row stores
   * it trimmed and lower-cased.
   */
  function NewRegistration(evs: seq<Event>, regs: seq<Registration>, q: RegistrationRequest, id: int, now: Timestamp)
    : Outcome<Registration>
  {
    if !HasRegistrationFields(q) then Fail(MissingFields)
    else
      var eventId, email := q.eventId.value, q.studentEmail.value;
      if !EmailShape(email) then Fail(InvalidEmail)
      else if Matching(regs, eventId, email) != [] then Fail(AlreadyRegistered)
      else match FindEvent(evs, eventId)
        case None => Fail(EventNotFound)
        case Some(e) =>
          if |RegistrationsFor(regs, eventId)| >= Capacity(e) then Fail(EventFull)
          else
            Ok(Registration(id, eventId, Trim(q.studentName.value), Lower(Trim(email)),
                            TrimmedOrNull(q.studentPhone), Registered, None, now, now))
  }

  /**
   * Register runs its checks in a fixed order and the first that fails decides
   * the answer: missing fields, then the address shape, then a row with the same
   * event and the same raw address, then an unknown event, then a full one.
   */
  lemma RegisterChecksInOrder(evs: seq<Event>, regs: seq<Registration>, q: RegistrationRequest, id: int, now: Timestamp)
    ensures NewRegistration(evs, regs, q, id, now) == Fail(MissingFields) <==> !HasRegistrationFields(q)
    ensures NewRegistration(evs, regs, q, id, now) == Fail(InvalidEmail) <==>
              HasRegistrationFields(q) && !EmailShape(q.studentEmail.value)
    ensures NewRegistration(evs, regs, q, id, now) == Fail(AlreadyRegistered) <==>
              HasRegistrationFields(q) && EmailShape(q.studentEmail.value)
              && Matching(regs, q.eventId.value, q.studentEmail.value) != []
    ensures NewRegistration(evs, regs, q, id, now) == Fail(EventNotFound) <==>
              HasRegistrationFields(q) && EmailShape(q.studentEmail.value)
              && Matching(regs, q.eventId.value, q.studentEmail.value) == [] && !HasEvent(evs, q.eventId.value)
    ensures NewRegistration(evs, regs, q, id, now) == Fail(EventFull) <==>
              HasRegistrationFields(q) && EmailShape(q.studentEmail.value)
              && Matching(regs, q.eventId.value, q.studentEmail.value) == [] && HasEvent(evs, q.eventId.value)
              && |RegistrationsFor(regs, q.eventId.value)| >= Capacity(FindEvent(evs, q.eventId.value).value)
    ensures NewRegistration(evs, regs, q, id, now).Ok? <==>
              HasRegistrationFields(q) && EmailShape(q.studentEmail.value)
              && Matching(regs, q.eventId.value, q.studentEmail.value) == [] && HasEvent(evs, q.eventId.value)
              && |RegistrationsFor(regs, q.eventId.value)| < Capacity(FindEvent(evs, q.eventId.value).value)
  {
  }

  /**
   * The registered row: the given id, the event of the request, the name
   * trimmed, the address trimmed and lower-cased, the phone trimmed or NULL,
   * status `registered`, no check-in time and both timestamps `now`.
   */
  lemma RegisteredRow(evs: seq<Event>, regs: seq<Registration>, q: RegistrationRequest, id: int, now: Timestamp)
    requires NewRegistration(evs, regs, q, id, now).Ok?
    ensures var x := NewRegistration(evs, regs, q, id, now).row;
      x.id == id && x.eventId == q.eventId.value
      && x.studentName == Trim(q.studentName.value)
      && x.studentEmail == Lower(Trim(q.studentEmail.value))
      && x.studentPhone == TrimmedOrNull(q.studentPhone)
      && x.status == Registered && x.checkInTime == None
      && x.createdAt == now && x.updatedAt == now
  {
  }

  /**
   * The stored address equals the lower-cased address as sent, since an address
   * of the accepted shape has no white space to trim; it is lower-case and still
   * of the accepted shape, so the row satisfies `Stored`.
   */
  lemma NewRegistrationStored(evs: seq<Event>, regs: seq<Registration>, q: RegistrationRequest, id: int, now: Timestamp)
    requires NewRegistration(evs, regs, q, id, now).Ok?
    ensures NewRegistration(evs, regs, q, id, now).row.studentEmail == Lower(q.studentEmail.value)
    ensures EmailShape(NewRegistration(evs, regs, q, id, now).row.studentEmail)
    ensures Stored(NewRegistration(evs, regs, q, id, now).row)
  {
    var email := q.studentEmail.value;
    EmailShapeTrim(email);
    EmailShapeLower(email);
    LowerFacts(email);
  }

  /** Appending the registered row keeps the invariant. */
  lemma RegisterKeepsConsistent(evs: seq<Event>, regs: seq<Registration>, nextEventId: int, nextRegistrationId: int,
                                q: RegistrationRequest, now: Timestamp)
    requires Consistent(evs, regs, nextEventId, nextRegistrationId)
    requires NewRegistration(evs, regs, q, nextRegistrationId, now).Ok?
    ensures Consistent(evs, regs + [NewRegistration(evs, regs, q, nextRegistrationId, now).row],
                       nextEventId, nextRegistrationId + 1)
  {
    var x := NewRegistration(evs, regs, q, nextRegistrationId, now).row;
    NewRegistrationStored(evs, regs, q, nextRegistrationId, now);
    AppendKeepsConsistent(evs, regs, nextEventId, nextRegistrationId, x);
  }

  lemma AppendKeepsConsistent(evs: seq<Event>, regs: seq<Registration>, nextEventId: int, nextRegistrationId: int,
                              x: Registration)
    requires Consistent(evs, regs, nextEventId, nextRegistrationId)
    requires x.id == nextRegistrationId && HasEvent(evs, x.eventId) && Stored(x)
    ensures Consistent(evs, regs + [x], nextEventId, nextRegistrationId + 1)
  {
    forall i | 0 <= i < |regs| ensures RegistrationIdOrder()(regs[i], x) {
      assert RowConsistent(evs, regs, nextRegistrationId, i);
    }
    PairwiseAppend(regs, x, RegistrationIdOrder());
    var regs', next' := regs + [x], nextRegistrationId + 1;
    forall i | 0 <= i < |regs'| ensures RowConsistent(evs, regs', next', i) {
      if i < |regs| {
        assert RowConsistent(evs, regs, nextRegistrationId, i);
        assert regs'[i] == regs[i];
      }
    }
  }

  /**
   * Register appends a row only while the event's count is below its capacity,
   * so it never takes an event past `max_participants`.
   */
  lemma RegisterWithinCapacity(evs: seq<Event>, regs: seq<Registration>, q: RegistrationRequest, id: int, now: Timestamp)
    requires Pairwise(evs, EventIdOrder())
    requires WithinCapacity(evs, regs)
    requires NewRegistration(evs, regs, q, id, now).Ok?
    ensures WithinCapacity(evs, regs + [NewRegistration(evs, regs, q, id, now).row])
  {
    var x := NewRegistration(evs, regs, q, id, now).row;
    forall i | 0 <= i < |evs| ensures |RegistrationsFor(regs + [x], evs[i].id)| <= Capacity(evs[i]) {
      RegistrationsForAppend(regs, x, evs[i].id);
      if evs[i].id == x.eventId {
        FindEventUnique(evs, i);
      }
    }
  }

  /** Every stored address is lower-case, so an address with an upper-case letter matches no row. */
  lemma MixedCaseMatchesNothing(evs: seq<Event>, regs: seq<Registration>, nextEventId: int, nextRegistrationId: int,
                                eventId: int, email: string)
    requires Consistent(evs, regs, nextEventId, nextRegistrationId)
    requires Lower(email) != email
    ensures Matching(regs, eventId, email) == []
  {
    forall i | 0 <= i < |regs| ensures !OfPair(eventId, email)(regs[i]) {
      assert RowConsistent(evs, regs, nextRegistrationId, i);
    }
    FilterNone(regs, OfPair(eventId, email));
  }

  /** A lower-case address that has registered once is refused as a duplicate the second time. */
  lemma RegisterAgainLowerCase(evs: seq<Event>, regs: seq<Registration>, q: RegistrationRequest,
                               id: int, now: Timestamp, id': int, now': Timestamp)
    requires NewRegistration(evs, regs, q, id, now).Ok?
    requires Lower(q.studentEmail.value) == q.studentEmail.value
    ensures NewRegistration(evs, regs + [NewRegistration(evs, regs, q, id, now).row], q, id', now')
            == Fail(AlreadyRegistered)
  {
    var x := NewRegistration(evs, regs, q, id, now).row;
    var regs' := regs + [x];
    assert regs'[|regs|] == x;
    assert x in Matching(regs', x.eventId, q.studentEmail.value);
  }

  /**
   * A mixed-case address is never refused as a duplicate: the same request,
   * repeated while the event has room, is admitted a second time.
   */
  lemma RegisterAgainMixedCase(evs: seq<Event>, regs: seq<Registration>, nextEventId: int, nextRegistrationId: int,
                               q: RegistrationRequest, now: Timestamp, now': Timestamp)
    requires Consistent(evs, regs, nextEventId, nextRegistrationId)
    requires NewRegistration(evs, regs, q, nextRegistrationId, now).Ok?
    requires Lower(q.studentEmail.value) != q.studentEmail.value
    requires |RegistrationsFor(regs, q.eventId.value)| + 1 < Capacity(FindEvent(evs, q.eventId.value).value)
    ensures NewRegistration(evs, regs + [NewRegistration(evs, regs, q, nextRegistrationId, now).row], q,
                            nextRegistrationId + 1, now').Ok?
  {
    var x := NewRegistration(evs, regs, q, nextRegistrationId, now).row;
    RegisterKeepsConsistent(evs, regs, nextEventId, nextRegistrationId, q, now);
    MixedCaseMatchesNothing(evs, regs + [x], nextEventId, nextRegistrationId + 1, x.eventId, q.studentEmail.value);
    RegistrationsForAppend(regs, x, x.eventId);
  }

  // ---------------------------------------------------------------- check-in

  /** `update registrations set status = 'checked_in', check_in_time = now, updated_at = now` on one row. */
  function CheckInRow(x: Registration, eventId: int, email: string, now: Timestamp): (y: Registration)
    ensures y.id == x.id && y.eventId == x.eventId && y.studentName == x.studentName
    ensures y.studentEmail == x.studentEmail && y.studentPhone == x.studentPhone && y.createdAt == x.createdAt
    ensures OfPair(eventId, email)(x) ==> y.status == CheckedIn && y.checkInTime == Some(now) && y.updatedAt == now
    ensures !OfPair(eventId, email)(x) ==> y == x
  {
    if x.eventId == eventId && x.studentEmail == email then
      x.(status := CheckedIn, checkInTime := Some(now), updatedAt := now)
    else x
  }

  /** The whole statement: every row with exactly this `(event_id, student_email)` is stamped, whatever its status. */
  function CheckInRows(regs: seq<Registration>, eventId: int, email: string, now: Timestamp): (r: seq<Registration>)
    ensures |r| == |regs|
    ensures forall i :: 0 <= i < |regs| ==> r[i] == CheckInRow(regs[i], eventId, email, now)
  {
    seq(|regs|, i requires 0 <= i < |regs| => CheckInRow(regs[i], eventId, email, now))
  }

  /** The statement changes as many rows as match, and the same rows match afterwards. */
  lemma CheckInMatchesSame(regs: seq<Registration>, eventId: int, email: string, now: Timestamp)
    ensures |Matching(CheckInRows(regs, eventId, email, now), eventId, email)| == |Matching(regs, eventId, email)|
  {
    FilterLengthPointwise(CheckInRows(regs, eventId, email, now), OfPair(eventId, email), regs, OfPair(eventId, email));
  }

  /**
   * The answer of check-in: "not found" exactly when no row has that pair
   * (`info.changes === 0`), otherwise the first matching row after the update.
   */
  function CheckInResult(regs: seq<Registration>, eventId: int, email: string, now: Timestamp): (r: Outcome<Registration>)
    ensures r.Fail? <==> Matching(regs, eventId, email) == []
    ensures r.Fail? ==> r.failure == RegistrationNotFound
    ensures r.Ok? ==>
              r.row in CheckInRows(regs, eventId, email, now)
              && r.row.eventId == eventId && r.row.studentEmail == email
              && r.row.status == CheckedIn && r.row.checkInTime == Some(now) && r.row.updatedAt == now
  {
    if Matching(regs, eventId, email) == [] then Fail(RegistrationNotFound)
    else
      var after := CheckInRows(regs, eventId, email, now);
      CheckInMatchesSame(regs, eventId, email, now);
      var x := Matching(after, eventId, email)[0];
      var j :| 0 <= j < |after| && after[j] == x;
      Ok(x)
  }

  /** Check-in changes only the matched rows' status fields, so it keeps the invariant and every capacity. */
  lemma CheckInKeepsConsistent(evs: seq<Event>, regs: seq<Registration>, nextEventId: int, nextRegistrationId: int,
                               eventId: int, email: string, now: Timestamp)
    requires Consistent(evs, regs, nextEventId, nextRegistrationId)
    ensures Consistent(evs, CheckInRows(regs, eventId, email, now), nextEventId, nextRegistrationId)
    ensures WithinCapacity(evs, regs) ==> WithinCapacity(evs, CheckInRows(regs, eventId, email, now))
  {
    var regs' := CheckInRows(regs, eventId, email, now);
    forall i, j | 0 <= i < j < |regs'| ensures RegistrationIdOrder()(regs'[i], regs'[j]) {
      assert RegistrationIdOrder()(regs[i], regs[j]);
    }
    forall i | 0 <= i < |regs'| ensures RowConsistent(evs, regs', nextRegistrationId, i) {
      assert RowConsistent(evs, regs, nextRegistrationId, i);
    }
    forall i | 0 <= i < |evs| ensures |RegistrationsFor(regs', evs[i].id)| == |RegistrationsFor(regs, evs[i].id)| {
      CheckInKeepsCounts(regs, eventId, email, now, evs[i].id);
    }
  }

  /**
   * Check-in keeps every event's number of registrations, and leaves the rows
   * of every other event exactly as they were.
   */
  lemma CheckInKeepsCounts(regs: seq<Registration>, eventId: int, email: string, now: Timestamp, other: int)
    ensures |RegistrationsFor(CheckInRows(regs, eventId, email, now), other)| == |RegistrationsFor(regs, other)|
    ensures other != eventId ==> RegistrationsFor(CheckInRows(regs, eventId, email, now), other) == RegistrationsFor(regs, other)
  {
    var regs' := CheckInRows(regs, eventId, email, now);
    FilterLengthPointwise(regs', OfEvent(other), regs, OfEvent(other));
    if other != eventId {
      FilterSame(regs', regs, OfEvent(other));
    }
  }

  /** A pair that checked in once checks in again, and the later call re-stamps the time. */
  lemma CheckInAgain(regs: seq<Registration>, eventId: int, email: string, now: Timestamp, now': Timestamp)
    requires CheckInResult(regs, eventId, email, now).Ok?
    ensures CheckInResult(CheckInRows(regs, eventId, email, now), eventId, email, now').Ok?
    ensures CheckInResult(CheckInRows(regs, eventId, email, now), eventId, email, now').row.checkInTime == Some(now')
  {
    CheckInMatchesSame(regs, eventId, email, now);
  }

  /** An address with an upper-case letter is never found by check-in, since stored addresses are lower-case. */
  lemma CheckInMixedCaseNotFound(evs: seq<Event>, regs: seq<Registration>, nextEventId: int, nextRegistrationId: int,
                                 eventId: int, email: string, now: Timestamp)
    requires Consistent(evs, regs, nextEventId, nextRegistrationId)
    requires Lower(email) != email
    ensures CheckInResult(regs, eventId, email, now) == Fail(RegistrationNotFound)
  {
    MixedCaseMatchesNothing(evs, regs, nextEventId, nextRegistrationId, eventId, email);
  }

  // --------------------------------------------------------------- analytics

  /**
   * `attendance_rate` in tenths of a percent: `checkedIn / registered * 100`
   * rounded to the nearest tenth, halves upwards, and 0 for an event with no
   * registrations.
   */
  function AttendanceTenths(checkedIn: nat, registered: nat): (t: int)
    ensures registered == 0 ==> t == 0
    ensures registered > 0 ==> -(registered as int) <= 2 * (1000 * checkedIn - registered * t) < registered
    ensures checkedIn <= registered ==> 0 <= t <= 1000
  {
    if registered == 0 then 0
    else
      var t := (2000 * checkedIn + registered) / (2 * registered);
      TenthsBounds(checkedIn, registered, t);
      t
  }

  lemma TenthsBounds(c: nat, r: nat, t: int)
    requires r > 0 && t == (2000 * c + r) / (2 * r)
    ensures -(r as int) <= 2 * (1000 * c - r * t) < r
    ensures c <= r ==> 0 <= t <= 1000
  {
    var d := 2 * r;
    var m := (2000 * c + r) % d;
    assert 2000 * c + r == d * t + m && 0 <= m < d;
    assert 2 * (1000 * c - r * t) == m - r;
    if c <= r {
      assert d * t <= 2000 * c + r <= 2001 * r < d * 1001;
      MulLess(d, t, 1001);
    }
  }

  lemma MulLess(d: int, a: int, b: int)
    requires d > 0 && d * a < d * b
    ensures a < b
  {
    assert d * b - d * a == d * (b - a);
  }

  /** One entry of `GET /api/analytics`. */
  datatype EventStats = EventStats(
    eventId: int,
    eventTitle: string,
    maxParticipants: Option<int>,
    registered: nat,
    checkedIn: nat,
    attendanceTenths: int)

  /**
   * The entry for one event: `registered` counts all its rows whatever their
   * status, `checkedIn` those with status `checked_in`.
   */
  function StatsFor(regs: seq<Registration>, e: Event): (s: EventStats)
    ensures s.eventId == e.id && s.eventTitle == e.title && s.maxParticipants == e.maxParticipants
    ensures s.registered == |RegistrationsFor(regs, e.id)| && s.checkedIn == |CheckedInFor(regs, e.id)|
    ensures s.checkedIn <= s.registered
    ensures 0 <= s.attendanceTenths <= 1000
    ensures s.registered == 0 ==> s.attendanceTenths == 0
  {
    var registered := |RegistrationsFor(regs, e.id)|;
    var checkedIn := |CheckedInFor(regs, e.id)|;
    EventStats(e.id, e.title, e.maxParticipants, registered, checkedIn, AttendanceTenths(checkedIn, registered))
  }

  /** Within capacity, no entry reports more registrations than its `max_participants`. */
  lemma StatsWithinCapacity(evs: seq<Event>, regs: seq<Registration>, i: int)
    requires WithinCapacity(evs, regs)
    requires 0 <= i < |evs|
    ensures StatsFor(regs, evs[i]).registered <= Capacity(evs[i])
  {
  }

  /** After a check-in the entry of the event keeps its `registered`, and every other entry is unchanged. */
  lemma CheckInKeepsStats(regs: seq<Registration>, eventId: int, email: string, now: Timestamp, e: Event)
    ensures StatsFor(CheckInRows(regs, eventId, email, now), e).registered == StatsFor(regs, e).registered
    ensures e.id != eventId ==> StatsFor(CheckInRows(regs, eventId, email, now), e) == StatsFor(regs, e)
  {
    CheckInKeepsCounts(regs, eventId, email, now, e.id);
  }
}
