/**
 * The student app's script: the event-type filter, the "already registered"
 * test of the event modal, the client-side check of the registration form,
 * the user's own registrations and the profile counts, and the editable
 * profile object `currentUser`.
 */
module StudentApp {
  import opened Basics
  import opened Text
  import opened Seqs
  import opened Validation
  import opened Schema
  import opened Ledger

  // ---------------------------------------------------------------- events

  function OfKind(kind: string): Event -> bool {
    (e: Event) => e.kind == kind
  }

  /**
   * `filterEvents()`: the empty filter value ("All") shows the loaded events
   * as they are; any other value shows the events whose `type` equals it, in
   * their order.
   */
  function FilterEvents(evs: seq<Event>, filter: string): (r: seq<Event>)
    ensures filter == "" ==> r == evs
    ensures filter != "" ==> forall i :: 0 <= i < |r| ==> r[i] in evs && r[i].kind == filter
    ensures filter != "" ==> forall i :: 0 <= i < |evs| && evs[i].kind == filter ==> evs[i] in r
    ensures |r| <= |evs|
  {
    if filter == "" then evs else Filter(evs, OfKind(filter))
  }

  /** The filter keeps the relative order of the events it shows. */
  lemma FilterEventsConcat(a: seq<Event>, b: seq<Event>, filter: string)
    ensures FilterEvents(a + b, filter) == FilterEvents(a, filter) + FilterEvents(b, filter)
  {
    if filter != "" {
      FilterConcat(a, b, OfKind(filter));
    }
  }

  /** Filtering the shown events again by the same value changes nothing. */
  lemma FilterEventsIdempotent(evs: seq<Event>, filter: string)
    ensures FilterEvents(FilterEvents(evs, filter), filter) == FilterEvents(evs, filter)
  {
    if filter != "" {
      FilterNarrow(evs, OfKind(filter), OfKind(filter));
    }
  }

  /** When every loaded event is of the chosen type, the filter hides nothing. */
  lemma FilterEventsAllOfKind(evs: seq<Event>, filter: string)
    requires forall i :: 0 <= i < |evs| ==> evs[i].kind == filter
    ensures FilterEvents(evs, filter) == evs
  {
    if filter != "" {
      FilterAll(evs, OfKind(filter));
    }
  }

  // ---------------------------------------------------------- registrations

  /** `userRegistrations.some(reg => reg.event_id === eventId)`, the test of `openEventModal`. */
  function IsRegistered(regs: seq<Registration>, eventId: int): (b: bool)
    ensures b <==> exists i :: 0 <= i < |regs| && regs[i].eventId == eventId
  {
    if regs == [] then false
    else if regs[0].eventId == eventId then true
    else
      var b := IsRegistered(regs[1..], eventId);
      assert forall i :: 1 <= i < |regs| ==> regs[i] == regs[1..][i - 1];
      b
  }

  /** The modal says "Already Registered" exactly when the list of the event's rows is not empty. */
  lemma IsRegisteredIffListed(regs: seq<Registration>, eventId: int)
    ensures IsRegistered(regs, eventId) <==> RegistrationsFor(regs, eventId) != []
  {
    if IsRegistered(regs, eventId) {
      var i :| 0 <= i < |regs| && regs[i].eventId == eventId;
      assert regs[i] in RegistrationsFor(regs, eventId);
    }
    if RegistrationsFor(regs, eventId) != [] {
      var x := RegistrationsFor(regs, eventId)[0];
      var i :| 0 <= i < |regs| && regs[i] == x;
    }
  }

  function OfEmail(email: string): Registration -> bool {
    (x: Registration) => x.studentEmail == email
  }

  /** `userRegistrations.filter(reg => reg.student_email === currentUser.email)`. */
  function MyRegistrations(regs: seq<Registration>, email: string): (r: seq<Registration>)
    ensures |r| <= |regs|
    ensures forall i :: 0 <= i < |r| ==> r[i] in regs && r[i].studentEmail == email
    ensures forall i :: 0 <= i < |regs| && regs[i].studentEmail == email ==> regs[i] in r
  {
    Filter(regs, OfEmail(email))
  }

  /** The two numbers of the profile: all of the user's registrations, and those with status `checked_in`. */
  datatype ProfileCounts = ProfileCounts(total: nat, attended: nat)

  function Counts(regs: seq<Registration>, email: string): (c: ProfileCounts)
    ensures c.total == |MyRegistrations(regs, email)|
    ensures c.attended <= c.total
  {
    var mine := MyRegistrations(regs, email);
    ProfileCounts(|mine|, |Filter(mine, IsCheckedIn())|)
  }

  /** The attended count is the number of the user's rows that are checked in. */
  lemma CountsAttended(regs: seq<Registration>, email: string)
    ensures Counts(regs, email).attended == |Filter(regs, (x: Registration) => x.studentEmail == email && x.status == CheckedIn)|
  {
    var both := (x: Registration) => x.studentEmail == email && x.status == CheckedIn;
    FilterTwice(regs, OfEmail(email), IsCheckedIn(), both);
  }

  lemma {:induction false} FilterTwice<T>(s: seq<T>, p: T -> bool, q: T -> bool, pq: T -> bool)
    requires forall x :: pq(x) <==> p(x) && q(x)
    ensures Filter(Filter(s, p), q) == Filter(s, pq)
  {
    if s != [] {
      FilterTwice(s[1..], p, q, pq);
      if p(s[0]) {
        assert Filter(s, p) == [s[0]] + Filter(s[1..], p);
        assert Filter(s, p)[0] == s[0] && Filter(s, p)[1..] == Filter(s[1..], p);
      }
    }
  }

  /** One of the user's own rows for an event makes the event show as registered. */
  lemma OwnRegistrationShowsRegistered(regs: seq<Registration>, email: string, eventId: int)
    requires IsRegistered(MyRegistrations(regs, email), eventId)
    ensures IsRegistered(regs, eventId)
  {
    var mine := MyRegistrations(regs, email);
    var i :| 0 <= i < |mine| && mine[i].eventId == eventId;
    var j :| 0 <= j < |regs| && regs[j] == mine[i];
  }

  /**
   * The converse fails: the modal's test does not look at the address, so a
   * row of another student also shows the event as registered.
   */
  lemma IsRegisteredIgnoresEmail()
    ensures exists regs: seq<Registration>, email: string ::
              IsRegistered(regs, 1) && MyRegistrations(regs, email) == []
  {
    var x := Registration(1, 1, "Ann", "ann@uni.edu", None, Registered, None, "t", "t");
    var email := "john.doe@student.edu";
    assert IsRegistered([x], 1) by { assert [x][0].eventId == 1; }
    assert x.studentEmail != email by { assert x.studentEmail[0] != email[0]; }
    assert Filter([x], OfEmail(email)) == [];
    assert MyRegistrations([x], email) == [];
  }

  /**
   * The server stores addresses lower-cased, so a profile address with an
   * upper-case letter finds none of the rows the server stored.
   */
  lemma MixedCaseProfileSeesNothing(regs: seq<Registration>, email: string)
    requires forall i :: 0 <= i < |regs| ==> Stored(regs[i])
    requires Lower(email) != email
    ensures MyRegistrations(regs, email) == []
    ensures Counts(regs, email) == ProfileCounts(0, 0)
  {
    forall i | 0 <= i < |regs| ensures !OfEmail(email)(regs[i]) {
      assert Stored(regs[i]);
    }
    FilterNone(regs, OfEmail(email));
  }

  // ------------------------------------------------------- registration form

  /** The registration form as the user left it; `eventIdText` is the form's `data-event-id`. */
  datatype RegistrationForm = RegistrationForm(eventIdText: string, name: string, email: string, phone: string)

  /** `JSON.stringify` writes a NaN `event_id` as null, which the server reads as missing. */
  function EventIdField(t: string): (r: Option<int>)
    ensures r.Some? <==> ParseInt(t).Int?
    ensures r.Some? ==> r.value == ParseInt(t).value
  {
    match ParseInt(t)
    case NaN => None
    case Int(n) => Some(n)
  }

  /**
   * `submitRegistration`: the three text fields are trimmed; with an empty
   * name or an empty address nothing is sent (None), otherwise the body of
   * the `POST /api/registrations` it sends.
   */
  function SubmitRegistration(f: RegistrationForm): (r: Option<RegistrationRequest>)
    ensures r.None? <==> Trim(f.name) == "" || Trim(f.email) == ""
    ensures r.Some? ==> r.value == RegistrationRequest(EventIdField(f.eventIdText), Some(Trim(f.name)),
                                                       Some(Trim(f.email)), Some(Trim(f.phone)))
  {
    var name, email, phone := Trim(f.name), Trim(f.email), Trim(f.phone);
    if name == "" || email == "" then None
    else Some(RegistrationRequest(EventIdField(f.eventIdText), Some(name), Some(email), Some(phone)))
  }

  /**
   * A body the form sends always has a name and an address, so the server's
   * missing-field check can fail only on the event id: when `parseInt` gave
   * NaN or 0.
   */
  lemma SubmittedFieldsPresent(f: RegistrationForm)
    requires SubmitRegistration(f).Some?
    ensures HasRegistrationFields(SubmitRegistration(f).value) <==> ParseInt(f.eventIdText).Int? && ParseInt(f.eventIdText).value != 0
  {
  }

  /**
   * What the server stores for a form it accepts: the name as the form trimmed
   * it and the address trimmed and lower-cased; trimming on both sides is the
   * same as trimming once.
   */
  lemma SubmitThenRegister(f: RegistrationForm, evs: seq<Event>, regs: seq<Registration>, id: int, now: Timestamp)
    requires SubmitRegistration(f).Some?
    requires NewRegistration(evs, regs, SubmitRegistration(f).value, id, now).Ok?
    ensures var x := NewRegistration(evs, regs, SubmitRegistration(f).value, id, now).row;
      x.studentName == Trim(f.name) && x.studentEmail == Lower(Trim(f.email)) && x.eventId == ParseInt(f.eventIdText).value
      && x.studentPhone == (if Trim(f.phone) == "" then None else Some(Trim(f.phone)))
  {
    var q := SubmitRegistration(f).value;
    RegisteredRow(evs, regs, q, id, now);
    TrimIdempotent(f.name);
    TrimIdempotent(f.email);
    TrimIdempotent(f.phone);
  }

  // ----------------------------------------------------------------- profile

  /** `currentUser`, the one object whose fields the script assigns in place. */
  class Profile {
    var name: string
    var email: string
    var phone: string

    /** Name and phone are never empty. */
    predicate Valid()
      reads this
    {
      name != "" && phone != ""
    }

    /** The built-in user the script starts with. */
    constructor ()
      ensures Valid()
      ensures name == "John Doe" && email == "john.doe@student.edu" && phone == "+1234567890"
    {
      name, email, phone := "John Doe", "john.doe@student.edu", "+1234567890";
    }

    /**
     * `editProfile()` with the answers of its two prompts (None for a cancelled
     * prompt): an answer that is blank after trimming leaves the field as it was,
     * any other replaces it trimmed; the address is never edited.
     */
    method Edit(newName: Option<string>, newPhone: Option<string>)
      requires Valid()
      modifies this
      ensures Valid()
      ensures name == (if newName.Some? && newName.value != "" && Trim(newName.value) != "" then Trim(newName.value) else old(name))
      ensures phone == (if newPhone.Some? && newPhone.value != "" && Trim(newPhone.value) != "" then Trim(newPhone.value) else old(phone))
      ensures email == old(email)
    {
      if newName.Some? && newName.value != "" && Trim(newName.value) != "" {
        name := Trim(newName.value);
      }
      if newPhone.Some? && newPhone.value != "" && Trim(newPhone.value) != "" {
        phone := Trim(newPhone.value);
      }
    }

    /** The method form of `Counts` for `updateProfileDisplay()`: its two numbers for this profile's address. */
    method Stats(userRegistrations: seq<Registration>) returns (c: ProfileCounts)
      ensures c == Counts(userRegistrations, email)
      ensures c.attended <= c.total
    {
      c := Counts(userRegistrations, email);
    }
  }
}
