/**
 * The pure parts of the admin portal's script: the colour class of an
 * attendance rate and the client-side filter of the registrations table.
 */
module AdminPortal {
  import opened Text
  import opened Seqs
  import opened Schema
  import opened Ledger

  /** The three classes `getAttendanceClass` returns, lowest first. */
  datatype AttendanceClass = Low | Medium | High

  /** The class name as the script writes it into the card's `class` attribute. */
  function ClassName(c: AttendanceClass): string {
    match c
    case Low => "low"
    case Medium => "medium"
    case High => "high"
  }

  function Rank(c: AttendanceClass): nat {
    match c
    case Low => 0
    case Medium => 1
    case High => 2
  }

  /**
   * `getAttendanceClass(rate)` on a rate given in tenths of a percent, as the
   * analytics handler rounds it: 80% or more is high, 60% or more medium.
   */
  function AttendanceClassOf(tenths: int): (c: AttendanceClass)
    ensures c == High <==> tenths >= 800
    ensures c == Medium <==> 600 <= tenths < 800
    ensures c == Low <==> tenths < 600
  {
    if tenths >= 800 then High
    else if tenths >= 600 then Medium
    else Low
  }

  /** The text `getAttendanceClass` returns: 'high' from 80%, 'medium' from 60%, and 'low' below. */
  lemma ClassNameOf(tenths: int)
    ensures ClassName(AttendanceClassOf(tenths)) == "high" <==> tenths >= 800
    ensures ClassName(AttendanceClassOf(tenths)) == "medium" <==> 600 <= tenths < 800
    ensures ClassName(AttendanceClassOf(tenths)) == "low" <==> tenths < 600
  {
  }

  /** A higher rate never gets a lower class. */
  lemma AttendanceClassMonotone(a: int, b: int)
    requires a <= b
    ensures Rank(AttendanceClassOf(a)) <= Rank(AttendanceClassOf(b))
  {
  }

  /**
   * The rounded rate reaches `k` tenths exactly when the unrounded one reaches
   * `k` less half a tenth: `checkedIn / registered >= (2k - 1) / 2000`.
   */
  lemma TenthsAtLeast(c: nat, r: nat, k: int)
    requires r > 0
    ensures AttendanceTenths(c, r) >= k <==> 2000 * c + r >= 2 * (k * r)
  {
    var t := AttendanceTenths(c, r);
    var rt, rk := r * t, k * r;
    assert -(r as int) <= 2000 * c - 2 * rt < r;
    if t >= k {
      MulMonotone(r, k, t);
      assert 2000 * c + r >= 2 * rk;
    } else {
      MulMonotone(r, t, k - 1);
      assert rk - r == (k - 1) * r;
      assert 2000 * c + r < 2 * rk;
    }
  }

  lemma MulMonotone(d: nat, a: int, b: int)
    requires a <= b
    ensures a * d <= b * d
  {
    assert b * d - a * d == (b - a) * d;
  }

  /**
   * The class the portal shows for an entry of the analytics answer, in terms
   * of its counts: high from a rate of 79.95% on, medium from 59.95% on, and
   * low for an event with no registrations.
   */
  lemma AttendanceClassOfStats(regs: seq<Registration>, e: Event)
    ensures var s := StatsFor(regs, e);
      s.registered > 0 ==>
        (AttendanceClassOf(s.attendanceTenths) == High <==> 2000 * s.checkedIn + s.registered >= 1600 * s.registered)
        && (AttendanceClassOf(s.attendanceTenths) == Low <==> 2000 * s.checkedIn + s.registered < 1200 * s.registered)
    ensures StatsFor(regs, e).registered == 0 ==> AttendanceClassOf(StatsFor(regs, e).attendanceTenths) == Low
  {
    var s := StatsFor(regs, e);
    if s.registered > 0 {
      TenthsAtLeast(s.checkedIn, s.registered, 800);
      TenthsAtLeast(s.checkedIn, s.registered, 600);
    }
  }

  /**
   * `filterRegistrations()`: with the "All Events" option (the empty value)
   * every loaded row, otherwise the rows whose `event_id` is strictly equal to
   * `parseInt` of the selected value; a value that reads as NaN equals nothing.
   */
  function FilterRegistrations(regs: seq<Registration>, selected: string): (r: seq<Registration>)
    ensures selected == "" ==> r == regs
    ensures selected != "" && ParseInt(selected).NaN? ==> r == []
    ensures selected != "" && ParseInt(selected).Int? ==> r == RegistrationsFor(regs, ParseInt(selected).value)
  {
    if selected == "" then regs
    else match ParseInt(selected)
      case NaN => FilterNaN(regs)
      case Int(n) => Filter(regs, OfEvent(n))
  }

  /** `reg.event_id === NaN` holds for no row. */
  function FilterNaN(regs: seq<Registration>): (r: seq<Registration>)
    ensures r == []
  {
    var r := Filter(regs, (x: Registration) => false);
    FilterNone(regs, (x: Registration) => false);
    r
  }

  /**
   * The options of the event filter carry `${event.id}`; choosing the option of
   * an event shows exactly what the server lists for that event, in the same
   * order.
   */
  lemma FilterByOption(regs: seq<Registration>, id: nat)
    ensures FilterRegistrations(regs, NatToDecimal(id)) == RegistrationsFor(regs, id)
  {
    ParseIntDecimalThen(id, []);
    assert NatToDecimal(id) + [] == NatToDecimal(id);
  }

  /** Filtering keeps the table order: the rows of an event in a longer table are those of the shorter one, then those after. */
  lemma FilterRegistrationsConcat(a: seq<Registration>, b: seq<Registration>, selected: string)
    ensures FilterRegistrations(a + b, selected) == FilterRegistrations(a, selected) + FilterRegistrations(b, selected)
  {
    if selected != "" && ParseInt(selected).Int? {
      FilterConcat(a, b, OfEvent(ParseInt(selected).value));
    }
  }

  /** Choosing an option a second time, on the filtered rows, changes nothing. */
  lemma FilterRegistrationsIdempotent(regs: seq<Registration>, selected: string)
    ensures FilterRegistrations(FilterRegistrations(regs, selected), selected) == FilterRegistrations(regs, selected)
  {
    if selected != "" && ParseInt(selected).Int? {
      var p := OfEvent(ParseInt(selected).value);
      FilterNarrow(regs, p, p);
    }
  }
}
