/**
 * The display helpers that the admin portal and the student app both define,
 * with identical bodies: the 12-hour clock text of a stored `time` column and
 * the labels shown for a status or an event type.
 */
module Display {
  import opened Basics
  import opened Text
  import opened Validation
  import opened Schema

  // ------------------------------------------------------------------ clock

  /** JavaScript's `n % 12`: the remainder takes the sign of `n`, and `n` minus it is a multiple of 12. */
  function JsRem12(n: int): (r: int)
    ensures n >= 0 ==> 0 <= r < 12
    ensures n < 0 ==> -12 < r <= 0
    ensures (n - r) % 12 == 0
  {
    if n >= 0 then n % 12 else -((-n) % 12)
  }

  /** `hours` of `const [hours, minutes] = timeString.split(':')`: the text before the first ':'. */
  function HoursPart(s: string): string {
    s[..IndexOf(s, ':')]
  }

  /** `minutes` of the same split: the text between the first and the second ':', or undefined without a ':'. */
  function MinutesPart(s: string): Option<string> {
    var k := IndexOf(s, ':');
    if k == |s| then None
    else
      var rest := s[k + 1..];
      Some(rest[..IndexOf(rest, ':')])
  }

  /** `hour % 12 || 12`: NaN and a remainder of 0 are falsy, so both show as 12. */
  function DisplayHour(h: JsInt): int {
    match h
    case NaN => 12
    case Int(n) => var r := JsRem12(n); if r == 0 then 12 else r
  }

  /** `hour >= 12 ? 'PM' : 'AM'`: a NaN hour compares false, so it is AM. */
  predicate IsPm(h: JsInt) {
    h.Int? && h.value >= 12
  }

  /** The three parts `formatTime` puts together. */
  datatype ClockFace = ClockFace(hour: int, minutes: string, pm: bool)

  /** What `formatTime` shows for a time text; an undefined `minutes` is written "undefined". */
  function Face(s: string): ClockFace {
    var h := ParseInt(HoursPart(s));
    var m := match MinutesPart(s) case None => "undefined" case Some(v) => v;
    ClockFace(DisplayHour(h), m, IsPm(h))
  }

  /** `formatTime(timeString)`: `${displayHour}:${minutes} ${ampm}`. */
  function FormatTime(s: string): string {
    var f := Face(s);
    IntToDecimal(f.hour) + ":" + f.minutes + " " + (if f.pm then "PM" else "AM")
  }

  /**
   * For an hour text that reads as NaN or as a non-negative number, the shown
   * hour is in 1..12, and it is PM exactly when the number read is 12 or more.
   */
  lemma FaceHourRange(s: string)
    requires ParseInt(HoursPart(s)).NaN? || ParseInt(HoursPart(s)).value >= 0
    ensures 1 <= Face(s).hour <= 12
    ensures Face(s).pm <==> ParseInt(HoursPart(s)).Int? && ParseInt(HoursPart(s)).value >= 12
  {
  }

  /**
   * On a 24-hour clock hour: 0 shows as 12 AM, 1 to 11 as themselves AM, 12 as
   * 12 PM, and 13 to 23 as the hour less 12, PM.
   */
  lemma FaceTwentyFourHour(s: string, h: nat)
    requires ParseInt(HoursPart(s)) == Int(h) && h < 24
    ensures Face(s).hour == (if h == 0 then 12 else if h <= 12 then h else h - 12)
    ensures Face(s).pm <==> h >= 12
  {
  }

  /**
   * A negative hour (which `parseInt` reads from a leading '-') is not mapped
   * into 1..12: JavaScript's remainder keeps the sign, so the shown hour is
   * 12 or lies between -11 and -1, and it is AM.
   */
  lemma FaceNegativeHour(s: string, n: int)
    requires ParseInt(HoursPart(s)) == Int(n) && n < 0
    ensures Face(s).hour == 12 || -12 < Face(s).hour < 0
    ensures !Face(s).pm
  {
  }

  /**
   * On a time the server stores (the shape `HH:MM:SS`), the hour is the number
   * of the first two digits, the minutes are the two characters after the
   * first ':' copied as they are, and the shown hour is in 1..12.
   */
  lemma FaceOfStoredTime(t: string)
    requires HourMinuteSecond(t)
    ensures HoursPart(t) == t[..2] && ParseInt(HoursPart(t)) == Int(DecimalValue(t[..2]))
    ensures Face(t).minutes == t[3..5]
    ensures 1 <= Face(t).hour <= 12
    ensures Face(t).pm <==> DecimalValue(t[..2]) >= 12
  {
    assert t[2] == ':' && t[0] != ':' && t[1] != ':';
    IndexOfPrefix(t[..2], ':', t[3..]);
    assert t[..2] + [':'] + t[3..] == t;
    var rest := t[3..];
    assert rest[2] == ':' && rest[0] != ':' && rest[1] != ':';
    IndexOfPrefix(rest[..2], ':', rest[3..]);
    assert rest[..2] + [':'] + rest[3..] == rest;
    var h := t[..2];
    assert IsDigit(h[0]) && IsDigit(h[1]);
    ParseIntLeadingDigits(h);
    assert DigitPrefix(h) == 2 by {
      assert DigitPrefix(h[1..][1..]) == 0;
    }
    assert h[..2] == h;
  }

  /** Reading the shown text back with `parseInt` gives the shown hour, when that hour is not negative. */
  lemma FormatTimeReadBack(s: string)
    requires Face(s).hour >= 0
    ensures ParseInt(FormatTime(s)) == Int(Face(s).hour)
  {
    var f := Face(s);
    var rest := ":" + f.minutes + " " + (if f.pm then "PM" else "AM");
    assert FormatTime(s) == NatToDecimal(f.hour) + rest;
    ParseIntDecimalThen(f.hour, rest);
  }

  // ----------------------------------------------------------------- labels

  /** The `statuses` object of `formatStatus`. */
  const StatusLabels: map<string, string> :=
    map["registered" := "Registered", "checked_in" := "Checked In", "cancelled" := "Cancelled"]

  /** The `types` object of `formatEventType`. */
  const EventTypeLabels: map<string, string> :=
    map["hackathon" := "Hackathon", "workshop" := "Workshop", "tech_talk" := "Tech Talk", "fest" := "Festival"]

  /** `labels[key] || key`: the label of a known key, and the key itself otherwise. */
  function Label(labels: map<string, string>, key: string): (r: string)
    ensures r == key || r in labels.Values
  {
    if key in labels && labels[key] != "" then labels[key] else key
  }

  function FormatStatus(status: string): (r: string)
    ensures r == status || r in StatusLabels.Values
  {
    Label(StatusLabels, status)
  }

  function FormatEventType(kind: string): (r: string)
    ensures r == kind || r in EventTypeLabels.Values
  {
    Label(EventTypeLabels, kind)
  }

  /** Each of the three statuses the server can store is shown with its own label. */
  lemma FormatStatusOfStored(st: Status)
    ensures FormatStatus(StatusKey(st)) == (match st
                                             case Registered => "Registered"
                                             case CheckedIn => "Checked In"
                                             case Cancelled => "Cancelled")
  {
  }

  /** Different statuses get different labels. */
  lemma FormatStatusInjective(a: Status, b: Status)
    requires FormatStatus(StatusKey(a)) == FormatStatus(StatusKey(b))
    ensures a == b
  {
    FormatStatusOfStored(a);
    FormatStatusOfStored(b);
  }

  /** Each known key is shown with its own label. */
  lemma FormatKnownKeys(key: string)
    ensures key in StatusLabels ==> FormatStatus(key) == StatusLabels[key]
    ensures key in EventTypeLabels ==> FormatEventType(key) == EventTypeLabels[key]
  {
  }

  /** A text that is not one of the keys is shown unchanged. */
  lemma LabelPassThrough(labels: map<string, string>, key: string)
    requires key !in labels
    ensures Label(labels, key) == key
  {
  }

  /** No label is itself a key, so formatting a formatted text changes nothing. */
  lemma FormatIdempotent(s: string)
    ensures FormatStatus(FormatStatus(s)) == FormatStatus(s)
    ensures FormatEventType(FormatEventType(s)) == FormatEventType(s)
  {
    var l := FormatStatus(s);
    assert l != s ==> l in StatusLabels.Values;
    assert forall v :: v in StatusLabels.Values ==> v !in StatusLabels;
    var m := FormatEventType(s);
    assert m != s ==> m in EventTypeLabels.Values;
    assert forall v :: v in EventTypeLabels.Values ==> v !in EventTypeLabels;
  }
}
