/**
 * The input rules of the server's create-event and register handlers: JavaScript
 * truthiness of a text field, the `max_participants` rule, the two time
 * patterns and the e-mail pattern `^[^\s@]+@[^\s@]+\.[^\s@]+$`.
 */
module Validation {
  import opened Basics
  import opened Text

  /** A text field is truthy when it is present and not the empty string. */
  predicate Present(field: Option<string>) {
    field.Some? && field.value != ""
  }

  /** `field ? field.trim() : null`, the treatment of the optional text columns. */
  function TrimmedOrNull(field: Option<string>): (r: Option<string>)
    ensures r.Some? <==> Present(field)
    ensures r.Some? ==> r.value == Trim(field.value)
  {
    if Present(field) then Some(Trim(field.value)) else None
  }

  // ---------------------------------------------------------------- capacity

  /** The default capacity the handler substitutes for a falsy `max_participants`. */
  const DefaultMaxParticipants: int := 100

  /**
   * The `max_participants` field of a create request: absent (also null or the
   * empty string), an integer, or a value for which `isNaN` holds.
   */
  datatype CapacityInput = Missing | Numeric(n: int) | NonNumeric

  predicate Truthy(m: CapacityInput) {
    m.NonNumeric? || (m.Numeric? && m.n != 0)
  }

  /**
   * The capacity that create-event stores, or None when it rejects the field:
   * a truthy value that is not a number or is below 1 is refused, and a falsy one
   * (including 0) becomes the default.
   */
  function CapacityFor(m: CapacityInput): (r: Option<int>)
    ensures r.None? <==> m.NonNumeric? || (m.Numeric? && m.n < 0)
    ensures m.Missing? || m == Numeric(0) ==> r == Some(DefaultMaxParticipants)
    ensures m.Numeric? && m.n >= 1 ==> r == Some(m.n)
    ensures r.Some? ==> r.value >= 1
  {
    if Truthy(m) && (m.NonNumeric? || m.n < 1) then None
    else if Truthy(m) then Some(m.n)
    else Some(DefaultMaxParticipants)
  }

  // ------------------------------------------------------------------- times

  /** `/^\d{2}:\d{2}$/` */
  predicate HourMinute(t: string) {
    |t| == 5 && IsDigit(t[0]) && IsDigit(t[1]) && t[2] == ':' && IsDigit(t[3]) && IsDigit(t[4])
  }

  /** `/^\d{2}:\d{2}:\d{2}$/` */
  predicate HourMinuteSecond(t: string) {
    |t| == 8 && HourMinute(t[..5]) && t[5] == ':' && IsDigit(t[6]) && IsDigit(t[7])
  }

  /**
   * The time normalisation of create-event: `HH:MM` gains `:00`, the result must
   * then have the shape `HH:MM:SS`, and None stands for the rejection.
   */
  function NormalizeTime(t: string): (r: Option<string>)
    ensures r.Some? <==> HourMinute(t) || HourMinuteSecond(t)
    ensures HourMinute(t) ==> r == Some(t + ":00")
    ensures HourMinuteSecond(t) ==> r == Some(t)
    ensures r.Some? ==> HourMinuteSecond(r.value)
  {
    var padded := if HourMinute(t) then t + ":00" else t;
    assert HourMinute(t) ==> padded[..5] == t;
    if HourMinuteSecond(padded) then Some(padded) else None
  }

  /** A normalised time is a fixed point of the normalisation. */
  lemma NormalizeTimeIdempotent(t: string)
    requires NormalizeTime(t).Some?
    ensures NormalizeTime(NormalizeTime(t).value) == NormalizeTime(t)
  {
  }

  /** Only the shape is checked: any two digits, a colon and two digits pass, "99:99" included. */
  lemma NormalizeTimeNoRangeCheck(h1: char, h2: char, m1: char, m2: char)
    requires IsDigit(h1) && IsDigit(h2) && IsDigit(m1) && IsDigit(m2)
    ensures NormalizeTime([h1, h2, ':', m1, m2]) == Some([h1, h2, ':', m1, m2, ':', '0', '0'])
  {
    var t := [h1, h2, ':', m1, m2];
    assert HourMinute(t);
    assert t + ":00" == [h1, h2, ':', m1, m2, ':', '0', '0'];
  }

  // ------------------------------------------------------------------ e-mail

  /** A character of the class `[^\s@]`. */
  predicate Plain(c: char) {
    !IsSpace(c) && c != '@'
  }

  /** Every character of `s[lo..hi]` is of the class `[^\s@]`. */
  predicate PlainBetween(s: string, lo: int, hi: int)
    requires 0 <= lo <= hi <= |s|
  {
    forall k :: lo <= k < hi ==> Plain(s[k])
  }

  /**
   * One way the pattern can match: `s[..at]` is the local part, `s[at]` the '@',
   * `s[at+1..dot]` the domain before the chosen '.', and `s[dot+1..]` the rest,
   * each a non-empty run of `[^\s@]`.
   */
  predicate EmailSplit(s: string, at: int, dot: int) {
    0 < at && at + 1 < dot && dot + 1 < |s| && s[at] == '@' && s[dot] == '.'
    && PlainBetween(s, 0, at) && PlainBetween(s, at + 1, dot) && PlainBetween(s, dot + 1, |s|)
  }

  /** A scan equivalent to the handler's regular expression (`EmailShapeIff`): the first '@', then the domain. */
  predicate EmailShape(s: string) {
    var at := IndexOf(s, '@');
    0 < at && at + 4 <= |s| && PlainBetween(s, 0, at) && PlainBetween(s, at + 1, |s|) && '.' in s[at + 2..|s| - 1]
  }

  /** The scan accepts exactly the strings the regular expression matches. */
  lemma EmailShapeIff(s: string)
    ensures EmailShape(s) <==> exists at, dot :: EmailSplit(s, at, dot)
  {
    if EmailShape(s) {
      var at := IndexOf(s, '@');
      var m :| 0 <= m < |s[at + 2..|s| - 1]| && s[at + 2..|s| - 1][m] == '.';
      var dot := at + 2 + m;
      assert s[dot] == '.';
      assert EmailSplit(s, at, dot);
    }
    forall at, dot | EmailSplit(s, at, dot)
      ensures EmailShape(s)
    {
      EmailSplitShape(s, at, dot);
    }
  }

  lemma EmailSplitShape(s: string, at: int, dot: int)
    requires EmailSplit(s, at, dot)
    ensures EmailShape(s)
  {
    assert IndexOf(s, '@') == at;
    assert s[at + 2..|s| - 1][dot - at - 2] == '.';
  }

  /** An address of the accepted shape holds no white space, so trimming leaves it alone. */
  lemma EmailShapeTrim(s: string)
    requires EmailShape(s)
    ensures Trim(s) == s
  {
    var at := IndexOf(s, '@');
    assert forall k :: 0 <= k < |s| && k != at ==> Plain(s[k]);
    assert !IsSpace(s[at]);
    TrimNoSpace(s);
  }

  /** Lower-casing neither creates nor destroys a match of the pattern. */
  lemma EmailShapeLower(s: string)
    ensures EmailShape(Lower(s)) <==> EmailShape(s)
  {
    var l := Lower(s);
    LowerFacts(s);
    assert forall k :: 0 <= k < |s| ==> (Plain(l[k]) <==> Plain(s[k]));
    assert forall at, dot :: EmailSplit(l, at, dot) <==> EmailSplit(s, at, dot);
    EmailShapeIff(s);
    EmailShapeIff(l);
  }
}
