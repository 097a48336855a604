/**
 * The error-handling script shared by both front-ends: the classification of
 * an API error message into the text shown to the user, the messages
 * `safeFetch` and `checkConnection` raise, and the debug switch.
 */
module ErrorHandler {
  import opened Basics
  import opened Text

  const NetworkMessage: string := "Network error. Please check your connection."
  const NotFoundMessage: string := "Resource not found."
  const ServerMessage: string := "Server error. Please try again later."
  const BadRequestMessage: string := "Invalid request. Please check your input."
  /** The value of `defaultMessage` when the caller leaves it out. */
  const DefaultMessage: string := "An error occurred"

  /**
   * `handleApiError(error, defaultMessage)` on `error.message`; `defaultMessage`
   * is None when the argument is left out. The four patterns are tried in this
   * order and the first that occurs decides.
   */
  function HandleApiError(message: string, defaultMessage: Option<string>): (r: string)
    ensures Contains(message, "Failed to fetch") ==> r == NetworkMessage
    ensures !Contains(message, "Failed to fetch") && Contains(message, "404") ==> r == NotFoundMessage
    ensures (!Contains(message, "Failed to fetch") && !Contains(message, "404") && Contains(message, "500"))
              ==> r == ServerMessage
    ensures (!Contains(message, "Failed to fetch") && !Contains(message, "404") && !Contains(message, "500")
             && Contains(message, "400")) ==> r == BadRequestMessage
  {
    if Contains(message, "Failed to fetch") then NetworkMessage
    else if Contains(message, "404") then NotFoundMessage
    else if Contains(message, "500") then ServerMessage
    else if Contains(message, "400") then BadRequestMessage
    else match defaultMessage case None => DefaultMessage case Some(d) => d
  }

  /** None of the four patterns occurs in the message. */
  predicate Unclassified(message: string) {
    !Contains(message, "Failed to fetch") && !Contains(message, "404") && !Contains(message, "500") && !Contains(message, "400")
  }

  /** A message none of the patterns matches gets the caller's default, or "An error occurred" without one. */
  lemma HandleApiErrorDefault(message: string, defaultMessage: Option<string>)
    requires Unclassified(message)
    ensures HandleApiError(message, defaultMessage) == (match defaultMessage case None => DefaultMessage case Some(d) => d)
  {
  }

  /** The answer is one of the four fixed texts or the default. */
  lemma HandleApiErrorRange(message: string, defaultMessage: Option<string>)
    ensures var r := HandleApiError(message, defaultMessage);
      r in {NetworkMessage, NotFoundMessage, ServerMessage, BadRequestMessage}
      || r == (match defaultMessage case None => DefaultMessage case Some(d) => d)
  {
  }

  /** "Failed to fetch" anywhere in the message gives the network text, whatever status codes surround it. */
  lemma NetworkWins(before: string, after: string, defaultMessage: Option<string>)
    ensures HandleApiError(before + "Failed to fetch" + after, defaultMessage) == NetworkMessage
  {
    var m := before + "Failed to fetch" + after;
    assert m[|before|..|before| + 15] == "Failed to fetch";
    ContainsAt(m, "Failed to fetch", |before|);
  }

  /** A 404 wins over any 500 or 400 later in a message without "Failed to fetch". */
  lemma NotFoundBeforeServerError(before: string, middle: string, after: string, defaultMessage: Option<string>)
    requires !Contains(before + "404" + middle + "500" + after, "Failed to fetch")
    ensures HandleApiError(before + "404" + middle + "500" + after, defaultMessage) == NotFoundMessage
  {
    var m := before + "404" + middle + "500" + after;
    assert m[|before|..|before| + 3] == "404";
    ContainsAt(m, "404", |before|);
  }

  /**
   * `sub` does not occur in `p + t` when it does not occur in `t` and every
   * position of `p` where its first character appears starts a full-length
   * run of `p` that is not `sub`.
   */
  lemma NotContainsConcat(p: string, t: string, sub: string)
    requires |sub| > 0
    requires !Contains(t, sub)
    requires forall i :: 0 <= i < |p| && p[i] == sub[0] ==> i + |sub| <= |p| && p[i..i + |sub|] != sub
    ensures !Contains(p + t, sub)
  {
    var s := p + t;
    ContainsIff(t, sub);
    forall i | 0 <= i ensures !OccursAt(s, sub, i) {
      if i + |sub| <= |s| {
        if i >= |p| {
          assert s[i..i + |sub|] == t[i - |p|..i - |p| + |sub|];
          assert !OccursAt(t, sub, i - |p|);
        } else if p[i] != sub[0] {
          assert s[i..i + |sub|][0] == p[i];
        } else {
          assert s[i..i + |sub|] == p[i..i + |sub|];
        }
      }
    }
    ContainsIff(s, sub);
  }

  // -------------------------------------------------------------- safeFetch

  /** The message `safeFetch` throws for a response that is not ok: `HTTP ${status}: ${statusText}`. */
  function HttpErrorMessage(status: nat, statusText: string): string {
    "HTTP " + NatToDecimal(status) + ": " + statusText
  }

  /** The message `safeFetch` throws when `checkConnection` finds the browser offline. */
  const OfflineErrorMessage: string := "No internet connection"

  /**
   * A 404 response is reported as a missing resource, whatever its status text,
   * as long as that text does not itself say "Failed to fetch".
   */
  lemma HttpNotFound(statusText: string, defaultMessage: Option<string>)
    requires !Contains(statusText, "Failed to fetch")
    ensures HandleApiError(HttpErrorMessage(404, statusText), defaultMessage) == NotFoundMessage
  {
    var p := "HTTP 404: ";
    assert NatToDecimal(404) == "404";
    assert HttpErrorMessage(404, statusText) == p + statusText;
    NotContainsConcat(p, statusText, "Failed to fetch");
    assert (p + statusText)[5..8] == "404";
    ContainsAt(p + statusText, "404", 5);
  }

  /** A 500 response is reported as a server error, when its status text holds neither earlier pattern. */
  lemma HttpServerError(statusText: string, defaultMessage: Option<string>)
    requires !Contains(statusText, "Failed to fetch") && !Contains(statusText, "404")
    ensures HandleApiError(HttpErrorMessage(500, statusText), defaultMessage) == ServerMessage
  {
    var p := "HTTP 500: ";
    assert NatToDecimal(500) == "500";
    assert HttpErrorMessage(500, statusText) == p + statusText;
    NotContainsConcat(p, statusText, "Failed to fetch");
    NotContainsConcat(p, statusText, "404");
    assert (p + statusText)[5..8] == "500";
    ContainsAt(p + statusText, "500", 5);
  }

  /** A 400 response is reported as an invalid request, when its status text holds none of the earlier patterns. */
  lemma HttpBadRequest(statusText: string, defaultMessage: Option<string>)
    requires !Contains(statusText, "Failed to fetch") && !Contains(statusText, "404") && !Contains(statusText, "500")
    ensures HandleApiError(HttpErrorMessage(400, statusText), defaultMessage) == BadRequestMessage
  {
    var p := "HTTP 400: ";
    assert NatToDecimal(400) == "400";
    assert HttpErrorMessage(400, statusText) == p + statusText;
    NotContainsConcat(p, statusText, "Failed to fetch");
    assert p[5..8] == "400";
    NotContainsConcat(p, statusText, "404");
    NotContainsConcat(p, statusText, "500");
    assert (p + statusText)[5..8] == "400";
    ContainsAt(p + statusText, "400", 5);
  }

  /** The offline message matches no pattern, so the user sees the default. */
  lemma OfflineIsDefault(defaultMessage: Option<string>)
    ensures HandleApiError(OfflineErrorMessage, defaultMessage)
            == (match defaultMessage case None => DefaultMessage case Some(d) => d)
  {
    var m := OfflineErrorMessage;
    assert forall i :: 0 <= i < |m| ==> m[i] != 'F' && m[i] != '4' && m[i] != '5';
    assert m + "" == m;
    assert Unclassified(m) by {
      NotContainsConcat(m, "", "Failed to fetch");
      NotContainsConcat(m, "", "404");
      NotContainsConcat(m, "", "500");
      NotContainsConcat(m, "", "400");
    }
    HandleApiErrorDefault(m, defaultMessage);
  }

  // ------------------------------------------------------------ debug mode

  /** The global `debugMode` flag. */
  class DebugSwitch {
    var debugMode: bool

    /** `let debugMode = false`. */
    constructor ()
      ensures !debugMode
    {
      debugMode := false;
    }

    /** `toggleDebugMode()`. */
    method Toggle()
      modifies this
      ensures debugMode == !old(debugMode)
    {
      debugMode := !debugMode;
    }
  }

  /** Two toggles in a row restore the flag. */
  method ToggleTwice(d: DebugSwitch)
    modifies d
    ensures d.debugMode == old(d.debugMode)
  {
    d.Toggle();
    d.Toggle();
  }
}
