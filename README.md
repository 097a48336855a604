# Campus event registration — a Dafny model

This project models the core of a campus event management application, built on its REST server. That core is the registration ledger: two SQLite tables, `events` and `registrations`, and the handlers that change them:

- **create-event:** required fields, the `max_participants` rule with its default of 100, and time normalisation.
- **update-event:** a partial update in which the last assignment wins.
- **delete-event:** deletes the event, and `on delete cascade` removes its registrations.
- **register:** an ordered chain of checks, then an insert.
- **check-in:** a conditional update that reports "not found" when it changes no row.
- **list-by-event**
- **analytics:** per-event counts and a rounded attendance rate.

The project also models the small pure helpers of the two browser front-ends:

- the 12-hour clock text;
- the status and event-type labels;
- the attendance class;
- the event and registration filters;
- the "already registered" test;
- the registration form check;
- the profile counts;
- the editable profile.

From the shared error script it models the classification of API error messages and the debug switch.

The modules follow the program:

| module | contents |
|---|---|
| `Text` | the JavaScript string operations the code relies on: `trim`, `toLowerCase`, `includes`, `split(':')` (through an `IndexOf` helper) and `parseInt` |
| `Seqs` | the order-preserving filter behind both `Array.filter` and `select … where` |
| `Validation` | the input rules of the handlers |
| `Schema` | the rows and the queries |
| `Ledger` | the handlers as functions of the two tables, the invariant `Consistent` the tables keep, and `WithinCapacity` |
| `Server` | the class `Store`, whose fields are the two tables and their AUTOINCREMENT counters, with one method per handler |
| `Display`, `AdminPortal`, `StudentApp`, `ErrorHandler` | the front-end and error-script parts |

Where the design intent and the code differ, the model follows the code. Lemmas state each difference:

- A second registration with the same address in different letter case is admitted (`Ledger.RegisterAgainMixedCase`).
- A repeated check-in succeeds again and re-stamps the time (`Ledger.CheckInAgain`).
- An update is not validated, so it can lower `max_participants` below the current number of registrations (`Ledger.UpdateBreaksCapacity`).

The clock is a parameter (`now`) of every operation that writes a timestamp.

## Model

| member | source | states |
|---|---|---|
| Text.TrimStartFacts | server.js:121-128 | the leading part `trimStart` drops is white space, and what it keeps is a suffix that does not start with white space |
| Text.TrimEndFacts | server.js:121-128 | the trailing part `trimEnd` drops is white space, and what it keeps is a prefix that does not end with white space |
| Text.TrimFacts | server.js:121-128 | `trim` keeps one contiguous run of the text, drops only white space on either side, and the run neither starts nor ends with white space |
| Text.TrimIdempotent | student-app/script.js:224-226 | trimming twice is trimming once, so the server's trim of an already-trimmed form field changes nothing |
| Text.TrimEmpty | student-app/script.js:230 | the trim is empty exactly when the text is all white space |
| Text.LowerFacts | server.js:203 | `toLowerCase` maps each character on its own, is idempotent, and keeps white space, '@' and '.' at their positions |
| Text.ContainsIff | error-handler.js:20-27 | `includes` holds exactly when the substring occurs at some position |
| Text.DecimalRoundTrip | admin-portal/script.js:233-245 | reading back the decimal text of a number gives the number |
| Text.ParseIntDecimalThen | admin-portal/script.js:245 | `parseInt` of a number's decimal text, followed by a non-digit or nothing, gives that number |
| Validation.TrimmedOrNull | server.js:122-128 | an optional text column is NULL exactly when the field is falsy, and is otherwise the trimmed field |
| Validation.CapacityFor | server.js:103-127 | a truthy capacity that is not a number or is below 1 is refused; an absent or 0 capacity becomes 100; a capacity of at least 1 is kept; a stored capacity is always at least 1 |
| Validation.NormalizeTime | server.js:108-114 | `HH:MM` gains `:00`; `HH:MM:SS` is kept; every other shape is refused; an accepted time has the shape `HH:MM:SS` |
| Validation.NormalizeTimeIdempotent | server.js:108-114 | a normalised time normalises to itself |
| Validation.NormalizeTimeNoRangeCheck | server.js:109-112 | digit ranges are not checked: any two digits, a colon and two digits are accepted, "99:99" included |
| Validation.EmailShapeIff | server.js:180-181 | the address test accepts exactly the texts that `^[^\s@]+@[^\s@]+\.[^\s@]+$` matches |
| Validation.EmailShapeTrim | server.js:203 | an address of the accepted shape is its own trim |
| Validation.EmailShapeLower | server.js:203 | lower-casing neither creates nor destroys a match of the address pattern |
| Schema.EventIndexFound | server.js:192-195 | the id lookup finds a row exactly when some row has that id |
| Schema.FindEvent | server.js:192-195 | `.get()` on the id query returns a row exactly when one exists, and the row has that id |
| Schema.FindEventUnique | server.js:19 | with AUTOINCREMENT ids in increasing order, looking up the id of any row finds that very row |
| Schema.RegistrationsFor | server.js:196 | the event's registration rows: every row of that event and nothing else |
| Schema.CheckedInFor | server.js:260 | the event's rows whose status is `checked_in`, never more than all of the event's rows |
| Schema.Matching | server.js:186 | the rows with exactly this event id and this address, compared case-sensitively |
| Schema.RegistrationsForAppend | server.js:200-203 | an inserted row joins the query result of its own event only |
| Schema.EventsExcept | server.js:162 | the delete keeps every event with another id and no event with this id |
| Schema.RegistrationsExcept | server.js:34 | the cascade keeps every registration of another event and none of the deleted one |
| Schema.RegistrationsForAfterCascade | server.js:34 | the cascade leaves the registrations of every other event exactly as they were |
| Schema.DeleteKeepsIdOrder | server.js:162 | deleting rows keeps the remaining ids in increasing order |
| Ledger.FreshEventUnused | server.js:19-34 | an id that AUTOINCREMENT has not yet handed out has no registrations |
| Ledger.CreateEventChecksInOrder | server.js:99-114 | create-event fails with missing fields, then with a bad capacity, then with a bad time, each exactly when the earlier checks pass and this one fails; otherwise it succeeds |
| Ledger.CreatedRow | server.js:116-130 | the created row has the next id, trimmed title and location, trimmed-or-NULL description and image URL, the normalised time (`HH:MM` gains `:00`), a capacity of at least 1 and both timestamps `now` |
| Ledger.NewEventDefaultCapacity | server.js:127 | an absent or 0 capacity is stored as 100 |
| Ledger.CreateKeepsConsistent | server.js:116-130 | appending the created row keeps the invariant and every capacity bound |
| Ledger.Assign | server.js:144-151 | one `column = ?` sets that column to the value as sent and leaves every other column unchanged |
| Ledger.ApplyAll | server.js:144-151 | the update never changes the id or `created_at` |
| Ledger.LastValue | server.js:144-149 | a column has no assignment exactly when no key of the body names it; otherwise the value is the one of the rightmost key that names it |
| Ledger.ApplyAllFields | server.js:144-151 | after the update, a column holds the value of the rightmost assignment to it, and a column not named keeps its old value |
| Ledger.UpdatedRow | server.js:148-151 | the updated row keeps id and `created_at`, sets `updated_at` to `now`, and has the assigned columns |
| Ledger.UpdateKeepsConsistent | server.js:149-151 | the update keeps every id, so it keeps the invariant |
| Ledger.UpdateBreaksCapacity | server.js:138-157 | there is a consistent, within-capacity state that one update of `max_participants` takes out of capacity |
| Ledger.DeleteKeepsConsistent | server.js:159-167 | delete with cascade keeps the invariant and every remaining event's capacity bound |
| Ledger.DeleteAbsent | server.js:162 | deleting an id no event has changes neither table |
| Ledger.RegisterChecksInOrder | server.js:175-199 | register reports missing fields, then a bad address, then a duplicate of the same event and the same raw address, then an unknown event, then a full event, each exactly when every earlier check passes; otherwise it admits |
| Ledger.RegisteredRow | server.js:200-204 | the new row has the next id and the request's event; its name is trimmed, its address trimmed and lower-cased, its phone trimmed or NULL; its status is `registered`, it has no check-in time, and both timestamps are `now` |
| Ledger.NewRegistrationStored | server.js:181-203 | the stored address is the lower-cased address as sent; it is still of the accepted shape; the row satisfies the row invariant |
| Ledger.RegisterKeepsConsistent | server.js:200-204 | appending the registered row keeps the invariant |
| Ledger.RegisterWithinCapacity | server.js:196-199 | register admits only below capacity, so it never takes an event past `max_participants` |
| Ledger.MixedCaseMatchesNothing | server.js:186-203 | stored addresses are lower-case, so an address with an upper-case letter matches no row |
| Ledger.RegisterAgainLowerCase | server.js:186-189 | repeating a successful request with a lower-case address is refused as a duplicate |
| Ledger.RegisterAgainMixedCase | server.js:186-203 | repeating a successful request with a mixed-case address is admitted again while the event has room |
| Ledger.CheckInRow | server.js:240-243 | a matching row becomes `checked_in` with check-in time and `updated_at` set to `now`; a row that does not match is unchanged |
| Ledger.CheckInRows | server.js:240-243 | the statement maps every row through the one-row update, keeping the table's length and order |
| Ledger.CheckInMatchesSame | server.js:240-247 | the rows matching the pair after the update are as many as before |
| Ledger.CheckInResult | server.js:244-248 | "not found" exactly when no row has the pair; otherwise a row of the updated table with that pair, `checked_in`, stamped `now` |
| Ledger.CheckInKeepsConsistent | server.js:240-243 | check-in keeps the invariant and every capacity bound |
| Ledger.CheckInKeepsCounts | server.js:240-243 | check-in keeps every event's number of registrations and leaves other events' rows as they were |
| Ledger.CheckInAgain | server.js:240-248 | a pair that checked in once checks in again, with the new time |
| Ledger.CheckInMixedCaseNotFound | server.js:242 | an address with an upper-case letter is never found by check-in |
| Ledger.AttendanceTenths | server.js:267 | the rate in tenths of a percent is 0 without registrations; otherwise it is within half a tenth of `checkedIn / registered * 1000`, and in 0..1000 when `checkedIn <= registered` |
| Ledger.StatsFor | server.js:258-268 | an analytics entry: the event's id, title and capacity; `registered` counts all of its rows and `checked_in` those checked in, so `checked_in <= registered`; the rate is in 0..100% and 0 without registrations |
| Ledger.StatsWithinCapacity | server.js:259 | within capacity, no entry reports more registrations than its capacity |
| Ledger.CheckInKeepsStats | server.js:258-260 | after a check-in an entry keeps its `registered` count, and every other event's entry is unchanged |
| Server.Store.constructor | server.js:17-42 | a fresh database: both tables empty, both counters at 1 |
| Server.Store.CreateEvent | server.js:94-136 | the answer is the create-event rule; on success exactly one row is appended and the counter advances; on failure nothing changes; the registrations are untouched |
| Server.Store.UpdateEvent | server.js:138-157 | for an existing id, the row at that position becomes the updated row, read back; for an absent id, no row comes back and nothing changes |
| Server.Store.DeleteEvent | server.js:159-167 | the tables become the surviving events and the registrations of the other events |
| Server.Store.Register | server.js:170-209 | the answer is the register rule; on success exactly one row is appended and the counter advances; on failure nothing changes; events are untouched |
| Server.Store.ListByEvent | server.js:211-219 | exactly the event's registrations |
| Server.Store.CheckIn | server.js:237-252 | the registrations become the check-in update of the pair; the answer is the check-in result; on failure nothing changes |
| Server.Store.Analytics | server.js:255-274 | one entry per event, in table order, each the entry of that event |
| Display.JsRem12 | admin-portal/script.js:333 | JavaScript's `n % 12` keeps the sign of `n`, and `n` minus it is a multiple of 12 |
| Display.FaceHourRange | admin-portal/script.js:329-335 | for an hour that reads as NaN or as a non-negative number, the shown hour is in 1..12, and PM exactly when the number read is at least 12 |
| Display.FaceTwentyFourHour | student-app/script.js:426-432 | hour 0 shows as 12 AM, 1 to 11 as themselves AM, 12 as 12 PM, and 13 to 23 as the hour less 12 PM |
| Display.FaceNegativeHour | admin-portal/script.js:331-333 | a negative hour is shown as 12 or as a negative number, AM |
| Display.FaceOfStoredTime | student-app/script.js:427-431 | on a stored `HH:MM:SS` time, the hour is read from the first two digits, the minutes are copied verbatim, and the shown hour is in 1..12 |
| Display.FormatTimeReadBack | admin-portal/script.js:334 | `parseInt` of the shown text gives back the shown hour |
| Display.Label | admin-portal/script.js:356 | the result is the key itself or one of the labels |
| Display.FormatStatus | admin-portal/script.js:359-366 | a status is shown as itself or as one of the status labels |
| Display.FormatEventType | student-app/script.js:446-454 | an event type is shown as itself or as one of the type labels |
| Display.FormatStatusOfStored | student-app/script.js:456-463 | each of the three stored statuses is shown with its own label |
| Display.FormatStatusInjective | admin-portal/script.js:360-364 | different statuses get different labels |
| Display.FormatKnownKeys | admin-portal/script.js:349-366 | every known key is shown with its fixed label |
| Display.LabelPassThrough | admin-portal/script.js:356 | a text that is not a key is shown unchanged |
| Display.FormatIdempotent | student-app/script.js:446-463 | no label is itself a key, so formatting a formatted text changes nothing |
| AdminPortal.AttendanceClassOf | admin-portal/script.js:313-317 | high exactly from 80%, medium exactly from 60% to below 80%, and low exactly below 60% |
| AdminPortal.ClassNameOf | admin-portal/script.js:313-317 | the returned text is 'high' exactly from 80%, 'medium' exactly from 60% to below 80%, and 'low' exactly below 60% |
| AdminPortal.AttendanceClassMonotone | admin-portal/script.js:313-317 | a higher rate never gets a lower class |
| AdminPortal.TenthsAtLeast | server.js:267 | the rounded rate reaches `k` tenths exactly when the unrounded rate reaches `k` less half a tenth |
| AdminPortal.AttendanceClassOfStats | admin-portal/script.js:305 | an analytics entry is high exactly when `checkedIn / registered >= 0.7995`, low exactly when it is below `0.5995`, and low without registrations |
| AdminPortal.FilterRegistrations | admin-portal/script.js:242-249 | the empty choice shows all rows; a choice that reads as NaN shows none; any other choice shows exactly that event's rows, in order |
| AdminPortal.FilterNaN | admin-portal/script.js:245 | no row's `event_id` is strictly equal to NaN |
| AdminPortal.FilterByOption | admin-portal/script.js:233-249 | choosing the option of an event shows exactly what the server lists for that event |
| AdminPortal.FilterRegistrationsConcat | admin-portal/script.js:244-246 | the filter keeps the table order |
| AdminPortal.FilterRegistrationsIdempotent | admin-portal/script.js:244-246 | filtering the filtered rows again changes nothing |
| StudentApp.FilterEvents | student-app/script.js:103-110 | the empty filter shows the events unchanged; any other filter shows exactly the events of that type |
| StudentApp.FilterEventsConcat | student-app/script.js:105-107 | the filter keeps the events' order |
| StudentApp.FilterEventsIdempotent | student-app/script.js:105-107 | filtering twice by the same type is filtering once |
| StudentApp.FilterEventsAllOfKind | student-app/script.js:105-107 | when every event has the chosen type, nothing is hidden |
| StudentApp.IsRegistered | student-app/script.js:128 | holds exactly when some entry of `userRegistrations` has that event id |
| StudentApp.IsRegisteredIffListed | student-app/script.js:128 | "already registered" holds exactly when the event's list of rows is not empty |
| StudentApp.OwnRegistrationShowsRegistered | student-app/script.js:128 | one of the user's own rows for an event makes it show as registered |
| StudentApp.IsRegisteredIgnoresEmail | student-app/script.js:128 | the test does not look at the address: another student's row also makes the event show as registered |
| StudentApp.MyRegistrations | student-app/script.js:265 | exactly the entries whose address equals the user's |
| StudentApp.Counts | student-app/script.js:396-398 | the total is the number of the user's registrations, and the attended count never exceeds it |
| StudentApp.CountsAttended | student-app/script.js:396-398 | the attended count is the number of entries with the user's address and status `checked_in` |
| StudentApp.MixedCaseProfileSeesNothing | student-app/script.js:265 | a profile address with an upper-case letter finds none of the rows the server stores, so both counts are 0 |
| StudentApp.EventIdField | student-app/script.js:223 | the sent `event_id` is the number `parseInt` reads, or null for NaN |
| StudentApp.SubmitRegistration | student-app/script.js:218-233 | nothing is sent exactly when the trimmed name or the trimmed address is empty; otherwise the body carries the three trimmed fields |
| StudentApp.SubmittedFieldsPresent | student-app/script.js:222-233 | a sent body always has a name and an address, so the server's missing-field check fails only for an event id of NaN or 0 |
| StudentApp.SubmitThenRegister | student-app/script.js:222-241 | for an accepted form, the server stores the form's trimmed name, its trimmed and lower-cased address, the event id read, and a phone that is NULL exactly when the trimmed phone is empty |
| StudentApp.Profile.constructor | student-app/script.js:6-10 | the built-in user John Doe |
| StudentApp.Profile.Edit | student-app/script.js:401-414 | an answer that is blank after trimming keeps the old name or phone; any other answer replaces it, trimmed; the address never changes; name and phone stay non-empty |
| StudentApp.Profile.Stats | student-app/script.js:390-399 | the profile's two numbers for this user's address, attended never above total |
| ErrorHandler.HandleApiError | error-handler.js:17-31 | "Failed to fetch" gives the network text; otherwise "404" gives not found; otherwise "500" gives server error; otherwise "400" gives invalid request |
| ErrorHandler.HandleApiErrorDefault | error-handler.js:17-30 | a message that matches no pattern gets the caller's default, or "An error occurred" without one |
| ErrorHandler.HandleApiErrorRange | error-handler.js:17-31 | the answer is one of the four fixed texts or the default |
| ErrorHandler.NetworkWins | error-handler.js:20-21 | "Failed to fetch" anywhere gives the network text, whatever status codes surround it |
| ErrorHandler.NotFoundBeforeServerError | error-handler.js:22-25 | a message with "404" before "500", and without "Failed to fetch", is "Resource not found." |
| ErrorHandler.NotContainsConcat | error-handler.js:20-27 | a pattern absent from the tail, that cannot start in the head, is absent from the whole message |
| ErrorHandler.HttpNotFound | error-handler.js:72-73 | `safeFetch`'s message for a 404 response is classified as not found |
| ErrorHandler.HttpServerError | error-handler.js:72-73 | a 500 response is classified as a server error when its status text holds neither earlier pattern |
| ErrorHandler.HttpBadRequest | error-handler.js:72-73 | a 400 response is classified as an invalid request when its status text holds no earlier pattern |
| ErrorHandler.OfflineIsDefault | error-handler.js:61-62 | the offline message matches no pattern, so the user sees the default |
| ErrorHandler.DebugSwitch.constructor | error-handler.js:52 | debug mode starts off |
| ErrorHandler.DebugSwitch.Toggle | error-handler.js:54-57 | the flag is negated |
| ErrorHandler.ToggleTwice | error-handler.js:54-57 | two toggles in a row restore the flag |

## Left out

- HTTP plumbing is not modelled:
  - routing, JSON parsing and serialisation;
  - status codes (the failures are the `Failure` values);
  - CORS and static serving;
  - the health endpoint and start-up;
  - schema creation and file system setup.
- The 500 answers for a thrown exception are not modelled. With typed requests, none of the modelled handlers throws.
- `GET /api/events` is not modelled. `GET /api/registrations` is not modelled either: it refers to an undefined `supabase` object and always fails.
- Because `GET /api/registrations` always fails, the admin portal's `currentRegistrations` never holds rows from the server. `AdminPortal.FilterRegistrations` is stated over a sequence of rows as the code intends.
- The student app's `userRegistrations` is filled only by its built-in sample data, and never from the server. The student-app functions take it as a parameter.
- Server.Store.ListByEvent: returns the rows in table order. The `order by datetime(created_at) desc` is not modelled, because `created_at` comes from the clock parameter.
- Ledger.AttendanceTenths: rounds exactly (half a tenth upwards). `Number(x.toFixed(1))` works on binary floating point, which can round a value within rounding error of a half differently.
- Validation.CapacityFor: covers only an absent value, an integer, or a value for which `isNaN` holds. Two other kinds of input are not modelled, in create-event and in update-event alike:
  - A fractional number. `2.5` passes the guard, is stored as 2.5, and makes the capacity check admit a third registrant. `0.5` is refused.
  - A numeric string. `"0"` is truthy and below 1, so it is refused, while the number 0 becomes 100. `"5"` is accepted.
- Ledger.Assign: a body key that is not one of the eight event columns is not modelled. Such keys cover an `id`, an unknown name, or SQL text in a key. Values of another JSON type are not modelled either.
- Ledger.Assign: a null sent for a NOT NULL column is not modelled; SQLite would reject the whole update. In the model, those columns take only text.
- The register request's `event_id` is an integer or null. A string `event_id`, which SQLite would coerce, is not modelled.
- The model's `parseInt` does not read the `0x` hexadecimal prefix, which `parseInt` without a radix accepts. It never occurs in the option values the portal generates.
- The model's `toLowerCase` changes only 'A' to 'Z'. The other Unicode case mappings of `toLowerCase` are not modelled.
- Display.Label: the `statuses` and `types` objects also answer `toString`, `constructor` and the other inherited `Object.prototype` keys, which are not modelled.
- `editProfile` is defined twice in the student app (lines 203-216 and 401-414) with the same body; the later definition is the one in effect and is the one cited.
- `formatDate` and `formatDateTime` are not modelled: they depend on the host's date library and locale.
- Everything of the DOM is not modelled: rendering, modals, prompts, toasts, `fetch`, `setTimeout`, the service worker and the window listeners. `checkConnection` and `safeFetch` contribute only the texts of the errors they throw. The debug logging is not modelled.
- Concurrency is not modelled. Each handler runs its queries and its write with no `await` in between, so each is one atomic method of `Store`.
