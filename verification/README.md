# OTP-gated funds transfer page, modelled in Dafny

This project models the transfer page of a small banking front end
(`app/transfer/page.tsx`). It does not model the markup. It models the
workflow behind it:

- requesting a one-time password (OTP) from the banking service;
- checking the entered OTP and submitting a transfer;
- adding a beneficiary;
- loading the beneficiary list when the page mounts.

The component's `useState` cells form one immutable record, `Page.PageState`.
Each handler is a pure function of the current state and an abstract reply
from the service. A reply is an answer carrying the parsed JSON payload, a
refusal the service reports, or a transport error. Each handler returns a
`Page.Step`:

- `Local(after)` when no request is sent;
- `Remote(request, during, after)` otherwise. `request` is the request sent,
  with its body. `during` is the state rendered while the reply is awaited.
  `after` is the state once the reply or the error has been handled.

Handler bodies are the setter calls the source makes, applied in order
(`Page.Apply`). Their contracts state the net effect on the whole record, so
every contract also states that nothing else changes.

Modules:

- `JsString` (`js_string.dfy`): `String.prototype.trim` over a whitespace
  predicate. The predicate holds the characters of the WhiteSpace and
  LineTerminator productions of ECMA-262. The lemmas use only the fact that
  it is a predicate on characters.
- `Page` (`page_state.dfy`): the state record, the setters, requests and steps.
- `Handlers` (`handlers.dfy`): `sendOtp`, `transferFunds`, `addBeneficiary`,
  the beneficiary-load effect, and the `onChange` input handlers.
- `Session` (`session.dfy`): sequences of events, and the properties that
  hold across them.

The model follows the code as written, including three behaviours worth
knowing about:

- `serverOtp` starts as `''` (app/transfer/page.tsx:22), and line 72 compares
  trimmed strings without asking whether an OTP was ever issued. So a
  non-empty, all-white-space OTP entry passes the check before any OTP is
  requested (`Session.BlankOtpPassesWithNoneIssued`, `Session.BlankOtpExample`).
- A successful transfer clears the account, amount and OTP inputs
  (app/transfer/page.tsx:87-90) but never `serverOtp`. So the same OTP passes
  again (`Session.OtpReusableAfterTransfer`).
- The code never checks the HTTP status. An error status with a JSON body is
  handled as an answer: for `sendOtp` it stores `String(data.otp)`. Only an
  exception is a transport error. That covers no connection, a body that is
  not JSON, and a JSON `null` body, which throws when the handler reads
  `data.otp`, `data.message` or `data.success` (app/transfer/page.tsx:54, 87,
  112).

## Model

| member | source | states |
|---|---|---|
| JsString.Trim | app/transfer/page.tsx:72 | `s.trim()`, the text between the leading and the trailing white space. It has no contract of its own: `TrimDecomposes` and `TrimIsTheCleanCore` characterise it completely |
| JsString.SkipLeading | app/transfer/page.tsx:72 | the first position at or after `i` that is not white space: everything before it (from `i`) is white space, and the character there, if any, is not |
| JsString.SkipTrailing | app/transfer/page.tsx:72 | the end of a range once trailing white space is dropped: everything from there to the old end is white space, and the character just before it, if inside the range, is not |
| JsString.TrimDecomposes | app/transfer/page.tsx:72 | `s` is leading white space, then `trim(s)`, then trailing white space; `trim(s)` neither starts nor ends with white space |
| JsString.TrimIsTheCleanCore | app/transfer/page.tsx:72 | uniqueness: any split of `s` into white space, a core clean at both ends, and white space has `trim(s)` as its core |
| JsString.TrimEmptyIffBlank | app/transfer/page.tsx:72 | `trim(s)` is empty exactly when every character of `s` is white space (both directions) |
| JsString.TrimIdempotent | app/transfer/page.tsx:72 | trimming an already trimmed string changes nothing |
| JsString.PaddingIsInvisible | app/transfer/page.tsx:72 | white space added around an OTP entry does not change its trimmed form, so it does not change whether the entry matches |
| Page.Init | app/transfer/page.tsx:19-28 | the state on first render: every text cell `''`, `loading` false, no beneficiaries; in particular the held OTP is `''`. It has no contract; `Session.BlankOtpPassesWithNoneIssued` and `Session.BlankOtpExample` depend on these values |
| Handlers.SendOtp | app/transfer/page.tsx:46-64 | always sends the OTP request; `loading` is true while it is in flight and false afterwards; an answer replaces the held OTP with the received value and reports "OTP sent successfully!"; an error keeps the held OTP and reports "Failed to send OTP"; no other cell changes |
| Handlers.TransferFunds | app/transfer/page.tsx:66-97 | a request is sent exactly when account, amount and OTP are all non-empty and the trimmed OTP equals the trimmed held OTP. The request carries exactly the current account, amount and OTP. An empty field gives only "Please fill all fields", and that check comes before the OTP check. A mismatch gives only "Invalid OTP". An answer clears the three inputs and shows the service message, or "Transfer completed" when there is none. An error shows "Transfer failed" and keeps the inputs. `loading` is true in flight and false after; the held OTP never changes |
| Handlers.AddBeneficiary | app/transfer/page.tsx:99-124 | a request is sent exactly when name and account are both non-empty, and it carries them; an empty input gives only "Please enter name and account number"; on success the list becomes the old list with exactly the returned beneficiary appended and both inputs are cleared; a refusal shows the service message or "Failed to add beneficiary", an error "Add beneficiary failed", both with the list and inputs untouched; `loading` is never touched |
| Handlers.LoadBeneficiaries | app/transfer/page.tsx:30-36 | a received list replaces the local list wholesale and nothing else changes; a transport error (the request or `res.json()` throws) changes nothing |
| Handlers.Edit | app/transfer/page.tsx:133-194 | an `onChange` handler stores the new text in its own input cell and changes nothing else |
| Session.DispatchHeldOtp | app/transfer/page.tsx:46-124 | of all the page's actions, only a successful OTP request writes the held OTP |
| Session.HeldOtpIsLastIssued | app/transfer/page.tsx:22-64 | after any sequence of events, the held OTP is the last one the service issued, or the starting value if it issued none; this is checked against a definition that reads only the events |
| Session.NothingIssuedNothingChanges | app/transfer/page.tsx:46-124 | over any events in which the service issues no OTP, the page's held OTP ends as it started: only the success branch of `sendOtp` (line 55) writes it |
| Session.SubmittedOtpMatchesLastIssued | app/transfer/page.tsx:66-83 | after any history, a transfer request is sent only with all three inputs non-empty and an OTP whose trimmed form equals that of the last issued OTP (or of the starting value), and it carries exactly the current inputs |
| Session.BlankOtpPassesWithNoneIssued | app/transfer/page.tsx:67-72 | from a fresh page (line 22 starts the held OTP as `''`), in any session where no OTP was issued, the held OTP is still `''`, and a filled form whose OTP entry is all white space is submitted |
| Session.BlankOtpExample | app/transfer/page.tsx:67-83 | once the list has loaded with one payee, selecting that payee's account "1234567890", amount "500" and OTP " " produces a transfer request with exactly those values, although no OTP was requested |
| Session.OtpReusableAfterTransfer | app/transfer/page.tsx:85-90 | after a successful transfer the held OTP is unchanged and the OTP input is cleared; typing the same account, amount and OTP again sends a second request |
| Session.NewOtpRetiresOld | app/transfer/page.tsx:54-76 | once a new OTP has been issued, an entry that matched the old OTP but not the new one is refused without a request |
| Session.FailedSendKeepsChallenge | app/transfer/page.tsx:58-63 | a failed OTP request leaves the held OTP, so every form is accepted or refused exactly as before |
| Session.EmptyFieldCheckWins | app/transfer/page.tsx:67-76 | with an empty input, the message is "Please fill all fields" even when the OTP also mismatches |
| Session.ListGrowsOnlyByServerEntries | app/transfer/page.tsx:112-113 | in any session without a list reload, the beneficiary list keeps its old entries as a prefix, and every new entry is a beneficiary the service returned on a successful add |
| Session.LoadIdempotent | app/transfer/page.tsx:34 | loading the same list twice yields the same state as loading it once |
| Session.LateListDropsAppended | app/transfer/page.tsx:34 | a list that arrives after a successful add replaces the list wholesale, dropping the appended entry unless the service's list contains it |
| Session.MatchingOtpScenario | app/transfer/page.tsx:46-97 | with the list loaded and a listed account selected, the service issues "482913" and the user enters it; the transfer is sent with the form's values, shows "Transfer completed" and clears the inputs |
| Session.MismatchedOtpScenario | app/transfer/page.tsx:72-76 | with the list loaded and a listed account selected, the service issues "482913" and the user enters "482914"; no request is sent and only the message changes, to "Invalid OTP" |
| Session.AddBeneficiaryScenario | app/transfer/page.tsx:112-116 | adding "Alex" / "1234567890", which the service stores with id 9; the list gains exactly that entry and the inputs are cleared |

## Left out

- The transaction list and its effect (app/transfer/page.tsx:26, 38-44). The refetch is keyed on changes to `message` and depends on React's change detection; the list is only displayed.
- `fetch`, URLs, headers, JSON encoding and parsing, and `console` logging. These are I/O. They appear only as the abstract reply each handler receives and the `Request` it sends.
- `String(data.otp)` is taken as given: the reply carries the OTP as an opaque string.
- A transfer or refusal message that is missing, null or empty is the empty string. A truthy non-string `message` is not modelled.
- A `success` answer to an add with no `beneficiary` object in it (the source would append `undefined`) is not modelled: the reply always carries a beneficiary.
- Handlers.LoadBeneficiaries: a JSON answer that is not an array of beneficiaries (an error-status object such as `{"message": ...}`, or `null`) is not modelled. Line 34 would store it as is, and the page would then throw when it renders the list (line 162) or on a later add (line 113). `ListReply` only carries a list of beneficiaries.
- Handlers.Edit: the account `<select>` (app/transfer/page.tsx:156-167) only yields `""` or the account of a listed beneficiary, and the `type="number"` amount input (app/transfer/page.tsx:170-176) only yields `""` or a numeric string. Both are modelled as free text, so the general lemmas hold for more states than the page can reach.
- The mount-time list request is sent once (app/transfer/page.tsx:31-36). A session may deliver its reply more than once, which over-approximates that single request.
- The `disabled={loading}` button gating and overlapping requests. Each handler runs to completion before the next event. The mount-time list load is the one reply that may arrive between other events.
- All rendering, including date formatting and the currency sign (app/transfer/page.tsx:126-233).
- JavaScript strings are UTF-16 code units. The model uses Unicode scalar values. Every character `trim` strips lies in the Basic Multilingual Plane, so the two agree on what is stripped.
