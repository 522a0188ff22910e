# lazysmtp core, modelled in Dafny

lazysmtp is a local SMTP catcher for development. It accepts every message
sent to it and stores the message in a SQLite table. A terminal viewer lists
the stored messages, newest first.

This project models the parts of it that decide what gets stored and what the
viewer state becomes:

- **Capture session** (`capture_session.dfy`, module `Capture`): the MAIL, RCPT,
  DATA, RSET and QUIT callbacks. The model covers the append-only body, the
  record DATA builds, and the non-blocking announcement on a 100-slot arrival
  channel.
- **Message identity and metadata** (`smtp_helpers.dfy`, module `Smtp`): the
  8-character identifiers and subject extraction. Extraction finds the first
  line that starts with "subject:" in any ASCII case and trims its value.
- **Go string helpers** (`text.dfy`, module `Text`): the subset of the `strings`
  package that extraction relies on: `Split`, `SplitN(…, 2)`, `ToLower`,
  `HasPrefix` and `TrimSpace`. `TrimSpace` is pinned down by a characterisation
  with a unique solution. `Split` comes with both round trips through `Join`.
  `SplitN` and `HasPrefix` are described by how they decompose the text.
  `ToLower` is byte-wise ASCII folding, with its concatenation and
  idempotence laws.
- **Message store** (`database.dfy`, module `Database`): the `emails` table as
  its rows in insertion order. `id` is the primary key. `created_at` is a clock
  reading passed in. The model covers insert, fetch, delete, delete-all, count
  and the newest-first listing.
- **Listener switch** (`smtp_server.dfy`, module `Server`): Start, Stop, Toggle,
  IsRunning and Port.
- **Viewer helpers** (`display.dfy`, module `Display`): `truncateString`, the
  30-byte list cells and the initial viewer state.
- **Viewer state machine** (`tui.dfy`, module `Tui`): the handlers for j, k, d,
  Esc, x, q/Ctrl+C, m and the popup's j/k. It also covers runs of key presses,
  captured messages and list reloads, which keep the viewer invariants.

Randomness, the clock, the arrival queue and the store are explicit inputs
and outputs. `generateID`'s `rand.Intn(36)` results become a sequence of
draws. The `time.Now()` reading that DATA formats becomes a date string passed
in. The `created_at` column, which SQLite fills from its own clock
(`strftime('%s','now')`), becomes an integer passed to the insert. A Go
string is a sequence of bytes, and each `char` here stands for one byte.

## Model

| member | source | states |
|---|---|---|
| Text.TrimSpace | src/smtp.go:164 | The result is the unique infix that has no white space at either end and is surrounded only by white space. |
| Text.TrimmedUnique | src/smtp.go:164 | That characterisation picks out exactly one string, so any stripped core surrounded by white space is the TrimSpace result. |
| Text.ToLower | src/smtp.go:161 | Length is preserved and every byte is folded by ASCII lower-casing. |
| Text.ToLowerAppend | src/smtp.go:161 | Lower-casing distributes over concatenation, so the first 8 bytes of a line fold independently of the rest. |
| Text.ToLowerIdempotent | src/smtp.go:161 | Folding twice is folding once. |
| Text.HasPrefix | src/smtp.go:161 | True exactly when the text is the prefix followed by some rest. |
| Text.Split | src/smtp.go:159 | There is always at least one piece, and no piece contains the separator. |
| Text.JoinSplit | src/smtp.go:159 | Joining the pieces with the separator gives back the original text. |
| Text.SplitJoin | src/smtp.go:159 | Splitting a join of separator-free pieces recovers the pieces. |
| Text.SplitOnce | src/smtp.go:162-163 | There is no second part exactly when the separator is absent. Otherwise the text is head, separator, tail, with the separator absent from the head. |
| Smtp.GenerateId | src/smtp.go:149-156 | Exactly 8 characters, each from `a`–`z0`–`9`. |
| Smtp.GenerateIdRoundTrip | src/smtp.go:149-156 | The draws can be read back from the identifier. |
| Smtp.GenerateIdInjective | src/smtp.go:149-156 | Different draws give different identifiers. |
| Smtp.GenerateIdOnto | src/smtp.go:149-156 | Every 8-character string over the alphabet is some draw's identifier. |
| Smtp.IsSubjectLine | src/smtp.go:161 | A subject line is exactly one whose first 8 bytes fold, ignoring ASCII case, to "subject:". |
| Smtp.SubjectAfterColon | src/smtp.go:162-164 | On a subject line the first colon is byte 7, so the second part of SplitN is everything after "subject:". |
| Smtp.FirstSubject | src/smtp.go:160-167 | The line scan finds nothing exactly when no line is a subject line. Otherwise its value is the trimmed text after "subject:" on the first subject line. |
| Smtp.FirstSubjectAt | src/smtp.go:160-165 | The scan stops at the first subject line and returns its trimmed value. |
| Smtp.ExtractSubject | src/smtp.go:158-169 | With no subject line the result is "(no subject)". With one, the result is the trimmed text after "subject:" on the first subject line. |
| Smtp.ExtractSubjectMissing | src/smtp.go:158-168 | With no subject line, the empty body included, the result is "(no subject)". |
| Smtp.ExtractSubjectFirstMatch | src/smtp.go:159-165 | Otherwise the first subject line wins wherever it sits. Its value is the text after the colon with both ends trimmed. |
| Smtp.ExtractSubjectLeading | src/smtp.go:159-165 | A subject line as the first line decides the result, whatever follows it. |
| Smtp.ExtractSubjectSkips | src/smtp.go:160-161 | A first line that is not a subject line does not affect the result. |
| Smtp.ExtractSubjectHeader | src/smtp.go:158-165 | "Subject", "subject" or "SUBJECT" plus a colon, padding, a value and padding (a CRLF's `\r` included) gives exactly that value, inner colons kept. |
| Database.InitDB | src/database.go:19-30 | A fresh location holds no records. An existing table is kept with the same count and the same record under every id. |
| Database.CountEmailsEmpty | src/database.go:99-105 | The count is zero exactly when no id reads back. How it moves is stated by SaveEmail (+1), DeleteEmail (−1 when present), DeleteAllEmails (0) and GetAllEmails (the listing's length). |
| Database.GetEmailByID | src/database.go:72-85 | Succeeds exactly when a row has the id, and returns that row's columns without headers. Otherwise the error is NotFound. |
| Database.SaveEmail | src/database.go:38-45 | A duplicate id fails with Conflict and the caller keeps the old table. Otherwise the record reads back without its headers, every other id reads as before, the count rises by one and the key stays unique. |
| Database.RemoveFind | src/database.go:87-91 | After removal the id is gone, and every other id finds what it found before. |
| Database.DeleteEmail | src/database.go:87-91 | The id no longer reads back, every other record is untouched, and an absent id changes nothing. Under a unique key the count drops by one when the id was present. |
| Database.DeleteAllEmails | src/database.go:93-97 | The count is zero and no id reads back. |
| Database.InsertByAge | src/database.go:51 | The result holds the same rows plus the new one. |
| Database.SortByAge | src/database.go:51 | A permutation of the table's rows. |
| Database.SortByAgeOrder | src/database.go:51 | The permutation is in non-increasing created_at order, and a unique key stays unique. |
| Database.GetAllEmails | src/database.go:47-70 | Lists as many records as CountEmails reports. |
| Database.GetAllEmailsSound | src/database.go:47-70 | Every listed record is the one GetEmailByID returns for its id. |
| Database.GetAllEmailsComplete | src/database.go:47-70 | Every stored record is listed. |
| Database.GetAllEmailsDistinct | src/database.go:47-70 | No record is listed twice. |
| Database.GetAllEmailsNewestFirst | src/database.go:51 | Listed records are in non-increasing created_at order. |
| Database.SaveThenListFirst | src/database.go:27 | A message saved at a strictly later created_at than every stored row is listed first. Same-second saves are not covered, because the table leaves their order open. |
| Capture.Mail | src/smtp.go:38-41 | Sets the sender and leaves recipient and body alone. |
| Capture.Rcpt | src/smtp.go:43-46 | Sets the recipient, overwriting the earlier one, and leaves sender and body alone. |
| Capture.RcptKeepsLast | src/smtp.go:43-46 | After several RCPTs only the last recipient is kept. |
| Capture.Reset | src/smtp.go:75-79 | Sender, recipient and body are all empty. |
| Capture.ResetIdempotent | src/smtp.go:75-79 | A second reset changes nothing, and a reset session is a fresh one. |
| Capture.Logout | src/smtp.go:81-83 | Never an error. |
| Capture.Notify | src/smtp.go:65-70 | A nil channel is skipped. Otherwise one token is added when there is room and dropped when full, and the capacity bound holds. |
| Capture.NotifySaturates | src/main.go:35 | However many messages arrive undrained, the queue holds min(pending + k, capacity) tokens. |
| Capture.Captured | src/smtp.go:54-62 | The record has the fresh id, the session's sender and recipient, the full body and its extracted subject, the given date and no headers. |
| Capture.Data | src/smtp.go:48-73 | The stream is appended to the body even when the copy fails. A failed copy returns its error and leaves the store and queue unchanged. A completed copy returns no error and announces one arrival. A new id is stored and readable, every other id reads as before, and the key stays unique. A colliding id leaves the store as it was. |
| Capture.DataSwallowsSaveError | src/smtp.go:64-72 | As written, a colliding id loses the message, yet DATA reports success and announces an arrival. |
| Capture.DataChecked | src/smtp.go:48-73 | Corrected DATA: any error leaves the store and queue unchanged. Success announces one arrival. |
| Capture.DataCheckedStores | src/smtp.go:54-64 | Corrected DATA succeeds exactly when the copy completed and the id was free. Success means the message is stored under its id and the count rose by one. Every other id reads as before, and the key stays unique. |
| Capture.DataCheckedAgrees | src/smtp.go:48-73 | Whenever the insert is not refused, the corrected and as-written DATA coincide. |
| Capture.DataKeepsBody | src/smtp.go:49 | Without an RSET between them, a second DATA's body starts with the first one's. |
| Server.NewServer | src/smtp.go:93-99 | Starts stopped, on the configured port. |
| Server.Start | src/smtp.go:101-124 | Always succeeds and leaves the server running on the same port. A running server is untouched. |
| Server.Stop | src/smtp.go:126-131 | Under the invariant the server ends stopped. A stopped server is untouched, and the port is kept. |
| Server.IsRunning | src/smtp.go:133-135 | Reports the run flag. Under the invariant, a running server has a created library server. |
| Server.Port | src/smtp.go:137-139 | Reports the configured port. Over any command sequence it never changes (ApplyAllKeeps). |
| Server.Toggle | src/smtp.go:141-147 | Flips the running flag, never fails, and keeps the port. |
| Server.StopIdempotent | src/smtp.go:126-131 | Stopping twice is stopping once. |
| Server.ToggleTwice | src/smtp.go:141-147 | Two toggles restore the flag and the port. |
| Server.ApplyAllKeeps | src/smtp.go:101-147 | Over any command sequence the port never changes, and a running server has a created library server (not necessarily a bound socket, since the bind error is dropped). A final Start leaves it running and a final Stop leaves it stopped. |
| Display.TruncateString | src/main.go:138-146 | Text that fits comes back unchanged, and only then. Otherwise the length is exactly the width: the first n bytes when n ≤ 3, else n−3 bytes plus "...". |
| Display.TruncateIdempotent | src/main.go:138-146 | Truncating twice to the same width is truncating once. |
| Display.TruncateKeepsPrefix | src/main.go:138-146 | The result starts with a prefix of the input of the stated length. |
| Display.ListCell | src/main.go:113-122 | The inline To/Subject truncation equals truncateString at width 30. |
| Display.InitialState | src/main.go:37-44 | Nothing selected, no emails, text mode, popup hidden, scroll 0. |
| Tui.Reload | src/main.go:106-110 | Replaces the list with the store's listing, changes nothing else and keeps the viewer invariant. |
| Tui.KeyDown | src/tui.go:143-154 | Moves down only while the stored list has a row below, so -1 goes to 0 and the index never passes the last row. Otherwise nothing changes. |
| Tui.KeyUp | src/tui.go:159-169 | Moves up only from above 0. It never goes below 0, and -1 stays -1. |
| Tui.KeyDelete | src/tui.go:174-197 | An in-range selection deletes exactly that record and reloads the list. A selection past the new end becomes the new last index, -1 when empty. An out-of-range selection changes nothing. |
| Tui.ClosePopup | src/tui.go:95-101 | The popup is hidden, the scroll is 0, the selection is kept and the list is reloaded. |
| Tui.KeyEscape | src/tui.go:122-138 | With the popup shown it closes it and keeps the selection. Otherwise it clears the selection. |
| Tui.KeyPopup | src/tui.go:231-245 | Toggles the popup and always rewinds the scroll to 0. |
| Tui.KeyQuit | src/tui.go:94-118 | Quits exactly when the popup is hidden. Otherwise it closes the popup. |
| Tui.KeyMode | src/tui.go:214-226 | "text" becomes "html", and anything else becomes "text". Nothing else changes. |
| Tui.KeyModeTwice | src/tui.go:214-226 | On a valid mode, pressing m twice restores the state. |
| Tui.PopupDown | src/tui.go:250-281 | Scrolls down only when maxScroll = 9 − (height − 6) is positive and not yet reached. It keeps 0 ≤ scroll ≤ max(0, maxScroll). |
| Tui.PopupUp | src/tui.go:286-293 | Scrolls up only from above 0, and keeps the same bound. |
| Tui.InitialGood | src/main.go:37-44 | The initial state satisfies every viewer invariant. |
| Tui.StepGood | src/tui.go:93-296 | Every key handler, a capture into the store and a reload all preserve the viewer invariants. |
| Tui.RunGood | src/tui.go:122-200 | Over any run of events the invariants hold: -1 ≤ selection ≤ len−1, the list no longer than the store, mode text or html, and the scroll bounded. |

## Left out

- Text.TrimSpace: only the six ASCII white-space bytes are trimmed. Go also trims Unicode white space, such as U+0085 and U+00A0, when the text is not pure ASCII.
- Text.ToLower: folds ASCII only. Go folds every rune, but no non-ASCII rune lower-cases into a byte of "subject:", so the subject match is unaffected.
- Errors of the SQL driver are not modelled: failures of open, ping, exec, query and scan. The store is the abstract table, and its only errors are the key conflict and the missing row.
- `CountEmails` and `GetAllEmails` cannot fail in the model. Their Go error results only report driver failures.
- The ordering of rows with equal `created_at` is unspecified by the table. The model lists the later insertion first.
- `created_at` is an integer clock reading passed in; the one-second `strftime('%s','now')` default is not modelled. The `date` column is an opaque string passed in; its RFC 1123 format is not modelled.
- go-smtp itself is not modelled: protocol framing, the ListenAndServe goroutine, timeouts, the 1 MiB message limit and the 50-recipient limit. The library's RSET after each DATA is also left out, which is why `Capture.DataKeepsBody` describes the session alone.
- A bind failure of ListenAndServe is dropped inside a goroutine (src/smtp.go:117-120). Start and Toggle are declared to return an error, but no path returns a non-nil one. The model follows the code: Start never fails.
- Concurrency is not modelled: parallel sessions, and the unsynchronised `running` flag and list. The arrival goroutine is reduced to a `Drained` event that reloads the list. No key handler drains the arrival queue.
- Tui.PopupDown: the popup's inner height is a parameter, because the view size comes from the terminal. The drawing code reserves `height - 4` visible lines (src/tui.go:324) where the scroll handler assumes `height - 6`; only the handler's bound is modelled.
- Errors returned by the view functions of gocui are not modelled. Neither are the DeleteEmail error return of the d handler, or which of the global and popup j/k handlers fires; the two are separate operations here.
- The Space key only calls `Toggle` and redraws. It is covered by `Server.Toggle` rather than as a viewer transition.
- Rendering is not modelled: `SetLayout`'s geometry, `updatePopupView`, `updateMainView`, `updateServerInfo`, `printTable`, `formatHumanDate` (wall clock) and `htmlToText` (its source is not part of this model).
- `main`, flag parsing, signal handling and src/paths.go are program wiring. src/ascii.go is a banner string.

## Findings

| source | as written | input that shows it | evidently intended | confidence | as-written member | corrected member |
|---|---|---|---|---|---|---|
| src/smtp.go:64-72 | The error of `SaveEmail` is assigned to `err` and never read. DATA returns nil and announces an arrival whether or not the insert happened. | A completed stream whose generated id is already stored. The insert hits the primary key, the message is lost, and the client is told it was accepted. | Return the insert error, so the client sees the rejection, and announce only stored messages. | medium; not executed | Capture.DataSwallowsSaveError | Capture.DataCheckedStores |
