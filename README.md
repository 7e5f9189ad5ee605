# CollabDocs session authorization and presence, in Dafny

This project models the part of CollabDocs that decides who may join a shared document session
and tracks who is in it. Three pieces are modelled:

- **The live-session server** (`hocuspocus-server/src/index.ts`). This is process-wide state: a map
  from room name to the set of connected socket ids, and a diagnostic log bounded at 50 entries.
  Four hooks act on it. `logEvent` appends to the log. `onAuthenticate` decides a connection
  attempt, from a token or from a docId, pin and display name. `onConnect` and `onDisconnect`
  maintain the registry, and the diagnostic endpoints compute aggregates over it.
- **The backend document controller** (`backend/src/controllers/document.controller.ts`). It has
  four handlers, `createDocument`, `joinDocument`, `verifyToken` and `saveDocument`. They work
  against a document store and issue and check 7-day JSON Web Tokens (RFC 7519; expiry is the
  `exp` claim of section 4.1.4).
- **The editor's upload checks** (`frontend/lib/pdfUtils.ts`): `validatePDFFile` and `validateWordFile`.

Modules:

| file | module | what |
|---|---|---|
| wrappers.dfy | `Wrappers` | `Option` (absent values) and `Result` (thrown errors) |
| text.dfy | `Text` | `startsWith`, `endsWith`, `split(sep)[0]`, decimal rendering of numbers |
| event_log.dfy | `EventLog` | log entries and the push-then-shift update |
| presence.dfy | `Presence` | the registry value, connect/disconnect updates, counts and sums |
| gatekeeper.dfy | `Gatekeeper` | the `onAuthenticate` decision with the two backend calls as oracles |
| live_server.dfy | `LiveServer` | class `CollabServer` with the registry and log fields and the four hooks |
| diagnostics.dfy | `Diagnostics` | what `/ws-logs`, `/health`, `/room/{id}` and `/rooms` compute |
| jwt.dfy | `Jwt` | symbolic signing and verification of tokens |
| documents.dfy | `Documents` | the store, join and verify as functions, class `DocumentController` with create and save |
| upload.dfy | `Upload` | the two upload checks |

Modelling choices:

- **Process-wide state.** `roomConnections` and `connectionLogs` are fields of the class
  `LiveServer.CollabServer`. The hooks are methods that reassign them. Each method's contract
  gives the new state as a function of the old one (`Presence.AfterConnect`,
  `Presence.AfterDisconnect`, `EventLog.Appended`). The properties are proved about those functions.
- **Atomic hooks.** Every hook is modelled as one atomic step. For `onConnect` and `onDisconnect`
  this is exact: their bodies contain no `await`. `onAuthenticate` awaits `validateToken`
  (index.ts:62) or `validateJoinAccess` (index.ts:89) between logging `auth_attempt` and logging
  the outcome, so in the source other hooks' entries can fall between the two; the model does not
  capture that (see "## Left out").
- **Oracles.** `validateToken` and `validateJoinAccess` (thin HTTP wrappers in
  `hocuspocus-server/src/auth.ts`) are function parameters returning `Option`. The join oracle
  receives the raw docId and pin strings. It stands for `validateJoinAccess(Number(docId), Number(pin))`.
- **Tokens.** A token is symbolic. Its signature is a `Seal` recording the key and everything the
  key covers, so a token verifies only if it was sealed with the server's secret over its own claims.
  Expiry follows `jsonwebtoken`: a token is expired once `now >= exp`. With this model, "verifying a
  freshly signed payload within 7 days yields that payload" is a lemma (`Jwt.SignVerifyRoundTrip`),
  not an assumption.
- **Store.** The store is a map from record id to record. A failing store call is a boolean input
  `storeFails`. Create and join answer it with 500. Verify and save answer it with 401, because their
  inner `catch` swallows it. An id the store would reject as already taken is a 500 on create.
- **Inputs.** Generated codes, the record id the store assigns, the clock (seconds for tokens,
  opaque strings for stored timestamps) and environment variables are inputs.

Where the code differs from its stated design, the model follows the code:

- **Credential path.** On the docId/pin path, `onAuthenticate` never compares the document the
  credentials resolve to with the room being joined (index.ts:89-108), although the comment at
  index.ts:35-39 says that users who pass docId and pin join the document's UUID room. `Gatekeeper.CredentialPathIgnoresRoom` proves that the room plays no part on this path.
- **Failure reasons.** Any token failure, whether invalid or for another room, is logged with reason
  `invalid_token`. There is no separate "mismatched room" reason.
- **Log order.** The log appends at the end and evicts from the front; it is not filled from the head.
- **Several matches.** `joinDocument` answers 404 only when no record matches. When several records
  match, it returns one of them rather than failing.

## Model

| member | source | states |
|---|---|---|
| `EventLog.Appended` | hocuspocus-server/src/index.ts:23-33 | a log within capacity stays within 50 entries; the new entry is last; below capacity it is simply appended, at capacity the oldest entry is dropped |
| `EventLog.AppendAllIsWindow` | hocuspocus-server/src/index.ts:14-33 | after any sequence of logged events the log is exactly the last (at most 50) events ever logged, in order |
| `EventLog.LogKeepsLatest` | hocuspocus-server/src/index.ts:22-33 | from an empty log, after more than 50 events the log holds exactly the last 50, with the latest last |
| `Presence.AfterConnect` | hocuspocus-server/src/index.ts:113-116 | connect leaves the socket in the room's set (the room is created if absent), changes no other room, and keeps "no tracked room is empty" |
| `Presence.ConnectCount` | hocuspocus-server/src/index.ts:116-118 | the reported count goes up by one, or stays the same when the socket was already there |
| `Presence.ConnectIdempotent` | hocuspocus-server/src/index.ts:116 | connecting a socket already in the room leaves the registry unchanged |
| `Presence.AfterDisconnect` | hocuspocus-server/src/index.ts:136-139 | disconnect removes the socket, changes no other room, deletes the room exactly when its set becomes empty, changes nothing for an unknown room, and keeps "no tracked room is empty" |
| `Presence.DisconnectCount` | hocuspocus-server/src/index.ts:136-141 | the count goes down by one when the socket was there; after the last socket leaves, the room is gone and the count is 0 |
| `Presence.DisconnectUndoesConnect` | hocuspocus-server/src/index.ts:113-139 | disconnecting a socket that was just connected to a room it was not in restores the registry |
| `Presence.ConnectAllSockets` | hocuspocus-server/src/index.ts:113-116 | after a sequence of connects the room holds its old sockets plus all connected ones |
| `Presence.DisconnectAllSockets` | hocuspocus-server/src/index.ts:136-139 | after a sequence of disconnects the room holds its old sockets minus all disconnected ones |
| `Presence.RoomCount` | hocuspocus-server/src/index.ts:118 | `roomConnections.get(room)?.size`, defaulting to 0, is the size of the room's socket set, 0 for an untracked room |
| `Presence.JoinsThenLeaves` | hocuspocus-server/src/index.ts:111-141 | after N distinct joins followed by M leaves among them, the room's count is N - M |
| `Presence.ReplayTracked` | hocuspocus-server/src/index.ts:113-139 | replaying any mix of connects and disconnects on an untracked room keeps it tracked exactly while it has a socket |
| `Presence.ReplaySockets` | hocuspocus-server/src/index.ts:113-139 | in any interleaving where each socket joins at most once and leaves at most once after joining, the room holds exactly the sockets that joined and have not left |
| `Presence.InterleavedCount` | hocuspocus-server/src/index.ts:111-141 | in any such interleaving the room's count is #joins - #leaves, and the room is dropped exactly when every joined socket has left |
| `Presence.TotalConnections` | hocuspocus-server/src/index.ts:198-201 | the reduce over the rooms' sizes is 0 exactly when every tracked room is empty |
| `Presence.TotalSplits` | hocuspocus-server/src/index.ts:198-201 | the summed connection count splits at any room: that room's size plus the sum over the rest |
| `Presence.TotalAfterConnect` | hocuspocus-server/src/index.ts:113-118 | a connect raises the total connection count by one, unless the socket was already in the room |
| `Presence.TotalAfterDisconnect` | hocuspocus-server/src/index.ts:136-141 | a disconnect lowers the total by one exactly when the socket was in the room |
| `Presence.TotalAtLeastRooms` | hocuspocus-server/src/index.ts:196-202 | with no empty rooms, total connections are at least the number of active rooms |
| `Presence.RoomCountAtMostTotal` | hocuspocus-server/src/index.ts:245 | a single room's count (0 when unknown) never exceeds the total |
| `Presence.RoomListing` | hocuspocus-server/src/index.ts:294-299 | the listing has exactly the tracked rooms as keys, each with the size of its socket set |
| `Presence.ListingCounts` | hocuspocus-server/src/index.ts:294-299 | the room listing has exactly the tracked rooms, each with its count, and every listed count is at least 1 |
| `Presence.LastLeaveUnlists` | hocuspocus-server/src/index.ts:136-139 | after the last socket leaves a room, the room is absent from the listing |
| `Gatekeeper.Authenticate` | hocuspocus-server/src/index.ts:43-109 | an authorized user always has a non-empty name; the method is "token" exactly when a token was given |
| `Gatekeeper.AttemptEvent` | hocuspocus-server/src/index.ts:58 | the `auth_attempt` entry carries the room, whether a token was given, and docId, pin and name as received |
| `Gatekeeper.OutcomeEvent` | hocuspocus-server/src/index.ts:71-105 | `auth_success` exactly for an authorized outcome, with its method, the name and room, and docId only on the credential path; `auth_failed` with the rejection's reason otherwise |
| `Gatekeeper.RejectionMessages` | hocuspocus-server/src/index.ts:78-96 | a rejected attempt throws "Unauthorized - Invalid token" exactly on the token path, plain "Unauthorized" otherwise |
| `Gatekeeper.TokenPathDecides` | hocuspocus-server/src/index.ts:61-80 | with a token, authorized iff the verifier returns the room's own id; the name defaults to "User"; any other outcome is an invalid-token rejection |
| `Gatekeeper.TokenPathNeverFallsBack` | hocuspocus-server/src/index.ts:61-80 | with a token, neither the docId/pin values nor the join lookup affect the outcome |
| `Gatekeeper.MissingParamsFailFast` | hocuspocus-server/src/index.ts:83-87 | without a token, a missing or empty docId, pin or name is rejected whatever the lookups would answer |
| `Gatekeeper.CredentialPathDecides` | hocuspocus-server/src/index.ts:89-108 | without a token and with all three credentials, authorized iff the join lookup returns a document, with that document's token |
| `Gatekeeper.CredentialPathIgnoresRoom` | hocuspocus-server/src/index.ts:89-108 | without a token, the outcome is the same for every room name: no id-to-room comparison |
| `LiveServer.CollabServer.constructor` | hocuspocus-server/src/index.ts:13-20 | the server starts with no rooms and an empty log |
| `LiveServer.CollabServer.LogEvent` | hocuspocus-server/src/index.ts:23-33 | the log becomes `Appended` of the old log with the new entry; the registry is unchanged |
| `LiveServer.CollabServer.OnAuthenticate` | hocuspocus-server/src/index.ts:43-109 | the outcome is `Authenticate`; the log gets `auth_attempt` and then `auth_success` or `auth_failed`; the registry is unchanged |
| `LiveServer.CollabServer.OnConnect` | hocuspocus-server/src/index.ts:111-133 | the registry becomes `AfterConnect`; the returned count is the room's new size; `connected` is logged with it |
| `LiveServer.CollabServer.OnDisconnect` | hocuspocus-server/src/index.ts:135-157 | the registry becomes `AfterDisconnect`; the returned count is the room's new size, 0 when the room is gone; an unknown room is unchanged; `disconnected` is logged |
| `Diagnostics.RoomIdOf` | hocuspocus-server/src/index.ts:233-234 | the room id is the longest part after "/room/" that contains neither '?' nor another "/room/" |
| `Diagnostics.RoomQuery` | hocuspocus-server/src/index.ts:232-256 | 400 exactly when the room id is empty; otherwise the room's count, 0 for an unknown room, and with no empty rooms 0 only then |
| `Diagnostics.WsLogs` | hocuspocus-server/src/index.ts:185-205 | `/ws-logs` returns the whole log with its length, the number of tracked rooms, and a total equal to the sum of the rooms' sizes (`TotalConnections`), hence at least every room's size and, with no empty rooms, at least the room count |
| `Diagnostics.Health` | hocuspocus-server/src/index.ts:210-229 | `/health` reports "ok" with the given clock and uptime, the number of tracked rooms, and the same total: the sum of the rooms' sizes, with the same bounds |
| `Diagnostics.Rooms` | hocuspocus-server/src/index.ts:292-310 | `/rooms` lists exactly the tracked rooms with their counts, its total is their number, and with no empty rooms every count is at least 1 |
| `Diagnostics.ReportsAgree` | hocuspocus-server/src/index.ts:185-309 | `/ws-logs`, `/health` and `/rooms` report the same room count and total; the total is at least the room count and is 0 exactly when no room is tracked |
| `Text.Before` | hocuspocus-server/src/index.ts:234 | `split(sep)[0]`: a prefix of the text with no occurrence of the separator, ending at the first occurrence or at the end |
| `Text.NatToDecimal` | backend/src/controllers/document.controller.ts:37 | the rendering of a number is a non-empty string of digits without a leading zero |
| `Text.DecimalRoundTrip` | backend/src/controllers/document.controller.ts:17-18 | reading back a number's decimal rendering gives the number |
| `Jwt.Sign` | backend/src/controllers/document.controller.ts:40-49 | the token carries the payload, is issued now, expires 7 days later, is sealed with the secret and verifies at once |
| `Jwt.Verify` | backend/src/controllers/document.controller.ts:115 | a verified token yields its own claims, is unexpired and carries the server's key |
| `Jwt.SignVerifyRoundTrip` | backend/src/controllers/document.controller.ts:40-49 | a freshly signed token verifies to its payload exactly until 7 days have passed |
| `Jwt.ForeignKeyRejected` | backend/src/controllers/document.controller.ts:6-7 | a token signed with another key never verifies |
| `Jwt.TamperingRejected` | backend/src/controllers/document.controller.ts:115 | changing a signed token's claims or expiry makes it fail verification |
| `Documents.FindFirst` | backend/src/controllers/document.controller.ts:73-76 | the lookup finds a record iff some record has both codes, and what it finds is such a record |
| `Documents.JoinDocument` | backend/src/controllers/document.controller.ts:65-104 | 400 when docId or pin is missing or 0; 500 iff both are given and the store fails; 404 iff no record matches both codes; 200 iff both are given, the store answers and a record matches, with a matching record's id and title and a fresh 7-day token over them |
| `Documents.VerifyToken` | backend/src/controllers/document.controller.ts:106-140 | 400 iff no token; 401 for a given token that is malformed, fails verification (expired included) or meets a store error; 200 for a verifying token whose document exists, with the stored id, title and docId, and only then; 404 iff verifying and the document is gone |
| `Documents.JoinStatusCodes` | backend/src/controllers/document.controller.ts:65-104 | join answers 400, 500, 404 and 200, each exactly under its condition |
| `Documents.VerifyStatusCodes` | backend/src/controllers/document.controller.ts:106-140 | verify answers 400, 401 (a store error included), 404 and 200, each exactly under its condition |
| `Documents.DocumentController.constructor` | backend/src/controllers/document.controller.ts:6-19 | `JWT_SECRET` (lines 6-7) and `FRONTEND_URL` (line 19) fall back to their defaults when unset or empty |
| `Documents.DocumentController.CreateDocument` | backend/src/controllers/document.controller.ts:9-63 | 400 and no write without a title; 500 and no write when the store fails; otherwise exactly one new record with empty content, and 201 with its id, codes, join link and token |
| `Documents.DocumentController.SaveDocument` | backend/src/controllers/document.controller.ts:142-173 | 400 iff no token; 401 and no write when the token fails, its record is missing or the store fails; otherwise only that record's content and update time change |
| `Documents.CreateThenJoin` | backend/src/controllers/document.controller.ts:21-99 | joining with the codes a create stored, when no older record has them, returns that create's id and title |
| `Documents.CreateThenVerify` | backend/src/controllers/document.controller.ts:40-132 | the token from create verifies for 7 days to the created id, title and docId |
| `Documents.JoinThenVerify` | backend/src/controllers/document.controller.ts:83-132 | the token from join verifies for 7 days to the joined id and title |
| `Documents.ExpiredTokenRefused` | backend/src/controllers/document.controller.ts:114-135 | after 7 days verify answers 401 |
| `Documents.ForgedTokenRefused` | backend/src/controllers/document.controller.ts:114-135 | a token signed with another key gets 401 |
| `Documents.DeletedDocumentNotFound` | backend/src/controllers/document.controller.ts:117-125 | an unexpired token whose document was removed gets 404 |
| `Documents.SavePreservesVerification` | backend/src/controllers/document.controller.ts:153-158 | saving content does not change what any token verifies to |
| `Documents.JoinLink` | backend/src/controllers/document.controller.ts:37 | the link starts with the base URL and "/join?docId=", and the rest is a non-empty rendering that is all digits exactly when the docId is not negative |
| `Documents.JoinLinkCarriesDocId` | backend/src/controllers/document.controller.ts:37 | the join link is the base URL, "/join?docId=" and digits that read back as the docId |
| `Upload.ValidatePdfFile` | frontend/lib/pdfUtils.ts:253-266 | accepts (returning true) iff the type is exactly application/pdf and the size is at most 10 MiB; a wrong type reports the type error, otherwise the size error |
| `Upload.ValidateWordFile` | frontend/lib/pdfUtils.ts:495-517 | accepts (returning true) iff the type is one of the two Word types or the name ends in .docx or .doc, and the size is at most 10 MiB |
| `Upload.SizeBoundInclusive` | frontend/lib/pdfUtils.ts:260-263 | exactly 10485760 bytes is accepted, one byte more gets the size error |
| `Upload.TypeCheckedBeforeSize` | frontend/lib/pdfUtils.ts:255-263 | a wrong-type file reports the type error whatever its size |
| `Upload.WordNameSuffices` | frontend/lib/pdfUtils.ts:502-508 | a name ending in .doc or .docx is accepted whatever its MIME type |
| `Upload.PdfIsNotWord` | frontend/lib/pdfUtils.ts:497-508 | a file the PDF check accepts passes the Word check only by its name |

## Left out

- `Documents.FindFirst`: it returns some matching record, not the first. The store is an unordered
  map, so "first" among several records with the same docId and pin is not captured.
- `Documents.JoinDocument`: it inherits that looseness when several records share a docId and pin.
- `Diagnostics.Rooms`: the listing is a map from room id to count. The order of the source's array
  (Map insertion order) is not modelled.
- `LiveServer.CollabServer.OnAuthenticate`: the `Number()` conversion of docId and pin is folded into
  the join oracle, and the attempt and outcome log entries take their timestamps as inputs. The
  method is one atomic step, so its two entries are always adjacent. In the source, the hook awaits
  the backend between them (index.ts:62, 89), and other hooks' entries may fall between the
  attempt entry and the outcome entry.
- `Documents.DocumentController.constructor`: `FRONTEND_URL` is read once, when the controller is
  built. The source reads it on every create (document.controller.ts:19), so a change to the
  variable while the server runs is not modelled. `JWT_SECRET` is read once in both
  (document.controller.ts:6-7).
- `onLoadDocument` (index.ts:159-163): it creates a Yjs document, which is library code. Only its log
  entry kind `document_loaded` is kept in the event type.
- HTTP plumbing: the `onRequest` routing, headers, CORS and JSON serialisation, the `/metrics`
  endpoint, the catch blocks around the diagnostic endpoints (they cannot fail in the model), and
  the Express wiring.
- The console output (`chalk` logging) in every handler, which is I/O.
- The cryptography behind `jsonwebtoken`: signatures are symbolic seals.
- Non-numeric JSON values for docId and pin are not modelled. `title` and `content` are assumed to be
  strings.
- The Prisma client: the store is a map, failures are the input `storeFails`, and `updatedAt` is
  the timestamp passed to save.
- `generateRoomCode` and `generatePin` (`@/utils/codes`), and the record id the store generates: all
  three are inputs. `@/utils/codes` is not part of this model.
- Template-literal rendering of numbers beyond 21 digits, where JavaScript switches to exponent
  notation. The docIds the system generates have 9 digits.
- Concurrency between hooks, timers, keep-alive pings, metrics counters, the proxies and all UI
  code: these are I/O or foreign libraries, and each hook is modelled as one atomic step.
- PDF and Word text extraction and export in `pdfUtils.ts`: floating-point layout and third-party
  libraries.
