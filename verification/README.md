# A verified model of cmemlan

cmemlan is a sync hub for claude-mem: an append-only, gapless, deduplicating log of operations. Devices
push to it with at-least-once delivery and pull from it by cursor. A client that sees one missing sequence
number, or one rewritten byte, is stuck for good, so what matters are invariants of the whole hub over
whole runs and byte-exact codecs underneath. This project states and proves them in Dafny; check it with
`dafny verify dfyconfig.toml`.

## How it is laid out

| module | models |
|---|---|
| `Bytes`, `Unicode` | byte strings; UTF-8 (sections 3 and 4 of RFC 3629) and surrogate pairs (section 2.2 of RFC 2781) |
| `Decimal` | internal/proto/dec.go, `itoa` |
| `JsonString` | internal/proto/unquote.go: the one-pass literal decoder against a staged meaning (section 7 of RFC 8259) |
| `GoQuote` | `strconv.Quote`, which prints ids and digests into responses |
| `Json`, `Wire`, `Emitted`, `Reading`, `PageSize` | the responses printed by hand, their exact text (`Literals` takes the constants apart), the client's reading of them, and how long they get |
| `Digest`, `Wrapper` | internal/proto/digest.go, internal/proto/wrapper.go: which wrappers are accepted |
| `Oplog` | the log as a value: find-or-append, acks, pages, pulls |
| `Store` | internal/store: the tables and the operations on them, as a class |
| `Hub` | internal/hub/handlers.go: from the parsed request to the bytes of the response |
| `Protocol`, `Refinement` | the hub, its clients and a faulty network as a state machine, and the proof that the store's methods take its steps |
| `Pairing`, `PairingRace` | internal/pair: the two pairing windows one process at a time, and the file-backed one under concurrency |
| `Backfill` | internal/clientdb/backfill.go: requeueing and undoing |

Each imperative operation is a method proved against a function on values (`Store.Push` against
`Oplog.PushLog`, both pairing windows against `Pairing.Guess`, `UnquoteJSONString` against `Unquote`, the
emitters against `Json.Print`); what the system promises is then proved of those functions and of runs.

## What is assumed

- SQLite: a write transaction is atomic and serial, a read transaction sees one snapshot. A transaction
  that fails anywhere leaves the tables as they were.
- SHA-256 and `encoding/json` beyond string literals are uninterpreted functions (`Wrapper.Env`). No
  result needs either to be injective; results that compare codes by hash ask that no other guess at hand
  have the hash of the right code. `encoding/json` hands over values without surrounding white space.
- `strconv.IsPrint` above ASCII is a parameter, so results hold for every Unicode version.
- A rotated epoch is one that was not used before, and opening a database is not interrupted between the
  two statements of internal/store/store.go:210-213.
- A client takes a page only as the answer to a request from its present cursor, one at a time. Its requests
  may be answered late, or not at all; a page it has applied is not applied again.
- Clocks, random numbers, transaction failures and scheduling are parameters or nondeterministic; clocks
  read at or after 1970.

## Where code and documentation disagree

- docs/architecture.md:51-54 reads as if restoring an older backup were detected. The code notices only a
  counter that disagrees with the log. Here any file that agrees with itself can be opened at any time:
  older, newer, or of another history altogether. `Protocol.RunIsSafeIff` proves that runs stay safe if and
  only if every file put in the place of a log has, row for row, all that a snapshot, page, client or ack of
  its epoch relies on, and `OlderIsSafeIff` that for an older file this means nothing of the epoch lies
  above its head. `ClientIsSafeIff` and `AckedOpsStayIff` say the same client by client and op by op.
  `StrandedSilently`, `DivergesSilently` and `AckedOpIsLost` say what becomes of the others;
  `RestoreCounterexample` and `InFlightCounterexample` give the inputs.
- The client's contiguity check (test/clientvalidate/validate.js:154-162) looks as if it guarded against
  that. `Protocol.ContiguityNeverFails` and `NobodyIsWedged` prove that with these answers it never fails,
  whatever is restored.
- The device table is in the same file, so opening another file can lift a revocation.
  `Protocol.RevocationIsForGoodIff` says exactly when it does not.
- Two different bodies for one revision inside one push have no answer the client accepts
  (internal/store/ops.go:102-106). `Store.AnswerAcceptedIff` says that this is the only such case,
  `Store.ConflictCounterexample` gives the push.
- `strconv.Quote` does not print JSON for every id. `GoQuote.QuoteIsJsonIff` and `Reading.PushRoundTripIff`
  give the exact condition, `GoQuote.UnreadableId` an id that fails it; ids of the documented shapes
  (docs/protocol.md:84-88) are plain text and always meet it.
- Removing a lock for being old (internal/pair/window_file.go:171-177) keeps the guess budget and the single
  release in everything that may follow if and only if its process is not between taking and releasing it
  (`PairingRace.StealIsSafeIff`); every result about runs admits such removals. After any other,
  `PairingRace.StolenLockReleasesTwice` goes on, from whatever state it was, to release one window twice.
- The two pairing windows judge the deadline with different precision; `Pairing.TwinsAgreeIff` is exact, and
  `Pairing.SubMillisecondDisagreement` gives the reading.
- docs/backfill.md says that `--undo` puts things back. `Backfill.UndoRestoresQueueIff` says for which rows,
  and `Backfill.QueueAfterEventsAndUndo` what is queued when the worker has uploaded rows in between;
  `Backfill.UndoLeavesUploadedRowsQueued` gives an ordinary row, stamped after its upload, that stays queued.

## Model

| member | source | states |
|---|---|---|
| `Decimal.ParsePrintInverse` | internal/proto/dec.go:35-77 | Parsing accepts a string for a value if and only if it is what printing that value gives; the positive variant exactly when the value is also above 0. |
| `Decimal.ParsesExactlyPrinted` | internal/proto/dec.go:35-72 | A refused string is the printing of no 64-bit value. |
| `Decimal.ParsesSixtyFourBits` | internal/proto/dec.go:35-72 | The printing of any natural number is parsed up to 2^64-1 and out of range above; 0 is not positive. |
| `Decimal.PrintInjective` | internal/proto/dec.go:77 | Equal decimal texts are equal numbers. |
| `Decimal.KeyInjective` | internal/store/ops.go:72 | id + NUL + revision is an injective key, NUL bytes inside ids included. |
| `Decimal.DecLength` | internal/proto/dec.go:77 | Every Dec prints in at most 20 bytes, every int64 in at most 19. |
| `Decimal.Itoa` | internal/hub/middleware.go:27-39 | Prints the digits of Dec.String for every non-negative int64 without leaving its 20-byte buffer; the empty string for negative ones. |
| `Unicode.EncodeOfDecode` | internal/proto/unquote.go:88-102 | A byte sequence that decodes validly is the one encoding of the value it decodes to. |
| `Unicode.DecodeOfEncode` | internal/proto/unquote.go:88-102 | An encoded scalar value is found again whatever follows it. |
| `JsonString.Hex4` | internal/proto/unquote.go:139-159 | Four hex digits of either case and their value, or a refusal, for every byte string. |
| `JsonString.DecodeUnicodeEscape` | internal/proto/unquote.go:110-135 | A \u escape pairs with a following low escape, and stands for U+FFFD when it is an unpaired surrogate. |
| `JsonString.UnquoteJSONString` | internal/proto/unquote.go:25-105 | On every byte string the one pass returns what decoding to UTF-16 units, pairing surrogates with U+FFFD for unpaired ones and encoding to UTF-8 returns, and refuses the same literals. |
| `JsonString.FusedIsStaged` | internal/proto/unquote.go:32-105 | Token-by-token decoding equals the three stages for every interior. |
| `JsonString.SpellingReads` | internal/proto/unquote.go:43-104 | Every spelling of a code unit that RFC 8259 allows, raw, as any of the eight two-character escapes, or in hexadecimal digits of either case, is read as that unit, and then the rest is read. |
| `JsonString.SupplementaryReads` | internal/proto/unquote.go:88-102 | A raw character above the basic plane is read as its two surrogates. |
| `JsonString.InvalidByteReads` | internal/proto/unquote.go:88-98 | A byte at which no character's UTF-8 starts is read as U+FFFD, by itself. |
| `JsonString.ReadIsSpelled` | internal/proto/unquote.go:32-105 | Nothing else is read: bare quotes, control characters, a backslash before any other byte and truncated escapes are refused. |
| `JsonString.UnitsAreWritten` | internal/proto/unquote.go:14-24 | Units come out as UTF-8: pairs as one character, an unpaired surrogate as EF BF BD. |
| `JsonString.StringifyRoundTrip` | internal/proto/unquote.go:14-24 | Any sequence of UTF-16 units written as JSON.stringify writes it decodes to the same units, and unquotes to its UTF-8 with U+FFFD for lone surrogates. |
| `JsonString.StringifyEscapes` | internal/proto/unquote.go:14-24 | What JSON.stringify escapes and how: exactly quotes, backslashes, control characters and lone surrogates. |
| `JsonString.Framing` | internal/proto/unquote.go:32-45 | In an accepted interior followed by anything, a scan for the first unescaped quote passes over the whole interior. |
| `JsonString.AcceptedIsFramed` | internal/proto/unquote.go:26-45 | In an accepted literal the first unescaped quote after the opening one is the last byte. |
| `JsonString.SizeBounds` | internal/proto/wrapper.go:13-16 | An accepted interior is at most 6 times its decoded form, and that at most 3 times the interior. |
| `GoQuote.QuoteIsJsonIff` | internal/proto/emit.go:59-77 | A string printed by strconv.Quote unquotes to itself exactly when all its runes have a spelling JSON shares; otherwise no JSON reader accepts it. |
| `GoQuote.RuneSpellings` | internal/proto/emit.go:59-77 | How strconv.Quote prints each rune, byte for byte. |
| `GoQuote.QuoteIsFramed` | internal/proto/emit.go:59-77 | Readable or not, what strconv.Quote prints ends where a scan for its closing quote ends. |
| `GoQuote.PlainTextLiteral` | docs/protocol.md:84-88 | ASCII text with nothing to escape, as documented ids, kinds and digests are, is printed between quotes and read back as it is. |
| `GoQuote.UnreadableId` | internal/proto/emit.go:59 | The id of one BEL byte is printed with an escape no JSON reader accepts. |
| `Json.ReadPrint` | internal/hub/handlers.go:163-191 | Reading a printed value gives it back, string literals byte for byte. |
| `Wire.EmitChangeOp` | internal/proto/emit.go:20-48 | Appends exactly the compact JSON object with seq, server_ts, the stored literal and the digest. |
| `Wire.EmitAck` | internal/proto/emit.go:55-100 | Appends exactly the compact JSON object with all six members, the local id null when absent. |
| `Wire.RenderChanges` | internal/hub/handlers.go:163-191 | The response text is the printing of the value with version, epoch, head, more and every entry in order. |
| `Wire.RenderPush` | internal/hub/handlers.go:102-118 | The response text is the printing of the value with every ack in order, head and projected sequence. |
| `Wire.RenderStatus` | internal/hub/handlers.go:31-40 | The response text is the printing of the value with version, epoch, head and projected sequence. |
| `Emitted.ChangeOpIsText` | internal/proto/emit.go:20-48 | An entry's exact text: the six constants with sequence, time, literal and digest between them. |
| `Emitted.AckIsText` | internal/proto/emit.go:55-100 | An ack's exact text. |
| `Emitted.ChangesIsText` | internal/hub/handlers.go:163-191 | A changes page's exact text. |
| `Emitted.PushIsText` | internal/hub/handlers.go:102-118 | A push answer's exact text. |
| `Emitted.StatusIsText` | internal/hub/handlers.go:31-40 | A status response's exact text. |
| `Emitted.ElementsAreText` | internal/hub/handlers.go:102-107 | Entries and acks are separated by single commas. |
| `Reading.ChangesRoundTrip` | internal/hub/handlers.go:163-191 | Printing a changes page and reading it back is the identity on epoch, head, more and every entry, whenever the literals are accepted ones and the digests base64url. |
| `Reading.PushRoundTripIff` | internal/hub/handlers.go:102-118 | A push response reads back as answered if and only if every id is readable. |
| `Reading.StatusRoundTrip` | internal/hub/handlers.go:31-40 | A status response reads back as answered. |
| `PageSize.ResponseLength` | internal/hub/handlers.go:163-191 | A response is its literals, at most 137 bytes more per entry and at most 108 around them. |
| `Digest.ValidDigestIff` | internal/proto/digest.go:26-43 | A digest is valid if and only if it is 43 characters of the base64url alphabet. |
| `Digest.SextetsMean` | internal/proto/digest.go:16-23 | The characters stand for the bits of the hash in base 64, most significant first. |
| `Digest.DigestsAreValid` | internal/proto/digest.go:16-23 | The unpadded base64url of any 32 bytes is a valid digest. |
| `Digest.DigestsDiffer` | internal/proto/digest.go:16-23 | Different hashes have different digests. |
| `Wrapper.ObjectFields` | internal/proto/wrapper.go:195-235 | The members of an object, each key once; a repeated key is an error. |
| `Wrapper.ParseBody` | internal/proto/wrapper.go:129-186 | Succeeds exactly for bodies with the twelve keys, a known kind, a non-empty id, a positive canonical revision, a device id of 1 to 128 bytes and a null or canonical local id, and returns those. |
| `Wrapper.BodyIsDocumented` | internal/proto/wrapper.go:49-63 | What `ParseBody` accepts, with the twelve keys, the four kinds, the limits and null written out. |
| `Wrapper.WrapperIsDocumented` | internal/proto/wrapper.go:77-96 | The same for the two keys of a wrapper. |
| `Wrapper.ParseOp` | internal/proto/wrapper.go:77-127 | Accepts exactly the wrappers that carry a genuine operation and returns it with the literal as received; blames the digest exactly when the digest alone is wrong. |
| `Wrapper.CarriesOne` | internal/proto/wrapper.go:77-127 | A wrapper carries at most one operation. |
| `Wrapper.LiteralGuardIsImplied` | internal/proto/wrapper.go:98-113 | The guard of 6*MaxBodyBytes+2 never refuses a literal that the limit on the decoded body would accept. |
| `Wrapper.LiteralGuardIsTight` | internal/proto/wrapper.go:13-16 | For every n there is a body of n bytes whose literal has 6n+2. |
| `Wrapper.ConformingAccepted` | internal/proto/wrapper.go:71-127 | A body with the documented keys and kinds, printed by JSON.stringify in a compact wrapper with the base64url of the 32-byte hash of its UTF-8, is accepted if and only if it is within 256,000 bytes, lone surrogates included; no other size guard is in the way. |
| `Wrapper.CompactLength` | internal/proto/wrapper.go:78-80 | A compact wrapper is 74 bytes longer than its literal, so the guard on the whole wrapper never refuses one with an admitted literal. |
| `Wrapper.ParseOps` | internal/hub/handlers.go:75-88 | A push is parsed whole, in order, or refused; more than 1,000 ops are refused. |
| `Oplog.PushKeeps` | internal/store/ops.go:71-128 | A push rewrites and moves nothing, keeps (id, rev) unique and stores every op's revision. |
| `Oplog.BatchingIsIrrelevant` | internal/store/ops.go:65-128 | Pushing a then b, at whatever times, stores the same entries at the same numbers as pushing them together. |
| `Oplog.HeadGrowth` | internal/store/ops.go:74-99 | The head grows by exactly the number of distinct new (id, rev). |
| `Oplog.ReplayIsFree` | internal/store/ops.go:74-82 | Replaying a push on any later log changes nothing and finds every revision where it was first put. |
| `Oplog.FirstWriteWins` | internal/store/ops.go:76-106 | A new revision is stored as the first op of the push that carries it: id, revision, kind, origin, digest, literal, and the time of the push. |
| `Oplog.NewRowsAreOps` | internal/store/ops.go:83-99 | Every row a push adds has all the fields of its first op with that new (id, rev), and the time of the push. |
| `Oplog.AckSeqsFollowKeys` | internal/store/ops.go:72-100 | Two acks share a number exactly when their ops share (id, rev). |
| `Oplog.AckTuplesDistinctIff` | docs/protocol.md:125-133 | One number per tuple and distinct tuples distinct numbers, exactly when no two ops share (id, rev) but differ in kind or digest. |
| `Oplog.AckSeqsStable` | internal/store/ops.go:151-164 | The numbers of a push's ops never change as the log grows. |
| `Oplog.PageIsMaximal` | internal/store/changes.go:89-123 | There is one page for a cursor; no more entries fit it; it is empty only at or past the head. |
| `Oplog.PullIsContiguous` | internal/store/changes.go:59-128 | Pages under any limits and caps, with pushes in between, concatenate to exactly the entries after the starting cursor. |
| `Oplog.QuietPullEnds` | internal/store/changes.go:89-123 | On a quiet hub no page is empty, the pull ends within head - since pages, and at the head exactly when the last page has no more. |
| `Store.ExistingSeq` | internal/store/ops.go:151-164 | The number of the row with this (id, rev), or none if there is no such row. |
| `Store.CacheHit` | internal/store/ops.go:66-75 | A hit in the batch cache is the number the revision has in the log. |
| `Store.PushAllOps` | internal/store/ops.go:65-123 | The loop with cache, index and counter computes the find-or-append fold and its acks; it fails exactly when the numbers run out. |
| `Store.Store.Push` | internal/store/ops.go:33-149 | Denied exactly for a revoked device, exhausted exactly when the fold passes 2^63-1; otherwise log, acks, head and devices are the specified ones, or, if the transaction fails, nothing changes. |
| `Store.AnswerAcceptedIff` | test/clientvalidate/validate.js:104-123 | The answer to a push passes all the client's checks if and only if the push has no two bodies for one revision. |
| `Store.AnswerAcks` | internal/store/ops.go:115-148 | The answer has one ack per op with the op's own id, kind, revision, digest and local id and the number of the row with its revision; head and projected sequence are the length of the log. |
| `Store.ConflictCounterexample` | internal/store/ops.go:102-106 | Two ops for one new revision with different digests: one row, and no answer the client accepts. |
| `Store.ReadPage` | internal/store/changes.go:71-123 | The row loop with its early exits returns the maximal page, with More exactly when it stops short of the head. |
| `Store.PageShows` | internal/store/changes.go:40-46 | A page shows number, time, literal and digest of each row; with a limit or cap out of range it is the largest for 500 entries or 8 MiB. |
| `Store.Store.Changes` | internal/store/changes.go:40-128 | A bad cursor exactly above 2^63-1; otherwise the page, head and epoch of one snapshot under the clamped limits. |
| `Store.Store.HeadSeq` | internal/store/ops.go:184-191 | The head is the length of the log. |
| `Store.Store.constructor` | internal/store/store.go:158-174 | A new hub has an empty log, head 0 and a positive epoch. |
| `Store.Store.LoadOrCreateMeta` | internal/store/store.go:144-179 | A stored epoch is taken over; it is refused exactly when it is no positive decimal; a missing meta row is created. |
| `Store.Store.VerifyHeadConsistency` | internal/store/store.go:188-214 | Afterwards the counter is the log's length, and the epoch changed exactly when it was not. |
| `Store.Store.BumpEpoch` | internal/store/store.go:221-235 | Database and process both have the new epoch; the head is left alone. |
| `Store.Store.Open` | internal/store/store.go:144-235 | For every counter and every log from 1 to m: head becomes m, the log is untouched, and an epoch is drawn exactly when counter and log disagreed; any positive number but the stored one then changes it. |
| `Store.UpsertKeepsRevocations` | internal/store/devices.go:27-45 | Being seen neither lifts nor imposes a revocation, keeps the first sighting and every other device, and records the time, which is the first sighting of a new device, and exactly the first 80 bytes of the name. |
| `Store.Store.RevokeDevice` | internal/store/devices.go:122-141 | Revokes exactly an active known device, and touches nothing else. |
| `Store.Store.SeenDevice` | internal/store/devices.go:49-67 | Records the device and touches nothing else. |
| `Hub.GenuineRowMeans` | internal/store/changes.go:116-121 | A stored body unquotes to bytes with the stored digest, which name the row's own id, kind and revision. |
| `Hub.HandlePush` | internal/hub/handlers.go:50-121 | Answered if and only if the request is acceptable, the device not revoked, the numbers suffice and the transaction commits; 400 exactly for unacceptable requests, 401 exactly for revoked devices; stored whole or not at all; the response bytes read back as one ack per op, if the ids are readable; rows stay genuine. |
| `Hub.HandleChanges` | internal/hub/handlers.go:123-194 | An absent cursor is 0; a limit that is absent or not from 1 to 500 is 500. Refused exactly when no cursor up to 2^63-1 is named or the limit is no number; otherwise the response bytes read back as the largest page of the log after the cursor within the limits, field by field, and their length is bounded. |
| `Hub.DefaultResponseSize` | internal/store/changes.go:27-29 | With default limits every response is at most 8 MiB of literals and a fixed overhead for at most 500 entries. |
| `Hub.HandleStatus` | internal/hub/handlers.go:22-43 | The response reads back as the epoch and the log's length, twice. |
| `Protocol.RunIsSafeIff` | internal/store/ops.go:33-149 | In every state of a run logs are gapless, unique and genuine, and snapshots, pages, clients and acks agree with the log of their epoch, if and only if every file put in the place of a log has the rows that those of its epoch rely on. |
| `Protocol.RunsKeepLogs` | internal/store/schema.go:26-29 | Whatever files are opened, every log of every reachable state is gapless, unique, bounded and genuine. |
| `Protocol.ClientIsSafeIff` | internal/store/store.go:181-206 | A client holds a prefix of its epoch's log throughout a run if and only if every file put in that log's place has the rows it holds and every page of that epoch it is given is an excerpt of the log; nothing that happens to others matters. |
| `Protocol.UncutDeliveryIsGiven` | internal/store/changes.go:40-128 | A page whose rows every file put in since its read has is an excerpt of the log when it is delivered. |
| `Protocol.ClientsHoldPrefixes` | test/clientvalidate/validate.js:154-162 | Such a client is never wedged; on the current epoch it has a cursor at or below the head and exactly the first `cursor` entries. |
| `Protocol.ContiguityNeverFails` | test/clientvalidate/validate.js:154-162 | In every run, whatever is restored, a page that answers a client's present cursor passes its contiguity check, however late. |
| `Protocol.PageWasRead` | internal/store/changes.go:40-128 | Every page there is was read from the log of its epoch as it was at some earlier moment of the run. |
| `Protocol.RowCameFrom` | internal/store/ops.go:69-99 | Every row of every log was put where it is by a push, with the fields of one of its ops and the time of that push, or came with a file that was opened. |
| `Protocol.PageShowsPushes` | internal/store/changes.go:111-118 | Every entry of every page has the time, literal and digest of the push that stored it, or of a row of an opened file. |
| `Protocol.ReceiveMeans` | test/clientvalidate/validate.js:154-162 | One entry out of place wedges a client and gives it nothing; any other page of its epoch is appended; one of another epoch starts it over. |
| `Protocol.NobodyIsWedged` | test/clientvalidate/validate.js:154-162 | No client of any run is ever wedged. |
| `Protocol.LogsOnlyGrow` | docs/protocol.md:145-156 | No step but a restore shortens or rewrites the log of any epoch. |
| `Protocol.StepOnlyGrowsIff` | docs/protocol.md:145-156 | A step keeps the log of an epoch as a prefix, unless it puts in a file that does not have it as one. |
| `Protocol.RepeatedPushIsFree` | internal/store/ops.go:74-100 | A push repeated at any later time of its epoch changes no entry and gets its first numbers, if every file put in between has its ops where they were acked. |
| `Protocol.AckedOpsStayIff` | internal/store/ops.go:115-148 | What was acked stays in the log at the acked position throughout if and only if every file put in the epoch's place has it there. |
| `Protocol.LogIsOnePush` | internal/store/ops.go:65-128 | After any run the log has the entries of one push of everything committed since the file was opened, and the head counts the distinct revisions. |
| `Protocol.ServedLiteralIsTheFirst` | internal/store/ops.go:87-106 | The literal and digest a page shows for a revision are those of the first op committed with it, unless a file put in since has cut this very page off. |
| `Protocol.ServedIsSafeIff` | internal/store/changes.go:40-128 | All snapshots and pages ever read agree with the logs throughout if and only if every file put in a log's place has their rows. |
| `Protocol.RowsAreGenuine` | internal/proto/wrapper.go:77-127 | Every row of every reachable log has its body's digest, id, kind and revision. |
| `Protocol.RevocationIsForGoodIff` | internal/store/devices.go:69-141 | A revoked device stays revoked throughout if and only if every file opened in between still has it revoked. |
| `Protocol.RevokedNeverPushes` | internal/store/ops.go:45-51 | While it is revoked no push of the device is stored. |
| `Protocol.RestoreIsSafeIff` | internal/store/store.go:181-206 | Opening a file that agrees with itself in a known epoch keeps the invariant if and only if it has, row for row, what every snapshot, page, client and ack of the epoch relies on. |
| `Protocol.OlderIsSafeIff` | internal/store/store.go:181-206 | For an older state of the same log that is to say: no snapshot, page, client or ack of the epoch lies above the restored head. |
| `Protocol.ReopeningIsHarmless` | internal/store/store.go:203-205 | Opening one's own file as it was left is such a restore, and nothing differs. |
| `Protocol.StrandedSilently` | internal/store/store.go:183-187 | While the log has not outgrown its cursor, any client above the head gets only empty pages without More, and does not change. |
| `Protocol.DivergesSilently` | internal/store/store.go:183-187 | Once the log has outgrown its cursor the client is fed entries that pass its check, and is consistent again if and only if the log repeats the very rows it lost. |
| `Protocol.AckedOpIsLost` | internal/store/store.go:183-187 | An acked op above the head of an older file that is put back is no longer in the log. |
| `Protocol.RestoreCounterexample` | docs/architecture.md:51-54 | One row, one client, one empty file put back: the client's prefix property is lost. |
| `Protocol.InFlightCounterexample` | docs/architecture.md:51-54 | A client not above the restored head and a page already on its way: delivered, it breaks the client's prefix property. |
| `Refinement.PushTakesAStep` | internal/store/ops.go:33-149 | Every call of Push is a step of the protocol, with the acks it returns recorded. |
| `Refinement.ChangesTakesSteps` | internal/store/changes.go:40-128 | Every answered page is read from a snapshot and sent, as the protocol has it. |
| `Refinement.RevokeTakesAStep` | internal/store/devices.go:122-141 | A revocation is a step of the protocol. |
| `Refinement.SeenTakesAStep` | internal/store/devices.go:49-67 | Recording a device that only pulls is a step of the protocol. |
| `Refinement.OpenTakesAStep` | internal/store/store.go:144-235 | Opening any drifted file, or one without meta, with any device table, takes it up in a fresh epoch; opening any file that agrees with itself is a restore, or a fresh opening if its epoch is new. |
| `Refinement.PullTakesSteps` | internal/hub/handlers.go:123-194 | A client that asks from its cursor, reads the bytes of the response and applies them takes three steps of the protocol and keeps its invariant. |
| `Refinement.PushRequestTakesAStep` | internal/hub/handlers.go:50-121 | A push request, from its wrappers to the bytes of its answer, is a push step or none. |
| `Pairing.Normalise` | internal/pair/codes.go:115-123 | Keeps exactly the digits, in order. |
| `Pairing.DigitsKeepNumerals` | internal/pair/codes.go:115-123 | The characters 0 to 9 are kept and nothing else is. |
| `Pairing.GroupingIsIgnored` | internal/pair/codes.go:126-137 | A new code is recognised however its digits are grouped. |
| `Pairing.Window.Redeem` | internal/pair/codes.go:78-106 | Does to the window what the reference window does on that guess, judged by the exact clock, and returns the key exactly on release. |
| `Pairing.FileWindow.OpenWindow` | internal/pair/window_file.go:50-79 | A new window with no wrong guesses replaces any earlier one and its code is shown in three groups of three, or the write fails, nothing is shown and the file stays. |
| `Pairing.FileWindow.Redeem` | internal/pair/window_file.go:96-150 | Does to the file what the reference window does on that guess, judged by whole milliseconds and compared by hash, for every combination of failing writes, removals and key loads. |
| `Pairing.FaultsReleaseNothing` | internal/pair/window_file.go:127-149 | Without faults that is the reference window; with any, the key is released only where it would be without, and the window is then gone. |
| `Pairing.Budget` | internal/pair/codes.go:78-106 | In any series of guesses at most five wrong codes are looked at, the key is released at most once and never when five were used up. |
| `Pairing.CountsArePlaces` | internal/pair/codes.go:78-106 | What is counted there: the places of the series with a wrong code, and with a release. |
| `Pairing.ReleasedExactlyWhen` | internal/pair/codes.go:82-105 | A guess gets the key if and only if it is the first right code, came in time like all before it, and fewer than five wrong ones came first. |
| `Pairing.TwinsAgreeIff` | internal/pair/window_file.go:118-121 | Both windows give the same verdicts on a series exactly when no reading made while they are open is judged differently by milliseconds. |
| `Pairing.WholeMillisecondsAgree` | internal/pair/window_file.go:118-121 | With whole-millisecond clocks that is always so. |
| `Pairing.SubMillisecondDisagreement` | internal/pair/codes.go:85-88 | For every code: one nanosecond after a deadline that does not end its millisecond, the window in memory refuses and the one in the file releases. |
| `Pairing.RunTwins` | internal/pair/window_file.go:96-150 | The two objects, run on the same guesses and readings, give the verdicts of the reference window and agree exactly under that condition. |
| `PairingRace.BudgetHolds` | internal/pair/window_file.go:96-183 | For every interleaving of redeemers, openers, closers, crashes and removals of locks of processes outside their critical section: per window at most five wrong codes beyond the attempts that could not be recorded, at most one release, and none if the five are used up. |
| `PairingRace.ReleasesAreEarned` | internal/pair/window_file.go:118-149 | In every such run a process about to release a key was given the code that window was made with, before the deadline it was made with, however often the file was rewritten. |
| `PairingRace.MutualExclusion` | internal/pair/window_file.go:157-170 | At most one process is between taking and releasing the lock. |
| `PairingRace.StepKeepsInv` | internal/pair/window_file.go:50-183 | Every file operation of every process, and the removal of an orphaned lock, keeps the invariant that file, counts and what processes have read agree. |
| `PairingRace.FailuresLeaveFiles` | internal/pair/window_file.go:127-149 | A file operation that fails leaves both files alone and releases nothing; what could not be recorded is counted as lost. |
| `PairingRace.StealIsSafeIff` | internal/pair/window_file.go:171-177 | Five wrong codes, one release and none after five hold of every window in every lawful continuation after a lock is removed if and only if its process is outside its critical section. |
| `PairingRace.Linearizable` | internal/pair/window_file.go:50-183 | In every run without failed file operations, abandoned locks included, the outcomes in lock order are those of the reference window on the same guesses and openings one at a time, and so is the file left. |
| `PairingRace.HashedGuess` | internal/pair/window_file.go:127 | Comparing hashes is comparing codes, as long as no other code has the right one's hash. |
| `PairingRace.StolenLockReleasesTwice` | internal/pair/window_file.go:171-177 | From every state in which the lock's holder is at work, for every hash and every code of nine numerals: once its lock is removed, a continuation without another removal releases some window twice. |
| `Backfill.FilterFor` | internal/clientdb/backfill.go:173-197 | The clauses built, under three-valued logic, keep exactly the rows in scope, for every project and for NULL. |
| `Backfill.SelectedIff` | internal/clientdb/backfill.go:173-197 | A run selects exactly the local rows of the project named, if any, that are of no excluded one; a prompt's project is that of its session. |
| `Backfill.RequeuedMeans` | internal/clientdb/backfill.go:128-158 | Row by row and entry by entry: stamps of selected rows are cleared, their baseline entries moved to the undo table unless it has one. |
| `Backfill.UndoneMeans` | internal/clientdb/backfill.go:213-240 | Saved entries return unless there is one again, and the unstamped local rows they cover are stamped. |
| `Backfill.PromptWithoutProject` | internal/clientdb/backfill.go:177-180 | A prompt whose project is NULL is selected exactly when no project is named. |
| `Backfill.SeriesIsOneRun` | internal/clientdb/backfill.go:128-158 | Any series of runs does what one run over all their rows does. |
| `Backfill.OthersUntouched` | internal/clientdb/backfill.go:153-155 | No series changes a foreign row or a row outside every scope. |
| `Backfill.BaselineIsConserved` | internal/clientdb/backfill.go:132-151 | Baseline and undo table stay disjoint and together are the original baseline. |
| `Backfill.UndoRestoresBaseline` | internal/clientdb/backfill.go:220-246 | One undo after any series restores the baseline, and the count it reports is what was saved. |
| `Backfill.RowAfterUndo` | internal/clientdb/backfill.go:227-236 | After any series and one undo only the stamp of a selected row can differ: the undo's time if the baseline covered it, nothing otherwise. |
| `Backfill.UndoRestoresQueueIff` | internal/clientdb/backfill.go:227-236 | A series followed by one undo restores the push queue if and only if every local row in some run's scope was stamped exactly when it had a baseline entry. |
| `Backfill.UndoLeavesUploadedRowsQueued` | internal/clientdb/backfill.go:227-236 | A row that was stamped after its upload, and never in the baseline, is queued after a backfill and its undo. |
| `Backfill.QueueAfterEventsAndUndo` | internal/clientdb/backfill.go:227-236 | After any interleaving of runs and uploads and one undo, a local row is queued if and only if the last event that concerned it left it so, and no run that selected it found it in the baseline; the baseline is the original one. |
| `Backfill.OnlyUploadsEmptyTheQueue` | internal/clientdb/backfill.go:128-158 | From a database as migration v47 leaves it, runs and uploads in any order and one undo add nothing to the queue and take from it only rows that were uploaded. |
| `Backfill.BackfillIsIdempotent` | internal/clientdb/backfill.go:128-158 | Running the same backfill again changes nothing. |
| `Backfill.ClientDb.Backfill` | internal/clientdb/backfill.go:50-164 | Refuses beside a worker and without migration v47; a dry or failed run changes nothing; any other takes a backup of everything and requeues exactly the selected rows; counts, size and saved entries are as reported. |
| `Backfill.ClientDb.UndoBackfill` | internal/clientdb/backfill.go:200-247 | An error without an undo table; otherwise the specified undo and its count. |
| `Backfill.ClientDb.CountPending` | internal/clientdb/clientdb.go:71-82 | The size of the push queue per table. |

## Left out

- PairingRace.Linearizable: runs with failed file operations, an unlocked `Close` or a crash after the judgement have no such order; `BudgetHolds` covers them.
- Reading.PushRoundTripIff: what a client that tolerates Go escapes would read is not modelled; the client uses JSON.parse.
- Wrapper.ParseOp: the reasons for a refusal other than a wrong digest are returned but not specified further.
- JsonString.UnquoteJSONString: the loop of the source is split into helper methods for the loop, one turn of it, escapes and raw bytes; the same branches run in the same order.
- Backfill.FilterFor: `strings.TrimSpace` is a parameter.
- Store.Store.Push: the warning logged for a digest conflict is not modelled.
- HTTP plumbing, headers, the free-space floor, timeouts, in-flight limits and panic recovery: control flow around the modelled handlers.
- SQL text, pragmas, permissions and schema migration: tables are maps, transactions are atomic.
- `ListDevices`, `Redeemed`, `Expires` and other accessors: they would only add easy members.
- The client's canonical-JSON check and payload contents: the hub never looks at them.
- Constant-time comparison and random generation: a comparison, and parameters.
- Discovery, service units, the worker restart, bind classification, settings and command-line flags.
