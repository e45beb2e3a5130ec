# Emission dashboard and batch verification — a Dafny model

This project models the two pieces of logic in the emission manager's web
front end that carry behaviour:

- **The dashboard window** (`frontend/src/app/page.tsx`). The component's state has three fields:
  - `data`: the readings shown in the chart;
  - `latestCo2`: the figure in the "Current CO₂" card;
  - `isLoading`: the spinner flag.

  The history load fetches up to 50 rows newest first. It reverses them in place into chronological order and takes the latest figure from the newest row. Each realtime INSERT event appends its record to the window and trims the window to its last 50 readings. It also sets the latest figure unconditionally. The card shows "--" when there is no figure. Otherwise it shows the figure and, beside it, an air-quality badge: Excellent below 1000 ppm, Moderate below 2000 ppm, Poor otherwise.
- **The verification action** (`frontend/src/app/actions/verify.ts`). It reads the five newest readings. It fails if the read errored, and fails differently if no rows came back. Otherwise it hashes the JSON text of the batch with SHA-256. It returns:
  - `hash`: "0x" and the digest in hex;
  - `txnId`: "0x" and the hex of 32 random bytes;
  - `timestamp`: the current time;
  - `recordCount`: the batch length.

Files and modules:

- `wrappers.dfy` (`Wrappers`): `Option`, which stands for JavaScript's `null`.
- `emission.dfy` (`Emission`): the `Reading` row and the two orderings by `created_at`.
- `dashboard.dfy` (`Dashboard`): the window updater and the history reversal as functions, the in-place reversal as a method, and the card's band and figure. It also holds the `DashboardState` class, whose methods are the state transitions.
- `hex.dfy` (`Hex`): Node's lower-case hex encoding and its decoder.
- `verification.dfy` (`Verification`): `verifyData` as a function returning a `Verified` record or a `Failed` message.

`created_at` is an abstract integer key. `co2_level` is a `real`; the source only compares it with exact thresholds.

Several behaviours one might expect are absent from the code, and the model does not add them:
- No insert is de-duplicated by `id`. `DuplicateIdAppended` proves that a repeated id is appended again.
- The history load does not trim a snapshot longer than 50 rows. `FinishFetch` promises the bound only when the query kept its limit.
- No live event is reordered: an event that arrives out of order is still appended at the end.
- The anchoring step has no failure mode. The transaction id is simply random bytes.
- No record is validated, neither a live event nor a fetched row.

## Model

| member | source | states |
|---|---|---|
| `Dashboard.AppendTrim` | frontend/src/app/page.tsx:58-65 | after an insert the window has min(old length + 1, 50) readings; it is a suffix of the old window followed by the new record; its last element is the new record; a window under 50 is extended by exactly that record |
| `Dashboard.AppendTrimEvictsOldest` | frontend/src/app/page.tsx:60-63 | on a full window, eviction drops exactly the oldest reading, from the front |
| `Dashboard.AppendTrimKeepsOrder` | frontend/src/app/page.tsx:60-62 | a record no older than the newest one held keeps the window in non-decreasing `created_at` order |
| `Dashboard.DuplicateIdAppended` | frontend/src/app/page.tsx:57-64 | no de-duplication: below the limit, the count of readings carrying the new record's id goes up by one even when that id is already present |
| `Dashboard.ApplyInsertsKeepsLast` | frontend/src/app/page.tsx:58-65 | after any non-empty run of inserts, the window is exactly the last 50 of the old window followed by the events, in arrival order |
| `Dashboard.ApplyInsertsBounded` | frontend/src/app/page.tsx:29 | a window of at most 50 readings, as the history query's limit provides, stays at most 50 over any run of inserts |
| `Dashboard.ApplyInsertsKeepsOrder` | frontend/src/app/page.tsx:60-62 | events in order after an ordered window leave the window in order |
| `Dashboard.FromEmptyKeepsMostRecent` | frontend/src/app/page.tsx:60-64 | from an empty window, any run of inserts leaves exactly the 50 most recent events |
| `Dashboard.Chronological` | frontend/src/app/page.tsx:35 | reversing the history keeps its length and its readings, as a permutation |
| `Dashboard.ChronologicalAt` | frontend/src/app/page.tsx:35 | position k of the chronological window holds row n-1-k of the fetched history |
| `Dashboard.ChronologicalLast` | frontend/src/app/page.tsx:37-38 | the window's last reading, which gives the latest figure, is the first row the query returned |
| `Dashboard.ChronologicalInvolution` | frontend/src/app/page.tsx:35 | reversing twice gives the history back, so the reversal loses nothing |
| `Dashboard.ChronologicalOrders` | frontend/src/app/page.tsx:28-35 | a history in descending `created_at` order becomes a window in ascending order |
| `Dashboard.ReverseHistory` | frontend/src/app/page.tsx:35 | `history.reverse()` leaves the array holding the chronological order of its former contents |
| `Dashboard.Band` | frontend/src/app/page.tsx:180-197 | no badge exactly when there is no figure; Excellent iff below 1000, Moderate iff in [1000, 2000), Poor iff 2000 or more, so exactly one band applies |
| `Dashboard.BandMonotone` | frontend/src/app/page.tsx:182-197 | a higher reading never gets a better badge |
| `Dashboard.CurrentCo2Panel` | frontend/src/app/page.tsx:176-180 | "--" is shown exactly when there is no figure, the figure otherwise; a badge is shown exactly when a figure is, and it is the band of that figure |
| `Dashboard.DashboardState.constructor` | frontend/src/app/page.tsx:17-19 | the initial state is an empty window, no figure, loading on |
| `Dashboard.DashboardState.StartFetch` | frontend/src/app/page.tsx:24 | the history load first turns loading on and changes nothing else |
| `Dashboard.DashboardState.FinishFetch` | frontend/src/app/page.tsx:31-41 | on error or null rows, window and figure are unchanged; otherwise the window is the reversed history and the figure is the first row's, or unchanged for no rows; loading ends off either way; the latest figure stays that of the newest reading; the window is ordered and bounded when the history was |
| `Dashboard.DashboardState.OnInsert` | frontend/src/app/page.tsx:56-67 | the window becomes the appended-and-trimmed one; the figure becomes the new record's unconditionally; loading is untouched; the window is within 50 and its newest reading gives the figure; the order is kept when the record is no older |
| `Hex.Encode` | frontend/src/app/actions/verify.ts:33 | the hex text has two lower-case hex digits per byte |
| `Hex.DecodeEncode` | frontend/src/app/actions/verify.ts:33 | decoding the hex text of any bytes gives the bytes back |
| `Hex.EncodeInjective` | frontend/src/app/actions/verify.ts:39 | distinct byte sequences have distinct hex texts |
| `Verification.VerifyData` | frontend/src/app/actions/verify.ts:11-47 | a fetch error fails with "Failed to fetch data for verification." whatever the rows; otherwise null or zero rows fail with "No data available to verify."; it succeeds exactly when the fetch succeeds with rows; on success the count is the batch length (at least 1), hash and txnId are "0x" plus 64 hex digits, and the timestamp is the supplied time |
| `Verification.HashIsDigestOfBatch` | frontend/src/app/actions/verify.ts:30-33 | the hash after "0x" decodes to the SHA-256 digest of the serialised batch |
| `Verification.HashDependsOnlyOnBatch` | frontend/src/app/actions/verify.ts:30-42 | two calls over the same batch give the same hash whatever their random bytes and time, and two hashes agree exactly when the digests agree |
| `Verification.TxnIdIsRandomBytes` | frontend/src/app/actions/verify.ts:39 | the transaction id after "0x" decodes to the supplied random bytes; equal ids exactly when the random bytes are equal, whatever the batches |
| `Verification.RecordCountWithinQueryLimit` | frontend/src/app/actions/verify.ts:17 | with the query's limit of five rows, a record counts one to five readings |

## Left out

- Markup, styling, chart configuration, icons and `formatTime`. They are presentation only, and `formatTime` formats dates by locale.
- The store client: its creation, queries, realtime channel and channel removal. These are network I/O. A query's result is an input value. A realtime event is a call to `OnInsert`.
- The queries' guarantees (`.order` and `.limit`) are premises of the lemmas that use them: `ApplyInsertsBounded`, `ChronologicalOrders`, `RecordCountWithinQueryLimit`, and the conditional ensures of `FinishFetch`.
- The realtime feed's delivery order is a separate premise. No query clause provides it. `AppendTrimKeepsOrder`, `ApplyInsertsKeepsOrder` and the conditional ensures of `OnInsert` assume that each inserted record is no older than the newest reading in the window.
- React's scheduling. Each setter group is one atomic method. `fetchHistory` is split at its `await` into `StartFetch` and `FinishFetch`, and inserts may be called between them. State updates that React batches or defers are not modelled.
- Dashboard.DashboardState.FinishFetch: in the source, the state holds the very array that was reversed, so the state and `history` alias. The model copies its contents into a `seq` field.
- `console.error` logging on a failed history load.
- `JSON.stringify` and SHA-256. They are the function parameters `serialize` and `sha256` of `VerifyData`; a digest is any 32 bytes. The hash is taken over the payload as a string, not its UTF-8 bytes. So no lemma says that changing a field changes the digest: that needs collision resistance, which cannot be proved here.
- `crypto.randomBytes(32)`, the two-second delay and `new Date().toISOString()`. They are randomness, timing and the clock. The random bytes and the time string are parameters, and the delay has no observable effect.
