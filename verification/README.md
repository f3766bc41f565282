# SingVote signature intake — a Dafny model

SingVote is a Cloudflare Worker that collects petition signatures from
anonymous visitors, lets each device sign at most once, and reports
progress toward a target of 667 signatures. This project models the
decision logic of its HTTP handler (`src/index.ts`) as pure functions
over an abstract store, and proves properties of it.

The `user` table is a `Table = seq<Record>` in insertion order; a SQL
query's `results[0]` is the first matching row of the sequence. Each
endpoint becomes a function from the table and the already-parsed request
to a response value and, for `/sign`, the table after the request.

| module | file | what it models |
|---|---|---|
| `Common` | `common.dfy` | `Option` (JavaScript `null`) and `Result` (a value or an error response) |
| `JsString` | `js_string.dfy` | `startsWith`, `trim` (ECMAScript whitespace and line terminators), `split` on one character |
| `Store` | `store.dfy` | the row type, first-match lookups by uuid, fingerprint and id, AUTOINCREMENT ids, the table invariant |
| `Normalizer` | `normalizer.dfy` | stripping a `data:image/...` header from the submitted image |
| `Intake` | `intake.dfy` | `/sign`: ordered validation, the combined duplicate check, the single insert |
| `Resolver` | `resolver.dfy` | the uuid-then-fingerprint lookup of `/user-status` and `/user-signature` |
| `Statistics` | `statistics.dfy` | `/statistics`: count, target, progress in tenths of a percent |
| `ReadViews` | `read_views.dfy` | `/all-signatures` (redacted listing) and `/signature/download/:id` |
| `Auth` | `auth.dfy` | the bearer-token gate run before dispatch |

Inputs the Worker reads from its environment are parameters: the current
time `now` (an ISO-8601 string), the submitter's address `ip`, the
`Authorization` header and the stored secret (`Option<string>`). A JSON
string field that is missing is modelled as `""`; the handler treats
both as falsy in the same way. `signature_time` is an `Option<string>`,
and `Some("")` behaves like `None`.

Three consequences of `src/index.ts` that the model makes explicit:

- The image is `split(',')[1] || original`, the text between the first
  and the second comma (`Normalizer.NormalizeImageKeepsMiddleSegment`:
  `data:image/png;base64,AAA,BBB` becomes `AAA`).
- Validation looks at the untrimmed name and room; trimming happens only
  when storing. A whitespace-only name passes and is stored as `""`
  (`Intake.WhitespaceNameStoredEmpty`), so the table invariant says
  nothing about stored names or rooms being non-empty.
- The resolver behind the read paths and the combined OR-check of `/sign`
  agree on whether a device is known (`Resolver.StatusMatchesIntake`);
  they differ only in which matching row is picked.

## Model

| member | source | states |
|---|---|---|
| `JsString.Trim` | src/index.ts:223-224 | the result is an infix of the input with only whitespace removed before and after it, and neither of its ends is whitespace |
| `JsString.TrimEmptyIffAllWhitespace` | src/index.ts:223-224 | trimming gives the empty string exactly when the input is all whitespace |
| `JsString.TrimOfUntrimmed` | src/index.ts:223-224 | a string with no whitespace at either end is returned unchanged |
| `JsString.TrimIdempotent` | src/index.ts:223-224 | trimming a trimmed string changes nothing |
| `JsString.IndexOf` | src/index.ts:202 | the position found lies between the start of the search and the end; no position in between holds the character; a position before the end holds it |
| `JsString.IndexOfIs` | src/index.ts:202 | any position with those properties is the one found, so the search result is unique |
| `JsString.Split` | src/index.ts:202 | splitting on a character yields at least one piece and no piece contains the separator |
| `JsString.JoinSplit` | src/index.ts:202 | joining the pieces of a split with the separator gives back the input |
| `JsString.SplitJoin` | src/index.ts:202 | splitting a join of separator-free pieces gives back exactly those pieces |
| `JsString.SplitFirstPieces` | src/index.ts:202 | without the separator the split is the whole input; otherwise the second piece runs from just after the first separator to the next one or to the end |
| `Store.FirstMatch` | src/index.ts:140-144 | the first row whose uuid (or fingerprint) equals the value, and none exactly when no row has that value |
| `Store.AppendedRowIsFirstMatch` | src/index.ts:140-144 | a row appended with a uuid (or fingerprint) that no earlier row has is the first match for it |
| `Store.FindById` | src/index.ts:324-335 | the first row with the id, and none exactly when no row has that id |
| `Store.MaxId` | src/index.ts:89 | an upper bound of every id that some row attains |
| `Store.NextId` | src/index.ts:89 | the id given to a new row is positive and larger than every id in the table |
| `Normalizer.NormalizeImage` | src/index.ts:199-211 | input without the `data:image/` prefix is returned unchanged; any changed result is non-empty and comma-free; non-empty input never yields an empty image |
| `Normalizer.NormalizeImageBetweenCommas` | src/index.ts:200-202 | for a `data:image/` input with a comma, the image is the non-empty text between the first comma and the next comma (or the end); in every other case it is the input |
| `Normalizer.NormalizeImageOfSegments` | src/index.ts:200-202 | for a prefixed `head,segment[,rest]` the image is the segment if non-empty, otherwise the whole input |
| `Normalizer.NormalizeImageIdempotent` | src/index.ts:199-211 | normalising an already normalised image changes nothing |
| `Normalizer.NormalizeImageStripsHeader` | src/index.ts:200-202 | `data:image/png;base64,AAA` gives `AAA` |
| `Normalizer.NormalizeImageKeepsMiddleSegment` | src/index.ts:200-202 | `data:image/png;base64,AAA,BBB` gives `AAA`, not `AAA,BBB` |
| `Normalizer.NormalizeImageEmptySegment` | src/index.ts:200-202 | `data:image/png;base64,` has an empty segment and is kept whole |
| `Intake.Validate` | src/index.ts:167-184 | validation passes exactly when all five required fields are non-empty, and never reports a duplicate |
| `Intake.CreatedAt` | src/index.ts:226 | the client's `signature_time` when present and non-empty, otherwise the server clock |
| `Intake.Submit` | src/index.ts:161-232 | errors in the order name/signature, room, device info, duplicate; no write on any error; on success exactly one row is appended, carrying the given identifiers, trimmed name and room, normalised image, creation time and a fresh larger id; success exactly when the request is complete and no row shares its uuid or fingerprint |
| `Intake.SubmitPreservesWellFormed` | src/index.ts:187-227 | one submission keeps uuids unique, fingerprints unique, ids unique and both identifiers non-empty in every row |
| `Intake.AppendPreservesWellFormed` | src/index.ts:214-227 | appending a row with unclaimed non-empty identifiers and a larger id keeps the table invariant |
| `Intake.ReplayPreservesWellFormed` | src/index.ts:187-227 | any sequence of submissions handled one after another keeps the table invariant |
| `Intake.NoDuplicateDevices` | src/index.ts:187-196 | from an empty table, sequential submissions never store two rows with one uuid or two rows with one fingerprint |
| `Intake.ReplayOnlyAppends` | src/index.ts:214-227 | the earlier table is a prefix of the later one, which grows by at most one row per submission |
| `Intake.SecondSubmissionRejected` | src/index.ts:187-196 | after a device signs, a complete submission reusing its uuid or its fingerprint is rejected as already signed |
| `Intake.WhitespaceNameStoredEmpty` | src/index.ts:167-224 | a whitespace-only name passes validation and is stored as the empty string |
| `Resolver.Resolve` | src/index.ts:139-152 | the first row with the uuid whenever one exists; otherwise the first row with the fingerprint; none exactly when no row matches either |
| `Resolver.UserStatus` | src/index.ts:129-158 | an error exactly when an identifier is empty; otherwise `hasSigned` exactly when some row matches either identifier, and the name is that of the first row with the uuid, or, when no row has the uuid, of the first row with the fingerprint |
| `Resolver.UserSignature` | src/index.ts:235-269 | null for an empty identifier or an unknown device; otherwise the name, image, time and room of the first row with the uuid, or, when no row has the uuid, of the first row with the fingerprint |
| `Resolver.StatusAgreesWithSignature` | src/index.ts:242-268 | for a complete query, `/user-status` reports signed exactly when `/user-signature` returns a signature, and both give the same name |
| `Resolver.SubmitThenResolve` | src/index.ts:139-152 | after a successful submission the device resolves to the new row by its uuid, or by its fingerprint when the uuid asked for is unknown |
| `Resolver.StatusMatchesIntake` | src/index.ts:187-191 | a device is reported as signed exactly when `/sign` would reject it as already signed |
| `Statistics.ProgressTenths` | src/index.ts:285-295 | at most 1000; below the cap it is the integer nearest to total × 1000 / 667; it reaches 1000 exactly when the total is at least 667 |
| `Statistics.ProgressMonotone` | src/index.ts:292-295 | more signatures never show less progress |
| `Statistics.ProgressExamples` | src/index.ts:287-295 | 0 signatures give 0.0%, 333 give 49.9%, 1000 are capped at 100.0% |
| `Statistics.StatisticsOf` | src/index.ts:284-300 | the total is the row count, the target is 667, and the progress is the capped, rounded tenths of `ProgressTenths` for that count, full exactly when the count reaches the target |
| `ReadViews.PublicListing` | src/index.ts:272-281 | one entry per row with that row's id, name, room and time, and a total equal to the row count |
| `ReadViews.PublicListingHidesDeviceData` | src/index.ts:273-275 | tables that differ only in ip, device identifiers and images give identical listings |
| `ReadViews.DownloadById` | src/index.ts:313-348 | user-not-found exactly when no row has the id; otherwise no-image exactly when the first such row's image is empty, and else that row's name and image |
| `ReadViews.DownloadAfterSubmit` | src/index.ts:324-347 | a freshly stored signature downloads by its new id with the trimmed name and the normalised image |
| `Auth.Authorize` | src/index.ts:55-83 | `/health` and `/version` always pass; otherwise a missing or empty header is refused first, then a header without `Bearer `; a request passes exactly when the header is `Bearer ` followed by the configured secret |
| `Auth.NoSecretDeniesAll` | src/index.ts:75-82 | with no secret configured every non-exempt request is refused |

## Left out

- HTTP plumbing: CORS headers, the OPTIONS preflight, method and path dispatch, the 404 for unknown paths, JSON parsing and response construction (src/index.ts:39-49, 351-354). These are transport concerns.
- Table creation and SQL execution (src/index.ts:87-98) are replaced by the abstract `Table`. Row order of an unordered query is unspecified in SQL; the model takes insertion order.
- Fetching the secret from the KV store and logging it (src/index.ts:52-53) are foreign I/O. The secret is a parameter.
- The `/health` and `/version` endpoints (src/index.ts:100-126) return constants or ping the database. Only their exemption from the token gate is modelled.
- `/admin/signatures` (src/index.ts:304-311) returns the whole table unchanged, so it has no logic to model.
- The clock (`new Date().toISOString()`) and the address (`CF-Connecting-IP || request.ip`, src/index.ts:164) are parameters `now` and `ip`.
- The download path's `(\d+)` pattern (src/index.ts:314-323) is not modelled. The id arrives as a `nat`, and SQLite's conversion of the digit string to an integer is assumed.
- `ReadViews.PublicListing`: lists rows in table order, not `ORDER BY created_at DESC`, because that sort belongs to the storage engine.
- `Statistics.ProgressTenths`: computes exactly in integer tenths rather than in IEEE-754 doubles as `Math.round` and `/` do.
- The race between the duplicate check and the insert under concurrent submissions. Each submission is one atomic step, and uniqueness is claimed only for sequential submissions.
- The generic 500 handler (src/index.ts:356-366), and the `try`/`catch` around `split` (src/index.ts:201-208), which cannot fire. Requests whose fields are not strings, which would make `trim` throw, are not modelled either.
- Strings are sequences of Unicode scalar values, not UTF-16 code units. `Bearer ` and the `data:image/` prefix are ASCII, so slicing and prefix tests agree with JavaScript.
