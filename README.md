# Senbon guestbook backend and helpers, modelled in Dafny

This project models the guestbook backend of the Senbon web site, together with three small helpers it ships beside it.

- **The in-memory guestbook store.** When no database is configured, the guestbook API keeps every row in a module-level `memory` array, and its POST, GET and DELETE handlers work on that array directly. Here the store is the class `Guestbook.Store`, holding a sequence of rows. Its methods are proved against the functions `Submit`, `ListItems` and `Remove`, which say what each request answers and what the store becomes.
- **The admin gate of the moderation endpoint.**
  - Which request channel supplies the token: the `x-admin-token` header, then a bearer `Authorization` header, then the `token` search parameter.
  - The rule that a blank secret refuses every request.
  - The list query GET chooses.
  - The `(approved, rejected)` pair a PATCH writes.
  - The separate token-verification endpoint, and its own choice of secret.
- **Connection resolution.**
  - Which configuration key supplies the database connection string (the `getSql` loop, modelled as a method).
  - Whether a database counts as configured; the two resolvers in the code disagree on this.
  - The start-up step `hydratePostgresEnv`, which copies a discovered connection string into `POSTGRES_URL` (a method on a mutable `ProcessEnv`).
- **Entry normalisation.**
  - The two `normalizeEntry` functions, which derive an entry's status with the precedence rejected, then pending, then approved.
  - The fallback lists.
  - The pending-first merge.
  - The flags the admin client sends for a requested status.
- **Helpers.**
  - `generateHeadingId` and `extractHeadings` (the table of contents). `extractHeadings` is modelled as its `exec` loop, over an exact model of `^(#{1,4})\s+(.+)$` with the `g` and `m` flags.
  - `getTextContent`, over a datatype of React child values.
  - The Konami key listener, as a class with the key buffer and the `unlocked` flag.

The JavaScript built-ins the code relies on live in `Js`:

- the white-space set of `\s` and `trim`;
- ASCII case mapping;
- `parseInt(s, 10)` and `String(n)` for integers;
- JSON truthiness;
- `Array.prototype.slice`.

`process.env` is modelled as the ordered list of its entries (`Env`), and request headers and search parameters as maps (`Http`).

The modules are:

- `Wrappers`, `Js`, `Env` and `Http`: the base layer.
- `Connection`, `Auth`, `Approve`, `Entries` and `Guestbook`: the backend.
- `Toc`, `MarkdownText` and `Konami`: the helpers.

The clock, `crypto.randomUUID` and SHA-256 are parameters. Timestamps are integer milliseconds.

## Model

| member | source | states |
|---|---|---|
| Env.FirstSet | src/app/api/guestbook/route.ts:11-15 | an `\|\|` chain over keys gives the value of the first key that is set; undefined exactly when none is |
| Env.Assign | src/lib/db-server.ts:96 | assigning a key makes it read back as the new value and leaves every other key's value as it was |
| Js.Trim | src/app/api/guestbook/route.ts:245 | the trimmed string is empty exactly when the input is white space only, and is never longer than the input |
| Js.TrimIdempotent | src/app/api/guestbook/route.ts:362 | trimming twice is trimming once |
| Js.TrimCharacterised | src/app/api/guestbook/route.ts:245 | `r` is the trim of `s` exactly when `r` is the stretch of `s` left once white space is cut from both ends: only white space around it, none at either end |
| Js.ParseInt | src/app/api/guestbook/route.ts:149-150 | NaN exactly when, after the leading white space and an optional sign, no digit follows; a negative result comes from a leading '-' |
| Js.Slice | src/components/easter-eggs/KonamiPortal.tsx:28 | a prefix of the input from the start index on; its length is end index minus start index when the end index is after it, else 0 |
| Js.SliceWindow | src/app/api/guestbook/route.ts:167 | `slice(offset, offset + limit)` is the window of at most `limit` elements starting at `offset` |
| Js.IntToStringRoundTrip | src/components/blog/markdown/utils.ts:9 | parseInt reads back String(n) for every integer n |
| Auth.AdminSecret | src/lib/auth.ts:1 | GUESTBOOK_ADMIN_TOKEN when non-empty, else ADMIN_TOKEN when non-empty, else no secret; a secret is never "" |
| Auth.IsAdminTokenValid | src/lib/auth.ts:3-6 | valid exactly when a secret exists and the token equals it with no trimming; never for a missing token, never without a secret |
| Auth.VerifyToken | src/app/api/auth/route.ts:4-16 | missing or shorter-than-4 tokens answer 422 and valid = false; other tokens answer 200 with isAdminTokenValid's verdict |
| Auth.ShortTokenIgnoresSecret | src/app/api/auth/route.ts:9-12 | a short token gets the same 422 answer under every environment |
| Auth.ShortSecretNeverVerifies | src/app/api/auth/route.ts:4-15 | a configured secret shorter than 4 characters can never be confirmed |
| Approve.HeaderToken | src/app/api/guestbook/approve/route.ts:115-125 | precedence: a non-empty x-admin-token wins; then a "bearer " header in any case gives its text after 7 characters; then the `token` parameter; always trimmed |
| Approve.ExpectedToken | src/app/api/guestbook/approve/route.ts:129 | GUESTBOOK_ADMIN_TOKEN with its blank ends cut off: a stretch of the value with only white space around it and no white space at either end; empty exactly when the variable is unset or blank |
| Approve.ExpectedTokenIgnoresAdminToken | src/app/api/guestbook/approve/route.ts:129 | changing ADMIN_TOKEN never changes the secret the moderation gate expects |
| Approve.RequireAdmin | src/app/api/guestbook/approve/route.ts:127-136 | a request passes exactly when GUESTBOOK_ADMIN_TOKEN is not blank and the presented token is that value with its blank ends cut off |
| Approve.BlankSecretLocksOut | src/app/api/guestbook/approve/route.ts:129-133 | with a blank secret, no headers and no query pass the gate |
| Approve.EveryChannelAdmits | src/app/api/guestbook/approve/route.ts:115-135 | with a secret configured, each channel admits the secret, padded or not |
| Approve.HeaderChannelAdmits | src/app/api/guestbook/approve/route.ts:116-117 | the x-admin-token header alone admits the padded secret |
| Approve.BearerToken | src/app/api/guestbook/approve/route.ts:119-120 | a lone "Bearer " + rest header yields Trim(rest) as the token |
| Approve.BearerChannelAdmits | src/app/api/guestbook/approve/route.ts:119-120 | "Bearer " + the padded secret passes the gate |
| Approve.QueryChannelAdmits | src/app/api/guestbook/approve/route.ts:122-124 | the `token` parameter alone admits the padded secret |
| Approve.VerifiedTokenCanBeRefused | src/app/api/guestbook/approve/route.ts:127-133 | with only ADMIN_TOKEN configured, the verify endpoint says valid but the moderation gate refuses the same token |
| Approve.SelectList | src/app/api/guestbook/approve/route.ts:180-193 | the approved list runs exactly when the lower-cased status is "approved"; any other status lists pending rows |
| Approve.HandleGet | src/app/api/guestbook/approve/route.ts:165-199 | unauthorized first; then an empty list without a database; a query runs exactly when both checks pass, and it is the one SelectList picks |
| Approve.PatchId | src/app/api/guestbook/approve/route.ts:212 | the body id with white space cut from both ends: a stretch of it with only white space around it and no white space at its ends; "" without an id; already trimmed |
| Approve.PatchFlags | src/app/api/guestbook/approve/route.ts:213-216 | approved is the truthiness of `body.approved`; with that key present rejected is its negation, otherwise the truthiness of `body.rejected`; never both true |
| Approve.ApprovedPropertyDominates | src/app/api/guestbook/approve/route.ts:214-216 | a present `approved` property decides both flags whatever `rejected` holds, and the two flags differ |
| Approve.HandlePatch | src/app/api/guestbook/approve/route.ts:201-227 | unauthorized, then no_db, then missing_id; an UPDATE is issued exactly when all three pass, with the trimmed id and PatchFlags |
| Approve.UnparsableBodyUpdatesNothing | src/app/api/guestbook/approve/route.ts:210-218 | a body that is not JSON never reaches the UPDATE |
| Connection.FindConfigured | src/lib/db-server.ts:63-66 | `find` returns a listed key with a non-blank value, with no earlier key holding one; it returns none exactly when every key is blank or unset |
| Connection.FindSkipsKey | src/lib/db-server.ts:51-66 | dropping a blank key, or a key already listed earlier, changes nothing that `find` returns |
| Connection.IsDbConfigured | src/lib/db-server.ts:49-78 | configured exactly when one of the eight keys getSql tries holds a non-blank value |
| Connection.DuplicateKeyChangesNothing | src/lib/db-server.ts:51-61 | the nine-entry list of isDbConfigured, with its duplicate, finds the same key as getSql's eight-key list on every environment |
| Connection.GetSql | src/lib/db-server.ts:5-47 | the loop returns the first listed key whose value is non-blank, with that value; it fails exactly when every key is blank, and it succeeds exactly when isDbConfigured holds |
| Connection.FirstConfiguredIsFirst | src/lib/db-server.ts:21-28 | the key found is the one at the first index that holds a value |
| Connection.IsDatabaseConfigured | src/lib/db.ts:58-59 | true exactly when DATABASE_URL or POSTGRES_URL is a non-empty string |
| Connection.BlankUrlSplitsResolvers | src/app/api/guestbook/route.ts:49-62 | a DATABASE_URL of one space counts as configured for the guestbook route but not for the eight-key resolver |
| Connection.DatabaseUrlPatternRedundant | src/lib/db-server.ts:105 | every key matching `^POSTGRES_.*_DATABASE_URL$` also matches `^POSTGRES_.*_URL$` |
| Connection.RouteDbConfigured | src/app/api/guestbook/route.ts:49-62 | configured exactly when one of the four keys is a non-empty string; blank values count |
| Connection.FirstPostgresEntry | src/lib/db-server.ts:101-109 | the index of the first entry with a non-empty value whose upper-cased key has the URL shape and no _PRISMA_ or NO_SSL; no earlier entry qualifies |
| Connection.Hydrated | src/lib/db-server.ts:80-110 | unchanged when POSTGRES_URL is set; otherwise POSTGRES_URL becomes the first set direct candidate; with none, the value of the first entry FirstPostgresEntry finds; with no such entry nothing changes; no other key changes |
| Connection.HydrateIdempotent | src/lib/db-server.ts:80-81 | running the step a second time changes nothing |
| Connection.HydrationEnablesRoute | src/app/api/guestbook/route.ts:64-94 | after hydration, the guestbook route's four-key test sees a database whenever the eight-key resolver does |
| Connection.ProcessEnv.HydratePostgresEnv | src/lib/db-server.ts:80-110 | the environment after the assignment loop is Hydrated of the environment before it |
| Entries.NormalizeRow | src/lib/db-server.ts:142-173 | rejected when rejected is true; else pending when approved is false; else approved (missing flags count as approved, not rejected); name defaults to "Anonymous"; createdAt is created_at, else createdAt, else now; the other fields are copied |
| Entries.NormalizeItem | src/lib/db.ts:35-56 | the same precedence, with strict comparisons on arbitrary JSON values: only `true` rejects and only `false` makes an entry pending; a non-empty name is copied, any other becomes "Anonymous"; createdAt falls back from the column to the field to now; id, message, created_at, updatedAt and the three flags are copied |
| Entries.NormalizersAgree | src/lib/db.ts:35-56 | the client and server normalizers agree on every typed row |
| Entries.StrictFlagComparison | src/lib/db.ts:37-38 | truthy non-literal flags ("false", 1) leave an item approved |
| Entries.FallbackSlice | src/lib/db-server.ts:186-188 | the whole fallback with includePending; otherwise, for a non-negative limit (every caller's), a prefix of it with min(limit, length) entries |
| Entries.ServerFallbackIsEmpty | src/lib/db-server.ts:175 | the server's fallback result is empty for every option |
| Entries.ClientFallback | src/lib/db.ts:16-32 | two previews, preview-1 and preview-2, both approved |
| Entries.ClientFallbackBounds | src/lib/db.ts:98-102 | on failure the client shows at most two approved entries, both of them with includePending |
| Entries.ServerFetch | src/lib/db-server.ts:177-251 | fallback without a database or after a failed query; otherwise the approved rows, preceded by the pending rows with includePending |
| Entries.PendingFirst | src/lib/db-server.ts:229-238 | with includePending, every pending entry comes before every approved one and none is lost |
| Entries.ApprovedOnlyCounts | src/lib/db.ts:97 | every approved entry is kept as many times as it occurs, and every other entry is dropped |
| Entries.ApprovedOnlyAppend | src/lib/db.ts:97 | the filter keeps list order: filtering a concatenation is concatenating the filtered pieces |
| Entries.ClientFetch | src/lib/db.ts:77-103 | failure gives the client fallback; includePending gives every normalized item; otherwise ApprovedOnly of the normalized items, so exactly the approved ones in their order |
| Entries.ClientShowsOnlyApproved | src/lib/db.ts:93-97 | without includePending the client never shows an entry that is not approved |
| Entries.StatusFlags | src/lib/db.ts:149-150 | approved = (status is approved), rejected = (status is rejected); never both; pending sends (false, false) |
| Entries.RequestedStatusWritten | src/lib/db.ts:149-159 | through the approve rule, approved and rejected are written as requested, while pending is written as rejected |
| Entries.StatusAfterUpdate | src/lib/db.ts:149-159 | reading a row back after a status request gives the requested status, except that pending reads back as rejected |
| Guestbook.IsAutoApprove | src/app/api/guestbook/route.ts:96-99 | true exactly when the lower-cased GUESTBOOK_AUTO_APPROVE (default "true") is "1", "true" or "yes" |
| Guestbook.IsRateLimitEnabled | src/app/api/guestbook/route.ts:101-105 | the negation of the same test on GUESTBOOK_DISABLE_RATE_LIMIT (default "false") |
| Guestbook.FlagIgnoresCase | src/app/api/guestbook/route.ts:96-99 | "YES" turns auto-approval on |
| Guestbook.UnknownFlagValueIsOff | src/app/api/guestbook/route.ts:96-99 | "on" turns auto-approval off |
| Guestbook.HoneypotFilled | src/app/api/guestbook/route.ts:241-243 | true exactly when `hp` is present and not white space only |
| Guestbook.FirstSegment | src/app/api/guestbook/route.ts:141 | `split(",")[0]`: a comma-free prefix that is either everything or ends just before the first comma |
| Guestbook.ChosenAddress | src/app/api/guestbook/route.ts:138-141 | the first x-forwarded-for segment when non-empty, else x-real-ip when non-empty, else cf-connecting-ip |
| Guestbook.ClientIp | src/app/api/guestbook/route.ts:137-141 | the chosen address with its blank ends cut off: a stretch of it with white space only around it and none at its ends; a forwarded address holds no comma |
| Guestbook.OnlyFirstHopCounts | src/app/api/guestbook/route.ts:141 | the hops after the first comma never affect the hashed address |
| Guestbook.TrimmedMessage | src/app/api/guestbook/route.ts:245 | the message with its blank ends cut off, as a stretch of it with white space only around it and none at its ends; "" when absent |
| Guestbook.CapName | src/app/api/guestbook/route.ts:251 | `slice(0, 50)`: at most 50 characters |
| Guestbook.SafeName | src/app/api/guestbook/route.ts:251 | null exactly when the name is absent or empty; otherwise the first 50 characters with their blank ends cut off, so at most 50 characters, and the trimmed name itself when it is short |
| Guestbook.BlankNameIsStoredEmpty | src/app/api/guestbook/route.ts:251 | a name of spaces alone is stored as "", not null |
| Guestbook.Insert | src/app/api/guestbook/route.ts:163-166 | inserting into a newest-first list keeps it newest first and adds one row |
| Guestbook.InsertPermutes | src/app/api/guestbook/route.ts:163-166 | inserting adds the row and loses none |
| Guestbook.SortNewestFirst | src/app/api/guestbook/route.ts:163-166 | the sort's result is newest first and a permutation of its input |
| Guestbook.VisibleRowsCounts | src/app/api/guestbook/route.ts:162 | every row with approved !== false and rejected !== true is kept as many times as it occurs; every other row is dropped |
| Guestbook.VisibleRowsAppend | src/app/api/guestbook/route.ts:162 | the filter keeps store order: the visible rows of a concatenation are the visible rows of each piece, one after the other |
| Guestbook.ClampLimit | src/app/api/guestbook/route.ts:151-154 | the result lies in [1, 50]; a value in range is kept, one below 1 becomes 1 and one above 50 becomes 50 |
| Guestbook.ParseLimit | src/app/api/guestbook/route.ts:149-154 | in [1, 50]; 10 when absent or unparsable; otherwise the clamped parsed value |
| Guestbook.ParseOffset | src/app/api/guestbook/route.ts:150-158 | 0 when absent or unparsable; a parsed non-negative offset as it is; a parsed negative offset becomes 0 |
| Guestbook.Timeline | src/app/api/guestbook/route.ts:160-166 | newest first, and the same multiset of rows as the visible rows: every visible row as often as it is stored, no other row |
| Guestbook.Window | src/app/api/guestbook/route.ts:167 | at most `limit` elements, the slice from `offset` |
| Guestbook.ListRows | src/app/api/guestbook/route.ts:160-169 | as written: at most `limit` visible rows of the store, newest first, the window of the timeline; they are whole rows |
| Guestbook.ListingRevealsIpHash | src/app/api/guestbook/route.ts:160-169 | as written, a single visible row is listed with its ip_hash |
| Guestbook.ListingHidesIpHashes | src/app/api/guestbook/route.ts:160-169 | corrected: two stores that differ only in their hashes give the same listing |
| Guestbook.OwnRows | src/app/api/guestbook/route.ts:255-256 | exactly the stored rows with the poster's hash |
| Guestbook.LastForIp | src/app/api/guestbook/route.ts:255-261 | none exactly when the poster has no row; otherwise one of their rows, and none of their rows is newer |
| Guestbook.RecentlyPostedIff | src/app/api/guestbook/route.ts:254-268 | the newest-row test holds exactly when some row with the poster's hash is younger than 30000 ms; other hashes never count |
| Guestbook.Submit | src/app/api/guestbook/route.ts:227-296 | honeypot gives `rejected`, then a bad trimmed length gives `invalid_message`, both with the store unchanged; rate_limited exactly when the limit applies; otherwise one row appended and answered without ip_hash, with approved = isAutoApprove |
| Guestbook.SubmitKeepsStored | src/app/api/guestbook/route.ts:245-288 | every stored row keeps a trimmed message of 1..480 characters, a trimmed name of at most 50, updated_at null, edited false and rejected false |
| Guestbook.SecondPostWithinWindowRefused | src/app/api/guestbook/route.ts:254-268 | a second valid post from the same hash within 30 s after a successful one answers rate_limited |
| Guestbook.DeleteId | src/app/api/guestbook/route.ts:361-371 | the trimmed `id` parameter when non-empty, else the trimmed body id, else "" |
| Guestbook.DeleteIdTrimmed | src/app/api/guestbook/route.ts:362-367 | the id looked for is always trimmed |
| Guestbook.FindIndex | src/app/api/guestbook/route.ts:383 | `findIndex`: -1 exactly when no row is selected; otherwise the first selected row |
| Guestbook.RemoveAt | src/app/api/guestbook/route.ts:386 | `splice(i, 1)`: one row shorter, the rows before and after `i` in order |
| Guestbook.RemoveAtExactlyOne | src/app/api/guestbook/route.ts:394 | splice loses exactly the one row at `i` |
| Guestbook.IsDeleteAdmin | src/app/api/guestbook/route.ts:375-379 | an admin exactly when the x-admin-token header is non-empty and GUESTBOOK_ADMIN_TOKEN is set to that same string |
| Guestbook.Remove | src/app/api/guestbook/route.ts:373-395 | every answer but a deletion leaves the store as it was; a deletion needs a non-empty id and no database, and loses exactly one row, all others kept |
| Guestbook.RemoveRefusals | src/app/api/guestbook/route.ts:373-393 | missing_id for "", not_found exactly for an admin with no row of that id, forbidden exactly for others with no own row of that id; only a deletion changes the store |
| Guestbook.RemoveDeletes | src/app/api/guestbook/route.ts:382-395 | a deletion removes the first row with that id and, for non-admins, the caller's own hash |
| Guestbook.RemoveKeepsStored | src/app/api/guestbook/route.ts:386 | removing a row keeps the store well formed |
| Guestbook.DeleteRemovesTheId | src/app/api/guestbook/route.ts:382-395 | with distinct ids, no row with the id survives a deletion |
| Guestbook.AuthorCanDeleteOwnPost | src/app/api/guestbook/route.ts:390-395 | right after a successful post, its author deletes it by its fresh id and the store is as before |
| Guestbook.OthersCannotDelete | src/app/api/guestbook/route.ts:390-393 | without the admin token, another poster's row is never removed |
| Guestbook.Store.Append | src/app/api/guestbook/route.ts:288 | `push`: the new row at the end, the store well formed |
| Guestbook.Store.Post | src/app/api/guestbook/route.ts:227-296 | the answer and the new store are those of Submit; given the precomputed ipHash, clock and UUID |
| Guestbook.Store.Get | src/app/api/guestbook/route.ts:145-170 | corrected memory listing: ListItems of the store, at most `limit` items; the database branch otherwise |
| Guestbook.Store.RemoveFirst | src/app/api/guestbook/route.ts:383-386 | removes the first selected row when there is one, and nothing else |
| Guestbook.Store.Delete | src/app/api/guestbook/route.ts:358-396 | the answer and the new store are those of Remove with the admin test of lines 375-379; given the precomputed id and ipHash |
| Toc.RemoveSpecialCounts | src/lib/toc.ts:10 | every word character, white space and '-' stays as many times as it occurs; every other character is gone |
| Toc.RemoveSpecialAppend | src/lib/toc.ts:10 | the kept characters keep their order: removing from a concatenation is concatenating the pieces' results |
| Toc.RemoveSpecialNoUpper | src/lib/toc.ts:9-10 | after lower-casing, dropping characters brings in no capital |
| Toc.SpaceRunsGiveIdChars | src/lib/toc.ts:11 | replacing white-space runs with '-' leaves id characters only |
| Toc.DashRunsNoDoubleDash | src/lib/toc.ts:12 | after collapsing dash runs, no "--" is left |
| Toc.CollapsedChars | src/lib/toc.ts:13 | before the final trim the id holds id characters only, so the trim changes nothing |
| Toc.GenerateHeadingId | src/lib/toc.ts:7-14 | an id holds only lower-case ASCII letters, digits, '_' and '-', no white space, and never "--" |
| Toc.CollapsedOfId | src/lib/toc.ts:9-12 | lower-casing, removing and collapsing leave a string of id characters without "--" as it is |
| Toc.HeadingIdOfId | src/lib/toc.ts:7-14 | a string of id characters without "--" is its own id |
| Toc.HeadingIdIdempotent | src/lib/toc.ts:7-14 | generateHeadingId of an id is that id |
| Toc.SetupId | src/lib/toc.ts:7-14 | the id of "Setup" is "setup" |
| Toc.BodyOffset | src/lib/toc.ts:25 | `\s+` backs off only until `(.+)` can start: the largest take after which a non-line-terminator follows |
| Toc.MatchAt | src/lib/toc.ts:25 | a match at p starts at p, ends inside the input and has level 1..4 |
| Toc.MatchShape | src/lib/toc.ts:25 | a match sits at a line start with 1..4 '#' then white space, and group 2 is a non-empty stretch of one line |
| Toc.HeadingLineMatches | src/lib/toc.ts:25 | the converse: at a line start, one to four '#', white space and a character that ends no line give a match of that level with a non-empty group 2 |
| Toc.TooManyHashesNoMatch | src/lib/toc.ts:25 | a run of five or more '#' gives no match there |
| Toc.HashesWithoutSpaceNoMatch | src/lib/toc.ts:25 | '#'s followed directly by a non-white-space character give no match there |
| Toc.BareMarkerTakesNextLine | src/lib/toc.ts:25 | `\s+` may cross a line break: "#\nNotes" is a level 1 heading "Notes" |
| Toc.Exec | src/lib/toc.ts:29 | `exec` from lastIndex returns the match at some position at or after it |
| Toc.ExecIsFirst | src/lib/toc.ts:29 | there is no match before the one exec returns, and none at all when it returns null |
| Toc.MatchesStep | src/lib/toc.ts:29 | the scan is the first match followed by the scan from its end |
| Toc.MatchesInOrder | src/lib/toc.ts:25-41 | the matches come in source order and do not overlap |
| Toc.MatchLevels | src/lib/toc.ts:25-30 | every match has level 1..4 |
| Toc.SelectedCounts | src/lib/toc.ts:32-35 | every match with a level in [minLevel, maxLevel] is kept as often as it occurs; every other match is skipped |
| Toc.SelectedAppend | src/lib/toc.ts:32-35 | skipping out-of-range levels distributes over concatenation, so the kept matches keep their relative order |
| Toc.SelectedInOrder | src/lib/toc.ts:32-35 | if the matches are in source order (each ends at or before the next starts), so are the kept ones |
| Toc.HeadingMatchesInOrder | src/lib/toc.ts:25-41 | the matches extractHeadings turns into items, one each and in order, come in source order |
| Toc.ExtractHeadings | src/lib/toc.ts:20-44 | the exec loop returns the items of the in-range matches, one each and in order; HeadingMatchesInOrder shows those matches are in source order |
| Toc.ItemOfWellFormed | src/lib/toc.ts:37-40 | an item's text is trimmed and its id is generateHeadingId of that text |
| Toc.HeadingsWellFormed | src/lib/toc.ts:30-40 | every item has a level in 1..4 and in [minLevel, maxLevel], a trimmed text and the id of that text |
| Toc.SingleHeadingLine | src/lib/toc.ts:20-44 | with the default levels 1..4, "## Setup" gives the single item ("setup", "Setup", 2) |
| MarkdownText.Join | src/components/blog/markdown/utils.ts:10 | `join("")` is empty exactly when every part is |
| MarkdownText.JoinAppend | src/components/blog/markdown/utils.ts:10 | joining concatenated lists is concatenating the joins |
| MarkdownText.TextOf | src/components/blog/markdown/utils.ts:7-18 | the text of a tree is the concatenation of its string and number leaves, depth first, left to right |
| MarkdownText.ArrayConcat | src/components/blog/markdown/utils.ts:10 | an array's text is the in-order concatenation of its children's texts |
| MarkdownText.SingletonArray | src/components/blog/markdown/utils.ts:10 | a one-child array has its child's text; the empty array has "" |
| MarkdownText.NestedArrays | src/components/blog/markdown/utils.ts:10 | nesting arrays changes nothing |
| MarkdownText.NumberText | src/components/blog/markdown/utils.ts:9 | a number's text is its decimal form: parseInt reads the number back |
| MarkdownText.StringAndElementText | src/components/blog/markdown/utils.ts:8-15 | a string yields itself; an element yields its children's text, and "" without children |
| MarkdownText.OtherValuesHaveNoText | src/components/blog/markdown/utils.ts:17 | null, undefined, booleans and objects without props yield "" |
| Konami.NormalizeKey | src/components/easter-eggs/KonamiPortal.tsx:26-27 | a one-character key becomes its lower-cased character; names of any other length are unchanged |
| Konami.CapitalLettersCount | src/components/easter-eggs/KonamiPortal.tsx:26-27 | "B" and "A" buffer as "b" and "a"; "ArrowUp" is kept |
| Konami.Last10 | src/components/easter-eggs/KonamiPortal.tsx:28 | the last min(10, length) keys |
| Konami.SliceLast10 | src/components/easter-eggs/KonamiPortal.tsx:28 | `slice(-10)` keeps the last ten keys |
| Konami.KonamiPortal.AllMatch | src/components/easter-eggs/KonamiPortal.tsx:31-33 | the `every` loop answers true exactly when each buffered key equals the sequence's key at its index |
| Konami.EveryMatchesFull | src/components/easter-eggs/KonamiPortal.tsx:30-33 | a ten-key buffer that matches element-wise is the sequence itself |
| Konami.KonamiPortal.HandleKey | src/components/easter-eggs/KonamiPortal.tsx:25-45 | the new buffer and flag are those of Step on the old state and the key |
| Konami.StepShape | src/components/easter-eggs/KonamiPortal.tsx:25-45 | the buffer becomes the last ten keys, or is cleared on a full match or on Escape |
| Konami.Step | src/components/easter-eggs/KonamiPortal.tsx:25-45 | after every key the buffer holds at most ten keys; Escape locks and empties it; a key that unlocks a locked portal empties it |
| Konami.Last10Snoc | src/components/easter-eggs/KonamiPortal.tsx:28 | the last ten of the last ten plus a key are the last ten of everything plus that key |
| Konami.StepKeepsLastTen | src/components/easter-eggs/KonamiPortal.tsx:28 | the buffer is empty or the last ten normalized keys since the previous clear |
| Konami.UnlockIff | src/components/easter-eggs/KonamiPortal.tsx:30-44 | unlocked after a key exactly when the key is not Escape and the portal was already unlocked or the buffer now spells the sequence |
| Konami.UnlockingKeyCompletes | src/components/easter-eggs/KonamiPortal.tsx:30-39 | a key that unlocks completes the sequence and empties the buffer |
| Konami.EscapeLocks | src/components/easter-eggs/KonamiPortal.tsx:41-44 | Escape always locks and empties the buffer |
| Konami.OnlyEscapeRelocks | src/components/easter-eggs/KonamiPortal.tsx:25-45 | no other key locks an unlocked portal |
| Konami.OtherKeysKeepUnlocked | src/components/easter-eggs/KonamiPortal.tsx:25-45 | a key that neither completes the sequence nor is Escape leaves the flag as it was |
| Konami.TypingKonamiUnlocks | src/components/easter-eggs/KonamiPortal.tsx:7-45 | from any state, typing the ten keys unlocks and leaves the buffer empty |
| Konami.ShiftedKonamiUnlocks | src/components/easter-eggs/KonamiPortal.tsx:26-39 | the code with "B" and "A" typed as capitals also unlocks |

## Left out

- Every SQL query and the database branches of GET, POST, DELETE and PATCH are not modelled. This includes `ensureTable`, the rows a query returns, and the catch branches of the guestbook GET and of PATCH. They are calls into the database client. A configured database shows up only as the answers `PostToDatabase`, `ListFromDatabase`, `DeleteInDatabase` and `Update`. `Entries.ServerFetch` takes the queries' results as parameters.
- No not-found answer is modelled for a PATCH on a missing id. The code answers ok, since the UPDATE does not check that a row exists.
- Only the list choice of the moderation GET is modelled, not the rows. The database orders them with `ORDER BY`.
- SHA-256, `crypto.randomUUID` and the clock are parameters.
  - `Guestbook.Store.Post` and `Guestbook.Store.Delete` receive the hash of `Guestbook.ClientIp` of the headers.
  - `Guestbook.Store.Delete` receives `Guestbook.DeleteId` of the query and the parsed body.
  - The handler computes these before the store is touched.
  - Timestamps are integer milliseconds; ISO strings are not parsed.
- Console logging, the `runtime` and `dynamic` exports, and response serialisation are not modelled. Each answer is a datatype constructor.
- Handlers are atomic steps. Interleaving across `await` and the resulting rate-limit race are concurrency.
- Case mapping covers ASCII letters only, in `Js.ToLower` and `Js.ToUpper`. The white-space set of `\s` and `trim` is the full ECMAScript set.
- Js.Trim: its own contract states emptiness and length only. `Js.TrimCharacterised` pins down the value, and `Js.TrimIdempotent` states idempotence.
- Toc.MatchAt: its own contract states position, bounds and level only. `Toc.MatchShape` and `Toc.HeadingLineMatches` state the shape of a heading line in each direction, and `Toc.BodyOffset` states where group 2 starts.
- `Env.Environment` is a list of entries, and nothing rules out two entries with the same key. `process.env` never has such keys. With a duplicate, `Env.Lookup` reads the first entry, while the entry scan of `Connection.FirstPostgresEntry` can pick a later one that `Lookup` shadows.
- `Js.ParseInt`: strings of more than 308 digits, which JavaScript reads as Infinity, are not modelled. Integers are unbounded.
- `Js.IntToString` covers integers only. `String(n)` for fractions, exponent notation, NaN and -0 is left out, so a `MarkdownText.Num` node holds an `int`.
- Lengths and indices count Dafny characters. JavaScript's UTF-16 code units differ for characters outside the basic plane. This affects the 480 and 50 limits and the `slice`s.
- A request body that is not an object is not modelled, and neither is a field of the wrong type, beyond absent-or-string. `Guestbook.PostBody` and `Approve.PatchBody` carry each field as present or absent.
- `Js.Json` abstracts JSON arrays and objects to their truthiness.
- `Guestbook.SortNewestFirst`: the contract states order and permutation but not stability. The definition keeps rows with equal timestamps in store order, as the stable `Array.prototype.sort` does.
- The Konami overlay's rendering and its two onClick handlers that also lock the portal are UI code and are left out. So are the `keydown` listener registration and removal.
- Everything outside the modelled files is left out: pages, components, animations, `src/lib/blog.ts`, hooks and the `tools/` script.
- The admin page's own status mapping is not unified with `normalizeEntry`.
- Code and documented behaviour differ in places. The model follows the code:
  - a filled honeypot answers `rejected`, not a generic invalid-submission error;
  - the stored name is null or the trimmed, capped name, and "Anonymous" appears only when an entry is normalised;
  - a PATCH on an unknown id answers ok.

## Findings

| source | as written | input that shows it | evidently intended | confidence | as-written member | corrected member |
|---|---|---|---|---|---|---|
| src/app/api/guestbook/route.ts:160-169 | the memory branch of GET serialises whole rows of `memory`, so every listed item carries its poster's `ip_hash` | a store holding one approved, not rejected row `r` and a GET without parameters: the answer lists `r` with `r.ip_hash` | items without `ip_hash`. POST strips the hash from its answer at line 290, and the database query of the same handler selects no `ip_hash` column | not executed | Guestbook.ListingRevealsIpHash | Guestbook.ListingHidesIpHashes |
