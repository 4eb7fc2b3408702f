# Editorial voting: a Dafny model

This project models the core logic of the editorial-voting service. AtCoder users vote editorials up or down, and
the vote is weighted into buckets by the voter's rating. A user proves who they are by putting an affiliation token
on their AtCoder profile. The service checks it by scraping the profile, then issues a session token. The model
covers five parts:

- **Token codec** (`atcoder_api.dfy`). It covers:
  - the AtCoder id pattern;
  - the hash plaintext `hex16(time):id:salt`;
  - building affiliation and session tokens;
  - validating an affiliation token (format, then time, then age, then hash);
  - parsing a session token;
  - canonicalising editorial links.

  It models the backend's `atcoder_api.rs` as written. The `...Fixed` functions model the evidently intended layouts.
- **Vote tally** (`vote.dfy`, over the tables and the `Store` class in `tables.dfy`). This is the serverless `vote`
  endpoint:
  - the vote string;
  - the one-hour rating cache;
  - lazy registration of a contest's editorials;
  - the revert/apply transaction over `votes` and `vote_temp`.

  `CastVote` specifies one call. The `Vote` method, which changes the store step by step, is proved against it. The
  tally invariant is that each editorial's bucket total equals its vote total. Every call, successful or not,
  preserves it.
- **Status readers**:
  - the serverless `status` endpoint (`status.dfy`);
  - the serverless batch `statuses` endpoint (`statuses.dfy`), with its three row loops over an array;
  - the backend's per-position `statuses` loop (`backend_statuses.dfy`).

  Each handler is a method proved equal to a specification function.
- **Token issuance**: the serverless `create_token` (`create_token.dfy`, with get-or-insert of the user row) and the
  backend `create-token` route (`backend_create_token.dfy`).
- **Userscript** (`userscript.dfy`):
  - link canonicalisation;
  - form encoding;
  - the `Voting` class, which holds the per-link score, vote and button state.

`common.dfy` holds `Option`/`Result`, splitting and joining on a separator, and decimal printing.

The serverless crate's own `atcoder_api` module is not part of this model. Its helpers are uninterpreted function
fields of `VercelApi.Api`. Each handler relies only on what its call sites show.

The backend's `statuses` route reads a user id from `parse_token`, but the backend's `parse_token` returns a plain
`String`. The backend route therefore takes its token parser as a parameter.

## Model

| member | source | states |
|---|---|---|
| AtcoderApi.ValidIdHasNoSeparator | editorial-voting-backend/src/atcoder_api.rs:3-10 | An id accepted by `validate_atcoder_id` (3 to 16 ASCII letters and digits) contains no `-`, `:`, `.` or `_`, so it cannot break the token formats. |
| AtcoderApi.Hex16RoundTrip | editorial-voting-backend/src/atcoder_api.rs:13-39 | `{time:016x}` is exactly 16 lowercase hex digits, and `u64::from_str_radix(_, 16)` reads it back as the time. |
| AtcoderApi.HexRoundTrip | editorial-voting-backend/src/atcoder_api.rs:26-55 | The unpadded `{time:x}` also reads back as the time. |
| AtcoderApi.Time16Parses | editorial-voting-backend/src/atcoder_api.rs:37-39 | Any 16 lowercase hex digits parse without overflow to their value, and printing that value with 16 digits gives the same string. |
| AtcoderApi.PlaintextLayout | editorial-voting-backend/src/atcoder_api.rs:12-19 | The hash plaintext is the 16 time digits, `:`, the id, `:`, the salt, and its first 16 characters parse back to the time. |
| AtcoderApi.PlaintextInjective | editorial-voting-backend/src/atcoder_api.rs:12-21 | For valid ids, equal plaintexts under one salt come from the same time and the same id. |
| AtcoderApi.TokenHash | editorial-voting-backend/src/atcoder_api.rs:12-21 | The token hash is 64 lowercase hex characters. |
| AtcoderApi.AffiliationTokenNeverMatches | editorial-voting-backend/src/atcoder_api.rs:4-29 | No output of `create_affiliation_token` matches `AFFILIATION_TOKEN_PATTERN`, at any time, id or salt. |
| AtcoderApi.ValidateAtcoderId | editorial-voting-backend/src/atcoder_api.rs:8-10 | An AtCoder id is accepted exactly when it is 3 to 16 ASCII letters and digits. |
| AtcoderApi.CreateAffiliationToken | editorial-voting-backend/src/atcoder_api.rs:23-29 | The affiliation token as written: the unpadded hex time followed directly by the salted hash. `AffiliationTokenNeverMatches` is proved about it. |
| AtcoderApi.CreateAffiliationTokenFixed | editorial-voting-backend/src/atcoder_api.rs:23-29 | The affiliation token the pattern describes: 16 hex digits, `-`, the hash. `ValidateFixedAccepts` is proved about it. |
| AtcoderApi.ValidateAffiliationToken | editorial-voting-backend/src/atcoder_api.rs:31-50 | Format check, then the time read and the one-hour window, then the hash comparison, each with the source's message. `ValidateIff` and `ValidateSound` are proved about it. |
| AtcoderApi.CreateToken | editorial-voting-backend/src/atcoder_api.rs:52-61 | The session token as written: `hex(time)-id-hash`. `CreateTokenSegments` and `CreateTokenOffPattern` are proved about it. |
| AtcoderApi.CreateTokenFixed | editorial-voting-backend/src/atcoder_api.rs:52-61 | The session token with the time padded to 16 hex digits, the shape `TOKEN_PATTERN` describes. |
| AtcoderApi.ParseToken | editorial-voting-backend/src/atcoder_api.rs:63-78 | The parser as written: the affiliation pattern check, then three `unwrap`s. `ParseTokenNeverParses` is proved about it. |
| AtcoderApi.ParseTokenFixed | editorial-voting-backend/src/atcoder_api.rs:63-78 | The parser checking the session pattern and the hash. `ParseTokenFixedRoundTrip` and `ParseTokenFixedSound` are proved about it. |
| AtcoderApi.CanonicalizeEditorialUrl | editorial-voting-backend/src/atcoder_api.rs:103-117 | A `/jump?url=` link gives its decoded target, a `/contests/` path its absolute URL, anything else nothing. `CanonicalContestInjective` is proved about it. |
| AtcoderApi.IssuedAffiliationTokenRejected | editorial-voting-backend/src/atcoder_api.rs:23-34 | `validate_affiliation_token` refuses every issued affiliation token with `affiliation_token invalid format`. |
| AtcoderApi.AffiliationSplit | editorial-voting-backend/src/atcoder_api.rs:36-38 | A token that matches the affiliation pattern splits at `-` into exactly the 16-digit time and the 64-digit hash. |
| AtcoderApi.ValidateFormatFirst | editorial-voting-backend/src/atcoder_api.rs:31-34 | A bad id or a token off the pattern gives the format error, whatever the digest function, the salt and the clock. |
| AtcoderApi.ValidateIff | editorial-voting-backend/src/atcoder_api.rs:35-49 | For a well-formed id and token, validation succeeds exactly when the time is at most `now`, at most one hour older than `now`, and the hash segment is the recomputed hash. |
| AtcoderApi.ValidateSound | editorial-voting-backend/src/atcoder_api.rs:31-49 | Every token that validates is the intended affiliation token for that id, at some time within the last hour. |
| AtcoderApi.ValidateFixedAccepts | editorial-voting-backend/src/atcoder_api.rs:31-49 | The corrected affiliation token validates for its own id from its time until one hour later. |
| AtcoderApi.ValidateExpiry | editorial-voting-backend/src/atcoder_api.rs:40-44 | At 3599 s the token is accepted. At 3601 s it is `affiliation_token expired`. A second before its time, `duration_since` fails. |
| AtcoderApi.ValidateTamper | editorial-voting-backend/src/atcoder_api.rs:45-48 | A token whose hash segment differs from the recomputed hash is refused. |
| AtcoderApi.CreateTokenSegments | editorial-voting-backend/src/atcoder_api.rs:52-61 | `create_token` is `hex(time)-id-hash`. For a valid id, splitting at `-` gives exactly those three segments, and the first parses to the time. |
| AtcoderApi.CreateTokenOffPattern | editorial-voting-backend/src/atcoder_api.rs:52-61 | For every time below 16^15 s, `create_token` does not produce the `TOKEN_PATTERN` shape. |
| AtcoderApi.ParseTokenNeverParses | editorial-voting-backend/src/atcoder_api.rs:63-72 | `parse_token` as written never yields an id. It panics on the third `unwrap` exactly for the inputs that pass its format check. |
| AtcoderApi.IssuedTokenRejected | editorial-voting-backend/src/atcoder_api.rs:52-66 | `parse_token` refuses every session token `create_token` issues with the format error. |
| AtcoderApi.ParseTokenFixedRoundTrip | editorial-voting-backend/src/atcoder_api.rs:52-77 | The corrected codec round-trips: parsing the corrected session token yields its id. |
| AtcoderApi.ParseTokenFixedSound | editorial-voting-backend/src/atcoder_api.rs:63-77 | Only issued tokens parse: a token that parses to an id is the corrected session token of that id at some time, and the id is valid. |
| AtcoderApi.CanonicalContestInjective | editorial-voting-backend/src/atcoder_api.rs:109-114 | Every `/contests/` path has a catalogue key, that key is an absolute `https://atcoder.jp/contests/` URL, and distinct paths give distinct keys. |
| AtcoderApi.CanonicalNotRecanonicalised | editorial-voting-backend/src/atcoder_api.rs:103-117 | A canonical contest URL does not canonicalise again. |
| Tables.LabelMapContents | editorial-voting-vercel-serverless-function/api/status.rs:90 | The bucket map holds each bucket of the editorial under the label `"{100l}-{100l+99}"` with its score, and holds no other label. |
| Tables.RatingLabelInjective | editorial-voting-vercel-serverless-function/api/status.rs:90 | Distinct levels have distinct labels, and a label's lower bound reads back as `100l`. |
| Tables.AccumulateBuckets | editorial-voting-vercel-serverless-function/api/status.rs:83-91 | The row loop adds the editorial's bucket total to the running score and its labelled buckets to the running map. |
| Tables.WithEditorial | editorial-voting-vercel-serverless-function/api/vote.rs:114-116 | Inserting a URL with `ON CONFLICT DO NOTHING` adds just that key, keeps every existing id, and changes no other table. |
| Tables.WithEditorialsContents | editorial-voting-vercel-serverless-function/api/vote.rs:114-117 | After the insert loop, the catalogue holds exactly the old URLs and the scraped ones, with existing ids kept. |
| Tables.WithEditorialsWellFormed | editorial-voting-vercel-serverless-function/api/vote.rs:114-117 | The insert loop keeps the catalogue's serial-id and uniqueness invariant. |
| Tables.WithUser | editorial-voting-vercel-serverless-function/api/create_token.rs:71-75 | The id returned is a `users` row with that AtCoder id. An existing row means nothing changes. Otherwise one row is added under the next serial id. |
| Tables.WithUserIdempotent | editorial-voting-vercel-serverless-function/api/create_token.rs:71-75 | A second get-or-insert for the same id returns the same user id and adds no row. |
| Tables.WithUserUnique | editorial-voting-vercel-serverless-function/api/create_token.rs:71-75 | The row found is the only row with that AtCoder id. No other row changes, and at most one is added. |
| Tables.WithUserWellFormed | editorial-voting-vercel-serverless-function/api/create_token.rs:71-75 | Get-or-insert keeps the tables well formed. |
| Tables.Store.InsertEditorial | editorial-voting-vercel-serverless-function/api/vote.rs:116 | The store's catalogue becomes `WithEditorial` of the old one, and a valid store stays valid. |
| Tables.Store.GetOrInsertUser | editorial-voting-vercel-serverless-function/api/create_token.rs:70-76 | The store's new state and the returned id are `WithUser` of the old state, and the store stays valid. |
| ServerlessVote.VoteValue | editorial-voting-vercel-serverless-function/api/vote.rs:63-68 | Exactly `none`, `up` and `down` are accepted, as a value in -1..1. Anything else is `invalid vote format (none|up|down)`. |
| ServerlessVote.RefusedBeforeAnyWrite | editorial-voting-vercel-serverless-function/api/vote.rs:60-68 | A token that does not parse, or a bad vote string, gives its error and leaves every table unchanged. |
| ServerlessVote.NoneVoteNeverFetches | editorial-voting-vercel-serverless-function/api/vote.rs:71-96 | A `none` vote's outcome does not depend on the clocks or the rating scraper, and `users` is untouched. |
| ServerlessVote.FreshCacheReused | editorial-voting-vercel-serverless-function/api/vote.rs:75-83 | A cached rating at most an hour old is used as it is. The fetch clock and the scraper are not consulted, and `users` is unchanged. |
| ServerlessVote.StaleCacheRefetched | editorial-voting-vercel-serverless-function/api/vote.rs:75-94 | With no fresh cache, the scraped rating is used and stored with the fetch time; only the caller's row changes. A scrape error writes nothing. A future timestamp is a clock error. |
| ServerlessVote.RatingWriteOutlivesLaterFailure | editorial-voting-vercel-serverless-function/api/vote.rs:93-102 | The rating refresh is kept even when the editorial link is then refused. |
| ServerlessVote.CatalogMissRegistersContest | editorial-voting-vercel-serverless-function/api/vote.rs:104-120 | On a catalogue miss, every scraped URL is registered with existing ids kept. The retry succeeds exactly when the URL was scraped, and otherwise fails with the no-row error. |
| ServerlessVote.RevertAtStoredRating | editorial-voting-vercel-serverless-function/api/vote.rs:127-137 | For every earlier state: the row is deleted for `none` and upserted with the vote and the rating otherwise. The buckets are the old ones plus the new rating's bucket when the vote is not `none`. Each bucket's new score is its old score (0 when new), minus the old vote when it is the bucket of the old vote's stored rating, plus the new vote when it is the new rating's bucket. |
| ServerlessVote.NoneVoteDeletes | editorial-voting-vercel-serverless-function/api/vote.rs:127-132 | A `none` vote deletes the row and adds no bucket. The old vote leaves the bucket of its stored rating and every other bucket keeps its score. With no earlier vote, both tables are unchanged. |
| ServerlessVote.ApplyVoteFrame | editorial-voting-vercel-serverless-function/api/vote.rs:125-140 | No other user's vote row and no other editorial's bucket changes, and no bucket disappears. |
| ServerlessVote.ApplyVoteTotals | editorial-voting-vercel-serverless-function/api/vote.rs:125-140 | The editorial's vote total and bucket total both move by new vote minus old vote. Other editorials' totals do not move. |
| ServerlessVote.ApplyVoteWellFormed | editorial-voting-vercel-serverless-function/api/vote.rs:125-140 | The transaction keeps the tally invariant: bucket sums equal vote sums, every vote is ±1 and has its bucket. |
| ServerlessVote.CastVoteWellFormed | editorial-voting-vercel-serverless-function/api/vote.rs:58-140 | Every call, successful or not, keeps the tables well formed. |
| ServerlessVote.CastVoteRecorded | editorial-voting-vercel-serverless-function/api/vote.rs:125-140 | After a successful call, the rating step succeeded, the caller's row holds the new vote with the rating it was cast with (or is gone for `none`), and the editorial's total moved by the difference. |
| ServerlessVote.ObtainRating | editorial-voting-vercel-serverless-function/api/vote.rs:71-96 | The rating step's reply and `users` table are `ResolveRating` of the old table. Nothing else changes, and a valid store stays valid. |
| ServerlessVote.FindEditorial | editorial-voting-vercel-serverless-function/api/vote.rs:99-121 | The lookup-or-register step's reply and tables are `ResolveEditorial` of the old tables, and a valid store stays valid. |
| ServerlessVote.Transact | editorial-voting-vercel-serverless-function/api/vote.rs:124-141 | `votes` and `vote_temp` become `ApplyVote` of the old ones. Nothing else changes. |
| ServerlessVote.Vote | editorial-voting-vercel-serverless-function/api/vote.rs:58-147 | The handler's reply and the final tables are `CastVote` of the initial tables. A valid store stays valid, so the tally invariant holds after every call. |
| ServerlessStatus.VoteLabel | editorial-voting-vercel-serverless-function/api/status.rs:95-99 | A stored 1 is `up`, a stored -1 is `down`, and anything else or no row is `none`. |
| ServerlessStatus.VoteLabelRoundTrip | editorial-voting-vercel-serverless-function/api/status.rs:95-99 | The reported label of a stored vote is read back by the vote endpoint as that vote. |
| ServerlessStatus.GetStatus | editorial-voting-vercel-serverless-function/api/status.rs:59-100 | The handler's reply is `StatusOf` the tables. |
| ServerlessStatus.ReadEditorial | editorial-voting-vercel-serverless-function/api/status.rs:82-100 | For a catalogued editorial, the status is its bucket total, its labelled buckets and the caller's vote label. |
| ServerlessStatus.StatusErrors | editorial-voting-vercel-serverless-function/api/status.rs:60-79 | A bad token gives its error first, then a bad link gives `invalid editorial URL`. A successful reply has a vote exactly when a token was given. |
| ServerlessStatus.StatusScoreIsVoteTotal | editorial-voting-vercel-serverless-function/api/status.rs:70-91 | The score is the editorial's bucket total and its vote total; an unregistered editorial gives 0 and no buckets. |
| ServerlessStatus.StatusReflectsVote | editorial-voting-vercel-serverless-function/api/status.rs:93-100 | A status read right after a successful vote, with the same token and link, reports the vote just cast. |
| ServerlessStatuses.IndexMapFacts | editorial-voting-vercel-serverless-function/api/statuses.rs:91-98 | `editorial_id_map` is keyed by exactly the listed ids. Each entry names a position holding its id. With the rows taken in position order, no later position holds that id. |
| ServerlessStatuses.MatchEditorials | editorial-voting-vercel-serverless-function/api/statuses.rs:86-100 | The first row loop builds the id list, repeats included, and the id-to-position map, taking the rows in position order. |
| ServerlessStatuses.AddScores | editorial-voting-vercel-serverless-function/api/statuses.rs:110-120 | After the bucket-row loop, each position the map names holds its editorial's total and labels, times the number of listings. Every other position keeps the default. |
| ServerlessStatuses.ScoredStep | editorial-voting-vercel-serverless-function/api/statuses.rs:112-119 | The rows of one listed id change only the position the map names for it. |
| ServerlessStatuses.MarkVotes | editorial-voting-vercel-serverless-function/api/statuses.rs:122-139 | The vote-row loop sets `up`/`down` at the named position for stored 1/-1, and changes nothing for any other value. |
| ServerlessStatuses.WithToken | editorial-voting-vercel-serverless-function/api/statuses.rs:82-145 | The reply with a token, as written, has one entry per position, each equal to `TokenEntry`. |
| ServerlessStatuses.WithoutToken | editorial-voting-vercel-serverless-function/api/statuses.rs:146-165 | Without a token, each position is the raw link's registered status, or the defaults with no vote. |
| ServerlessStatuses.WithTokenFixed | editorial-voting-vercel-serverless-function/api/statuses.rs:82-145 | The intended reply with a token: each position is filled on its own, as `status` would answer for the raw link. |
| ServerlessStatuses.Entries | editorial-voting-vercel-serverless-function/api/statuses.rs:102-105 | One status per position, in order. |
| ServerlessStatuses.GetStatuses | editorial-voting-vercel-serverless-function/api/statuses.rs:72-170 | The endpoint's reply is `Statuses` of the tables. |
| ServerlessStatuses.GetStatusesFixed | editorial-voting-vercel-serverless-function/api/statuses.rs:72-170 | The corrected endpoint's reply is `StatusesFixed` of the tables. |
| ServerlessStatuses.TooManyRefused | editorial-voting-vercel-serverless-function/api/statuses.rs:77-79 | More than 256 links is refused, whatever the tables and the token. |
| ServerlessStatuses.OnePerPosition | editorial-voting-vercel-serverless-function/api/statuses.rs:86-147 | One result per position. An unmatched position keeps score 0 and no buckets. Each vote is present exactly when a token was given. |
| ServerlessStatuses.RawLinks | editorial-voting-vercel-serverless-function/api/statuses.rs:89-152 | The reply does not depend on the link canonicaliser. |
| ServerlessStatuses.TokenVotes | editorial-voting-vercel-serverless-function/api/statuses.rs:122-139 | At a filled position, the vote is `up`/`down` exactly for a stored 1/-1, and `none` otherwise. |
| ServerlessStatuses.TokenScoreCounts | editorial-voting-vercel-serverless-function/api/statuses.rs:110-120 | With a token, a filled position's score is the editorial's vote total times the number of positions listing it. |
| ServerlessStatuses.DuplicateLinkCounterexample | editorial-voting-vercel-serverless-function/api/statuses.rs:92-117 | The same link twice, over one bucket holding 1, rows in position order: position 0 keeps the defaults and position 1 reports 2, while the editorial's total is 1. |
| ServerlessStatuses.RepeatedLinkOneSlot | editorial-voting-vercel-serverless-function/api/statuses.rs:91-118 | With a token, of the positions whose link names one editorial exactly one is filled, with the editorial's total times the number of those positions; the others keep the defaults. This holds for every map the id rows can leave (keyed by the listed ids, each naming a position holding its id), so for every row order. |
| ServerlessStatuses.IndexMapIsIdMap | editorial-voting-vercel-serverless-function/api/statuses.rs:91-98 | The map built from the rows in position order is one of the maps `RepeatedLinkOneSlot` covers. |
| ServerlessStatuses.MatchedOnce | editorial-voting-vercel-serverless-function/api/statuses.rs:91-98 | When no two positions resolve to one editorial, each matched id is listed once. |
| ServerlessStatuses.DistinctLinksAgree | editorial-voting-vercel-serverless-function/api/statuses.rs:82-165 | When no link is repeated, the reply as written equals the intended reply. |
| BackendStatuses.Inner | editorial-voting-backend/src/api/statuses.rs:28-71 | `inner`'s reply is `Statuses` of the tables: the bound, then the token, then one entry per position. |
| BackendStatuses.Lookups | editorial-voting-backend/src/api/statuses.rs:40-64 | The per-position loop yields, at each position, the link's status as the single-status endpoint gives it. |
| BackendStatuses.RefusedFirst | editorial-voting-backend/src/api/statuses.rs:29-36 | More than 256 links, then a token that does not parse, is refused whatever the tables hold. |
| BackendStatuses.PositionContents | editorial-voting-backend/src/api/statuses.rs:40-63 | One result per position. A missing editorial gives defaults, with `none` exactly when a token was given. A present one gives its total, its labelled buckets and the caller's vote label. |
| BackendStatuses.RepeatsIndependent | editorial-voting-backend/src/api/statuses.rs:41-64 | A repeated link gets the same full result at each of its positions. |
| BackendStatuses.BackendIsIntendedServerless | editorial-voting-backend/src/api/statuses.rs:28-71 | Given token parsers that agree, the backend answers exactly as the corrected serverless batch endpoint does. |
| BackendStatuses.AgreesWithoutToken | editorial-voting-backend/src/api/statuses.rs:28-71 | Without a token, the backend and the serverless batch endpoint as written agree. |
| BackendCreateToken.Route | editorial-voting-backend/src/api/create_token.rs:20-54 | Validation under the affiliation salt, then the scrape, then the comparison, then `create_token` under the token salt. `ValidationFirst` and `AfterValidation` are proved about it. |
| BackendCreateToken.RouteFixed | editorial-voting-backend/src/api/create_token.rs:20-54 | The same route, with the same two salts, over the corrected token layouts. `FixedRoundTrip` is proved about it. |
| BackendCreateToken.ValidationFirst | editorial-voting-backend/src/api/create_token.rs:21-27 | A failed validation, a bad id included, is returned as it is, and the scraper plays no part. |
| BackendCreateToken.AfterValidation | editorial-voting-backend/src/api/create_token.rs:29-53 | A scrape failure is returned. A token is issued exactly when the submitted token equals the scraped one, and it is `create_token(now, id)` under the token salt. A mismatch is `affiliation_token not matched`. |
| BackendCreateToken.IssuedAffiliationTokenRefused | editorial-voting-backend/src/api/create_token.rs:21-27 | An affiliation token made by `create_affiliation_token` never gets a session token: the route answers with the format error. |
| BackendCreateToken.IssuedTokenUnusable | editorial-voting-backend/src/api/create_token.rs:40-46 | Every session token the route issues is refused by `parse_token` as written, which reads the same token salt. |
| BackendCreateToken.FixedRoundTrip | editorial-voting-backend/src/api/create_token.rs:20-54 | With the corrected layouts, a corrected affiliation token shown on the profile within the hour gets a session token that parses back to the id. The affiliation token is made and validated under the affiliation salt, and the session token is made and parsed under the token salt, whether or not the two salts are equal. |
| ServerlessCreateToken.Gate | editorial-voting-vercel-serverless-function/api/create_token.rs:57-67 | The id check, the validation and the affiliation comparison, in that order. `GateIff` and `ChecksInOrder` are proved about it. |
| ServerlessCreateToken.IssueToken | editorial-voting-vercel-serverless-function/api/create_token.rs:57-79 | The gate, then get-or-insert of the user row, then the token. `RefusalWritesNothing` and `AcceptedIssues` are proved about it. |
| ServerlessCreateToken.CreateToken | editorial-voting-vercel-serverless-function/api/create_token.rs:50-82 | The handler's new tables and reply are `IssueToken` of the old tables, and the store stays valid. |
| ServerlessCreateToken.ChecksInOrder | editorial-voting-vercel-serverless-function/api/create_token.rs:57-60 | A bad id is refused before validation, and a failed validation before scraping. In both cases the scraper plays no part. |
| ServerlessCreateToken.GateIff | editorial-voting-vercel-serverless-function/api/create_token.rs:57-67 | The checks pass exactly when the id is valid, the token validates and the scraped affiliation equals the submitted token. A mismatch is `affiliation token not matched`. |
| ServerlessCreateToken.RefusalWritesNothing | editorial-voting-vercel-serverless-function/api/create_token.rs:57-77 | A refused request writes no row and returns the check's reason. |
| ServerlessCreateToken.AcceptedIssues | editorial-voting-vercel-serverless-function/api/create_token.rs:51-79 | An accepted request issues the token for the start time, the id and its unique user row. Existing rows are kept, at most one is added, and the tables stay well formed. |
| ServerlessCreateToken.RepeatSameUser | editorial-voting-vercel-serverless-function/api/create_token.rs:70-79 | Repeating an accepted request adds nothing and issues a token for the same user id. |
| Userscript.EncodeFormData | editorial-voting-userscript/atcoder-editorial-voting.user.js:38-40 | The `&`-joined `enc(k)=enc(v)` pieces. `FormDataDecodes` is proved about it. |
| Userscript.SameCanonicalLink | editorial-voting-userscript/atcoder-editorial-voting.user.js:30-36 | For `/jump?url=` and `/contests/` paths, the script's canonical form of the absolute link is the backend's canonical form of the relative one. |
| Userscript.FormPairs | editorial-voting-userscript/atcoder-editorial-voting.user.js:39 | One `enc(k)=enc(v)` piece per key, in key order. |
| Userscript.FormDataDecodes | editorial-voting-userscript/atcoder-editorial-voting.user.js:38-40 | The body splits at `&` back into one piece per entry, and each piece splits at `=` into the encoded key and value. No entries give the empty body. |
| Userscript.VoteString | editorial-voting-userscript/atcoder-editorial-voting.user.js:150-168 | The vote sent is `up` exactly for 1, `down` exactly for -1, and `none` otherwise. |
| Userscript.VoteFromLabel | editorial-voting-userscript/atcoder-editorial-voting.user.js:137-141 | `up` gives 1, `down` gives -1, and any other label gives 0. |
| Userscript.VoteStringsRoundTrip | editorial-voting-userscript/atcoder-editorial-voting.user.js:137-168 | Each vote survives each hop: script to vote endpoint, and status label back to script. |
| Userscript.Voting.constructor | editorial-voting-userscript/atcoder-editorial-voting.user.js:115-124 | A new `Voting` starts with score 0 and vote 0, with both buttons off. |
| Userscript.Voting.SetVote | editorial-voting-userscript/atcoder-editorial-voting.user.js:146-170 | After `setVote(v)`: the vote is v and the score is old score − old vote + v. Up is active exactly for 1 and down for -1. Up's next action is 0 when the vote is 1, else 1; down's is 0 when the vote is -1, else -1. The view shows the score, and when sending, the matching string is sent. |
| Userscript.Voting.ClickUp | editorial-voting-userscript/atcoder-editorial-voting.user.js:121-164 | A click on up votes up, or takes an up vote back, and sends it. |
| Userscript.Voting.ClickDown | editorial-voting-userscript/atcoder-editorial-voting.user.js:122-166 | A click on down votes down, or takes a down vote back, and sends it. |
| Userscript.Voting.ApplyStatus | editorial-voting-userscript/atcoder-editorial-voting.user.js:129-143 | An error reply changes nothing. Otherwise the server's score is shown, and a truthy `current_vote` sets the vote from its label without sending. |

## Left out

- SHA-256 and hex encoding of the digest are a parameter whose every value is 64 lowercase hex characters. Nothing else about the hash is assumed.
- Percent-decoding (`urlencoding::decode`, `decodeURIComponent`) and `encodeURIComponent` are parameters. The `expect("UTF-8")` panic of the decoder is not modelled. `encodeURIComponent` is only assumed to escape `&` and `=`.
- The two salts come from the environment variables `EDITORIAL_VOTING_AFFILIATION_TOKEN_SALT` and `EDITORIAL_VOTING_TOKEN_SALT`, and reading them can fail. Each is a separate parameter; the failure is not modelled.
- Clock readings are whole seconds passed as parameters, one per separate `SystemTime::now()` read. Sub-second precision and a clock before the epoch are not modelled.
- Network I/O and HTML scraping (`scrape_affiliation`, `scrape_editorials`, `scrape_user`, the tokio runtimes) are left out. Their results are inputs.
- HTTP framing, CORS, JSON payloads (including the `invalid request` reply), actix/vercel handlers and TLS setup are left out.
- Database errors are not modelled: connection failures, failed statements, and the backend's `while let Ok(Some(row))` stopping silently on a row error. SQL is modelled as map lookups.
- Rows whose order is not fixed are modelled in position order. The `statuses.rs` id query has no `ORDER BY`, so with a repeated link, which of its positions is filled depends on that order. `RepeatedLinkOneSlot` states, for every map the rows can leave, what holds whatever the order. The bucket rows' order does not matter, because they only add up.
- Serial ids skipped by a conflicting insert are not modelled: a new row takes the next id.
- Concurrency and the connection mutex are left out: each call is atomic.
- Integer widths (`i16` scores and ratings, `i32` ids, `i64` sums) are unbounded here, and overflow is not modelled. Ratings are non-negative, so SQL's truncating `rating / 100` is Dafny's division.
- The serverless crate's own `atcoder_api` module is not part of this model. Its functions are fields of `VercelApi.Api`.
- The backend's `status.rs` and `vote.rs` routes are `todo!()` stubs and are left out.
- Both `create_affiliation_token` handlers are left out: each is an id check plus the call modelled in `atcoder_api.dfy`.
- Userscript DOM construction, `GM_getValue`/`GM_setValue`, `login`, `fetch`/`callApi`, the settings page, and the asynchronous ordering of `getVote` and clicks are left out. Sending is modelled by returning the string that would be sent.
- The backend `statuses` route's token parser is a parameter. The backend's own `parse_token` returns a `String`, yet the route reads a user id from its result, so the route's parser is not the one modelled in `atcoder_api.dfy`.

## Findings

| source | as written | input that shows it | evidently intended | confidence | as-written member | corrected member |
|---|---|---|---|---|---|---|
| editorial-voting-backend/src/atcoder_api.rs:23-29 | `create_affiliation_token` writes the unpadded hex time directly followed by the hash | any time and id, e.g. t = 0: `"0" + hash`, 65 characters with no `-` at offset 16, so `validate_affiliation_token` answers `affiliation_token invalid format` | `{time:016x}-hash`, the shape of `AFFILIATION_TOKEN_PATTERN` | not executed | AtcoderApi.AffiliationTokenNeverMatches | AtcoderApi.ValidateFixedAccepts |
| editorial-voting-backend/src/atcoder_api.rs:63-72 | `parse_token` checks the two-segment affiliation pattern, then unwraps a third `-` segment | any token: one off that pattern (every `create_token` output has two dashes) is refused, and one on it has only two segments, so the third `unwrap` panics | check `TOKEN_PATTERN` and have `create_token` pad the time to 16 digits, so issued tokens parse back to their id | not executed | AtcoderApi.ParseTokenNeverParses | AtcoderApi.ParseTokenFixedRoundTrip |
| editorial-voting-vercel-serverless-function/api/statuses.rs:91-118 | with a token, the id list keeps repeats but the id-to-position map keeps one position per id, and the bucket rows are joined against the list | the link `"u"` twice, `"u"` having one bucket holding 1: one position reports 0 with no buckets and the other reports 2 (with the rows in position order, positions 0 and 1) | one result per position, each the link's own status | not executed | ServerlessStatuses.DuplicateLinkCounterexample | ServerlessStatuses.GetStatusesFixed |
