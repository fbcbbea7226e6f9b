# rugs badge metadata server, modelled in Dafny

rugs is a small metadata server for Unreal GameSync. CI jobs post build
"badges": a changelist number, a build type, a result and a URL, filed
under a project. Clients then poll for the badges that are newer than the
last id they saw. This project models the server's handlers over an
in-memory version of its two SQLite tables and proves what they promise.

The model covers four source files:

- `src/models.rs`: the wire types. `BadgeResult` has fixed `u8` codes 0–4 and a
  partial decoder. `UgsUserVote` has its five variants. The metadata
  response has a `matches` test.
- `src/handlers.rs`: the current handlers.
  - `get_or_add_project` looks a project up by name and inserts it when it is missing.
  - `latest` returns the largest badge id of a project, or 0.
  - `build_index` returns the project's badges after a cursor in ascending id
    order. It drops and logs rows whose stored result code does not decode.
  - `build_create` gets or adds the project, then appends one badge row.
- `src/bin/rugs_metadata_server.rs`: its own copies of those handlers, plus two middlewares.
  The URI rewrite is marked unused and is never installed. `LowercaseUri` and
  its lemmas describe code that the server does not run.
  - The HTTP Basic gate (RFC 7617, section 2) decodes the header with
    base64 (RFC 4648, section 4) and UTF-8 (RFC 3629).
  - The path-lowercasing URI rewrite.
- `src/main.rs`: the older handlers. They panic on a storage failure and
  report every listed badge as `Success`.

Layout, one module per file:

| file | module | content |
|---|---|---|
| `wrappers.dfy` | `Wrappers` | `Option`, `Result` |
| `bytes.dfy` | `Bytes` | the `u8` newtype |
| `models.dfy` | `Models` | the types of `src/models.rs` |
| `base64.dfy` | `Base64` | RFC 4648 encoder and strict decoder, both round trips |
| `utf8.dfy` | `Utf8` | RFC 3629 encoder and validating decoder, both round trips |
| `tables.dfy` | `Tables` | the two tables, the functions that define the SQL statements, and the store as a class `Database` |
| `handlers.dfy` | `Handlers` | `src/handlers.rs` |
| `server.dfy` | `MetadataServer` | `src/bin/rugs_metadata_server.rs` |
| `legacy.dfy` | `LegacyMain` | `src/main.rs` |

How the tables are modelled:

- Each table is a sequence of rows in rowid order. Ids are positive and
  strictly ascending.
- An insert takes the next rowid: the last id plus one, or 1 for an empty table.
- `ORDER BY id` is table order.
- `project = ?` is exact string equality.
- The badge `result` column is an unconstrained integer, so rows holding
  codes outside 0–4 can be represented.

Writes are methods of `Database` that change its two `seq` fields. The
handlers' queries are functions over a `Snapshot` of both tables.

A store is consistent (`Tables.Consistent`) when its rows are in rowid order,
no two projects share a name, and every badge names an existing project.
The insert methods keep rowid order (`Database.Valid`). The empty store is
consistent, and every write handler keeps consistency on each of its success
and failure paths. So every store the handlers build meets the precondition
of the lemmas about listing after a create.

Storage failures are inputs:

- `Handlers.Faults` says which write statement fails.
- A `readFails` flag says whether a query fails.
- `src/handlers.rs` and the server binary turn a failure into `Err(StorageError)`,
  which is HTTP 500.
- `src/main.rs` unwraps, and the model says `Panicked`.

The request timestamp (`chrono::Utc::now()`) is a parameter.

The model follows the code:

- projects are plain names;
- only badges are stored;
- ids are SQLite rowids. The schema is not part of the code, so this is an
  assumption. For projects, the code returns `last_insert_rowid()` as the new
  id. For badges, it is inferred from `ORDER BY id` and the `NonZeroI64` id.

The handler files name `BuildDataResult`, `LatestResponseV1` without
`version`, an `Option<NonZeroI64>` id and `archive_path`. These do not match
`src/models.rs`. The model therefore:

- uses `BadgeResult` with codes 0–4;
- gives `Badge` an optional id and an opaque `archivePath` string;
- leaves out `version`.

## Model

| member | source | states |
|---|---|---|
| Models.Discriminant | src/models.rs:27-34 | every result code fits in a `u8` and is at most 4 |
| Models.FromI64 | src/models.rs:23 | decoding an integer yields a variant exactly when it lies in 0..4, and that variant's code is the integer; anything else yields nothing |
| Models.DiscriminantsAreFixed | src/models.rs:28-34 | Starting=0, Failure=1, Warning=2, Success=3, Skipped=4 |
| Models.DecodeDiscriminant | src/models.rs:23-34 | decoding the code of a variant gives back that variant |
| Models.DiscriminantInjective | src/models.rs:27-34 | no two variants share a code |
| Models.VoteIndex | src/models.rs:61-67 | each vote has its place in the declaration order None, CompileSuccess, CompileFailure, Good, Bad |
| Models.ParseVote | src/models.rs:60-67 | a vote read from a name has that name |
| Models.ParseVoteName | src/models.rs:60-67 | every vote reads back from its own name |
| Models.VotesAreFive | src/models.rs:61-67 | exactly five distinct votes, and every vote is one of them |
| Models.Matches | src/models.rs:100-104 | `matches` holds iff both the project and the change number are equal |
| Models.NonZero | src/handlers.rs:79 | `NonZeroI64::new` gives the id exactly when it is non-zero |
| Base64.DecodeEncode | src/bin/rugs_metadata_server.rs:52 | decoding an encoding gives back the octets |
| Base64.Decode | src/bin/rugs_metadata_server.rs:52 | `base64::decode`: an accepted text has a length that is a multiple of 4 and decodes to between 3/4 of its length less 2 and 3/4 of its length octets; the round trips pin which texts it accepts |
| Base64.EncodeDecode | src/bin/rugs_metadata_server.rs:52 | the decoder is canonical: a text that decodes is the encoding of its result |
| Utf8.DecodeEncode | src/bin/rugs_metadata_server.rs:53 | `String::from_utf8` of a string's encoding gives back the string |
| Utf8.Decode | src/bin/rugs_metadata_server.rs:53 | `String::from_utf8`: accepted bytes give a string with at least one character per 4 bytes and at most one per byte; the round trips pin which bytes it accepts |
| Utf8.EncodeDecode | src/bin/rugs_metadata_server.rs:53 | bytes that `from_utf8` accepts are exactly the encoding of the string it returns |
| Tables.FindProject | src/handlers.rs:13-18 | the lookup returns the id of a row with that name, and finds nothing exactly when no row has the name |
| Tables.Resolve | src/handlers.rs:12-31 | get-or-add on the projects table: the returned id names a row with the requested name, and the table only grows, by at most one row |
| Tables.NextProjectId | src/handlers.rs:25-28 | the rowid of an inserted project is positive and larger than every existing project id |
| Tables.NextBadgeId | src/handlers.rs:111-121 | the rowid of an inserted badge is positive and larger than every existing badge id |
| Tables.ResolveSpec | src/handlers.rs:12-31 | get-or-add returns the id of a row with that name; an existing name leaves the table unchanged; a new name appends exactly one row with a fresh id; rowid order and distinct names are kept |
| Tables.ResolveTwice | src/handlers.rs:12-31 | two get-or-adds of one name return the same id and add at most one row in total |
| Tables.NewestInProject | src/handlers.rs:42-47 | the newest-first scan finds a badge of the project, or reports that the project has none |
| Tables.LastBuildId | src/handlers.rs:42-50 | `latest`'s build id is 0 or the id of a badge of the project, and 0 when the project has none |
| Tables.LastBuildIdIsMax | src/handlers.rs:42-50 | the latest id is non-negative, 0 exactly when the project has no badge, otherwise the id of one of its badges and at least every one of its badge ids |
| Tables.Selected | src/handlers.rs:72-76 | the query returns exactly the project's badges with `id > cursor` |
| Tables.SelectedAscending | src/handlers.rs:72-76 | the selected rows come in strictly ascending id order |
| Tables.SelectedAppend | src/handlers.rs:72-76 | a row appended to the table is selected after the old selection, or not at all |
| Tables.SubmitRecords | src/handlers.rs:104-121 | a submission appends one badge under the requested project with the request's fields and the enum's code, and leaves every existing row unchanged |
| Tables.Submit | src/handlers.rs:104-121 | `build_create` on the tables: both tables keep their rows as a prefix, and exactly one badge is appended with the next rowid |
| Tables.SubmitConsistent | src/handlers.rs:104-121 | a submission keeps rowid order, distinct project names and every badge's project reference |
| Tables.ResolveConsistent | src/handlers.rs:12-31 | a get-or-add alone, as left behind when the badge insert then fails, keeps rowid order, distinct names and every badge's project reference |
| Tables.NothingOldAfterLatest | src/handlers.rs:22-28 | a project row created by a submission gets a fresh id, so no pre-existing badge joins the project after its previous latest id |
| Tables.SelectedAfterSubmit | src/handlers.rs:104-121 | after a submission, the query from the previous latest id returns the new row alone, and that row becomes the latest |
| Tables.Database.InsertProject | src/handlers.rs:25-28 | the insert appends one row with the next rowid and returns that id |
| Tables.Database.InsertBadge | src/handlers.rs:111-121 | the insert appends one badge row with the next rowid and the given columns |
| Handlers.GetOrAddProject | src/handlers.rs:12-31 | errors exactly when the lookup fails or a needed insert fails, and then writes nothing; otherwise the table and the id are those of `Resolve`; badges never change; a consistent store stays consistent |
| Handlers.Latest | src/handlers.rs:38-55 | errors exactly on a read failure; otherwise reports the project's latest badge id, with comment and event ids 0 |
| Handlers.LatestReportsMax | src/handlers.rs:42-53 | the reported id is the largest badge id of the project, and 0 exactly when it has none |
| Handlers.Partition | src/handlers.rs:92-98 | splitting the mapped rows loses none of them |
| Handlers.RowToBadge | src/handlers.rs:77-88 | the row closure: a badge exactly when the stored code decodes, with that decoded result, the row's id as `NonZeroI64`, its change number and the requested project; otherwise the row id as the error |
| Handlers.Kept | src/handlers.rs:77-98 | reference definition: every row whose code decodes, converted, and nothing else |
| Handlers.DroppedIds | src/handlers.rs:92-96 | reference definition: exactly the ids of the rows whose code does not decode |
| Handlers.PartitionIsFilter | src/handlers.rs:92-98 | the partition yields the decodable rows in order and the ids of the others |
| Handlers.BuildIndex | src/handlers.rs:64-101 | errors exactly on a read failure |
| Handlers.BuildIndexKeepsDecodable | src/handlers.rs:77-98 | the listing holds exactly the project's rows after the cursor whose code decodes, each with its stored fields and decoded result, never a default |
| Handlers.BuildIndexAscending | src/handlers.rs:72-76 | the listed badges carry ids in strictly ascending order |
| Handlers.BuildIndexLogsDropped | src/handlers.rs:92-96 | the ids logged as bad are exactly those of the project's rows after the cursor whose code does not decode |
| Handlers.ListAfterCreate | src/handlers.rs:104-124 | after `build_create`, listing from the previous latest id gives exactly the new badge with the submitted result and fields, and `latest` reports its id |
| Handlers.BuildCreate | src/handlers.rs:104-124 | a failing project step returns an error before any badge is written; a failing badge insert changes no badge; otherwise the store is the submission's result; on every path a consistent store stays consistent |
| MetadataServer.HeaderToStr | src/bin/rugs_metadata_server.rs:49 | a header is text exactly when every byte is visible ASCII or tab, and then its characters are its bytes |
| MetadataServer.StripPrefix | src/bin/rugs_metadata_server.rs:51 | a rest is returned exactly when the text starts with the prefix, and prefix plus rest is the text |
| MetadataServer.Credential | src/bin/rugs_metadata_server.rs:48-53 | the credential chain of the gate: when it yields a credential, every header byte is visible ASCII or tab and the header starts with `Basic `; `CredentialIsCanonical` pins the rest |
| MetadataServer.CredentialOfBasicHeader | src/bin/rugs_metadata_server.rs:48-53 | the canonical `Basic` header of a credential yields that credential |
| MetadataServer.CredentialIsCanonical | src/bin/rugs_metadata_server.rs:48-53 | a header that yields a credential is the canonical `Basic` header of it |
| MetadataServer.Auth | src/bin/rugs_metadata_server.rs:44-72 | an empty requirement forwards every request; a missing header, or one that is not Basic, not base64 or not UTF-8, gets 401 |
| MetadataServer.AuthAcceptsExactly | src/bin/rugs_metadata_server.rs:55-62 | with a non-empty requirement, a request is forwarded iff its header is the `Basic` header of exactly the required credential |
| MetadataServer.ParsePathAndQuery | src/bin/rugs_metadata_server.rs:91 | the parsed path has no `?`, and the parts print back to the text |
| MetadataServer.ParseText | src/bin/rugs_metadata_server.rs:84-91 | re-parsing the text of a parsed path and query gives it back |
| MetadataServer.Lowercased | src/bin/rugs_metadata_server.rs:77-92 | the rewritten URI keeps scheme, authority, the presence of a path and query, the path's length and the query |
| MetadataServer.LowercasedKeeps | src/bin/rugs_metadata_server.rs:78-92 | the rewrite keeps scheme, authority and query verbatim; the new path has no ASCII capital and equals the old one up to letter case |
| MetadataServer.LowercasedIdempotent | src/bin/rugs_metadata_server.rs:76-96 | rewriting twice equals rewriting once |
| MetadataServer.LowercasedMerges | src/bin/rugs_metadata_server.rs:84-89 | two URIs that differ only in their paths are rewritten alike iff the paths are equal up to ASCII case |
| MetadataServer.LowercaseUri | src/bin/rugs_metadata_server.rs:76-96 | rebuilding the URI from `lowercase(path) ["?" query]` stores the rewritten URI in the request |
| MetadataServer.Latest | src/bin/rugs_metadata_server.rs:158-175 | errors exactly on a read failure; comment and event ids are 0; on ordered tables the build id is the project's largest badge id, 0 when there is none |
| MetadataServer.Badges | src/bin/rugs_metadata_server.rs:183-220 | errors exactly on a read failure; otherwise lists the decodable rows of the selection, converted and in order, and logs the ids of the rest |
| MetadataServer.GetOrAddProject | src/bin/rugs_metadata_server.rs:222-241 | the same get-or-add contract as the handler in `src/handlers.rs`, consistency kept |
| MetadataServer.AddBadge | src/bin/rugs_metadata_server.rs:261-281 | the same contract as `build_create`: no badge on a failing project step, otherwise the submission; a consistent store stays consistent |
| LegacyMain.GetOrAddProject | src/main.rs:123-142 | panics exactly when the lookup or a needed insert fails, writing nothing; otherwise behaves as `Resolve`; a consistent store stays consistent |
| LegacyMain.Latest | src/main.rs:67-85 | panics exactly on a read failure; otherwise answers as the current `latest` |
| LegacyMain.Badges | src/main.rs:93-121 | panics exactly on a read failure; otherwise one badge per selected row |
| LegacyMain.AsSuccess | src/main.rs:106-115 | the row closure of `main.rs`: always `Success`, and otherwise, for a row with a decodable code, the badge the current handler builds |
| LegacyMain.BadgesKeepsEveryRow | src/main.rs:101-118 | every row of the project after the cursor is listed and nothing else, in strictly ascending id order, with its stored fields and result `Success` |
| LegacyMain.FailureReportedAsSuccess | src/main.rs:106-115 | a stored Failure is listed as Success, where the current handler lists Failure |
| LegacyMain.AddBadge | src/main.rs:162-182 | panics with no badge written on a failing project step; panics with the badges unchanged on a failing insert; otherwise the store is the submission's result; a consistent store stays consistent |

## Findings

| source | as written | input that shows it | evidently intended | confidence | as-written member | corrected member |
|---|---|---|---|---|---|---|
| src/main.rs:111 | every listed badge's result is `Success`, whatever code is stored | one project `game` (id 1) with one badge whose stored result is 1 (Failure), listed from cursor 0 | the stored code decoded, as `src/handlers.rs:83` does | medium (the older handler may be a deliberate stub); not executed | LegacyMain.FailureReportedAsSuccess | Handlers.BuildIndexKeepsDecodable |

## Left out

- HTTP routing, router nesting, `Extension` layers, server binding, `health` and `print_request_response`: plumbing with no state of its own.
- Config-file reading and tracing setup: I/O. Log lines are not modelled. The one exception is the ids `build_index` logs as bad rows, which appear as `Listing.logged`.
- `sqlx`, the connection pool, async execution and migrations. The two tables are sequences of rows, and every storage failure is an explicit input.
- The race in `get_or_add_project` (the `TODO: Thread safe`) is not modelled: requests are sequential. Two concurrent inserts of a new name could create duplicate rows. `Tables.FindProject` then returns the first, as `LIMIT 1` over a rowid scan does.
- `event_index`, `comment_index` and `issue_index` always answer an empty array. The error wrapper in `src/error.rs` only maps errors to HTTP 500.
- Stream/project path parsing, a sequence allocator, user events and per-changelist aggregation are not implemented in the code, so they are not modelled. Only their response types exist.
- Query-string and JSON extraction (a non-numeric `lastbuildid`, a result code outside the enum in a request body) are refused by the framework before any handler runs. JSON field naming is not modelled.
- Models.FromI64: does not model 64-bit integers. Every integer is accepted as input, so codes above `i64::MAX` also decode to nothing.
- Tables.NextProjectId: does not model the 64-bit rowid limit. SQLite then looks for an unused rowid instead of using the last one plus one.
- Tables.NextBadgeId: same 64-bit rowid limit as `NextProjectId`.
- Base64.Decode: strict RFC 4648 decoding. It requires padding and canonical trailing bits. The `base64` crate's version-specific tolerance of other texts is not modelled.
- MetadataServer.LowercaseUri: ASCII-only lowercasing. `str::to_lowercase` also lowercases non-ASCII letters.
- MetadataServer.LowercaseUri: the `http` crate's validation and normalisation of URI parts are not modelled. This covers characters it rejects and an empty path printed as `/`. The panic of `build().unwrap()` on a rejected URI is not modelled either.
- MetadataServer.Auth: logs nothing. Whether the request is forwarded is the only outcome modelled.
- `chrono::Utc::now()` and the `DateTime` conversion: the timestamp is an opaque integer supplied by the caller.
