# File explorer: listing, configuration and search, in Dafny

This project models the logic of a small browser-based file explorer. On the
backend, an Express server lists the entries of one sandbox directory
(`GET /api/files`). Each entry is `{name, type, size, modified}`, built from the
entry's `stat` record. The server also reports a version object
(`GET /api/version`). Both the sandbox root and the version fields come from
environment variables, and JavaScript `||` supplies a default for each. On the
frontend, the explorer page shows its rows through a case-insensitive search box.

The model is functional. Everything the JavaScript reads from the outside world
is an input value:

- the environment (`process.env`) is a `map<string, string>`;
- the file system is a map from directory path to a `Directory`, holding the
  `readdirSync` names in enumeration order and each name's `Stat`;
- a `Stat` is `{isDir, size, mtimeIso}`. The modification time is already
  rendered by `toISOString`, or is `None` when it lies outside the range of a
  JavaScript `Date`, where `toISOString` throws `RangeError`.

A `readdirSync`, `statSync` or `toISOString` call that would throw becomes an `Err`. In the
server that throw escapes the handler, and Express answers with its default
500 page.

Modules:

- `Outcomes` (outcomes.dfy): `Option` and `Result`.
- `Text` (text.dfy): the JavaScript string operations the code relies on.
  - `toLowerCase` is ASCII-only.
  - `includes` is proved equal to a reference "some occurrence exists" definition.
  - `split` with a one-character separator is proved inverse to `join`.
- `IsoDate` (iso_date.dfy):
  - the `full-date` production of section 5.6 of RFC 3339, with the month and
    day limits of section 5.7;
  - the `YYYY-MM-DDTHH:mm:ss.sssZ` shape that `toISOString` produces;
  - `split('T')[0]` on a timestamp.
- `Config` (config.dfy): the `MOCK_ROOT` fallback and the version object.
- `Listing` (listing.dfy): the `/api/files` entry mapping.
- `Search` (search.dfy): the search filter of the explorer page.

The backend has no path parameter, no path-containment check, and no content,
delete or rename endpoints. Folders report their numeric `stat` size. The
version object has the two fields `version` and `gitSha`.

## Model

| member | source | states |
|---|---|---|
| Text.Lower | frontend/src/App.js:77 | lower-casing keeps the length; each upper-case ASCII letter becomes its lower-case partner and every other character is kept, so no upper-case ASCII letter survives |
| Text.Includes | frontend/src/App.js:77 | `includes` answers true exactly when the needle occurs at some position of the string (agrees with the reference definition `Contains` on every input) |
| Text.Split | backend/src/index.js:17 | `split` always yields at least one piece, and no piece contains the separator |
| Text.JoinSplit | backend/src/index.js:17 | joining the pieces of a split with the separator gives back the original string |
| Text.SplitJoin | backend/src/index.js:17 | splitting a join of separator-free pieces gives back the pieces, so split and join are inverse |
| Text.FirstPieceIsPrefix | backend/src/index.js:17 | `s.split(sep)[0]` is a prefix of `s`, holds no separator, and ends at the end of `s` or just before its first separator |
| IsoDate.DatePart | backend/src/index.js:17 | `modified` is the longest `T`-free prefix of the ISO timestamp; for a well-formed `toISOString` timestamp it is the ten-character RFC 3339 full-date at its start |
| IsoDate.DatePartExample | backend/src/index.js:17 | the timestamp `2024-01-22T08:30:00.000Z` yields the date `2024-01-22` |
| IsoDate.DatePartExample2 | backend/src/index.js:17 | the timestamp `2024-01-20T09:15:00.000Z` yields the date `2024-01-20` |
| Config.OrElse | backend/src/index.js:26-27 | `v \|\| fallback` is the variable's value when it is set and non-empty and the fallback otherwise, and is non-empty whenever the fallback is |
| Config.Lookup | backend/src/index.js:7 | reading `process.env[name]` gives the variable's value when it is set and `undefined` (`None`) exactly when it is not |
| Config.Root | backend/src/index.js:7 | the root is `MOCK_ROOT` when that is a non-empty string and the default workspace path otherwise (unset or `""`); it is never empty |
| Config.RootReadsOnlyMockRoot | backend/src/index.js:7 | setting, changing or removing any other variable (such as `EXPLORER_DATA_ROOT`) leaves the root unchanged |
| Config.EmptyMockRootIsUnset | backend/src/index.js:7 | `MOCK_ROOT=""` selects the same root as leaving `MOCK_ROOT` unset, the default path |
| Config.Version | backend/src/index.js:24-29 | the version object has exactly the fields `version` and `gitSha`; each is its variable when non-empty, else `1.0.0` or `unknown`; neither is ever empty |
| Listing.TypeTag | backend/src/index.js:15 | the type tag is `"folder"` exactly for directories and `"file"` exactly for everything else, and takes no other value |
| Listing.MakeEntry | backend/src/index.js:13-18 | the object literal fails with `DateFailed` exactly when the modification time cannot be rendered; otherwise the entry keeps the name unchanged, has a two-valued type tag matching `isDir`, and copies the stat size for folders and files alike; its date is the `T`-free prefix of the timestamp, and a full-date when the timestamp is well formed |
| Listing.EntryFor | backend/src/index.js:11-18 | the callback for one name throws `StatFailed` when the name cannot be stat'ed and `DateFailed` when its modification time cannot be rendered; it succeeds exactly otherwise, with the name, size, type and date taken from that name's stat |
| Listing.MapEntries | backend/src/index.js:11-19 | the mapping succeeds exactly when every name can be stat'ed and its modification time rendered; it then yields one entry per name, in order, each the callback's entry for that name; otherwise it fails with the exception of the first name whose callback throws |
| Listing.ListDirectory | backend/src/index.js:11-19 | listing succeeds exactly when the root is readable and every name in it can be stat'ed and its modification time rendered; it then yields one entry per name, in order; it fails with `ReadDirFailed` exactly when the root is unreadable, and otherwise with the exception of the first name whose callback throws |
| Listing.FilesHandler | backend/src/index.js:10-21 | the handler lists the configured root: it succeeds exactly when that root is readable and every name in it can be stat'ed and its modification time rendered, then yields one entry per name, in order; it fails with `ReadDirFailed` of the root when the root is unreadable, and otherwise with the exception of the first name whose callback throws |
| Listing.EntriesWellFormed | backend/src/index.js:13-18 | every listed entry has a name taken from the directory, type `"folder"` or `"file"` matching that name's stat, the stat's size, and a date without a time of day |
| Listing.EntryAtPosition | backend/src/index.js:11-19 | the i-th entry is named after the i-th directory name, and its type, size and date come from that name's stat record |
| Listing.ListingDependsOnlyOnRoot | backend/src/index.js:10-11 | two file systems that agree on the root directory give the same listing; no request input selects a sub-path |
| Listing.FixtureNamesListed | tests/sandbox/test.js:21-24 | when `MOCK_ROOT` points at a directory holding `test.txt` and `test.png`, and every name in it can be stat'ed and dated, the listing succeeds and contains entries with both names |
| Listing.UnrenderableDateFailsListing | backend/src/index.js:17 | one name whose modification time `toISOString` cannot render, after only listable names, makes the whole listing fail with `DateFailed` of that name |
| Listing.ConcreteEntries | backend/src/index.js:13-18 | the concrete folder `docs` and file `a.txt` each yield their entry, with the stat size and the bare date |
| Listing.ConcreteListing | backend/src/index.js:11-19 | a folder `docs` and a file `a.txt` list as `{docs, folder, 4096, 2024-01-20}` and `{a.txt, file, 12, 2024-01-22}`; the folder keeps its numeric size |
| Search.FilterRows | frontend/src/App.js:77 | the shown rows are a subsequence of the rows; every shown row matches the query (soundness); every matching row is shown (completeness), with all its occurrences |
| Search.Matches | frontend/src/App.js:77 | a row matches exactly when its lower-cased name contains the lower-cased query |
| Search.EmptyQueryShowsAll | frontend/src/App.js:77 | with the empty query every row is shown, unchanged and in order |
| Search.InitialPageShowsAll | frontend/src/App.js:5-12 | on first render, with the initial empty query, the page shows all five of its initial rows |
| Search.QueryCaseInsensitive | frontend/src/App.js:77 | a query and its lower-cased form show the same rows |
| Search.FilterIdempotent | frontend/src/App.js:77 | filtering the shown rows again with the same query changes nothing |
| Search.FilterNarrows | frontend/src/App.js:77 | if every row matching one query also matches a second, filtering by the first equals filtering by the second and then by the first |
| Search.Monotone | frontend/src/App.js:77 | when the lower-cased query occurs in a longer lower-cased query, the rows shown for the longer query are a subsequence of those shown for the shorter one |
| Search.SearchExample | frontend/src/App.js:10 | searching `JSON` shows the initial row `config.json`, although the case differs |

## Left out

- Reading `process.env`, the `PORT` variable, `app.listen` and Express routing are framework plumbing. The environment is a map parameter instead.
- `fs.readdirSync`, `fs.statSync` and `path.join` are file-system I/O. Their results are inputs: names, plus stat records keyed by name. `readdirSync` names never contain a separator, so the name determines the joined path.
- Express's HTTP status and error page for a throwing handler are left out. They are framework behaviour, and the model stops at the `Err` value.
- `Date.prototype.toISOString` is library behaviour. Its result is an input: the rendered string, or `None` when the time lies outside the `Date` range (about ±8.64e15 ms) and the call throws `RangeError`.
- IsoDate.DatePart: the full-date claim covers only the 24-character form written for years 0 to 9999. For other years, `toISOString` writes a signed six-digit year (`+275760-09-13T…`), and then only the `T`-free-prefix part of the contract applies.
- Text.Lower: lower-cases only ASCII `A`–`Z`. The full Unicode `toLowerCase` is library behaviour, and some of its mappings change a string's length.
- Listing.MakeEntry: `size` is an unbounded `nat`. JavaScript numbers lose precision above 2^53 bytes, and the model ignores that.
- React state, the JSX layout, the folder/file icon choice (frontend/src/App.js:80-83) and styling are presentation.
- The tests also exercise behaviour that the modelled code does not implement. None of it is modelled: a content endpoint serving binaries and dotfiles, starred-first ordering, human-readable sizes, long-press handling and text-viewer navigation.
- Path containment, a per-request path, delete and rename do not exist in the code. None of them is modelled.
