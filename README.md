# PoetryStorage: versioned seeding and read queries

This project models the local data layer of the DailyPoetry app, the class `PoetryStorage`.
The app ships a read-only SQLite database as an embedded resource. On first run
`InitializeAsync` copies the resource into a file under the local application data folder.
It then records a version marker in the preference store. `IsInitialized` compares that
marker with the constant `PoetryStorageConstant.Version` (1). Two queries read the seeded
`Poetry` table through a connection that is created lazily: the first row with a given id,
and filter → skip → take.

Files:

- `wrappers.dfy`: `Option`, which stands for the null that `FirstOrDefaultAsync` returns.
- `models.dfy`: bytes, the C# `int` range, and the `Poetry` row.
- `constants.dfy`: `PoetryStorageConstant` (`VersionKey`, `Version`), and `DbName`, which the source declares on `PoetryStorage` itself.
- `queries.dfy`: the two queries as functions over the table, in scan order, and what they promise.
- `seeding.dfy`: the readiness gate and the initialisation protocol. The preference map and
  the file system together are a `Host`. Each collaborator call is a `Call`, and running a
  sequence of calls gives a new `Host`. A process killed part way through `InitializeAsync`
  is therefore a proper prefix of its calls, provided the copied bytes are in the file
  when `CopyToAsync` returns (see "## Left out").
- `storage.dfy`: the classes. `PoetryStorage` has the `_connection` field, the injected
  preference store and the file system. A ghost trace records every call it makes to the
  preference store, the file system and the embedded resources, and the persisted state read
  back after each of those calls. The preference store keeps its own
  log of every `Get` and `Set` made on it, written by those operations themselves; that log is
  what the unit tests count with `Verify(..., Times.Once)`. The state trace ties each intermediate state of
  `InitializeAsync` to a prefix of its calls.

Two consequences of the code are worth stating:

- `FileMode.OpenOrCreate` does not truncate. A longer old file therefore keeps its bytes
  past the resource's length (`CopyOver`, `CopyOverKeepsTail`).
- A lookup with no match returns the default value (null), which is `None` here.

## Model

| member | source | states |
|---|---|---|
| `Seeding.Ready` | DailyPoetry.Library/Services/PoetryStorage.cs:30-31 | ready exactly when the marker key is present and maps to `Version`; an absent key reads as 0 and so is not ready |
| `Seeding.LookupAfterSet` | DailyPoetry.Library/Services/PoetryStorage.cs:31-48 | `Lookup` is the store's `Get(key, default)`, and `Storage.PreferenceStore.Get` returns it: after `Set(key, value)`, `Get(key, _)` reads `value`, and every other key reads as before |
| `Seeding.ReadyGate` | DailyPoetry.Library/Services/PoetryStorage.cs:62-65 | an empty preference store is not ready; setting `VersionKey` to `Version` makes any store ready |
| `Storage.PoetryStorage.IsInitialized` | DailyPoetry.Library/Services/PoetryStorage.cs:30-31 | returns `Ready` of the stored preferences; the store's own log grows by exactly one `Get(VersionKey, 0)`, and so does the call trace; preferences and files are unchanged, and the state read back after the call equals the state before |
| `Seeding.OpenOrCreate` | DailyPoetry.Library/Services/PoetryStorage.cs:36 | afterwards the path exists; an existing file keeps its bytes; a missing file is created empty; no other file changes |
| `Storage.FileSystem.OpenOrCreate` | DailyPoetry.Library/Services/PoetryStorage.cs:36 | the file system becomes `Seeding.OpenOrCreate` of the old one |
| `Seeding.CopyOver` | DailyPoetry.Library/Services/PoetryStorage.cs:46 | the first bytes of the result are the copied data; a longer old file keeps its bytes past that point; the length is the larger of the two |
| `Storage.FileSystem.CopyTo` | DailyPoetry.Library/Services/PoetryStorage.cs:46 | the opened file becomes `CopyOver` of its old bytes; no other file changes |
| `Seeding.CopyOverIdempotent` | DailyPoetry.Library/Services/PoetryStorage.cs:46 | copying the same data a second time changes nothing |
| `Seeding.CopyOverEmpty` | DailyPoetry.Library/Services/PoetryStorage.cs:36-46 | a freshly created file becomes exactly the copied data |
| `Seeding.CopyOverKeepsTail` | DailyPoetry.Library/Services/PoetryStorage.cs:36-46 | with no truncation, copying `[1]` over `[7, 7, 7]` gives `[1, 7, 7]` |
| `Storage.PreferenceStore.Set` | DailyPoetry.Library/Services/PoetryStorage.cs:48 | only the given key changes, and it maps to the given value; the store's log grows by this one `Set` |
| `Storage.PreferenceStore.Get` | DailyPoetry.Library/Services/PoetryStorage.cs:31 | returns the stored value, or the default when the key is absent (`Lookup`); the preferences are unchanged and the store's log grows by this one `Get` |
| `Seeding.Step` | DailyPoetry.Library/Services/PoetryStorage.cs:31-48 | each collaborator call changes only what it names: only a preference set changes preferences, and only at its key; only opening or copying changes files, and only at their path, which exists afterwards |
| `Seeding.Run` | DailyPoetry.Library/Services/PoetryStorage.cs:33-49 | a call sequence with no preference set leaves the preferences unchanged; when the last call sets a key, that key holds the value afterwards |
| `Seeding.RunPrefixStep` | DailyPoetry.Library/Services/PoetryStorage.cs:33-49 | the state after the first `n + 1` calls is one `Step` on from the state after the first `n` |
| `Seeding.InitCalls` | DailyPoetry.Library/Services/PoetryStorage.cs:33-49 | initialisation first opens the file, then looks up the resource; it makes four calls when the resource exists and two when it does not |
| `Seeding.Initialize` | DailyPoetry.Library/Services/PoetryStorage.cs:33-49 | with the resource missing the preferences are unchanged; with it present the store ends up ready |
| `Seeding.InitOutcomeMatchesState` | DailyPoetry.Library/Services/PoetryStorage.cs:43-48 | the reported outcome agrees with the state: `Completed` leaves the store ready; `Failed(ManifestNotFound("poetrydb.sqlite3"))` leaves the preferences unchanged |
| `Seeding.InitPrefixes` | DailyPoetry.Library/Services/PoetryStorage.cs:36-48 | the state after each prefix of the calls: after opening and after the resource lookup only the file is opened or created; after the copy the file is overwritten; only after the last call is the marker set |
| `Seeding.InitializeUnfold` | DailyPoetry.Library/Services/PoetryStorage.cs:33-49 | the host after initialisation: the file is opened or created, then overwritten and the marker set when the resource exists; only opened when it does not |
| `Seeding.InitializeMissingResource` | DailyPoetry.Library/Services/PoetryStorage.cs:36-44 | a missing resource leaves preferences and readiness unchanged, and the file has already been opened or created |
| `Seeding.InitializeSeedsAndStamps` | DailyPoetry.Library/Services/PoetryStorage.cs:36-48 | on success the file exists and begins with the resource's bytes, with any longer tail kept; other files are unchanged; preferences change only at `VersionKey`, which becomes `Version`; the store is ready |
| `Seeding.InitializeFirstRun` | DailyPoetry.UnitTest/Services/PoetryStorageTest.cs:53-55 | if there was no file before, the file afterwards is exactly the resource |
| `Seeding.InitializeReady` | DailyPoetry.Library/Services/PoetryStorage.cs:30-48 | after initialisation the store is ready exactly when the resource exists or the store was already ready |
| `Seeding.InitializeIdempotent` | DailyPoetry.Library/Services/PoetryStorage.cs:33-49 | initialising twice leaves the same preferences and files as initialising once |
| `Seeding.InitializeInterrupted` | DailyPoetry.Library/Services/PoetryStorage.cs:46-48 | stopping after any proper prefix of the calls leaves preferences, and so readiness, as they were |
| `Seeding.InitCallsStampOnce` | DailyPoetry.UnitTest/Services/PoetryStorageTest.cs:58 | `Set(VersionKey, Version)` occurs once on success and never on failure; any preference set is the last call and comes right after the copy |
| `Storage.PoetryStorage.InitializeAsync` | DailyPoetry.Library/Services/PoetryStorage.cs:33-49 | the outcome is `InitOutcome` (failure exactly when the resource is missing); the store's own log grows by exactly one `Set(VersionKey, Version)` when the resource exists and by nothing otherwise; the call trace grows by exactly `InitCalls`; the state read back after its `n`-th collaborator call is `Run` of the first `n` calls of `InitCalls`, so the copy precedes the marker in the method itself; preferences and files end as `Initialize` of the old ones |
| `Storage.PoetryStorage.constructor` | DailyPoetry.Library/Services/PoetryStorage.cs:21-24 | keeps the injected preference store; there is no connection yet and no call has been made |
| `Storage.AsyncConnection.constructor` | DailyPoetry.Library/Services/PoetryStorage.cs:17 | a new connection is on the given path and not yet open |
| `Storage.PoetryStorage.Connection` | DailyPoetry.Library/Services/PoetryStorage.cs:15-17 | returns `_connection`, which is on the database path; creates a fresh one only when there was none; an existing connection is never replaced |
| `Queries.FirstById` | DailyPoetry.Library/Services/PoetryStorage.cs:51-52 | `None` exactly when no row has the id; otherwise the row at the first index with that id |
| `Queries.FirstByIdFindsRow` | DailyPoetry.UnitTest/Services/PoetryStorageTest.cs:65-66 | when ids are unique, looking up a row's id returns exactly that row |
| `Storage.PoetryStorage.GetPoetryAsync` | DailyPoetry.Library/Services/PoetryStorage.cs:51-52 | returns `FirstById` of the table; an existing connection is kept, one is newly created when there was none, and it is open |
| `Queries.Filter` | DailyPoetry.Library/Services/PoetryStorage.cs:55 | returns only rows of the table that satisfy the predicate, and each table row occurs in the result as often as in the table when it satisfies the predicate and not at all otherwise; never longer than the table |
| `Queries.FilterIsSubsequence` | DailyPoetry.Library/Services/PoetryStorage.cs:55 | filtering keeps table order |
| `Queries.FilterAll` | DailyPoetry.Library/Services/PoetryStorage.cs:55 | an always-true predicate returns the table unchanged |
| `Queries.Page` | DailyPoetry.Library/Services/PoetryStorage.cs:55 | `Skip` drops `skip` rows, or none when `skip` is negative; an offset past the end gives nothing; otherwise the length is `take`, or all remaining rows when `take` is negative or too large; row `i` of the page is row `offset + i` of the input |
| `Queries.PageIsSlice` | DailyPoetry.Library/Services/PoetryStorage.cs:55 | a non-empty page is the contiguous slice of the input that starts at the offset |
| `Queries.PageIsSubsequence` | DailyPoetry.Library/Services/PoetryStorage.cs:55 | a page keeps the order of the rows it is cut from |
| `Queries.Query` | DailyPoetry.Library/Services/PoetryStorage.cs:54-55 | filter, then skip, then take: every returned row is a table row that satisfies the predicate; at most `take` rows when `take >= 0`; never more rows than the table |
| `Queries.QueryProperties` | DailyPoetry.Library/Services/PoetryStorage.cs:54-55 | every returned row satisfies the predicate; rows keep table order; at most `take` rows (when `take >= 0`); at most the filtered rows left after the offset |
| `Queries.QueryWholeTable` | DailyPoetry.Library/Services/PoetryStorage.cs:54-55 | an always-true predicate, no offset and a limit of at least the table size return the whole table |
| `Queries.QuerySeedTable` | DailyPoetry.UnitTest/Services/PoetryStorageTest.cs:75-78 | on the 30-row seed table, `(p => true, 0, int.MaxValue)` returns 30 rows |
| `Queries.QueryLastPage` | DailyPoetry.Library/Services/PoetryStorage.cs:54-55 | on 30 rows, offset 25 and limit 10 return exactly the last 5 rows |
| `Queries.PagesTile` | DailyPoetry.Library/Services/PoetryStorage.cs:54-55 | the page `[k, k+n)` followed by the page `[k+n, k+n+m)` equals the page `[k, k+n+m)` |
| `Storage.PoetryStorage.GetPoetriesAsync` | DailyPoetry.Library/Services/PoetryStorage.cs:54-55 | returns `Query(where, table, skip, take)` as a finished list; an existing connection is kept, one is newly created when there was none, and it is open |
| `Storage.PoetryStorage.CloseAsync` | DailyPoetry.Library/Services/PoetryStorage.cs:57 | goes through the getter, so it creates a connection if there was none; afterwards the connection exists, is closed, and `_connection` is not cleared |

## Left out

- The SQLite engine and sqlite-net. The table is a fixed sequence of rows in scan order, and no key order is assumed. The model does not say how the table's rows relate to the bytes of the database file.
- Negative `skip` and `take` follow SQLite's `LIMIT`/`OFFSET` rules, because sqlite-net passes them through as `LIMIT take OFFSET skip`. A negative limit means no limit, and a negative offset acts as zero. These rules come from the engine and are not in the repository.
- Queries on a store that was never initialised. The table is a constant, so the queries are modelled as if the store were seeded. In the source, the first query on an unseeded store would open the database at `PoetryDbPath`, and the engine would then raise an error. Errors that the engine raises are not modelled.
- LINQ expression trees. The `where` predicate is a total Dafny function on rows.
- Asynchrony (`Task`, `await`). Each operation is one sequential method.
- Platform paths, `Environment.GetFolderPath` and resource embedding. The database path, the file system, the embedded resources and the table are given to the constructor. The source's constructor takes only the preference store.
- Real file I/O. The copy is one atomic step that is complete when `CopyToAsync` returns. A write that fails part way (an `IOError` mid-copy) is covered only in the sense that the copy comes before the marker is set.
- Stream disposal by `await using`. `dbFileStream` is disposed when `InitializeAsync` ends, which is after `Set(VersionKey, Version)`. Disposal flushes bytes the stream may still buffer, so in the source the last copied bytes can reach the file after the marker is written. The model does not capture this.
- Seeding.InitializeInterrupted: crash safety holds only on the assumption above that the copy is in the file when `CopyToAsync` returns. A process killed between the marker write and the stream's disposal could leave the marker set and the file incomplete.
- Concurrency. The source has no locking, so none is modelled.
- `IPoetryStorage` holds declarations only and has no logic to model.
- The `Poetry` model class (`Models/Poetry.cs`) is not part of this model. Only `Id` and `Name` are used; the other fields of the `Poetry` datatype stand in for the rest.
- Test plumbing in `PoetryStorageTest` (Moq, deleting files). The tests themselves are not replayed. `Storage.SeedScenario` is a client that initialises an empty store twice and checks readiness and the file against the contracts.
- `Storage.PoetryStorage.GetPoetryAsync`, `Storage.PoetryStorage.GetPoetriesAsync` and `Storage.PoetryStorage.CloseAsync` keep only an open/closed flag on the connection. The connection pool of sqlite-net is not modelled.
