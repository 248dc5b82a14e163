/**
 * The `PoetryStorage` object and the collaborators it changes: the injected preference
 * store, the file system holding the database file, and the lazily created connection.
 * Asynchronous operations are sequential methods.
 */
module Storage {
  import opened Wrappers
  import opened Models
  import opened PoetryStorageConstant
  import opened Queries
  import opened Seeding

  /** The key-value preference store (`IPreferenceStorage`). */
  class PreferenceStore {
    var values: map<string, int>
    /** Every `Get` and `Set` made on this store, in order (what a mock's `Verify` counts). */
    ghost var log: seq<Call>

    constructor (initial: map<string, int>)
      ensures values == initial && log == []
    {
      values := initial;
      log := [];
    }

    /** `Get(key, default)`: the stored value, or the default when the key is absent. */
    method Get(key: string, default: int) returns (v: int)
      modifies this`log
      ensures v == Lookup(values, key, default)
      ensures log == old(log) + [GetPref(key, default)]
    {
      v := Lookup(values, key, default);
      log := log + [GetPref(key, default)];
    }

    method Set(key: string, value: int)
      modifies this
      ensures values == old(values)[key := value]
      ensures log == old(log) + [SetPref(key, value)]
    {
      values := values[key := value];
      log := log + [SetPref(key, value)];
    }
  }

  /** The device's files, by path. */
  class FileSystem {
    var files: map<string, seq<byte>>

    constructor (initial: map<string, seq<byte>>)
      ensures files == initial
    {
      files := initial;
    }

    /** `new FileStream(path, FileMode.OpenOrCreate)`. */
    method OpenOrCreate(path: string)
      modifies this
      ensures files == Seeding.OpenOrCreate(old(files), path)
    {
      if path !in files {
        files := files[path := []];
      }
    }

    /** `CopyToAsync` into a stream just opened on `path`, without truncation. */
    method CopyTo(path: string, data: seq<byte>)
      requires path in files
      modifies this
      ensures files == old(files)[path := CopyOver(old(files)[path], data)]
    {
      var oldBytes := files[path];
      if |oldBytes| <= |data| {
        files := files[path := data];
      } else {
        files := files[path := data + oldBytes[|data|..]];
      }
    }
  }

  /**
   * A `SQLiteAsyncConnection` on a database path. It opens the database on first use and
   * reopens it after `CloseAsync`.
   */
  class AsyncConnection {
    const path: string
    var isOpen: bool

    constructor (path: string)
      ensures this.path == path && !isOpen
    {
      this.path := path;
      isOpen := false;
    }
  }

  class PoetryStorage {
    /** The injected `IPreferenceStorage` (`_preferenceStorage`). */
    const preferenceStorage: PreferenceStore
    /** The file system that holds `PoetryDbPath`. */
    const fileSystem: FileSystem
    /** The assembly's embedded resources, by logical name. */
    const resources: map<string, seq<byte>>
    /** `PoetryDbPath`: the local application data folder joined with `DbName`. */
    const dbPath: string
    /** The rows of the `Poetry` table in the database at `dbPath`, in scan order. */
    const table: seq<Poetry>

    /** `_connection`: null until `Connection` is first used. */
    var connection: AsyncConnection?

    /** Every call made to the preference store, the file system and the resources, in order. */
    ghost var calls: seq<Call>

    /** The persisted state right after each of those calls, read back from the collaborators. */
    ghost var states: seq<Host>

    ghost predicate Valid()
      reads this, connection
    {
      connection != null ==> connection.path == dbPath
    }

    /** The persisted state outside this object. */
    ghost function HostState(): Host
      reads this, preferenceStorage, fileSystem
    {
      Host(preferenceStorage.values, fileSystem.files)
    }

    /** Once a connection exists it is the same object afterwards. */
    twostate predicate KeepsConnection()
      reads this
    {
      old(connection) != null ==> connection == old(connection)
    }

    constructor (preferenceStorage: PreferenceStore, fileSystem: FileSystem,
                 resources: map<string, seq<byte>>, dbPath: string, table: seq<Poetry>)
      ensures this.preferenceStorage == preferenceStorage && this.fileSystem == fileSystem
      ensures this.resources == resources && this.dbPath == dbPath && this.table == table
      ensures connection == null && calls == [] && states == []
      ensures Valid()
    {
      this.preferenceStorage := preferenceStorage;
      this.fileSystem := fileSystem;
      this.resources := resources;
      this.dbPath := dbPath;
      this.table := table;
      connection := null;
      calls := [];
      states := [];
    }

    /** The `Connection` getter: `_connection ??= new SQLiteAsyncConnection(PoetryDbPath)`. */
    method Connection() returns (c: AsyncConnection)
      requires Valid()
      modifies this`connection
      ensures Valid() && KeepsConnection()
      ensures connection == c && c.path == dbPath
      ensures old(connection) == null ==> fresh(c) && !c.isOpen
    {
      if connection == null {
        connection := new AsyncConnection(dbPath);
      }
      c := connection;
    }

    /** `IsInitialized`: one `Get(VersionKey, 0)`, compared with `Version`; nothing changes. */
    method IsInitialized() returns (b: bool)
      modifies this`calls, this`states, preferenceStorage`log
      ensures b == Ready(HostState().prefs)
      ensures preferenceStorage.log == old(preferenceStorage.log) + [GetPref(VersionKey, 0)]
      ensures calls == old(calls) + [GetPref(VersionKey, 0)]
      ensures states == old(states) + [old(HostState())]
      ensures HostState() == Run(old(HostState()), [GetPref(VersionKey, 0)]) == old(HostState())
    {
      var marker := preferenceStorage.Get(VersionKey, 0);
      b := marker == Version;
      calls, states := calls + [GetPref(VersionKey, 0)], states + [HostState()];
    }

    /**
     * `InitializeAsync`: open or create the database file; fail if the embedded resource is
     * missing; otherwise copy it into the file, and only then set the marker. The persisted
     * state after the `n`-th call is that of running the first `n` calls of `InitCalls`.
     */
    method InitializeAsync() returns (outcome: Outcome)
      modifies this`calls, this`states, preferenceStorage, fileSystem
      ensures outcome == InitOutcome(resources)
      ensures preferenceStorage.log ==
        old(preferenceStorage.log) + if DbName in resources then [SetPref(VersionKey, Version)] else []
      ensures calls == old(calls) + InitCalls(resources, dbPath)
      ensures |states| == |old(states)| + |InitCalls(resources, dbPath)|
      ensures states[..|old(states)|] == old(states)
      ensures forall n :: 1 <= n <= |InitCalls(resources, dbPath)| ==>
        states[|old(states)| + n - 1] == Run(old(HostState()), InitCalls(resources, dbPath)[..n])
      ensures HostState() == Initialize(old(HostState()), resources, dbPath)
    {
      ghost var h, cs := HostState(), InitCalls(resources, dbPath);
      InitPrefixes(h, resources, dbPath);
      InitializeUnfold(h, resources, dbPath);
      // The calls made and the persisted state read back after each, in order.
      ghost var made: seq<Call>, after: seq<Host> := [], [];

      fileSystem.OpenOrCreate(dbPath);
      made, after := made + [OpenFile(dbPath)], after + [HostState()];
      // Looking up the resource changes nothing persisted.
      made, after := made + [GetResource(DbName)], after + [HostState()];
      if DbName !in resources {
        outcome := Failed(ManifestNotFound(DbName));
      } else {
        var asset := resources[DbName];
        fileSystem.CopyTo(dbPath, asset);
        made, after := made + [CopyToFile(dbPath, asset)], after + [HostState()];
        preferenceStorage.Set(VersionKey, Version);
        made, after := made + [SetPref(VersionKey, Version)], after + [HostState()];
        outcome := Completed;
      }
      assert made == cs && |after| == |cs|;
      assert forall n :: 1 <= n <= |cs| ==> after[n - 1] == Run(h, cs[..n]);
      calls, states := calls + made, states + after;
    }

    /** `GetPoetryAsync(id)`: the first row with the id, or none. */
    method GetPoetryAsync(id: Int32) returns (r: Option<Poetry>)
      requires Valid()
      modifies this`connection, connection
      ensures Valid() && KeepsConnection()
      ensures connection != null && connection.isOpen
      ensures old(connection) == null ==> fresh(connection)
      ensures r == FirstById(table, id)
    {
      var c := Connection();
      c.isOpen := true;
      r := FirstById(table, id);
    }

    /** `GetPoetriesAsync(where, skip, take)`: filter, then skip, then take, as a list. */
    method GetPoetriesAsync(where: Poetry -> bool, skip: Int32, take: Int32) returns (r: seq<Poetry>)
      requires Valid()
      modifies this`connection, connection
      ensures Valid() && KeepsConnection()
      ensures connection != null && connection.isOpen
      ensures old(connection) == null ==> fresh(connection)
      ensures r == Query(where, table, skip, take)
    {
      var c := Connection();
      c.isOpen := true;
      r := Query(where, table, skip, take);
    }

    /** `CloseAsync`: goes through the getter (so it may create the connection), then closes it. */
    method CloseAsync()
      requires Valid()
      modifies this`connection, connection
      ensures Valid() && KeepsConnection()
      ensures connection != null && !connection.isOpen
      ensures old(connection) == null ==> fresh(connection)
    {
      var c := Connection();
      c.isOpen := false;
    }
  }

  /**
   * A client of the contracts: on an empty preference store and with no database file the
   * store is not ready; initialising creates the file holding exactly the resource and makes
   * the store ready; initialising a second time keeps it ready with the same file.
   */
  method SeedScenario(asset: seq<byte>, dbPath: string, table: seq<Poetry>)
  {
    var prefs := new PreferenceStore(map[]);
    var fs := new FileSystem(map[]);
    var storage := new PoetryStorage(prefs, fs, map[DbName := asset], dbPath, table);
    var ready := storage.IsInitialized();
    assert !ready;
    var outcome := storage.InitializeAsync();
    InitializeSeedsAndStamps(Host(map[], map[]), map[DbName := asset], dbPath);
    InitCallsStampOnce(map[DbName := asset], dbPath);
    assert outcome == Completed;
    assert dbPath in fs.files && fs.files[dbPath] == asset;
    ready := storage.IsInitialized();
    assert ready;
    ghost var first := fs.files;
    outcome := storage.InitializeAsync();
    InitializeIdempotent(Host(map[], map[]), map[DbName := asset], dbPath);
    assert fs.files == first;
    ready := storage.IsInitialized();
    assert ready;
    storage.CloseAsync();
  }
}
