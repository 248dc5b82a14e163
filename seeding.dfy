/**
 * The versioned seed-and-stamp protocol. The state the storage layer changes outside itself
 * is a preference map and the file system. Each collaborator call the storage issues is a
 * `Call`, and the state after a sequence of calls is `Run(h, calls)`, so "what happens if the
 * process dies part way through initialisation" is "run a proper prefix of the calls".
 */
module Seeding {
  import opened Models
  import opened PoetryStorageConstant

  /** The persisted state outside the storage object. */
  datatype Host = Host(prefs: map<string, int>, files: map<string, seq<byte>>)

  /** `IPreferenceStorage.Get(key, default)`: the stored value, or the default when absent. */
  function Lookup(prefs: map<string, int>, key: string, default: int): int {
    if key in prefs then prefs[key] else default
  }

  /** A `Set` is read back by `Get` under the same key and leaves every other key's reading alone. */
  lemma LookupAfterSet(prefs: map<string, int>, key: string, value: int, other: string, default: int)
    ensures Lookup(prefs[key := value], key, default) == value
    ensures other != key ==> Lookup(prefs[key := value], other, default) == Lookup(prefs, other, default)
  {
  }

  /** `IsInitialized`: the marker read with default 0 equals the current version. */
  function Ready(prefs: map<string, int>): (b: bool)
    ensures b <==> VersionKey in prefs && prefs[VersionKey] == Version
  {
    Lookup(prefs, VersionKey, 0) == Version
  }

  // ---------------------------------------------------------------------------
  // File effects
  // ---------------------------------------------------------------------------

  /** `new FileStream(path, FileMode.OpenOrCreate)`: an absent file is created empty. */
  function OpenOrCreate(files: map<string, seq<byte>>, path: string): (r: map<string, seq<byte>>)
    ensures r.Keys == files.Keys + {path}
    ensures forall p :: p in files ==> r[p] == files[p]
    ensures path !in files ==> r[path] == []
  {
    if path in files then files else files[path := []]
  }

  /**
   * Copying `data` into a stream opened at position 0 without truncation: the first
   * `|data|` bytes become `data`, and bytes of a longer old file past them are kept.
   */
  function CopyOver(dest: seq<byte>, data: seq<byte>): (r: seq<byte>)
    ensures |r| == if |dest| <= |data| then |data| else |dest|
    ensures r[..|data|] == data
    ensures forall i :: |data| <= i < |r| ==> r[i] == dest[i]
  {
    if |dest| <= |data| then data else data + dest[|data|..]
  }

  /** Copying the same bytes a second time changes nothing. */
  lemma CopyOverIdempotent(dest: seq<byte>, data: seq<byte>)
    ensures CopyOver(CopyOver(dest, data), data) == CopyOver(dest, data)
  {
  }

  /** Into a freshly created file the copy is exact. */
  lemma CopyOverEmpty(data: seq<byte>)
    ensures CopyOver([], data) == data
  {
  }

  /** A longer old file keeps its tail: the result is not the asset. */
  lemma CopyOverKeepsTail()
    ensures CopyOver([7, 7, 7], [1]) == [1, 7, 7]
  {
  }

  // ---------------------------------------------------------------------------
  // Collaborator calls and their effect on the host
  // ---------------------------------------------------------------------------

  datatype Call =
    | GetPref(key: string, default: int)
    | SetPref(key: string, value: int)
    | OpenFile(path: string)
    | GetResource(name: string)
    | CopyToFile(path: string, data: seq<byte>)

  /**
   * The effect of one call. Only `SetPref` changes preferences, and only at its key; only
   * `OpenFile` and `CopyToFile` change files, and only at their path.
   */
  function Step(h: Host, c: Call): (r: Host)
    ensures !c.SetPref? ==> r.prefs == h.prefs
    ensures c.SetPref? ==> r.prefs == h.prefs[c.key := c.value]
    ensures !(c.OpenFile? || c.CopyToFile?) ==> r.files == h.files
    ensures c.OpenFile? || c.CopyToFile? ==>
      c.path in r.files && r.files.Keys == h.files.Keys + {c.path} &&
      forall p :: p in h.files && p != c.path ==> r.files[p] == h.files[p]
  {
    match c
    case GetPref(_, _) => h
    case SetPref(k, v) => h.(prefs := h.prefs[k := v])
    case OpenFile(p) => h.(files := OpenOrCreate(h.files, p))
    case GetResource(_) => h
    case CopyToFile(p, d) =>
      h.(files := h.files[p := CopyOver(if p in h.files then h.files[p] else [], d)])
  }

  /**
   * The effect of a sequence of calls, in order. Without a `SetPref` the preferences are
   * unchanged; when the last call is a `SetPref`, its key holds its value afterwards.
   */
  function Run(h: Host, cs: seq<Call>): (r: Host)
    ensures (forall i :: 0 <= i < |cs| ==> !cs[i].SetPref?) ==> r.prefs == h.prefs
    ensures |cs| > 0 && cs[|cs| - 1].SetPref? ==>
      cs[|cs| - 1].key in r.prefs && r.prefs[cs[|cs| - 1].key] == cs[|cs| - 1].value
    decreases |cs|
  {
    if cs == [] then h
    else
      assert forall i :: 1 <= i < |cs| ==> cs[1..][i - 1] == cs[i];
      Run(Step(h, cs[0]), cs[1..])
  }

  /** Running one more call is one more step. */
  lemma {:induction false} RunSnoc(h: Host, cs: seq<Call>, c: Call)
    ensures Run(h, cs + [c]) == Step(Run(h, cs), c)
    decreases |cs|
  {
    if cs == [] {
      assert [] + [c] == [c];
      assert [c][1..] == [];
    } else {
      assert (cs + [c])[1..] == cs[1..] + [c];
      RunSnoc(Step(h, cs[0]), cs[1..], c);
    }
  }

  /** The state after the first `n + 1` calls is one step on from the state after `n`. */
  lemma RunPrefixStep(h: Host, cs: seq<Call>, n: nat)
    requires n < |cs|
    ensures Run(h, cs[..n + 1]) == Step(Run(h, cs[..n]), cs[n])
  {
    assert cs[..n + 1] == cs[..n] + [cs[n]];
    RunSnoc(h, cs[..n], cs[n]);
  }

  /** How often `c` occurs in `cs`. */
  function Count(cs: seq<Call>, c: Call): nat {
    if cs == [] then 0 else (if cs[0] == c then 1 else 0) + Count(cs[1..], c)
  }

  // ---------------------------------------------------------------------------
  // InitializeAsync
  // ---------------------------------------------------------------------------

  datatype InitError = ManifestNotFound(name: string)

  datatype Outcome = Completed | Failed(error: InitError)

  /**
   * The calls `InitializeAsync` makes: open or create the database file, look up the
   * embedded resource, and, only if it exists, copy it into the file and stamp the marker.
   */
  function InitCalls(resources: map<string, seq<byte>>, path: string): (cs: seq<Call>)
    ensures |cs| == if DbName in resources then 4 else 2
    ensures cs[0] == OpenFile(path) && cs[1] == GetResource(DbName)
  {
    [OpenFile(path), GetResource(DbName)] +
    if DbName in resources then [CopyToFile(path, resources[DbName]), SetPref(VersionKey, Version)]
    else []
  }

  /** `InitializeAsync` throws exactly when the resource is missing. */
  function InitOutcome(resources: map<string, seq<byte>>): Outcome {
    if DbName in resources then Completed else Failed(ManifestNotFound(DbName))
  }

  /**
   * The state after `InitializeAsync`: a missing resource leaves the preferences alone;
   * otherwise the store ends up ready.
   */
  function Initialize(h: Host, resources: map<string, seq<byte>>, path: string): (r: Host)
    ensures DbName !in resources ==> r.prefs == h.prefs
    ensures DbName in resources ==> Ready(r.prefs)
  {
    var cs := InitCalls(resources, path);
    assert DbName in resources ==> cs[|cs| - 1] == SetPref(VersionKey, Version);
    Run(h, cs)
  }

  /**
   * The reported outcome agrees with the state: a completed initialisation leaves the store
   * ready, and a failed one leaves the preferences, and so readiness, unchanged.
   */
  lemma InitOutcomeMatchesState(h: Host, resources: map<string, seq<byte>>, path: string)
    ensures InitOutcome(resources).Completed? ==> Ready(Initialize(h, resources, path).prefs)
    ensures InitOutcome(resources).Failed? ==>
      Initialize(h, resources, path).prefs == h.prefs &&
      InitOutcome(resources).error == ManifestNotFound(DbName)
  {
  }

  /** The state after each prefix of the initialisation's calls. */
  lemma InitPrefixes(h: Host, resources: map<string, seq<byte>>, path: string)
    ensures var cs, openedFiles := InitCalls(resources, path), OpenOrCreate(h.files, path);
      && Run(h, cs[..1]) == Host(h.prefs, openedFiles)
      && Run(h, cs[..2]) == Host(h.prefs, openedFiles)
      && (DbName in resources ==>
            var copied := openedFiles[path := CopyOver(openedFiles[path], resources[DbName])];
            && Run(h, cs[..3]) == Host(h.prefs, copied)
            && Run(h, cs[..4]) == Host(h.prefs[VersionKey := Version], copied))
  {
    var cs := InitCalls(resources, path);
    assert cs[..0] == [];
    RunPrefixStep(h, cs, 0);
    RunPrefixStep(h, cs, 1);
    if DbName in resources {
      RunPrefixStep(h, cs, 2);
      RunPrefixStep(h, cs, 3);
    }
  }

  /** The host after `InitializeAsync`, step by step. */
  lemma InitializeUnfold(h: Host, resources: map<string, seq<byte>>, path: string)
    ensures var created := OpenOrCreate(h.files, path);
      Initialize(h, resources, path) ==
        if DbName in resources
        then Host(h.prefs[VersionKey := Version], created[path := CopyOver(created[path], resources[DbName])])
        else Host(h.prefs, created)
  {
    var cs := InitCalls(resources, path);
    var h1 := Step(h, cs[0]);
    var h2 := Step(h1, cs[1]);
    assert Run(h, cs) == Run(h1, cs[1..]);
    assert cs[1..][0] == cs[1] && cs[1..][1..] == cs[2..];
    assert Run(h1, cs[1..]) == Run(h2, cs[2..]);
    if DbName in resources {
      var h3 := Step(h2, cs[2]);
      assert cs[2..][0] == cs[2] && cs[2..][1..] == cs[3..];
      assert Run(h2, cs[2..]) == Run(h3, cs[3..]);
      assert cs[3..][0] == cs[3] && cs[3..][1..] == [];
      assert Run(h3, cs[3..]) == Step(h3, cs[3]);
    } else {
      assert cs[2..] == [];
    }
  }

  /**
   * A missing resource leaves the preferences, and so the marker, unchanged; the
   * database file has already been opened, and created empty if it was absent.
   */
  lemma InitializeMissingResource(h: Host, resources: map<string, seq<byte>>, path: string)
    requires DbName !in resources
    ensures Initialize(h, resources, path).prefs == h.prefs
    ensures Ready(Initialize(h, resources, path).prefs) == Ready(h.prefs)
    ensures Initialize(h, resources, path).files == OpenOrCreate(h.files, path)
  {
    InitializeUnfold(h, resources, path);
  }

  /**
   * With the resource present: the file exists, begins with the resource's bytes and
   * keeps any longer tail; the only preference written is the marker, and it is ready.
   */
  lemma InitializeSeedsAndStamps(h: Host, resources: map<string, seq<byte>>, path: string)
    requires DbName in resources
    ensures var h' := Initialize(h, resources, path);
      && path in h'.files
      && h'.files[path] == CopyOver(if path in h.files then h.files[path] else [], resources[DbName])
      && (forall p :: p in h.files && p != path ==> p in h'.files && h'.files[p] == h.files[p])
      && h'.files.Keys == h.files.Keys + {path}
      && h'.prefs == h.prefs[VersionKey := Version]
      && Ready(h'.prefs)
  {
    InitializeUnfold(h, resources, path);
  }

  /** On a first run (no file yet) the database file becomes exactly the resource. */
  lemma InitializeFirstRun(h: Host, resources: map<string, seq<byte>>, path: string)
    requires DbName in resources && path !in h.files
    ensures path in Initialize(h, resources, path).files
    ensures Initialize(h, resources, path).files[path] == resources[DbName]
  {
    InitializeSeedsAndStamps(h, resources, path);
  }

  /** After initialisation the store is ready exactly when the resource exists or it already was. */
  lemma InitializeReady(h: Host, resources: map<string, seq<byte>>, path: string)
    ensures Ready(Initialize(h, resources, path).prefs) <==> DbName in resources || Ready(h.prefs)
  {
    if DbName in resources {
      InitializeSeedsAndStamps(h, resources, path);
    } else {
      InitializeMissingResource(h, resources, path);
    }
  }

  /** Initialising twice leaves the same state as initialising once. */
  lemma InitializeIdempotent(h: Host, resources: map<string, seq<byte>>, path: string)
    ensures Initialize(Initialize(h, resources, path), resources, path) == Initialize(h, resources, path)
  {
    var h1 := Initialize(h, resources, path);
    if DbName in resources {
      InitializeSeedsAndStamps(h, resources, path);
      InitializeSeedsAndStamps(h1, resources, path);
      var f := if path in h.files then h.files[path] else [];
      CopyOverIdempotent(f, resources[DbName]);
    } else {
      InitializeMissingResource(h, resources, path);
      InitializeMissingResource(h1, resources, path);
    }
  }

  /**
   * Crash safety: if the process stops after any proper prefix of the initialisation's
   * calls, the preferences, and so the readiness marker, are as they were before.
   */
  lemma InitializeInterrupted(h: Host, resources: map<string, seq<byte>>, path: string, n: nat)
    requires n < |InitCalls(resources, path)|
    ensures Run(h, InitCalls(resources, path)[..n]).prefs == h.prefs
    ensures Ready(Run(h, InitCalls(resources, path)[..n]).prefs) == Ready(h.prefs)
  {
    var cs := InitCalls(resources, path)[..n];
    assert forall i :: 0 <= i < |cs| ==> !cs[i].SetPref?;
  }

  /**
   * The marker is set exactly once on success and never on failure, and on success the
   * set is the last call, after the copy.
   */
  lemma InitCallsStampOnce(resources: map<string, seq<byte>>, path: string)
    ensures var cs := InitCalls(resources, path);
      Count(cs, SetPref(VersionKey, Version)) == if DbName in resources then 1 else 0
    ensures var cs := InitCalls(resources, path);
      forall i :: 0 <= i < |cs| && cs[i].SetPref? ==>
        i == |cs| - 1 && cs[i - 1].CopyToFile? && cs[i] == SetPref(VersionKey, Version)
  {
    var cs := InitCalls(resources, path);
    if DbName in resources {
      assert cs[1..][1..][1..][1..] == [];
      assert Count(cs[1..][1..][1..], SetPref(VersionKey, Version)) == 1;
    } else {
      assert cs[1..][1..] == [];
      assert Count(cs[1..], SetPref(VersionKey, Version)) == 0;
    }
  }

  /** A store that was never initialised (no marker) is not ready; setting the marker makes it ready. */
  lemma ReadyGate(prefs: map<string, int>)
    ensures !Ready(map[])
    ensures Ready(prefs[VersionKey := Version])
    ensures VersionKey !in prefs ==> !Ready(prefs)
  {
  }
}
