/** The plugin manager (internal/plugins/manager.go): which plugin
    directories are discovered, loaded, unloaded or recorded as failed, the
    lazy provider adapters registered for them, and what the manager reports
    about them. The plugin directory is an input: `disk(path)` is what
    reading and decoding `<path>/plugin.json` gives at the time of the call.
    Creating the JavaScript runtime is abstracted to whether it fails, the
    clock is a parameter (seconds), and Go's map iteration order is an
    explicit enumeration of the keys. */
module PluginManager {
  import opened Results
  import opened Sorting
  import opened PluginManifest
  import Providers
  import Paths

  /** The plugin API this server provides. */
  const ApiVersion: string := "1.0"

  function IncompatibleMessage(v: string): string {
    "plugin requires API version " + v + ", but mango-go provides " + ApiVersion
  }

  /** `ValidateAPIVersion`: `None` when the version is supported, otherwise the error. */
  function ValidateApiVersion(v: string): (r: Option<string>)
    ensures r.None? <==> v == ApiVersion
    ensures r.Some? ==> r.value == IncompatibleMessage(v)
  {
    if v != ApiVersion then Some(IncompatibleMessage(v)) else None
  }

  datatype LoadedPlugin = LoadedPlugin(manifest: Manifest, path: string, lastAccess: int)

  datatype DiscoveredPlugin = DiscoveredPlugin(manifest: Manifest, path: string)

  /** The three maps: loaded plugins and discovered plugins by id, and the
      error of each directory that failed, by path. */
  datatype Manager = Manager(
    loaded: map<string, LoadedPlugin>,
    discovered: map<string, DiscoveredPlugin>,
    failed: map<string, string>)

  /** What reading `plugin.json` in a directory gives. */
  type Disk = string -> ManifestSource

  /** Each plugin is filed under its own manifest's id. */
  predicate WellKeyed(m: Manager) {
    (forall id :: id in m.loaded ==> m.loaded[id].manifest.id == id)
    && (forall id :: id in m.discovered ==> m.discovered[id].manifest.id == id)
  }

  /** A manifest the manager takes on: a compatible downloader plugin. */
  predicate Accepted(man: Manifest) {
    man.apiVersion == ApiVersion && man.pluginType == DefaultPluginType
  }

  // ---------------------------------------------------------------------------
  // Discovery
  // ---------------------------------------------------------------------------

  /** A directory entry as `os.ReadDir` lists it, and whether `os.Stat`
      finds a `plugin.json` in it. */
  datatype DirEntry = DirEntry(name: string, isDir: bool, hasManifest: bool)

  predicate Hidden(name: string) { |name| > 0 && name[0] == '.' }

  /** `filepath.Join(dir, name)` */
  function EntryPath(dir: string, name: string): string {
    Paths.Clean(dir + [Paths.Sep] + name)
  }

  /** Whether an entry is a plugin directory the scan looks into. */
  predicate Candidate(e: DirEntry) { e.isDir && !Hidden(e.name) && e.hasManifest }

  /** One turn of the `LoadPlugins` loop: the manager after the entry, and
      the id whose lazy adapter is to be registered. */
  function DiscoverEntry(m: Manager, dir: string, e: DirEntry, disk: Disk): (r: (Manager, Option<string>))
    ensures r.0.loaded == m.loaded
    ensures WellKeyed(m) ==> WellKeyed(r.0)
    ensures !Candidate(e) ==> r == (m, None)
    ensures var path := EntryPath(dir, e.name); var lm := LoadManifest(disk(path));
      Candidate(e) ==>
        && (r.1.Some? <==> lm.Ok? && Accepted(lm.value))
        && (lm.Err? ==> r.0 == m.(failed := m.failed[path := lm.error]) && r.1.None?)
        && (lm.Ok? && lm.value.apiVersion != ApiVersion ==>
              r.0 == m.(failed := m.failed[path := IncompatibleMessage(lm.value.apiVersion)]) && r.1.None?)
        && (lm.Ok? && lm.value.apiVersion == ApiVersion && !Accepted(lm.value) ==> r == (m, None))
        && (r.1.Some? ==>
              (r.1.value == lm.value.id
               && r.0.discovered == m.discovered[lm.value.id := DiscoveredPlugin(lm.value, path)]
               && r.0.failed == m.failed - {path}))
  {
    if !Candidate(e) then (m, None)
    else
      var path := EntryPath(dir, e.name);
      match LoadManifest(disk(path))
      case Err(err) => (m.(failed := m.failed[path := err]), None)
      case Ok(man) =>
        match ValidateApiVersion(man.apiVersion)
        case Some(err) => (m.(failed := m.failed[path := err]), None)
        case None =>
          if man.pluginType != DefaultPluginType then (m, None)
          else (Manager(m.loaded, m.discovered[man.id := DiscoveredPlugin(man, path)], m.failed - {path}), Some(man.id))
  }

  /** The scan of `LoadPlugins` over the entries in order: the manager after
      it and the ids to register, in discovery order. */
  function Discover(m: Manager, dir: string, entries: seq<DirEntry>, disk: Disk): (r: (Manager, seq<string>))
    ensures r.0.loaded == m.loaded
    ensures WellKeyed(m) ==> WellKeyed(r.0)
    ensures forall id :: id in m.discovered ==> id in r.0.discovered
    ensures forall id :: id in r.1 ==> id in r.0.discovered
    ensures forall id :: id in r.0.discovered ==> id in m.discovered || id in r.1
    ensures forall p :: p in r.0.failed ==> p in m.failed || exists k :: 0 <= k < |entries| && p == EntryPath(dir, entries[k].name)
    decreases |entries|
  {
    if |entries| == 0 then (m, [])
    else
      var last := entries[|entries| - 1];
      assert entries == entries[..|entries| - 1] + [last];
      var (m1, ids1) := Discover(m, dir, entries[..|entries| - 1], disk);
      var (m2, id) := DiscoverEntry(m1, dir, last, disk);
      assert forall p :: p in m2.failed ==> p in m1.failed || p == EntryPath(dir, last.name);
      FailedPathsStep(m.failed, m1.failed, m2.failed, dir, entries[..|entries| - 1], last);
      (m2, ids1 + (if id.Some? then [id.value] else []))
  }

  /** A failure recorded for the last entry keeps every failed path one of
      the entries' paths or an earlier failure. */
  lemma FailedPathsStep(f0: map<string, string>, f1: map<string, string>, f2: map<string, string>,
                        dir: string, front: seq<DirEntry>, last: DirEntry)
    requires forall p :: p in f1 ==> p in f0 || exists k :: 0 <= k < |front| && p == EntryPath(dir, front[k].name)
    requires forall p :: p in f2 ==> p in f1 || p == EntryPath(dir, last.name)
    ensures var entries := front + [last];
      forall p :: p in f2 ==> p in f0 || exists k :: 0 <= k < |entries| && p == EntryPath(dir, entries[k].name)
  {
    var entries := front + [last];
    forall p | p in f2 && p !in f0 ensures exists k :: 0 <= k < |entries| && p == EntryPath(dir, entries[k].name) {
      if p in f1 {
        var k :| 0 <= k < |front| && p == EntryPath(dir, front[k].name);
        assert entries[k] == front[k];
      } else {
        assert entries[|front|] == last;
      }
    }
  }

  /** The provider entry a lazy adapter reports: the manifest's id and its
      name, or the id when the name is empty. */
  function LazyInfo(m: Manager, id: string): (p: Providers.ProviderInfo)
    requires id in m.discovered
    ensures p.id == m.discovered[id].manifest.id
    ensures m.discovered[id].manifest.name != "" ==> p.name == m.discovered[id].manifest.name
    ensures m.discovered[id].manifest.name == "" ==> p.name == p.id
  {
    var man := m.discovered[id].manifest;
    Providers.ProviderInfo(man.id, if man.name == "" then man.id else man.name)
  }

  /** The registration loop of `LoadPlugins`: one lazy adapter per
      discovered id, in order. `providers.Register` panics on an id that is
      already registered; that panic is the `Err`. */
  function RegisterLazy(reg: Providers.Registry, m: Manager, ids: seq<string>): (r: Result<Providers.Registry>)
    requires WellKeyed(m)
    requires forall id :: id in ids ==> id in m.discovered
    ensures r.Ok? <==> NoDuplicates(ids) && forall id :: id in ids ==> id !in reg
    ensures r.Ok? ==> forall id :: id in r.value <==> id in reg || id in ids
    decreases |ids|
  {
    if |ids| == 0 then Ok(reg)
    else
      var last := ids[|ids| - 1];
      var front := ids[..|ids| - 1];
      assert ids == front + [last];
      NoDuplicatesSnoc(front, last);
      match RegisterLazy(reg, m, front)
      case Err(e) => Err(e)
      case Ok(reg1) => Providers.Register(reg1, LazyInfo(m, last))
  }

  /** A sequence with one more element at the end is duplicate-free exactly
      when the front is and the new element is not in it. */
  lemma NoDuplicatesSnoc<T>(front: seq<T>, last: T)
    ensures NoDuplicates(front + [last]) <==> NoDuplicates(front) && last !in front
  {
    var s := front + [last];
    if NoDuplicates(s) {
      assert forall i, j :: 0 <= i < j < |front| ==> front[i] == s[i] && front[j] == s[j];
      forall k | 0 <= k < |front| ensures front[k] != last {
        assert s[k] != s[|s| - 1];
      }
    }
    if NoDuplicates(front) && last !in front {
      forall i, j | 0 <= i < j < |s| ensures s[i] != s[j] {
        if j < |front| { assert s[i] == front[i] && s[j] == front[j]; }
        else { assert s[i] in front; }
      }
    }
  }

  /** `LoadPlugins` after the plugin directory was listed: the scan, then
      the registration of the discovered ids. A listing error is returned as
      it is; a failed registration is the panic. */
  function LoadPlugins(m: Manager, dir: string, listing: Result<seq<DirEntry>>, disk: Disk,
                       reg: Providers.Registry): (r: (Manager, Result<Providers.Registry>))
    requires WellKeyed(m)
    ensures listing.Err? ==> r == (m, Err("failed to read plugins directory: " + listing.error))
    ensures listing.Ok? ==> r.0 == Discover(m, dir, listing.value, disk).0 && WellKeyed(r.0)
    ensures listing.Ok? && r.1.Ok? ==>
      forall id :: id in r.0.discovered ==> id in m.discovered || id in r.1.value
  {
    match listing
    case Err(e) => (m, Err("failed to read plugins directory: " + e))
    case Ok(entries) =>
      var (m1, ids) := Discover(m, dir, entries, disk);
      (m1, RegisterLazy(reg, m1, ids))
  }

  /** Two plugin directories whose manifests carry the same id are both
      discovered, so the id is registered twice and startup panics. */
  lemma SameIdTwicePanics(dir: string, a: string, b: string, disk: Disk, raw: RawManifest, reg: Providers.Registry)
    requires !Hidden(a) && !Hidden(b)
    requires disk(EntryPath(dir, a)) == Parsed(raw) && disk(EntryPath(dir, b)) == Parsed(raw)
    requires raw.id != "" && raw.apiVersion == ApiVersion && (raw.pluginType == "" || raw.pluginType == DefaultPluginType)
    ensures var entries := [DirEntry(a, true, true), DirEntry(b, true, true)];
      LoadPlugins(Manager(map[], map[], map[]), dir, Ok(entries), disk, reg).1.Err?
  {
    var entries := [DirEntry(a, true, true), DirEntry(b, true, true)];
    TwoCopiesDiscovered(dir, a, b, disk, raw);
    var ids := Discover(Manager(map[], map[], map[]), dir, entries, disk).1;
    assert !NoDuplicates(ids) by { assert ids[0] == ids[1]; }
  }

  /** Both directories of that scenario are discovered under the same id. */
  lemma TwoCopiesDiscovered(dir: string, a: string, b: string, disk: Disk, raw: RawManifest)
    requires !Hidden(a) && !Hidden(b)
    requires disk(EntryPath(dir, a)) == Parsed(raw) && disk(EntryPath(dir, b)) == Parsed(raw)
    requires raw.id != "" && raw.apiVersion == ApiVersion && (raw.pluginType == "" || raw.pluginType == DefaultPluginType)
    ensures Discover(Manager(map[], map[], map[]), dir, [DirEntry(a, true, true), DirEntry(b, true, true)], disk).1
      == [raw.id, raw.id]
  {
    var m0 := Manager(map[], map[], map[]);
    var e0 := DirEntry(a, true, true);
    var e1 := DirEntry(b, true, true);
    AcceptedEntryDiscovered(m0, dir, e0, disk, raw);
    var m1 := DiscoverEntry(m0, dir, e0, disk).0;
    AcceptedEntryDiscovered(m1, dir, e1, disk, raw);
    DiscoverPair(m0, dir, e0, e1, disk, raw.id, raw.id);
  }

  /** Scanning two entries that are both discovered yields their two ids. */
  lemma DiscoverPair(m: Manager, dir: string, e0: DirEntry, e1: DirEntry, disk: Disk, x: string, y: string)
    requires DiscoverEntry(m, dir, e0, disk).1 == Some(x)
    requires DiscoverEntry(DiscoverEntry(m, dir, e0, disk).0, dir, e1, disk).1 == Some(y)
    ensures Discover(m, dir, [e0, e1], disk).1 == [x, y]
  {
    DiscoverOne(m, dir, e0, disk);
    DiscoverSnoc(m, dir, [e0], e1, disk);
    assert [e0] + [e1] == [e0, e1];
  }

  /** Scanning a single entry is that entry's turn of the loop. */
  lemma DiscoverOne(m: Manager, dir: string, e: DirEntry, disk: Disk)
    ensures var (m1, id) := DiscoverEntry(m, dir, e, disk);
      Discover(m, dir, [e], disk) == (m1, if id.Some? then [id.value] else [])
  {
    assert [e][..0] == [];
    var id := DiscoverEntry(m, dir, e, disk).1;
    var found: seq<string> := if id.Some? then [id.value] else [];
    assert [] + found == found;
  }

  /** A plugin directory whose manifest is accepted yields the manifest's id. */
  lemma AcceptedEntryDiscovered(m: Manager, dir: string, e: DirEntry, disk: Disk, raw: RawManifest)
    requires Candidate(e) && disk(EntryPath(dir, e.name)) == Parsed(raw)
    requires raw.id != "" && raw.apiVersion == ApiVersion && (raw.pluginType == "" || raw.pluginType == DefaultPluginType)
    ensures DiscoverEntry(m, dir, e, disk).1 == Some(raw.id)
  {
    var man := LoadManifest(Parsed(raw)).value;
    assert Accepted(man) && man.id == raw.id;
  }

  /** The scan of one more entry is the scan of the others, then that entry. */
  lemma DiscoverSnoc(m: Manager, dir: string, entries: seq<DirEntry>, e: DirEntry, disk: Disk)
    ensures var (m1, ids1) := Discover(m, dir, entries, disk);
      var (m2, id) := DiscoverEntry(m1, dir, e, disk);
      Discover(m, dir, entries + [e], disk) == (m2, ids1 + (if id.Some? then [id.value] else []))
  {
    assert (entries + [e])[..|entries|] == entries;
  }

  /** Registration that skips ids already registered: it cannot panic. */
  function RegisterLazyOnce(reg: Providers.Registry, m: Manager, ids: seq<string>): (r: Providers.Registry)
    requires WellKeyed(m)
    requires forall id :: id in ids ==> id in m.discovered
    ensures forall id :: id in r <==> id in reg || id in ids
    ensures forall id :: id in reg ==> r[id] == reg[id]
    decreases |ids|
  {
    if |ids| == 0 then reg
    else
      var last := ids[|ids| - 1];
      var front := ids[..|ids| - 1];
      assert forall id :: id in front ==> id in ids;
      assert forall id :: id in ids ==> id in front || id == last;
      var reg1 := RegisterLazyOnce(reg, m, front);
      if last in reg1 then reg1
      else
        match Providers.Register(reg1, LazyInfo(m, last))
        case Ok(reg2) => reg2
        case Err(_) => reg1
  }

  /** Where the original registration does not panic, skipping registered ids
      changes nothing. */
  lemma {:induction false} RegisterOnceAgrees(reg: Providers.Registry, m: Manager, ids: seq<string>)
    requires WellKeyed(m)
    requires forall id :: id in ids ==> id in m.discovered
    requires RegisterLazy(reg, m, ids).Ok?
    ensures RegisterLazyOnce(reg, m, ids) == RegisterLazy(reg, m, ids).value
    decreases |ids|
  {
    if |ids| > 0 {
      var front := ids[..|ids| - 1];
      assert forall id :: id in front ==> id in ids;
      RegisterOnceAgrees(reg, m, front);
    }
  }

  /** A step of the manager that may return an error and may ask for one
      lazy adapter to be registered. */
  datatype Step = Step(m: Manager, error: Option<string>, register: Option<string>)

  /** `DiscoverPlugin(dir)`. Unlike the scan, an error here is returned and
      not recorded as failed. */
  function DiscoverPlugin(m: Manager, dir: string, disk: Disk): (r: Step)
    ensures WellKeyed(m) ==> WellKeyed(r.m)
    ensures r.m.loaded == m.loaded
    ensures r.error.Some? ==> r.m == m && r.register.None?
    ensures r.error.None? <==> LoadManifest(disk(dir)).Ok? && Accepted(LoadManifest(disk(dir)).value)
    ensures r.error.None? ==> var man := LoadManifest(disk(dir)).value;
      man.id in r.m.discovered && r.m.discovered[man.id].path == dir
      && (man.id in m.discovered ==>
            r.m.discovered == m.discovered[man.id := m.discovered[man.id].(path := dir)]
            && r.m.failed == m.failed && r.register.None?)
      && (man.id !in m.discovered ==>
            r.m.discovered == m.discovered[man.id := DiscoveredPlugin(man, dir)]
            && r.m.failed == m.failed - {dir} && r.register == Some(man.id))
  {
    match LoadManifest(disk(dir))
    case Err(e) => Step(m, Some("failed to load manifest: " + e), None)
    case Ok(man) =>
      match ValidateApiVersion(man.apiVersion)
      case Some(e) => Step(m, Some("API version incompatibility: " + e), None)
      case None =>
        if man.pluginType != DefaultPluginType then
          Step(m, Some("plugin type " + man.pluginType + " not supported yet"), None)
        else if man.id in m.discovered then
          Step(m.(discovered := m.discovered[man.id := m.discovered[man.id].(path := dir)]), None, None)
        else
          Step(Manager(m.loaded, m.discovered[man.id := DiscoveredPlugin(man, dir)], m.failed - {dir}), None, Some(man.id))
  }

  /** Discovering the same directory twice: the second time only the path is
      written again, so the state is the same and nothing is registered. */
  lemma DiscoverTwice(m: Manager, dir: string, disk: Disk)
    requires WellKeyed(m)
    requires DiscoverPlugin(m, dir, disk).error.None?
    ensures var r1 := DiscoverPlugin(m, dir, disk);
      var r2 := DiscoverPlugin(r1.m, dir, disk);
      r2.error.None? && r2.m == r1.m && r2.register.None?
  {
    var r1 := DiscoverPlugin(m, dir, disk);
    var man := LoadManifest(disk(dir)).value;
    assert r1.m.discovered[man.id].path == dir;
  }

  // ---------------------------------------------------------------------------
  // Loading
  // ---------------------------------------------------------------------------

  /** `loadPluginInternal(path)` at time `now`; `runtime` is the error
      creating the plugin's runtime gives, if any. */
  function LoadInternal(m: Manager, path: string, disk: Disk, now: int, runtime: Option<string>): (r: (Manager, Option<string>))
    ensures r.1.Some? ==> r.0 == m
    ensures r.0.discovered == m.discovered && r.0.failed == m.failed
    ensures WellKeyed(m) ==> WellKeyed(r.0)
    ensures r.1.None? && r.0 != m ==>
      LoadManifest(disk(path)).Ok? && Accepted(LoadManifest(disk(path)).value)
      && var man := LoadManifest(disk(path)).value;
         man.id !in m.loaded && r.0.loaded == m.loaded[man.id := LoadedPlugin(man, path, now)]
  {
    match LoadManifest(disk(path))
    case Err(e) => (m, Some("failed to load manifest: " + e))
    case Ok(man) =>
      match ValidateApiVersion(man.apiVersion)
      case Some(e) => (m, Some("API version incompatibility: " + e))
      case None =>
        if man.pluginType != DefaultPluginType then (m, None)
        else if man.id in m.loaded then (m, Some("plugin " + man.id + " is already loaded"))
        else if runtime.Some? then (m, Some("failed to create runtime: " + runtime.value))
        else (m.(loaded := m.loaded[man.id := LoadedPlugin(man, path, now)]), None)
  }

  /** What `LoadPluginIfNeeded` ends in: the plugin, an error, or the nil
      pointer dereference of reading a plugin that was not stored. */
  datatype LoadResult = Ready(m: Manager, plugin: LoadedPlugin) | Failed(m: Manager, error: string) | Crashed

  /** `LoadPluginIfNeeded(id)` at time `now`, as written. */
  function LoadPluginIfNeeded(m: Manager, id: string, disk: Disk, now: int, runtime: Option<string>): (r: LoadResult)
    ensures id in m.loaded ==>
      r == Ready(m.(loaded := m.loaded[id := m.loaded[id].(lastAccess := now)]), m.loaded[id].(lastAccess := now))
    ensures id !in m.loaded && id !in m.discovered ==> r == Failed(m, "plugin " + id + " not found")
    ensures r.Ready? ==> id in r.m.loaded && r.m.loaded[id] == r.plugin && r.plugin.lastAccess == now
    ensures r.Ready? || r.Failed? ==> r.m.discovered == m.discovered && r.m.failed == m.failed
    ensures r.Ready? && WellKeyed(m) ==> WellKeyed(r.m)
    ensures r.Failed? ==> r.m == m
  {
    if id in m.loaded then
      var p := m.loaded[id].(lastAccess := now);
      Ready(m.(loaded := m.loaded[id := p]), p)
    else if id !in m.discovered then Failed(m, "plugin " + id + " not found")
    else
      var (m1, err) := LoadInternal(m, m.discovered[id].path, disk, now, runtime);
      if err.Some? then Failed(m, "failed to load plugin: " + err.value)
      else if id !in m1.loaded then Crashed
      else Ready(m1, m1.loaded[id])
  }

  /** A discovered plugin whose manifest on disk is still the discovered one
      is loaded on first use, unless its runtime cannot be created. */
  lemma DiscoveredPluginLoads(m: Manager, id: string, disk: Disk, now: int, runtime: Option<string>)
    requires WellKeyed(m) && id !in m.loaded && id in m.discovered
    requires LoadManifest(disk(m.discovered[id].path)) == Ok(m.discovered[id].manifest)
    requires Accepted(m.discovered[id].manifest)
    ensures runtime.None? ==> var r := LoadPluginIfNeeded(m, id, disk, now, runtime);
      r.Ready? && r.plugin == LoadedPlugin(m.discovered[id].manifest, m.discovered[id].path, now)
    ensures runtime.Some? ==>
      LoadPluginIfNeeded(m, id, disk, now, runtime) == Failed(m, "failed to load plugin: " + ("failed to create runtime: " + runtime.value))
  {
    var d := m.discovered[id];
    assert d.manifest.id == id;
    LoadInternalAccepted(m, d.path, disk, now, runtime);
    var li := LoadInternal(m, d.path, disk, now, runtime);
    if runtime.None? {
      assert li.1.None? && id in li.0.loaded && li.0.loaded[id] == LoadedPlugin(d.manifest, d.path, now);
      assert LoadPluginIfNeeded(m, id, disk, now, runtime) == Ready(li.0, li.0.loaded[id]);
    } else {
      assert li.1 == Some("failed to create runtime: " + runtime.value);
    }
  }

  /** Loading an accepted manifest whose id is not loaded stores it, unless
      the runtime cannot be created. */
  lemma LoadInternalAccepted(m: Manager, path: string, disk: Disk, now: int, runtime: Option<string>)
    requires LoadManifest(disk(path)).Ok? && Accepted(LoadManifest(disk(path)).value)
    requires LoadManifest(disk(path)).value.id !in m.loaded
    ensures var man := LoadManifest(disk(path)).value;
      LoadInternal(m, path, disk, now, runtime)
      == if runtime.None? then (m.(loaded := m.loaded[man.id := LoadedPlugin(man, path, now)]), None)
         else (m, Some("failed to create runtime: " + runtime.value))
  {
  }

  /** If the manifest on disk was changed to another plugin type after
      discovery, the load returns no error but stores nothing, and the
      stored plugin is then dereferenced. */
  lemma ChangedTypeCrashes(m: Manager, id: string, disk: Disk, now: int, runtime: Option<string>)
    requires id !in m.loaded && id in m.discovered
    requires LoadManifest(disk(m.discovered[id].path)).Ok?
    requires LoadManifest(disk(m.discovered[id].path)).value.apiVersion == ApiVersion
    requires LoadManifest(disk(m.discovered[id].path)).value.pluginType != DefaultPluginType
    ensures LoadPluginIfNeeded(m, id, disk, now, runtime) == Crashed
  {
  }

  /** `LoadPluginIfNeeded` with the stored plugin looked up before use: a
      load that stored nothing under the id is reported as an error. */
  function LoadPluginIfNeededChecked(m: Manager, id: string, disk: Disk, now: int, runtime: Option<string>): (r: LoadResult)
    ensures !r.Crashed?
    ensures r.Ready? ==> id in r.m.loaded && r.m.loaded[id] == r.plugin && r.plugin.lastAccess == now
    ensures r.Failed? ==> r.m.discovered == m.discovered && r.m.failed == m.failed
    ensures id !in m.loaded && id !in m.discovered ==> r == Failed(m, "plugin " + id + " not found")
  {
    match LoadPluginIfNeeded(m, id, disk, now, runtime)
    case Crashed =>
      var (m1, _) := LoadInternal(m, m.discovered[id].path, disk, now, runtime);
      Failed(m1, "plugin " + id + " was not loaded from " + m.discovered[id].path)
    case r => r
  }

  /** The checked load answers as the original whenever that does not crash. */
  lemma CheckedLoadAgrees(m: Manager, id: string, disk: Disk, now: int, runtime: Option<string>)
    requires !LoadPluginIfNeeded(m, id, disk, now, runtime).Crashed?
    ensures LoadPluginIfNeededChecked(m, id, disk, now, runtime) == LoadPluginIfNeeded(m, id, disk, now, runtime)
  {
  }

  // ---------------------------------------------------------------------------
  // Unloading
  // ---------------------------------------------------------------------------

  /** `UnloadPlugin(id)`: only the loaded entry goes. */
  function UnloadPlugin(m: Manager, id: string): (r: Result<Manager>)
    ensures r.Err? <==> id !in m.loaded
    ensures r.Err? ==> r.error == "plugin " + id + " is not loaded"
    ensures r.Ok? ==>
      (id !in r.value.loaded
       && (forall k :: k in r.value.loaded <==> k in m.loaded && k != id)
       && (forall k :: k in r.value.loaded ==> r.value.loaded[k] == m.loaded[k])
       && r.value.discovered == m.discovered && r.value.failed == m.failed)
    ensures r.Ok? && WellKeyed(m) ==> WellKeyed(r.value)
  {
    if id !in m.loaded then Err("plugin " + id + " is not loaded")
    else Ok(m.(loaded := m.loaded - {id}))
  }

  /** `Stop`: every loaded plugin is unloaded and its provider unregistered. */
  function Stop(m: Manager, reg: Providers.Registry): (r: (Manager, Providers.Registry))
    ensures r.0.loaded == map[]
    ensures r.0.discovered == m.discovered && r.0.failed == m.failed
    ensures forall id :: id in r.1 <==> id in reg && id !in m.loaded
    ensures WellKeyed(m) ==> WellKeyed(r.0)
  {
    (m.(loaded := map[]), reg - m.loaded.Keys)
  }

  /** The plugins the idle checker unloads at time `now`: those last used
      more than `timeout` ago, in the map's iteration order. */
  function IdlePlugins(m: Manager, order: seq<string>, now: int, timeout: int): (r: seq<string>)
    requires forall k :: k in order ==> k in m.loaded
    ensures forall k :: k in r <==> k in order && now - m.loaded[k].lastAccess > timeout
    ensures NoDuplicates(order) ==> NoDuplicates(r)
  {
    if |order| == 0 then []
    else
      var rest := IdlePlugins(m, order[1..], now, timeout);
      assert forall k :: k in order <==> k == order[0] || k in order[1..];
      if now - m.loaded[order[0]].lastAccess > timeout then
        assert NoDuplicates(order) ==> order[0] !in order[1..];
        [order[0]] + rest
      else rest
  }

  /** Unloading the ids one after another; an id that is no longer loaded is
      skipped, as its error is only logged. */
  function UnloadAll(m: Manager, ids: seq<string>): (r: Manager)
    ensures forall k :: k in r.loaded <==> k in m.loaded && k !in ids
    ensures forall k :: k in r.loaded ==> r.loaded[k] == m.loaded[k]
    ensures r.discovered == m.discovered && r.failed == m.failed
    decreases |ids|
  {
    if |ids| == 0 then m
    else
      var m1 := match UnloadPlugin(m, ids[0]) case Ok(m1) => m1 case Err(_) => m;
      assert forall k :: k in ids <==> k == ids[0] || k in ids[1..];
      UnloadAll(m1, ids[1..])
  }

  /** After an idle check every plugin still loaded was used within the
      timeout, and the discovered plugins are all still there. */
  lemma IdleCheckKeepsRecent(m: Manager, order: seq<string>, now: int, timeout: int)
    requires Enumerates(order, m.loaded.Keys)
    ensures var r := UnloadAll(m, IdlePlugins(m, order, now, timeout));
      (forall k :: k in r.loaded ==> now - r.loaded[k].lastAccess <= timeout)
      && (forall k :: k in m.loaded && now - m.loaded[k].lastAccess <= timeout ==> k in r.loaded)
      && r.discovered == m.discovered
  {
  }

  /** `ReloadPlugin(id)`: the path comes from the loaded or the discovered
      entry; the plugin is unloaded and its directory discovered again. */
  function ReloadPlugin(m: Manager, id: string, disk: Disk): (r: Step)
    ensures id !in m.loaded && id !in m.discovered ==> r == Step(m, Some("plugin " + id + " not found"), None)
    ensures WellKeyed(m) ==> WellKeyed(r.m)
    ensures (id in m.loaded || id in m.discovered) && r.error.None? ==> id !in r.m.loaded
  {
    var path :=
      if id in m.loaded then m.loaded[id].path
      else if id in m.discovered then m.discovered[id].path
      else "";
    if id !in m.loaded && id !in m.discovered then Step(m, Some("plugin " + id + " not found"), None)
    else
      var m1 := match UnloadPlugin(m, id) case Ok(m1) => m1 case Err(_) => m;
      DiscoverPlugin(m1, path, disk)
  }

  // ---------------------------------------------------------------------------
  // Reporting
  // ---------------------------------------------------------------------------

  /** A `PluginInfo` row ("" for an absent error). */
  datatype PluginInfo = PluginInfo(
    id: string, name: string, version: string, description: string,
    author: string, license: string, apiVersion: string, pluginType: string,
    capabilities: map<string, bool>, path: string, loaded: bool, error: string)

  function InfoOf(man: Manifest, path: string, loaded: bool, error: string): (i: PluginInfo)
    ensures i.id == man.id && i.path == path && i.loaded == loaded && i.error == error
  {
    PluginInfo(man.id, man.name, man.version, man.description, man.author, man.license,
               man.apiVersion, man.pluginType, man.capabilities, path, loaded, error)
  }

  /** `GetPluginInfo(id)`: the loaded entry first, then the discovered one. */
  function GetPluginInfo(m: Manager, id: string): (r: Option<PluginInfo>)
    ensures r.Some? <==> id in m.loaded || id in m.discovered
    ensures id in m.loaded ==> r == Some(InfoOf(m.loaded[id].manifest, m.loaded[id].path, true, ""))
    ensures id !in m.loaded && id in m.discovered ==>
      r == Some(InfoOf(m.discovered[id].manifest, m.discovered[id].path, false, ""))
    ensures r.Some? && WellKeyed(m) ==> r.value.id == id && (r.value.loaded <==> id in m.loaded)
  {
    if id in m.loaded then Some(InfoOf(m.loaded[id].manifest, m.loaded[id].path, true, ""))
    else if id in m.discovered then Some(InfoOf(m.discovered[id].manifest, m.discovered[id].path, false, ""))
    else None
  }

  /** A plugin loaded on first use reports itself loaded; once unloaded it
      is still known and reports itself not loaded. */
  lemma LoadThenUnloadInfo(m: Manager, id: string, disk: Disk, now: int, runtime: Option<string>)
    requires WellKeyed(m)
    requires LoadPluginIfNeeded(m, id, disk, now, runtime).Ready?
    requires id in m.discovered
    ensures var m1 := LoadPluginIfNeeded(m, id, disk, now, runtime).m;
      GetPluginInfo(m1, id).Some? && GetPluginInfo(m1, id).value.loaded
      && UnloadPlugin(m1, id).Ok?
      && GetPluginInfo(UnloadPlugin(m1, id).value, id).Some?
      && !GetPluginInfo(UnloadPlugin(m1, id).value, id).value.loaded
  {
  }

  /** After `Stop` nothing is loaded, and every discovered plugin is still
      reported, as not loaded. */
  lemma StopKeepsDiscovered(m: Manager, reg: Providers.Registry, id: string)
    requires WellKeyed(m) && id in m.discovered
    ensures var m1 := Stop(m, reg).0;
      GetPluginInfo(m1, id) == Some(InfoOf(m.discovered[id].manifest, m.discovered[id].path, false, ""))
  {
  }

  /** The row of a failed directory: from its manifest if it can be read
      now, otherwise named after the directory. */
  function FailedInfo(path: string, error: string, lm: Result<Manifest>): (i: PluginInfo)
    ensures i.path == path && !i.loaded && i.error == error
  {
    if lm.Err? then
      var name := Paths.Base(path);
      PluginInfo(name, name, "", "Failed to load plugin", "", "", "", "", map[], path, false, error)
    else InfoOf(lm.value, path, false, error)
  }

  /** The discovered ids that are not loaded, in the given order. */
  function UnloadedIds(m: Manager, order: seq<string>): (r: seq<string>)
    ensures forall k :: k in r <==> k in order && k !in m.loaded
    ensures NoDuplicates(order) ==> NoDuplicates(r)
  {
    if |order| == 0 then []
    else
      var rest := UnloadedIds(m, order[1..]);
      assert forall k :: k in order <==> k == order[0] || k in order[1..];
      if order[0] in m.loaded then rest
      else
        assert NoDuplicates(order) ==> order[0] !in order[1..];
        [order[0]] + rest
  }

  /** The rows of the loaded plugins: loaded, no error, their own paths. */
  function LoadedInfos(m: Manager, order: seq<string>): (r: seq<PluginInfo>)
    requires forall k :: k in order ==> k in m.loaded
    ensures |r| == |order|
    ensures forall i :: 0 <= i < |r| ==> r[i].loaded && r[i].error == "" && r[i].path == m.loaded[order[i]].path
    ensures WellKeyed(m) ==> forall i :: 0 <= i < |r| ==> r[i].id == order[i]
  {
    seq(|order|, i requires 0 <= i < |order| => InfoOf(m.loaded[order[i]].manifest, m.loaded[order[i]].path, true, ""))
  }

  /** The rows of the discovered plugins: not loaded, no error. */
  function DiscoveredInfos(m: Manager, ids: seq<string>): (r: seq<PluginInfo>)
    requires forall k :: k in ids ==> k in m.discovered
    ensures |r| == |ids|
    ensures forall i :: 0 <= i < |r| ==> !r[i].loaded && r[i].error == "" && r[i].path == m.discovered[ids[i]].path
    ensures WellKeyed(m) ==> forall i :: 0 <= i < |r| ==> r[i].id == ids[i]
  {
    seq(|ids|, i requires 0 <= i < |ids| => InfoOf(m.discovered[ids[i]].manifest, m.discovered[ids[i]].path, false, ""))
  }

  /** The rows of the failed directories: not loaded, with the recorded error. */
  function FailedInfos(m: Manager, order: seq<string>, disk: Disk): (r: seq<PluginInfo>)
    requires forall p :: p in order ==> p in m.failed
    ensures |r| == |order|
    ensures forall i :: 0 <= i < |r| ==> !r[i].loaded && r[i].path == order[i] && r[i].error == m.failed[order[i]]
  {
    seq(|order|, i requires 0 <= i < |order| => FailedInfo(order[i], m.failed[order[i]], LoadManifest(disk(order[i]))))
  }

  /** `ListPlugins`, with the three maps iterated in the given orders. */
  function ListPlugins(m: Manager, loadedOrder: seq<string>, discoveredOrder: seq<string>,
                       failedOrder: seq<string>, disk: Disk): (r: seq<PluginInfo>)
    requires Enumerates(loadedOrder, m.loaded.Keys)
    requires Enumerates(discoveredOrder, m.discovered.Keys)
    requires Enumerates(failedOrder, m.failed.Keys)
    ensures |loadedOrder| + |failedOrder| <= |r|
    ensures forall i :: 0 <= i < |r| ==> (r[i].loaded <==> i < |loadedOrder|)
    ensures forall i :: |r| - |failedOrder| <= i < |r| ==> r[i].path in m.failed && r[i].error == m.failed[r[i].path]
  {
    LoadedInfos(m, loadedOrder) + DiscoveredInfos(m, UnloadedIds(m, discoveredOrder)) + FailedInfos(m, failedOrder, disk)
  }

  /** Rows that name each loaded or discovered plugin exactly once, loaded
      exactly when it is loaded. */
  ghost predicate OnePerPlugin(m: Manager, r: seq<PluginInfo>) {
    RowsKnown(m, r) && RowsDistinct(r) && RowsCover(m, r)
  }

  /** Every row is a loaded or a discovered plugin, marked loaded exactly when it is. */
  ghost predicate RowsKnown(m: Manager, r: seq<PluginInfo>) {
    forall i :: 0 <= i < |r| ==> (r[i].id in m.loaded || r[i].id in m.discovered)
                                 && (r[i].loaded <==> r[i].id in m.loaded)
  }

  ghost predicate RowsDistinct(r: seq<PluginInfo>) {
    forall i, j :: 0 <= i < j < |r| ==> r[i].id != r[j].id
  }

  /** Every loaded or discovered plugin has a row. */
  ghost predicate RowsCover(m: Manager, r: seq<PluginInfo>) {
    forall id :: id in m.loaded || id in m.discovered ==> exists i :: 0 <= i < |r| && r[i].id == id
  }

  /** Rows that name each failed directory exactly once, with its error. */
  ghost predicate OnePerFailure(m: Manager, r: seq<PluginInfo>) {
    (forall i :: 0 <= i < |r| ==> r[i].path in m.failed && r[i].error == m.failed[r[i].path] && !r[i].loaded)
    && (forall p :: p in m.failed ==> exists i :: 0 <= i < |r| && r[i].path == p)
    && (forall i, j :: 0 <= i < j < |r| ==> r[i].path != r[j].path)
  }

  /** The list is one row per loaded or discovered plugin, then one row per
      failed directory. */
  lemma ListPluginsOncePerPlugin(m: Manager, lo: seq<string>, dord: seq<string>, fo: seq<string>, disk: Disk)
    requires WellKeyed(m)
    requires Enumerates(lo, m.loaded.Keys)
    requires Enumerates(dord, m.discovered.Keys)
    requires Enumerates(fo, m.failed.Keys)
    ensures var r := ListPlugins(m, lo, dord, fo, disk);
      |fo| <= |r| && OnePerPlugin(m, r[..|r| - |fo|]) && OnePerFailure(m, r[|r| - |fo|..])
  {
    var h := LoadedInfos(m, lo) + DiscoveredInfos(m, UnloadedIds(m, dord));
    var c := FailedInfos(m, fo, disk);
    PluginRowsOncePerPlugin(m, lo, dord);
    FailedRowsOncePerDirectory(m, fo, disk);
    var r := h + c;
    assert r[..|h|] == h && r[|h|..] == c;
  }

  /** The loaded and discovered rows: one per plugin. */
  lemma PluginRowsOncePerPlugin(m: Manager, lo: seq<string>, dord: seq<string>)
    requires WellKeyed(m)
    requires Enumerates(lo, m.loaded.Keys)
    requires Enumerates(dord, m.discovered.Keys)
    ensures OnePerPlugin(m, LoadedInfos(m, lo) + DiscoveredInfos(m, UnloadedIds(m, dord)))
  {
    PluginRowsKnown(m, lo, dord);
    PluginRowsDistinct(m, lo, dord);
    PluginRowsCover(m, lo, dord);
  }

  /** Each row's id is the loaded id at its place, or the unloaded one after them. */
  lemma PluginRowIds(m: Manager, lo: seq<string>, ids: seq<string>)
    requires WellKeyed(m)
    requires forall k :: k in lo ==> k in m.loaded
    requires forall k :: k in ids ==> k in m.discovered
    ensures var a := LoadedInfos(m, lo); var r := a + DiscoveredInfos(m, ids);
      |r| == |lo| + |ids|
      && (forall i :: 0 <= i < |lo| ==> r[i].id == lo[i] && r[i].loaded)
      && (forall i :: |lo| <= i < |r| ==> r[i].id == ids[i - |lo|] && !r[i].loaded)
  {
  }

  lemma PluginRowsKnown(m: Manager, lo: seq<string>, dord: seq<string>)
    requires WellKeyed(m)
    requires Enumerates(lo, m.loaded.Keys)
    requires Enumerates(dord, m.discovered.Keys)
    ensures RowsKnown(m, LoadedInfos(m, lo) + DiscoveredInfos(m, UnloadedIds(m, dord)))
  {
    var ids := UnloadedIds(m, dord);
    var r := LoadedInfos(m, lo) + DiscoveredInfos(m, ids);
    PluginRowIds(m, lo, ids);
    forall i | 0 <= i < |r|
      ensures (r[i].id in m.loaded || r[i].id in m.discovered) && (r[i].loaded <==> r[i].id in m.loaded)
    {
      if i >= |lo| {
        assert ids[i - |lo|] in ids;
      } else {
        assert lo[i] in lo;
      }
    }
  }

  lemma PluginRowsDistinct(m: Manager, lo: seq<string>, dord: seq<string>)
    requires WellKeyed(m)
    requires Enumerates(lo, m.loaded.Keys)
    requires Enumerates(dord, m.discovered.Keys)
    ensures RowsDistinct(LoadedInfos(m, lo) + DiscoveredInfos(m, UnloadedIds(m, dord)))
  {
    var ids := UnloadedIds(m, dord);
    var r := LoadedInfos(m, lo) + DiscoveredInfos(m, ids);
    PluginRowIds(m, lo, ids);
    forall i, j | 0 <= i < j < |r| ensures r[i].id != r[j].id {
      if j < |lo| {
      } else if i < |lo| {
        assert ids[j - |lo|] in ids;
      } else {
        assert r[i].id == ids[i - |lo|] && r[j].id == ids[j - |lo|];
      }
    }
  }

  lemma PluginRowsCover(m: Manager, lo: seq<string>, dord: seq<string>)
    requires WellKeyed(m)
    requires Enumerates(lo, m.loaded.Keys)
    requires Enumerates(dord, m.discovered.Keys)
    ensures RowsCover(m, LoadedInfos(m, lo) + DiscoveredInfos(m, UnloadedIds(m, dord)))
  {
    var ids := UnloadedIds(m, dord);
    var r := LoadedInfos(m, lo) + DiscoveredInfos(m, ids);
    PluginRowIds(m, lo, ids);
    forall id | id in m.loaded || id in m.discovered
      ensures exists i :: 0 <= i < |r| && r[i].id == id
    {
      if id in m.loaded {
        var k :| 0 <= k < |lo| && lo[k] == id;
        assert r[k].id == id;
      } else {
        assert id in ids;
        var k :| 0 <= k < |ids| && ids[k] == id;
        assert r[|lo| + k].id == id;
      }
    }
  }

  /** The failed rows: one per failed directory. */
  lemma FailedRowsOncePerDirectory(m: Manager, fo: seq<string>, disk: Disk)
    requires Enumerates(fo, m.failed.Keys)
    ensures OnePerFailure(m, FailedInfos(m, fo, disk))
  {
    var c := FailedInfos(m, fo, disk);
    forall p | p in m.failed
      ensures exists i :: 0 <= i < |c| && c[i].path == p
    {
      var k :| 0 <= k < |fo| && fo[k] == p;
      assert c[k].path == p;
    }
  }
}
