/** The plugin repository service (internal/plugins/repository_service.go):
    which plugins a repository offers, the guards and clean-up of an
    installation, and which installed plugins are reported as having an
    update. Fetching a repository manifest, downloading and writing files,
    the manager's load and the store are inputs; comparing two versions
    (internal/plugins/version.go, semantic versioning) is an abstract
    relation. */
module PluginRepository {
  import opened Results
  import opened Strings
  import PluginManager
  import PluginManifest

  /** A plugin as a repository manifest lists it (the fields the service reads). */
  datatype RepositoryPlugin = RepositoryPlugin(
    id: string, name: string, version: string, apiVersion: string,
    downloadUrl: string, manifestUrl: string)

  /** A `plugin_repositories` row. */
  datatype Repository = Repository(id: int, name: string, url: string)

  /** `FetchRepository(url)`: the manifest's plugins, or the error. */
  type Fetch = string -> Result<seq<RepositoryPlugin>>

  /** A plugin the manager can run: `ValidateAPIVersion` accepts its API version. */
  predicate IsCompatible(p: RepositoryPlugin) {
    PluginManager.ValidateApiVersion(p.apiVersion).None?
  }

  // ---------------------------------------------------------------------------
  // Available plugins
  // ---------------------------------------------------------------------------

  /** The filter loop of `GetAvailablePlugins`. */
  function Compatible(plugins: seq<RepositoryPlugin>): (r: seq<RepositoryPlugin>)
    ensures forall p :: p in r <==> p in plugins && p.apiVersion == PluginManager.ApiVersion
    ensures |r| <= |plugins|
  {
    if |plugins| == 0 then []
    else
      var rest := Compatible(plugins[1..]);
      assert forall p :: p in plugins <==> p == plugins[0] || p in plugins[1..];
      if IsCompatible(plugins[0]) then [plugins[0]] + rest else rest
  }

  /** Filtering keeps the manifest's order: the filtered halves of a list,
      one after the other. */
  lemma {:induction false} CompatibleKeepsOrder(a: seq<RepositoryPlugin>, b: seq<RepositoryPlugin>)
    ensures Compatible(a + b) == Compatible(a) + Compatible(b)
    decreases |a|
  {
    if |a| == 0 {
      assert a + b == b;
    } else {
      assert (a + b)[0] == a[0];
      assert (a + b)[1..] == a[1..] + b;
      CompatibleKeepsOrder(a[1..], b);
    }
  }

  /** A list of compatible plugins is kept whole. */
  lemma {:induction false} AllCompatibleKept(plugins: seq<RepositoryPlugin>)
    requires forall i :: 0 <= i < |plugins| ==> plugins[i].apiVersion == PluginManager.ApiVersion
    ensures Compatible(plugins) == plugins
    decreases |plugins|
  {
    if |plugins| > 0 {
      AllCompatibleKept(plugins[1..]);
    }
  }

  /** `GetAvailablePlugins(repositoryID)`; `repo` is what the store's lookup gave. */
  function GetAvailablePlugins(repo: Result<Repository>, fetch: Fetch): (r: Result<seq<RepositoryPlugin>>)
    ensures repo.Err? ==> r == Err("repository not found: " + repo.error)
    ensures repo.Ok? && fetch(repo.value.url).Err? ==>
      r == Err("failed to fetch repository manifest: " + fetch(repo.value.url).error)
    ensures r.Ok? <==> repo.Ok? && fetch(repo.value.url).Ok?
    ensures r.Ok? ==> forall p :: p in r.value <==> p in fetch(repo.value.url).value && p.apiVersion == PluginManager.ApiVersion
  {
    if repo.Err? then Err("repository not found: " + repo.error)
    else
      match fetch(repo.value.url)
      case Err(e) => Err("failed to fetch repository manifest: " + e)
      case Ok(plugins) => Ok(Compatible(plugins))
  }

  // ---------------------------------------------------------------------------
  // Installation
  // ---------------------------------------------------------------------------

  /** The first plugin of the manifest with the id. */
  function FindPlugin(plugins: seq<RepositoryPlugin>, id: string): (r: Option<RepositoryPlugin>)
    ensures r.None? <==> forall i :: 0 <= i < |plugins| ==> plugins[i].id != id
    ensures r.Some? ==> exists k :: 0 <= k < |plugins| && plugins[k] == r.value && r.value.id == id
                                    && forall j :: 0 <= j < k ==> plugins[j].id != id
  {
    if |plugins| == 0 then None
    else if plugins[0].id == id then Some(plugins[0])
    else
      var r := FindPlugin(plugins[1..], id);
      assert forall i :: 0 < i < |plugins| ==> plugins[i] == plugins[1..][i - 1];
      if r.Some? then
        var k :| 0 <= k < |plugins[1..]| && plugins[1..][k] == r.value && r.value.id == id
                 && forall j :: 0 <= j < k ==> plugins[1..][j].id != id;
        assert plugins[k + 1] == r.value;
        r
      else r
  }

  /** The URL of the entry point: the download URL without one trailing
      '/', then '/' and the entry point. */
  function EntryUrl(downloadUrl: string, entry: string): (u: string)
    ensures HasSuffix(u, "/" + entry)
    ensures HasPrefix(u, TrimSuffix(downloadUrl, "/"))
  {
    var u := TrimSuffix(downloadUrl, "/") + "/" + entry;
    assert u[|u| - |"/" + entry|..] == "/" + entry;
    assert u[..|TrimSuffix(downloadUrl, "/")|] == TrimSuffix(downloadUrl, "/");
    u
  }

  /** A download URL with or without its trailing '/' gives the same entry URL. */
  lemma TrailingSlashIgnored(base: string, entry: string)
    requires !HasSuffix(base, "/")
    ensures EntryUrl(base + "/", entry) == EntryUrl(base, entry)
  {
    var s := base + "/";
    assert HasSuffix(s, "/") by { assert s[|s| - 1..] == "/"; }
    assert s[..|s| - 1] == base;
  }

  /** The entry point a downloaded `plugin.json` names, `index.js` when it
      names none. */
  function EntryPoint(field: string): (e: string)
    ensures e != ""
    ensures field != "" ==> e == field
  {
    if field == "" then PluginManifest.DefaultEntryPoint else field
  }

  /** What the plugin directory is left as. */
  datatype DirState = NotCreated | Created | Removed

  /** A `installed_plugins` row. */
  datatype InstalledPlugin = InstalledPlugin(pluginId: string, repositoryId: Option<int>, installedVersion: string)

  /** The answers of everything `InstallPlugin` calls out to: the store's
      repository lookup, the manifest fetch, `MkdirAll`, each download by URL,
      each file write by file name, decoding `entry_point` from the
      downloaded `plugin.json`, and the manager's load. */
  datatype InstallEnv = InstallEnv(
    repo: Result<Repository>,
    fetch: Fetch,
    mkdir: Option<string>,
    download: string -> Result<string>,
    write: string -> Option<string>,
    parseEntry: string -> Result<string>,
    load: Option<string>)

  /** The outcome of an installation: the error, the plugin directory, the
      URLs downloaded in order, and the row tracked in the store. */
  datatype Install = Install(error: Option<string>, dir: DirState, downloaded: seq<string>, tracked: Option<InstalledPlugin>)

  /** The stages an installation can fail at before the directory exists. */
  predicate FailsBeforeMkdir(pluginId: string, env: InstallEnv) {
    env.repo.Err? || env.fetch(env.repo.value.url).Err?
    || FindPlugin(env.fetch(env.repo.value.url).value, pluginId).None?
    || !IsCompatible(FindPlugin(env.fetch(env.repo.value.url).value, pluginId).value)
    || env.mkdir.Some?
  }

  /** The plugin an installation that gets past the checks installs. */
  function Chosen(pluginId: string, env: InstallEnv): (p: RepositoryPlugin)
    requires !FailsBeforeMkdir(pluginId, env)
    ensures p.id == pluginId && p.apiVersion == PluginManager.ApiVersion
    ensures p in env.fetch(env.repo.value.url).value
  {
    FindPlugin(env.fetch(env.repo.value.url).value, pluginId).value
  }

  /** Whether `plugin.json` downloads, is written and decodes. */
  predicate ManifestFetched(p: RepositoryPlugin, env: InstallEnv) {
    env.download(p.manifestUrl).Ok? && env.write("plugin.json").None?
    && env.parseEntry(env.download(p.manifestUrl).value).Ok?
  }

  /** The entry point file the downloaded `plugin.json` names. */
  function Entry(p: RepositoryPlugin, env: InstallEnv): string
    requires ManifestFetched(p, env)
  {
    EntryPoint(env.parseEntry(env.download(p.manifestUrl).value).value)
  }

  /** Whether both files end up in the plugin directory. */
  predicate FilesWritten(p: RepositoryPlugin, env: InstallEnv) {
    ManifestFetched(p, env)
    && env.download(EntryUrl(p.downloadUrl, Entry(p, env))).Ok?
    && env.write(Entry(p, env)).None?
  }

  /** The row an installation tracks: the repository is recorded only for a
      positive repository id. */
  function Tracked(pluginId: string, repositoryId: int, p: RepositoryPlugin): (t: InstalledPlugin)
    ensures t.pluginId == pluginId && t.installedVersion == p.version
    ensures t.repositoryId.Some? <==> repositoryId > 0
    ensures t.repositoryId.Some? ==> t.repositoryId.value == repositoryId
  {
    InstalledPlugin(pluginId, if repositoryId > 0 then Some(repositoryId) else None, p.version)
  }

  /** `InstallPlugin(pluginID, repositoryID)`. */
  function InstallPlugin(pluginId: string, repositoryId: int, env: InstallEnv): (r: Install)
    ensures r.dir == NotCreated <==> FailsBeforeMkdir(pluginId, env)
    ensures r.dir == NotCreated ==> r.error.Some? && r.downloaded == [] && r.tracked.None?
    ensures env.repo.Ok? && env.fetch(env.repo.value.url).Ok?
            && FindPlugin(env.fetch(env.repo.value.url).value, pluginId).None? ==>
      r == Install(Some("plugin " + pluginId + " not found in repository"), NotCreated, [], None)
    ensures env.repo.Ok? && env.fetch(env.repo.value.url).Ok?
            && FindPlugin(env.fetch(env.repo.value.url).value, pluginId).Some?
            && !IsCompatible(FindPlugin(env.fetch(env.repo.value.url).value, pluginId).value) ==>
      var p := FindPlugin(env.fetch(env.repo.value.url).value, pluginId).value;
      r == Install(Some("plugin API version incompatible: " + PluginManager.IncompatibleMessage(p.apiVersion)), NotCreated, [], None)
    ensures !FailsBeforeMkdir(pluginId, env) ==> r == InstallFiles(pluginId, repositoryId, Chosen(pluginId, env), env)
  {
    if env.repo.Err? then Install(Some("repository not found: " + env.repo.error), NotCreated, [], None)
    else
      match env.fetch(env.repo.value.url)
      case Err(e) => Install(Some("failed to fetch repository: " + e), NotCreated, [], None)
      case Ok(plugins) =>
        match FindPlugin(plugins, pluginId)
        case None => Install(Some("plugin " + pluginId + " not found in repository"), NotCreated, [], None)
        case Some(p) =>
          match PluginManager.ValidateApiVersion(p.apiVersion)
          case Some(e) => Install(Some("plugin API version incompatible: " + e), NotCreated, [], None)
          case None =>
            if env.mkdir.Some? then Install(Some("failed to create plugin directory: " + env.mkdir.value), NotCreated, [], None)
            else InstallFiles(pluginId, repositoryId, p, env)
  }

  /** The part of `InstallPlugin` after the directory is created: the two
      downloads and writes, the load, and the tracking. Only a failed load
      removes the directory; a failed download, write or decode leaves it. */
  function InstallFiles(pluginId: string, repositoryId: int, p: RepositoryPlugin, env: InstallEnv): (r: Install)
    ensures r.dir != NotCreated
    ensures r.dir == Removed <==> FilesWritten(p, env) && env.load.Some?
    ensures r.dir == Removed ==> r.error == Some("failed to load plugin: " + env.load.value)
    ensures r.error.None? <==> FilesWritten(p, env) && env.load.None?
    ensures r.error.Some? <==> r.tracked.None?
    ensures r.error.None? ==> r.tracked == Some(Tracked(pluginId, repositoryId, p))
    ensures 1 <= |r.downloaded| <= 2 && r.downloaded[0] == p.manifestUrl
    ensures |r.downloaded| == 2 <==> ManifestFetched(p, env)
    ensures |r.downloaded| == 2 ==> r.downloaded[1] == EntryUrl(p.downloadUrl, Entry(p, env))
  {
    match env.download(p.manifestUrl)
    case Err(e) => Install(Some("failed to download plugin.json: " + e), Created, [p.manifestUrl], None)
    case Ok(data) =>
      if env.write("plugin.json").Some? then
        Install(Some("failed to write plugin.json: " + env.write("plugin.json").value), Created, [p.manifestUrl], None)
      else
        match env.parseEntry(data)
        case Err(e) => Install(Some("failed to parse plugin.json: " + e), Created, [p.manifestUrl], None)
        case Ok(field) =>
          var entry := EntryPoint(field);
          var url := EntryUrl(p.downloadUrl, entry);
          var fetched := [p.manifestUrl, url];
          match env.download(url)
          case Err(e) => Install(Some("failed to download " + entry + ": " + e), Created, fetched, None)
          case Ok(_) =>
            if env.write(entry).Some? then
              Install(Some("failed to write " + entry + ": " + env.write(entry).value), Created, fetched, None)
            else if env.load.Some? then
              Install(Some("failed to load plugin: " + env.load.value), Removed, fetched, None)
            else
              Install(None, Created, fetched, Some(Tracked(pluginId, repositoryId, p)))
  }

  /** A plugin that installs is one `GetAvailablePlugins` offers for the
      same repository, and the tracked row records its version. */
  lemma InstalledIsAvailable(pluginId: string, repositoryId: int, env: InstallEnv)
    requires InstallPlugin(pluginId, repositoryId, env).error.None?
    ensures var avail := GetAvailablePlugins(env.repo, env.fetch);
      avail.Ok? && exists p :: (p in avail.value && p.id == pluginId
                                && InstallPlugin(pluginId, repositoryId, env).tracked == Some(Tracked(pluginId, repositoryId, p)))
  {
    var p := Chosen(pluginId, env);
    assert p in GetAvailablePlugins(env.repo, env.fetch).value;
  }

  /** The test scenarios: a plugin missing from the manifest, or one asking
      for another API version, fails without creating its directory or
      downloading anything. */
  lemma RejectedBeforeDirectory(pluginId: string, repositoryId: int, env: InstallEnv)
    requires env.repo.Ok? && env.fetch(env.repo.value.url).Ok?
    requires forall i :: 0 <= i < |env.fetch(env.repo.value.url).value| ==>
      (env.fetch(env.repo.value.url).value[i].id == pluginId ==>
         env.fetch(env.repo.value.url).value[i].apiVersion != PluginManager.ApiVersion)
    ensures var r := InstallPlugin(pluginId, repositoryId, env);
      r.error.Some? && r.dir == NotCreated && r.downloaded == [] && r.tracked.None?
  {
  }

  // ---------------------------------------------------------------------------
  // Updates
  // ---------------------------------------------------------------------------

  /** `IsNewerVersion(installed, available)`: `None` when either version
      does not parse. */
  type Newer = (string, string) -> Option<bool>

  /** The ids of a map are those of the rows. */
  ghost predicate KeysAre(rows: seq<InstalledPlugin>, m: map<string, InstalledPlugin>) {
    forall id :: id in m <==> exists i :: 0 <= i < |rows| && rows[i].pluginId == id
  }

  /** The row no later row shares an id with is the one its id maps to. */
  ghost predicate LastRowsKept(rows: seq<InstalledPlugin>, m: map<string, InstalledPlugin>) {
    forall i :: 0 <= i < |rows| && LastOfId(rows, i) ==>
      rows[i].pluginId in m && m[rows[i].pluginId] == rows[i]
  }

  /** No row after row `i` has its id. */
  predicate LastOfId(rows: seq<InstalledPlugin>, i: nat)
    requires i < |rows|
  {
    forall j :: i < j < |rows| ==> rows[j].pluginId != rows[i].pluginId
  }

  /** The last row of its id before the new row is still the last of its id
      among the earlier rows, and has another id than the new row. */
  lemma LastOfIdFront(rows: seq<InstalledPlugin>, i: nat)
    requires i < |rows| - 1 && LastOfId(rows, i)
    ensures LastOfId(rows[..|rows| - 1], i) && rows[|rows| - 1].pluginId != rows[i].pluginId
  {
    var f := rows[..|rows| - 1];
    forall j | i < j < |f| ensures f[j].pluginId != f[i].pluginId {
      assert f[j] == rows[j] && f[i] == rows[i];
    }
  }

  /** The `installedMap` loop: by plugin id, a later row replacing an
      earlier one. */
  function InstalledMap(rows: seq<InstalledPlugin>): (r: map<string, InstalledPlugin>)
    ensures forall id :: id in r <==> exists i :: 0 <= i < |rows| && rows[i].pluginId == id
    ensures forall i :: 0 <= i < |rows| && (forall j :: i < j < |rows| ==> rows[j].pluginId != rows[i].pluginId) ==>
      r[rows[i].pluginId] == rows[i]
    decreases |rows|
  {
    if |rows| == 0 then map[]
    else
      var n := |rows| - 1;
      var front := InstalledMap(rows[..n]);
      assert KeysAre(rows[..n], front) && LastRowsKept(rows[..n], front);
      InstalledKeysStep(rows, front);
      InstalledValuesStep(rows, front);
      var r := front[rows[n].pluginId := rows[n]];
      assert KeysAre(rows, r) && LastRowsKept(rows, r);
      r
  }

  /** One more row: the ids are the old ones and the row's. */
  lemma InstalledKeysStep(rows: seq<InstalledPlugin>, front: map<string, InstalledPlugin>)
    requires |rows| > 0
    requires KeysAre(rows[..|rows| - 1], front)
    ensures KeysAre(rows, front[rows[|rows| - 1].pluginId := rows[|rows| - 1]])
  {
    var n := |rows| - 1;
    var f := rows[..n];
    var r := front[rows[n].pluginId := rows[n]];
    forall id ensures id in r <==> exists i :: 0 <= i < |rows| && rows[i].pluginId == id {
      if id in r && id != rows[n].pluginId {
        var i :| 0 <= i < |f| && f[i].pluginId == id;
        assert rows[i].pluginId == id;
      }
      if exists i :: 0 <= i < |rows| && rows[i].pluginId == id {
        var i :| 0 <= i < |rows| && rows[i].pluginId == id;
        if i < n { assert f[i].pluginId == id; }
      }
    }
  }

  /** One more row: its id now maps to it, every other id as before. */
  lemma InstalledValuesStep(rows: seq<InstalledPlugin>, front: map<string, InstalledPlugin>)
    requires |rows| > 0
    requires LastRowsKept(rows[..|rows| - 1], front)
    ensures LastRowsKept(rows, front[rows[|rows| - 1].pluginId := rows[|rows| - 1]])
  {
    var n := |rows| - 1;
    var f := rows[..n];
    var r := front[rows[n].pluginId := rows[n]];
    forall i | 0 <= i < |rows| && LastOfId(rows, i)
      ensures rows[i].pluginId in r && r[rows[i].pluginId] == rows[i]
    {
      if i < n {
        LastOfIdFront(rows, i);
        assert f[i] == rows[i];
      }
    }
  }

  /** The report for a plugin of a repository. */
  datatype UpdateInfo = UpdateInfo(
    pluginId: string, name: string, installedVersion: string, availableVersion: string,
    repositoryId: int, repositoryName: string, hasUpdate: bool)

  /** The checks a repository plugin passes to be reported: installed, from
      this repository or from none recorded, compatible, and strictly newer
      than the installed version. */
  predicate Reported(inst: map<string, InstalledPlugin>, repo: Repository, p: RepositoryPlugin, newer: Newer) {
    p.id in inst
    && (inst[p.id].repositoryId.None? || inst[p.id].repositoryId.value == repo.id)
    && IsCompatible(p)
    && newer(inst[p.id].installedVersion, p.version) == Some(true)
  }

  function UpdateOf(inst: map<string, InstalledPlugin>, repo: Repository, p: RepositoryPlugin): UpdateInfo
    requires p.id in inst
  {
    UpdateInfo(p.id, p.name, inst[p.id].installedVersion, p.version, repo.id, repo.name, true)
  }

  /** The inner loop over one repository's plugins. */
  function RepoUpdates(inst: map<string, InstalledPlugin>, repo: Repository, plugins: seq<RepositoryPlugin>, newer: Newer): (r: seq<UpdateInfo>)
    ensures forall u :: u in r <==> exists p :: p in plugins && Reported(inst, repo, p, newer) && u == UpdateOf(inst, repo, p)
    ensures |r| <= |plugins|
  {
    if |plugins| == 0 then []
    else
      var p := plugins[0];
      var rest := RepoUpdates(inst, repo, plugins[1..], newer);
      assert forall q :: q in plugins <==> q == p || q in plugins[1..];
      if p.id !in inst then rest
      else
        var installed := inst[p.id];
        if installed.repositoryId.Some? && installed.repositoryId.value != repo.id then rest
        else if PluginManager.ValidateApiVersion(p.apiVersion).Some? then rest
        else if newer(installed.installedVersion, p.version) != Some(true) then rest
        else [UpdateOf(inst, repo, p)] + rest
  }

  /** The outer loop over the repositories; one whose manifest cannot be
      fetched contributes nothing. */
  function UpdatesOver(inst: map<string, InstalledPlugin>, repos: seq<Repository>, fetch: Fetch, newer: Newer): (r: seq<UpdateInfo>)
    ensures forall u :: u in r ==> u.hasUpdate && u.pluginId in inst
                                   && u.installedVersion == inst[u.pluginId].installedVersion
                                   && newer(u.installedVersion, u.availableVersion) == Some(true)
    decreases |repos|
  {
    if |repos| == 0 then []
    else
      var here := match fetch(repos[0].url)
        case Err(_) => []
        case Ok(plugins) => RepoUpdates(inst, repos[0], plugins, newer);
      here + UpdatesOver(inst, repos[1..], fetch, newer)
  }

  /** An update is reported exactly for the plugins that pass the checks in
      a repository that could be fetched. */
  lemma {:induction false} UpdatesExactly(inst: map<string, InstalledPlugin>, repos: seq<Repository>, fetch: Fetch, newer: Newer, u: UpdateInfo)
    ensures u in UpdatesOver(inst, repos, fetch, newer) <==>
      exists k :: 0 <= k < |repos| && fetch(repos[k].url).Ok?
                  && exists p :: p in fetch(repos[k].url).value && Reported(inst, repos[k], p, newer)
                                 && u == UpdateOf(inst, repos[k], p)
    decreases |repos|
  {
    if |repos| > 0 {
      UpdatesExactly(inst, repos[1..], fetch, newer, u);
      assert forall k :: 0 < k < |repos| ==> repos[k] == repos[1..][k - 1];
      if u in UpdatesOver(inst, repos[1..], fetch, newer) {
        var k :| 0 <= k < |repos[1..]| && fetch(repos[1..][k].url).Ok?
                 && exists p :: p in fetch(repos[1..][k].url).value && Reported(inst, repos[1..][k], p, newer)
                                && u == UpdateOf(inst, repos[1..][k], p);
        assert repos[k + 1] == repos[1..][k];
      }
    }
  }

  /** The repositories are checked in order: the updates of two lists of
      repositories are those of the first, then those of the second. */
  lemma {:induction false} UpdatesKeepOrder(inst: map<string, InstalledPlugin>, a: seq<Repository>, b: seq<Repository>, fetch: Fetch, newer: Newer)
    ensures UpdatesOver(inst, a + b, fetch, newer) == UpdatesOver(inst, a, fetch, newer) + UpdatesOver(inst, b, fetch, newer)
    decreases |a|
  {
    if |a| == 0 {
      assert a + b == b;
    } else {
      assert (a + b)[0] == a[0];
      assert (a + b)[1..] == a[1..] + b;
      UpdatesKeepOrder(inst, a[1..], b, fetch, newer);
    }
  }

  /** A repository whose manifest cannot be fetched is skipped: the check
      goes on with the others. */
  lemma FailingRepositorySkipped(inst: map<string, InstalledPlugin>, a: seq<Repository>, repo: Repository, b: seq<Repository>, fetch: Fetch, newer: Newer)
    requires fetch(repo.url).Err?
    ensures UpdatesOver(inst, a + [repo] + b, fetch, newer) == UpdatesOver(inst, a + b, fetch, newer)
  {
    UpdatesKeepOrder(inst, a + [repo], b, fetch, newer);
    UpdatesKeepOrder(inst, a, [repo], fetch, newer);
    UpdatesKeepOrder(inst, a, b, fetch, newer);
    assert UpdatesOver(inst, [repo], fetch, newer) == [] by {
      assert [repo][1..] == [];
    }
  }

  /** A plugin installed from another repository is not reported for this one. */
  lemma OtherRepositoryIgnored(inst: map<string, InstalledPlugin>, repo: Repository, plugins: seq<RepositoryPlugin>, newer: Newer, id: string)
    requires id in inst && inst[id].repositoryId.Some? && inst[id].repositoryId.value != repo.id
    ensures forall u :: u in RepoUpdates(inst, repo, plugins, newer) ==> u.pluginId != id
  {
  }

  /** `CheckForUpdates()`: `repositories` and `installed` are the two store
      reads, `fetch` answers each repository URL. */
  function CheckForUpdates(repositories: Result<seq<Repository>>, installed: Result<seq<InstalledPlugin>>,
                           fetch: Fetch, newer: Newer): (r: Result<seq<UpdateInfo>>)
    ensures repositories.Err? ==> r == Err("failed to get repositories: " + repositories.error)
    ensures repositories.Ok? && installed.Err? ==> r == Err("failed to get installed plugins: " + installed.error)
    ensures r.Ok? <==> repositories.Ok? && installed.Ok?
    ensures r.Ok? ==> forall u :: u in r.value ==>
      u.hasUpdate
      && (exists i :: 0 <= i < |installed.value| && installed.value[i].pluginId == u.pluginId)
      && newer(u.installedVersion, u.availableVersion) == Some(true)
  {
    if repositories.Err? then Err("failed to get repositories: " + repositories.error)
    else if installed.Err? then Err("failed to get installed plugins: " + installed.error)
    else Ok(UpdatesOver(InstalledMap(installed.value), repositories.value, fetch, newer))
  }

  /** The scenario of the service's tests: a plugin installed at 1.0.0 from
      repository 1, offered at 1.1.0 there, is reported once with both
      versions, when 1.1.0 is newer. */
  lemma NewerVersionReported(repo: Repository, p: RepositoryPlugin, fetch: Fetch, newer: Newer)
    requires p.apiVersion == PluginManager.ApiVersion
    requires fetch(repo.url) == Ok([p])
    requires newer("1.0.0", p.version) == Some(true)
    ensures var installed := [InstalledPlugin(p.id, Some(repo.id), "1.0.0")];
      CheckForUpdates(Ok([repo]), Ok(installed), fetch, newer)
      == Ok([UpdateInfo(p.id, p.name, "1.0.0", p.version, repo.id, repo.name, true)])
  {
    var installed := [InstalledPlugin(p.id, Some(repo.id), "1.0.0")];
    var inst := InstalledMap(installed);
    assert p.id in inst && inst[p.id] == installed[0];
    assert Reported(inst, repo, p, newer);
    assert [p][1..] == [];
    assert RepoUpdates(inst, repo, [p], newer) == [UpdateOf(inst, repo, p)];
    assert [repo][1..] == [];
    assert UpdatesOver(inst, [repo], fetch, newer) == RepoUpdates(inst, repo, [p], newer);
  }
}
