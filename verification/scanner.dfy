/** Library synchronisation (internal/library/scanner.go): reconciling the
    folder and chapter tables with what a walk of the library finds on disk,
    recording bad files, and pruning what has gone. The walk, the archive
    reader and the content hash are inputs: `Disk` carries their answers.
    Go's map iteration order over the walked paths is the parameter `order`,
    any duplicate-free enumeration of them. Every store write is modelled as
    an update of an in-memory table. */
module Scanner {
  import opened Results
  import opened Strings
  import opened Paths
  import opened Sorting
  import Archive
  import BadFileDetector
  import BadFileStore

  /** What the sync learns from the filesystem: the walked paths (true for a
      directory), whether a directory holds an archive somewhere below it
      (`hasMangaArchives`), `ParseArchive`'s error for a file, the content hash
      of a parsed file, and `os.Stat`'s size (None when stat fails). */
  datatype Disk = Disk(
    items: map<string, bool>,
    hasArchives: string -> bool,
    parseError: string -> Option<string>,
    hash: string -> string,
    size: string -> Option<int>)

  /** A walked file with an archive extension. */
  predicate IsArchiveFile(d: Disk, p: string) {
    p in d.items && !d.items[p] && Archive.IsSupportedArchive(Base(p))
  }

  /** A walked directory with an archive below it: one that deserves a folder. */
  predicate IsFolderCandidate(d: Disk, p: string) {
    p in d.items && d.items[p] && d.hasArchives(p)
  }

  // ---------------------------------------------------------------------------
  // syncFolders
  // ---------------------------------------------------------------------------

  datatype Folder = Folder(id: int, path: string, name: string, parentId: Option<int>)

  /** The folders table by path (`GetAllFoldersByPath`) and the next id. */
  datatype Folders = Folders(byPath: map<string, Folder>, nextId: int)

  /** The order of `syncFolders`: fewer separators first, then by `<`. */
  function DepthLess(a: string, b: string): (r: bool)
    ensures r ==> SepCount(a) <= SepCount(b)
    ensures SepCount(a) < SepCount(b) ==> r
    ensures a == b ==> !r
  {
    LessIrreflexive(a);
    SepCount(a) < SepCount(b) || (SepCount(a) == SepCount(b) && Less(a, b))
  }

  lemma DepthLessAsymmetric()
    ensures Asymmetric(DepthLess)
  {
    forall a, b | DepthLess(a, b)
      ensures !DepthLess(b, a)
    {
      if SepCount(a) == SepCount(b) {
        LessAsymmetric(a, b);
      }
    }
  }

  lemma DepthLessTransitive()
    ensures Transitive(DepthLess)
  {
    forall a, b, c | DepthLess(a, b) && DepthLess(b, c)
      ensures DepthLess(a, c)
    {
      if SepCount(a) == SepCount(b) && SepCount(b) == SepCount(c) {
        LessTransitive(a, b, c);
      }
    }
  }

  /** In a sequence sorted by `DepthLess` the depth never decreases. */
  lemma {:induction false} DepthSorted(s: seq<string>, i: int, j: int)
    requires Sorted(s, DepthLess)
    requires 0 <= i <= j < |s|
    ensures SepCount(s[i]) <= SepCount(s[j])
    decreases j - i
  {
    if i < j {
      DepthSorted(s, i, j - 1);
      assert !DepthLess(s[j], s[j - 1]);
    }
  }

  /** The directories `syncFolders` visits, in the order it visits them. */
  function FolderOrder(d: Disk, order: seq<string>): (r: seq<string>)
    requires Enumerates(order, d.items.Keys)
    ensures forall p :: p in r <==> IsFolderCandidate(d, p)
    ensures NoDuplicates(r)
    ensures Sorted(r, DepthLess)
  {
    DepthLessAsymmetric();
    var candidates := Filter(order, p => IsFolderCandidate(d, p));
    FilterNoDuplicates(order, p => IsFolderCandidate(d, p));
    var r := Sort(candidates, DepthLess);
    SameElements(candidates, r);
    PermutationNoDuplicates(candidates, r);
    r
  }

  /** Ancestors first: a shallower candidate comes before a deeper one. */
  lemma ShallowerFirst(d: Disk, order: seq<string>, i: int, j: int)
    requires Enumerates(order, d.items.Keys)
    requires 0 <= i < |FolderOrder(d, order)| && 0 <= j < |FolderOrder(d, order)|
    requires SepCount(FolderOrder(d, order)[i]) < SepCount(FolderOrder(d, order)[j])
    ensures i < j
  {
    if j <= i {
      DepthSorted(FolderOrder(d, order), j, i);
    }
  }

  /** One iteration of `syncFolders`: an unknown directory gets a folder whose
      parent is the folder of `Dir(p)` if that is known by now. `fails` holds
      the paths for which `CreateFolder` reports an error. */
  function CreateFolder(t: Folders, p: string, fails: set<string>): (r: Folders)
    ensures forall q :: q in t.byPath ==> q in r.byPath && r.byPath[q] == t.byPath[q]
    ensures r.byPath.Keys == t.byPath.Keys + (if p in fails then {} else {p})
    ensures r.nextId >= t.nextId
    ensures p !in t.byPath && p !in fails ==>
      r.byPath[p] == Folder(t.nextId, p, Base(p),
        if Dir(p) in t.byPath then Some(t.byPath[Dir(p)].id) else None)
    ensures p !in t.byPath && p !in fails ==> r.nextId == t.nextId + 1
  {
    if p in t.byPath || p in fails then t
    else
      var parentId := if Dir(p) in t.byPath then Some(t.byPath[Dir(p)].id) else None;
      Folders(t.byPath[p := Folder(t.nextId, p, Base(p), parentId)], t.nextId + 1)
  }

  function CreateFolders(paths: seq<string>, t: Folders, fails: set<string>): (r: Folders)
    ensures forall q :: q in t.byPath ==> q in r.byPath && r.byPath[q] == t.byPath[q]
    ensures forall q :: q in r.byPath ==> q in t.byPath || (q in paths && q !in fails)
    ensures forall i :: 0 <= i < |paths| && paths[i] !in fails ==> paths[i] in r.byPath
    ensures r.nextId >= t.nextId
    decreases |paths|
  {
    if |paths| == 0 then t
    else CreateFolders(paths[1..], CreateFolder(t, paths[0], fails), fails)
  }

  /** A folder created by the sync is named after its directory, gets a fresh
      id, and points at the folder of `Dir(p)` whenever it has a parent id. */
  lemma {:induction false} CreatedFolders(paths: seq<string>, t: Folders, fails: set<string>)
    requires forall q :: q in t.byPath ==> t.byPath[q].id < t.nextId
    ensures var r := CreateFolders(paths, t, fails);
      forall q :: q in r.byPath && q !in t.byPath ==>
        r.byPath[q].path == q && r.byPath[q].name == Base(q)
        && t.nextId <= r.byPath[q].id < r.nextId
        && (r.byPath[q].parentId.Some? ==>
              Dir(q) in r.byPath && r.byPath[q].parentId == Some(r.byPath[Dir(q)].id))
    ensures var r := CreateFolders(paths, t, fails);
      forall q :: q in r.byPath ==> r.byPath[q].id < r.nextId
    decreases |paths|
  {
    if |paths| > 0 {
      var t1 := CreateFolder(t, paths[0], fails);
      CreatedFolders(paths[1..], t1, fails);
    }
  }

  /** A folder gets its parent id whenever the parent directory was known
      before the sync or was created earlier in the same pass. */
  lemma {:induction false} ParentKnownEarlier(paths: seq<string>, t: Folders, fails: set<string>, i: int)
    requires 0 <= i < |paths|
    requires paths[i] !in t.byPath && paths[i] !in fails && paths[i] !in paths[..i]
    requires Dir(paths[i]) in t.byPath || (Dir(paths[i]) in paths[..i] && Dir(paths[i]) !in fails)
    ensures CreateFolders(paths, t, fails).byPath[paths[i]].parentId.Some?
    decreases |paths|
  {
    if i == 0 {
      assert paths[..i] == [];
      ParentKnownFirst(paths, t, fails);
    } else {
      var t1 := CreateFolder(t, paths[0], fails);
      CreateFoldersStep(paths, t, fails);
      assert ParentEligible(paths, t, fails, i);
      ParentKnownShift(paths, t, fails, i);
      ParentKnownEarlier(paths[1..], t1, fails, i - 1);
    }
  }

  /** `CreateFolders` handles the first path, then the rest. */
  lemma CreateFoldersStep(paths: seq<string>, t: Folders, fails: set<string>)
    requires |paths| > 0
    ensures CreateFolders(paths, t, fails) == CreateFolders(paths[1..], CreateFolder(t, paths[0], fails), fails)
  {
  }

  /** The first path, when its parent is already known, gets a parent id. */
  lemma ParentKnownFirst(paths: seq<string>, t: Folders, fails: set<string>)
    requires |paths| > 0 && paths[0] !in t.byPath && paths[0] !in fails && Dir(paths[0]) in t.byPath
    ensures CreateFolders(paths, t, fails).byPath[paths[0]].parentId.Some?
  {
    CreateFoldersStep(paths, t, fails);
    var t1 := CreateFolder(t, paths[0], fails);
    assert t1.byPath[paths[0]].parentId.Some?;
  }

  /** The conditions of `ParentKnownEarlier`: the path at `i` is new, not
      failing, not seen before, and its parent is known or created earlier. */
  predicate ParentEligible(paths: seq<string>, t: Folders, fails: set<string>, i: int) {
    0 <= i < |paths|
    && paths[i] !in t.byPath && paths[i] !in fails && paths[i] !in paths[..i]
    && (Dir(paths[i]) in t.byPath || (Dir(paths[i]) in paths[..i] && Dir(paths[i]) !in fails))
  }

  /** After the first path is handled, a later path still meets the
      conditions of `ParentKnownEarlier` one position earlier. */
  lemma ParentKnownShift(paths: seq<string>, t: Folders, fails: set<string>, i: int)
    requires 0 < i && ParentEligible(paths, t, fails, i)
    ensures ParentEligible(paths[1..], CreateFolder(t, paths[0], fails), fails, i - 1)
  {
    var t1 := CreateFolder(t, paths[0], fails);
    var rest := paths[1..];
    PrefixShift(paths, i);
    CreateFolderKeys(t, paths[0], fails);
    var dir := Dir(paths[i]);
    if dir !in t.byPath && dir != paths[0] {
      assert dir in rest[..i - 1];
    }
  }

  /** Membership in a prefix, one position along. */
  lemma PrefixShift(paths: seq<string>, i: int)
    requires 0 < i < |paths|
    ensures paths[1..][i - 1] == paths[i]
    ensures forall x :: x in paths[..i] <==> x == paths[0] || x in paths[1..][..i - 1]
  {
    assert paths[..i] == [paths[0]] + paths[1..][..i - 1];
  }

  /** The paths known after one step: the old ones, and the new one unless it fails. */
  lemma CreateFolderKeys(t: Folders, p: string, fails: set<string>)
    ensures forall q :: q in CreateFolder(t, p, fails).byPath <==> q in t.byPath || (q == p && p !in fails)
  {
  }

  /** `syncFolders` */
  function SyncFolders(d: Disk, order: seq<string>, t: Folders, fails: set<string>): (r: Folders)
    requires Enumerates(order, d.items.Keys)
    ensures forall q :: q in t.byPath ==> q in r.byPath && r.byPath[q] == t.byPath[q]
    ensures forall q :: q in r.byPath <==> q in t.byPath || (IsFolderCandidate(d, q) && q !in fails)
  {
    CreateFolders(FolderOrder(d, order), t, fails)
  }

  /** Because parents are visited first, a new folder whose parent directory
      is also a folder (and is shallower, as `filepath.Dir` makes it on clean
      paths) is linked to it. */
  lemma ParentLinked(d: Disk, order: seq<string>, t: Folders, fails: set<string>, p: string)
    requires Enumerates(order, d.items.Keys)
    requires IsFolderCandidate(d, p) && p !in t.byPath && p !in fails
    requires Dir(p) in t.byPath || (IsFolderCandidate(d, Dir(p)) && Dir(p) !in fails)
    requires SepCount(Dir(p)) < SepCount(p)
    ensures SyncFolders(d, order, t, fails).byPath[p].parentId.Some?
  {
    var paths := FolderOrder(d, order);
    var i := Position(paths, p);
    assert forall k :: 0 <= k < i ==> paths[..i][k] != p;
    if Dir(p) !in t.byPath {
      var j := Position(paths, Dir(p));
      ShallowerFirst(d, order, j, i);
      assert paths[..i][j] == Dir(p);
    }
    ParentKnownEarlier(paths, t, fails, i);
  }

  /** For the clean absolute paths the walk produces, the parent directory is
      one separator shallower, so every new sub-folder of a folder is linked. */
  lemma SubfolderLinked(d: Disk, order: seq<string>, t: Folders, fails: set<string>,
                        parent: seq<string>, name: string)
    requires Enumerates(order, d.items.Keys)
    requires AllNormal(parent) && Normal(name) && |parent| > 0
    requires IsFolderCandidate(d, AbsPath(parent + [name])) && AbsPath(parent + [name]) !in t.byPath
    requires AbsPath(parent + [name]) !in fails
    requires AbsPath(parent) in t.byPath || (IsFolderCandidate(d, AbsPath(parent)) && AbsPath(parent) !in fails)
    ensures var r := SyncFolders(d, order, t, fails);
      r.byPath[AbsPath(parent + [name])].parentId.Some?
  {
    var p := AbsPath(parent + [name]);
    DirBaseAbsPath(parent, name);
    SepCountAbsPath(parent);
    SepCountAbsPath(parent + [name]);
    ParentLinked(d, order, t, fails, p);
  }

  // ---------------------------------------------------------------------------
  // syncChapters and prune
  // ---------------------------------------------------------------------------

  datatype Chapter = Chapter(id: int, path: string, folderId: int)

  /** The chapters table by content hash (`GetAllChaptersByHash`) and the next id. */
  datatype Chapters = Chapters(byHash: map<string, Chapter>, nextId: int)

  /** What `syncChapters` does with one walked path. */
  datatype ChapterAction =
    | NotArchive
    | Unparsable(path: string, error: string)
    | Move(hash: string, path: string, folderId: int)
    | Create(hash: string, path: string, folderId: int)
    | NoWrite

  /** One iteration of `syncChapters`, against the chapters read before the
      sync began and the folders as they are after `syncFolders`. */
  function ChapterStep(d: Disk, known: map<string, Chapter>, folders: map<string, Folder>, p: string)
    : (a: ChapterAction)
    ensures a.NotArchive? <==> !IsArchiveFile(d, p)
    ensures a.Unparsable? <==> IsArchiveFile(d, p) && d.parseError(p).Some?
    ensures a.Move? ==> d.hash(p) in known && known[d.hash(p)].path != p
    ensures a.Create? ==> d.hash(p) !in known
    ensures (a.Move? || a.Create?) <==>
      IsArchiveFile(d, p) && d.parseError(p).None? && Dir(p) in folders
      && (d.hash(p) in known ==> known[d.hash(p)].path != p)
    ensures a.Move? || a.Create? ==> a.hash == d.hash(p) && a.path == p && a.folderId == folders[Dir(p)].id
  {
    if !IsArchiveFile(d, p) then NotArchive
    else if d.parseError(p).Some? then Unparsable(p, d.parseError(p).value)
    else
      var h := d.hash(p);
      if Dir(p) !in folders then NoWrite
      else if h in known then
        if known[h].path != p then Move(h, p, folders[Dir(p)].id) else NoWrite
      else Create(h, p, folders[Dir(p)].id)
  }

  /** `syncChapters`: one action per walked path, in iteration order. */
  function SyncChapters(d: Disk, order: seq<string>, known: map<string, Chapter>, folders: map<string, Folder>)
    : (r: seq<ChapterAction>)
    ensures |r| == |order|
    ensures forall i :: 0 <= i < |order| ==> r[i] == ChapterStep(d, known, folders, order[i])
  {
    seq(|order|, i requires 0 <= i < |order| => ChapterStep(d, known, folders, order[i]))
  }

  /** The `parsingErrors` map collected from the actions. */
  function ParsingErrors(actions: seq<ChapterAction>): (m: map<string, string>)
    ensures forall p :: p in m ==> exists i :: 0 <= i < |actions| && actions[i] == Unparsable(p, m[p])
    ensures forall i :: 0 <= i < |actions| && actions[i].Unparsable? ==> actions[i].path in m
  {
    if |actions| == 0 then map[]
    else
      var m := ParsingErrors(actions[..|actions| - 1]);
      var a := actions[|actions| - 1];
      if a.Unparsable? then m[a.path := a.error] else m
  }

  /** Exactly the walked archives that fail to parse are in `parsingErrors`,
      each with its error. */
  lemma ParsingErrorsExact(d: Disk, order: seq<string>, known: map<string, Chapter>, folders: map<string, Folder>)
    requires Enumerates(order, d.items.Keys)
    ensures var m := ParsingErrors(SyncChapters(d, order, known, folders));
      forall p :: p in m <==> IsArchiveFile(d, p) && d.parseError(p).Some?
    ensures var m := ParsingErrors(SyncChapters(d, order, known, folders));
      forall p :: p in m ==> m[p] == d.parseError(p).value
  {
    var actions := SyncChapters(d, order, known, folders);
    var m := ParsingErrors(actions);
    forall p | IsArchiveFile(d, p) && d.parseError(p).Some?
      ensures p in m
    {
      var i := Position(order, p);
      assert actions[i].Unparsable?;
    }
    forall p | p in m
      ensures IsArchiveFile(d, p) && d.parseError(p).Some? && m[p] == d.parseError(p).value
    {
      var i :| 0 <= i < |actions| && actions[i] == Unparsable(p, m[p]);
      assert ChapterStep(d, known, folders, order[i]) == Unparsable(p, m[p]);
    }
  }

  /** The effect of one action on the chapters table. `CreateChapter` of a
      hash already present fails on the unique content hash and writes nothing. */
  function ApplyChapter(t: Chapters, a: ChapterAction): (r: Chapters)
    ensures t.byHash.Keys <= r.byHash.Keys
    ensures r.nextId >= t.nextId
    ensures a.Move? && a.hash in t.byHash ==>
      r.byHash.Keys == t.byHash.Keys && r.nextId == t.nextId
      && r.byHash[a.hash] == t.byHash[a.hash].(path := a.path, folderId := a.folderId)
      && forall h :: h in t.byHash && h != a.hash ==> r.byHash[h] == t.byHash[h]
    ensures a.Create? && a.hash !in t.byHash ==>
      r.byHash.Keys == t.byHash.Keys + {a.hash} && r.nextId == t.nextId + 1
      && r.byHash[a.hash] == Chapter(t.nextId, a.path, a.folderId)
      && forall h :: h in t.byHash ==> r.byHash[h] == t.byHash[h]
    ensures !(a.Move? && a.hash in t.byHash) && !(a.Create? && a.hash !in t.byHash) ==> r == t
  {
    match a
    case Move(h, p, f) =>
      if h in t.byHash then Chapters(t.byHash[h := t.byHash[h].(path := p, folderId := f)], t.nextId) else t
    case Create(h, p, f) =>
      if h in t.byHash then t else Chapters(t.byHash[h := Chapter(t.nextId, p, f)], t.nextId + 1)
    case _ => t
  }

  function ApplyChapters(t: Chapters, actions: seq<ChapterAction>): (r: Chapters)
    ensures t.byHash.Keys <= r.byHash.Keys
    decreases |actions|
  {
    if |actions| == 0 then t else ApplyChapters(ApplyChapter(t, actions[0]), actions[1..])
  }

  /** The path a write gives its chapter. */
  predicate Writes(a: ChapterAction, h: string, p: string) {
    (a.Move? || a.Create?) && a.hash == h && a.path == p
  }

  /** After the writes, a chapter's path is either the path it had or the
      path of a write for its hash; once moved, it is the path of a write. */
  lemma {:induction false} ApplyChaptersPaths(t: Chapters, actions: seq<ChapterAction>)
    ensures var r := ApplyChapters(t, actions);
      forall h :: h in r.byHash ==>
        (h in t.byHash && r.byHash[h].path == t.byHash[h].path)
        || (exists i :: 0 <= i < |actions| && Writes(actions[i], h, r.byHash[h].path))
    ensures var r := ApplyChapters(t, actions);
      forall i :: 0 <= i < |actions| && actions[i].Move? && actions[i].hash in t.byHash ==>
        exists j :: 0 <= j < |actions| && Writes(actions[j], actions[i].hash, r.byHash[actions[i].hash].path)
    decreases |actions|
  {
    if |actions| > 0 {
      var t1 := ApplyChapter(t, actions[0]);
      var rest := actions[1..];
      var r := ApplyChapters(t1, rest);
      ApplyChaptersPaths(t1, rest);
      forall h | h in r.byHash
        ensures (h in t.byHash && r.byHash[h].path == t.byHash[h].path)
          || (exists i :: 0 <= i < |actions| && Writes(actions[i], h, r.byHash[h].path))
      {
        if exists i :: 0 <= i < |rest| && Writes(rest[i], h, r.byHash[h].path) {
          var i :| 0 <= i < |rest| && Writes(rest[i], h, r.byHash[h].path);
          assert actions[i + 1] == rest[i];
        } else if h in t1.byHash && r.byHash[h].path == t1.byHash[h].path {
          if !(h in t.byHash && t1.byHash[h].path == t.byHash[h].path) {
            assert Writes(actions[0], h, t1.byHash[h].path);
          }
        }
      }
      forall i | 0 <= i < |actions| && actions[i].Move? && actions[i].hash in t.byHash
        ensures exists j :: 0 <= j < |actions| && Writes(actions[j], actions[i].hash, r.byHash[actions[i].hash].path)
      {
        var h := actions[i].hash;
        if i == 0 {
          assert t1.byHash[h].path == actions[0].path;
          if exists k :: 0 <= k < |rest| && Writes(rest[k], h, r.byHash[h].path) {
            var k :| 0 <= k < |rest| && Writes(rest[k], h, r.byHash[h].path);
            assert actions[k + 1] == rest[k];
          } else {
            assert Writes(actions[0], h, r.byHash[h].path);
          }
        } else {
          assert rest[i - 1] == actions[i];
          var k :| 0 <= k < |rest| && Writes(rest[k], h, r.byHash[h].path);
          assert actions[k + 1] == rest[k];
        }
      }
    }
  }

  /** `prune`, chapters: those of the given table whose path is gone from disk
      or failed to parse. */
  function PrunedChapters(known: map<string, Chapter>, d: Disk, errors: map<string, string>): (r: set<string>)
    ensures r <= known.Keys
  {
    set h | h in known && (known[h].path !in d.items || known[h].path in errors)
  }

  /** `prune`, folders: those whose path is gone, or is a directory without
      archives. A folder path that is now a file is kept. */
  function PrunedFolders(folders: map<string, Folder>, d: Disk): (r: set<string>)
    ensures r <= folders.Keys
  {
    set p | p in folders && (p !in d.items || (d.items[p] && !d.hasArchives(p)))
  }

  /** A folder the sync keeps or creates for a directory with archives is not pruned. */
  lemma CandidatesNotPruned(d: Disk, order: seq<string>, t: Folders, fails: set<string>)
    requires Enumerates(order, d.items.Keys)
    ensures forall p :: IsFolderCandidate(d, p) ==> p !in PrunedFolders(SyncFolders(d, order, t, fails).byPath, d)
    ensures forall p :: p in PrunedFolders(SyncFolders(d, order, t, fails).byPath, d) ==> p in t.byPath
  {
  }

  function RemoveChapters(t: Chapters, hashes: set<string>): (r: Chapters)
    ensures r.byHash.Keys == t.byHash.Keys - hashes
    ensures forall h :: h in r.byHash ==> r.byHash[h] == t.byHash[h]
  {
    Chapters(t.byHash - hashes, t.nextId)
  }

  /** Steps 4 and 6 of `LibrarySync` on the chapters table, as written: the
      writes of `syncChapters`, then `prune` against the chapters read at the
      start, before any of those writes. */
  function SyncChapterTable(d: Disk, order: seq<string>, t: Chapters, folders: map<string, Folder>): (r: Chapters)
    ensures forall h :: h in t.byHash && t.byHash[h].path !in d.items ==> h !in r.byHash
    ensures forall h ::
      (h in t.byHash && t.byHash[h].path in d.items
       && t.byHash[h].path !in ParsingErrors(SyncChapters(d, order, t.byHash, folders))) ==> h in r.byHash
  {
    var actions := SyncChapters(d, order, t.byHash, folders);
    var written := ApplyChapters(t, actions);
    RemoveChapters(written, PrunedChapters(t.byHash, d, ParsingErrors(actions)))
  }

  /** A chapter whose file moved is deleted by the same sync that records the
      move: `prune` still sees its old path, which is gone. */
  lemma MovedChapterDeleted(d: Disk, order: seq<string>, t: Chapters, folders: map<string, Folder>, p: string)
    requires Enumerates(order, d.items.Keys)
    requires ChapterStep(d, t.byHash, folders, p).Move?
    requires t.byHash[d.hash(p)].path !in d.items
    ensures d.hash(p) !in SyncChapterTable(d, order, t, folders).byHash
  {
  }

  /** Steps 4 and 6 with `prune` reading the chapters after the writes. */
  function SyncChapterTableFixed(d: Disk, order: seq<string>, t: Chapters, folders: map<string, Folder>): Chapters {
    var actions := SyncChapters(d, order, t.byHash, folders);
    var written := ApplyChapters(t, actions);
    RemoveChapters(written, PrunedChapters(written.byHash, d, ParsingErrors(actions)))
  }

  /** With `prune` reading the table after the writes, a moved chapter
      survives, at a walked path that parsed. */
  lemma MovedChapterKept(d: Disk, order: seq<string>, t: Chapters, folders: map<string, Folder>, p: string)
    requires Enumerates(order, d.items.Keys)
    requires IsArchiveFile(d, p)
    requires ChapterStep(d, t.byHash, folders, p).Move?
    ensures var r := SyncChapterTableFixed(d, order, t, folders);
      d.hash(p) in r.byHash && IsArchiveFile(d, r.byHash[d.hash(p)].path)
  {
    var actions := SyncChapters(d, order, t.byHash, folders);
    var written := ApplyChapters(t, actions);
    var errors := ParsingErrors(actions);
    var h := d.hash(p);
    var i := Position(order, p);
    assert actions[i].Move? && actions[i].hash == h;
    ApplyChaptersPaths(t, actions);
    var j :| 0 <= j < |actions| && Writes(actions[j], h, written.byHash[h].path);
    var q := written.byHash[h].path;
    assert ChapterStep(d, t.byHash, folders, order[j]) == actions[j];
    assert q == order[j] && IsArchiveFile(d, q) && d.parseError(q).None?;
    ParsingErrorsExact(d, order, t.byHash, folders);
    assert q !in errors;
  }

  /** The two versions differ only on chapters whose path the sync changed:
      as written, prune judges those by the path they had before. */
  lemma PruneDifference(d: Disk, order: seq<string>, t: Chapters, folders: map<string, Folder>, h: string)
    requires h in SyncChapterTableFixed(d, order, t, folders).byHash
    requires h !in SyncChapterTable(d, order, t, folders).byHash
    ensures h in t.byHash && SyncChapterTableFixed(d, order, t, folders).byHash[h].path != t.byHash[h].path
  {
  }

  // ---------------------------------------------------------------------------
  // checkBadFilesDuringSync and cleanupMissingBadFileRecords
  // ---------------------------------------------------------------------------

  /** One iteration of `checkBadFilesDuringSync`. Unlike `DetectBadFiles`, a
      file that cannot be stat'ed is recorded, as an I/O error of size 0. */
  function BadFileStep(d: Disk, errors: map<string, string>, p: string): (a: BadFileDetector.FileAction)
    ensures a.Skip? <==> !IsArchiveFile(d, p)
    ensures a.Record? <==> IsArchiveFile(d, p) && (d.size(p).None? || p in errors)
    ensures !a.Skip? ==> a.path == p
    ensures a.Record? && d.size(p).None? ==> a.category == BadFileDetector.IoError && a.size == 0
    ensures a.Record? && d.size(p).Some? ==>
      p in errors && a.category == BadFileDetector.CategorizeError(errors[p]) && a.size == d.size(p).value
    ensures a.Record? ==> a.category in BadFileDetector.Categories
  {
    if !IsArchiveFile(d, p) then BadFileDetector.Skip
    else if d.size(p).None? then BadFileDetector.Record(p, BadFileDetector.IoError, 0)
    else if p in errors then
      BadFileDetector.Record(p, BadFileDetector.CategorizeError(errors[p]), d.size(p).value)
    else BadFileDetector.Forget(p)
  }

  /** The store write for one decision (`CreateBadFile` or `DeleteBadFileByPath`). */
  function ApplyBadFile(t: BadFileStore.Table, a: BadFileDetector.FileAction, now: int): (r: BadFileStore.Table)
    ensures BadFileStore.Valid(t) ==> BadFileStore.Valid(r)
  {
    match a
    case Skip => t
    case Record(p, category, size) => BadFileStore.CreateBadFile(t, p, category, size, now)
    case Forget(p) => BadFileStore.DeleteBadFileByPath(t, p)
  }

  function ApplyBadFiles(t: BadFileStore.Table, actions: seq<BadFileDetector.FileAction>, now: int)
    : (r: BadFileStore.Table)
    ensures BadFileStore.Valid(t) ==> BadFileStore.Valid(r)
    decreases |actions|
  {
    if |actions| == 0 then t else ApplyBadFiles(ApplyBadFile(t, actions[0], now), actions[1..], now)
  }

  /** The rows for `p` are the same in both tables. */
  predicate SameRowsFor(t: BadFileStore.Table, r: BadFileStore.Table, p: string) {
    BadFileStore.IdsWithPath(r, p) == BadFileStore.IdsWithPath(t, p)
    && forall id :: id in BadFileStore.IdsWithPath(t, p) ==> r.rows[id] == t.rows[id]
  }

  /** `p` has exactly one row, with this category and size. */
  ghost predicate RecordedAs(t: BadFileStore.Table, p: string, category: string, size: int) {
    exists id :: BadFileStore.IdsWithPath(t, p) == {id} && t.rows[id].error == category && t.rows[id].fileSize == size
  }

  /** Writes for other paths leave the rows of `p` alone. */
  lemma {:induction false} OtherPathsUntouched(t: BadFileStore.Table, actions: seq<BadFileDetector.FileAction>, now: int, p: string)
    requires BadFileStore.Valid(t)
    requires forall i :: 0 <= i < |actions| ==> actions[i].Skip? || actions[i].path != p
    ensures SameRowsFor(t, ApplyBadFiles(t, actions, now), p)
    decreases |actions|
  {
    if |actions| > 0 {
      var t1 := ApplyBadFile(t, actions[0], now);
      assert SameRowsFor(t, t1, p);
      OtherPathsUntouched(t1, actions[1..], now, p);
    }
  }

  /** The decision for a path that no other decision touches is what the
      table finally holds for it. */
  lemma {:induction false} DecisionHolds(t: BadFileStore.Table, actions: seq<BadFileDetector.FileAction>, now: int, i: int)
    requires BadFileStore.Valid(t)
    requires 0 <= i < |actions| && !actions[i].Skip?
    requires forall j :: 0 <= j < |actions| && j != i ==> actions[j].Skip? || actions[j].path != actions[i].path
    ensures var r := ApplyBadFiles(t, actions, now);
      match actions[i]
      case Record(p, c, size) => RecordedAs(r, p, c, size)
      case Forget(p) => BadFileStore.IdsWithPath(r, p) == {}
      case Skip => true
    decreases |actions|
  {
    var t1 := ApplyBadFile(t, actions[0], now);
    var p := actions[i].path;
    if i == 0 {
      forall j | 0 <= j < |actions[1..]|
        ensures actions[1..][j].Skip? || actions[1..][j].path != p
      {
        assert actions[1..][j] == actions[j + 1];
      }
      OtherPathsUntouched(t1, actions[1..], now, p);
      if actions[0].Record? {
        assert BadFileStore.IdsWithPath(t1, p) == {t.nextId};
      }
    } else {
      assert actions[1..][i - 1] == actions[i];
      forall j | 0 <= j < |actions[1..]| && j != i - 1
        ensures actions[1..][j].Skip? || actions[1..][j].path != p
      {
        assert actions[1..][j] == actions[j + 1];
      }
      DecisionHolds(t1, actions[1..], now, i - 1);
    }
  }

  /** `checkBadFilesDuringSync`, with the parse errors `syncChapters` collected. */
  function CheckBadFilesDuringSync(d: Disk, order: seq<string>, errors: map<string, string>,
                                   t: BadFileStore.Table, now: int): (r: BadFileStore.Table)
    ensures BadFileStore.Valid(t) ==> BadFileStore.Valid(r)
  {
    ApplyBadFiles(t, seq(|order|, i requires 0 <= i < |order| => BadFileStep(d, errors, order[i])), now)
  }

  /** `cleanupMissingBadFileRecords`: the records whose path the walk did not find are deleted. */
  function CleanupMissingBadFileRecords(t: BadFileStore.Table, d: Disk): (r: BadFileStore.Table)
    ensures BadFileStore.Valid(t) ==> BadFileStore.Valid(r)
    ensures forall id :: id in r.rows ==> r.rows[id].path in d.items
    ensures forall p :: p in d.items ==> SameRowsFor(t, r, p)
  {
    BadFileStore.Table(map id | id in t.rows && t.rows[id].path in d.items :: t.rows[id], t.nextId)
  }

  /** After steps 5 and 7 of `LibrarySync`, the bad-file table agrees with the
      disk: every record is for a walked path; an archive that cannot be
      stat'ed has one I/O-error record; one that failed to parse has one
      record with its category; one that parsed has none. */
  lemma BadFilesAfterSync(d: Disk, order: seq<string>, errors: map<string, string>,
                          t: BadFileStore.Table, now: int, p: string)
    requires Enumerates(order, d.items.Keys)
    requires BadFileStore.Valid(t)
    requires IsArchiveFile(d, p)
    ensures var r := CleanupMissingBadFileRecords(CheckBadFilesDuringSync(d, order, errors, t, now), d);
      BadFileStore.Valid(r)
      && (d.size(p).None? ==> RecordedAs(r, p, BadFileDetector.IoError, 0))
      && (d.size(p).Some? && p in errors ==>
            RecordedAs(r, p, BadFileDetector.CategorizeError(errors[p]), d.size(p).value))
      && (d.size(p).Some? && p !in errors ==> BadFileStore.IdsWithPath(r, p) == {})
  {
    var actions := seq(|order|, i requires 0 <= i < |order| => BadFileStep(d, errors, order[i]));
    var i := Position(order, p);
    forall j | 0 <= j < |actions| && j != i
      ensures actions[j].Skip? || actions[j].path != actions[i].path
    {
      assert order[j] != order[i];
    }
    DecisionHolds(t, actions, now, i);
  }
}
