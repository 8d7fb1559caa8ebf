/** Folder listing helpers of internal/store/folder_store.go: the in-memory
    page cut `limitAndOffset*`, the breadcrumb ancestry and the per-user sort
    settings. Go's `int` is 64 bits wide and wraps on overflow; a slice
    expression out of range panics. */
module FolderStore {
  import opened Results
  import opened Strconv

  const TwoTo64: int := 0x1_0000_0000_0000_0000

  predicate IsInt64(x: int) { MinInt64 <= x <= MaxInt64 }

  /** Two's-complement wrap-around of an exact result into an int64. */
  function Wrap64(x: int): (r: int)
    ensures IsInt64(r)
    ensures (r - x) % TwoTo64 == 0
    ensures IsInt64(x) ==> r == x
  {
    (x - MinInt64) % TwoTo64 + MinInt64
  }

  /** What a `limitAndOffset*` call produces: a nil slice, a slice, or a panic
      from an out-of-range slice expression. */
  datatype Cut<T> = Nil | Items(items: seq<T>) | Panic

  function Min(a: int, b: int): int { if a < b then a else b }

  /** `part` is the run of `s` that starts at `i`. */
  predicate OccursAt<T(==)>(s: seq<T>, i: int, part: seq<T>) {
    0 <= i && i + |part| <= |s| && s[i..i + |part|] == part
  }

  /** `limitAndOffsetChapters` and `limitAndOffsetFolders` (the two are the
      same code over different element types). `slice` is `None` for a nil
      Go slice. Every arithmetic step wraps like Go's `int`. */
  function LimitAndOffset<T(==)>(slice: Option<seq<T>>, page: int, perPage: int): (r: Cut<T>)
    requires IsInt64(page) && IsInt64(perPage)
    ensures slice.None? <==> r.Nil?
    ensures r.Items? ==> |r.items| <= |slice.value|
    ensures r.Items? && perPage >= 0 ==> |r.items| <= perPage
    ensures r.Items? ==> exists i :: OccursAt(slice.value, i, r.items)
  {
    match slice
    case None => Nil
    case Some(s) =>
      var offset := Wrap64(Wrap64(page - 1) * perPage);
      if offset < |s| then
        var end := Wrap64(offset + perPage);
        var end' := if end > |s| then |s| else end;
        if 0 <= offset <= end' then
          assert OccursAt(s, offset, s[offset..end']);
          Items(s[offset..end'])
        else Panic
      else
        assert OccursAt(s, 0, []);
        Items([])
  }

  /** The page a caller means: elements `(page-1)*perPage` up to, not
      including, `page*perPage`, clipped to the list. */
  function Window<T>(s: seq<T>, page: int, perPage: nat): (r: seq<T>)
    requires page >= 1
  {
    var lo := Min((page - 1) * perPage, |s|);
    s[lo..Min(lo + perPage, |s|)]
  }

  /** For a page from 1 and a non-negative page size whose end fits in an
      int64, the cut is that page. */
  lemma CutIsWindow<T>(s: seq<T>, page: int, perPage: int)
    requires 1 <= page <= MaxInt64 && 0 <= perPage && page * perPage <= MaxInt64
    ensures LimitAndOffset(Some(s), page, perPage) == Items(Window(s, page, perPage))
  {
    var offset := (page - 1) * perPage;
    assert 0 <= offset <= page * perPage by {
      assert (page - 1) * perPage >= 0;
    }
    assert Wrap64(page - 1) == page - 1;
    assert Wrap64(offset) == offset;
    assert offset + perPage == page * perPage;
    if offset >= |s| {
      assert s[|s|..|s|] == [];
    }
  }

  /** Pages 1 to `k` laid end to end give the first `k*perPage` elements. */
  function Pages<T>(s: seq<T>, perPage: nat, k: nat): seq<T> {
    if k == 0 then [] else Pages(s, perPage, k - 1) + Window(s, k, perPage)
  }

  lemma {:induction false} PagesArePrefix<T>(s: seq<T>, perPage: nat, k: nat)
    ensures Pages(s, perPage, k) == s[..Min(k * perPage, |s|)]
  {
    if k > 0 {
      PagesArePrefix(s, perPage, k - 1);
      var lo := Min((k - 1) * perPage, |s|);
      assert (k - 1) * perPage + perPage == k * perPage;
      assert Min(lo + perPage, |s|) == Min(k * perPage, |s|);
      assert s[..lo] + s[lo..Min(k * perPage, |s|)] == s[..Min(k * perPage, |s|)];
    }
  }

  /** Walking the pages of a list shows every element once, in order. */
  lemma PagesCoverList<T>(s: seq<T>, perPage: nat, k: nat)
    requires perPage >= 1 && k * perPage >= |s|
    ensures Pages(s, perPage, k) == s
  {
    PagesArePrefix(s, perPage, k);
    assert s[..|s|] == s;
  }

  /** A request without a page number (page 0) panics as soon as the list is
      not empty: the offset is `-perPage`. */
  lemma PageZeroPanics<T>(s: seq<T>, perPage: int)
    requires |s| >= 1 && 1 <= perPage <= MaxInt64
    ensures LimitAndOffset(Some(s), 0, perPage) == Panic
  {
    assert Wrap64(0 - 1) == -1;
    assert Wrap64(-1 * perPage) == -perPage;
  }

  /** The page number `Atoi` saturates to, with the largest page size, wraps
      the offset round to -200 and panics. */
  lemma SaturatedPagePanics<T>(s: seq<T>)
    requires |s| >= 1
    ensures LimitAndOffset(Some(s), MaxInt64, 100) == Panic
  {
    assert Wrap64(MaxInt64 - 1) == MaxInt64 - 1;
    assert (MaxInt64 - 1) * 100 == 5 * TwoTo64 * 10 - 200;
    assert Wrap64((MaxInt64 - 1) * 100) == -200;
    assert Wrap64(-200 + 100) == -100;
  }

  /** The evident intent: a missing or too-small page means the first page,
      and an offset past the end, however large, gives an empty page. */
  function LimitAndOffsetChecked<T(==)>(slice: Option<seq<T>>, page: int, perPage: nat): (r: Cut<T>)
    ensures !r.Panic?
    ensures slice.None? <==> r.Nil?
    ensures r.Items? ==> |r.items| <= perPage && |r.items| <= |slice.value|
  {
    match slice
    case None => Nil
    case Some(s) => Items(Window(s, if page < 1 then 1 else page, perPage))
  }

  /** It agrees with the as-written cut wherever that one is well defined. */
  lemma CheckedAgrees<T>(slice: Option<seq<T>>, page: int, perPage: int)
    requires 1 <= page <= MaxInt64 && 0 <= perPage && page * perPage <= MaxInt64
    ensures LimitAndOffsetChecked(slice, page, perPage) == LimitAndOffset(slice, page, perPage)
  {
    if slice.Some? {
      CutIsWindow(slice.value, page, perPage);
    }
  }

  // ---------------------------------------------------------------------------
  // GetFolderPath
  // ---------------------------------------------------------------------------

  datatype Folder = Folder(id: int, name: string, parentId: Option<int>)

  const FolderNotFound: string := "folder not found"

  /** The folders table. Folder ids come from AUTOINCREMENT and a parent is
      always created before its children, so a parent id is smaller. */
  predicate ParentsEarlier(folders: map<int, Folder>) {
    forall id :: id in folders ==>
      folders[id].id == id && (folders[id].parentId.Some? ==> folders[id].parentId.value < id)
  }

  /** The loop in `GetFolderPath` stops at a nil parent or an id that is not
      positive. */
  predicate IsRoot(f: Folder) {
    f.parentId.None? || f.parentId.value <= 0
  }

  /** A breadcrumb trail: starts at a root, each next folder a child of the one before. */
  predicate Chain(path: seq<Folder>) {
    (|path| > 0 ==> IsRoot(path[0]))
    && forall i :: 0 < i < |path| ==> path[i].parentId == Some(path[i - 1].id) && !IsRoot(path[i])
  }

  /** Whether every folder on the way up from `id` exists. */
  predicate AncestryExists(folders: map<int, Folder>, id: int)
    requires ParentsEarlier(folders)
    decreases if id < 0 then 0 else id
  {
    id <= 0 || (id in folders && (IsRoot(folders[id]) || AncestryExists(folders, folders[id].parentId.value)))
  }

  /** `GetFolderPath`: the ancestry of `id`, root first, ending with `id`
      itself; "folder not found" when some folder on the way up is missing.
      An id that is not positive has an empty path. */
  function GetFolderPath(folders: map<int, Folder>, id: int): (r: Result<seq<Folder>>)
    requires ParentsEarlier(folders)
    ensures r.Ok? <==> AncestryExists(folders, id)
    ensures r.Err? ==> r.error == FolderNotFound
    ensures r.Ok? ==> Chain(r.value)
    ensures r.Ok? ==> forall i :: 0 <= i < |r.value| ==> r.value[i].id in folders && folders[r.value[i].id] == r.value[i]
    ensures r.Ok? && id > 0 ==> |r.value| > 0 && r.value[|r.value| - 1] == folders[id]
    ensures r.Ok? && id <= 0 ==> r.value == []
    decreases if id < 0 then 0 else id
  {
    if id <= 0 then Ok([])
    else if id !in folders then Err(FolderNotFound)
    else
      var f := folders[id];
      if IsRoot(f) then Ok([f])
      else
        match GetFolderPath(folders, f.parentId.value)
        case Err(e) => Err(e)
        case Ok(above) => Ok(above + [f])
  }

  /** The trail holds each folder once: ids strictly increase along it. */
  lemma {:induction false} PathIdsIncrease(folders: map<int, Folder>, id: int, i: int, j: int)
    requires ParentsEarlier(folders) && AncestryExists(folders, id)
    requires 0 <= i < j < |GetFolderPath(folders, id).value|
    ensures GetFolderPath(folders, id).value[i].id < GetFolderPath(folders, id).value[j].id
    decreases j - i
  {
    var p := GetFolderPath(folders, id).value;
    assert p[j].parentId == Some(p[j - 1].id);
    assert p[j - 1].id < p[j].id;
    if i < j - 1 {
      PathIdsIncrease(folders, id, i, j - 1);
    }
  }

  // ---------------------------------------------------------------------------
  // GetFolderSettings / UpdateFolderSettings
  // ---------------------------------------------------------------------------

  datatype FolderSettings = FolderSettings(sortBy: string, sortDir: string)

  const DefaultSettings: FolderSettings := FolderSettings("auto", "asc")

  /** The `user_folder_settings` rows, keyed by (folder id, user id). */
  type SettingsTable = map<(int, int), FolderSettings>

  /** `GetFolderSettings`: the stored row, or ("auto", "asc") when there is none. */
  function GetFolderSettings(t: SettingsTable, folderId: int, userId: int): (r: FolderSettings)
    ensures (folderId, userId) in t ==> r == t[(folderId, userId)]
    ensures (folderId, userId) !in t ==> r.sortBy == "auto" && r.sortDir == "asc"
  {
    if (folderId, userId) in t then t[(folderId, userId)] else DefaultSettings
  }

  /** `UpdateFolderSettings`: insert, or overwrite on the (user, folder) conflict. */
  function UpdateFolderSettings(t: SettingsTable, folderId: int, userId: int, sortBy: string, sortDir: string)
    : (r: SettingsTable)
    ensures r.Keys == t.Keys + {(folderId, userId)}
  {
    t[(folderId, userId) := FolderSettings(sortBy, sortDir)]
  }

  /** Settings read back as written, for that folder and user only. */
  lemma SettingsRoundTrip(t: SettingsTable, folderId: int, userId: int, sortBy: string, sortDir: string,
                          f: int, u: int)
    ensures GetFolderSettings(UpdateFolderSettings(t, folderId, userId, sortBy, sortDir), f, u)
      == if (f, u) == (folderId, userId) then FolderSettings(sortBy, sortDir) else GetFolderSettings(t, f, u)
  {
  }
}
