/** Chapter helpers of internal/store/chapter_store.go: the display title
    taken from a chapter's path, and the previous/next chapter of the reader. */
module ChapterStore {
  import opened Results
  import opened Strings
  import opened Paths
  import opened Sorting
  import FolderStore

  /** The last '/'-separated element of a path (`strings.Split` never returns
      an empty list, so the `len(parts) == 0` branch is dead). */
  function LastPart(path: string): (r: string)
    ensures Sep !in r
  {
    var parts := Split(path, Sep);
    assert parts[|parts| - 1] in parts;
    parts[|parts| - 1]
  }

  /** A file name up to, not including, its last '.'; the whole name when it
      has no '.'. */
  function StripExtension(name: string): (t: string)
    ensures HasPrefix(name, t)
    ensures '.' !in name ==> t == name
    ensures '.' in name ==> |t| < |name| && name[|t|] == '.' && '.' !in name[|t| + 1..]
  {
    var dot := LastIndexOf(name, '.');
    if dot != -1 then name[..dot] else name
  }

  /** `GetChapterTitle`: the last path element without the suffix that starts
      at its last '.'. A name without a '.' is kept whole; ".cbz" gives "". */
  function GetChapterTitle(path: string): (t: string)
    ensures Sep !in t
    ensures t == StripExtension(LastPart(path))
  {
    var title := LastPart(path);
    var t := StripExtension(title);
    assert forall c :: c in t ==> c in title by {
      forall c | c in t ensures c in title {
        var k :| 0 <= k < |t| && t[k] == c;
        assert title[k] == c;
      }
    }
    t
  }

  /** The last element of a joined path is the last part joined. */
  lemma LastPartOfJoin(parts: seq<string>)
    requires |parts| > 0
    requires forall i :: 0 <= i < |parts| ==> Sep !in parts[i]
    ensures LastPart(Join(parts, Sep)) == parts[|parts| - 1]
  {
    SplitJoin(parts, Sep);
  }

  /** `stem.ext` loses exactly `.ext` when the extension has no '.'. */
  lemma StripOneExtension(stem: string, ext: string)
    requires '.' !in ext
    ensures StripExtension(stem + "." + ext) == stem
  {
    var name := stem + "." + ext;
    assert name == stem + ['.'] + ext;
    LastIndexOfBefore(stem, '.', ext);
    assert name[..|stem|] == stem;
  }

  /** A file `stem.ext` in any directory is titled `stem`, provided the
      extension has no '.' (the stem may have several). */
  lemma TitleOfChapterFile(dirs: seq<string>, stem: string, ext: string)
    requires forall i :: 0 <= i < |dirs| ==> Sep !in dirs[i]
    requires Sep !in stem && Sep !in ext && '.' !in ext
    ensures GetChapterTitle(Join(dirs + [stem + "." + ext], Sep)) == stem
  {
    var name := stem + "." + ext;
    var parts := dirs + [name];
    assert Sep !in name by {
      assert name == stem + ['.'] + ext;
    }
    assert forall i :: 0 <= i < |parts| ==> Sep !in parts[i] by {
      forall i | 0 <= i < |parts| ensures Sep !in parts[i] {
        if i < |dirs| {
          assert parts[i] == dirs[i];
        }
      }
    }
    LastPartOfJoin(parts);
    StripOneExtension(stem, ext);
  }

  /** A file name without a '.' is its own title. */
  lemma TitleWithoutExtension(dirs: seq<string>, name: string)
    requires forall i :: 0 <= i < |dirs| ==> Sep !in dirs[i]
    requires Sep !in name && '.' !in name
    ensures GetChapterTitle(Join(dirs + [name], Sep)) == name
  {
    var parts := dirs + [name];
    assert forall i :: 0 <= i < |parts| ==> Sep !in parts[i] by {
      forall i | 0 <= i < |parts| ensures Sep !in parts[i] {
        if i < |dirs| {
          assert parts[i] == dirs[i];
        }
      }
    }
    LastPartOfJoin(parts);
  }

  // ---------------------------------------------------------------------------
  // GetChapterNeighbors
  // ---------------------------------------------------------------------------

  /** The page size the neighbour lookup asks `ListItems` for. */
  const NeighborPageSize: int := 10000

  datatype Neighbors = Neighbors(prev: Option<int>, next: Option<int>)

  /** Index of the first `id` in `ids`, or -1: the search loop. */
  function FirstIndex(ids: seq<int>, id: int): (i: int)
    ensures -1 <= i < |ids|
    ensures i == -1 <==> id !in ids
    ensures i >= 0 ==> ids[i] == id && id !in ids[..i]
  {
    if |ids| == 0 then -1
    else if ids[0] == id then 0
    else
      var j := FirstIndex(ids[1..], id);
      assert j >= 0 ==> ids[..j + 1] == [ids[0]] + ids[1..][..j];
      if j < 0 then -1 else j + 1
  }

  /** The chapters of the folder as `ListItems` returns them: sorted, then cut
      to the first page of 10000. */
  function Listed(sorted: seq<int>): (r: seq<int>)
    ensures r == sorted[..FolderStore.Min(NeighborPageSize, |sorted|)]
  {
    FolderStore.CutIsWindow(sorted, 1, NeighborPageSize);
    assert sorted[0..FolderStore.Min(NeighborPageSize, |sorted|)] == sorted[..FolderStore.Min(NeighborPageSize, |sorted|)];
    FolderStore.LimitAndOffset(Some(sorted), 1, NeighborPageSize).items
  }

  /** `GetChapterNeighbors` over the ids of the folder's chapters in reading
      order (`sorted`): the ids either side of the first occurrence of
      `current` in the listing, none at either end, and none at all when
      `current` is not listed. */
  function GetChapterNeighbors(sorted: seq<int>, current: int): (n: Neighbors)
    ensures var ids := Listed(sorted); var i := FirstIndex(ids, current);
      (i == -1 ==> n == Neighbors(None, None))
      && (i >= 0 ==> n.prev == (if i > 0 then Some(ids[i - 1]) else None))
      && (i >= 0 ==> n.next == (if i < |ids| - 1 then Some(ids[i + 1]) else None))
  {
    var ids := Listed(sorted);
    var i := FirstIndex(ids, current);
    if i == -1 then Neighbors(None, None)
    else
      Neighbors(if i > 0 then Some(ids[i - 1]) else None,
                if i < |ids| - 1 then Some(ids[i + 1]) else None)
  }

  /** With distinct ids neither neighbour is the current chapter, and the two
      differ from each other. */
  lemma NeighborsAreOthers(sorted: seq<int>, current: int)
    requires NoDuplicates(sorted)
    ensures var n := GetChapterNeighbors(sorted, current);
      n.prev != Some(current) && n.next != Some(current)
      && (n.prev.Some? && n.next.Some? ==> n.prev != n.next)
  {
    var ids := Listed(sorted);
    var i := FirstIndex(ids, current);
    if i >= 0 {
      assert forall a, b :: 0 <= a < b < |ids| ==> ids[a] != ids[b] by {
        forall a, b | 0 <= a < b < |ids| ensures ids[a] != ids[b] {
          assert ids[a] == sorted[a] && ids[b] == sorted[b];
        }
      }
    }
  }

  /** The two lookups are inverse: the chapter after `prev` is the current one,
      and so is the chapter before `next`. */
  lemma NeighborsInverse(sorted: seq<int>, current: int)
    requires NoDuplicates(sorted)
    ensures var n := GetChapterNeighbors(sorted, current);
      (n.prev.Some? ==> GetChapterNeighbors(sorted, n.prev.value).next == Some(current))
      && (n.next.Some? ==> GetChapterNeighbors(sorted, n.next.value).prev == Some(current))
  {
    var ids := Listed(sorted);
    var i := FirstIndex(ids, current);
    ListedDistinct(sorted);
    if i > 0 {
      FirstIndexOfDistinct(ids, i - 1);
    }
    if 0 <= i < |ids| - 1 {
      FirstIndexOfDistinct(ids, i + 1);
    }
  }

  lemma ListedDistinct(sorted: seq<int>)
    requires NoDuplicates(sorted)
    ensures NoDuplicates(Listed(sorted))
  {
    var ids := Listed(sorted);
    forall a, b | 0 <= a < b < |ids| ensures ids[a] != ids[b] {
      assert ids[a] == sorted[a] && ids[b] == sorted[b];
    }
  }

  /** In a list without repeats, an element's first index is its index. */
  lemma FirstIndexOfDistinct(ids: seq<int>, k: nat)
    requires NoDuplicates(ids) && k < |ids|
    ensures FirstIndex(ids, ids[k]) == k
  {
    assert ids[k] in ids;
  }

  /** A chapter listed after the first 10000 of its folder has no neighbours. */
  lemma BeyondPageHasNoNeighbors(sorted: seq<int>, current: int)
    requires current in sorted && Position(sorted, current) >= NeighborPageSize
    ensures GetChapterNeighbors(sorted, current) == Neighbors(None, None)
  {
  }
}
