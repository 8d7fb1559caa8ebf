/** The `bad_files` table (internal/store/bad_file_store.go). Rows are kept by
    id; the path is unique, which is what lets `INSERT OR REPLACE` act as an
    upsert by path. A replaced row gets a fresh AUTOINCREMENT id. Times are
    integers supplied by the caller. */
module BadFileStore {
  import opened Paths
  import opened Sorting

  datatype BadFile = BadFile(
    id: int,
    path: string,
    fileName: string,
    error: string,
    fileSize: int,
    detectedAt: int,
    lastChecked: int)

  /** The rows by id, and the id the next insert receives. */
  datatype Table = Table(rows: map<int, BadFile>, nextId: int)

  const Empty: Table := Table(map[], 1)

  /** Each row sits under its own id, below `nextId`, and no two rows share a path. */
  predicate Valid(t: Table) {
    (forall id :: id in t.rows ==> t.rows[id].id == id && id < t.nextId)
    && (forall a, b :: a in t.rows && b in t.rows && t.rows[a].path == t.rows[b].path ==> a == b)
  }

  /** The ids of the rows recorded for `path`. */
  function IdsWithPath(t: Table, path: string): set<int> {
    set id | id in t.rows && t.rows[id].path == path
  }

  /** A valid table holds at most one row per path. */
  lemma AtMostOneRow(t: Table, path: string)
    requires Valid(t)
    ensures |IdsWithPath(t, path)| <= 1
    ensures forall id :: id in t.rows && t.rows[id].path == path ==> IdsWithPath(t, path) == {id}
  {
    var s := IdsWithPath(t, path);
    if exists id :: id in t.rows && t.rows[id].path == path {
      var id :| id in t.rows && t.rows[id].path == path;
      assert forall k :: k in s ==> k == id;
      assert s == {id};
    } else {
      assert s == {};
    }
  }

  /** `CreateBadFile`: the row for `path` is replaced by a new one; the file
      name is the path's last element. */
  function CreateBadFile(t: Table, path: string, error: string, size: int, now: int): (r: Table)
    ensures Valid(t) ==> Valid(r)
    ensures IdsWithPath(r, path) == {t.nextId}
    ensures r.rows[t.nextId] == BadFile(t.nextId, path, Base(path), error, size, now, now)
    ensures r.rows.Keys == (t.rows.Keys - IdsWithPath(t, path)) + {t.nextId}
    ensures Valid(t) ==> forall id :: id in t.rows && t.rows[id].path != path ==> id in r.rows && r.rows[id] == t.rows[id]
    ensures r.nextId > t.nextId
  {
    var kept := map id | id in t.rows && t.rows[id].path != path :: t.rows[id];
    Table(kept[t.nextId := BadFile(t.nextId, path, Base(path), error, size, now, now)], t.nextId + 1)
  }

  /** `DeleteBadFile`: nothing happens, and no error is reported, for an unknown id. */
  function DeleteBadFile(t: Table, id: int): (r: Table)
    ensures Valid(t) ==> Valid(r)
    ensures r.rows.Keys == t.rows.Keys - {id}
    ensures forall k :: k in r.rows ==> r.rows[k] == t.rows[k]
    ensures id !in t.rows ==> r == t
  {
    Table(t.rows - {id}, t.nextId)
  }

  /** `DeleteBadFileByPath`: removes the row for `path`, if there is one. */
  function DeleteBadFileByPath(t: Table, path: string): (r: Table)
    ensures Valid(t) ==> Valid(r)
    ensures IdsWithPath(r, path) == {}
    ensures r.rows.Keys == t.rows.Keys - IdsWithPath(t, path)
    ensures forall k :: k in r.rows ==> r.rows[k] == t.rows[k]
    ensures IdsWithPath(t, path) == {} ==> r == t
  {
    Table(t.rows - IdsWithPath(t, path), t.nextId)
  }

  /** `CountBadFiles` */
  function CountBadFiles(t: Table): nat {
    |t.rows|
  }

  /** Recording a path adds a row only if the path had none. */
  lemma CreateCount(t: Table, path: string, error: string, size: int, now: int)
    requires Valid(t)
    ensures CountBadFiles(CreateBadFile(t, path, error, size, now))
      == CountBadFiles(t) + (if IdsWithPath(t, path) == {} then 1 else 0)
  {
    var r := CreateBadFile(t, path, error, size, now);
    var s := IdsWithPath(t, path);
    AtMostOneRow(t, path);
    assert t.nextId !in t.rows.Keys - s;
    assert |t.rows.Keys - s| == |t.rows.Keys| - |s|;
    assert |r.rows.Keys| == |t.rows.Keys - s| + 1;
    assert |r.rows| == |r.rows.Keys|;
  }

  /** Recording the same path twice leaves one row, with the second error. */
  lemma UpsertReplaces(t: Table, path: string, e1: string, e2: string, size: int, now1: int, now2: int)
    requires Valid(t)
    ensures var r := CreateBadFile(CreateBadFile(t, path, e1, size, now1), path, e2, size, now2);
      exists id :: IdsWithPath(r, path) == {id} && r.rows[id].error == e2
  {
    var r1 := CreateBadFile(t, path, e1, size, now1);
    var r := CreateBadFile(r1, path, e2, size, now2);
    assert IdsWithPath(r, path) == {r1.nextId} && r.rows[r1.nextId].error == e2;
  }

  /** Deleting by path undoes recording it: the other rows are untouched. */
  lemma CreateThenDeleteByPath(t: Table, path: string, error: string, size: int, now: int)
    requires Valid(t)
    ensures DeleteBadFileByPath(CreateBadFile(t, path, error, size, now), path).rows
      == DeleteBadFileByPath(t, path).rows
  {
    var r := DeleteBadFileByPath(CreateBadFile(t, path, error, size, now), path);
    var d := DeleteBadFileByPath(t, path);
    assert t.nextId !in t.rows;
    assert r.rows.Keys == d.rows.Keys;
  }

  /** The rows listed in the order `order` (Go receives SQL rows in some order). */
  function RowsIn(t: Table, order: seq<int>): (r: seq<BadFile>)
    requires forall i :: 0 <= i < |order| ==> order[i] in t.rows
    ensures |r| == |order|
    ensures forall i :: 0 <= i < |order| ==> r[i] == t.rows[order[i]]
  {
    seq(|order|, i requires 0 <= i < |order| => t.rows[order[i]])
  }

  /** `GetAllBadFiles`: every row once, newest detection first (the order of
      equal times is unspecified). An empty table gives an empty list. */
  function GetAllBadFiles(t: Table, order: seq<int>): (r: seq<BadFile>)
    requires Enumerates(order, t.rows.Keys)
    ensures |r| == |t.rows|
    ensures forall b :: b in r <==> exists id :: id in t.rows && t.rows[id] == b
    ensures forall i, j :: 0 <= i <= j < |r| ==> r[i].detectedAt >= r[j].detectedAt
  {
    EnumeratesLength(order, t.rows.Keys);
    var rows := RowsIn(t, order);
    var r := SortByKey(rows, (b: BadFile) => -b.detectedAt);
    assert forall b :: b in rows <==> exists id :: id in t.rows && t.rows[id] == b by {
      forall b ensures b in rows <==> exists id :: id in t.rows && t.rows[id] == b {
        if b in rows {
          var i :| 0 <= i < |rows| && rows[i] == b;
          assert order[i] in t.rows && t.rows[order[i]] == b;
        }
        if exists id :: id in t.rows && t.rows[id] == b {
          var id :| id in t.rows && t.rows[id] == b;
          assert id in order;
          var i :| 0 <= i < |order| && order[i] == id;
          assert rows[i] == b;
        }
      }
    }
    r
  }
}
