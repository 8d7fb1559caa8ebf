/** The download queue table and the store operations that move its rows
    between statuses (internal/store/download_store.go). The table is a map
    from row id to row; each SQL `UPDATE … WHERE` becomes a map update that
    touches exactly the rows its WHERE clause selects. */
module DownloadQueue {
  import opened Results
  import opened Sorting
  import Strconv

  datatype Status = Queued | InProgress | Paused | Completed | Failed

  /** One `download_queue` row (the id is the map key). */
  datatype Item = Item(
    seriesTitle: string,
    chapterTitle: string,
    chapterIdentifier: string,
    providerId: string,
    status: Status,
    progress: int,
    message: string,
    createdAt: int)

  type Queue = map<int, Item>

  const MsgRequeuedAfterRestart := "Re-queued after restart"
  const MsgPausedByUser := "Paused by user"
  const MsgResumedByUser := "Resumed by user"
  const MsgRequeuedByUser := "Re-queued by user"
  const MsgRequeuedForRetry := "Re-queued for retry by user"

  /** The ids of the rows whose status is in `s`. */
  function WithStatus(q: Queue, s: set<Status>): set<int> {
    set id | id in q && q[id].status in s
  }

  /** The columns no status transition writes. */
  predicate SameChapter(a: Item, b: Item) {
    a.seriesTitle == b.seriesTitle && a.chapterTitle == b.chapterTitle
    && a.chapterIdentifier == b.chapterIdentifier && a.providerId == b.providerId
    && a.createdAt == b.createdAt
  }

  /** `b` is `a` after an UPDATE that set status and message and left progress alone. */
  predicate Restatus(a: Item, b: Item, s: Status, msg: string) {
    SameChapter(a, b) && b.status == s && b.message == msg && b.progress == a.progress
  }

  /** Every row has one of the five statuses. */
  lemma StatusComplement(q: Queue)
    ensures q.Keys - WithStatus(q, {Queued, Failed, Paused}) == WithStatus(q, {InProgress, Completed})
  {
    forall id | id in q
      ensures q[id].status !in {Queued, Failed, Paused} <==> q[id].status in {InProgress, Completed}
    {
      match q[id].status
      case Queued =>
      case Failed =>
      case Paused =>
      case InProgress =>
      case Completed =>
    }
  }

  // ---------------------------------------------------------------------------
  // Writes by the worker (no rows-affected check: a missing id is not an error)
  // ---------------------------------------------------------------------------

  /** `UpdateQueueItemStatus` */
  function UpdateStatus(q: Queue, id: int, s: Status, msg: string): (r: Queue)
    ensures r.Keys == q.Keys
    ensures id in q ==> Restatus(q[id], r[id], s, msg)
    ensures forall k :: k in q && k != id ==> r[k] == q[k]
  {
    if id in q then q[id := q[id].(status := s, message := msg)] else q
  }

  /** `UpdateQueueItemProgress` */
  function UpdateProgress(q: Queue, id: int, p: int): (r: Queue)
    ensures r.Keys == q.Keys
    ensures id in q ==> (SameChapter(q[id], r[id]) && r[id].progress == p
                         && r[id].status == q[id].status && r[id].message == q[id].message)
    ensures forall k :: k in q && k != id ==> r[k] == q[k]
  {
    if id in q then q[id := q[id].(progress := p)] else q
  }

  // ---------------------------------------------------------------------------
  // Bulk transitions
  // ---------------------------------------------------------------------------

  /** `ResetInProgressQueueItems`, run once at startup. */
  function ResetInProgress(q: Queue): (r: Queue)
    ensures r.Keys == q.Keys
    ensures WithStatus(r, {InProgress}) == {}
    ensures WithStatus(r, {Queued}) == WithStatus(q, {Queued, InProgress})
    ensures forall id :: id in q && q[id].status == InProgress ==>
      SameChapter(q[id], r[id]) && r[id].progress == 0 && r[id].message == MsgRequeuedAfterRestart
    ensures forall id :: id in q && q[id].status != InProgress ==> r[id] == q[id]
  {
    map id | id in q ::
      if q[id].status == InProgress
      then q[id].(status := Queued, progress := 0, message := MsgRequeuedAfterRestart)
      else q[id]
  }

  /** `PauseAllQueueItems` */
  function PauseAll(q: Queue): (r: Queue)
    ensures r.Keys == q.Keys
    ensures WithStatus(r, {Queued, InProgress}) == {}
    ensures WithStatus(r, {Paused}) == WithStatus(q, {Queued, InProgress, Paused})
    ensures forall id :: id in q && q[id].status in {Queued, InProgress} ==>
      Restatus(q[id], r[id], Paused, MsgPausedByUser)
    ensures forall id :: id in q && q[id].status !in {Queued, InProgress} ==> r[id] == q[id]
  {
    map id | id in q ::
      if q[id].status == Queued || q[id].status == InProgress
      then q[id].(status := Paused, message := MsgPausedByUser)
      else q[id]
  }

  /** `ResumeAllQueueItems`: progress is kept. */
  function ResumeAll(q: Queue): (r: Queue)
    ensures r.Keys == q.Keys
    ensures WithStatus(r, {Paused}) == {}
    ensures WithStatus(r, {Queued}) == WithStatus(q, {Queued, Paused})
    ensures forall id :: id in q && q[id].status == Paused ==>
      Restatus(q[id], r[id], Queued, MsgResumedByUser)
    ensures forall id :: id in q && q[id].status != Paused ==> r[id] == q[id]
  {
    map id | id in q ::
      if q[id].status == Paused then q[id].(status := Queued, message := MsgResumedByUser) else q[id]
  }

  /** `ResetFailedQueueItems`: progress restarts at 0. */
  function ResetFailed(q: Queue): (r: Queue)
    ensures r.Keys == q.Keys
    ensures WithStatus(r, {Failed}) == {}
    ensures WithStatus(r, {Queued}) == WithStatus(q, {Queued, Failed})
    ensures forall id :: id in q && q[id].status == Failed ==>
      SameChapter(q[id], r[id]) && r[id].progress == 0 && r[id].message == MsgRequeuedByUser
    ensures forall id :: id in q && q[id].status != Failed ==> r[id] == q[id]
  {
    map id | id in q ::
      if q[id].status == Failed
      then q[id].(status := Queued, progress := 0, message := MsgRequeuedByUser)
      else q[id]
  }

  /** `DeleteCompletedQueueItems` */
  function DeleteCompleted(q: Queue): (r: Queue)
    ensures r.Keys == q.Keys - WithStatus(q, {Completed})
    ensures forall id :: id in r ==> r[id] == q[id]
  {
    q - WithStatus(q, {Completed})
  }

  /** `EmptyQueue`: only in-progress and completed rows survive. */
  function EmptyQueue(q: Queue): (r: Queue)
    ensures r.Keys == WithStatus(q, {InProgress, Completed})
    ensures forall id :: id in r ==> r[id] == q[id]
  {
    var r := q - WithStatus(q, {Queued, Failed, Paused});
    StatusComplement(q);
    assert r.Keys == q.Keys - WithStatus(q, {Queued, Failed, Paused});
    r
  }

  /** `DeleteQueueItem`: any status; a missing id is not an error. */
  function DeleteItem(q: Queue, id: int): (r: Queue)
    ensures r.Keys == q.Keys - {id}
    ensures forall k :: k in r ==> r[k] == q[k]
  {
    q - {id}
  }

  // ---------------------------------------------------------------------------
  // Single-item transitions with a rows-affected check
  // ---------------------------------------------------------------------------

  function NotFoundMessage(id: int): string {
    "download queue item with ID " + Strconv.Itoa(id) + " not found"
  }

  function NotRetryableMessage(id: int): string {
    "download queue item with ID " + Strconv.Itoa(id) + " not found or not in failed status"
  }

  /** `PauseQueueItem`: no status guard; only a missing id fails. */
  function PauseItem(q: Queue, id: int): (r: Result<Queue>)
    ensures r.Ok? <==> id in q
    ensures r.Err? ==> r.error == NotFoundMessage(id)
    ensures r.Ok? ==> (r.value.Keys == q.Keys && Restatus(q[id], r.value[id], Paused, MsgPausedByUser)
                       && forall k :: k in q && k != id ==> r.value[k] == q[k])
  {
    if id in q then Ok(UpdateStatus(q, id, Paused, MsgPausedByUser)) else Err(NotFoundMessage(id))
  }

  /** `ResumeQueueItem`: no status guard, progress kept. */
  function ResumeItem(q: Queue, id: int): (r: Result<Queue>)
    ensures r.Ok? <==> id in q
    ensures r.Err? ==> r.error == NotFoundMessage(id)
    ensures r.Ok? ==> (r.value.Keys == q.Keys && Restatus(q[id], r.value[id], Queued, MsgResumedByUser)
                       && forall k :: k in q && k != id ==> r.value[k] == q[k])
  {
    if id in q then Ok(UpdateStatus(q, id, Queued, MsgResumedByUser)) else Err(NotFoundMessage(id))
  }

  /** `RetryQueueItem`: the one guarded transition — only a failed row moves. */
  function RetryItem(q: Queue, id: int): (r: Result<Queue>)
    ensures r.Ok? <==> id in q && q[id].status == Failed
    ensures r.Err? ==> r.error == NotRetryableMessage(id)
    ensures r.Ok? ==> (r.value.Keys == q.Keys && SameChapter(q[id], r.value[id])
                       && r.value[id].status == Queued && r.value[id].progress == 0
                       && r.value[id].message == MsgRequeuedForRetry
                       && forall k :: k in q && k != id ==> r.value[k] == q[k])
  {
    if id in q && q[id].status == Failed
    then Ok(q[id := q[id].(status := Queued, progress := 0, message := MsgRequeuedForRetry)])
    else Err(NotRetryableMessage(id))
  }

  /** `GetDownloadQueueItem` */
  function GetItem(q: Queue, id: int): (r: Option<Item>)
    ensures r.Some? <==> id in q
    ensures r.Some? ==> r.value == q[id]
  {
    Lookup(q, id)
  }

  // ---------------------------------------------------------------------------
  // Reads
  // ---------------------------------------------------------------------------

  function CreatedAt(q: Queue, id: int): int {
    if id in q then q[id].createdAt else 0
  }

  /** `GetQueuedDownloadItems(limit)`: queued rows, oldest first, `LIMIT limit`.
      `rows` is the order in which the table is scanned; rows with equal
      `created_at` may come back in any order, and `rows` fixes one. */
  function QueuedItems(q: Queue, rows: seq<int>, limit: int): (r: seq<int>)
    requires Enumerates(rows, q.Keys)
    ensures limit >= 0 ==> |r| <= limit
    ensures NoDuplicates(r)
    ensures forall i :: 0 <= i < |r| ==> r[i] in q && q[r[i]].status == Queued
    ensures forall i, j :: 0 <= i <= j < |r| ==> q[r[i]].createdAt <= q[r[j]].createdAt
    ensures limit < 0 || |r| < limit ==> forall id :: id in WithStatus(q, {Queued}) ==> id in r
    ensures forall id, i :: id in WithStatus(q, {Queued}) && id !in r && 0 <= i < |r| ==>
      q[r[i]].createdAt <= q[id].createdAt
  {
    var queued := QueuedRows(q, rows);
    var sorted := SortByKey(queued, id => CreatedAt(q, id));
    var r := Limit(sorted, limit);
    QueuedItemsFacts(q, queued, sorted, r, limit);
    r
  }

  lemma QueuedItemsFacts(q: Queue, queued: seq<int>, sorted: seq<int>, r: seq<int>, limit: int)
    requires NoDuplicates(queued) && forall id :: id in queued <==> id in WithStatus(q, {Queued})
    requires NoDuplicates(sorted) && forall x :: x in sorted <==> x in queued
    requires forall i, j :: 0 <= i <= j < |sorted| ==> CreatedAt(q, sorted[i]) <= CreatedAt(q, sorted[j])
    requires r == Limit(sorted, limit)
    ensures limit >= 0 ==> |r| <= limit
    ensures NoDuplicates(r)
    ensures forall i :: 0 <= i < |r| ==> r[i] in q && q[r[i]].status == Queued
    ensures forall i, j :: 0 <= i <= j < |r| ==> q[r[i]].createdAt <= q[r[j]].createdAt
    ensures limit < 0 || |r| < limit ==> forall id :: id in WithStatus(q, {Queued}) ==> id in r
    ensures forall id, i :: id in WithStatus(q, {Queued}) && id !in r && 0 <= i < |r| ==>
      q[r[i]].createdAt <= q[id].createdAt
  {
    assert forall i :: 0 <= i < |sorted| ==> sorted[i] in queued;
    assert forall i :: 0 <= i < |r| ==> r[i] == sorted[i];
    forall i, j | 0 <= i <= j < |r|
      ensures q[r[i]].createdAt <= q[r[j]].createdAt
    {
      assert CreatedAt(q, sorted[i]) <= CreatedAt(q, sorted[j]);
    }
    forall id, i | id in WithStatus(q, {Queued}) && id !in r && 0 <= i < |r|
      ensures q[r[i]].createdAt <= q[id].createdAt
    {
      assert id in sorted;
      var k :| 0 <= k < |sorted| && sorted[k] == id;
      assert CreatedAt(q, sorted[i]) <= CreatedAt(q, sorted[k]);
    }
  }

  /** The queued rows in scan order. */
  function QueuedRows(q: Queue, rows: seq<int>): (r: seq<int>)
    requires Enumerates(rows, q.Keys)
    ensures NoDuplicates(r)
    ensures forall id :: id in r <==> id in WithStatus(q, {Queued})
  {
    var isQueued := id => id in q && q[id].status == Queued;
    FilterNoDuplicates(rows, isQueued);
    Filter(rows, isQueued)
  }

  /** `GetDownloadQueue`: every row, newest first. */
  function AllItems(q: Queue, rows: seq<int>): (r: seq<int>)
    requires Enumerates(rows, q.Keys)
    ensures Enumerates(r, q.Keys)
    ensures forall i, j :: 0 <= i <= j < |r| ==> q[r[i]].createdAt >= q[r[j]].createdAt
  {
    var r := SortByKey(rows, id => -CreatedAt(q, id));
    assert forall i :: 0 <= i < |r| ==> r[i] in rows;
    r
  }

  /** The identifiers of one series' rows, whatever their status. */
  function SeriesIdentifiers(q: Queue, series: string, provider: string): set<string> {
    set id | id in q && q[id].seriesTitle == series && q[id].providerId == provider :: q[id].chapterIdentifier
  }

  /** `GetChapterIdentifiersInQueue`: the identifiers of the rows of one series
      and provider, in scan order. */
  function IdentifiersInQueue(q: Queue, rows: seq<int>, series: string, provider: string): (r: seq<string>)
    requires Enumerates(rows, q.Keys)
    ensures forall c :: c in r <==> c in SeriesIdentifiers(q, series, provider)
  {
    var r := ScanIdentifiers(q, rows, series, provider);
    forall c | c in SeriesIdentifiers(q, series, provider)
      ensures c in r
    {
      var id :| id in q && q[id].seriesTitle == series && q[id].providerId == provider
                && q[id].chapterIdentifier == c;
      var i :| 0 <= i < |rows| && rows[i] == id;
    }
    r
  }

  function ScanIdentifiers(q: Queue, rows: seq<int>, series: string, provider: string): (r: seq<string>)
    ensures forall c :: c in r ==> c in SeriesIdentifiers(q, series, provider)
    ensures forall i :: (0 <= i < |rows| && rows[i] in q && q[rows[i]].seriesTitle == series
                         && q[rows[i]].providerId == provider) ==> q[rows[i]].chapterIdentifier in r
  {
    if |rows| == 0 then []
    else
      var rest := ScanIdentifiers(q, rows[1..], series, provider);
      var id := rows[0];
      assert forall i :: 1 <= i < |rows| ==> rows[i] == rows[1..][i - 1];
      if id in q && q[id].seriesTitle == series && q[id].providerId == provider
      then [q[id].chapterIdentifier] + rest
      else rest
  }

  // ---------------------------------------------------------------------------
  // Inserts
  // ---------------------------------------------------------------------------

  /** A chapter offered by a provider (`models.ChapterResult`). */
  datatype ChapterRef = ChapterRef(identifier: string, title: string)

  /** What the schema supplies for a new row: the column defaults, and whether
      a unique constraint makes `INSERT OR IGNORE` drop a row. */
  datatype Schema = Schema(defaultStatus: Status, defaultProgress: int, defaultMessage: string,
                           ignores: (Queue, Item) -> bool)

  /** `AddChaptersToQueue`: one `INSERT OR IGNORE` per chapter, in order, with
      fresh row ids from `nextId` on. */
  function AddChapters(q: Queue, schema: Schema, nextId: int, series: string, provider: string,
                       chapters: seq<ChapterRef>, now: int): (r: Queue)
    requires forall id :: id in q ==> id < nextId
    ensures forall id :: id in q ==> id in r && r[id] == q[id]
    ensures forall id :: id in r && id !in q ==>
      id >= nextId && r[id].seriesTitle == series && r[id].providerId == provider
      && r[id].status == schema.defaultStatus && r[id].progress == schema.defaultProgress
      && r[id].createdAt == now
      && exists c :: c in chapters && r[id].chapterIdentifier == c.identifier && r[id].chapterTitle == c.title
    ensures |r| <= |q| + |chapters|
    ensures (forall qq, it :: !schema.ignores(qq, it)) ==> |r| == |q| + |chapters|
    decreases |chapters|
  {
    if |chapters| == 0 then q
    else
      var row := NewRow(schema, series, provider, chapters[0], now);
      if schema.ignores(q, row) then
        AddChapters(q, schema, nextId, series, provider, chapters[1..], now)
      else
        assert nextId !in q;
        AddChapters(q[nextId := row], schema, nextId + 1, series, provider, chapters[1..], now)
  }

  /** The row `AddChaptersToQueue` inserts for one chapter: the schema's
      defaults and the insertion time. */
  function NewRow(schema: Schema, series: string, provider: string, c: ChapterRef, now: int): Item {
    Item(series, c.title, c.identifier, provider, schema.defaultStatus,
         schema.defaultProgress, schema.defaultMessage, now)
  }

  /** The rows from `nextId` on are the chapters' rows, in order. */
  ghost predicate RowsInOrder(r: Queue, schema: Schema, nextId: int, series: string, provider: string,
                              chapters: seq<ChapterRef>, now: int) {
    forall id :: nextId <= id < nextId + |chapters| ==>
      id in r && r[id] == NewRow(schema, series, provider, chapters[id - nextId], now)
  }

  /** When no constraint drops a row, the chapters are inserted in order
      under consecutive ids from `nextId` on, and nothing else is added. */
  lemma {:induction false} AddChaptersInOrder(q: Queue, schema: Schema, nextId: int, series: string,
                                              provider: string, chapters: seq<ChapterRef>, now: int)
    requires forall id :: id in q ==> id < nextId
    requires forall qq, it :: !schema.ignores(qq, it)
    ensures RowsInOrder(AddChapters(q, schema, nextId, series, provider, chapters, now),
                        schema, nextId, series, provider, chapters, now)
    ensures forall id :: id in AddChapters(q, schema, nextId, series, provider, chapters, now) ==>
      id in q || nextId <= id < nextId + |chapters|
    decreases |chapters|
  {
    if |chapters| > 0 {
      var q1 := q[nextId := NewRow(schema, series, provider, chapters[0], now)];
      AddChaptersStep(q, schema, nextId, series, provider, chapters, now);
      AddChaptersInOrder(q1, schema, nextId + 1, series, provider, chapters[1..], now);
      var r := AddChapters(q1, schema, nextId + 1, series, provider, chapters[1..], now);
      assert nextId in q1;
      RowsInOrderCons(r, schema, nextId, series, provider, chapters, now);
    }
  }

  /** One insertion that no constraint drops. */
  lemma AddChaptersStep(q: Queue, schema: Schema, nextId: int, series: string,
                        provider: string, chapters: seq<ChapterRef>, now: int)
    requires forall id :: id in q ==> id < nextId
    requires |chapters| > 0
    requires !schema.ignores(q, NewRow(schema, series, provider, chapters[0], now))
    ensures AddChapters(q, schema, nextId, series, provider, chapters, now)
      == AddChapters(q[nextId := NewRow(schema, series, provider, chapters[0], now)], schema, nextId + 1,
                     series, provider, chapters[1..], now)
  {
  }

  lemma RowsInOrderCons(r: Queue, schema: Schema, nextId: int, series: string, provider: string,
                        chapters: seq<ChapterRef>, now: int)
    requires |chapters| > 0
    requires RowsInOrder(r, schema, nextId + 1, series, provider, chapters[1..], now)
    requires nextId in r && r[nextId] == NewRow(schema, series, provider, chapters[0], now)
    ensures RowsInOrder(r, schema, nextId, series, provider, chapters, now)
  {
    forall id | nextId < id < nextId + |chapters|
      ensures r[id] == NewRow(schema, series, provider, chapters[id - nextId], now)
    {
      assert chapters[1..][id - (nextId + 1)] == chapters[id - nextId];
    }
  }
}
