/** The subscription checker of internal/subscription/service.go: which of a
    provider's chapters are queued for a subscribed series, and the
    last-checked time it records. The provider's chapter list (a network
    fetch) and the clock are inputs; times are instants on one integer scale. */
module SubscriptionService {
  import opened Results
  import opened DownloadQueue
  import opened Sorting
  import Providers

  /** A `subscriptions` row (the id is the map key). */
  datatype Subscription = Subscription(
    seriesTitle: string,
    seriesIdentifier: string,
    providerId: string,
    createdAt: int,
    lastCheckedAt: Option<int>)

  /** A chapter as the provider lists it (`models.ChapterResult`). */
  datatype RemoteChapter = RemoteChapter(identifier: string, title: string, publishedAt: int)

  /** The tables the check reads and writes. */
  datatype World = World(subs: map<int, Subscription>, queue: Queue)

  /** The instant new chapters must be published after: the last check, or
      the subscription's creation when it was never checked. */
  function Since(sub: Subscription): int {
    if sub.lastCheckedAt.Some? then sub.lastCheckedAt.value else sub.createdAt
  }

  /** A remote chapter is new when it is not queued and was published
      strictly after `since` (`time.Time.After`). */
  predicate IsNew(c: RemoteChapter, queued: set<string>, since: int) {
    c.identifier !in queued && c.publishedAt > since
  }

  /** The filter loop: the new chapters, in the provider's order. */
  function NewChapters(remote: seq<RemoteChapter>, queued: set<string>, since: int): (r: seq<RemoteChapter>)
    ensures forall c :: c in r <==> c in remote && IsNew(c, queued, since)
    ensures |r| <= |remote|
  {
    if |remote| == 0 then []
    else
      var rest := NewChapters(remote[1..], queued, since);
      assert forall c :: c in remote <==> c == remote[0] || c in remote[1..];
      if IsNew(remote[0], queued, since) then [remote[0]] + rest else rest
  }

  /** Filtering a list in two pieces gives the two filtered pieces in order:
      the queued chapters keep the provider's order. */
  lemma {:induction false} NewChaptersKeepOrder(a: seq<RemoteChapter>, b: seq<RemoteChapter>, queued: set<string>, since: int)
    ensures NewChapters(a + b, queued, since) == NewChapters(a, queued, since) + NewChapters(b, queued, since)
    decreases |a|
  {
    if |a| == 0 {
      assert a + b == b;
    } else {
      assert (a + b)[0] == a[0];
      assert (a + b)[1..] == a[1..] + b;
      NewChaptersKeepOrder(a[1..], b, queued, since);
    }
  }

  /** The `existingSet` map built from the queued identifiers. */
  function ToSet(ids: seq<string>): (r: set<string>)
    ensures forall c :: c in r <==> c in ids
  {
    set c | c in ids
  }

  /** The rows `AddChaptersToQueue` receives. */
  function Refs(cs: seq<RemoteChapter>): (r: seq<ChapterRef>)
    ensures |r| == |cs|
    ensures forall i :: 0 <= i < |cs| ==> r[i] == ChapterRef(cs[i].identifier, cs[i].title)
  {
    seq(|cs|, i requires 0 <= i < |cs| => ChapterRef(cs[i].identifier, cs[i].title))
  }

  /** `CheckSingleSubscription(subId)`. `remote` is what the provider's
      `GetChapters` answered, `rows` the queue's row order for the identifier
      query, and `nextId` the first row id a new queue row can receive. */
  function CheckSingleSubscription(w: World, subId: int, reg: Providers.Registry,
                                   remote: Result<seq<RemoteChapter>>, rows: seq<int>,
                                   schema: Schema, nextId: int, now: int): (r: World)
    requires Enumerates(rows, w.queue.Keys)
    requires forall id :: id in w.queue ==> id < nextId
    ensures subId !in w.subs ==> r == w
    ensures subId in w.subs && w.subs[subId].providerId !in reg ==> r == w
    ensures remote.Err? ==> r == w
    ensures subId in w.subs && w.subs[subId].providerId in reg && remote.Ok? ==>
      var sub := w.subs[subId];
      var queued := SeriesIdentifiers(w.queue, sub.seriesTitle, sub.providerId);
      r.subs == w.subs[subId := sub.(lastCheckedAt := Some(now))]
      && (NewChapters(remote.value, queued, Since(sub)) == [] ==> r.queue == w.queue)
      && (forall id :: id in w.queue ==> id in r.queue && r.queue[id] == w.queue[id])
      && (forall id :: id in r.queue && id !in w.queue ==>
            r.queue[id].seriesTitle == sub.seriesTitle && r.queue[id].providerId == sub.providerId
            && r.queue[id].chapterIdentifier !in queued
            && exists c :: c in remote.value && IsNew(c, queued, Since(sub))
                           && c.identifier == r.queue[id].chapterIdentifier)
    ensures subId in w.subs && w.subs[subId].providerId in reg && remote.Ok?
            && (forall qq, it :: !schema.ignores(qq, it)) ==>
      var sub := w.subs[subId];
      var news := NewChapters(remote.value, SeriesIdentifiers(w.queue, sub.seriesTitle, sub.providerId), Since(sub));
      |r.queue| == |w.queue| + |news|
      && forall c :: c in news ==> Queued(w.queue, r.queue, schema, sub, c, now)
  {
    if subId !in w.subs then w
    else
      var sub := w.subs[subId];
      if Providers.Get(reg, sub.providerId).None? then w
      else if remote.Err? then w
      else
        var queued := IdentifiersInQueue(w.queue, rows, sub.seriesTitle, sub.providerId);
        var news := NewChapters(remote.value, ToSet(queued), Since(sub));
        var queue := if |news| > 0
          then AddChapters(w.queue, schema, nextId, sub.seriesTitle, sub.providerId, Refs(news), now)
          else w.queue;
        NewRowsAreFresh(w.queue, queue, schema, nextId, sub, remote.value, queued, news, now);
        NewChaptersQueued(w.queue, queue, schema, nextId, sub, news, now);
        World(w.subs[subId := sub.(lastCheckedAt := Some(now))], queue)
  }

  /** `queue` holds a row added to `q` for the chapter `c` of the
      subscription's series. */
  ghost predicate Queued(q: Queue, queue: Queue, schema: Schema, sub: Subscription, c: RemoteChapter, now: int) {
    exists id :: id in queue && id !in q
      && queue[id] == NewRow(schema, sub.seriesTitle, sub.providerId, ChapterRef(c.identifier, c.title), now)
  }

  /** Every new chapter is queued, as the row `AddChaptersToQueue` inserts
      for it, when no constraint drops a row. */
  lemma NewChaptersQueued(q: Queue, queue: Queue, schema: Schema, nextId: int, sub: Subscription,
                          news: seq<RemoteChapter>, now: int)
    requires forall id :: id in q ==> id < nextId
    requires queue == if |news| > 0
      then AddChapters(q, schema, nextId, sub.seriesTitle, sub.providerId, Refs(news), now) else q
    ensures (forall qq, it :: !schema.ignores(qq, it)) ==> |queue| == |q| + |news|
    ensures (forall qq, it :: !schema.ignores(qq, it)) ==> forall c :: c in news ==> Queued(q, queue, schema, sub, c, now)
  {
    if forall qq, it :: !schema.ignores(qq, it) {
      NewChaptersQueuedAll(q, queue, schema, nextId, sub, news, now);
    }
  }

  lemma NewChaptersQueuedAll(q: Queue, queue: Queue, schema: Schema, nextId: int, sub: Subscription,
                             news: seq<RemoteChapter>, now: int)
    requires forall id :: id in q ==> id < nextId
    requires forall qq, it :: !schema.ignores(qq, it)
    requires queue == if |news| > 0
      then AddChapters(q, schema, nextId, sub.seriesTitle, sub.providerId, Refs(news), now) else q
    ensures |queue| == |q| + |news|
    ensures forall c :: c in news ==> Queued(q, queue, schema, sub, c, now)
  {
    if |news| > 0 {
      var refs := Refs(news);
      AddChaptersInOrder(q, schema, nextId, sub.seriesTitle, sub.providerId, refs, now);
      forall c | c in news
        ensures Queued(q, queue, schema, sub, c, now)
      {
        var k :| 0 <= k < |news| && news[k] == c;
        QueuedAt(q, queue, schema, nextId, sub, news, now, k);
      }
    }
  }

  /** The row at `nextId + k` is the `k`-th new chapter's. */
  lemma QueuedAt(q: Queue, queue: Queue, schema: Schema, nextId: int, sub: Subscription,
                 news: seq<RemoteChapter>, now: int, k: int)
    requires forall id :: id in q ==> id < nextId
    requires RowsInOrder(queue, schema, nextId, sub.seriesTitle, sub.providerId, Refs(news), now)
    requires 0 <= k < |news|
    ensures Queued(q, queue, schema, sub, news[k], now)
  {
    var id := nextId + k;
    assert Refs(news)[id - nextId] == ChapterRef(news[k].identifier, news[k].title);
    assert id in queue && id !in q;
  }

  /** Every row the check adds names one of the new chapters. */
  lemma NewRowsAreFresh(q: Queue, queue: Queue, schema: Schema, nextId: int, sub: Subscription,
                        remote: seq<RemoteChapter>, queued: seq<string>, news: seq<RemoteChapter>, now: int)
    requires forall id :: id in q ==> id < nextId
    requires forall c :: c in queued <==> c in SeriesIdentifiers(q, sub.seriesTitle, sub.providerId)
    requires news == NewChapters(remote, ToSet(queued), Since(sub))
    requires queue == if |news| > 0
      then AddChapters(q, schema, nextId, sub.seriesTitle, sub.providerId, Refs(news), now) else q
    ensures (ToSet(queued)) == SeriesIdentifiers(q, sub.seriesTitle, sub.providerId)
    ensures forall id :: id in queue && id !in q ==>
      queue[id].seriesTitle == sub.seriesTitle && queue[id].providerId == sub.providerId
      && queue[id].chapterIdentifier !in SeriesIdentifiers(q, sub.seriesTitle, sub.providerId)
      && exists c :: c in remote && IsNew(c, SeriesIdentifiers(q, sub.seriesTitle, sub.providerId), Since(sub))
                     && c.identifier == queue[id].chapterIdentifier
  {
    var queuedSet := ToSet(queued);
    assert queuedSet == SeriesIdentifiers(q, sub.seriesTitle, sub.providerId);
    forall id | id in queue && id !in q
      ensures queue[id].chapterIdentifier !in queuedSet
      ensures exists c :: c in remote && IsNew(c, queuedSet, Since(sub)) && c.identifier == queue[id].chapterIdentifier
    {
      var ref :| ref in Refs(news) && queue[id].chapterIdentifier == ref.identifier && queue[id].chapterTitle == ref.title;
      RefOfNewChapter(remote, queuedSet, Since(sub), news, ref);
    }
  }

  /** A reference made from a new chapter names a chapter of the listing that
      is new. */
  lemma RefOfNewChapter(remote: seq<RemoteChapter>, queued: set<string>, since: int,
                        news: seq<RemoteChapter>, ref: ChapterRef)
    requires news == NewChapters(remote, queued, since)
    requires ref in Refs(news)
    ensures ref.identifier !in queued
    ensures exists c :: c in remote && IsNew(c, queued, since) && c.identifier == ref.identifier
  {
    var refs := Refs(news);
    var k :| 0 <= k < |refs| && refs[k] == ref;
    assert news[k] in news;
  }

  /** The scenario of the service's test: subscribed an hour ago, the provider
      lists a chapter from two hours ago and one from an hour ahead, and
      nothing is queued: only the second is queued, and the check is recorded. */
  lemma OnlyLaterChapterQueued(reg: Providers.Registry, schema: Schema, now: int, title1: string, title2: string)
    requires "mocksub" in reg
    requires forall qq, it :: !schema.ignores(qq, it)
    ensures var sub := Subscription("Test Sub", "test-id", "mocksub", now - 3600, None);
      var remote := [RemoteChapter("ch1", title1, now - 7200), RemoteChapter("ch2", title2, now + 3600)];
      var r := CheckSingleSubscription(World(map[1 := sub], map[]), 1, reg, Ok(remote), [], schema, 1, now);
      r.queue.Keys == {1} && r.queue[1].chapterIdentifier == "ch2"
      && r.subs[1].lastCheckedAt == Some(now)
  {
    var sub := Subscription("Test Sub", "test-id", "mocksub", now - 3600, None);
    var remote := [RemoteChapter("ch1", title1, now - 7200), RemoteChapter("ch2", title2, now + 3600)];
    var w := World(map[1 := sub], map[]);
    ScenarioInputs(sub, remote, now, title1, title2);
    CheckWithNews(w, 1, reg, remote, [], schema, 1, now, [remote[1]]);
    AddOneChapter(map[], schema, 1, sub.seriesTitle, sub.providerId, ChapterRef("ch2", title2), now);
  }

  /** In that scenario nothing is queued yet and only the later chapter is new. */
  lemma ScenarioInputs(sub: Subscription, remote: seq<RemoteChapter>, now: int, title1: string, title2: string)
    requires sub == Subscription("Test Sub", "test-id", "mocksub", now - 3600, None)
    requires remote == [RemoteChapter("ch1", title1, now - 7200), RemoteChapter("ch2", title2, now + 3600)]
    ensures NewChapters(remote, ToSet(IdentifiersInQueue(map[], [], sub.seriesTitle, sub.providerId)), Since(sub))
      == [remote[1]]
    ensures Refs([remote[1]]) == [ChapterRef("ch2", title2)]
  {
    ScenarioNews(remote, now, title1, title2);
    assert IdentifiersInQueue(map[], [], sub.seriesTitle, sub.providerId) == [];
    assert ToSet([]) == {};
  }

  /** A check of a known subscription whose provider is registered and listed
      new chapters: the check time is recorded and the new chapters are
      handed to `AddChaptersToQueue`. */
  lemma CheckWithNews(w: World, subId: int, reg: Providers.Registry, remote: seq<RemoteChapter>,
                      rows: seq<int>, schema: Schema, nextId: int, now: int, news: seq<RemoteChapter>)
    requires Enumerates(rows, w.queue.Keys)
    requires forall id :: id in w.queue ==> id < nextId
    requires subId in w.subs && w.subs[subId].providerId in reg
    requires news == NewChapters(remote, ToSet(IdentifiersInQueue(w.queue, rows, w.subs[subId].seriesTitle,
                                                                  w.subs[subId].providerId)), Since(w.subs[subId]))
    requires |news| > 0
    ensures var sub := w.subs[subId];
      CheckSingleSubscription(w, subId, reg, Ok(remote), rows, schema, nextId, now)
      == World(w.subs[subId := sub.(lastCheckedAt := Some(now))],
               AddChapters(w.queue, schema, nextId, sub.seriesTitle, sub.providerId, Refs(news), now))
  {
  }

  /** Of the two listed chapters only the later one is new. */
  lemma ScenarioNews(remote: seq<RemoteChapter>, now: int, title1: string, title2: string)
    requires remote == [RemoteChapter("ch1", title1, now - 7200), RemoteChapter("ch2", title2, now + 3600)]
    ensures NewChapters(remote, {}, now - 3600) == [remote[1]]
  {
    var tail := remote[1..];
    assert tail == [remote[1]] && tail[1..] == [];
    assert NewChapters(tail[1..], {}, now - 3600) == [];
    assert NewChapters(tail, {}, now - 3600) == [remote[1]];
  }

  /** Queuing one chapter that the schema does not ignore adds one row under
      the next id. */
  lemma AddOneChapter(q: Queue, schema: Schema, nextId: int, series: string, provider: string,
                      ref: ChapterRef, now: int)
    requires forall id :: id in q ==> id < nextId
    requires !schema.ignores(q, Item(series, ref.title, ref.identifier, provider, schema.defaultStatus,
                                     schema.defaultProgress, schema.defaultMessage, now))
    ensures AddChapters(q, schema, nextId, series, provider, [ref], now)
      == q[nextId := Item(series, ref.title, ref.identifier, provider, schema.defaultStatus,
                          schema.defaultProgress, schema.defaultMessage, now)]
  {
    assert [ref][1..] == [];
  }
}
