/** The download API's decisions (internal/api/downloader_handlers.go): which
    queue action a request names, how a queuing request is validated, and the
    unknown-provider answer. JSON decoding is reduced to "the body was
    malformed" or the decoded value; the HTTP writer to a status code and the
    message or body text. */
module QueueActions {
  import opened Results
  import opened Sorting
  import opened DownloadQueue
  import opened Downloader
  import Providers
  import Strconv

  datatype Response = Response(code: int, text: string)

  const OK := 200
  const Accepted := 202
  const BadRequest := 400
  const NotFound := 404
  const InternalError := 500

  datatype ActionRequest = MalformedAction | ActionBody(action: string)

  /** The four action names the switch accepts. */
  predicate Routed(action: string) {
    action == "pause_all" || action == "resume_all" || action == "retry_failed"
    || action == "delete_completed"
  }

  /** `handleQueueAction`: an unknown action, `empty_queue` included, is a
      400 and changes nothing; store errors are not checked. */
  function HandleQueueAction(e: Engine, req: ActionRequest): (r: (Engine, Response))
    ensures r.1.code == OK <==> req.ActionBody? && Routed(req.action)
    ensures r.1.code != OK ==> r.0 == e && r.1.code == BadRequest
    ensures req.MalformedAction? ==> r.1.text == "Invalid request payload"
    ensures req.ActionBody? && !Routed(req.action) ==> r.1.text == "Invalid action"
    ensures r.0.buffer == e.buffer && r.0.worker == e.worker
    ensures req == ActionBody("pause_all") ==>
      r.0.paused && r.0.queue.Keys == e.queue.Keys && WithStatus(r.0.queue, {Queued, InProgress}) == {}
    ensures req == ActionBody("resume_all") ==>
      !r.0.paused && r.0.queue.Keys == e.queue.Keys && WithStatus(r.0.queue, {Paused}) == {}
    ensures req == ActionBody("retry_failed") ==>
      r.0.paused == e.paused && r.0.queue.Keys == e.queue.Keys && WithStatus(r.0.queue, {Failed}) == {}
    ensures req == ActionBody("delete_completed") ==>
      r.0.paused == e.paused && r.0.queue.Keys == e.queue.Keys - WithStatus(e.queue, {Completed})
    ensures r.1.code == OK ==> r.1.text == "success"
    ensures req == ActionBody("pause_all") ==> r.0 == e.(paused := true, queue := PauseAll(e.queue))
    ensures req == ActionBody("resume_all") ==> r.0 == e.(paused := false, queue := ResumeAll(e.queue))
    ensures req == ActionBody("retry_failed") ==> r.0 == e.(queue := ResetFailed(e.queue))
    ensures req == ActionBody("delete_completed") ==> r.0 == e.(queue := DeleteCompleted(e.queue))
  {
    match req
    case MalformedAction => (e, Response(BadRequest, "Invalid request payload"))
    case ActionBody(action) =>
      if action == "pause_all" then
        (PauseDownloads(e).(queue := PauseAll(e.queue)), Response(OK, "success"))
      else if action == "resume_all" then
        (ResumeDownloads(e).(queue := ResumeAll(e.queue)), Response(OK, "success"))
      else if action == "retry_failed" then
        (e.(queue := ResetFailed(e.queue)), Response(OK, "success"))
      else if action == "delete_completed" then
        (e.(queue := DeleteCompleted(e.queue)), Response(OK, "success"))
      else (e, Response(BadRequest, "Invalid action"))
  }

  /** `pause_all` followed by `resume_all` unpauses the engine and leaves every
      row that was waiting, running or paused queued again, with its chapter
      and progress; completed and failed rows are untouched. */
  lemma PauseThenResumeRequeues(e: Engine)
    ensures var p := HandleQueueAction(HandleQueueAction(e, ActionBody("pause_all")).0, ActionBody("resume_all")).0;
      && !p.paused && p.queue.Keys == e.queue.Keys
      && WithStatus(p.queue, {Queued}) == WithStatus(e.queue, {Queued, InProgress, Paused})
      && (forall id :: id in e.queue ==>
            SameChapter(e.queue[id], p.queue[id]) && p.queue[id].progress == e.queue[id].progress)
      && (forall id :: id in e.queue && e.queue[id].status in {Completed, Failed} ==> p.queue[id] == e.queue[id])
  {
    var q1 := PauseAll(e.queue);
    var q2 := ResumeAll(q1);
    assert HandleQueueAction(e, ActionBody("pause_all")).0.queue == q1;
    forall id | id in e.queue
      ensures SameChapter(e.queue[id], q2[id]) && q2[id].progress == e.queue[id].progress
    {
      assert id in q1;
    }
  }

  /** The web client's "empty queue" button posts an action the router does
      not know. */
  lemma EmptyQueueActionRejected(e: Engine)
    ensures HandleQueueAction(e, ActionBody("empty_queue")) == (e, Response(BadRequest, "Invalid action"))
  {
  }

  /** `pause_all` stops the feeder as well as pausing the rows, and
      `resume_all` restarts it: the feeder's first tick after a resume fetches
      the oldest queued row if the channel is empty. */
  lemma PauseAllStopsFeeder(e: Engine, rows: seq<int>)
    requires Enumerates(rows, e.queue.Keys)
    ensures var p := HandleQueueAction(e, ActionBody("pause_all")).0;
      Enumerates(rows, p.queue.Keys) && FeederTick(p, rows, 1) == p
    ensures var p := HandleQueueAction(e, ActionBody("pause_all")).0;
      var s := HandleQueueAction(p, ActionBody("resume_all")).0;
      Enumerates(rows, s.queue.Keys) && !s.paused
      && (|e.buffer| == 0 ==> FeederTick(s, rows, 1).buffer == Snapshot(s.queue, QueuedItems(s.queue, rows, 1)))
  {
  }

  /** A job already in the channel when `pause_all` arrives is still taken and
      marked in progress, although its row was paused. */
  lemma {:induction false} PauseAllMissesBufferedJob(e: Engine, providers: set<string>, n: nat)
    requires e.worker.Idle? && |e.buffer| > 0 && n > 0
    requires e.buffer[0].id in e.queue && e.queue[e.buffer[0].id].status == Queued
    requires e.buffer[0].item.providerId in providers
    ensures var p := HandleQueueAction(e, ActionBody("pause_all")).0;
      p.queue[e.buffer[0].id].status == Paused
      && Receive(p, providers, Ok(n)).queue[e.buffer[0].id].status == InProgress
  {
    var p := HandleQueueAction(e, ActionBody("pause_all")).0;
    assert p.queue[e.buffer[0].id].status == Paused;
    BufferedJobIgnoresPause(p, providers, n);
  }

  // ---------------------------------------------------------------------------
  // Queuing chapters
  // ---------------------------------------------------------------------------

  datatype AddRequest = MalformedAdd | AddBody(seriesTitle: string, providerId: string, chapters: seq<ChapterRef>)

  function AddedMessage(n: nat): string {
    Strconv.Itoa(n) + " chapters have been added to the download queue."
  }

  /** `handleAddChaptersToQueue`: the payload is checked before any write;
      `storeFails` is whether `AddChaptersToQueue` returned an error. The
      provider id is not checked against the registry. */
  function HandleAddChapters(q: Queue, schema: Schema, nextId: int, req: AddRequest,
                             storeFails: bool, now: int): (r: (Queue, Response))
    requires forall id :: id in q ==> id < nextId
    ensures req.MalformedAdd? ==> r == (q, Response(BadRequest, "Invalid request payload"))
    ensures req.AddBody? && |req.chapters| == 0 ==> r == (q, Response(BadRequest, "No chapters provided to queue"))
    ensures r.1.code == Accepted <==> req.AddBody? && |req.chapters| > 0 && !storeFails
    ensures r.1.code == Accepted ==>
      r.1.text == AddedMessage(|req.chapters|)
      && (forall id :: id in q ==> id in r.0 && r.0[id] == q[id])
      && |r.0| <= |q| + |req.chapters|
    ensures req.AddBody? && r.1.code == Accepted ==>
      r.0 == AddChapters(q, schema, nextId, req.seriesTitle, req.providerId, req.chapters, now)
      && ((forall qq, it :: !schema.ignores(qq, it)) ==> |r.0| == |q| + |req.chapters|)
    ensures r.1.code == InternalError ==> r.0 == q
  {
    match req
    case MalformedAdd => (q, Response(BadRequest, "Invalid request payload"))
    case AddBody(series, provider, chapters) =>
      if |chapters| == 0 then (q, Response(BadRequest, "No chapters provided to queue"))
      else if storeFails then (q, Response(InternalError, "Failed to add chapters to download queue"))
      else (AddChapters(q, schema, nextId, series, provider, chapters, now),
            Response(Accepted, AddedMessage(|chapters|)))
  }

  // ---------------------------------------------------------------------------
  // Provider search and chapter listing
  // ---------------------------------------------------------------------------

  datatype ProviderCall = Search | ChapterList

  /** `handleProviderSearch` and `handleProviderGetChapters`: an unknown
      provider id is a 404 before the provider is called; `result` is what
      the provider's `Search` or `GetChapters` returned (its body text on
      success). */
  function HandleProviderCall(reg: Providers.Registry, providerId: string, call: ProviderCall,
                              result: Result<string>): (r: Response)
    ensures r.code == NotFound <==> providerId !in reg
    ensures r.code == OK <==> providerId in reg && result.Ok?
    ensures r.code == OK ==> r.text == result.value
    ensures providerId in reg && result.Err? ==>
      r == Response(InternalError, if call == Search then "Failed to perform search" else "Failed to get chapters")
  {
    match Providers.Get(reg, providerId)
    case None => Response(NotFound, "Provider not found")
    case Some(_) =>
      match result
      case Err(_) =>
        Response(InternalError, if call == Search then "Failed to perform search" else "Failed to get chapters")
      case Ok(body) => Response(OK, body)
  }
}
