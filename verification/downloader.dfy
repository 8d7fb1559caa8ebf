/** The download engine of internal/downloader/worker.go: a global pause flag,
    a one-slot channel filled by a feeder loop, and one worker that downloads a
    chapter page by page. Goroutines are modelled as atomic steps on an
    `Engine` value; the environment (provider registry, page list, network,
    disk) is passed in as the outcome each step observes. */
module Downloader {
  import opened Results
  import opened Strings
  import opened Sorting
  import opened DownloadQueue
  import Paths
  import PathValidation

  /** `numWorkers = int(math.Min(1, float64(runtime.NumCPU())))` */
  function NumWorkers(numCpu: int): (n: int)
    requires numCpu >= 1
    ensures n == 1
  {
    if numCpu < 1 then numCpu else 1
  }

  /** The channel's element: the row as the feeder read it. */
  datatype Job = Job(id: int, item: Item)

  /** The worker goroutine: waiting on the channel, or inside `processDownload`
      having stored `done` of `total` pages. */
  datatype Worker = Idle | Downloading(job: Job, total: nat, done: nat)

  datatype Engine = Engine(
    queue: Queue,
    paused: bool,        // `isPaused`
    buffer: seq<Job>,    // `jobQueue`, capacity numWorkers
    worker: Worker,
    syncRuns: nat)       // library-sync jobs requested after completed downloads

  /** How a network or disk action ended. */
  datatype Outcome = Succeeded | FailedWith(reason: string)

  const MsgStarting := "Starting download..."
  const MsgFinished := "Download finished successfully."
  const FailedPrefix := "Download failed: "

  // ---------------------------------------------------------------------------
  // Global pause flag
  // ---------------------------------------------------------------------------

  /** `PauseDownloads` */
  function PauseDownloads(e: Engine): (r: Engine)
    ensures IsPaused(r)
    ensures r == e.(paused := true)
  {
    e.(paused := true)
  }

  /** `ResumeDownloads` */
  function ResumeDownloads(e: Engine): (r: Engine)
    ensures !IsPaused(r)
    ensures r == e.(paused := false)
  {
    e.(paused := false)
  }

  /** `IsPaused` */
  predicate IsPaused(e: Engine) { e.paused }

  // ---------------------------------------------------------------------------
  // Startup and feeder
  // ---------------------------------------------------------------------------

  /** `StartWorkerPool`: in-progress rows are re-queued before any worker runs. */
  function Start(q: Queue): (e: Engine)
    ensures WithStatus(e.queue, {InProgress}) == {}
    ensures e.queue.Keys == q.Keys
    ensures !e.paused && e.buffer == [] && e.worker == Idle
  {
    Engine(ResetInProgress(q), false, [], Idle, 0)
  }

  /** One pass of the feeder loop: only when not paused and the channel is
      empty, fetch up to `numWorkers` queued rows, oldest first, and send them. */
  function FeederTick(e: Engine, rows: seq<int>, numCpu: int): (r: Engine)
    requires Enumerates(rows, e.queue.Keys) && numCpu >= 1
    ensures e.paused || |e.buffer| > 0 ==> r == e
    ensures r.queue == e.queue && r.paused == e.paused && r.worker == e.worker
    ensures !e.paused && |e.buffer| == 0 ==>
      |r.buffer| <= 1
      && (forall j :: j in r.buffer ==> j.id in e.queue && j.item == e.queue[j.id] && j.item.status == Queued)
      && (|r.buffer| == 0 <==> WithStatus(e.queue, {Queued}) == {})
    ensures !e.paused && |e.buffer| == 0 ==>
      r.buffer == Snapshot(e.queue, QueuedItems(e.queue, rows, 1))
      && forall id :: id in WithStatus(e.queue, {Queued}) && |r.buffer| == 1 ==>
           r.buffer[0].item.createdAt <= e.queue[id].createdAt
  {
    if e.paused || |e.buffer| > 0 then e
    else
      var ids := QueuedItems(e.queue, rows, NumWorkers(numCpu));
      var jobs := Snapshot(e.queue, ids);
      NothingFetchedOnlyWhenNoneQueued(e.queue, ids);
      assert |jobs| == 1 ==> jobs[0] in jobs;
      e.(buffer := jobs)
  }

  /** The rows the feeder sends, as it read them. */
  function Snapshot(q: Queue, ids: seq<int>): (jobs: seq<Job>)
    requires forall i :: 0 <= i < |ids| ==> ids[i] in q
    ensures |jobs| == |ids|
    ensures forall j :: j in jobs ==> j.id in q && j.item == q[j.id] && j.id in ids
  {
    if |ids| == 0 then [] else [Job(ids[0], q[ids[0]])] + Snapshot(q, ids[1..])
  }

  lemma NothingFetchedOnlyWhenNoneQueued(q: Queue, ids: seq<int>)
    requires forall i :: 0 <= i < |ids| ==> ids[i] in q && q[ids[i]].status == Queued
    requires |ids| < 1 ==> forall id :: id in WithStatus(q, {Queued}) ==> id in ids
    ensures |ids| == 0 <==> WithStatus(q, {Queued}) == {}
  {
    if |ids| > 0 {
      assert ids[0] in WithStatus(q, {Queued});
    } else {
      assert forall id :: id !in WithStatus(q, {Queued});
    }
  }

  // ---------------------------------------------------------------------------
  // Worker
  // ---------------------------------------------------------------------------

  /** Ends the current download with `failed` and "Download failed: <err>". */
  function Fail(e: Engine, id: int, reason: string): (r: Engine)
    ensures r.worker == Idle && r.queue.Keys == e.queue.Keys
    ensures forall k :: k in e.queue && k != id ==> r.queue[k] == e.queue[k]
    ensures id in e.queue ==> r.queue[id].status == Failed && r.queue[id].message == FailedPrefix + reason
  {
    e.(queue := UpdateStatus(e.queue, id, Failed, FailedPrefix + reason), worker := Idle)
  }

  /** The worker takes the next job from the channel, marks it in progress and
      starts `processDownload`: an unknown provider, a failed page listing or
      an empty page list fails the job at once. `pageCount` is what the
      provider's `GetPageURLs` returned. */
  function Receive(e: Engine, providers: set<string>, pageCount: Result<nat>): (r: Engine)
    ensures !(e.worker.Idle? && |e.buffer| > 0) ==> r == e
    ensures e.worker.Idle? && |e.buffer| > 0 ==>
      var job := e.buffer[0];
      r.buffer == e.buffer[1..] && r.paused == e.paused && r.queue.Keys == e.queue.Keys
      && (forall k :: k in e.queue && k != job.id ==> r.queue[k] == e.queue[k])
      && (job.id in e.queue ==>
           if job.item.providerId in providers && pageCount.Ok? && pageCount.value > 0
           then r.queue[job.id].status == InProgress && r.worker == Downloading(job, pageCount.value, 0)
           else r.queue[job.id].status == Failed && HasPrefix(r.queue[job.id].message, FailedPrefix)
                && r.worker == Idle)
  {
    if !(e.worker.Idle? && |e.buffer| > 0) then e
    else
      var job := e.buffer[0];
      var e1 := e.(queue := UpdateStatus(e.queue, job.id, InProgress, MsgStarting), buffer := e.buffer[1..]);
      if job.item.providerId !in providers then
        Fail(e1, job.id, "provider '" + job.item.providerId + "' not found")
      else if pageCount.Err? then
        Fail(e1, job.id, "could not get page URLs: " + pageCount.error)
      else if pageCount.value == 0 then
        Fail(e1, job.id, "no pages found for chapter")
      else
        e1.(worker := Downloading(job, pageCount.value, 0))
  }

  /** Progress after `done` of `total` pages, as a whole percentage: the
      largest whole number of percent not above the exact share. */
  function Percent(done: nat, total: nat): (r: int)
    requires 0 < done <= total
    ensures 0 <= r <= 100
    ensures r * total <= done * 100 < (r + 1) * total
    ensures r == 100 <==> done == total
  {
    PercentBounds(done, total);
    done * 100 / total
  }

  lemma PercentBounds(done: nat, total: nat)
    requires 0 < done <= total
    ensures var q := done * 100 / total;
      0 <= q <= 100 && q * total <= done * 100 < (q + 1) * total && (q == 100 <==> done == total)
  {
    var n := done * 100;
    var q := n / total;
    assert n == q * total + n % total && 0 <= n % total < total;
    assert (q + 1) * total == q * total + total;
    if q > 100 {
      assert q * total >= 101 * total by { MulAtLeast(q, 101, total); }
    }
    if q == 100 {
      assert 100 * total <= n;
    }
    if done == total {
      if q < 100 {
        MulAtLeast(100, q + 1, total);
      }
    }
  }

  /** `a >= b` scales by a positive factor. */
  lemma MulAtLeast(a: int, b: int, c: nat)
    requires a >= b
    ensures a * c >= b * c
  {
  }

  /** The item was paused by the API since the worker last looked. */
  predicate PausedNow(q: Queue, id: int) {
    id in q && q[id].status == Paused
  }

  /** One iteration of the page loop: the cooperative pause checkpoint re-reads
      the row, and a paused row ends the download before the page is fetched,
      leaving the status alone; otherwise the page fetch `fetch` either fails
      the job or raises the progress. */
  function Page(e: Engine, fetch: Outcome): (r: Engine)
    ensures !(e.worker.Downloading? && e.worker.done < e.worker.total) ==> r == e
    ensures e.worker.Downloading? && e.worker.done < e.worker.total ==>
      var w := e.worker;
      r.buffer == e.buffer && r.paused == e.paused && r.queue.Keys == e.queue.Keys
      && (forall k :: k in e.queue && k != w.job.id ==> r.queue[k] == e.queue[k])
      && (PausedNow(e.queue, w.job.id) ==> r.queue == e.queue && r.worker == Idle)
      && (!PausedNow(e.queue, w.job.id) && fetch.FailedWith? ==>
           r.worker == Idle && (w.job.id in e.queue ==> r.queue[w.job.id].status == Failed))
      && (!PausedNow(e.queue, w.job.id) && fetch.Succeeded? ==>
           r.worker == Downloading(w.job, w.total, w.done + 1)
           && (w.job.id in e.queue ==>
                 r.queue[w.job.id].progress == Percent(w.done + 1, w.total)
                 && r.queue[w.job.id].status == e.queue[w.job.id].status))
  {
    if !(e.worker.Downloading? && e.worker.done < e.worker.total) then e
    else
      var w := e.worker;
      if PausedNow(e.queue, w.job.id) then e.(worker := Idle)
      else
        match fetch
        case FailedWith(reason) => Fail(e, w.job.id, reason)
        case Succeeded =>
          e.(queue := UpdateProgress(e.queue, w.job.id, Percent(w.done + 1, w.total)),
             worker := Downloading(w.job, w.total, w.done + 1))
  }

  /** After the last page: the archive is written (`save`), then the row becomes
      `completed` and a library sync is requested, or it becomes `failed`.
      There is no checkpoint here, so a pause that arrives after the last page
      is overwritten. */
  function Finish(e: Engine, save: Outcome): (r: Engine)
    ensures !(e.worker.Downloading? && e.worker.done == e.worker.total) ==> r == e
    ensures e.worker.Downloading? && e.worker.done == e.worker.total ==>
      var id := e.worker.job.id;
      r.worker == Idle && r.buffer == e.buffer && r.queue.Keys == e.queue.Keys
      && (forall k :: k in e.queue && k != id ==> r.queue[k] == e.queue[k])
      && (id in e.queue ==> r.queue[id].status == (if save.Succeeded? then Completed else Failed))
      && r.syncRuns == e.syncRuns + (if save.Succeeded? then 1 else 0)
  {
    if !(e.worker.Downloading? && e.worker.done == e.worker.total) then e
    else
      var id := e.worker.job.id;
      match save
      case FailedWith(reason) => Fail(e, id, reason)
      case Succeeded =>
        e.(queue := UpdateStatus(e.queue, id, Completed, MsgFinished), worker := Idle,
           syncRuns := e.syncRuns + 1)
  }

  /** The page loop run over a sequence of fetch outcomes. */
  function Pages(e: Engine, fetches: seq<Outcome>): (r: Engine)
    ensures r.queue.Keys == e.queue.Keys
    decreases |fetches|
  {
    if |fetches| == 0 then e else Pages(Page(e, fetches[0]), fetches[1..])
  }

  /** With no pause and every page fetched, the loop stores all pages and
      leaves the row in progress at 100%. */
  lemma {:induction false} AllPagesFetched(e: Engine, fetches: seq<Outcome>)
    requires e.worker.Downloading? && e.worker.done + |fetches| == e.worker.total
    requires e.worker.job.id in e.queue && e.queue[e.worker.job.id].status == InProgress
    requires forall i :: 0 <= i < |fetches| ==> fetches[i] == Succeeded
    requires |fetches| > 0 || e.queue[e.worker.job.id].progress == 100
    ensures var r := Pages(e, fetches);
      r.worker == Downloading(e.worker.job, e.worker.total, e.worker.total)
      && r.queue[e.worker.job.id].status == InProgress
      && r.queue[e.worker.job.id].progress == 100
      && r.queue.Keys == e.queue.Keys
    decreases |fetches|
  {
    if |fetches| > 0 {
      var w := e.worker;
      var e1 := Page(e, Succeeded);
      PageSucceeds(e);
      if |fetches| == 1 {
        PercentFull(w.total);
      }
      assert fetches[0] == Succeeded;
      assert Pages(e, fetches) == Pages(e1, fetches[1..]);
      AllPagesFetched(e1, fetches[1..]);
    }
  }

  /** A page fetched while the row is in progress advances the worker by one
      page and sets the progress, leaving the row in progress. */
  lemma PageSucceeds(e: Engine)
    requires e.worker.Downloading? && e.worker.done < e.worker.total
    requires e.worker.job.id in e.queue && e.queue[e.worker.job.id].status == InProgress
    ensures var w := e.worker; var e1 := Page(e, Succeeded);
      e1.worker == Downloading(w.job, w.total, w.done + 1)
      && e1.queue.Keys == e.queue.Keys
      && e1.queue[w.job.id].status == InProgress
      && e1.queue[w.job.id].progress == Percent(w.done + 1, w.total)
  {
    assert !PausedNow(e.queue, e.worker.job.id);
  }

  lemma PercentFull(total: nat)
    requires total > 0
    ensures Percent(total, total) == 100
  {
  }

  /** A job whose row was paused before the worker took it from the channel is
      still marked in progress and downloaded: `Receive` does not look at the
      status, and the first checkpoint then sees `in_progress`. */
  lemma BufferedJobIgnoresPause(e: Engine, providers: set<string>, n: nat)
    requires e.worker.Idle? && |e.buffer| > 0 && n > 0
    requires e.buffer[0].id in e.queue && e.queue[e.buffer[0].id].status == Paused
    requires e.buffer[0].item.providerId in providers
    ensures var r := Receive(e, providers, Ok(n));
      r.queue[e.buffer[0].id].status == InProgress && r.worker.Downloading?
  {
  }

  // ---------------------------------------------------------------------------
  // Per-item pause/resume with a notification
  // ---------------------------------------------------------------------------

  /** The progress message broadcast to clients (`models.ProgressUpdate`). */
  datatype Notice = Notice(itemId: int, message: string, status: string, progress: int, done: bool)

  datatype Changed = Changed(queue: Queue, notice: Notice)

  /** `PauseQueueItem` (worker.go): the store error is returned as is; on
      success a "paused" notice carries the row's current progress. */
  function PauseQueueItem(q: Queue, id: int): (r: Result<Changed>)
    ensures r.Err? <==> id !in q
    ensures r.Err? ==> r == Err(NotFoundMessage(id))
    ensures r.Ok? ==>
      r.value.queue.Keys == q.Keys && r.value.queue[id].status == Paused
      && r.value.notice == Notice(id, "Download paused by user", "paused", q[id].progress, false)
    ensures r.Ok? ==>
      PauseItem(q, id) == Ok(r.value.queue)
      && Restatus(q[id], r.value.queue[id], Paused, MsgPausedByUser)
      && forall k :: k in q && k != id ==> r.value.queue[k] == q[k]
  {
    match PauseItem(q, id)
    case Err(msg) => Err(msg)
    case Ok(q1) =>
      var progress := match GetItem(q1, id) case Some(it) => it.progress case None => 0;
      Ok(Changed(q1, Notice(id, "Download paused by user", "paused", progress, false)))
  }

  /** `ResumeQueueItem` (worker.go) */
  function ResumeQueueItem(q: Queue, id: int): (r: Result<Changed>)
    ensures r.Err? <==> id !in q
    ensures r.Err? ==> r == Err(NotFoundMessage(id))
    ensures r.Ok? ==>
      r.value.queue.Keys == q.Keys && r.value.queue[id].status == Queued
      && r.value.notice == Notice(id, "Download resumed by user", "queued", q[id].progress, false)
    ensures r.Ok? ==>
      ResumeItem(q, id) == Ok(r.value.queue)
      && Restatus(q[id], r.value.queue[id], Queued, MsgResumedByUser)
      && forall k :: k in q && k != id ==> r.value.queue[k] == q[k]
  {
    match ResumeItem(q, id)
    case Err(msg) => Err(msg)
    case Ok(q1) =>
      var progress := match GetItem(q1, id) case Some(it) => it.progress case None => 0;
      Ok(Changed(q1, Notice(id, "Download resumed by user", "queued", progress, false)))
  }

  // ---------------------------------------------------------------------------
  // File names
  // ---------------------------------------------------------------------------

  /** The class `[\x00\\/:*?"<>|]` */
  predicate FilenameUnsafe(c: char) {
    c == '\0' || c == '\\' || c == '/' || c == ':' || c == '*' || c == '?' || c == '"'
    || c == '<' || c == '>' || c == '|'
  }

  predicate LeadingJunk(c: char) { c == '.' || c == '-' }

  /** A name `SanitizeFilename` returns unchanged. */
  predicate CleanFilename(s: string) {
    |s| > 0 && !LeadingJunk(s[0]) && forall i :: 0 <= i < |s| ==> !FilenameUnsafe(s[i])
  }

  /** `SanitizeFilename`: unsafe characters become '-', leading dots and dashes
      are stripped, and an empty result becomes "untitled". */
  function SanitizeFilename(name: string): (r: string)
    ensures CleanFilename(r)
    ensures CleanFilename(name) ==> r == name
  {
    var stripped := StripFilename(name);
    if stripped == "" then UntitledIsClean(Untitled); Untitled else stripped
  }

  /** The name with unsafe characters replaced and leading dots and dashes
      stripped: clean unless empty, and a clean name is left alone. */
  function StripFilename(name: string): (r: string)
    ensures r != "" ==> CleanFilename(r)
    ensures CleanFilename(name) ==> r == name
  {
    var replaced := ReplaceWhere(name, FilenameUnsafe, '-');
    var stripped := TrimLeftWhile(replaced, LeadingJunk);
    StrippedFacts(name, replaced, stripped);
    stripped
  }

  /** After the replacement no unsafe character is left, and a clean name
      is neither changed by it nor stripped. */
  lemma StrippedFacts(name: string, replaced: string, stripped: string)
    requires replaced == ReplaceWhere(name, FilenameUnsafe, '-')
    requires stripped == TrimLeftWhile(replaced, LeadingJunk)
    ensures stripped != "" ==> CleanFilename(stripped)
    ensures CleanFilename(name) ==> stripped == name
  {
    SuffixKeepsSafe(replaced, stripped);
    if CleanFilename(name) {
      CleanNotReplaced(name);
    }
  }

  /** A suffix of a name free of unsafe characters is free of them too. */
  lemma SuffixKeepsSafe(s: string, t: string)
    requires HasSuffix(s, t)
    requires forall i :: 0 <= i < |s| ==> !FilenameUnsafe(s[i])
    ensures forall i :: 0 <= i < |t| ==> !FilenameUnsafe(t[i])
  {
    forall i | 0 <= i < |t| ensures !FilenameUnsafe(t[i]) {
      assert t[i] == s[|s| - |t| + i];
    }
  }

  /** A clean name has nothing to replace and nothing to strip. */
  lemma CleanNotReplaced(name: string)
    requires CleanFilename(name)
    ensures ReplaceWhere(name, FilenameUnsafe, '-') == name
    ensures TrimLeftWhile(name, LeadingJunk) == name
  {
    assert ReplaceWhere(name, FilenameUnsafe, '-') == name;
  }

  const Untitled: string := "untitled"

  lemma UntitledIsClean(s: string)
    requires s == Untitled
    ensures CleanFilename(s)
  {
    forall i | 0 <= i < |s| ensures !FilenameUnsafe(s[i]) {
      assert 'a' <= s[i] <= 'z';
    }
  }

  /** A character the leading strip removes once unsafe characters are
      replaced: a dot, a dash, or an unsafe character (which became a dash). */
  predicate StrippedChar(c: char) { LeadingJunk(c) || FilenameUnsafe(c) }

  /** The index of the first character of `name` the leading strip keeps,
      `|name|` when it keeps none. */
  function FirstKept(name: string): (k: nat)
    ensures k <= |name|
    ensures forall i :: 0 <= i < k ==> StrippedChar(name[i])
    ensures k < |name| ==> !StrippedChar(name[k])
  {
    if |name| == 0 || !StrippedChar(name[0]) then 0 else 1 + FirstKept(name[1..])
  }

  /** Trimming from the left stops at the first character not cut. */
  lemma {:induction false} TrimLeftAt(s: string, cut: char -> bool, k: nat)
    requires k <= |s|
    requires forall i :: 0 <= i < k ==> cut(s[i])
    requires k < |s| ==> !cut(s[k])
    ensures TrimLeftWhile(s, cut) == s[k..]
    decreases k
  {
    if k > 0 {
      TrimLeftAt(s[1..], cut, k - 1);
      assert s[1..][k - 1..] == s[k..];
    }
  }

  /** What `SanitizeFilename` returns, character by character: everything
      from the first character that is not a dot, a dash or an unsafe
      character on, with each unsafe character replaced by '-'; "untitled"
      exactly when there is no such character. */
  lemma SanitizeFilenameMeaning(name: string)
    ensures var k := FirstKept(name); var r := SanitizeFilename(name);
      (k == |name| ==> r == Untitled)
      && (k < |name| ==>
            |r| == |name| - k && r[0] == name[k]
            && forall i :: 0 <= i < |r| ==> r[i] == (if FilenameUnsafe(name[k + i]) then '-' else name[k + i]))
  {
    var k := FirstKept(name);
    var replaced := ReplaceWhere(name, FilenameUnsafe, '-');
    forall i | 0 <= i < k ensures LeadingJunk(replaced[i]) {
      assert StrippedChar(name[i]);
    }
    TrimLeftAt(replaced, LeadingJunk, k);
  }

  lemma SanitizeFilenameIdempotent(name: string)
    ensures SanitizeFilename(SanitizeFilename(name)) == SanitizeFilename(name)
  {
  }

  // ---------------------------------------------------------------------------
  // Destination folder
  // ---------------------------------------------------------------------------

  /** The path elements joined below the library path for a finished
      chapter: the sanitised components of the subscription's custom folder
      path when the series has one, otherwise the sanitised series title. The
      join then cleans the path, reading a "." or ".." among them as a step.
      Looking the subscription up is the store's job; its folder path comes in
      as `customPath`. */
  function SeriesFolder(seriesTitle: string, customPath: Option<string>): (r: seq<string>)
    ensures forall i :: 0 <= i < |r| ==> r[i] != "" && PathValidation.SafeChars(r[i])
    ensures customPath.None? ==> |r| <= 1
  {
    var comps :=
      if customPath.Some? then
        PathValidation.SanitizeComponents(Split(PathValidation.Normalize(customPath.value), '/'))
      else [PathValidation.SanitizeFolderName(seriesTitle)];
    Paths.NonEmptyParts(comps)
  }

  /** A series called "-..-" is saved in the library's parent directory. */
  lemma SeriesTitleLeavesLibrary()
    ensures SeriesFolder("-..-", None) == [".."]
  {
    PathValidation.DashShieldedDotsSurvive();
    assert Paths.NonEmptyParts([".."]) == [".."];
  }

  /** So is a series whose custom folder path is "-..-". */
  lemma CustomFolderLeavesLibrary()
    ensures SeriesFolder("any", Some("-..-")) == [".."]
  {
    CustomComponentsShielded();
    assert Paths.NonEmptyParts([".."]) == [".."];
  }

  lemma CustomComponentsShielded()
    ensures PathValidation.SanitizeComponents(Split(PathValidation.Normalize("-..-"), '/')) == [".."]
  {
    NormalizeShielded();
    SplitShielded();
    SanitizeOne("-..-");
    PathValidation.DashShieldedDotsSurvive();
  }

  /** A single non-empty component is sanitised as a name. */
  lemma SanitizeOne(x: string)
    requires x != ""
    ensures PathValidation.SanitizeComponents([x]) == [PathValidation.SanitizeFolderName(x)]
  {
    assert [x][1..] == [];
  }

  lemma NormalizeShielded()
    ensures PathValidation.Normalize("-..-") == "-..-"
  {
    var n := PathValidation.Normalize("-..-");
    assert n[0] == '-' && n[1] == '.' && n[2] == '.' && n[3] == '-';
  }

  lemma SplitShielded()
    ensures Split("-..-", '/') == ["-..-"]
  {
    assert IndexOf("-..-", '/') == -1;
  }

  /** With the corrected name the folder never climbs out of the library:
      no component is "." or "..". */
  function SafeSeriesFolder(seriesTitle: string, customPath: Option<string>): (r: seq<string>)
    ensures forall i :: 0 <= i < |r| ==> r[i] != "" && SafeComponent(r[i])
    ensures customPath.None? ==> |r| <= 1
  {
    var comps :=
      if customPath.Some? then
        SafeComponents(Split(PathValidation.Normalize(customPath.value), '/'))
      else [PathValidation.SafeFolderName(seriesTitle)];
    Paths.NonEmptyParts(comps)
  }

  /** `SanitizeComponents` with the corrected name. */
  function SafeComponents(parts: seq<string>): (r: seq<string>)
    ensures forall i :: 0 <= i < |r| ==> SafeComponent(r[i])
  {
    if |parts| == 0 then []
    else
      var rest := SafeComponents(parts[1..]);
      if parts[0] == "" then rest
      else
        var name := PathValidation.SafeFolderName(parts[0]);
        assert SafeComponent(name);
        [name] + rest
  }

  /** A component that stays inside its directory and has only safe characters. */
  ghost predicate SafeComponent(c: string) {
    c != "." && c != ".." && PathValidation.SafeChars(c)
  }
}
