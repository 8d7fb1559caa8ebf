/** The maintenance job manager of internal/jobs/manager.go. A job run is two
    steps: `RunJob` starts it under the lock, and the goroutine's deferred
    handler `Finish` ends it, normally or after a panic. The running flag is
    manager-wide, so at most one job of any name runs at a time. */
module JobManager {
  import opened Results
  import opened Sorting

  datatype State = Idle | Running | Success | Failed

  /** A `JobStatus` object. `stamp` identifies the object: a second `Register`
      of a name replaces the object, and a run in flight keeps writing to the
      one it captured. Start and end times are not modelled. */
  datatype JobStatus = JobStatus(name: string, state: State, message: string, stamp: nat)

  /** The run whose goroutine has not finished yet. */
  datatype Run = Run(name: string, stamp: nat)

  datatype Manager = Manager(
    jobs: set<string>,
    status: map<string, JobStatus>,
    running: bool,
    inFlight: Option<Run>,
    nextStamp: nat)

  const MsgStarted := "Job started..."
  const MsgCompleted := "Job completed successfully."
  const MsgAlreadyRunning := "a job is already running"

  function NotFoundMessage(name: string): string {
    "job '" + name + "' not found"
  }

  function PanicMessage(value: string): string {
    "Job panicked: " + value
  }

  /** Every registered name has its status object, the running flag is set
      exactly while a run is in flight, and stamps are fresh. */
  predicate Valid(m: Manager) {
    m.jobs == m.status.Keys
    && (forall n :: n in m.status ==> m.status[n].name == n && m.status[n].stamp < m.nextStamp)
    && (m.running <==> m.inFlight.Some?)
    && (m.inFlight.Some? ==> m.inFlight.value.stamp < m.nextStamp)
  }

  /** `NewManager` */
  function NewManager(): (m: Manager)
    ensures Valid(m) && !m.running && m.jobs == {}
  {
    Manager({}, map[], false, None, 0)
  }

  /** `Register`: the task is (re)recorded with a fresh `idle` status object. */
  function Register(m: Manager, name: string): (r: Manager)
    requires Valid(m)
    ensures Valid(r)
    ensures r.jobs == m.jobs + {name}
    ensures r.status[name].state == Idle && r.status[name].message == ""
    ensures forall n :: n in m.status && n != name ==> r.status[n] == m.status[n]
    ensures r.running == m.running && r.inFlight == m.inFlight
  {
    m.(jobs := m.jobs + {name},
       status := m.status[name := JobStatus(name, Idle, "", m.nextStamp)],
       nextStamp := m.nextStamp + 1)
  }

  /** `RunJob`, up to the `go` statement: the manager-wide flag is checked
      before the name. */
  function RunJob(m: Manager, name: string): (r: Result<Manager>)
    requires Valid(m)
    ensures r.Err? <==> m.running || name !in m.jobs
    ensures m.running ==> r == Err(MsgAlreadyRunning)
    ensures !m.running && name !in m.jobs ==> r == Err(NotFoundMessage(name))
    ensures r.Ok? ==>
      Valid(r.value) && r.value.running && r.value.jobs == m.jobs
      && r.value.status[name].state == Running && r.value.status[name].message == MsgStarted
      && r.value.inFlight == Some(Run(name, m.status[name].stamp))
      && forall n :: n in m.status && n != name ==> r.value.status[n] == m.status[n]
  {
    if m.running then Err(MsgAlreadyRunning)
    else if name !in m.jobs then Err(NotFoundMessage(name))
    else
      var s := m.status[name];
      Ok(m.(running := true, inFlight := Some(Run(name, s.stamp)),
            status := m.status[name := s.(state := Running, message := MsgStarted)]))
  }

  /** The deferred handler of the run in flight: a panic marks the captured
      status `failed`; a status still `running` becomes `success`; the
      running flag is cleared in every case. A status object replaced by a
      later `Register` is no longer in the map, so it is not visible. */
  function Finish(m: Manager, panicked: bool, panicValue: string): (r: Manager)
    requires Valid(m)
    ensures Valid(r) && !r.running && r.jobs == m.jobs
    ensures m.inFlight.None? ==> r == m
    ensures m.inFlight.Some? ==>
      var run := m.inFlight.value;
      (forall n :: n in m.status && n != run.name ==> r.status[n] == m.status[n])
      && (run.name in m.status && m.status[run.name].stamp == run.stamp ==>
            (panicked ==> r.status[run.name].state == Failed
                          && r.status[run.name].message == PanicMessage(panicValue))
            && (!panicked && m.status[run.name].state == Running ==>
                  r.status[run.name].state == Success
                  && r.status[run.name].message == MsgCompleted))
      && (!(run.name in m.status && m.status[run.name].stamp == run.stamp) ==> r.status == m.status)
  {
    match m.inFlight
    case None => m
    case Some(run) =>
      var cleared := m.(running := false, inFlight := None);
      if run.name in m.status && m.status[run.name].stamp == run.stamp then
        var s := m.status[run.name];
        var s1 := if panicked then s.(state := Failed, message := PanicMessage(panicValue)) else s;
        var s2 := if s1.state == Running then s1.(state := Success, message := MsgCompleted) else s1;
        cleared.(status := m.status[run.name := s2])
      else cleared
  }

  /** `GetStatus`, in the map's iteration order `order`. */
  function GetStatus(m: Manager, order: seq<string>): (r: seq<JobStatus>)
    requires Valid(m) && Enumerates(order, m.status.Keys)
    ensures |r| == |m.jobs|
    ensures forall i :: 0 <= i < |r| ==> r[i].name in m.jobs && r[i] == m.status[r[i].name]
    ensures forall n :: n in m.jobs ==> exists i :: 0 <= i < |r| && r[i].name == n
    ensures forall i, j :: 0 <= i < j < |r| ==> r[i].name != r[j].name
  {
    StatusesFacts(m, order);
    Statuses(m, order)
  }

  /** The status of each name of `order`, in that order. */
  function Statuses(m: Manager, order: seq<string>): seq<JobStatus>
    requires forall i :: 0 <= i < |order| ==> order[i] in m.status
  {
    seq(|order|, i requires 0 <= i < |order| => m.status[order[i]])
  }

  lemma StatusesFacts(m: Manager, order: seq<string>)
    requires Valid(m) && Enumerates(order, m.status.Keys)
    ensures var r := Statuses(m, order);
      && |r| == |m.jobs|
      && (forall i :: 0 <= i < |r| ==> r[i].name in m.jobs && r[i] == m.status[r[i].name])
      && (forall n :: n in m.jobs ==> exists i :: 0 <= i < |r| && r[i].name == n)
      && (forall i, j :: 0 <= i < j < |r| ==> r[i].name != r[j].name)
  {
    EnumeratesLength(order, m.status.Keys);
    var r := Statuses(m, order);
    assert forall i :: 0 <= i < |r| ==> r[i].name == order[i];
    forall n | n in m.jobs ensures exists i :: 0 <= i < |r| && r[i].name == n {
      assert r[Position(order, n)].name == n;
    }
  }

  /** Exclusivity is manager-wide: once any job has started, starting any
      name fails until the run finishes, and then it can start again. */
  lemma {:induction false} OneJobAtATime(m: Manager, a: string, b: string)
    requires Valid(m) && !m.running && a in m.jobs && b in m.jobs
    ensures RunJob(m, a).Ok?
    ensures RunJob(RunJob(m, a).value, b) == Err(MsgAlreadyRunning)
    ensures RunJob(Finish(RunJob(m, a).value, false, ""), b).Ok?
  {
    var m1 := RunJob(m, a).value;
    var m2 := Finish(m1, false, "");
    assert Valid(m2) && !m2.running && m2.jobs == m.jobs;
  }

  /** A run that panicked ends `failed`, never `success`. */
  lemma PanicIsNotSuccess(m: Manager, name: string, v: string)
    requires Valid(m) && !m.running && name in m.jobs
    ensures var r := Finish(RunJob(m, name).value, true, v);
      r.status[name].state == Failed && r.status[name].message == PanicMessage(v) && !r.running
  {
  }

  /** A run that returned normally ends `success`. */
  lemma NormalRunSucceeds(m: Manager, name: string)
    requires Valid(m) && !m.running && name in m.jobs
    ensures var r := Finish(RunJob(m, name).value, false, "");
      r.status[name].state == Success && r.status[name].message == MsgCompleted && !r.running
  {
  }

  /** An unknown name changes nothing. */
  lemma UnknownJobChangesNothing(m: Manager, name: string)
    requires Valid(m) && !m.running && name !in m.jobs
    ensures RunJob(m, name) == Err(NotFoundMessage(name))
  {
  }
}
