/** The thread pool: worker threads, a job queue under a mutex, a condition variable, and shutdown.
    One step is one critical section, one notification, or the end of a job. */
module ThreadPool {

  type Job = nat

  /** A worker is about to take the mutex, asleep on the condition variable, awake again but without
      the mutex, running a job, or has left its loop. */
  datatype Worker = Ready | Asleep | Awake | Running(job: Job) | Exited

  /** `notifies` counts the enqueuers between their critical section and `notify_one`; `notifyAll`
      says that `shutdown` is between its critical section and `notify_all`. The logs record the
      jobs accepted, dequeued and finished, in order; `before` is how many had been accepted when
      the shutdown flag was set. */
  datatype Pool = Pool(
    workers: seq<Worker>,
    jobs: seq<Job>,
    shutdown: bool,
    notifies: nat,
    notifyAll: bool,
    accepted: seq<Job>,
    dequeued: seq<Job>,
    finished: seq<Job>,
    before: nat)

  datatype Step =
    | Enqueue(job: Job)
    | NotifyOne(w: nat)
    | SetShutdown
    | NotifyAll
    | Check(w: nat)
    | FinishJob(w: nat)
    | SpuriousWake(w: nat)

  predicate Initial(s: Pool) {
    && (forall w :: 0 <= w < |s.workers| ==> s.workers[w] == Ready)
    && s == Pool(s.workers, [], false, 0, false, [], [], [], 0)
  }

  predicate CanWork(worker: Worker) { worker.Ready? || worker.Awake? }

  predicate SomeAsleep(s: Pool) {
    exists w :: 0 <= w < |s.workers| && s.workers[w].Asleep?
  }

  function SetWorker(s: Pool, w: nat, worker: Worker): Pool
    requires w < |s.workers|
  {
    s.(workers := s.workers[w := worker])
  }

  /** `enqueue` under the mutex; it refuses when the queue is full. Each accepted job is a new one. */
  predicate EnqueueStep(limit: nat, s: Pool, s': Pool, job: Job) {
    && job !in s.accepted
    && s' == if limit > 0 && |s.jobs| >= limit then s
             else s.(jobs := s.jobs + [job], accepted := s.accepted + [job], notifies := s.notifies + 1)
  }

  /** `notify_one`: it wakes any one sleeping worker, if there is one. */
  predicate NotifyOneStep(s: Pool, s': Pool, w: nat) {
    && s.notifies > 0
    && if SomeAsleep(s) then
         w < |s.workers| && s.workers[w].Asleep? && s' == SetWorker(s, w, Awake).(notifies := s.notifies - 1)
       else s' == s.(notifies := s.notifies - 1)
  }

  predicate SetShutdownStep(s: Pool, s': Pool) {
    && !s.shutdown
    && s' == s.(shutdown := true, notifyAll := true, before := |s.accepted|)
  }

  function WakeAll(workers: seq<Worker>): (r: seq<Worker>)
    ensures |r| == |workers|
    ensures forall w :: 0 <= w < |r| ==> r[w] == if workers[w].Asleep? then Awake else workers[w]
  {
    seq(|workers|, i requires 0 <= i < |workers| => if workers[i].Asleep? then Awake else workers[i])
  }

  predicate NotifyAllStep(s: Pool, s': Pool) {
    s.notifyAll && s' == s.(workers := WakeAll(s.workers), notifyAll := false)
  }

  /** The worker's critical section: it sleeps while there is nothing to do, leaves when the pool is
      shutting down and the queue is empty, and takes the front job otherwise. */
  predicate CheckStep(s: Pool, s': Pool, w: nat) {
    && w < |s.workers| && CanWork(s.workers[w])
    && s' ==
       if s.jobs == [] && !s.shutdown then SetWorker(s, w, Asleep)
       else if s.jobs == [] then SetWorker(s, w, Exited)
       else SetWorker(s, w, Running(s.jobs[0])).(jobs := s.jobs[1..], dequeued := s.dequeued + [s.jobs[0]])
  }

  predicate FinishJobStep(s: Pool, s': Pool, w: nat) {
    && w < |s.workers| && s.workers[w].Running?
    && s' == SetWorker(s, w, Ready).(finished := s.finished + [s.workers[w].job])
  }

  predicate SpuriousWakeStep(s: Pool, s': Pool, w: nat) {
    && w < |s.workers| && s.workers[w].Asleep?
    && s' == SetWorker(s, w, Awake)
  }

  predicate NextStep(limit: nat, s: Pool, s': Pool, step: Step) {
    match step
    case Enqueue(job) => EnqueueStep(limit, s, s', job)
    case NotifyOne(w) => NotifyOneStep(s, s', w)
    case SetShutdown => SetShutdownStep(s, s')
    case NotifyAll => NotifyAllStep(s, s')
    case Check(w) => CheckStep(s, s', w)
    case FinishJob(w) => FinishJobStep(s, s', w)
    case SpuriousWake(w) => SpuriousWakeStep(s, s', w)
  }

  ghost predicate Next(limit: nat, s: Pool, s': Pool) {
    exists step :: NextStep(limit, s, s', step)
  }

  ghost predicate IsRun(limit: nat, run: seq<Pool>) {
    && run != [] && Initial(run[0])
    && forall i :: 0 <= i < |run| - 1 ==> Next(limit, run[i], run[i + 1])
  }

  // ---- Invariant ----

  predicate NoDuplicates(s: seq<Job>) {
    forall i, j :: 0 <= i < j < |s| ==> s[i] != s[j]
  }

  predicate RunningOn(s: Pool, job: Job) {
    exists w :: 0 <= w < |s.workers| && s.workers[w] == Running(job)
  }

  /** Jobs are dequeued in the order of acceptance, and each dequeued one is running on exactly one
      worker or finished, not both. */
  predicate JobsFit(s: Pool) {
    && s.accepted == s.dequeued + s.jobs
    && NoDuplicates(s.accepted) && NoDuplicates(s.finished)
    && (forall w :: 0 <= w < |s.workers| && s.workers[w].Running? ==>
          s.workers[w].job in s.dequeued && s.workers[w].job !in s.finished)
    && (forall w, w' :: 0 <= w < w' < |s.workers| && s.workers[w].Running? ==> s.workers[w] != s.workers[w'])
    && (forall job :: job in s.finished ==> job in s.dequeued)
    && (forall job :: job in s.dequeued ==> job in s.finished || RunningOn(s, job))
  }

  predicate SomeActive(s: Pool) {
    exists w :: 0 <= w < |s.workers| && (CanWork(s.workers[w]) || s.workers[w].Running?)
  }

  /** No lost wake-up: with jobs waiting and a worker asleep, another worker is active or a
      notification is on its way; and after `notify_all` nobody sleeps through a shutdown. */
  predicate WakeupsFit(s: Pool) {
    && (s.jobs != [] && SomeAsleep(s) ==> SomeActive(s) || s.notifies > 0 || s.notifyAll)
    && (s.shutdown && !s.notifyAll ==> !SomeAsleep(s))
    && (s.notifyAll ==> s.shutdown)
  }

  /** A worker leaves only once everything accepted before the shutdown has been dequeued. */
  predicate ShutdownFits(s: Pool) {
    && (s.shutdown ==> s.before <= |s.accepted|)
    && (forall w :: 0 <= w < |s.workers| && s.workers[w].Exited? ==> s.shutdown && s.before <= |s.dequeued|)
  }

  predicate Inv(s: Pool) { JobsFit(s) && WakeupsFit(s) && ShutdownFits(s) }

  lemma EnqueueKeeps(limit: nat, s: Pool, s': Pool, job: Job)
    requires Inv(s) && EnqueueStep(limit, s, s', job)
    ensures Inv(s')
  {
    assert forall j :: RunningOn(s', j) <==> RunningOn(s, j);
    assert SomeAsleep(s') <==> SomeAsleep(s);
    if s' != s {
      assert s.accepted + [job] == s.dequeued + (s.jobs + [job]);
    }
  }

  lemma SameJobs(s: Pool, s': Pool)
    requires JobsFit(s) && |s'.workers| == |s.workers|
    requires s'.jobs == s.jobs && s'.accepted == s.accepted && s'.dequeued == s.dequeued && s'.finished == s.finished
    requires forall w :: 0 <= w < |s.workers| ==>
      (s.workers[w].Running? || s'.workers[w].Running? ==> s'.workers[w] == s.workers[w])
    ensures JobsFit(s')
  {
    forall job | job in s'.dequeued && job !in s'.finished
      ensures RunningOn(s', job)
    {
      var w :| 0 <= w < |s.workers| && s.workers[w] == Running(job);
      assert s'.workers[w] == Running(job);
    }
  }

  lemma NotifyOneKeeps(s: Pool, s': Pool, w: nat)
    requires Inv(s) && NotifyOneStep(s, s', w)
    ensures Inv(s')
  {
    SameJobs(s, s');
    if SomeAsleep(s) {
      assert CanWork(s'.workers[w]);
      assert SomeAsleep(s') ==> SomeAsleep(s);
    }
  }

  lemma ShutdownKeeps(s: Pool, s': Pool)
    requires Inv(s) && (SetShutdownStep(s, s') || NotifyAllStep(s, s'))
    ensures Inv(s')
  {
    SameJobs(s, s');
  }

  lemma CheckKeeps(s: Pool, s': Pool, w: nat)
    requires Inv(s) && CheckStep(s, s', w)
    ensures Inv(s')
  {
    if s.jobs == [] {
      SameJobs(s, s');
    } else {
      TakeKeepsJobs(s, s', w);
      assert s'.workers[w].Running?;
    }
  }

  lemma TakeKeepsJobs(s: Pool, s': Pool, w: nat)
    requires JobsFit(s) && CheckStep(s, s', w) && s.jobs != []
    ensures JobsFit(s')
  {
    var job := s.jobs[0];
    assert s.accepted == s'.dequeued + s'.jobs;
    assert s.accepted[|s.dequeued|] == job;
    assert forall i :: 0 <= i < |s.dequeued| ==> s.dequeued[i] == s.accepted[i];
    forall j | j in s'.dequeued && j !in s'.finished
      ensures RunningOn(s', j)
    {
      if j == job {
        assert s'.workers[w] == Running(j);
      } else {
        var v :| 0 <= v < |s.workers| && s.workers[v] == Running(j);
        assert s'.workers[v] == Running(j);
      }
    }
  }

  lemma FinishJobKeeps(s: Pool, s': Pool, w: nat)
    requires Inv(s) && FinishJobStep(s, s', w)
    ensures Inv(s')
  {
    var job := s.workers[w].job;
    forall j | j in s'.dequeued && j !in s'.finished
      ensures RunningOn(s', j)
    {
      assert j != job;
      var v :| 0 <= v < |s.workers| && s.workers[v] == Running(j);
      assert s'.workers[v] == Running(j);
    }
    assert CanWork(s'.workers[w]);
    assert forall v :: 0 <= v < |s.workers| ==> (s'.workers[v].Asleep? <==> s.workers[v].Asleep?);
  }

  lemma SpuriousWakeKeeps(s: Pool, s': Pool, w: nat)
    requires Inv(s) && SpuriousWakeStep(s, s', w)
    ensures Inv(s')
  {
    SameJobs(s, s');
    assert CanWork(s'.workers[w]);
    assert SomeAsleep(s') ==> SomeAsleep(s);
  }

  lemma StepKeeps(limit: nat, s: Pool, s': Pool, step: Step)
    requires Inv(s) && NextStep(limit, s, s', step)
    ensures Inv(s') && |s'.workers| == |s.workers|
  {
    match step
    case Enqueue(job) => EnqueueKeeps(limit, s, s', job);
    case NotifyOne(w) => NotifyOneKeeps(s, s', w);
    case SetShutdown => ShutdownKeeps(s, s');
    case NotifyAll => ShutdownKeeps(s, s');
    case Check(w) => CheckKeeps(s, s', w);
    case FinishJob(w) => FinishJobKeeps(s, s', w);
    case SpuriousWake(w) => SpuriousWakeKeeps(s, s', w);
  }

  /** In every reachable state: FIFO order, each job at most once, and no lost wake-up. */
  lemma {:induction false} ReachableInv(limit: nat, run: seq<Pool>, i: nat)
    requires IsRun(limit, run) && i < |run|
    ensures Inv(run[i]) && |run[i].workers| == |run[0].workers|
  {
    if i > 0 {
      ReachableInv(limit, run, i - 1);
      assert Next(limit, run[i - 1], run[i - 1 + 1]);
      var step :| NextStep(limit, run[i - 1], run[i], step);
      StepKeeps(limit, run[i - 1], run[i], step);
    }
  }

  // ---- Results ----

  /** `shutdown` returns when it has joined every worker. */
  predicate ShutdownReturned(s: Pool) {
    s.shutdown && !s.notifyAll && forall w :: 0 <= w < |s.workers| ==> s.workers[w].Exited?
  }

  /** When `shutdown` returns, every job accepted before the flag was set has finished. */
  lemma ShutdownDrains(limit: nat, run: seq<Pool>, i: nat, k: nat)
    requires IsRun(limit, run) && i < |run| && |run[0].workers| >= 1
    requires ShutdownReturned(run[i]) && k < run[i].before
    ensures run[i].before <= |run[i].accepted| && run[i].accepted[k] in run[i].finished
  {
    ReachableInv(limit, run, i);
    var s := run[i];
    assert s.workers[0].Exited?;
    assert s.accepted[k] == s.dequeued[k];
    assert s.dequeued[k] in s.dequeued;
  }

  /** The pool's own steps: everything but new jobs, the call of `shutdown` and spurious wake-ups. */
  predicate Internal(step: Step) {
    step.NotifyOne? || step.NotifyAll? || step.Check? || step.FinishJob?
  }

  ghost predicate Quiescent(limit: nat, s: Pool) {
    forall s', step :: NextStep(limit, s, s', step) ==> !Internal(step)
  }

  function Effort(worker: Worker): nat {
    match worker
    case Running(_) => 2
    case Ready => 1
    case Awake => 1
    case _ => 0
  }

  function Efforts(workers: seq<Worker>): nat {
    if workers == [] then 0 else Efforts(workers[..|workers| - 1]) + Effort(workers[|workers| - 1])
  }

  lemma {:induction false} EffortsUpdate(workers: seq<Worker>, w: nat, worker: Worker)
    requires w < |workers|
    ensures Efforts(workers[w := worker]) == Efforts(workers) - Effort(workers[w]) + Effort(worker)
  {
    var n := |workers| - 1;
    if w == n {
      assert workers[w := worker][..n] == workers[..n];
    } else {
      assert workers[w := worker][..n] == workers[..n][w := worker];
      EffortsUpdate(workers[..n], w, worker);
    }
  }

  lemma {:induction false} EffortsWakeAll(workers: seq<Worker>)
    ensures Efforts(WakeAll(workers)) <= Efforts(workers) + |workers|
  {
    if workers != [] {
      var n := |workers| - 1;
      assert WakeAll(workers)[..n] == WakeAll(workers[..n]);
      EffortsWakeAll(workers[..n]);
    }
  }

  /** How much the pool can still do on its own. */
  function Work(s: Pool): nat {
    2 * |s.jobs| + Efforts(s.workers) + 2 * s.notifies + if s.notifyAll then |s.workers| + 1 else 0
  }

  /** Every step of the pool's own makes progress, so it comes to rest unless it is given new jobs. */
  lemma InternalStepsTerminate(limit: nat, s: Pool, s': Pool, step: Step)
    requires NextStep(limit, s, s', step) && Internal(step)
    ensures Work(s') < Work(s)
  {
    match step
    case NotifyOne(w) =>
      if SomeAsleep(s) {
        EffortsUpdate(s.workers, w, Awake);
      }
    case NotifyAll => EffortsWakeAll(s.workers);
    case Check(w) => EffortsUpdate(s.workers, w, s'.workers[w]);
    case FinishJob(w) => EffortsUpdate(s.workers, w, Ready);
  }

  /** At rest, an open pool has finished every job it accepted, and a pool that is shutting down has
      let every worker go, so that `shutdown` returns. */
  lemma RestMeansDone(limit: nat, run: seq<Pool>, i: nat)
    requires IsRun(limit, run) && i < |run| && |run[0].workers| >= 1 && Quiescent(limit, run[i])
    ensures !run[i].shutdown ==> run[i].jobs == [] && forall job :: job in run[i].accepted ==> job in run[i].finished
    ensures run[i].shutdown ==> ShutdownReturned(run[i])
  {
    ReachableInv(limit, run, i);
    var s := run[i];
    forall w | 0 <= w < |s.workers|
      ensures s.workers[w].Asleep? || s.workers[w].Exited?
    {
      if s.workers[w].Running? {
        assert NextStep(limit, s, SetWorker(s, w, Ready).(finished := s.finished + [s.workers[w].job]), FinishJob(w));
      } else if CanWork(s.workers[w]) {
        var s' := CheckResult(s, w);
        assert NextStep(limit, s, s', Check(w));
      }
    }
    if s.notifyAll {
      assert NextStep(limit, s, s.(workers := WakeAll(s.workers), notifyAll := false), NotifyAll);
    }
    if s.notifies > 0 {
      NotifyEnabled(limit, s);
    }
    assert !SomeActive(s);
    assert s.workers[0].Asleep? || s.workers[0].Exited?;
    assert forall job :: !RunningOn(s, job);
  }

  function CheckResult(s: Pool, w: nat): (s': Pool)
    requires w < |s.workers| && CanWork(s.workers[w])
    ensures CheckStep(s, s', w)
  {
    if s.jobs == [] && !s.shutdown then SetWorker(s, w, Asleep)
    else if s.jobs == [] then SetWorker(s, w, Exited)
    else SetWorker(s, w, Running(s.jobs[0])).(jobs := s.jobs[1..], dequeued := s.dequeued + [s.jobs[0]])
  }

  lemma NotifyEnabled(limit: nat, s: Pool)
    requires s.notifies > 0
    ensures !Quiescent(limit, s)
  {
    if SomeAsleep(s) {
      var w :| 0 <= w < |s.workers| && s.workers[w].Asleep?;
      assert NextStep(limit, s, SetWorker(s, w, Awake).(notifies := s.notifies - 1), NotifyOne(w));
    } else {
      assert NextStep(limit, s, s.(notifies := s.notifies - 1), NotifyOne(0));
    }
  }

  // ---- What the pool accepts ----

  /** A run together with the steps taken. */
  ghost predicate IsRunOf(limit: nat, run: seq<Pool>, steps: seq<Step>) {
    && |run| == |steps| + 1 && Initial(run[0])
    && forall i :: 0 <= i < |steps| ==> NextStep(limit, run[i], run[i + 1], steps[i])
  }

  /** The jobs that callers of `enqueue` have handed over, in order. */
  function Submitted(steps: seq<Step>): seq<Job> {
    if steps == [] then []
    else
      var n := |steps| - 1;
      Submitted(steps[..n]) + if steps[n].Enqueue? then [steps[n].job] else []
  }

  lemma RunOfIsRun(limit: nat, run: seq<Pool>, steps: seq<Step>)
    requires IsRunOf(limit, run, steps)
    ensures IsRun(limit, run)
  {
    forall i | 0 <= i < |run| - 1
      ensures Next(limit, run[i], run[i + 1])
    {
      assert NextStep(limit, run[i], run[i + 1], steps[i]);
    }
  }

  /** Without a limit every job is accepted, in the order of the calls. */
  lemma {:induction false} UnlimitedAcceptsAll(run: seq<Pool>, steps: seq<Step>, i: nat)
    requires IsRunOf(0, run, steps) && i < |run|
    ensures run[i].accepted == Submitted(steps[..i])
  {
    if i > 0 {
      UnlimitedAcceptsAll(run, steps, i - 1);
      assert steps[..i][..i - 1] == steps[..i - 1];
      assert NextStep(0, run[i - 1], run[i - 1 + 1], steps[i - 1]);
    }
  }

  /** How many jobs have been accepted and not yet been taken by a worker. */
  function Waiting(s: Pool): int { |s.accepted| - |s.dequeued| }

  lemma LimitStep(limit: nat, s: Pool, s': Pool, step: Step)
    requires NextStep(limit, s, s', step) && limit > 0
    requires s.accepted == s.dequeued + s.jobs && Waiting(s) <= limit
    ensures Waiting(s') <= limit
  {
  }

  lemma {:induction false} LimitIsKept(limit: nat, run: seq<Pool>, i: nat)
    requires IsRun(limit, run) && i < |run| && limit > 0
    ensures Waiting(run[i]) <= limit
  {
    if i > 0 {
      LimitIsKept(limit, run, i - 1);
      ReachableInv(limit, run, i - 1);
      assert Next(limit, run[i - 1], run[i - 1 + 1]);
      var step :| NextStep(limit, run[i - 1], run[i], step);
      LimitStep(limit, run[i - 1], run[i], step);
    }
  }

  /** A call of `enqueue` is refused if and only if there is a limit and exactly that many jobs wait;
      otherwise its job is accepted as the last one, and queued. */
  lemma RefusedIff(limit: nat, run: seq<Pool>, steps: seq<Step>, i: nat)
    requires IsRunOf(limit, run, steps) && i < |steps| && steps[i].Enqueue?
    ensures var job := steps[i].job;
            if limit > 0 && Waiting(run[i]) == limit then run[i + 1].accepted == run[i].accepted
            else run[i + 1].accepted == run[i].accepted + [job] && job in run[i + 1].jobs
    ensures run[i + 1].dequeued == run[i].dequeued
  {
    RunOfIsRun(limit, run, steps);
    ReachableInv(limit, run, i);
    assert NextStep(limit, run[i], run[i + 1], steps[i]);
    if limit > 0 {
      LimitIsKept(limit, run, i);
    }
  }

  /** `enqueue` returns in every state. */
  lemma CanEnqueue(limit: nat, s: Pool, job: Job)
    requires job !in s.accepted
    ensures exists s' :: NextStep(limit, s, s', Enqueue(job))
  {
    var s' := if limit > 0 && |s.jobs| >= limit then s
              else s.(jobs := s.jobs + [job], accepted := s.accepted + [job], notifies := s.notifies + 1);
    assert NextStep(limit, s, s', Enqueue(job));
  }

  /** Every job given to a pool without a limit has finished once the pool is at rest. */
  lemma SubmittedMeansDone(run: seq<Pool>, steps: seq<Step>, i: nat, job: Job)
    requires IsRunOf(0, run, steps) && i < |run| && |run[0].workers| >= 1
    requires Quiescent(0, run[i]) && !run[i].shutdown && job in Submitted(steps[..i])
    ensures job in run[i].finished
  {
    RunOfIsRun(0, run, steps);
    UnlimitedAcceptsAll(run, steps, i);
    RestMeansDone(0, run, i);
  }

  // ---- Jobs that come during a shutdown ----

  predicate Lives(s: Pool, w: nat) { w < |s.workers| && !s.workers[w].Exited? }

  lemma LogsGrow(limit: nat, s: Pool, s': Pool, step: Step)
    requires NextStep(limit, s, s', step)
    ensures s.accepted <= s'.accepted && |s.dequeued| <= |s'.dequeued|
  {
  }

  /** A worker leaves when it sees an empty queue, */
  lemma LeavesEmpty(limit: nat, s: Pool, s': Pool, step: Step, w: nat)
    requires JobsFit(s) && NextStep(limit, s, s', step) && Lives(s, w) && !Lives(s', w)
    ensures |s.accepted| == |s'.dequeued|
  {
  }

  lemma StepAt(limit: nat, run: seq<Pool>, j: nat, w: nat)
    requires IsRun(limit, run) && j + 1 < |run|
    ensures run[j].accepted <= run[j + 1].accepted && |run[j].dequeued| <= |run[j + 1].dequeued|
    ensures Lives(run[j], w) && !Lives(run[j + 1], w) ==> |run[j].accepted| == |run[j + 1].dequeued|
  {
    ReachableInv(limit, run, j);
    assert Next(limit, run[j], run[j + 1]);
    var step :| NextStep(limit, run[j], run[j + 1], step);
    LogsGrow(limit, run[j], run[j + 1], step);
    if Lives(run[j], w) && !Lives(run[j + 1], w) {
      LeavesEmpty(limit, run[j], run[j + 1], step, w);
    }
  }

  lemma {:induction false} AcceptedGrows(limit: nat, run: seq<Pool>, i: nat, j: nat)
    requires IsRun(limit, run) && i <= j < |run|
    ensures run[i].accepted <= run[j].accepted
    decreases j
  {
    if i < j {
      AcceptedGrows(limit, run, i, j - 1);
      StepAt(limit, run, j - 1, 0);
    }
  }

  /** so all that had been accepted has been taken. */
  lemma {:induction false} LeavesAfter(limit: nat, run: seq<Pool>, i: nat, j: nat, w: nat)
    requires IsRun(limit, run) && i <= j < |run| && Lives(run[i], w) && !Lives(run[j], w)
    ensures |run[i].accepted| <= |run[j].dequeued|
    decreases j
  {
    var before := j - 1;
    AcceptedGrows(limit, run, i, before);
    StepAt(limit, run, before, w);
    if !Lives(run[before], w) {
      LeavesAfter(limit, run, i, before, w);
    }
  }

  /** A shutdown loses only what comes after the last worker has left: a job accepted while some worker
      lives has finished when `shutdown` returns. */
  lemma ShutdownDrainsLateJobs(limit: nat, run: seq<Pool>, i: nat, j: nat, w: nat, job: Job)
    requires IsRun(limit, run) && i <= j < |run| && ShutdownReturned(run[j])
    requires Lives(run[i], w) && job in run[i].accepted
    ensures job in run[j].finished
  {
    ReachableInv(limit, run, i);
    ReachableInv(limit, run, j);
    LeavesAfter(limit, run, i, j, w);
    AcceptedGrows(limit, run, i, j);
    var k :| 0 <= k < |run[i].accepted| && run[i].accepted[k] == job;
    assert run[j].accepted[k] == run[j].dequeued[k];
    assert run[j].dequeued[k] in run[j].dequeued;
  }
}
