// `ThreadPool` of `comm/httplib.h` as a step relation. A region that holds `mutex_` is one step; a
// worker gives the mutex up only while it waits on `cond_` or runs a job.
module ThreadPool {

  type Job = nat

  /** Where a worker is: about to take the mutex and look at the predicate, waiting on the condition
      variable, running a job, or past the end of its loop. */
  datatype Worker = Ready | Asleep | Running(job: Job) | Exited

  /** The pool, and three observations of its history: the jobs that were enqueued, taken and
      finished. `late` counts the jobs that were enqueued when every worker had exited. */
  datatype Pool = Pool(
    workers: seq<Worker>, jobs: seq<Job>, shutdown: bool, notified: bool,
    enqueued: seq<Job>, started: seq<Job>, finished: multiset<Job>, late: nat)

  datatype Step =
    | Enqueue(job: Job, woken: int)   // `notify_one` wakes the worker `woken`, -1 when none waits
    | Check(w: nat)                   // take the mutex: wait, leave, or take the first job
    | Finish(w: nat)                  // the job returns
    | Spurious(w: nat)                // a wake-up nobody asked for
    | SetShutdown                     // `shutdown_ = true`, in its own locked region
    | NotifyAll                       // after it

  function Init(n: nat): Pool {
    Pool(seq(n, i => Ready), [], false, false, [], [], multiset{}, 0)
  }

  predicate AllExited(p: Pool) { forall w | w in p.workers :: w.Exited? }

  predicate SomeoneActive(p: Pool) { exists w | w in p.workers :: w.Ready? || w.Running? }

  predicate Enabled(p: Pool, s: Step) {
    match s
    case Enqueue(_, woken) =>
      if woken == -1 then Asleep !in p.workers
      else 0 <= woken < |p.workers| && p.workers[woken].Asleep?
    case Check(w) => w < |p.workers| && p.workers[w].Ready?
    case Finish(w) => w < |p.workers| && p.workers[w].Running?
    case Spurious(w) => w < |p.workers| && p.workers[w].Asleep?
    case SetShutdown => !p.shutdown
    case NotifyAll => p.shutdown
  }

  function WakeAll(ws: seq<Worker>): seq<Worker> {
    seq(|ws|, i requires 0 <= i < |ws| => if ws[i].Asleep? then Ready else ws[i])
  }

  function Do(p: Pool, s: Step): Pool
    requires Enabled(p, s)
  {
    match s
    case Enqueue(job, woken) =>
      p.(jobs := p.jobs + [job], enqueued := p.enqueued + [job],
         workers := if woken == -1 then p.workers else p.workers[woken := Ready],
         late := if AllExited(p) then p.late + 1 else p.late)
    case Check(w) =>
      if p.jobs == [] && !p.shutdown then p.(workers := p.workers[w := Asleep])
      else if p.jobs == [] then p.(workers := p.workers[w := Exited])
      else p.(workers := p.workers[w := Running(p.jobs[0])], jobs := p.jobs[1..],
              started := p.started + [p.jobs[0]])
    case Finish(w) =>
      p.(workers := p.workers[w := Ready], finished := p.finished + multiset{p.workers[w].job})
    case Spurious(w) => p.(workers := p.workers[w := Ready])
    case SetShutdown => p.(shutdown := true)
    case NotifyAll => p.(workers := WakeAll(p.workers), notified := true)
  }

  predicate Possible(p: Pool, steps: seq<Step>)
    decreases |steps|
  {
    steps == [] || (Enabled(p, steps[0]) && Possible(Do(p, steps[0]), steps[1..]))
  }

  function Exec(p: Pool, steps: seq<Step>): Pool
    requires Possible(p, steps)
    decreases |steps|
  {
    if steps == [] then p else Exec(Do(p, steps[0]), steps[1..])
  }

  // Sums over the workers

  /** How often `job` is being run. */
  function RunCount(ws: seq<Worker>, job: Job): nat {
    if ws == [] then 0 else Runs(ws[0], job) + RunCount(ws[1..], job)
  }

  function Runs(w: Worker, job: Job): nat { if w == Running(job) then 1 else 0 }

  /** Steps a worker still has to take if no further job reaches it. */
  function Rank(w: Worker): nat {
    match w
    case Ready => 1
    case Running(_) => 2
    case _ => 0
  }

  function Ranks(ws: seq<Worker>): nat {
    if ws == [] then 0 else Rank(ws[0]) + Ranks(ws[1..])
  }

  lemma {:induction false} OneRank(ws: seq<Worker>, i: nat, w: Worker)
    requires i < |ws|
    ensures Ranks(ws[i := w]) + Rank(ws[i]) == Ranks(ws) + Rank(w)
  {
    var vs := ws[i := w];
    if i == 0 {
      assert vs[1..] == ws[1..];
    } else {
      assert vs[1..] == ws[1..][i - 1 := w];
      OneRank(ws[1..], i - 1, w);
    }
  }

  lemma {:induction false} OneJob(ws: seq<Worker>, i: nat, w: Worker, job: Job)
    requires i < |ws|
    ensures RunCount(ws[i := w], job) + Runs(ws[i], job) == RunCount(ws, job) + Runs(w, job)
  {
    var vs := ws[i := w];
    if i == 0 {
      assert vs[1..] == ws[1..];
    } else {
      assert vs[1..] == ws[1..][i - 1 := w];
      OneJob(ws[1..], i - 1, w, job);
    }
  }

  lemma {:induction false} WakeAllRunsTheSame(ws: seq<Worker>, job: Job)
    ensures RunCount(WakeAll(ws), job) == RunCount(ws, job)
  {
    if ws != [] {
      WakeAllRunsTheSame(ws[1..], job);
      assert WakeAll(ws)[1..] == WakeAll(ws[1..]);
    }
  }

  lemma {:induction false} NobodyRuns(ws: seq<Worker>, job: Job)
    requires forall w | w in ws :: !w.Running?
    ensures RunCount(ws, job) == 0
  {
    if ws != [] {
      assert ws[0] in ws && forall w | w in ws[1..] :: w in ws;
      NobodyRuns(ws[1..], job);
    }
  }

  lemma {:induction false} RanksOfNobody(ws: seq<Worker>)
    requires Asleep !in ws
    ensures Ranks(ws) == 0 <==> forall w | w in ws :: w.Exited?
  {
    if ws != [] {
      assert ws == [ws[0]] + ws[1..] && ws[0] in ws;
      RanksOfNobody(ws[1..]);
      assert Rank(ws[0]) == 0 <==> ws[0].Exited?;
    }
  }

  // What every step keeps

  /** First in, first out, and nothing lost: what was enqueued is what was taken, in order, followed
      by what is queued; what was taken is finished or running. */
  ghost predicate Conserved(p: Pool) {
    && p.enqueued == p.started + p.jobs
    && forall job :: JobConserved(p, job)
  }

  predicate JobConserved(p: Pool, job: Job) {
    multiset(p.started)[job] == p.finished[job] + RunCount(p.workers, job)
  }

  predicate Awake(p: Pool) {
    && |p.workers| > 0
    && (p.notified ==> p.shutdown && Asleep !in p.workers)
    && (Exited in p.workers ==> p.shutdown)
    && (if p.late == 0 then p.jobs != [] ==> SomeoneActive(p) else p.jobs != [] && AllExited(p))
  }

  lemma StepConserves(p: Pool, s: Step)
    requires Conserved(p) && Enabled(p, s)
    ensures Conserved(Do(p, s))
  {
    forall job
      ensures JobConserved(Do(p, s), job)
    {
      assert JobConserved(p, job);
      JobStays(p, s, job);
    }
  }

  lemma CheckedJobStays(p: Pool, w: nat, job: Job)
    requires JobConserved(p, job) && Enabled(p, Check(w))
    ensures JobConserved(Do(p, Check(w)), job)
  {
    OneJob(p.workers, w, Do(p, Check(w)).workers[w], job);
    if p.jobs != [] {
      assert multiset(p.started + [p.jobs[0]]) == multiset(p.started) + multiset{p.jobs[0]};
    }
  }

  lemma FinishedJobStays(p: Pool, w: nat, job: Job)
    requires JobConserved(p, job) && Enabled(p, Finish(w))
    ensures JobConserved(Do(p, Finish(w)), job)
  {
    OneJob(p.workers, w, Ready, job);
  }

  lemma JobStays(p: Pool, s: Step, job: Job)
    requires JobConserved(p, job) && Enabled(p, s)
    ensures JobConserved(Do(p, s), job)
  {
    match s
    case Enqueue(_, woken) =>
      if woken != -1 { OneJob(p.workers, woken, Ready, job); }
    case Check(w) => CheckedJobStays(p, w, job);
    case Finish(w) => FinishedJobStays(p, w, job);
    case Spurious(w) => OneJob(p.workers, w, Ready, job);
    case SetShutdown =>
    case NotifyAll => WakeAllRunsTheSame(p.workers, job);
  }

  lemma StepKeepsAwake(p: Pool, s: Step)
    requires Awake(p) && Enabled(p, s)
    ensures Awake(Do(p, s))
  {
    var q := Do(p, s);
    match s
    case Enqueue(job, woken) =>
      if woken != -1 {
        assert q.workers[woken] in q.workers && p.workers[woken] in p.workers;
        UpdateKeeps(p.workers, woken, Ready);
      } else if !AllExited(p) {
        var w :| w in p.workers && !w.Exited?;
        assert w in q.workers;
      }
    case Check(w) =>
      assert p.workers[w] in p.workers && q.workers[w] in q.workers;
      UpdateKeeps(p.workers, w, q.workers[w]);
    case Finish(w) =>
      assert p.workers[w] in p.workers && q.workers[w] in q.workers;
      UpdateKeeps(p.workers, w, Ready);
    case Spurious(w) =>
      assert p.workers[w] in p.workers && q.workers[w] in q.workers;
      UpdateKeeps(p.workers, w, Ready);
    case SetShutdown =>
    case NotifyAll => WakeAllMembers(p.workers);
  }

  lemma UpdateKeeps(ws: seq<Worker>, i: nat, w: Worker)
    requires i < |ws|
    ensures forall v | v in ws[i := w] :: v == w || v in ws
    ensures forall v | v in ws :: v == ws[i] || v in ws[i := w]
  {
    forall v | v in ws
      ensures v == ws[i] || v in ws[i := w]
    {
      var k :| 0 <= k < |ws| && ws[k] == v;
      assert k != i ==> ws[i := w][k] == v;
    }
  }

  lemma WakeAllMembers(ws: seq<Worker>)
    ensures Asleep !in WakeAll(ws)
    ensures forall v | v in ws && !v.Asleep? :: v in WakeAll(ws)
    ensures forall v | v in WakeAll(ws) :: v in ws || (v.Ready? && Asleep in ws)
  {
    forall v | v in ws && !v.Asleep?
      ensures v in WakeAll(ws)
    {
      var k :| 0 <= k < |ws| && ws[k] == v;
      assert WakeAll(ws)[k] == v;
    }
  }

  // Over whole runs

  /** The jobs of the `enqueue` calls of a run, in order. */
  function JobsOf(steps: seq<Step>): seq<Job> {
    if steps == [] then [] else (if steps[0].Enqueue? then [steps[0].job] else []) + JobsOf(steps[1..])
  }

  /** Every job that is enqueued enters the pool. */
  lemma {:induction false} EveryJobEnters(p: Pool, steps: seq<Step>)
    requires Possible(p, steps)
    ensures Exec(p, steps).enqueued == p.enqueued + JobsOf(steps)
    decreases |steps|
  {
    if steps == [] {
      assert p.enqueued + [] == p.enqueued;
    } else {
      var q, job := Do(p, steps[0]), if steps[0].Enqueue? then [steps[0].job] else [];
      EveryJobEnters(q, steps[1..]);
      Entered(p, steps[0], job);
      InOrder(p.enqueued, job, JobsOf(steps[1..]));
    }
  }

  lemma Entered(p: Pool, s: Step, job: seq<Job>)
    requires Enabled(p, s) && job == if s.Enqueue? then [s.job] else []
    ensures Do(p, s).enqueued == p.enqueued + job
  {
  }

  lemma InOrder(a: seq<Job>, b: seq<Job>, c: seq<Job>)
    ensures (a + b) + c == a + (b + c)
  {
  }

  lemma {:induction false} RunKeeps(p: Pool, steps: seq<Step>)
    requires Conserved(p) && Awake(p) && Possible(p, steps)
    ensures Conserved(Exec(p, steps)) && Awake(Exec(p, steps))
    decreases |steps|
  {
    if steps != [] {
      StepConserves(p, steps[0]);
      StepKeepsAwake(p, steps[0]);
      RunKeeps(Do(p, steps[0]), steps[1..]);
    }
  }

  ghost predicate Reachable(n: nat, p: Pool) {
    exists steps :: Possible(Init(n), steps) && Exec(Init(n), steps) == p
  }

  lemma ReachableKeeps(n: nat, p: Pool)
    requires n > 0 && Reachable(n, p)
    ensures Conserved(p) && Awake(p)
  {
    var steps :| Possible(Init(n), steps) && Exec(Init(n), steps) == p;
    forall job { NobodyRuns(Init(n).workers, job); }
    RunKeeps(Init(n), steps);
  }

  /** The pool after a run, seen from the steps alone. */
  lemma RunIsReachable(n: nat, steps: seq<Step>)
    requires Possible(Init(n), steps)
    ensures Reachable(n, Exec(Init(n), steps))
    ensures Exec(Init(n), steps).enqueued == JobsOf(steps)
  {
    EveryJobEnters(Init(n), steps);
    assert [] + JobsOf(steps) == JobsOf(steps);
  }

  /** In every run a pool with queued jobs has a worker that is neither asleep nor gone, exactly as
      long as nothing was enqueued after the last worker had left. */
  lemma NoLostWakeUp(n: nat, p: Pool)
    requires n > 0 && Reachable(n, p)
    ensures (p.jobs != [] ==> SomeoneActive(p)) <==> p.late == 0
    ensures p.notified ==> Asleep !in p.workers
  {
    ReachableKeeps(n, p);
  }

  /** Jobs are taken in the order of the `enqueue` calls, each one once, and none disappears. */
  lemma FirstInFirstOut(n: nat, steps: seq<Step>)
    requires n > 0 && Possible(Init(n), steps)
    ensures var p, all := Exec(Init(n), steps), JobsOf(steps);
      && p.started <= all && p.jobs == all[|p.started|..]
      && forall job :: multiset(all)[job] == p.finished[job] + RunCount(p.workers, job) + multiset(p.jobs)[job]
  {
    var p := Exec(Init(n), steps);
    RunIsReachable(n, steps);
    ReachableKeeps(n, p);
    assert multiset(p.started + p.jobs) == multiset(p.started) + multiset(p.jobs);
    assert forall job ::
      JobConserved(p, job) ==> multiset(p.started)[job] == p.finished[job] + RunCount(p.workers, job);
  }

  lemma AllFinished(p: Pool)
    requires Conserved(p) && Awake(p) && AllExited(p) && p.late == 0
    ensures p.jobs == [] && p.finished == multiset(p.enqueued)
  {
    forall job
      ensures p.finished[job] == multiset(p.started)[job]
    {
      assert JobConserved(p, job);
      NobodyRuns(p.workers, job);
    }
    assert p.started == p.started + p.jobs;
  }

  /** When all workers have exited every job has finished, except those that came too late. */
  lemma Drained(n: nat, steps: seq<Step>)
    requires n > 0 && Possible(Init(n), steps) && AllExited(Exec(Init(n), steps))
    ensures var p, all := Exec(Init(n), steps), JobsOf(steps);
      && (p.late == 0 <==> p.finished == multiset(all))
      && (p.late == 0 ==> p.jobs == [] && p.started == all)
  {
    var p, all := Exec(Init(n), steps), JobsOf(steps);
    RunIsReachable(n, steps);
    ReachableKeeps(n, p);
    if p.late == 0 {
      AllFinished(p);
      assert all[|p.started|..] == p.jobs ==> |all| == |p.started|;
    } else {
      FirstInFirstOut(n, steps);
      var job := p.jobs[0];
      NobodyRuns(p.workers, job);
      assert multiset(all)[job] == p.finished[job] + RunCount(p.workers, job) + multiset(p.jobs)[job];
      assert job in p.jobs;
    }
  }

  // The rule a caller can keep

  predicate Enqueues(steps: seq<Step>) { exists s :: s in steps && s.Enqueue? }

  /** No job comes once `shutdown` has set its flag. */
  predicate NoEnqueueAfterShutdown(steps: seq<Step>)
    decreases |steps|
  {
    steps == [] || ((steps[0].SetShutdown? ==> !Enqueues(steps[1..])) && NoEnqueueAfterShutdown(steps[1..]))
  }

  lemma NobodyHasLeft(p: Pool)
    requires Awake(p) && !p.shutdown
    ensures !AllExited(p)
  {
    assert p.workers[0] in p.workers;
  }

  lemma {:induction false} NeverLate(p: Pool, steps: seq<Step>)
    requires Awake(p) && p.late == 0 && Possible(p, steps)
    requires NoEnqueueAfterShutdown(steps) && (p.shutdown ==> !Enqueues(steps))
    ensures Exec(p, steps).late == 0
    decreases |steps|
  {
    if steps != [] {
      assert steps[0] in steps && forall s | s in steps[1..] :: s in steps;
      if steps[0].Enqueue? {
        NobodyHasLeft(p);
      }
      StepKeepsAwake(p, steps[0]);
      NeverLate(Do(p, steps[0]), steps[1..]);
    }
  }

  /** As long as nobody enqueues after the shutdown flag is set, whatever the interleaving: a queued job has an
      active worker, and when the workers have left every job has been taken in its turn and has finished. */
  lemma SafeUntilShutdown(n: nat, steps: seq<Step>)
    requires n > 0 && Possible(Init(n), steps) && NoEnqueueAfterShutdown(steps)
    ensures var p := Exec(Init(n), steps);
      && p.late == 0
      && (p.jobs != [] ==> SomeoneActive(p))
      && (AllExited(p) ==> p.jobs == [] && p.started == JobsOf(steps) && p.finished == multiset(JobsOf(steps)))
  {
    var p := Exec(Init(n), steps);
    assert Awake(Init(n)) by {
      assert Init(n).workers[0] in Init(n).workers;
    }
    NeverLate(Init(n), steps);
    RunIsReachable(n, steps);
    NoLostWakeUp(n, p);
    if AllExited(p) {
      Drained(n, steps);
    }
  }

  /** The rule is needed: with one worker, a job that comes after the shutdown can find nobody left. */
  lemma LateIsReachable(job: Job)
    ensures exists p :: Reachable(1, p) && AllExited(p) && p.jobs == [job] && p.late == 1
  {
    var steps := [SetShutdown, NotifyAll, Check(0), Enqueue(job, -1)];
    var p0 := Init(1);
    var p1 := Do(p0, SetShutdown);
    var p2 := Do(p1, NotifyAll);
    assert p2.workers == [Ready];
    var p3 := Do(p2, Check(0));
    assert p3.workers == [Exited];
    var p4 := Do(p3, Enqueue(job, -1));
    Unroll(p3, Enqueue(job, -1), [], p4);
    Unroll(p2, Check(0), [Enqueue(job, -1)], p3);
    Unroll(p1, NotifyAll, [Check(0), Enqueue(job, -1)], p2);
    Unroll(p0, SetShutdown, [NotifyAll, Check(0), Enqueue(job, -1)], p1);
    assert Possible(Init(1), steps) && Exec(Init(1), steps) == p4;
  }

  lemma Unroll(p: Pool, s: Step, more: seq<Step>, q: Pool)
    requires Enabled(p, s) && Do(p, s) == q && Possible(q, more)
    ensures Possible(p, [s] + more) && Exec(p, [s] + more) == Exec(q, more)
  {
    assert ([s] + more)[1..] == more;
  }

  // Termination of `shutdown`

  predicate WorkerStep(s: Step) { s.Check? || s.Finish? }

  predicate WorkerSteps(steps: seq<Step>) { forall s | s in steps :: WorkerStep(s) }

  function Measure(p: Pool): nat { 2 * |p.jobs| + Ranks(p.workers) }

  predicate Closing(p: Pool) { p.shutdown && Asleep !in p.workers }

  /** No worker ever spins: each of its steps uses up one of the steps there are. */
  lemma WorkerStepDescends(p: Pool, s: Step)
    requires Enabled(p, s) && WorkerStep(s)
    ensures Measure(Do(p, s)) + 1 == Measure(p)
  {
    OneRank(p.workers, s.w, Do(p, s).workers[s.w]);
  }

  /** After `notify_all` there is nothing to wake, and every step of a worker is one step nearer to
      the end. */
  lemma ClosingStep(p: Pool, s: Step)
    requires Closing(p) && Enabled(p, s) && WorkerStep(s)
    ensures Closing(Do(p, s)) && Measure(Do(p, s)) + 1 == Measure(p)
  {
    WorkerStepDescends(p, s);
    UpdateKeeps(p.workers, s.w, Do(p, s).workers[s.w]);
  }

  lemma SomeStep(p: Pool)
    requires Closing(p) && !AllExited(p)
    ensures exists s :: Enabled(p, s) && WorkerStep(s)
  {
    var w :| w in p.workers && !w.Exited?;
    var i :| 0 <= i < |p.workers| && p.workers[i] == w;
    assert Enabled(p, if w.Ready? then Check(i) else Finish(i));
  }

  lemma {:induction false} ClosingRun(p: Pool, steps: seq<Step>)
    requires Closing(p) && Possible(p, steps) && WorkerSteps(steps)
    ensures Closing(Exec(p, steps)) && Measure(Exec(p, steps)) + |steps| == Measure(p)
    decreases |steps|
  {
    if steps != [] {
      assert steps[0] in steps && forall s | s in steps[1..] :: s in steps;
      ClosingStep(p, steps[0]);
      ClosingRun(Do(p, steps[0]), steps[1..]);
    }
  }

  /** `shutdown` returns from its joins: once everybody has been notified, and whatever the order in
      which the workers run, they have all exited after exactly `Measure` steps and can take a
      further step at any time before that. With no late job the queue is then empty and every job
      has finished. */
  lemma ShutdownEnds(n: nat, before: seq<Step>, steps: seq<Step>)
    requires n > 0 && Possible(Init(n), before)
    requires var p := Exec(Init(n), before); p.notified && p.late == 0 && Possible(p, steps) && WorkerSteps(steps)
    ensures var p := Exec(Init(n), before);
      var q := Exec(p, steps);
      && |steps| <= Measure(p)
      && (|steps| == Measure(p) <==> AllExited(q))
      && (|steps| < Measure(p) ==> exists s :: Enabled(q, s) && WorkerStep(s))
      && (AllExited(q) ==> q.jobs == [] && q.finished == multiset(JobsOf(before)))
  {
    var p := Exec(Init(n), before);
    RunIsReachable(n, before);
    ReachableKeeps(n, p);
    RunKeeps(p, steps);
    ClosingRun(p, steps);
    NoMoreJobs(p, steps);
    var q := Exec(p, steps);
    RanksOfNobody(q.workers);
    if AllExited(q) {
      AllFinished(q);
    } else {
      SomeStep(q);
    }
  }

  lemma {:induction false} NoMoreJobs(p: Pool, steps: seq<Step>)
    requires Possible(p, steps) && WorkerSteps(steps)
    ensures Exec(p, steps).enqueued == p.enqueued && Exec(p, steps).late == p.late
    decreases |steps|
  {
    if steps != [] {
      assert steps[0] in steps && forall s | s in steps[1..] :: s in steps;
      NoMoreJobs(Do(p, steps[0]), steps[1..]);
    }
  }

  /** `enqueue` does not look at `shutdown_`: a job that comes after the last worker has left stays in
      the queue for good. */
  lemma LateJobIsStranded(p: Pool, job: Job, steps: seq<Step>)
    requires AllExited(p) && Possible(p, [Enqueue(job, -1)] + steps)
    ensures var q := Exec(p, [Enqueue(job, -1)] + steps);
      AllExited(q) && p.jobs + [job] <= q.jobs && q.started == p.started
  {
    var all := [Enqueue(job, -1)] + steps;
    assert all[0] == Enqueue(job, -1) && all[1..] == steps;
    NothingRuns(Do(p, all[0]), steps);
  }

  lemma {:induction false} NothingRuns(p: Pool, steps: seq<Step>)
    requires AllExited(p) && Possible(p, steps)
    ensures var q := Exec(p, steps); AllExited(q) && p.jobs <= q.jobs && q.started == p.started
    decreases |steps|
  {
    if steps != [] {
      assert forall i | 0 <= i < |p.workers| :: p.workers[i] in p.workers;
      NothingRuns(Do(p, steps[0]), steps[1..]);
    }
  }
}
