/**
 The worker pool of src/thread_pool.cpp as a step system: one mutex, one condition variable,
 an unbounded FIFO of tasks, n worker threads and one destructor. Everything a thread does
 between taking and releasing the mutex is one step; so is each notify, wake-up and join.
 Any interleaving of enabled steps is a run.
 */
module ThreadPool {
  import opened Options

  type Task = nat  // the identity of one submitted closure

  /** Where a worker thread stands in its loop. */
  datatype Worker =
    | Ready                // awake, about to take the mutex and test the wait predicate
    | Asleep               // blocked in the condition variable's wait set
    | Running(task: Task)  // outside the mutex, inside its task
    | Exited               // returned from the loop

  /** Where the destructor stands. */
  datatype Phase = Live | Flagged | Joining(joined: nat)

  /** The pool's fields, the threads around it, and the history of the run so far. */
  datatype Pool = Pool(
    queue: seq<Task>,
    shutdown: bool,
    workers: seq<Worker>,
    notifies: nat,  // submitters that have pushed and released the mutex but not yet notified
    phase: Phase,
    submitted: seq<Task>,
    taken: seq<Task>,
    finished: seq<Task>)

  datatype Action =
    | Push(task: Task)
    | NotifyOne(woken: Option<nat>)
    | Acquire(worker: nat)
    | SpuriousWake(worker: nat)
    | Finish(worker: nat, threw: bool)
    | SetShutdown
    | NotifyAll
    | Join

  function Init(n: nat): Pool {
    Pool([], false, seq(n, _ => Ready), 0, Live, [], [], [])
  }

  predicate At(p: Pool, w: nat, state: Worker) {
    w < |p.workers| && p.workers[w] == state
  }

  predicate SomeAsleep(p: Pool) {
    Asleep in p.workers
  }

  /** No submit once destruction has started: the one demand the pool makes of its owner. */
  predicate Enabled(p: Pool, a: Action) {
    match a
    case Push(_) => p.phase == Live
    case NotifyOne(None) => p.notifies > 0 && !SomeAsleep(p)
    case NotifyOne(Some(w)) => p.notifies > 0 && At(p, w, Asleep)
    case Acquire(w) => At(p, w, Ready)
    case SpuriousWake(w) => At(p, w, Asleep)
    case Finish(w, _) => w < |p.workers| && p.workers[w].Running?
    case SetShutdown => p.phase == Live
    case NotifyAll => p.phase == Flagged
    case Join => p.phase.Joining? && At(p, p.phase.joined, Exited)
  }

  function Set(p: Pool, w: nat, state: Worker): Pool
    requires w < |p.workers|
  {
    p.(workers := p.workers[w := state])
  }

  /** The critical section of worker_loop: sleep, leave, or take the front task. */
  function AcquireStep(p: Pool, w: nat): Pool
    requires At(p, w, Ready)
  {
    if p.queue == [] then
      Set(p, w, if p.shutdown then Exited else Asleep)
    else
      Set(p, w, Running(p.queue[0])).(queue := p.queue[1..], taken := p.taken + [p.queue[0]])
  }

  function WakeAll(ws: seq<Worker>): (r: seq<Worker>)
    ensures |r| == |ws|
    ensures forall i :: 0 <= i < |ws| ==> r[i] == if ws[i] == Asleep then Ready else ws[i]
  {
    seq(|ws|, i requires 0 <= i < |ws| => if ws[i] == Asleep then Ready else ws[i])
  }

  function Apply(p: Pool, a: Action): Pool
    requires Enabled(p, a)
  {
    match a
    case Push(t) => p.(queue := p.queue + [t], notifies := p.notifies + 1, submitted := p.submitted + [t])
    case NotifyOne(None) => p.(notifies := p.notifies - 1)
    case NotifyOne(Some(w)) => Set(p, w, Ready).(notifies := p.notifies - 1)
    case Acquire(w) => AcquireStep(p, w)
    case SpuriousWake(w) => Set(p, w, Ready)
    case Finish(w, _) => Set(p, w, Ready).(finished := p.finished + [p.workers[w].task])
    case SetShutdown => p.(shutdown := true, phase := Flagged)
    case NotifyAll => p.(workers := WakeAll(p.workers), phase := Joining(0))
    case Join => p.(phase := Joining(p.phase.joined + 1))
  }

  /** The scheduler is free: what each thread may do next depends on nothing but where it stands. */
  lemma NothingForbidden(p: Pool, w: nat, t: Task)
    ensures p.phase == Live ==> Enabled(p, Push(t)) && Enabled(p, SetShutdown)
    ensures At(p, w, Ready) ==> Enabled(p, Acquire(w))
    ensures At(p, w, Asleep) ==> Enabled(p, SpuriousWake(w)) && (p.notifies > 0 ==> Enabled(p, NotifyOne(Some(w))))
    ensures p.notifies > 0 && Asleep !in p.workers ==> Enabled(p, NotifyOne(None))
  {
  }

  /** A task may return or throw, and either way it has run and its worker goes on. */
  lemma ThrowingCountsAsRun(p: Pool, w: nat, t: Task)
    requires At(p, w, Running(t))
    ensures Enabled(p, Finish(w, false)) && Enabled(p, Finish(w, true))
    ensures Apply(p, Finish(w, true)) == Apply(p, Finish(w, false))
    ensures At(Apply(p, Finish(w, true)), w, Ready) && Apply(p, Finish(w, true)).finished == p.finished + [t]
  {
  }

  /** The run that takes the actions of schedule in order leads from p to q. */
  ghost predicate Executes(p: Pool, schedule: seq<Action>, q: Pool)
    decreases |schedule|
  {
    if schedule == [] then p == q
    else Enabled(p, schedule[0]) && Executes(Apply(p, schedule[0]), schedule[1..], q)
  }

  ghost predicate Destroyed(p: Pool) {
    p.phase == Joining(|p.workers|)
  }

  // ---- Counting over the workers

  /** What one worker in each state contributes to a sum; an exited worker contributes nothing. */
  datatype Weights = Weights(ready: nat, asleep: nat, running: nat)

  function Cost(w: Worker, k: Weights): nat {
    match w
    case Ready => k.ready
    case Asleep => k.asleep
    case Running(_) => k.running
    case Exited => 0
  }

  function Total(ws: seq<Worker>, k: Weights): nat {
    if ws == [] then 0 else Cost(ws[0], k) + Total(ws[1..], k)
  }

  /** How many workers are inside a run of t. */
  function RunsOf(ws: seq<Worker>, t: Task): nat {
    if ws == [] then 0 else (if ws[0] == Running(t) then 1 else 0) + RunsOf(ws[1..], t)
  }

  const READY := Weights(1, 0, 0)

  lemma {:induction false} TotalUpdate(ws: seq<Worker>, i: nat, w: Worker, k: Weights)
    requires i < |ws|
    ensures Total(ws[i := w], k) + Cost(ws[i], k) == Total(ws, k) + Cost(w, k)
  {
    if i == 0 {
      assert ws[i := w][1..] == ws[1..];
    } else {
      assert ws[i := w][1..] == ws[1..][i - 1 := w];
      TotalUpdate(ws[1..], i - 1, w, k);
    }
  }

  lemma {:induction false} TotalWakeAll(ws: seq<Worker>, k: Weights)
    ensures Total(WakeAll(ws), k) == Total(ws, k.(asleep := k.ready))
  {
    if ws == [] {
    } else {
      assert WakeAll(ws)[1..] == WakeAll(ws[1..]);
      TotalWakeAll(ws[1..], k);
    }
  }

  lemma {:induction false} TotalMonotone(ws: seq<Worker>, k: Weights)
    ensures Total(ws, k) <= Total(ws, k.(asleep := k.asleep + 1)) <= Total(ws, k) + |ws|
  {
    if ws == [] {
    } else {
      TotalMonotone(ws[1..], k);
    }
  }

  lemma {:induction false} TotalWitness(ws: seq<Worker>, k: Weights) returns (i: nat)
    requires Total(ws, k) > 0
    ensures i < |ws| && Cost(ws[i], k) > 0
  {
    if Cost(ws[0], k) > 0 {
      i := 0;
    } else {
      i := TotalWitness(ws[1..], k);
      i := i + 1;
    }
  }

  lemma {:induction false} RunsUpdate(ws: seq<Worker>, i: nat, w: Worker, t: Task)
    requires i < |ws|
    ensures RunsOf(ws[i := w], t) + (if ws[i] == Running(t) then 1 else 0)
         == RunsOf(ws, t) + (if w == Running(t) then 1 else 0)
  {
    if i == 0 {
      assert ws[i := w][1..] == ws[1..];
    } else {
      assert ws[i := w][1..] == ws[1..][i - 1 := w];
      RunsUpdate(ws[1..], i - 1, w, t);
    }
  }

  lemma {:induction false} RunsNone(ws: seq<Worker>, t: Task)
    requires Running(t) !in ws
    ensures RunsOf(ws, t) == 0
  {
    if ws == [] {
    } else {
      RunsNone(ws[1..], t);
    }
  }

  lemma {:induction false} RunsWakeAll(ws: seq<Worker>, t: Task)
    ensures RunsOf(WakeAll(ws), t) == RunsOf(ws, t)
  {
    if ws == [] {
    } else {
      assert WakeAll(ws)[1..] == WakeAll(ws[1..]);
      RunsWakeAll(ws[1..], t);
    }
  }

  // ---- The invariant

  /** Either nobody sleeps, or every queued task is matched by a notify on its way or an awake idle worker. */
  ghost predicate WorkConserving(p: Pool) {
    SomeAsleep(p) ==> |p.queue| <= p.notifies + Total(p.workers, READY)
  }

  /** Every submitted task is queued, running or finished, once; tasks leave in submission order. */
  ghost predicate Accounted(p: Pool) {
    && p.taken + p.queue == p.submitted
    && forall t :: multiset(p.finished)[t] + RunsOf(p.workers, t) == multiset(p.taken)[t]
  }

  /** A worker leaves only after the flag with an empty queue; after notify_all nobody sleeps. */
  ghost predicate Orderly(p: Pool) {
    && p.shutdown == (p.phase != Live)
    && (Exited in p.workers ==> p.shutdown && p.queue == [])
    && (p.phase.Joining? ==>
          && !SomeAsleep(p)
          && p.phase.joined <= |p.workers|
          && forall j :: 0 <= j < p.phase.joined ==> p.workers[j] == Exited)
  }

  ghost predicate Inv(p: Pool) {
    WorkConserving(p) && Accounted(p) && Orderly(p)
  }

  lemma InitInv(n: nat)
    ensures Inv(Init(n))
  {
    forall t ensures RunsOf(Init(n).workers, t) == 0 {
      RunsNone(Init(n).workers, t);
    }
  }

  lemma StepWorkConserving(p: Pool, a: Action)
    requires Inv(p) && Enabled(p, a)
    ensures WorkConserving(Apply(p, a))
  {
    match a
    case NotifyOne(Some(w)) => TotalUpdate(p.workers, w, Ready, READY);
    case Acquire(w) => TotalUpdate(p.workers, w, Apply(p, a).workers[w], READY);
    case SpuriousWake(w) => TotalUpdate(p.workers, w, Ready, READY);
    case Finish(w, _) => TotalUpdate(p.workers, w, Ready, READY);
    case _ =>
  }

  lemma StepFifo(p: Pool, a: Action)
    requires p.taken + p.queue == p.submitted && Enabled(p, a)
    ensures Apply(p, a).taken + Apply(p, a).queue == Apply(p, a).submitted
  {
    if a.Acquire? && p.queue != [] {
      assert p.queue == [p.queue[0]] + p.queue[1..];
    }
  }

  lemma StepRuns(p: Pool, a: Action, t: Task)
    requires Enabled(p, a)
    requires multiset(p.finished)[t] + RunsOf(p.workers, t) == multiset(p.taken)[t]
    ensures multiset(Apply(p, a).finished)[t] + RunsOf(Apply(p, a).workers, t) == multiset(Apply(p, a).taken)[t]
  {
    match a
    case NotifyOne(Some(w)) => RunsUpdate(p.workers, w, Ready, t);
    case Acquire(w) => RunsUpdate(p.workers, w, Apply(p, a).workers[w], t);
    case SpuriousWake(w) => RunsUpdate(p.workers, w, Ready, t);
    case Finish(w, _) => RunsUpdate(p.workers, w, Ready, t);
    case NotifyAll => RunsWakeAll(p.workers, t);
    case _ =>
  }

  lemma StepAccounted(p: Pool, a: Action)
    requires Accounted(p) && Enabled(p, a)
    ensures Accounted(Apply(p, a))
  {
    hide Apply, Enabled, RunsOf;
    StepFifo(p, a);
    var q := Apply(p, a);
    forall t ensures multiset(q.finished)[t] + RunsOf(q.workers, t) == multiset(q.taken)[t] {
      StepRuns(p, a, t);
    }
  }

  lemma StepOrderly(p: Pool, a: Action)
    requires Inv(p) && Enabled(p, a)
    ensures Orderly(Apply(p, a))
  {
  }

  lemma StepInv(p: Pool, a: Action)
    requires Inv(p) && Enabled(p, a)
    ensures Inv(Apply(p, a))
  {
    StepWorkConserving(p, a);
    StepAccounted(p, a);
    StepOrderly(p, a);
  }

  lemma {:induction false} RunInv(p: Pool, schedule: seq<Action>, q: Pool)
    requires Inv(p) && Executes(p, schedule, q)
    ensures Inv(q) && |q.workers| == |p.workers|
    decreases |schedule|
  {
    if schedule == [] {
    } else {
      StepInv(p, schedule[0]);
      RunInv(Apply(p, schedule[0]), schedule[1..], q);
    }
  }

  // ---- What the schedule alone says

  /** The tasks submitted by a schedule, in order. */
  function Submissions(schedule: seq<Action>): seq<Task> {
    if schedule == [] then []
    else (if schedule[0].Push? then [schedule[0].task] else []) + Submissions(schedule[1..])
  }

  function NotifyOnes(schedule: seq<Action>): nat {
    if schedule == [] then 0 else (if schedule[0].NotifyOne? then 1 else 0) + NotifyOnes(schedule[1..])
  }

  function Finishes(schedule: seq<Action>): nat {
    if schedule == [] then 0 else (if schedule[0].Finish? then 1 else 0) + Finishes(schedule[1..])
  }

  lemma StepHistory(p: Pool, a: Action)
    requires Enabled(p, a)
    ensures var q := Apply(p, a);
            && q.submitted == p.submitted + (if a.Push? then [a.task] else [])
            && |q.workers| == |p.workers|
            && q.notifies + (if a.NotifyOne? then 1 else 0) == p.notifies + (if a.Push? then 1 else 0)
            && |q.finished| == |p.finished| + (if a.Finish? then 1 else 0)
            && (q.shutdown <==> p.shutdown || a == SetShutdown)
  {
  }

  lemma {:induction false} RunHistory(p: Pool, schedule: seq<Action>, q: Pool)
    requires Executes(p, schedule, q)
    ensures q.submitted == p.submitted + Submissions(schedule)
    ensures |q.workers| == |p.workers|
    ensures q.notifies + NotifyOnes(schedule) == p.notifies + |Submissions(schedule)|
    ensures |q.finished| == |p.finished| + Finishes(schedule)
    decreases |schedule|
  {
    if schedule == [] {
    } else {
      StepHistory(p, schedule[0]);
      hide Apply, Enabled;
      var next := Apply(p, schedule[0]);
      RunHistory(next, schedule[1..], q);
      Associates(p.submitted, if schedule[0].Push? then [schedule[0].task] else [], Submissions(schedule[1..]));
    }
  }

  lemma Associates(a: seq<Task>, b: seq<Task>, c: seq<Task>)
    ensures a + b + c == a + (b + c)
  {
  }

  lemma {:induction false} RunShutdown(p: Pool, schedule: seq<Action>, q: Pool)
    requires Executes(p, schedule, q)
    ensures q.shutdown <==> p.shutdown || SetShutdown in schedule
    decreases |schedule|
  {
    if schedule == [] {
    } else {
      StepHistory(p, schedule[0]);
      hide Apply, Enabled;
      RunShutdown(Apply(p, schedule[0]), schedule[1..], q);
      assert schedule == [schedule[0]] + schedule[1..];
    }
  }

  /**
   The pool's history is its schedule's: n workers, all ready at the start; the tasks submitted,
   in order; one notify owed for each submit; one finish for each end of a task.
   */
  lemma HistoryFollows(n: nat, schedule: seq<Action>, p: Pool)
    requires Executes(Init(n), schedule, p)
    ensures |p.workers| == n && p.submitted == Submissions(schedule)
    ensures p.notifies + NotifyOnes(schedule) == |Submissions(schedule)| && |p.finished| == Finishes(schedule)
    ensures p.shutdown <==> SetShutdown in schedule
    ensures schedule == [] ==> p.queue == [] && forall w :: w in p.workers ==> w == Ready
  {
    RunHistory(Init(n), schedule, p);
    RunShutdown(Init(n), schedule, p);
  }

  // ---- Safety over every run

  /** No lost wake-up, under any interleaving and any spurious wakes. */
  lemma NoLostWakeup(n: nat, schedule: seq<Action>, p: Pool)
    requires Executes(Init(n), schedule, p)
    ensures SomeAsleep(p) ==> |p.queue| <= p.notifies + Total(p.workers, READY)
  {
    InitInv(n);
    RunInv(Init(n), schedule, p);
  }

  /** Tasks are taken in submission order, and each submission is run at most once. */
  lemma TakenInOrder(n: nat, schedule: seq<Action>, p: Pool)
    requires Executes(Init(n), schedule, p)
    ensures p.taken <= Submissions(schedule)
    ensures multiset(p.finished) <= multiset(Submissions(schedule))
  {
    HistoryFollows(n, schedule, p);
    InitInv(n);
    RunInv(Init(n), schedule, p);
    assert multiset(p.submitted) == multiset(p.taken) + multiset(p.queue);
  }

  /** A destroyed pool of at least one worker is drained. */
  lemma DestroyedDrained(p: Pool)
    requires Inv(p) && |p.workers| >= 1 && Destroyed(p)
    ensures p.queue == [] && forall w :: w in p.workers ==> w == Exited
    ensures p.taken == p.submitted && multiset(p.finished) == multiset(p.submitted)
  {
    assert p.workers[0] == Exited;
    forall t ensures multiset(p.finished)[t] == multiset(p.submitted)[t] {
      RunsNone(p.workers, t);
    }
  }

  /** When the destructor's last join returns, every submitted task has run exactly once. */
  lemma FullDrain(n: nat, schedule: seq<Action>, p: Pool)
    requires n >= 1 && Executes(Init(n), schedule, p) && Destroyed(p)
    ensures p.queue == [] && forall w :: w in p.workers ==> w == Exited
    ensures p.taken == Submissions(schedule) && multiset(p.finished) == multiset(Submissions(schedule))
  {
    HistoryFollows(n, schedule, p);
    InitInv(n);
    RunInv(Init(n), schedule, p);
    hide Inv, Executes;
    DestroyedDrained(p);
  }

  /** A pool of no workers can be destroyed with its task still queued: one worker is needed. */
  lemma NoWorkersNoDrain(t: Task) returns (schedule: seq<Action>, p: Pool)
    ensures Executes(Init(0), schedule, p) && Destroyed(p) && p.queue == [t]
  {
    var p0 := Init(0);
    var p1 := Apply(p0, Push(t));
    var p2 := Apply(p1, SetShutdown);
    p := Apply(p2, NotifyAll);
    assert Executes(p, [], p);
    assert Executes(p2, [NotifyAll], p);
    assert [SetShutdown, NotifyAll][1..] == [NotifyAll];
    assert Executes(p1, [SetShutdown, NotifyAll], p);
    schedule := [Push(t), SetShutdown, NotifyAll];
    assert schedule[1..] == [SetShutdown, NotifyAll];
  }

  /** In every run of a pool of n workers, destruction leaves the queue empty. */
  ghost predicate AlwaysDrains(n: nat) {
    forall schedule, p :: Executes(Init(n), schedule, p) && Destroyed(p) ==> p.queue == []
  }

  /** Full drain holds in every run exactly when the pool has a worker. */
  lemma DrainsIffWorkers(n: nat)
    ensures AlwaysDrains(n) <==> n >= 1
  {
    if n == 0 {
      var schedule, p := NoWorkersNoDrain(0);
      hide Executes, Init, Destroyed;
      assert Executes(Init(n), schedule, p) && Destroyed(p) && p.queue != [];
    } else {
      forall schedule, p | Executes(Init(n), schedule, p) && Destroyed(p) ensures p.queue == [] {
        FullDrain(n, schedule, p);
      }
    }
  }

  /** Once notify_all has fired, no worker is asleep, then or ever after. */
  lemma NobodySleepsAgain(n: nat, schedule: seq<Action>, p: Pool)
    requires Executes(Init(n), schedule, p) && p.phase.Joining?
    ensures !SomeAsleep(p) && forall a :: Enabled(p, a) ==> !SomeAsleep(Apply(p, a))
  {
    InitInv(n);
    RunInv(Init(n), schedule, p);
    forall a | Enabled(p, a) ensures !SomeAsleep(Apply(p, a)) {
      StepOrderly(p, a);
    }
  }

  // ---- Progress

  /** A step some thread takes by itself: not a new submit, not a spurious wake, not the owner's decision to stop. */
  predicate Internal(a: Action) {
    !a.Push? && !a.SpuriousWake? && !a.SetShutdown?
  }

  /** The steps that move a queued task on: a pending notify, an awake worker's next take, the end of a task. */
  predicate Serves(a: Action) {
    a.NotifyOne? || a.Acquire? || a.Finish?
  }

  function PhaseWeight(p: Pool): int {
    match p.phase
    case Live => 3 * |p.workers| + 2
    case Flagged => |p.workers| + 1
    case Joining(k) => |p.workers| - k
  }

  function Measure(p: Pool): int {
    2 * |p.queue| + 2 * p.notifies + PhaseWeight(p)
    + Total(p.workers, Weights(1, if p.shutdown then 2 else 0, 2))
  }

  lemma MeasureNonNegative(p: Pool)
    requires Inv(p)
    ensures Measure(p) >= 0
  {
  }

  /**
   Every step but a push or a spurious wake of a live pool strictly decreases the measure;
   after the flag is set, every step whatsoever does.
   */
  lemma StepDecreases(p: Pool, a: Action)
    requires Inv(p) && Enabled(p, a)
    requires p.shutdown || (!a.Push? && !a.SpuriousWake?)
    ensures Measure(Apply(p, a)) < Measure(p)
  {
    var q := Apply(p, a);
    var k := Weights(1, if p.shutdown then 2 else 0, 2);
    match a
    case NotifyOne(Some(w)) => TotalUpdate(p.workers, w, Ready, k);
    case Acquire(w) => TotalUpdate(p.workers, w, q.workers[w], k);
    case SpuriousWake(w) => TotalUpdate(p.workers, w, Ready, k);
    case Finish(w, _) => TotalUpdate(p.workers, w, Ready, k);
    case SetShutdown =>
      TotalMonotone(p.workers, k);
      TotalMonotone(p.workers, k.(asleep := 1));
    case NotifyAll =>
      TotalWakeAll(p.workers, k);
      TotalMonotone(p.workers, k.(asleep := 1));
    case _ =>
  }

  /** With at least one worker, a queued task always has a step in reach that serves it. */
  lemma ServeQueued(p: Pool)
    requires Inv(p) && |p.workers| >= 1 && p.queue != []
    ensures exists a :: Serves(a) && Enabled(p, a)
  {
    match p.workers[0]
    case Ready => assert Enabled(p, Acquire(0));
    case Running(_) => assert Enabled(p, Finish(0, false));
    case Exited => assert false;
    case Asleep =>
      if p.notifies > 0 {
        assert Enabled(p, NotifyOne(Some(0)));
      } else {
        var w := TotalWitness(p.workers, READY);
        assert Enabled(p, Acquire(w));
      }
  }

  /** The pool is never stuck with a queued task, all workers asleep and no notify on its way. */
  lemma NeverStuck(n: nat, schedule: seq<Action>, p: Pool)
    requires n >= 1 && Executes(Init(n), schedule, p) && p.queue != []
    ensures p.notifies > 0 || exists w :: w in p.workers && (w == Ready || w.Running?)
    ensures exists a :: Serves(a) && Enabled(p, a)
  {
    InitInv(n);
    RunInv(Init(n), schedule, p);
    ServeQueued(p);
    var a :| Serves(a) && Enabled(p, a);
    match a
    case NotifyOne(_) =>
    case Acquire(w) => assert p.workers[w] in p.workers;
    case Finish(w, _) => assert p.workers[w] in p.workers;
  }

  function Pushes(schedule: seq<Action>): nat {
    if schedule == [] then 0 else (if schedule[0].Push? then 1 else 0) + Pushes(schedule[1..])
  }

  function SpuriousWakes(schedule: seq<Action>): nat {
    if schedule == [] then 0 else (if schedule[0].SpuriousWake? then 1 else 0) + SpuriousWakes(schedule[1..])
  }

  /** A push of a live pool adds at most four to the measure, a spurious wake at most one. */
  lemma StepCosts(p: Pool, a: Action)
    requires Inv(p) && Enabled(p, a)
    ensures Measure(Apply(p, a)) < Measure(p) + (if a.Push? then 5 else 0) + (if a.SpuriousWake? then 2 else 0)
  {
    if p.shutdown || (!a.Push? && !a.SpuriousWake?) {
      StepDecreases(p, a);
    } else if a.SpuriousWake? {
      TotalUpdate(p.workers, a.worker, Ready, Weights(1, 0, 2));
    }
  }

  /**
   Every run is paid for by its pushes and spurious wakes: each push buys at most five steps,
   each spurious wake two, and the pool's own measure the rest.
   */
  lemma {:induction false} RunBounded(p: Pool, schedule: seq<Action>, q: Pool)
    requires Inv(p) && Executes(p, schedule, q)
    ensures |schedule| + Measure(q) <= Measure(p) + 5 * Pushes(schedule) + 2 * SpuriousWakes(schedule)
    decreases |schedule|
  {
    if schedule == [] {
    } else {
      var next := Apply(p, schedule[0]);
      StepCosts(p, schedule[0]);
      StepInv(p, schedule[0]);
      RunBounded(next, schedule[1..], q);
    }
  }

  ghost predicate AllInternal(schedule: seq<Action>) {
    forall i :: 0 <= i < |schedule| ==> Internal(schedule[i])
  }

  lemma {:induction false} InternalCounts(schedule: seq<Action>)
    requires AllInternal(schedule)
    ensures Pushes(schedule) == 0 && SpuriousWakes(schedule) == 0
  {
    if schedule == [] {
    } else {
      assert Internal(schedule[0]);
      InternalCounts(schedule[1..]);
    }
  }

  /**
   With no further submits and no spurious wakes the pool settles: every such run is at most
   Measure(p) long, and one that cannot be continued has emptied the queue.
   */
  lemma Settles(p: Pool, schedule: seq<Action>, q: Pool)
    requires Inv(p) && |p.workers| >= 1 && Executes(p, schedule, q) && AllInternal(schedule)
    ensures |schedule| + Measure(q) <= Measure(p) && Measure(q) >= 0
    ensures (forall a :: Serves(a) ==> !Enabled(q, a)) ==> q.queue == []
  {
    InternalCounts(schedule);
    RunBounded(p, schedule, q);
    RunInv(p, schedule, q);
    hide Executes, Measure, Inv;
    MeasureNonNegative(q);
    if q.queue != [] {
      ServeQueued(q);
    }
  }

  /** Once the flag is set every run is finite, whatever is scheduled and however often workers wake spuriously. */
  lemma {:induction false} ShutdownBounded(p: Pool, schedule: seq<Action>, q: Pool)
    requires Inv(p) && p.shutdown && Executes(p, schedule, q)
    ensures |schedule| <= Measure(p) && q.shutdown
    ensures |schedule| + Measure(q) <= Measure(p)
    decreases |schedule|
  {
    RunInv(p, schedule, q);
    MeasureNonNegative(q);
    if schedule == [] {
    } else {
      StepDecreases(p, schedule[0]);
      StepInv(p, schedule[0]);
      ShutdownBounded(Apply(p, schedule[0]), schedule[1..], q);
    }
  }

  /** After the flag, some internal step is enabled until the last join has returned. */
  lemma ShutdownProgress(p: Pool)
    requires Inv(p) && p.shutdown && !Destroyed(p)
    ensures exists a :: Internal(a) && Enabled(p, a)
  {
    if p.phase == Flagged {
      assert Enabled(p, NotifyAll);
    } else {
      var j := p.phase.joined;
      match p.workers[j]
      case Ready => assert Enabled(p, Acquire(j));
      case Running(_) => assert Enabled(p, Finish(j, false));
      case Exited => assert Enabled(p, Join);
      case Asleep => assert false;
    }
  }

  lemma {:induction false} ExecutesConcat(p: Pool, s: seq<Action>, q: Pool, t: seq<Action>, r: Pool)
    requires Executes(p, s, q) && Executes(q, t, r)
    ensures Executes(p, s + t, r)
    decreases |s|
  {
    if s == [] {
      assert s + t == t;
    } else {
      assert (s + t)[1..] == s[1..] + t;
      ExecutesConcat(Apply(p, s[0]), s[1..], q, t, r);
    }
  }

  /**
   The destructor returns: take any run in which the owner has set the flag. Its continuations
   are no longer than its measure, and one that no internal step can extend has joined every
   worker, with everything ever submitted run exactly once.
   */
  lemma DestructorReturns(n: nat, before: seq<Action>, p: Pool, after: seq<Action>, q: Pool)
    requires n >= 1 && Executes(Init(n), before, p) && p.shutdown && Executes(p, after, q)
    ensures |after| <= Measure(p)
    ensures (forall a :: Internal(a) ==> !Enabled(q, a)) ==>
              Destroyed(q) && multiset(q.finished) == multiset(Submissions(before + after))
  {
    InitInv(n);
    RunInv(Init(n), before, p);
    ShutdownBounded(p, after, q);
    RunInv(p, after, q);
    if !Destroyed(q) {
      ShutdownProgress(q);
    } else {
      ExecutesConcat(Init(n), before, p, after, q);
      FullDrain(n, before + after, q);
    }
  }

  /** The pool object: each method is one critical section or one wake-up of the original. */
  class TaskPool {
    var tasks: seq<Task>
    var shutdown: bool
    var threads: seq<Worker>  // where each worker thread stands
    ghost var notifies: nat
    ghost var phase: Phase
    ghost var submitted: seq<Task>
    ghost var taken: seq<Task>
    ghost var finished: seq<Task>

    ghost function State(): Pool
      reads this
    {
      Pool(tasks, shutdown, threads, notifies, phase, submitted, taken, finished)
    }

    ghost predicate Valid()
      reads this
    {
      Inv(State())
    }

    constructor (nWorkers: nat)
      ensures Valid() && State() == Init(nWorkers)
      ensures |threads| == nWorkers && (forall t :: t in threads ==> t == Ready) && tasks == [] && !shutdown
    {
      InitInv(nWorkers);
      tasks, shutdown, threads := [], false, seq(nWorkers, _ => Ready);
      notifies, phase, submitted, taken, finished := 0, Live, [], [], [];
    }

    /** submit, under the mutex; the notify is a step of its own. */
    method Submit(task: Task)
      requires Valid() && phase == Live
      modifies this
      ensures Valid() && State() == Apply(old(State()), Push(task))
    {
      hide Inv;
      StepInv(State(), Push(task));
      tasks := tasks + [task];
      notifies, submitted := notifies + 1, submitted + [task];
    }

    /** notify_one: wakes a sleeper of the library's choosing, if there is one. */
    method Notify() returns (woken: Option<nat>)
      requires Valid() && notifies > 0
      modifies this
      ensures Enabled(old(State()), NotifyOne(woken))
      ensures Valid() && State() == Apply(old(State()), NotifyOne(woken))
    {
      hide Inv;
      woken := None;
      if Asleep in threads {
        var w: nat :| w < |threads| && threads[w] == Asleep;
        woken := Some(w);
        StepInv(State(), NotifyOne(woken));
        threads := threads[w := Ready];
      } else {
        StepInv(State(), NotifyOne(woken));
      }
      notifies := notifies - 1;
    }

    /** worker_loop, from taking the mutex to releasing it; the result is the task to run, if any. */
    method TakeTask(w: nat) returns (task: Option<Task>)
      requires Valid() && At(State(), w, Ready)
      modifies this
      ensures Valid() && State() == Apply(old(State()), Acquire(w))
      ensures task.Some? <==> old(tasks) != []
      ensures task.Some? ==> old(tasks) == [task.value] + tasks && threads[w] == Running(task.value)
      ensures task.None? ==> threads[w] == if shutdown then Exited else Asleep
    {
      hide Inv;
      StepInv(State(), Acquire(w));
      task := None;
      if !(shutdown || tasks != []) {
        threads := threads[w := Asleep];
        return;
      }
      if shutdown && tasks == [] {
        threads := threads[w := Exited];
        return;
      }
      task := Some(tasks[0]);
      taken := taken + [tasks[0]];
      threads := threads[w := Running(tasks[0])];
      tasks := tasks[1..];
    }

    /** The task returns or throws; either way the worker goes round its loop. */
    method FinishTask(w: nat, threw: bool)
      requires Valid() && w < |threads| && threads[w].Running?
      modifies this
      ensures Valid() && State() == Apply(old(State()), Finish(w, threw))
    {
      hide Inv;
      StepInv(State(), Finish(w, threw));
      finished := finished + [threads[w].task];
      threads := threads[w := Ready];
    }

    /** The destructor's critical section. */
    method Flag()
      requires Valid() && phase == Live
      modifies this
      ensures Valid() && State() == Apply(old(State()), SetShutdown)
    {
      hide Inv;
      StepInv(State(), SetShutdown);
      shutdown, phase := true, Flagged;
    }

    /** The destructor's notify_all. */
    method WakeEveryone()
      requires Valid() && phase == Flagged
      modifies this
      ensures Valid() && State() == Apply(old(State()), NotifyAll)
    {
      hide Inv;
      StepInv(State(), NotifyAll);
      threads, phase := WakeAll(threads), Joining(0);
    }

    /** One turn of the destructor's join loop: the next thread has returned; after the last, all is drained. */
    method JoinNext()
      requires Valid() && phase.Joining? && At(State(), phase.joined, Exited)
      modifies this
      ensures Valid() && State() == Apply(old(State()), Join)
      ensures threads != [] && phase == Joining(|threads|) ==>
                tasks == [] && taken == submitted && multiset(finished) == multiset(submitted)
    {
      hide Inv;
      StepInv(State(), Join);
      phase := Joining(phase.joined + 1);
      if threads != [] && phase == Joining(|threads|) {
        DestroyedDrained(State());
      }
    }

    /** A valid pool with a worker and a queued closure always has a serving step at hand. */
    lemma ServesNext()
      requires Valid() && threads != [] && tasks != []
      ensures exists a :: Serves(a) && Enabled(State(), a)
    {
      ServeQueued(State());
    }
  }
}
