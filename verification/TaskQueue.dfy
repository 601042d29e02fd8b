/**
 The multi-producer / multi-consumer task queue and its worker threads (core/common/task.h).

 The fields guarded by the queue's mutex are one value, Shared; each lock-held section is one
 function on it and one method of the class MpmcQueue.  The threads around the queue are a
 transition system: a step is one lock-held section, a wake-up, or a worker leaving a task.
 */
module TaskQueue {
  import opened Common

  // ----- The queue proper -----

  /** The fields the mutex protects.  tp is the time the queue was last drained, 0 when not waiting. */
  datatype Shared<T> = Shared(tasks: seq<T>, stopped: bool, debug: bool, tp: nat, waittime: nat)

  /** What one pass through getWork's locked section decides. */
  datatype Taken<+T> = Sleep | Stopped | Got(task: T)

  /** unsigned long arithmetic: elapsed time is taken modulo 2^64. */
  function Push<T>(q: Shared<T>, t: T, now: nat): Shared<T> {
    var q' := q.(tasks := q.tasks + [t]);
    if q.debug && q.tp != 0 then q'.(waittime := (q.waittime + (now - q.tp)) % U64, tp := 0) else q'
  }

  function Take<T>(q: Shared<T>, now: nat): (Taken<T>, Shared<T>) {
    if q.stopped then (Stopped, q)
    else if q.tasks == [] then (Sleep, q)
    else
      var rest := q.tasks[1..];
      (Got(q.tasks[0]), q.(tasks := rest, tp := if q.debug && rest == [] then now else q.tp))
  }

  class MpmcQueue<T> {
    var tasks: seq<T>
    var stopped: bool
    var tp: nat
    var waittime: nat
    const debug: bool

    ghost function View(): Shared<T>
      reads this
    {
      Shared(tasks, stopped, debug, tp, waittime)
    }

    constructor (debug: bool)
      ensures View() == Shared([], false, debug, 0, 0)
    {
      tasks, stopped, tp, waittime := [], false, 0, 0;
      this.debug := debug;
    }

    method AddWork(t: T, now: nat)
      modifies this
      ensures View() == Push(old(View()), t, now)
    {
      tasks := tasks + [t];
      if debug && tp != 0 {
        waittime := (waittime + (now - tp)) % U64;
        tp := 0;
      }
    }

    /** One evaluation of getWork's loop guard and, when the guard fails, the rest of its body. */
    method GetWorkOnce(now: nat) returns (r: Taken<T>)
      modifies this
      ensures (r, View()) == Take(old(View()), now)
    {
      if !stopped && tasks == [] {
        return Sleep;
      }
      r := Stopped;
      if !stopped {
        r := Got(tasks[0]);
        tasks := tasks[1..];
        if debug && |tasks| == 0 {
          tp := now;
        }
      }
    }

    method Stop()
      modifies this
      ensures View() == old(View()).(stopped := true)
    {
      stopped := true;
    }
  }

  // ----- Threads around the queue -----

  /**
   Fresh: started, not yet in getWork.  Contending: inside getWork and awake, competing for the
   mutex.  Asleep: blocked on the condition variable.  Exited: getWork returned an invalid task.
   */
  datatype Worker<+T> = Fresh | Contending | Asleep | Executing(task: T) | Exited

  /** The threads and the queue, with a log of what was added, delivered and finished so far. */
  datatype State<T> = State(
    q: Shared<T>, workers: seq<Worker<T>>, clock: nat,
    added: seq<T>, delivered: seq<T>, finished: seq<T>, idle: nat)

  /** Add names the sleeper that notify_one wakes, if there is one. */
  datatype Action<+T> =
    | Add(task: T, woken: Option<nat>)
    | Enter(i: nat)
    | Check(i: nat)
    | SpuriousWake(i: nat)
    | Finish(i: nat)
    | Stop

  datatype Step<+T> = Step(now: nat, action: Action<T>)

  function Init<T>(n: nat, debug: bool): State<T> {
    State(Shared([], false, debug, 0, 0), seq(n, _ => Fresh), 0, [], [], [], 0)
  }

  predicate Enabled<T>(s: State<T>, a: Action<T>) {
    match a
    case Add(_, None) => forall i | 0 <= i < |s.workers| :: !s.workers[i].Asleep?
    case Add(_, Some(i)) => i < |s.workers| && s.workers[i].Asleep?
    case Enter(i) => i < |s.workers| && s.workers[i].Fresh?
    case Check(i) => i < |s.workers| && s.workers[i].Contending?
    case SpuriousWake(i) => i < |s.workers| && s.workers[i].Asleep?
    case Finish(i) => i < |s.workers| && s.workers[i].Executing?
    case Stop => true
  }

  /** notify_all */
  function WakeAll<T>(ws: seq<Worker<T>>): seq<Worker<T>> {
    seq(|ws|, i requires 0 <= i < |ws| => if ws[i].Asleep? then Contending else ws[i])
  }

  function Act<T>(s: State<T>, a: Action<T>, now: nat): State<T>
    requires Enabled(s, a)
  {
    match a
    case Add(t, woken) =>
      s.(q := Push(s.q, t, now), added := s.added + [t],
         workers := if woken.Some? then s.workers[woken.value := Contending] else s.workers)
    case Enter(i) => s.(workers := s.workers[i := Contending])
    case Check(i) =>
      var (r, q') := Take(s.q, now);
      (match r
       case Stopped => s.(q := q', workers := s.workers[i := Exited])
       case Sleep => s.(q := q', workers := s.workers[i := Asleep])
       case Got(t) => s.(q := q', workers := s.workers[i := Executing(t)], delivered := s.delivered + [t]))
    case SpuriousWake(i) => s.(workers := s.workers[i := Contending])
    case Finish(i) => s.(workers := s.workers[i := Contending], finished := s.finished + [s.workers[i].task])
    case Stop => s.(q := s.q.(stopped := true), workers := WakeAll(s.workers))
  }

  /** The clock never goes back and is never 0; time spent empty after a first drain is logged as idle. */
  function Next<T>(s: State<T>, a: Step<T>): State<T>
    requires Enabled(s, a.action) && s.clock <= a.now && a.now > 0
  {
    var gap := if s.q.tasks == [] && s.delivered != [] then a.now - s.clock else 0;
    Act(s, a.action, a.now).(clock := a.now, idle := s.idle + gap)
  }

  predicate Legal<T>(s: State<T>, run: seq<Step<T>>)
    decreases |run|
  {
    run == [] ||
    (Enabled(s, run[0].action) && s.clock <= run[0].now && run[0].now > 0 && Legal(Next(s, run[0]), run[1..]))
  }

  function After<T>(s: State<T>, run: seq<Step<T>>): State<T>
    requires Legal(s, run)
    decreases |run|
  {
    if run == [] then s else After(Next(s, run[0]), run[1..])
  }

  // ----- Counting workers -----

  function IsContending<T>(w: Worker<T>): nat { if w.Contending? then 1 else 0 }
  function IsAsleep<T>(w: Worker<T>): nat { if w.Asleep? then 1 else 0 }

  function ContendingCount<T>(ws: seq<Worker<T>>): nat { Sum(ws, IsContending) }
  function AsleepCount<T>(ws: seq<Worker<T>>): nat { Sum(ws, IsAsleep) }

  function Hand<T>(w: Worker<T>): multiset<T> { if w.Executing? then multiset{w.task} else multiset{} }

  /** The tasks workers are executing right now. */
  function InHand<T>(ws: seq<Worker<T>>): multiset<T> {
    if ws == [] then multiset{} else Hand(ws[0]) + InHand(ws[1..])
  }

  lemma {:induction false} InHandUpdate<T>(ws: seq<Worker<T>>, i: nat, w: Worker<T>, t: T)
    requires i < |ws|
    ensures InHand(ws[i := w])[t] + Hand(ws[i])[t] == InHand(ws)[t] + Hand(w)[t]
  {
    if i == 0 {
      assert ws[0 := w][1..] == ws[1..];
    } else {
      assert ws[i := w][1..] == ws[1..][i - 1 := w];
      InHandUpdate(ws[1..], i - 1, w, t);
    }
  }

  lemma {:induction false} NotifyAll<T>(ws: seq<Worker<T>>)
    ensures AsleepCount(WakeAll(ws)) == 0
    ensures InHand(WakeAll(ws)) == InHand(ws)
  {
    if ws != [] {
      assert WakeAll(ws)[1..] == WakeAll(ws[1..]);
      NotifyAll(ws[1..]);
    }
  }

  lemma InitCounts<T>(n: nat)
    ensures InHand(seq(n, _ => Worker<T>.Fresh)) == multiset{}
    ensures AsleepCount(seq(n, _ => Worker<T>.Fresh)) == 0
  {
    if n > 0 {
      assert seq(n, _ => Worker<T>.Fresh)[1..] == seq(n - 1, _ => Worker<T>.Fresh);
      InitCounts<T>(n - 1);
    }
  }

  // ----- Invariants kept by every step -----

  /** While the queue runs and somebody sleeps, every queued task has an awake worker inside getWork. */
  ghost predicate NoTaskWaitsForASleeper<T>(s: State<T>) {
    && (!s.q.stopped && AsleepCount(s.workers) > 0 ==> ContendingCount(s.workers) >= |s.q.tasks|)
    && (s.q.stopped ==> AsleepCount(s.workers) == 0)
  }

  ghost predicate Ordered<T>(s: State<T>) {
    s.delivered + s.q.tasks == s.added
  }

  ghost predicate Conserved<T(!new)>(s: State<T>) {
    forall t :: multiset(s.delivered)[t] == multiset(s.finished)[t] + InHand(s.workers)[t]
  }

  /** The drain time point is set exactly while the queue is empty after a delivery. */
  ghost predicate Timed<T>(s: State<T>) {
    if s.q.debug then
      && (s.q.tp != 0 <==> s.q.tasks == [] && s.delivered != [])
      && s.q.tp <= s.clock
      && s.q.waittime == (s.idle - (if s.q.tp != 0 then s.clock - s.q.tp else 0)) % U64
    else
      s.q.tp == 0 && s.q.waittime == 0
  }

  lemma StepKeepsWakeups<T>(s: State<T>, a: Step<T>)
    requires Enabled(s, a.action) && s.clock <= a.now && a.now > 0
    requires NoTaskWaitsForASleeper(s)
    ensures NoTaskWaitsForASleeper(Next(s, a))
  {
    var ws, ws' := s.workers, Next(s, a).workers;
    if a.action.Stop? {
      NotifyAll(ws);
    } else if a.action.Add? && a.action.woken.None? {
      SumPositive(ws, IsAsleep);
    } else {
      var i := if a.action.Add? then a.action.woken.value else a.action.i;
      assert ws' == ws[i := ws'[i]];
      SumUpdate(ws, i, ws'[i], IsAsleep);
      SumUpdate(ws, i, ws'[i], IsContending);
    }
  }

  lemma StepKeepsOrder<T>(s: State<T>, a: Step<T>)
    requires Enabled(s, a.action) && s.clock <= a.now && a.now > 0
    requires Ordered(s)
    ensures Ordered(Next(s, a))
  {
  }

  lemma LogsGrow<T>(s: State<T>, a: Step<T>, t: T)
    requires Enabled(s, a.action) && s.clock <= a.now && a.now > 0
    ensures var s', b := Next(s, a), a.action;
      && multiset(s'.delivered)[t] == multiset(s.delivered)[t] + (if b.Check? then Hand(s'.workers[b.i])[t] else 0)
      && multiset(s'.finished)[t] == multiset(s.finished)[t] + (if b.Finish? then Hand(s.workers[b.i])[t] else 0)
  {
  }

  lemma HandsMove<T>(s: State<T>, a: Step<T>, t: T)
    requires Enabled(s, a.action) && s.clock <= a.now && a.now > 0
    ensures var s', b := Next(s, a), a.action;
      InHand(s'.workers)[t] + (if b.Finish? then Hand(s.workers[b.i])[t] else 0)
      == InHand(s.workers)[t] + (if b.Check? then Hand(s'.workers[b.i])[t] else 0)
  {
    hide InHand;
    var ws, ws' := s.workers, Next(s, a).workers;
    if a.action.Stop? {
      NotifyAll(ws);
    } else if !(a.action.Add? && a.action.woken.None?) {
      var i := if a.action.Add? then a.action.woken.value else a.action.i;
      assert ws' == ws[i := ws'[i]];
      InHandUpdate(ws, i, ws'[i], t);
    }
  }

  lemma StepConserves<T(!new)>(s: State<T>, a: Step<T>)
    requires Enabled(s, a.action) && s.clock <= a.now && a.now > 0
    requires Conserved(s)
    ensures Conserved(Next(s, a))
  {
    hide Next, InHand, Hand;
    var s' := Next(s, a);
    forall t ensures multiset(s'.delivered)[t] == multiset(s'.finished)[t] + InHand(s'.workers)[t] {
      LogsGrow(s, a, t);
      HandsMove(s, a, t);
    }
  }

  lemma StepKeepsTime<T>(s: State<T>, a: Step<T>)
    requires Enabled(s, a.action) && s.clock <= a.now && a.now > 0
    requires Timed(s)
    ensures Timed(Next(s, a))
  {
  }

  /** No worker exits while the queue runs. */
  ghost predicate Staffed<T>(s: State<T>) {
    !s.q.stopped ==> forall i | 0 <= i < |s.workers| :: !s.workers[i].Exited?
  }

  lemma StepKeepsStaff<T>(s: State<T>, a: Step<T>)
    requires Enabled(s, a.action) && s.clock <= a.now && a.now > 0
    requires Staffed(s)
    ensures Staffed(Next(s, a))
  {
  }

  // ----- Whole runs -----

  ghost predicate Invariant<T(!new)>(s: State<T>) {
    NoTaskWaitsForASleeper(s) && Ordered(s) && Conserved(s) && Timed(s) && Staffed(s)
  }

  lemma {:induction false} RunKeepsInvariant<T(!new)>(s: State<T>, run: seq<Step<T>>)
    requires Legal(s, run) && Invariant(s)
    ensures Invariant(After(s, run))
    decreases |run|
  {
    if run != [] {
      StepKeepsWakeups(s, run[0]);
      StepKeepsOrder(s, run[0]);
      StepConserves(s, run[0]);
      StepKeepsTime(s, run[0]);
      StepKeepsStaff(s, run[0]);
      RunKeepsInvariant(Next(s, run[0]), run[1..]);
    }
  }

  ghost predicate Reachable<T(!new)>(s: State<T>) {
    exists n: nat, debug: bool, run: seq<Step<T>> :: Legal(Init<T>(n, debug), run) && After(Init<T>(n, debug), run) == s
  }

  lemma InitInvariant<T(!new)>(n: nat, debug: bool)
    ensures Invariant(Init<T>(n, debug))
  {
    hide Sum, InHand;
    InitCounts<T>(n);
  }

  lemma ReachableInvariant<T(!new)>(s: State<T>)
    requires Reachable(s)
    ensures Invariant(s)
  {
    hide Legal, After, Sum, InHand;
    var n: nat, debug: bool, run: seq<Step<T>> :|
      Legal(Init<T>(n, debug), run) && After(Init<T>(n, debug), run) == s;
    InitInvariant<T>(n, debug);
    RunKeepsInvariant(Init<T>(n, debug), run);
  }

  /**
   No lost wake-up: with any number of workers, any interleaving and any spurious wake-ups, a
   running queue with a sleeper has at least as many awake workers in getWork as queued tasks.
   So when every worker inside getWork sleeps there is no work waiting.
   */
  lemma NoLostWakeup<T(!new)>(s: State<T>, i: nat)
    requires Reachable(s) && !s.q.stopped
    requires i < |s.workers| && s.workers[i].Asleep?
    ensures ContendingCount(s.workers) >= |s.q.tasks|
    ensures (forall j | 0 <= j < |s.workers| :: !s.workers[j].Contending?) ==> s.q.tasks == []
  {
    ReachableInvariant(s);
    SumPositive(s.workers, IsAsleep);
    assert IsAsleep(s.workers[i]) > 0;
    SumPositive(s.workers, IsContending);
  }

  /**
   FIFO, exactly once: deliveries are the added tasks in order, with nothing skipped or repeated,
   and each delivered task is either finished once or in exactly one worker's hand.
   */
  lemma FifoExactlyOnce<T(!new)>(s: State<T>)
    requires Reachable(s)
    ensures s.delivered + s.q.tasks == s.added
    ensures multiset(s.finished) + InHand(s.workers) + multiset(s.q.tasks) == multiset(s.added)
    ensures (forall i, j | 0 <= i < j < |s.added| :: s.added[i] != s.added[j]) ==>
              forall i, j | 0 <= i < j < |s.delivered| :: s.delivered[i] != s.delivered[j]
  {
    ReachableInvariant(s);
    assert multiset(s.added) == multiset(s.delivered) + multiset(s.q.tasks);
    assert forall i | 0 <= i < |s.delivered| :: s.delivered[i] == s.added[i];
  }

  /** In debug mode the reported wait time is the time the queue stood empty after its first drain. */
  lemma WaitTimeIsIdleTime<T(!new)>(s: State<T>)
    requires Reachable(s) && s.q.debug && s.q.tasks != []
    ensures s.q.waittime == s.idle % U64
  {
    ReachableInvariant(s);
  }

  /**
   The sleepers' guarantee made constructive: the workers already awake can drain the queue, each
   by one pass through getWork, without anyone else moving.
   */
  lemma {:induction false} AwakeWorkersDrain<T>(s: State<T>) returns (run: seq<Step<T>>)
    requires !s.q.stopped && ContendingCount(s.workers) >= |s.q.tasks|
    ensures Legal(s, run) && |run| == |s.q.tasks|
    ensures forall a | a in run :: a.action.Check?
    ensures After(s, run).q.tasks == []
    ensures After(s, run).delivered == s.delivered + s.q.tasks
    decreases |s.q.tasks|
  {
    hide Sum;
    if s.q.tasks == [] {
      run := [];
    } else {
      SumPositive(s.workers, IsContending);
      var i :| 0 <= i < |s.workers| && IsContending(s.workers[i]) > 0;
      var a := Step(s.clock + 1, Check(i));
      var s' := Next(s, a);
      SumUpdate(s.workers, i, s'.workers[i], IsContending);
      var rest := AwakeWorkersDrain(s');
      run := [a] + rest;
      assert run[1..] == rest;
      assert s'.delivered + s'.q.tasks == s.delivered + s.q.tasks;
    }
  }

  // ----- Progress while the queue runs -----

  /** The steps of a worker of its own accord: not adding, stopping, or waking without cause. */
  predicate OwnStep<T>(a: Action<T>) { a.Enter? || a.Check? || a.Finish? }

  /** A running queue with work and a worker always has a worker that can move. */
  lemma WorkMoves<T(!new)>(s: State<T>)
    requires Reachable(s) && !s.q.stopped && s.q.tasks != [] && s.workers != []
    ensures exists a: Action<T> :: OwnStep(a) && Enabled(s, a)
  {
    hide Reachable, Ordered, Conserved, Timed, Sum;
    ReachableInvariant(s);
    var w := s.workers[0];
    if w.Asleep? {
      assert IsAsleep(w) > 0;
      SumPositive(s.workers, IsAsleep);
      SumPositive(s.workers, IsContending);
      var i :| 0 <= i < |s.workers| && IsContending(s.workers[i]) > 0;
      assert Enabled(s, Action<T>.Check(i));
    } else {
      var a: Action<T> := if w.Fresh? then Enter(0) else if w.Contending? then Check(0) else Finish(0);
      assert Enabled(s, a);
    }
  }

  /** Steps a worker takes before it sleeps, if it finds no further task. */
  function Effort<T>(w: Worker<T>): nat {
    match w
    case Fresh => 2
    case Executing(_) => 2
    case Contending => 1
    case Asleep => 0
    case Exited => 0
  }

  /** The steps the workers of a running queue still have to take: one to get each task and one to finish it. */
  function WorkLeft<T>(s: State<T>): nat { 2 * |s.q.tasks| + Sum(s.workers, Effort) }

  function IsOwnStep<T>(a: Step<T>): nat { if OwnStep(a.action) then 1 else 0 }

  /** What a step from outside adds: two steps for a new task, one for a worker woken. */
  function Brings<T>(a: Step<T>): nat {
    match a.action
    case Add(_, None) => 2
    case Add(_, Some(_)) => 3
    case SpuriousWake(_) => 1
    case _ => 0
  }

  lemma StepSpendsWork<T>(s: State<T>, a: Step<T>)
    requires Enabled(s, a.action) && s.clock <= a.now && a.now > 0
    requires !s.q.stopped && !a.action.Stop?
    ensures !Next(s, a).q.stopped
    ensures WorkLeft(Next(s, a)) + IsOwnStep(a) == WorkLeft(s) + Brings(a)
  {
    hide Sum;
    var ws, ws' := s.workers, Next(s, a).workers;
    if !(a.action.Add? && a.action.woken.None?) {
      var i := if a.action.Add? then a.action.woken.value else a.action.i;
      assert ws' == ws[i := ws'[i]];
      SumUpdate(ws, i, ws'[i], Effort);
    }
  }

  /** Over any run without stop, the workers' steps are paid for by the work there was and what was brought. */
  lemma {:induction false} RunSpendsWork<T>(s: State<T>, run: seq<Step<T>>)
    requires Legal(s, run) && !s.q.stopped && forall a | a in run :: !a.action.Stop?
    ensures !After(s, run).q.stopped
    ensures WorkLeft(After(s, run)) + Sum(run, IsOwnStep) == WorkLeft(s) + Sum(run, Brings)
    decreases |run|
  {
    hide WorkLeft;
    if run != [] {
      StepSpendsWork(s, run[0]);
      assert run[0] in run && forall a | a in run[1..] :: a in run;
      RunSpendsWork(Next(s, run[0]), run[1..]);
    }
  }

  lemma {:induction false} ReachableAfter<T(!new)>(s: State<T>, run: seq<Step<T>>)
    requires Reachable(s) && Legal(s, run)
    ensures Reachable(After(s, run)) && |After(s, run).workers| == |s.workers|
    decreases |run|
  {
    if run != [] {
      ReachableNext(s, run[0]);
      ReachableAfter(Next(s, run[0]), run[1..]);
    }
  }

  lemma ReachableNext<T(!new)>(s: State<T>, a: Step<T>)
    requires Reachable(s) && Enabled(s, a.action) && s.clock <= a.now && a.now > 0
    ensures Reachable(Next(s, a)) && |Next(s, a).workers| == |s.workers|
  {
    hide Act;
    var n: nat, debug: bool, run: seq<Step<T>> :|
      Legal(Init<T>(n, debug), run) && After(Init<T>(n, debug), run) == s;
    Extend(Init<T>(n, debug), run, a);
    SameWorkers(s, a);
  }

  lemma SameWorkers<T>(s: State<T>, a: Step<T>)
    requires Enabled(s, a.action) && s.clock <= a.now && a.now > 0
    ensures |Next(s, a).workers| == |s.workers|
  {
  }

  lemma {:induction false} Extend<T>(s: State<T>, run: seq<Step<T>>, a: Step<T>)
    requires Legal(s, run)
    requires var s' := After(s, run); Enabled(s', a.action) && s'.clock <= a.now && a.now > 0
    ensures Legal(s, run + [a]) && After(s, run + [a]) == Next(After(s, run), a)
    decreases |run|
  {
    hide Next;
    if run == [] {
      assert (run + [a])[1..] == [];
    } else {
      assert (run + [a])[1..] == run[1..] + [a];
      Extend(Next(s, run[0]), run[1..], a);
    }
  }

  /**
   Queued work gets done: from any reachable running state with a worker, however the workers
   interleave, a run of their own steps is no longer than the work left, and as long as a task is
   queued one more step is possible.  So after that many steps at most the queue is empty.
   */
  lemma QueueDrains<T(!new)>(s: State<T>, run: seq<Step<T>>)
    requires Reachable(s) && !s.q.stopped && s.workers != []
    requires Legal(s, run) && forall a | a in run :: OwnStep(a.action)
    ensures |run| + WorkLeft(After(s, run)) == WorkLeft(s)
    ensures After(s, run).q.tasks == [] || exists a: Action<T> :: OwnStep(a) && Enabled(After(s, run), a)
  {
    hide Reachable, Legal, After, WorkLeft, Enabled;
    RunSpendsWork(s, run);
    OwnStepsOnly(run);
    ReachableAfter(s, run);
    if After(s, run).q.tasks != [] {
      WorkMoves(After(s, run));
    }
  }

  lemma {:induction false} OwnStepsOnly<T>(run: seq<Step<T>>)
    requires forall a | a in run :: OwnStep(a.action)
    ensures Sum(run, IsOwnStep) == |run| && Sum(run, Brings) == 0
  {
    if run != [] {
      assert run[0] in run && forall a | a in run[1..] :: a in run;
      OwnStepsOnly(run[1..]);
    }
  }

  // ----- Shutdown -----

  /** Steps a worker still has to take once the queue is stopped. */
  function Remaining<T>(w: Worker<T>): nat {
    match w
    case Fresh => 2
    case Executing(_) => 2
    case Contending => 1
    case Asleep => 1
    case Exited => 0
  }

  function Outstanding<T>(s: State<T>): nat { Sum(s.workers, Remaining) }

  function IsWorkerStep<T>(a: Step<T>): nat { if a.action.Add? || a.action.Stop? then 0 else 1 }

  lemma {:induction false} RemainingBound<T>(ws: seq<Worker<T>>)
    ensures Sum(ws, Remaining) <= 2 * |ws|
    ensures Sum(ws, Remaining) == 0 <==> forall i | 0 <= i < |ws| :: ws[i].Exited?
  {
    if ws != [] {
      RemainingBound(ws[1..]);
      assert forall i | 0 < i < |ws| :: ws[i] == ws[1..][i - 1];
    }
  }

  lemma StoppedStep<T>(s: State<T>, a: Step<T>)
    requires Enabled(s, a.action) && s.clock <= a.now && a.now > 0
    requires s.q.stopped && AsleepCount(s.workers) == 0
    ensures Next(s, a).q.stopped && AsleepCount(Next(s, a).workers) == 0
    ensures Next(s, a).delivered == s.delivered
    ensures Outstanding(Next(s, a)) + IsWorkerStep(a) == Outstanding(s)
  {
    var ws, ws' := s.workers, Next(s, a).workers;
    SumPositive(ws, IsAsleep);
    assert forall i | 0 <= i < |ws| :: IsAsleep(ws[i]) == 0;
    if a.action.Stop? {
      assert WakeAll(ws) == ws;
    } else if !a.action.Add? {
      assert ws' == ws[a.action.i := ws'[a.action.i]];
      SumUpdate(ws, a.action.i, ws'[a.action.i], IsAsleep);
      SumUpdate(ws, a.action.i, ws'[a.action.i], Remaining);
    }
  }

  lemma {:induction false} StoppedRun<T>(s: State<T>, run: seq<Step<T>>)
    requires Legal(s, run)
    requires s.q.stopped && AsleepCount(s.workers) == 0
    ensures var s' := After(s, run);
      && s'.q.stopped
      && AsleepCount(s'.workers) == 0
      && s'.delivered == s.delivered
      && Outstanding(s') + Sum(run, IsWorkerStep) == Outstanding(s)
    decreases |run|
  {
    if run != [] {
      StoppedStep(s, run[0]);
      StoppedRun(Next(s, run[0]), run[1..]);
    }
  }

  /**
   Shutdown terminates.  From any reachable stopped state, however long the run continues and
   whatever producers still add: nothing more is delivered, nobody is blocked, the workers take at
   most two steps each, some worker can always move until all have exited.
   */
  lemma {:induction false} ShutdownTerminates<T(!new)>(s: State<T>, run: seq<Step<T>>)
    requires Reachable(s) && s.q.stopped && Legal(s, run)
    ensures var s' := After(s, run);
      && s'.delivered == s.delivered
      && (forall i | 0 <= i < |s'.workers| :: !s'.workers[i].Asleep?)
      && Outstanding(s') + Sum(run, IsWorkerStep) == Outstanding(s) <= 2 * |s.workers|
      && ((forall i | 0 <= i < |s'.workers| :: s'.workers[i].Exited?) ||
          exists a: Action<T> :: !a.Add? && !a.Stop? && Enabled(s', a))
  {
    ReachableInvariant(s);
    StoppedRun(s, run);
    RemainingBound(s.workers);
    var s' := After(s, run);
    SumPositive(s'.workers, IsAsleep);
    assert forall i | 0 <= i < |s'.workers| :: IsAsleep(s'.workers[i]) == 0;
    if i :| 0 <= i < |s'.workers| && !s'.workers[i].Exited? {
      var w := s'.workers[i];
      var a: Action<T> := if w.Fresh? then Enter(i) else if w.Contending? then Check(i) else Finish(i);
      assert Enabled(s', a);
    }
  }

  function Finishes<T>(run: seq<Step<T>>, i: nat): nat {
    if run == [] then 0
    else (if run[0].action == Finish(i) then 1 else 0) + Finishes(run[1..], i)
  }

  /** After stop a worker finishes the task in its hand, if it has one, and no other. */
  lemma {:induction false} FinishesOnlyTaskInHand<T>(s: State<T>, run: seq<Step<T>>, i: nat)
    requires Legal(s, run) && s.q.stopped && AsleepCount(s.workers) == 0
    requires i < |s.workers|
    ensures Finishes(run, i) <= if s.workers[i].Executing? then 1 else 0
    decreases |run|
  {
    if run != [] {
      StoppedStep(s, run[0]);
      FinishesOnlyTaskInHand(Next(s, run[0]), run[1..], i);
    }
  }

  // ----- Debug accounting of one worker -----

  /** One turn of the worker's loop: when it asked for a task, got it, and finished it. */
  datatype Lap = Lap(asked: nat, got: nat, finished: nat)

  function Waited(l: Lap): nat { if l.got >= l.asked then l.got - l.asked else 0 }
  function Worked(l: Lap): nat { if l.finished >= l.got then l.finished - l.got else 0 }

  lemma WrapSub(x: nat, y: nat)
    ensures Wrap64(Wrap64(x + y) - Wrap64(x)) == Wrap64(y)
  {
  }

  datatype Counters = Counters(loops: nat, worktime: nat, waittime: nat)

  /** One turn of the loop, with a task. */
  function Turn(c: Counters, l: Lap): Counters {
    var loops := Wrap64(c.loops + 1);
    var waittime, worktime := Wrap64(c.waittime + (l.got - l.asked)), Wrap64(c.worktime + (l.finished - l.asked));
    if loops == 1 then Counters(loops, Wrap64(worktime - waittime), 0) else Counters(loops, worktime, waittime)
  }

  function Turns(laps: seq<Lap>): Counters {
    if laps == [] then Counters(0, 0, 0) else Turn(Turns(laps[..|laps| - 1]), laps[|laps| - 1])
  }

  /** The last of n turns whose number, counted from 1 in 64 bits, is 1: the one that resets. */
  function LastReset(n: nat): nat
    requires n > 0
  {
    (n - 1) / U64 * U64
  }

  lemma Resets(n: nat)
    ensures LastReset(n + 1) <= n
    ensures Wrap64(n + 1) == 1 ==> LastReset(n + 1) == n
    ensures Wrap64(n + 1) != 1 ==> n > 0 && LastReset(n + 1) == LastReset(n) < n
    ensures n < U64 ==> LastReset(n + 1) == 0
  {
  }

  /** The waits since the last reset. */
  function WaitsCounted(laps: seq<Lap>): nat {
    if laps == [] then 0
    else
      Resets(|laps| - 1);
      Sum(laps[LastReset(|laps|) + 1..], Waited)
  }

  lemma WaitsStep(laps: seq<Lap>, l: Lap)
    ensures WaitsCounted(laps + [l]) == if Wrap64(|laps| + 1) == 1 then 0 else WaitsCounted(laps) + Waited(l)
  {
    hide LastReset, Wrap64, Waited;
    Resets(|laps|);
    var first := LastReset(|laps| + 1);
    if Wrap64(|laps| + 1) == 1 {
      assert (laps + [l])[first + 1..] == [];
    } else {
      assert (laps + [l])[first + 1..] == laps[first + 1..] + [l];
      SumSnoc(laps[first + 1..], l, Waited);
    }
  }

  lemma TurnAddsUp(c: Counters, l: Lap, n: nat, waited: nat, worked: nat)
    requires l.asked <= l.got <= l.finished
    requires c == Counters(Wrap64(n), Wrap64(waited + worked), Wrap64(waited))
    ensures var waited', worked' := (if Wrap64(n + 1) == 1 then 0 else waited + Waited(l)), worked + Worked(l);
      Turn(c, l) == Counters(Wrap64(n + 1), Wrap64(waited' + worked'), Wrap64(waited'))
  {
    hide Wrap64;
    AddMod64(n, 1);
    AddMod64(waited, l.got - l.asked);
    AddMod64(waited + worked, l.finished - l.asked);
    WrapSub(waited + (l.got - l.asked), worked + (l.finished - l.got));
    WrapZero();
  }

  lemma WrapZero()
    ensures Wrap64(0) == 0
  {
  }

  /** The counters after any turns: their number, the time in tasks plus the waits counted, and those waits. */
  lemma {:induction false} TurnsAddUp(laps: seq<Lap>)
    requires forall l | l in laps :: l.asked <= l.got <= l.finished
    ensures Turns(laps) ==
            Counters(Wrap64(|laps|), Wrap64(WaitsCounted(laps) + Sum(laps, Worked)), Wrap64(WaitsCounted(laps)))
  {
    hide Wrap64, Sum, Worked, Waited;
    if laps == [] {
      WrapZero();
      SumEmpty(Worked);
    } else {
      hide WaitsCounted;
      var n := |laps| - 1;
      var before, l := laps[..n], laps[n];
      assert laps == before + [l] && l in laps;
      TurnsAddUp(before);
      SumSnoc(before, l, Worked);
      WaitsStep(before, l);
      TurnAddsUp(Turns(before), l, n, WaitsCounted(before), Sum(before, Worked));
    }
  }

  /**
   worker_debug's counters, 64 bits wide.  Each turn adds its wait to both counters and the first
   turn takes its wait out again, so that in the end the work time is the time spent in tasks and the
   wait time leaves out the wait for the first task (and, past 2^64 turns, everything up to the turn
   that counts as a first one again).
   */
  method WorkerDebug(laps: seq<Lap>) returns (loops: nat, worktime: nat, waittime: nat)
    requires forall l | l in laps :: l.asked <= l.got <= l.finished
    ensures loops == Wrap64(|laps| + 1)
    ensures worktime == Wrap64(Sum(laps, Worked))
    ensures waittime == Wrap64(WaitsCounted(laps))
    ensures 0 < |laps| <= U64 ==> waittime == Wrap64(Sum(laps[1..], Waited))
  {
    hide Wrap64, Sum, Worked, Waited, LastReset;
    loops, worktime, waittime := 0, 0, 0;
    for k := 0 to |laps|
      invariant Counters(loops, worktime, waittime) == Turns(laps[..k])
    {
      var l := laps[k];
      assert laps[..k + 1][..k] == laps[..k];
      loops := Wrap64(loops + 1);
      waittime := Wrap64(waittime + (l.got - l.asked));
      worktime := Wrap64(worktime + (l.finished - l.asked));
      if loops == 1 {
        worktime := Wrap64(worktime - waittime);
        waittime := 0;
      }
    }
    assert laps[..|laps|] == laps;
    hide Turns;
    TurnsAddUp(laps);
    AddMod64(|laps|, 1);
    WrapSub(WaitsCounted(laps), Sum(laps, Worked));
    if laps != [] {
      Resets(|laps| - 1);
    }
    loops := Wrap64(loops + 1);
    worktime := Wrap64(worktime - waittime);
  }
}
