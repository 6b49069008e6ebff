/** The worker pool of src/threadPool.c as an interleaving of atomic steps, for any number of
    workers and tasks.  The mutex is the field `holder`; the condition variable is the set of
    workers whose program counter is `Waiting`. */
module ThreadPool {
  import opened Options

  /** Where a worker stands in work_routine.  `Testing`, `ToWait`, `Checking` and `Taking` hold the
      lock; `Running(k)` runs the k-th submitted task with the lock released. */
  datatype Pc = Ready | Testing | ToWait | Waiting | Checking | Taking | Running(task: nat) | Exited

  /** Who holds queue_lock.  The three adder states are the critical section of add_task_2_tpool. */
  datatype Holder<T> = Free | Worker(id: nat) | Adding(task: T) | Appended | Signalled | Destroying

  /** Progress of destroy_tpool. */
  datatype Phase = Idle | Flagged | Locked | Broadcast | Joining | Done

  /** The shared pool and its history: `submitted` are the tasks in submission order, and
      `takers[k]` is the worker that took the k-th of them. */
  datatype Pool<T> = Pool(
    workers: seq<Pc>,
    queue: seq<T>,
    shutdown: bool,
    holder: Holder<T>,
    phase: Phase,
    submitted: seq<T>,
    takers: seq<nat>,
    leftovers: seq<T>)

  datatype Step<T> =
    | Lock(w: nat)
    | Test(w: nat)
    | Wait(w: nat)
    | SpuriousWake(w: nat)
    | Check(w: nat)
    | Take(w: nat)
    | Finish(w: nat)
    | AddLock(task: T)
    | Append
    | Signal(woken: Option<nat>)
    | AddUnlock
    | SetFlag
    | DestroyLock
    | DestroyBroadcast
    | DestroyUnlock
    | Join

  function Init<T>(n: nat): Pool<T> {
    Pool(seq(n, _ => Ready), [], false, Free, Idle, [], [], [])
  }

  predicate At<T>(s: Pool<T>, w: nat, pc: Pc) {
    w < |s.workers| && s.workers[w] == pc
  }

  predicate NobodyWaits(ws: seq<Pc>) {
    forall w :: 0 <= w < |ws| ==> ws[w] != Waiting
  }

  predicate AllExited(ws: seq<Pc>) {
    forall w :: 0 <= w < |ws| ==> ws[w] == Exited
  }

  predicate Enabled<T>(s: Pool<T>, step: Step<T>) {
    s.phase != Done &&
    match step
    case Lock(w) => At(s, w, Ready) && s.holder == Free
    case Test(w) => At(s, w, Testing)
    case Wait(w) => At(s, w, ToWait)
    case SpuriousWake(w) => At(s, w, Waiting)
    case Check(w) => At(s, w, Checking)
    case Take(w) => At(s, w, Taking)
    case Finish(w) => w < |s.workers| && s.workers[w].Running?
    case AddLock(_) => s.holder == Free
    case Append => s.holder.Adding?
    case Signal(woken) =>
      s.holder == Appended &&
      (match woken case None => NobodyWaits(s.workers) case Some(w) => At(s, w, Waiting))
    case AddUnlock => s.holder == Signalled
    case SetFlag => s.phase == Idle && !s.shutdown
    case DestroyLock => s.phase == Flagged && s.holder == Free
    case DestroyBroadcast => s.phase == Locked
    case DestroyUnlock => s.phase == Broadcast
    case Join => s.phase == Joining && AllExited(s.workers) && s.holder == Free
  }

  function Awaken(ws: seq<Pc>): (r: seq<Pc>)
    ensures |r| == |ws|
    ensures forall w :: 0 <= w < |ws| ==> r[w] == if ws[w] == Waiting then Ready else ws[w]
  {
    seq(|ws|, w requires 0 <= w < |ws| => if ws[w] == Waiting then Ready else ws[w])
  }

  /** One atomic step.  `Take` on an empty queue would follow a null pointer in the source; here it leaves
      the queue empty, and NoNullTake shows that it is never reached. */
  function Next<T>(s: Pool<T>, step: Step<T>): Pool<T>
    requires Enabled(s, step)
  {
    match step
    case Lock(w) => s.(workers := s.workers[w := Testing], holder := Worker(w))
    case Test(w) =>
      s.(workers := s.workers[w := if s.queue == [] && !s.shutdown then ToWait else Checking])
    case Wait(w) => s.(workers := s.workers[w := Waiting], holder := Free)
    case SpuriousWake(w) => s.(workers := s.workers[w := Ready])
    case Check(w) =>
      if s.shutdown then s.(workers := s.workers[w := Exited], holder := Free)
      else s.(workers := s.workers[w := Taking])
    case Take(w) =>
      s.(workers := s.workers[w := Running(|s.takers|)],
         queue := if s.queue == [] then [] else s.queue[1..],
         takers := s.takers + [w],
         holder := Free)
    case Finish(w) => s.(workers := s.workers[w := Ready])
    case AddLock(t) => s.(holder := Adding(t))
    case Append =>
      s.(queue := s.queue + [s.holder.task], submitted := s.submitted + [s.holder.task], holder := Appended)
    case Signal(woken) =>
      s.(workers := match woken case None => s.workers case Some(w) => s.workers[w := Ready],
         holder := Signalled)
    case AddUnlock => s.(holder := Free)
    case SetFlag => s.(shutdown := true, phase := Flagged)
    case DestroyLock => s.(holder := Destroying, phase := Locked)
    case DestroyBroadcast => s.(workers := Awaken(s.workers), phase := Broadcast)
    case DestroyUnlock => s.(holder := Free, phase := Joining)
    case Join => s.(phase := Done, leftovers := s.queue, queue := [])
  }

  /** The state after a whole interleaving, or None when some step of it was not enabled. */
  function Run<T>(s: Pool<T>, steps: seq<Step<T>>): Option<Pool<T>>
    decreases |steps|
  {
    if steps == [] then Some(s)
    else if Enabled(s, steps[0]) then Run(Next(s, steps[0]), steps[1..])
    else None
  }

  // ----- counting workers -----

  function Count(ws: seq<Pc>, p: Pc -> bool): nat {
    if ws == [] then 0 else (if p(ws[0]) then 1 else 0) + Count(ws[1..], p)
  }

  /** Awake and on the way to the queue: the worker will look at the queue before it can sleep. */
  predicate Heading(pc: Pc) { pc == Ready || pc == Testing || pc == Checking || pc == Taking }

  predicate Gone(pc: Pc) { pc == Exited }

  predicate HeadingOrGone(pc: Pc) { Heading(pc) || Gone(pc) }

  lemma {:induction false} CountUpdate(ws: seq<Pc>, w: nat, pc: Pc, p: Pc -> bool)
    requires w < |ws|
    ensures Count(ws[w := pc], p)
         == Count(ws, p) - (if p(ws[w]) then 1 else 0) + (if p(pc) then 1 else 0)
  {
    if w == 0 {
      assert ws[0 := pc][1..] == ws[1..];
    } else {
      assert ws[w := pc][1..] == ws[1..][w - 1 := pc];
      CountUpdate(ws[1..], w - 1, pc, p);
    }
  }

  lemma {:induction false} CountSplit(ws: seq<Pc>)
    ensures Count(ws, HeadingOrGone) == Count(ws, Heading) + Count(ws, Gone)
  {
    if ws != [] {
      CountSplit(ws[1..]);
    }
  }

  lemma {:induction false} CountNone(ws: seq<Pc>, p: Pc -> bool)
    requires forall w :: 0 <= w < |ws| ==> !p(ws[w])
    ensures Count(ws, p) == 0
  {
    if ws != [] {
      CountNone(ws[1..], p);
    }
  }

  /** A positive count has a witness. */
  lemma {:induction false} CountWitness(ws: seq<Pc>, p: Pc -> bool) returns (w: nat)
    requires Count(ws, p) > 0
    ensures w < |ws| && p(ws[w])
  {
    if p(ws[0]) {
      w := 0;
    } else {
      w := CountWitness(ws[1..], p);
      w := w + 1;
    }
  }

  // ----- the invariant -----

  predicate InCritical(pc: Pc) { pc == Testing || pc == ToWait || pc == Checking || pc == Taking }

  /** The lock is held by at most one party, and by exactly the worker inside the critical section. */
  ghost predicate LockInv<T>(s: Pool<T>) {
    && (forall w :: 0 <= w < |s.workers| ==> (InCritical(s.workers[w]) <==> s.holder == Worker(w)))
    && (s.holder.Worker? ==> s.holder.id < |s.workers|)
    && (s.holder == Destroying <==> s.phase == Locked || s.phase == Broadcast)
  }

  /** What the holder concluded about the queue is still true when it acts on it. */
  ghost predicate DecisionInv<T>(s: Pool<T>) {
    forall w :: 0 <= w < |s.workers| ==>
      && (s.workers[w] == ToWait ==> s.queue == [])
      && (s.workers[w] == Checking ==> s.queue != [] || s.shutdown)
      && (s.workers[w] == Taking ==> s.queue != [])
  }

  ghost predicate ShutdownInv<T>(s: Pool<T>) {
    && (s.shutdown <==> s.phase != Idle)
    && (!s.shutdown ==> forall w :: 0 <= w < |s.workers| ==> s.workers[w] != Exited)
    && (s.phase == Done ==> AllExited(s.workers))
    && (s.phase.Broadcast? || s.phase.Joining? ==> AllAwake(s.workers))
  }

  predicate AllAwake(ws: seq<Pc>) {
    forall w :: 0 <= w < |ws| ==> ws[w] != Waiting && ws[w] != ToWait
  }

  /** The queue is the submitted tasks not yet taken. */
  ghost predicate QueueInv<T>(s: Pool<T>) {
    && |s.takers| <= |s.submitted|
    && s.queue == (if s.phase == Done then [] else s.submitted[|s.takers|..])
    && s.leftovers == (if s.phase == Done then s.submitted[|s.takers|..] else [])
  }

  /** A running worker runs the task of its own take. */
  ghost predicate RunnerInv<T>(s: Pool<T>) {
    && (forall k :: 0 <= k < |s.takers| ==> s.takers[k] < |s.workers|)
    && (forall w :: 0 <= w < |s.workers| && s.workers[w].Running? ==>
          s.workers[w].task < |s.takers| && s.takers[s.workers[w].task] == w)
  }

  ghost predicate TaskInv<T>(s: Pool<T>) {
    QueueInv(s) && RunnerInv(s)
  }

  function PendingSignal<T>(s: Pool<T>): nat {
    if s.holder == Appended then 1 else 0
  }

  ghost predicate WakeInv<T>(s: Pool<T>) {
    NobodyWaits(s.workers) || |s.queue| <= Count(s.workers, HeadingOrGone) + PendingSignal(s)
  }

  ghost predicate Inv<T>(s: Pool<T>) {
    LockInv(s) && DecisionInv(s) && ShutdownInv(s) && TaskInv(s) && WakeInv(s)
  }

  lemma InitInv<T>(n: nat)
    ensures Inv(Init<T>(n))
  {
  }

  lemma LockKept<T>(s: Pool<T>, step: Step<T>)
    requires Inv(s) && Enabled(s, step)
    ensures LockInv(Next(s, step))
  {
    hide DecisionInv, TaskInv, WakeInv;
  }

  lemma DecisionKept<T>(s: Pool<T>, step: Step<T>)
    requires Inv(s) && Enabled(s, step)
    ensures DecisionInv(Next(s, step))
  {
    hide TaskInv, WakeInv;
  }

  lemma ShutdownKept<T>(s: Pool<T>, step: Step<T>)
    requires Inv(s) && Enabled(s, step)
    ensures ShutdownInv(Next(s, step))
  {
    hide DecisionInv, TaskInv, WakeInv;
  }

  lemma QueueKept<T>(s: Pool<T>, step: Step<T>)
    requires Inv(s) && Enabled(s, step)
    ensures QueueInv(Next(s, step))
  {
    hide LockInv, ShutdownInv, WakeInv, RunnerInv;
  }

  lemma RunnersKept<T>(s: Pool<T>, step: Step<T>)
    requires Inv(s) && Enabled(s, step)
    ensures RunnerInv(Next(s, step))
  {
    hide LockInv, DecisionInv, ShutdownInv, WakeInv, QueueInv;
  }

  lemma TasksKept<T>(s: Pool<T>, step: Step<T>)
    requires Inv(s) && Enabled(s, step)
    ensures TaskInv(Next(s, step))
  {
    hide LockInv, DecisionInv, ShutdownInv, WakeInv, QueueInv, RunnerInv, Next, Enabled;
    QueueKept(s, step);
    RunnersKept(s, step);
  }

  lemma CheckerHolds<T>(s: Pool<T>, w: nat)
    requires LockInv(s) && At(s, w, Checking)
    ensures s.holder == Worker(w)
  {
  }

  /** A worker's own step, other than a take: the queue stays, and the covering workers do not get fewer unless
      the worker found the queue empty. */
  lemma WorkerKeepsWake<T>(s: Pool<T>, step: Step<T>)
    requires Inv(s) && Enabled(s, step) && WorkerStep(step) && !step.Take?
    ensures WakeInv(Next(s, step))
  {
    hide LockInv, ShutdownInv, TaskInv;
    var ws := s.workers;
    match step
    case Lock(w) => CountUpdate(ws, w, Testing, HeadingOrGone);
    case Test(w) => CountUpdate(ws, w, Checking, HeadingOrGone);
    case Wait(w) => assert s.queue == [];
    case SpuriousWake(w) => CountUpdate(ws, w, Ready, HeadingOrGone);
    case Check(w) =>
      CheckerHolds(s, w);
      if s.shutdown {
        CountUpdate(ws, w, Exited, HeadingOrGone);
      } else {
        CountUpdate(ws, w, Taking, HeadingOrGone);
      }
    case Finish(w) => CountUpdate(ws, w, Ready, HeadingOrGone);
  }

  lemma TakeKeepsWake<T>(s: Pool<T>, w: nat)
    requires Inv(s) && Enabled(s, Take(w))
    ensures WakeInv(Next(s, Take(w)))
  {
    hide ShutdownInv, TaskInv;
    CountUpdate(s.workers, w, Running(|s.takers|), HeadingOrGone);
  }

  lemma WakeKept<T>(s: Pool<T>, step: Step<T>)
    requires Inv(s) && Enabled(s, step)
    ensures WakeInv(Next(s, step))
  {
    if step.Take? {
      TakeKeepsWake(s, step.w);
    } else if WorkerStep(step) {
      WorkerKeepsWake(s, step);
    } else {
      hide LockInv, DecisionInv, ShutdownInv, TaskInv;
      if step.Signal? && step.woken.Some? {
        CountUpdate(s.workers, step.woken.value, Ready, HeadingOrGone);
      }
    }
  }

  lemma StepKeepsInv<T>(s: Pool<T>, step: Step<T>)
    requires Inv(s) && Enabled(s, step)
    ensures Inv(Next(s, step))
  {
    hide LockInv, DecisionInv, ShutdownInv, TaskInv, WakeInv, Next, Enabled;
    LockKept(s, step);
    DecisionKept(s, step);
    ShutdownKept(s, step);
    TasksKept(s, step);
    WakeKept(s, step);
  }

  lemma {:induction false} RunKeepsInv<T>(s: Pool<T>, steps: seq<Step<T>>)
    requires Inv(s) && Run(s, steps).Some?
    ensures Inv(Run(s, steps).value)
    decreases |steps|
  {
    if steps != [] {
      StepKeepsInv(s, steps[0]);
      RunKeepsInv(Next(s, steps[0]), steps[1..]);
    }
  }

  lemma {:induction false} RunConcat<T>(s: Pool<T>, a: seq<Step<T>>, b: seq<Step<T>>)
    requires Run(s, a).Some?
    ensures Run(s, a + b) == Run(Run(s, a).value, b)
    decreases |a|
  {
    if a == [] {
      assert a + b == b;
    } else {
      assert (a + b)[1..] == a[1..] + b;
      RunConcat(Next(s, a[0]), a[1..], b);
    }
  }

  // ----- no wakeup is lost -----

  /** In every reachable state with a sleeping worker, the queued tasks are covered one for one by
      workers that are awake and heading for the lock, by the signal an adder is about to send, or,
      once shutdown is set, by workers that exited.  Before shutdown nobody has exited. */
  lemma WorkConserving<T>(n: nat, steps: seq<Step<T>>, s: Pool<T>)
    requires Run(Init<T>(n), steps) == Some(s)
    requires !NobodyWaits(s.workers)
    ensures |s.queue| <= Count(s.workers, Heading) + PendingSignal(s) + Count(s.workers, Gone)
    ensures !s.shutdown ==> |s.queue| <= Count(s.workers, Heading) + PendingSignal(s)
    ensures (forall w :: 0 <= w < |s.workers| ==> s.workers[w] != Exited) ==> |s.queue| <= Count(s.workers, Heading) + PendingSignal(s)
  {
    InitInv<T>(n);
    RunKeepsInv(Init<T>(n), steps);
    CountSplit(s.workers);
    if forall w :: 0 <= w < |s.workers| ==> s.workers[w] != Exited {
      CountNone(s.workers, Gone);
    }
  }

  /** With a sleeper, the queued tasks are covered by awake workers and the pending signal alone. */
  ghost predicate Covered<T>(s: Pool<T>) {
    NobodyWaits(s.workers) || |s.queue| <= Count(s.workers, Heading) + PendingSignal(s)
  }

  ghost predicate AlwaysCovered(n: nat) {
    forall steps: seq<Step<int>> :: Run(Init<int>(n), steps).Some? ==> Covered(Run(Init<int>(n), steps).value)
  }

  /** The workers of a pool are n in every state of it. */
  lemma {:induction false} WorkersStay<T>(s: Pool<T>, steps: seq<Step<T>>)
    requires Run(s, steps).Some?
    ensures |Run(s, steps).value.workers| == |s.workers|
    decreases |steps|
  {
    if steps != [] {
      WorkersStay(Next(s, steps[0]), steps[1..]);
    }
  }

  /** The bound without exited workers holds in every reachable state, shutdown or not, of exactly the pools of
      at most one worker. */
  lemma CoveredExactlyAlone(n: nat)
    ensures AlwaysCovered(n) <==> n <= 1
  {
    if n <= 1 {
      forall steps: seq<Step<int>> | Run(Init<int>(n), steps).Some? ensures Covered(Run(Init<int>(n), steps).value) {
        var s := Run(Init<int>(n), steps).value;
        WorkersStay(Init<int>(n), steps);
        if !NobodyWaits(s.workers) {
          WorkConserving(n, steps, s);
        }
      }
    } else {
      var steps, s := ShutdownLeavesTaskQueued(n);
      assert s.workers[0] == Waiting;
    }
  }

  lemma Extend<T>(s0: Pool<T>, steps: seq<Step<T>>, s: Pool<T>, step: Step<T>)
    requires Run(s0, steps) == Some(s) && Enabled(s, step)
    ensures Run(s0, steps + [step]) == Some(Next(s, step))
  {
    RunConcat(s0, steps, [step]);
    assert [step][1..] == [];
  }

  /** A ready worker of an idle pool goes to sleep in three steps. */
  lemma FallAsleep<T>(s0: Pool<T>, steps: seq<Step<T>>, s: Pool<T>, w: nat) returns (more: seq<Step<T>>)
    requires Run(s0, steps) == Some(s) && s.queue == [] && !s.shutdown && s.holder == Free && s.phase == Idle
    requires At(s, w, Ready)
    ensures Run(s0, more) == Some(s.(workers := s.workers[w := Waiting]))
  {
    Extend(s0, steps, s, Lock(w));
    var s1 := Next(s, Lock(w));
    Extend(s0, steps + [Lock(w)], s1, Test(w));
    var s2 := Next(s1, Test(w));
    Extend(s0, steps + [Lock(w)] + [Test(w)], s2, Wait(w));
    more := steps + [Lock(w)] + [Test(w)] + [Wait(w)];
    assert Next(s2, Wait(w)) == s.(workers := s.workers[w := Waiting]);
  }

  /** A submission to an idle pool wakes the sleeping worker it names. */
  lemma Submit<T>(s0: Pool<T>, steps: seq<Step<T>>, s: Pool<T>, t: T, w: nat) returns (more: seq<Step<T>>)
    requires Run(s0, steps) == Some(s) && s.holder == Free && s.phase == Idle && At(s, w, Waiting)
    ensures Run(s0, more) == Some(s.(workers := s.workers[w := Ready], queue := s.queue + [t], submitted := s.submitted + [t]))
  {
    Extend(s0, steps, s, AddLock(t));
    var s1 := Next(s, AddLock(t));
    Extend(s0, steps + [AddLock(t)], s1, Append);
    var s2 := Next(s1, Append);
    Extend(s0, steps + [AddLock(t)] + [Append], s2, Signal(Some(w)));
    var s3 := Next(s2, Signal(Some(w)));
    more := steps + [AddLock(t)] + [Append] + [Signal(Some(w))];
    Extend(s0, more, s3, AddUnlock);
    more := more + [AddUnlock];
  }

  /** The idle pool with its first k workers asleep. */
  function Asleep<T>(n: nat, k: nat): Pool<T> {
    Init<T>(n).(workers := seq(n, w => if w < k then Waiting else Ready))
  }

  lemma {:induction false} AllAsleep<T>(n: nat, k: nat) returns (steps: seq<Step<T>>)
    requires k <= n
    ensures Run(Init<T>(n), steps) == Some(Asleep<T>(n, k))
  {
    if k == 0 {
      steps := [];
      assert Asleep<T>(n, 0).workers == Init<T>(n).workers;
    } else {
      steps := AllAsleep(n, k - 1);
      steps := FallAsleep(Init<T>(n), steps, Asleep<T>(n, k - 1), k - 1);
      assert Asleep<T>(n, k - 1).workers[k - 1 := Waiting] == Asleep<T>(n, k).workers;
    }
  }

  /** Between setting the flag and the broadcast the bound needs the exited workers: in a pool of two or more,
      every other worker sleeps beside a queued task, nobody heads for it, and no signal is pending. */
  lemma ShutdownLeavesTaskQueued(n: nat) returns (steps: seq<Step<int>>, s: Pool<int>)
    requires n >= 2
    ensures Run(Init<int>(n), steps) == Some(s)
    ensures |s.workers| == n && forall w :: 0 <= w < n ==> s.workers[w] == if w == 1 then Exited else Waiting
    ensures s.queue == [7] && s.shutdown && s.holder == Free
    ensures |s.queue| > Count(s.workers, Heading) + PendingSignal(s)
  {
    var s0 := Init<int>(n);
    steps := AllAsleep(n, n);
    s := Asleep<int>(n, n);
    steps := Submit(s0, steps, s, 7, 1);
    s := s.(workers := s.workers[1 := Ready], queue := s.queue + [7], submitted := s.submitted + [7]);
    steps, s := ExitPastTask(s0, steps, s, 1);
    CountNone(s.workers, Heading);
  }

  lemma ExitPastTask<T>(s0: Pool<T>, steps: seq<Step<T>>, s: Pool<T>, w: nat) returns (more: seq<Step<T>>, t: Pool<T>)
    requires Run(s0, steps) == Some(s) && s.holder == Free && s.phase == Idle && !s.shutdown && At(s, w, Ready)
    ensures Run(s0, more) == Some(t)
    ensures t == s.(workers := s.workers[w := Exited], shutdown := true, phase := Flagged)
  {
    Extend(s0, steps, s, SetFlag);
    t := Next(s, SetFlag);
    more := steps + [SetFlag];
    Extend(s0, more, t, Lock(w));
    t := Next(t, Lock(w));
    more := more + [Lock(w)];
    Extend(s0, more, t, Test(w));
    t := Next(t, Test(w));
    more := more + [Test(w)];
    Extend(s0, more, t, Check(w));
    t := Next(t, Check(w));
    more := more + [Check(w)];
  }

  // ----- a queued task can always be reached -----

  /** Steps left until the next task is taken, following TowardsTake. */
  function Distance<T>(s: Pool<T>): nat {
    match s.holder
    case Free => if exists w :: 0 <= w < |s.workers| && s.workers[w] == Ready then 4 else 5
    case Worker(w) =>
      if w >= |s.workers| then 0
      else if s.workers[w] == Taking then 1
      else if s.workers[w] == Checking then 2
      else 3
    case Signalled => 6
    case Appended => 7
    case Adding(_) => 8
    case Destroying => 9
  }

  /** Neither a new submission, nor the start of destruction, nor a wakeup that nobody sent. */
  predicate Internal<T>(step: Step<T>) { !step.AddLock? && !step.SetFlag? && !step.SpuriousWake? }

  /** With the lock free and a task queued, some worker is ready or running: nobody can be asleep
      with every other worker asleep too. */
  lemma FreeLockHasWorker<T>(s: Pool<T>) returns (w: nat)
    requires Inv(s) && !s.shutdown && s.queue != [] && s.workers != [] && s.holder == Free
    ensures w < |s.workers| && (s.workers[w] == Ready || s.workers[w].Running?)
    ensures s.workers[w].Running? ==> Distance(s) == 5
  {
    if exists w :: 0 <= w < |s.workers| && s.workers[w] == Ready {
      w :| 0 <= w < |s.workers| && s.workers[w] == Ready;
    } else if NobodyWaits(s.workers) {
      w := 0;
    } else {
      w := CountWitness(s.workers, HeadingOrGone);
    }
  }

  lemma TowardsTake<T>(s: Pool<T>) returns (step: Step<T>)
    requires Inv(s) && !s.shutdown && s.queue != [] && s.workers != []
    ensures Enabled(s, step) && Internal(step)
    ensures step.Take? || (Distance(Next(s, step)) < Distance(s) && Next(s, step).takers == s.takers)
    ensures !step.Take? ==> Next(s, step).queue != [] && !Next(s, step).shutdown && Next(s, step).workers != []
    ensures |Next(s, step).submitted| - |s.submitted| == if s.holder.Adding? then 1 else 0
    ensures s.holder.Adding? || !Next(s, step).holder.Adding?
    ensures s.holder.Adding? ==> !Next(s, step).holder.Adding?
  {
    match s.holder
    case Free =>
      var w := FreeLockHasWorker(s);
      step := if s.workers[w] == Ready then Lock(w) else Finish(w);
      if s.workers[w].Running? {
        assert Next(s, step).workers[w] == Ready;
      }
    case Worker(w) =>
      step := if s.workers[w] == Testing then Test(w) else if s.workers[w] == Checking then Check(w) else Take(w);
    case Adding(_) => step := Append;
    case Appended =>
      if NobodyWaits(s.workers) {
        step := Signal(None);
      } else {
        var w :| 0 <= w < |s.workers| && s.workers[w] == Waiting;
        step := Signal(Some(w));
      }
    case Signalled => step := AddUnlock;
  }

  /** From every reachable state with a queued task and at least one worker, before shutdown, the
      pool can run on without outside help or spurious wakeups to a state where the head of the queue has been taken. */
  lemma {:induction false} TaskIsReachable<T>(s: Pool<T>) returns (steps: seq<Step<T>>, t: Pool<T>)
    requires Inv(s) && !s.shutdown && s.queue != [] && s.workers != []
    ensures Run(s, steps) == Some(t) && Inv(t)
    ensures forall i :: 0 <= i < |steps| ==> Internal(steps[i])
    ensures !t.shutdown && t.workers != []
    ensures |t.takers| == |s.takers| + 1
    ensures |t.submitted| == |s.submitted| + if s.holder.Adding? then 1 else 0
    ensures !t.holder.Adding?
    decreases Distance(s)
  {
    var step := TowardsTake(s);
    var s' := Next(s, step);
    StepKeepsInv(s, step);
    if step.Take? {
      steps, t := [step], s';
      assert steps[1..] == [];
    } else {
      var rest;
      rest, t := TaskIsReachable(s');
      steps := [step] + rest;
      assert steps[1..] == rest;
    }
  }

  /** Hence nothing is ever lost: before shutdown every pool with a worker can drain its queue, so
      every task submitted so far gets taken. */
  lemma {:induction false} CanDrain<T>(s: Pool<T>) returns (steps: seq<Step<T>>, t: Pool<T>)
    requires Inv(s) && !s.shutdown && s.workers != []
    ensures Run(s, steps) == Some(t) && Inv(t)
    ensures forall i :: 0 <= i < |steps| ==> Internal(steps[i])
    ensures t.queue == [] && |t.takers| == |t.submitted|
    decreases |s.submitted| - |s.takers| + if s.holder.Adding? then 1 else 0
  {
    if s.queue == [] {
      steps, t := [], s;
    } else {
      var a, m := TaskIsReachable(s);
      var b;
      b, t := CanDrain(m);
      RunConcat(s, a, b);
      steps := a + b;
    }
  }

  /** What a worker can still do by itself, without new tasks, before it sleeps. */
  function QuietWeight(pc: Pc): nat {
    match pc
    case Running(_) => 4
    case Ready => 3
    case Testing => 2
    case ToWait => 1
    case Checking => 1
    case _ => 0
  }

  function QuietSum(ws: seq<Pc>): nat {
    if ws == [] then 0 else QuietWeight(ws[0]) + QuietSum(ws[1..])
  }

  lemma {:induction false} QuietSumUpdate(ws: seq<Pc>, w: nat, pc: Pc)
    requires w < |ws|
    ensures QuietSum(ws[w := pc]) == QuietSum(ws) - QuietWeight(ws[w]) + QuietWeight(pc)
  {
    if w == 0 {
      assert ws[0 := pc][1..] == ws[1..];
    } else {
      assert ws[w := pc][1..] == ws[1..][w - 1 := pc];
      QuietSumUpdate(ws[1..], w - 1, pc);
    }
  }

  /** A bound on the steps before shutdown without submissions and spurious wakeups: a queued task costs a take
      and a round of its worker, and an adder in its critical section brings a task and wakes a worker. */
  function QuietRank<T>(s: Pool<T>): nat {
    QuietSum(s.workers) + 5 * |s.queue|
    + match s.holder case Adding(_) => 11 case Appended => 5 case Signalled => 1 case _ => 0
  }

  lemma QuietStep<T>(s: Pool<T>, step: Step<T>)
    requires Inv(s) && !s.shutdown && Enabled(s, step) && Internal(step)
    ensures !Next(s, step).shutdown && QuietRank(Next(s, step)) < QuietRank(s)
  {
    hide TaskInv, WakeInv, QuietSum;
    var ws := s.workers;
    match step
    case Lock(w) => QuietSumUpdate(ws, w, Testing);
    case Test(w) =>
      if s.queue == [] {
        QuietSumUpdate(ws, w, ToWait);
      } else {
        QuietSumUpdate(ws, w, Checking);
      }
    case Wait(w) => QuietSumUpdate(ws, w, Waiting);
    case Check(w) => QuietSumUpdate(ws, w, Taking);
    case Take(w) => QuietSumUpdate(ws, w, Running(|s.takers|));
    case Finish(w) => QuietSumUpdate(ws, w, Ready);
    case Signal(woken) =>
      if woken.Some? {
        QuietSumUpdate(ws, woken.value, Ready);
      }
    case _ =>
  }

  /** No pool runs on for ever by itself: before shutdown every run without submissions and spurious wakeups has at
      most QuietRank steps. */
  lemma {:induction false} QuietRunsAreBounded<T>(s: Pool<T>, steps: seq<Step<T>>)
    requires Inv(s) && !s.shutdown && Run(s, steps).Some? && forall i :: 0 <= i < |steps| ==> Internal(steps[i])
    ensures !Run(s, steps).value.shutdown && |steps| + QuietRank(Run(s, steps).value) <= QuietRank(s)
    decreases |steps|
  {
    hide QuietRank;
    if steps != [] {
      QuietStep(s, steps[0]);
      StepKeepsInv(s, steps[0]);
      QuietRunsAreBounded(Next(s, steps[0]), steps[1..]);
    }
  }

  /** No wakeup is lost: whatever order the steps come in, a run without submissions and spurious wakeups that cannot
      be continued has taken every task; so before shutdown each way of running on drains the queue. */
  lemma EveryQuietRunDrains<T(!new)>(s: Pool<T>, steps: seq<Step<T>>, t: Pool<T>)
    requires Inv(s) && !s.shutdown && s.workers != [] && forall i :: 0 <= i < |steps| ==> Internal(steps[i])
    requires Run(s, steps) == Some(t) && forall step: Step<T> :: Internal(step) ==> !Enabled(t, step)
    ensures |steps| <= QuietRank(s) && t.queue == [] && |t.takers| == |t.submitted|
  {
    QuietRunsAreBounded(s, steps);
    RunKeepsInv(s, steps);
    WorkersStay(s, steps);
    if t.queue != [] {
      var step := TowardsTake(t);
      assert false;
    }
  }

  // ----- shutdown strands nobody -----

  predicate PastBroadcast<T>(s: Pool<T>) { s.phase.Broadcast? || s.phase.Joining? || s.phase.Done? }

  /** After the broadcast no worker is asleep or about to sleep, and none ever is again, whatever
      follows; the flag is written outside the lock, but a worker caught between its test and its
      wait still holds the lock that the broadcast needs. */
  lemma {:induction false} NobodyStranded<T>(n: nat, before: seq<Step<T>>, s: Pool<T>, after: seq<Step<T>>, t: Pool<T>)
    requires Run(Init<T>(n), before) == Some(s) && PastBroadcast(s)
    requires Run(s, after) == Some(t)
    ensures AllAwake(s.workers) && AllAwake(t.workers) && PastBroadcast(t)
    decreases |after|
  {
    InitInv<T>(n);
    RunKeepsInv(Init<T>(n), before);
    if after != [] {
      RunConcat(Init<T>(n), before, [after[0]]);
      assert [after[0]][1..] == [];
      NobodyStranded(n, before + [after[0]], Next(s, after[0]), after[1..], t);
    }
  }

  predicate WorkerStep<T>(step: Step<T>) {
    step.Lock? || step.Test? || step.Wait? || step.SpuriousWake? || step.Check? || step.Take? || step.Finish?
  }

  /** An upper bound on a worker's remaining steps once the broadcast has happened. */
  function Weight(pc: Pc): nat {
    match pc
    case Taking => 5
    case Running(_) => 4
    case Ready => 3
    case Testing => 2
    case Checking => 1
    case _ => 0
  }

  function ExitRank(ws: seq<Pc>): nat {
    if ws == [] then 0 else Weight(ws[0]) + ExitRank(ws[1..])
  }

  lemma {:induction false} ExitRankUpdate(ws: seq<Pc>, w: nat, pc: Pc)
    requires w < |ws|
    ensures ExitRank(ws[w := pc]) == ExitRank(ws) - Weight(ws[w]) + Weight(pc)
  {
    if w == 0 {
      assert ws[0 := pc][1..] == ws[1..];
    } else {
      assert ws[w := pc][1..] == ws[1..][w - 1 := pc];
      ExitRankUpdate(ws[1..], w - 1, pc);
    }
  }

  /** The workers' part of StepAfterBroadcast. */
  lemma ExitRankStep<T>(s: Pool<T>, step: Step<T>)
    requires Enabled(s, step) && WorkerStep(step) && AllAwake(s.workers)
    requires step.Test? ==> s.shutdown
    requires step.Check? ==> s.shutdown
    ensures ExitRank(s.workers) > ExitRank(Next(s, step).workers)
  {
    var ws := s.workers;
    match step
    case Lock(w) => ExitRankUpdate(ws, w, Testing);
    case Test(w) => ExitRankUpdate(ws, w, Checking);
    case Check(w) => ExitRankUpdate(ws, w, Exited);
    case Take(w) => ExitRankUpdate(ws, w, Running(|s.takers|));
    case Finish(w) => ExitRankUpdate(ws, w, Ready);
    case _ =>
  }

  lemma StepAfterBroadcast<T>(s: Pool<T>, step: Step<T>)
    requires Inv(s) && PastBroadcast(s) && Enabled(s, step)
    ensures PastBroadcast(Next(s, step))
    ensures ExitRank(s.workers) >= ExitRank(Next(s, step).workers) + if WorkerStep(step) then 1 else 0
  {
    hide LockInv, DecisionInv, TaskInv, WakeInv, ExitRank;
    assert AllAwake(s.workers);
    if WorkerStep(step) {
      ExitRankStep(s, step);
    } else if step.Signal? {
      assert NobodyWaits(s.workers);
    } else if step.DestroyBroadcast? || step.DestroyLock? {
      assert false;
    }
  }

  function WorkerSteps<T>(steps: seq<Step<T>>): nat {
    if steps == [] then 0 else (if WorkerStep(steps[0]) then 1 else 0) + WorkerSteps(steps[1..])
  }

  /** The joins end: after the broadcast the workers together make at most ExitRank more steps in any
      interleaving, and until all have exited some worker can move unless the lock is being released. */
  lemma {:induction false} ExitsAreBounded<T>(s: Pool<T>, steps: seq<Step<T>>)
    requires Inv(s) && PastBroadcast(s) && Run(s, steps).Some?
    ensures WorkerSteps(steps) + ExitRank(Run(s, steps).value.workers) <= ExitRank(s.workers)
    decreases |steps|
  {
    if steps != [] {
      StepAfterBroadcast(s, steps[0]);
      StepKeepsInv(s, steps[0]);
      ExitsAreBounded(Next(s, steps[0]), steps[1..]);
    }
  }

  lemma WorkerCanMove<T>(s: Pool<T>) returns (step: Step<T>)
    requires Inv(s) && PastBroadcast(s) && !AllExited(s.workers)
    ensures Enabled(s, step) && Internal(step)
    ensures WorkerStep(step) || s.holder.Adding? || s.holder.Appended? || s.holder.Signalled? || s.holder.Destroying?
  {
    var w :| 0 <= w < |s.workers| && s.workers[w] != Exited;
    match s.holder
    case Free => step := if s.workers[w] == Ready then Lock(w) else Finish(w);
    case Worker(h) =>
      step := if s.workers[h] == Testing then Test(h) else if s.workers[h] == Checking then Check(h) else Take(h);
    case Adding(_) => step := Append;
    case Appended => step := Signal(None);
    case Signalled => step := AddUnlock;
    case Destroying => step := DestroyUnlock;
  }

  function PhaseRank(phase: Phase): nat {
    match phase
    case Idle => 5
    case Flagged => 4
    case Locked => 3
    case Broadcast => 2
    case Joining => 1
    case Done => 0
  }

  /** Steps of the lock's holder, once shutdown is set, until it gives the lock back. */
  function HolderRank<T>(s: Pool<T>): nat {
    match s.holder
    case Free => 0
    case Worker(w) => if w < |s.workers| && s.workers[w] == Testing then 2 else 1
    case Adding(_) => 3
    case Appended => 2
    case Signalled => 1
    case Destroying => 0
  }

  function JoinRank<T>(s: Pool<T>): nat {
    if s.phase.Joining? then ExitRank(s.workers) else 0
  }

  ghost predicate Closer<T>(s: Pool<T>, t: Pool<T>) {
    || PhaseRank(t.phase) < PhaseRank(s.phase)
    || (t.phase == s.phase && JoinRank(t) < JoinRank(s))
    || (t.phase == s.phase && JoinRank(t) == JoinRank(s) && HolderRank(t) < HolderRank(s))
  }

  /** The step of whoever holds the lock. */
  lemma HolderMoves<T>(s: Pool<T>) returns (step: Step<T>)
    requires Inv(s) && s.shutdown && s.phase != Done && !s.holder.Free? && !s.holder.Destroying?
    ensures Enabled(s, step) && Internal(step) && Next(s, step).phase == s.phase && Next(s, step).shutdown
    ensures HolderRank(Next(s, step)) < HolderRank(s)
  {
    hide TaskInv, WakeInv;
    match s.holder
    case Worker(w) =>
      assert InCritical(s.workers[w]);
      step := match s.workers[w] case Testing => Test(w) case ToWait => Wait(w) case Checking => Check(w) case _ => Take(w);
    case Adding(_) => step := Append;
    case Appended =>
      if NobodyWaits(s.workers) {
        step := Signal(None);
      } else {
        var w :| 0 <= w < |s.workers| && s.workers[w] == Waiting;
        step := Signal(Some(w));
      }
    case Signalled => step := AddUnlock;
  }

  lemma TowardsDone<T>(s: Pool<T>) returns (step: Step<T>)
    requires Inv(s) && s.shutdown && s.phase != Done
    ensures Enabled(s, step) && Internal(step) && Next(s, step).shutdown && Closer(s, Next(s, step))
  {
    if !s.holder.Free? && !s.holder.Destroying? {
      step := HolderMoves(s);
    } else if s.phase.Flagged? {
      step := DestroyLock;
    } else if s.phase.Locked? {
      step := DestroyBroadcast;
    } else if s.phase.Broadcast? {
      step := DestroyUnlock;
    } else if AllExited(s.workers) {
      step := Join;
    } else {
      step := WorkerCanMove(s);
    }
    if s.phase.Joining? {
      StepAfterBroadcast(s, step);
    }
  }

  /** Destruction can always finish: from every reachable state after the flag is set, the pool and its adders can
      run on without new submissions until destroy_tpool is done and every worker has exited. */
  lemma {:induction false} CanFinish<T>(s: Pool<T>) returns (steps: seq<Step<T>>, t: Pool<T>)
    requires Inv(s) && s.shutdown
    ensures Run(s, steps) == Some(t) && Inv(t) && forall i :: 0 <= i < |steps| ==> Internal(steps[i])
    ensures t.phase == Done && AllExited(t.workers)
    decreases PhaseRank(s.phase), JoinRank(s), HolderRank(s)
  {
    if s.phase == Done {
      steps, t := [], s;
    } else {
      var step := TowardsDone(s);
      StepKeepsInv(s, step);
      var rest;
      rest, t := CanFinish(Next(s, step));
      steps := [step] + rest;
      assert steps[1..] == rest;
    }
  }

  /** A worker's remaining steps once the flag is set, asleep or not. */
  function FinishWeight(pc: Pc): nat {
    match pc
    case Taking => 5
    case ToWait => 5
    case Waiting => 4
    case Running(_) => 4
    case Ready => 3
    case Testing => 2
    case Checking => 1
    case Exited => 0
  }

  function FinishSum(ws: seq<Pc>): nat {
    if ws == [] then 0 else FinishWeight(ws[0]) + FinishSum(ws[1..])
  }

  lemma {:induction false} FinishSumUpdate(ws: seq<Pc>, w: nat, pc: Pc)
    requires w < |ws|
    ensures FinishSum(ws[w := pc]) == FinishSum(ws) - FinishWeight(ws[w]) + FinishWeight(pc)
  {
    if w == 0 {
      assert ws[0 := pc][1..] == ws[1..];
    } else {
      assert ws[w := pc][1..] == ws[1..][w - 1 := pc];
      FinishSumUpdate(ws[1..], w - 1, pc);
    }
  }

  lemma {:induction false} FinishSumAwaken(ws: seq<Pc>)
    ensures FinishSum(Awaken(ws)) <= FinishSum(ws)
  {
    if ws != [] {
      assert Awaken(ws)[1..] == Awaken(ws[1..]);
      FinishSumAwaken(ws[1..]);
    }
  }

  function FinishRank<T>(s: Pool<T>): nat {
    FinishSum(s.workers) + PhaseRank(s.phase)
    + match s.holder case Adding(_) => 3 case Appended => 2 case Signalled => 1 case _ => 0
  }

  lemma FinishWorkerStep<T>(s: Pool<T>, step: Step<T>)
    requires s.shutdown && Enabled(s, step) && WorkerStep(step)
    requires LockInv(s)
    ensures FinishRank(Next(s, step)) < FinishRank(s)
  {
    hide FinishSum;
    var ws := s.workers;
    match step
    case Lock(w) => FinishSumUpdate(ws, w, Testing);
    case Test(w) => FinishSumUpdate(ws, w, Checking);
    case Wait(w) => FinishSumUpdate(ws, w, Waiting);
    case SpuriousWake(w) => FinishSumUpdate(ws, w, Ready);
    case Check(w) => FinishSumUpdate(ws, w, Exited);
    case Take(w) => FinishSumUpdate(ws, w, Running(|s.takers|));
    case Finish(w) => FinishSumUpdate(ws, w, Ready);
  }

  lemma FinishStep<T>(s: Pool<T>, step: Step<T>)
    requires Inv(s) && s.shutdown && Enabled(s, step) && !step.AddLock?
    ensures Next(s, step).shutdown && FinishRank(Next(s, step)) < FinishRank(s)
  {
    hide DecisionInv, TaskInv, WakeInv, FinishSum;
    if WorkerStep(step) {
      FinishWorkerStep(s, step);
    } else if step.DestroyBroadcast? {
      FinishSumAwaken(s.workers);
    } else if step.Signal? && step.woken.Some? {
      FinishSumUpdate(s.workers, step.woken.value, Ready);
    }
  }

  lemma {:induction false} FinishRunsAreBounded<T>(s: Pool<T>, steps: seq<Step<T>>)
    requires Inv(s) && s.shutdown && Run(s, steps).Some? && forall i :: 0 <= i < |steps| ==> !steps[i].AddLock?
    ensures Run(s, steps).value.shutdown && |steps| + FinishRank(Run(s, steps).value) <= FinishRank(s)
    decreases |steps|
  {
    hide FinishRank;
    if steps != [] {
      FinishStep(s, steps[0]);
      StepKeepsInv(s, steps[0]);
      FinishRunsAreBounded(Next(s, steps[0]), steps[1..]);
    }
  }

  /** Destruction always finishes: once the flag is set every run without submissions is bounded, and one that cannot
      be continued without them and without spurious wakeups is at the end, every worker having exited. */
  lemma EveryRunFinishes<T(!new)>(s: Pool<T>, steps: seq<Step<T>>, t: Pool<T>)
    requires Inv(s) && s.shutdown && forall i :: 0 <= i < |steps| ==> !steps[i].AddLock?
    requires Run(s, steps) == Some(t) && forall step: Step<T> :: Internal(step) ==> !Enabled(t, step)
    ensures |steps| <= FinishRank(s) && t.phase == Done && AllExited(t.workers)
  {
    FinishRunsAreBounded(s, steps);
    RunKeepsInv(s, steps);
    if t.phase != Done {
      var step := TowardsDone(t);
      assert false;
    }
  }

  // ----- every task once, in order -----

  /** The tasks handed to add_task_2_tpool, in the order its callers got the lock. */
  function Added<T>(steps: seq<Step<T>>): seq<T> {
    if steps == [] then []
    else Added(steps[..|steps| - 1]) + (if steps[|steps| - 1].AddLock? then [steps[|steps| - 1].task] else [])
  }

  /** The workers that took a task, in order. */
  function Takers<T>(steps: seq<Step<T>>): seq<nat> {
    if steps == [] then []
    else Takers(steps[..|steps| - 1]) + (if steps[|steps| - 1].Take? then [steps[|steps| - 1].w] else [])
  }

  lemma {:induction false} HistoryConcat<T>(a: seq<Step<T>>, b: seq<Step<T>>)
    ensures Added(a + b) == Added(a) + Added(b) && Takers(a + b) == Takers(a) + Takers(b)
  {
    if b == [] {
      assert a + b == a;
    } else {
      assert (a + b)[..|a + b| - 1] == a + b[..|b| - 1];
      HistoryConcat(a, b[..|b| - 1]);
    }
  }

  lemma HistoryOfOne<T>(step: Step<T>)
    ensures Added([step]) == if step.AddLock? then [step.task] else []
    ensures Takers([step]) == if step.Take? then [step.w] else []
  {
    assert [step][..0] == [];
  }

  /** The submitted tasks and the one being added. */
  function Handed<T>(s: Pool<T>): seq<T> {
    s.submitted + if s.holder.Adding? then [s.holder.task] else []
  }

  lemma HandedNext<T>(s: Pool<T>, step: Step<T>)
    requires LockInv(s) && Enabled(s, step)
    ensures Next(s, step).takers == s.takers + if step.Take? then [step.w] else []
    ensures Handed(Next(s, step)) == Handed(s) + if step.AddLock? then [step.task] else []
  {
    assert s.submitted + [] == s.submitted;
  }

  lemma {:induction false} HistoryIsFaithful<T>(n: nat, steps: seq<Step<T>>)
    requires Run(Init<T>(n), steps).Some?
    ensures var s := Run(Init<T>(n), steps).value;
            s.takers == Takers(steps) && s.submitted + (if s.holder.Adding? then [s.holder.task] else []) == Added(steps)
    decreases |steps|
  {
    if steps != [] {
      var k := |steps| - 1;
      var a := steps[..k];
      assert a + [steps[k]] == steps;
      RunPrefix(Init<T>(n), a, [steps[k]]);
      HistoryIsFaithful(n, a);
      InitInv<T>(n);
      RunKeepsInv(Init<T>(n), a);
      var p := Run(Init<T>(n), a).value;
      RunConcat(Init<T>(n), a, [steps[k]]);
      assert [steps[k]][1..] == [];
      assert Enabled(p, steps[k]) && Run(Init<T>(n), steps) == Some(Next(p, steps[k]));
      hide LockInv, Enabled, Next, Run;
      HandedNext(p, steps[k]);
    }
  }

  lemma {:induction false} RunPrefix<T>(s: Pool<T>, a: seq<Step<T>>, b: seq<Step<T>>)
    requires Run(s, a + b).Some?
    ensures Run(s, a).Some?
    decreases |a|
  {
    if a != [] {
      assert (a + b)[1..] == a[1..] + b;
      RunPrefix(Next(s, a[0]), a[1..], b);
    }
  }

  /** In every interleaving the queue is exactly the submitted tasks not yet taken, in order; task k
      is run only by the worker that made the k-th take, so no task runs twice or on two workers; and
      what destroy_tpool frees at the end are exactly the tasks never taken. */
  lemma TaskConservation<T>(n: nat, steps: seq<Step<T>>, s: Pool<T>)
    requires Run(Init<T>(n), steps) == Some(s)
    ensures |Takers(steps)| <= |s.submitted| && s.submitted <= Added(steps)
    ensures s.phase != Done ==> s.queue == s.submitted[|Takers(steps)|..]
    ensures s.phase == Done ==> s.queue == [] && s.leftovers == s.submitted[|Takers(steps)|..]
    ensures forall w :: 0 <= w < |s.workers| && s.workers[w].Running? ==>
              s.workers[w].task < |Takers(steps)| && Takers(steps)[s.workers[w].task] == w
  {
    InitInv<T>(n);
    RunKeepsInv(Init<T>(n), steps);
    HistoryIsFaithful(n, steps);
  }

  /** The dequeue never follows a null head pointer. */
  lemma NoNullTake<T>(n: nat, steps: seq<Step<T>>, s: Pool<T>, w: nat)
    requires Run(Init<T>(n), steps) == Some(s) && Enabled(s, Take(w))
    ensures s.queue != [] && Next(s, Take(w)).queue == s.queue[1..] && |s.takers| < |s.submitted|
    ensures s.queue[0] == s.submitted[|s.takers|] && Next(s, Take(w)).workers[w] == Running(|s.takers|)
  {
    InitInv<T>(n);
    RunKeepsInv(Init<T>(n), steps);
  }
}
