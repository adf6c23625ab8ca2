/** The thread pool (src/util/threadpool.cpp) as interleaved steps of its workers,
    its submitters and its destructor. */
module ThreadpoolProtocol {
  import opened Options

  datatype Task = Task(name: string)

  /** Where a worker is in run_task. */
  datatype Worker =
    | Head                 // before the unlocked loop test
    | Acquire              // wants the lock
    | Entered              // holds the lock, before the test for shutdown
    | Testing              // holds the lock, before the wait loop's test
    | Blocking             // holds the lock, about to wait
    | Waiting              // asleep in has_task.wait
    | Woken                // awake again, wants the lock
    | Taking               // holds the lock, past the wait loop
    | Running(index: nat)  // running the index-th dequeued task
    | Exited

  /** Open until the destructor clears run_flag; Draining once it has notified. */
  datatype Phase = Open | Stopping | Draining

  datatype Pool = Pool(
    maxTasks: nat,
    workers: seq<Worker>,
    lock: Option<nat>,
    queue: seq<Task>,
    phase: Phase,
    accepted: seq<Task>,
    dequeued: seq<Task>,
    runs: seq<nat>)
  {
    predicate RunFlag() {
      phase.Open?
    }
  }

  datatype Step =
    | Work(w: nat)
    | SpuriousWakeup(w: nat)
    | Assign(task: Task, notified: Option<nat>)
    | Stop
    | NotifyAll

  predicate HoldsLock(k: Worker) {
    k.Entered? || k.Testing? || k.Blocking? || k.Taking?
  }

  /** The constructor starts every worker at the head of run_task. */
  function Start(threads: nat, maxTasks: nat): Pool {
    Pool(maxTasks, seq(threads, _ => Head), None, [], Open, [], [], [])
  }

  /** Awake, and not in want of a lock that is taken. */
  predicate CanMove(k: Worker, lock: Option<nat>) {
    && !k.Waiting? && !k.Exited?
    && (k.Acquire? || k.Woken? ==> lock.None?)
  }

  /** notify_one wakes one of the waiting workers if there is any. */
  predicate ValidNotify(workers: seq<Worker>, notified: Option<nat>) {
    match notified
    case None => forall w :: 0 <= w < |workers| ==> !workers[w].Waiting?
    case Some(w) => w < |workers| && workers[w].Waiting?
  }

  predicate Enabled(p: Pool, step: Step) {
    match step
    case Work(w) =>
      && w < |p.workers|
      && CanMove(p.workers[w], p.lock)
      && (p.workers[w].Running? ==> p.workers[w].index < |p.runs|)
    case SpuriousWakeup(w) => w < |p.workers| && p.workers[w].Waiting?
    case Assign(_, notified) =>
      && p.phase.Open? && p.lock.None?
      && (if |p.queue| < p.maxTasks then ValidNotify(p.workers, notified) else notified.None?)
    case Stop => p.phase.Open? && p.lock.None?
    case NotifyAll => p.phase.Stopping?
  }

  function Moved(p: Pool, w: nat, k: Worker, lock: Option<nat>): Pool
    requires w < |p.workers|
  {
    p.(workers := p.workers[w := k], lock := lock)
  }

  /** One step of run_task. */
  function Worked(p: Pool, w: nat): Pool
    requires Enabled(p, Work(w))
  {
    match p.workers[w]
    case Head =>
      Moved(p, w, if p.RunFlag() || p.queue != [] then Acquire else Exited, p.lock)
    case Acquire => Moved(p, w, Entered, Some(w))
    case Entered =>
      if !p.RunFlag() && p.queue == [] then Moved(p, w, Exited, None) else Moved(p, w, Testing, p.lock)
    case Testing =>
      Moved(p, w, if p.queue == [] && p.RunFlag() then Blocking else Taking, p.lock)
    case Blocking => Moved(p, w, Waiting, None)
    case Woken => Moved(p, w, Testing, Some(w))
    case Taking =>
      if p.queue == [] then Moved(p, w, Exited, None)
      else Moved(p, w, Running(|p.dequeued|), None).(
        queue := p.queue[1..], dequeued := p.dequeued + [p.queue[0]], runs := p.runs + [0])
    case Running(index) => Moved(p, w, Head, p.lock).(runs := p.runs[index := p.runs[index] + 1])
  }

  function Assigned(p: Pool, task: Task, notified: Option<nat>): Pool
    requires Enabled(p, Assign(task, notified))
  {
    if |p.queue| < p.maxTasks then
      p.(queue := p.queue + [task], accepted := p.accepted + [task],
         workers := if notified.Some? then p.workers[notified.value := Woken] else p.workers)
    else p
  }

  function AllWoken(workers: seq<Worker>): (after: seq<Worker>)
    ensures |after| == |workers|
  {
    seq(|workers|, w requires 0 <= w < |workers| => if workers[w].Waiting? then Woken else workers[w])
  }

  function Next(p: Pool, step: Step): Pool
    requires Enabled(p, step)
  {
    match step
    case Work(w) => Worked(p, w)
    case SpuriousWakeup(w) => Moved(p, w, Woken, p.lock)
    case Assign(task, notified) => Assigned(p, task, notified)
    case Stop => p.(phase := Stopping)
    case NotifyAll => p.(phase := Draining, workers := AllWoken(p.workers))
  }

  // ---------- the invariant ----------

  predicate Active(k: Worker) {
    !k.Waiting? && !k.Exited?
  }

  /** Some worker is neither asleep nor gone. */
  predicate SomeActive(workers: seq<Worker>) {
    exists w :: 0 <= w < |workers| && Active(workers[w])
  }

  predicate AllExited(workers: seq<Worker>) {
    forall w :: 0 <= w < |workers| ==> workers[w].Exited?
  }

  /** The lock's holder is the one worker inside a locked section. */
  predicate LockInv(p: Pool) {
    && (p.lock.Some? ==> p.lock.value < |p.workers|)
    && forall w: nat :: w < |p.workers| ==> (HoldsLock(p.workers[w]) <==> p.lock == Some(w))
  }

  /** What a worker's position says about the queue and the phase. */
  predicate PlaceInv(p: Pool, k: Worker) {
    match k
    case Blocking => p.queue == [] && p.phase.Open?
    case Taking => p.queue != [] || !p.phase.Open?
    case Waiting => !p.phase.Draining?
    case Exited => p.queue == [] && !p.phase.Open?
    case _ => true
  }

  /** First in, first out, within the bound. */
  predicate FifoInv(p: Pool) {
    p.accepted == p.dequeued + p.queue && |p.queue| <= p.maxTasks
  }

  predicate BeingRun(workers: seq<Worker>, i: nat) {
    exists w :: 0 <= w < |workers| && workers[w] == Running(i)
  }

  /** A dequeued task has run once, or is being run for the first time by one worker. */
  predicate OnceInv(p: Pool) {
    && |p.runs| == |p.dequeued|
    && (forall w :: 0 <= w < |p.workers| && p.workers[w].Running? ==>
          p.workers[w].index < |p.runs| && p.runs[p.workers[w].index] == 0)
    && (forall v, w :: 0 <= v < w < |p.workers| && p.workers[v].Running? && p.workers[w].Running? ==>
          p.workers[v].index != p.workers[w].index)
    && (forall i :: 0 <= i < |p.runs| ==> p.runs[i] == 1 || (p.runs[i] == 0 && BeingRun(p.workers, i)))
  }

  predicate Inv(p: Pool) {
    && LockInv(p)
    && (forall w :: 0 <= w < |p.workers| ==> PlaceInv(p, p.workers[w]))
    && FifoInv(p)
    && OnceInv(p)
    && (p.workers == [] ==> p.dequeued == [])
    && (p.workers != [] && p.queue != [] ==> SomeActive(p.workers))
  }

  lemma StartInv(threads: nat, maxTasks: nat)
    ensures Inv(Start(threads, maxTasks))
  {
  }

  // ---------- every step keeps it ----------

  lemma RunningElsewhere(workers: seq<Worker>, w: nat, k: Worker, i: nat)
    requires w < |workers| && BeingRun(workers, i) && workers[w] != Running(i)
    ensures BeingRun(workers[w := k], i)
  {
    var v :| 0 <= v < |workers| && workers[v] == Running(i);
    assert workers[w := k][v] == Running(i);
  }

  /** A move between places that are not Running keeps the run counts true. */
  lemma MoveKeepsOnce(p: Pool, w: nat, k: Worker, lock: Option<nat>)
    requires OnceInv(p) && w < |p.workers| && !p.workers[w].Running? && !k.Running?
    ensures OnceInv(Moved(p, w, k, lock))
  {
    forall i | 0 <= i < |p.runs| && p.runs[i] != 1
      ensures BeingRun(Moved(p, w, k, lock).workers, i)
    {
      RunningElsewhere(p.workers, w, k, i);
    }
  }

  lemma TakeKeepsOnce(p: Pool, w: nat)
    requires OnceInv(p) && Enabled(p, Work(w)) && p.workers[w].Taking? && p.queue != []
    ensures OnceInv(Worked(p, w))
  {
    var after := Worked(p, w);
    forall i | 0 <= i < |after.runs| && after.runs[i] != 1
      ensures after.runs[i] == 0 && BeingRun(after.workers, i)
    {
      if i == |p.dequeued| {
        assert after.workers[w] == Running(i);
      } else {
        RunningElsewhere(p.workers, w, Running(|p.dequeued|), i);
      }
    }
  }

  lemma FinishKeepsOnce(p: Pool, w: nat)
    requires OnceInv(p) && Enabled(p, Work(w)) && p.workers[w].Running?
    ensures OnceInv(Worked(p, w))
  {
    var after := Worked(p, w);
    forall i | 0 <= i < |after.runs| && after.runs[i] != 1
      ensures after.runs[i] == 0 && BeingRun(after.workers, i)
    {
      RunningElsewhere(p.workers, w, Head, i);
    }
  }

  lemma WorkKeepsOnce(p: Pool, w: nat)
    requires OnceInv(p) && Enabled(p, Work(w))
    ensures OnceInv(Worked(p, w))
  {
    var k := p.workers[w];
    if k.Taking? && p.queue != [] {
      TakeKeepsOnce(p, w);
    } else if k.Running? {
      FinishKeepsOnce(p, w);
    } else {
      MoveKeepsOnce(p, w, Worked(p, w).workers[w], Worked(p, w).lock);
    }
  }

  lemma WorkKeepsPlaces(p: Pool, w: nat)
    requires Inv(p) && Enabled(p, Work(w))
    ensures LockInv(Worked(p, w))
    ensures forall v :: 0 <= v < |p.workers| ==> PlaceInv(Worked(p, w), Worked(p, w).workers[v])
  {
  }

  lemma WorkInv(p: Pool, w: nat)
    requires Inv(p) && Enabled(p, Work(w))
    ensures Inv(Worked(p, w))
  {
    var after := Worked(p, w);
    WorkKeepsPlaces(p, w);
    WorkKeepsOnce(p, w);
    if after.queue != [] {
      assert PlaceInv(p, p.workers[w]);
      assert Active(after.workers[w]);
    }
  }

  /** A waiting worker woken, by a notification or by nothing. */
  lemma WakeInv(p: Pool, w: nat)
    requires Inv(p) && Enabled(p, SpuriousWakeup(w))
    ensures Inv(Next(p, SpuriousWakeup(w))) && Next(p, SpuriousWakeup(w)).workers == p.workers[w := Woken]
  {
  }

  lemma AssignInv(p: Pool, task: Task, notified: Option<nat>)
    requires Inv(p) && Enabled(p, Assign(task, notified))
    ensures Inv(Assigned(p, task, notified))
  {
    if |p.queue| < p.maxTasks {
      var after := Assigned(p, task, notified);
      forall w | 0 <= w < |p.workers|
        ensures PlaceInv(after, after.workers[w])
        ensures HoldsLock(p.workers[w]) <==> p.lock == Some(w)
        ensures notified.None? ==> Active(p.workers[w])
      {
        assert PlaceInv(p, p.workers[w]);
      }
      if notified.Some? {
        MoveKeepsOnce(p, notified.value, Woken, p.lock);
        assert Active(after.workers[notified.value]);
      } else if p.workers != [] {
        assert Active(after.workers[0]);
      }
    }
  }

  lemma StopInv(p: Pool)
    requires Inv(p) && Enabled(p, Stop)
    ensures Inv(Next(p, Stop)) && !Next(p, Stop).RunFlag()
  {
  }

  lemma NotifyAllInv(p: Pool)
    requires Inv(p) && Enabled(p, NotifyAll)
    ensures Inv(Next(p, NotifyAll)) && Next(p, NotifyAll).phase.Draining?
    ensures forall w :: 0 <= w < |p.workers| ==> !Next(p, NotifyAll).workers[w].Waiting?
  {
  }

  lemma StepInv(p: Pool, step: Step)
    requires Inv(p) && Enabled(p, step)
    ensures Inv(Next(p, step))
  {
    match step
    case Work(w) => WorkInv(p, w);
    case SpuriousWakeup(w) => WakeInv(p, w);
    case Assign(task, notified) => AssignInv(p, task, notified);
    case Stop => StopInv(p);
    case NotifyAll => NotifyAllInv(p);
  }

  // ---------- whole runs ----------

  predicate Follows(p: Pool, step: Step, after: Pool) {
    Enabled(p, step) && after == Next(p, step)
  }

  /** The states of a run from the constructor, under any interleaving. */
  predicate IsRun(threads: nat, maxTasks: nat, states: seq<Pool>, steps: seq<Step>) {
    && |states| == |steps| + 1
    && states[0] == Start(threads, maxTasks)
    && forall i :: 0 <= i < |steps| ==> Follows(states[i], steps[i], states[i + 1])
  }

  lemma RunPrefix(threads: nat, maxTasks: nat, states: seq<Pool>, steps: seq<Step>)
    requires IsRun(threads, maxTasks, states, steps) && steps != []
    ensures IsRun(threads, maxTasks, states[..|steps|], steps[..|steps| - 1])
    ensures Follows(states[|steps| - 1], steps[|steps| - 1], states[|steps|])
  {
  }

  lemma StepKeepsShape(p: Pool, step: Step)
    requires Enabled(p, step)
    ensures Next(p, step).maxTasks == p.maxTasks && |Next(p, step).workers| == |p.workers|
  {
  }

  lemma {:induction false} EveryRunInv(threads: nat, maxTasks: nat, states: seq<Pool>, steps: seq<Step>)
    requires IsRun(threads, maxTasks, states, steps)
    ensures Inv(states[|steps|])
    ensures states[|steps|].maxTasks == maxTasks && |states[|steps|].workers| == threads
    decreases |steps|
  {
    if steps == [] {
      StartInv(threads, maxTasks);
    } else {
      RunPrefix(threads, maxTasks, states, steps);
      EveryRunInv(threads, maxTasks, states[..|steps|], steps[..|steps| - 1]);
      StepInv(states[|steps| - 1], steps[|steps| - 1]);
      StepKeepsShape(states[|steps| - 1], steps[|steps| - 1]);
    }
  }

  // ---------- what the steps say of the state ----------

  /** The tasks submitted while there was room, in order. */
  function Submitted(states: seq<Pool>, steps: seq<Step>, maxTasks: nat): seq<Task>
    requires |states| == |steps| + 1
  {
    if steps == [] then []
    else
      var last := |steps| - 1;
      var before := Submitted(states[..last + 1], steps[..last], maxTasks);
      match steps[last]
      case Assign(task, _) => if |states[last].queue| < maxTasks then before + [task] else before
      case _ => before
  }

  /** Whether the destructor has cleared the flag, and whether it has notified. */
  function PhaseBy(steps: seq<Step>): Phase {
    if NotifyAll in steps then Draining else if Stop in steps then Stopping else Open
  }

  lemma StepTells(p: Pool, step: Step)
    requires Enabled(p, step)
    ensures Next(p, step).accepted == match step
      case Assign(task, _) => if |p.queue| < p.maxTasks then p.accepted + [task] else p.accepted
      case _ => p.accepted
    ensures Next(p, step).phase == match step
      case Stop => Stopping
      case NotifyAll => Draining
      case _ => p.phase
    ensures step.Stop? ==> p.phase.Open?
    ensures step.NotifyAll? ==> p.phase.Stopping?
  {
  }

  lemma PhaseByOneMore(steps: seq<Step>, step: Step)
    requires step.Stop? ==> PhaseBy(steps).Open?
    requires step.NotifyAll? ==> PhaseBy(steps).Stopping?
    ensures PhaseBy(steps + [step]) == match step
      case Stop => Stopping
      case NotifyAll => Draining
      case _ => PhaseBy(steps)
  {
  }

  /** Every state is what the run's steps make it: accepted are the tasks submitted
      while there was room, open is the pool until the flag is cleared, draining from
      the notification on. */
  lemma {:induction false} StepsTell(threads: nat, maxTasks: nat, states: seq<Pool>, steps: seq<Step>)
    requires IsRun(threads, maxTasks, states, steps)
    ensures states[|steps|].accepted == Submitted(states, steps, maxTasks)
    ensures states[|steps|].phase == PhaseBy(steps)
    decreases |steps|
  {
    if steps != [] {
      var last := |steps| - 1;
      RunPrefix(threads, maxTasks, states, steps);
      StepsTell(threads, maxTasks, states[..|steps|], steps[..last]);
      EveryRunInv(threads, maxTasks, states[..|steps|], steps[..last]);
      StepTells(states[last], steps[last]);
      PhaseByOneMore(steps[..last], steps[last]);
      assert steps[..last] + [steps[last]] == steps;
    }
  }

  // ---------- no task is forgotten, none is done twice ----------

  /** Either the active worker can step, or the lock's holder can. */
  lemma ActiveMeansProgress(p: Pool, w: nat)
    requires Inv(p) && w < |p.workers| && Active(p.workers[w])
    ensures exists v: nat :: Enabled(p, Work(v))
  {
    if p.lock.Some? {
      var v := p.lock.value;
      assert HoldsLock(p.workers[v]);
      assert Enabled(p, Work(v));
    } else {
      assert Enabled(p, Work(w));
    }
  }

  /** In every reachable state of a pool that has workers: while a task is queued
      some worker is neither asleep nor gone, and some worker can move now.  In any
      pool: no worker has gone before shutdown, tasks leave in the order they were
      submitted, and the bound is kept. */
  lemma NoLostWakeup(threads: nat, maxTasks: nat, states: seq<Pool>, steps: seq<Step>)
    requires IsRun(threads, maxTasks, states, steps)
    ensures var p := states[|steps|];
      && (threads > 0 && p.queue != [] ==> SomeActive(p.workers) && exists w: nat :: Enabled(p, Work(w)))
      && (p.phase.Open? ==> forall w :: 0 <= w < |p.workers| ==> !p.workers[w].Exited?)
      && Submitted(states, steps, maxTasks) == p.dequeued + p.queue
      && |p.queue| <= maxTasks
  {
    var p := states[|steps|];
    EveryRunInv(threads, maxTasks, states, steps);
    StepsTell(threads, maxTasks, states, steps);
    if threads > 0 && p.queue != [] {
      var w :| 0 <= w < |p.workers| && Active(p.workers[w]);
      ActiveMeansProgress(p, w);
    }
    forall w | 0 <= w < |p.workers| && p.workers[w].Exited?
      ensures !p.phase.Open?
    {
      assert PlaceInv(p, p.workers[w]);
    }
  }

  lemma AllRanOnce(p: Pool)
    requires Inv(p) && AllExited(p.workers)
    ensures if p.workers == [] then p.dequeued == [] && p.queue == p.accepted
            else p.queue == [] && p.dequeued == p.accepted
    ensures |p.runs| == |p.dequeued| && forall i :: 0 <= i < |p.runs| ==> p.runs[i] == 1
  {
  }

  /** Exactly once: when the destructor returns, whatever the interleaving was,
      every dequeued task has run once, and all that were submitted while there was
      room have been dequeued, in order, exactly if the pool had a worker or nothing
      to do. */
  lemma ExactlyOnce(threads: nat, maxTasks: nat, states: seq<Pool>, steps: seq<Step>)
    requires IsRun(threads, maxTasks, states, steps)
    requires NotifyAll in steps && AllExited(states[|steps|].workers)
    ensures var p, submitted := states[|steps|], Submitted(states, steps, maxTasks);
      && (p.dequeued == submitted <==> threads > 0 || submitted == [])
      && |p.runs| == |p.dequeued| && forall i :: 0 <= i < |p.runs| ==> p.runs[i] == 1
  {
    EveryRunInv(threads, maxTasks, states, steps);
    StepsTell(threads, maxTasks, states, steps);
    AllRanOnce(states[|steps|]);
  }

  // ---------- left to themselves the workers come to rest ----------

  function Rank(k: Worker): nat {
    match k
    case Exited => 0
    case Taking => 1
    case Testing => 2
    case Entered => 3
    case Woken => 3
    case Acquire => 4
    case Head => 5
    case Running(_) => 6
    case Blocking => 1
    case Waiting => 0
  }

  /** The lock's holder can move, and comes nearer to letting go of it. */
  lemma HolderMoves(p: Pool)
    requires Inv(p) && p.lock.Some?
    ensures var w := p.lock.value;
      && w < |p.workers| && CanMove(p.workers[w], p.lock) && Enabled(p, Work(w))
      && (Worked(p, w).lock.Some? ==>
            Worked(p, w).lock == p.lock && Rank(Worked(p, w).workers[w]) < Rank(p.workers[w]))
  {
    assert HoldsLock(p.workers[p.lock.value]) && PlaceInv(p, p.workers[p.lock.value]);
  }

  function TotalRank(workers: seq<Worker>): nat {
    if workers == [] then 0 else Rank(workers[0]) + TotalRank(workers[1..])
  }

  lemma {:induction false} RankOfMove(workers: seq<Worker>, w: nat, k: Worker)
    requires w < |workers|
    ensures TotalRank(workers[w := k]) == TotalRank(workers) - Rank(workers[w]) + Rank(k)
  {
    if w > 0 {
      RankOfMove(workers[1..], w - 1, k);
      assert workers[w := k][1..] == workers[1..][w - 1 := k];
    } else {
      assert workers[w := k][1..] == workers[1..];
    }
  }

  /** The work left: a queued task weighs more than any trip through the loop. */
  function WorkLeft(p: Pool): nat {
    6 * |p.queue| + TotalRank(p.workers)
  }

  /** Every step of any worker leaves less work, before shutdown as after it. */
  lemma WorkDecreases(p: Pool, w: nat)
    requires Inv(p) && Enabled(p, Work(w))
    ensures WorkLeft(Worked(p, w)) < WorkLeft(p)
  {
    assert PlaceInv(p, p.workers[w]);
    RankOfMove(p.workers, w, Worked(p, w).workers[w]);
  }

  /** Nothing is left to do: with any worker at all, every accepted task has been run,
      once; and all workers sleep while the pool is open and are gone once it drains. */
  predicate AtRest(p: Pool) {
    && (p.workers != [] ==> p.dequeued == p.accepted)
    && |p.runs| == |p.dequeued| && (forall i :: 0 <= i < |p.runs| ==> p.runs[i] == 1)
    && (forall w :: 0 <= w < |p.workers| ==> p.workers[w].Waiting? || p.workers[w].Exited?)
    && (p.phase.Open? ==> forall w :: 0 <= w < |p.workers| ==> p.workers[w].Waiting?)
    && (p.phase.Draining? ==> AllExited(p.workers))
  }

  lemma StuckMeansAtRest(p: Pool)
    requires Inv(p) && forall w: nat :: !Enabled(p, Work(w))
    ensures AtRest(p)
  {
    forall w | 0 <= w < |p.workers|
      ensures !Active(p.workers[w]) && PlaceInv(p, p.workers[w])
    {
      if Active(p.workers[w]) {
        ActiveMeansProgress(p, w);
      }
    }
  }

  /** Every submitted task is run without a destructor's help: from any reachable
      state the workers, left to themselves, take no more steps than there is work
      left, and when none of them can take another all is done. */
  lemma {:induction false} WorkersComeToRest(states: seq<Pool>, steps: seq<Step>)
    requires |states| == |steps| + 1 && Inv(states[0])
    requires forall i :: 0 <= i < |steps| ==> steps[i].Work? && Follows(states[i], steps[i], states[i + 1])
    ensures |steps| <= WorkLeft(states[0])
    ensures (forall w: nat :: !Enabled(states[|steps|], Work(w))) ==> AtRest(states[|steps|])
    decreases |steps|
  {
    if steps == [] {
      if forall w: nat :: !Enabled(states[0], Work(w)) {
        StuckMeansAtRest(states[0]);
      }
    } else {
      assert Follows(states[0], steps[0], states[0 + 1]);
      WorkDecreases(states[0], steps[0].w);
      StepInv(states[0], steps[0]);
      forall i | 0 <= i < |steps[1..]|
        ensures steps[1..][i].Work? && Follows(states[1..][i], steps[1..][i], states[1..][i + 1])
      {
        assert Follows(states[i + 1], steps[i + 1], states[i + 1 + 1]);
      }
      WorkersComeToRest(states[1..], steps[1..]);
    }
  }

  // ---------- shutdown terminates ----------

  /** Once all are notified, until all have exited some worker can take a step. */
  lemma DrainingNeverStuck(p: Pool)
    requires Inv(p) && p.phase.Draining? && !AllExited(p.workers)
    ensures exists w: nat :: Enabled(p, Work(w))
  {
    var w :| 0 <= w < |p.workers| && !p.workers[w].Exited?;
    assert PlaceInv(p, p.workers[w]);
    ActiveMeansProgress(p, w);
  }

  lemma DrainingOnlyWorks(p: Pool, step: Step)
    requires Inv(p) && p.phase.Draining? && Enabled(p, step)
    ensures step.Work? && Next(p, step).phase.Draining?
  {
  }

  /** So shutdown ends: no run goes on for more steps than there was work left when
      it was notified, and one that cannot go on has every worker exited. */
  lemma {:induction false} ShutdownEnds(states: seq<Pool>, steps: seq<Step>)
    requires |states| == |steps| + 1 && Inv(states[0]) && states[0].phase.Draining?
    requires forall i :: 0 <= i < |steps| ==> Follows(states[i], steps[i], states[i + 1])
    ensures |steps| <= WorkLeft(states[0])
    ensures (forall step :: !Enabled(states[|steps|], step)) ==> AllExited(states[|steps|].workers)
    decreases |steps|
  {
    if steps == [] {
      if !AllExited(states[0].workers) {
        DrainingNeverStuck(states[0]);
        var w: nat :| Enabled(states[0], Work(w));
      }
    } else {
      assert Follows(states[0], steps[0], states[0 + 1]);
      DrainingOnlyWorks(states[0], steps[0]);
      WorkDecreases(states[0], steps[0].w);
      StepInv(states[0], steps[0]);
      forall i | 0 <= i < |steps[1..]|
        ensures Follows(states[1..][i], steps[1..][i], states[1..][i + 1])
      {
        assert Follows(states[i + 1], steps[i + 1], states[i + 1 + 1]);
      }
      ShutdownEnds(states[1..], steps[1..]);
    }
  }

  // ---------- and can always be brought about ----------

  /** The longer run begins with the shorter, and submits nothing more. */
  predicate Continues(states: seq<Pool>, steps: seq<Step>, laterStates: seq<Pool>, laterSteps: seq<Step>) {
    && states <= laterStates && steps <= laterSteps
    && forall i :: |steps| <= i < |laterSteps| ==> !laterSteps[i].Assign?
  }

  lemma OneMoreStep(threads: nat, maxTasks: nat, states: seq<Pool>, steps: seq<Step>, step: Step)
    requires IsRun(threads, maxTasks, states, steps) && Enabled(states[|steps|], step)
    ensures IsRun(threads, maxTasks, states + [Next(states[|steps|], step)], steps + [step])
  {
    var longer := states + [Next(states[|steps|], step)];
    forall i | 0 <= i < |steps + [step]|
      ensures Follows(longer[i], (steps + [step])[i], longer[i + 1])
    {
      if i < |steps| {
        assert Follows(states[i], steps[i], states[i + 1]);
      }
    }
  }

  /** The lock can always be freed, in the same phase. */
  lemma {:induction false} LockIsFreed(threads: nat, maxTasks: nat, states: seq<Pool>, steps: seq<Step>)
    returns (laterStates: seq<Pool>, laterSteps: seq<Step>)
    requires IsRun(threads, maxTasks, states, steps)
    ensures IsRun(threads, maxTasks, laterStates, laterSteps) && Continues(states, steps, laterStates, laterSteps)
    ensures laterStates[|laterSteps|].lock.None? && laterStates[|laterSteps|].phase == states[|steps|].phase
    decreases var p := states[|steps|];
      if p.lock.Some? && p.lock.value < |p.workers| then Rank(p.workers[p.lock.value]) + 1 else 0
  {
    var p := states[|steps|];
    if p.lock.None? {
      laterStates, laterSteps := states, steps;
    } else {
      EveryRunInv(threads, maxTasks, states, steps);
      HolderMoves(p);
      var step := Work(p.lock.value);
      OneMoreStep(threads, maxTasks, states, steps, step);
      laterStates, laterSteps := LockIsFreed(threads, maxTasks, states + [Next(p, step)], steps + [step]);
    }
  }

  lemma {:induction false} IsDrained(threads: nat, maxTasks: nat, states: seq<Pool>, steps: seq<Step>)
    returns (laterStates: seq<Pool>, laterSteps: seq<Step>)
    requires IsRun(threads, maxTasks, states, steps) && states[|steps|].phase.Draining?
    ensures IsRun(threads, maxTasks, laterStates, laterSteps) && Continues(states, steps, laterStates, laterSteps)
    ensures laterStates[|laterSteps|].phase.Draining? && AllExited(laterStates[|laterSteps|].workers)
    decreases WorkLeft(states[|steps|])
  {
    var p := states[|steps|];
    if AllExited(p.workers) {
      laterStates, laterSteps := states, steps;
    } else {
      EveryRunInv(threads, maxTasks, states, steps);
      DrainingNeverStuck(p);
      var w: nat :| Enabled(p, Work(w));
      WorkDecreases(p, w);
      OneMoreStep(threads, maxTasks, states, steps, Work(w));
      laterStates, laterSteps := IsDrained(threads, maxTasks, states + [Next(p, Work(w))], steps + [Work(w)]);
    }
  }

  /** Whatever an open pool has been through, its destructor can be run to the end:
      the runs that ExactlyOnce is about exist. */
  lemma CanBeDestroyed(threads: nat, maxTasks: nat, states: seq<Pool>, steps: seq<Step>)
    returns (laterStates: seq<Pool>, laterSteps: seq<Step>)
    requires IsRun(threads, maxTasks, states, steps) && Stop !in steps && NotifyAll !in steps
    ensures IsRun(threads, maxTasks, laterStates, laterSteps) && Continues(states, steps, laterStates, laterSteps)
    ensures NotifyAll in laterSteps && AllExited(laterStates[|laterSteps|].workers)
  {
    StepsTell(threads, maxTasks, states, steps);
    laterStates, laterSteps := LockIsFreed(threads, maxTasks, states, steps);
    var free := laterStates[|laterSteps|];
    var stopped := Next(free, Stop);
    OneMoreStep(threads, maxTasks, laterStates, laterSteps, Stop);
    laterStates, laterSteps := laterStates + [stopped], laterSteps + [Stop];
    OneMoreStep(threads, maxTasks, laterStates, laterSteps, NotifyAll);
    laterStates, laterSteps := laterStates + [Next(stopped, NotifyAll)], laterSteps + [NotifyAll];
    assert Continues(states, steps, laterStates, laterSteps);
    laterStates, laterSteps := IsDrained(threads, maxTasks, laterStates, laterSteps);
    StepsTell(threads, maxTasks, laterStates, laterSteps);
  }
}
