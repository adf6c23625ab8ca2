/** The pool object, its fields updated in place by the same steps. */
module Threadpool {
  import opened Options
  import opened ThreadpoolProtocol

  class Threadpool {
    const maxTasks: nat
    var threads: seq<Worker>
    var mLock: Option<nat>
    var mTasks: seq<Task>
    var runFlag: bool
    // The tasks dequeued so far: a worker knows its task by the number in here.
    var dequeued: seq<Task>
    // History for the proofs alone: whether the destructor has notified, the tasks
    // accepted so far, and how often each dequeued one has run.
    ghost var notified: bool
    ghost var accepted: seq<Task>
    ghost var runs: seq<nat>

    ghost function State(): Pool
      reads this
    {
      Pool(maxTasks, threads, mLock, mTasks,
           if runFlag then Open else if notified then Draining else Stopping,
           accepted, dequeued, runs)
    }

    constructor (maxThreads: nat, maxTasks: nat)
      ensures State() == Start(maxThreads, maxTasks)
    {
      this.maxTasks := maxTasks;
      threads := seq(maxThreads, _ => Head);
      mLock, mTasks, runFlag := None, [], true;
      dequeued := [];
      notified, accepted, runs := false, [], [];
    }

    /** One step of the worker w through run_task. */
    method RunTask(w: nat)
      requires Enabled(State(), Work(w))
      modifies this
      ensures State() == Worked(old(State()), w)
    {
      match threads[w] {
        case Head =>
          threads := threads[w := if runFlag || mTasks != [] then Acquire else Exited];
        case Acquire =>
          mLock, threads := Some(w), threads[w := Entered];
        case Entered =>
          if !runFlag && mTasks == [] {
            mLock, threads := None, threads[w := Exited];
          } else {
            threads := threads[w := Testing];
          }
        case Testing =>
          threads := threads[w := if mTasks == [] && runFlag then Blocking else Taking];
        case Blocking =>
          mLock, threads := None, threads[w := Waiting];
        case Woken =>
          mLock, threads := Some(w), threads[w := Testing];
        case Taking =>
          if mTasks == [] {
            mLock, threads := None, threads[w := Exited];
          } else {
            var task := mTasks[0];
            threads := threads[w := Running(|dequeued|)];
            dequeued, runs := dequeued + [task], runs + [0];
            mTasks, mLock := mTasks[1..], None;
          }
        case Running(index) =>
          runs := runs[index := runs[index] + 1];
          threads := threads[w := Head];
      }
    }

    /** Accepts the task if there is room, and then wakes one sleeping worker, any
        one of them, if there is one. */
    method AssignTask(task: Task) returns (ok: bool)
      requires runFlag && mLock.None?
      modifies this
      ensures ok <==> |old(mTasks)| < maxTasks
      ensures mTasks == old(mTasks) + (if ok then [task] else [])
      ensures accepted == old(accepted) + (if ok then [task] else [])
      ensures mLock.None? && runFlag && dequeued == old(dequeued) && runs == old(runs)
      ensures if ok && exists w :: 0 <= w < |old(threads)| && old(threads)[w].Waiting?
              then exists w :: 0 <= w < |old(threads)| && old(threads)[w].Waiting?
                               && threads == old(threads)[w := Woken]
              else threads == old(threads)
      ensures exists n :: Enabled(old(State()), Assign(task, n)) && State() == Assigned(old(State()), task, n)
    {
      ghost var before := State();
      if |mTasks| >= maxTasks {
        assert State() == Assigned(before, task, None);
        return false;
      }
      mTasks, accepted := mTasks + [task], accepted + [task];
      if w: nat :| w < |threads| && threads[w].Waiting? {
        threads := threads[w := Woken];
        assert Enabled(before, Assign(task, Some(w))) && State() == Assigned(before, task, Some(w));
      } else {
        assert Enabled(before, Assign(task, None)) && State() == Assigned(before, task, None);
      }
      ok := true;
    }

    method Move(w: nat)
      requires Inv(State()) && w < |threads| && CanMove(threads[w], mLock)
      modifies this
      ensures Inv(State()) && Enabled(old(State()), Work(w)) && State() == Worked(old(State()), w)
    {
      WorkInv(State(), w);
      RunTask(w);
    }

    /** Some worker that can move moves: any one of them. */
    method Schedule() returns (ghost mover: nat)
      requires Inv(State()) && exists w: nat :: Enabled(State(), Work(w))
      modifies this
      ensures Inv(State())
      ensures Enabled(old(State()), Work(mover)) && State() == Worked(old(State()), mover)
    {
      ghost var able: nat :| Enabled(State(), Work(able));
      assert CanMove(threads[able], mLock);
      var w: nat :| w < |threads| && CanMove(threads[w], mLock);
      Move(w);
      mover := w;
    }

    method NotifyAllWaiting()
      requires Enabled(State(), NotifyAll)
      modifies this
      ensures State() == Next(old(State()), NotifyAll)
    {
      ghost var before := threads;
      for i := 0 to |threads|
        invariant |threads| == |before| && mLock == old(mLock) && mTasks == old(mTasks)
        invariant runFlag == old(runFlag) && notified == old(notified)
        invariant accepted == old(accepted) && dequeued == old(dequeued) && runs == old(runs)
        invariant forall w :: 0 <= w < i ==> threads[w] == if before[w].Waiting? then Woken else before[w]
        invariant forall w :: i <= w < |before| ==> threads[w] == before[w]
      {
        if threads[i].Waiting? {
          threads := threads[i := Woken];
        }
      }
      notified := true;
    }

    /** A worker that can move, if there is one, does. */
    method MoveOne()
      requires Inv(State())
      modifies this
      ensures Inv(State()) && State().phase == old(State().phase)
      ensures accepted == old(accepted) && |threads| == old(|threads|)
    {
      if w: nat :| w < |threads| && CanMove(threads[w], mLock) {
        Move(w);
      }
    }

    /** A sleeping worker, if there is one, wakes for no reason. */
    method WakeSpuriously()
      requires Inv(State())
      modifies this
      ensures Inv(State()) && State().phase == old(State().phase)
      ensures accepted == old(accepted) && |threads| == old(|threads|)
    {
      if w: nat :| w < |threads| && threads[w].Waiting? {
        WakeInv(State(), w);
        threads := threads[w := Woken];
      }
    }

    /** What goes on while the destructor is between two steps or waits: times moves
        of workers, or wakeups for no reason, in any order. */
    method Interfere(times: nat)
      requires Inv(State())
      modifies this
      ensures Inv(State()) && State().phase == old(State().phase)
      ensures accepted == old(accepted) && |threads| == old(|threads|)
    {
      for _ := 0 to times
        invariant Inv(State()) && State().phase == old(State().phase)
        invariant accepted == old(accepted) && |threads| == old(|threads|)
      {
        if * {
          MoveOne();
        } else {
          WakeSpuriously();
        }
      }
    }

    /** The worker that holds the lock moves until it lets go. */
    method AwaitLock()
      requires Inv(State())
      modifies this
      ensures Inv(State()) && mLock.None? && State().phase == old(State().phase)
      ensures accepted == old(accepted) && |threads| == old(|threads|)
    {
      while mLock.Some?
        invariant Inv(State()) && State().phase == old(State().phase)
        invariant accepted == old(accepted) && |threads| == old(|threads|)
        decreases if mLock.Some? then Rank(threads[mLock.value]) else 0
      {
        HolderMoves(State());
        Move(mLock.value);
      }
    }

    /** Takes the lock when it is free and clears the flag under it. */
    method Shut(waiting: nat)
      requires Inv(State()) && runFlag
      modifies this
      ensures Inv(State()) && State().phase.Stopping?
      ensures accepted == old(accepted) && |threads| == old(|threads|)
    {
      Interfere(waiting);
      AwaitLock();
      StopInv(State());
      runFlag, notified := false, false;
    }

    /** One move of some worker after the notification. */
    method DrainOne()
      requires Inv(State()) && State().phase.Draining? && !AllExited(threads)
      modifies this
      ensures Inv(State()) && State().phase.Draining?
      ensures accepted == old(accepted) && |threads| == old(|threads|)
      ensures WorkLeft(State()) < old(WorkLeft(State()))
    {
      DrainingNeverStuck(State());
      ghost var before := State();
      ghost var w := Schedule();
      WorkDecreases(before, w);
    }

    /** Waits for every worker, while they run in any order. */
    method Join()
      requires Inv(State()) && State().phase.Draining?
      modifies this
      ensures Inv(State()) && State().phase.Draining? && AllExited(threads)
      ensures accepted == old(accepted) && |threads| == old(|threads|)
    {
      while !AllExited(threads)
        invariant Inv(State()) && State().phase.Draining?
        invariant accepted == old(accepted) && |threads| == old(|threads|)
        decreases WorkLeft(State())
      {
        DrainOne();
      }
    }

    /** The destructor, up to its return: it waits for the lock, and after it has let
        go of it other threads may come in before the notification.  It always
        returns, and then every task ever accepted has run exactly once; unless the
        pool has no workers, when none has. */
    method Destroy(waiting: nat, meanwhile: nat)
      requires Inv(State()) && runFlag
      modifies this
      ensures Inv(State()) && !runFlag && AllExited(threads) && accepted == old(accepted)
      ensures if old(threads) == [] then dequeued == [] && mTasks == accepted
              else mTasks == [] && dequeued == accepted
      ensures |runs| == |dequeued| && forall i :: 0 <= i < |runs| ==> runs[i] == 1
    {
      Shut(waiting);
      Interfere(meanwhile);
      NotifyAllInv(State());
      NotifyAllWaiting();
      Join();
      AllRanOnce(State());
    }
  }
}
