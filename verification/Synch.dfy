/**
 Semaphores and locks over a FIFO scheduler (kernel/synch.cc, kernel/thread.cc,
 kernel/scheduler.cc). Interrupts are off inside P, V, Acquire and Release, so
 each pass through the test of a retry loop is one atomic step.
 */
module Synch {
  import opened Basics

  type Thread = nat

  datatype Sem = Sem(count: int, queue: seq<Thread>)

  datatype Attempt<S> = Attempt(after: S, passed: bool)

  /** One pass through the loop of P by thread t: it either takes a unit or
      joins the queue and goes to sleep. */
  function TryP(s: Sem, t: Thread): Attempt<Sem> {
    if s.count == 0 then Attempt(s.(queue := s.queue + [t]), false) else Attempt(s.(count := s.count - 1), true)
  }

  datatype Wake<S> = Wake(after: S, woken: Option<Thread>)

  /** V wakes the first waiter, if any, and adds a unit in either case. */
  function Signal(s: Sem): Wake<Sem> {
    if s.queue == [] then Wake(s.(count := s.count + 1), None)
    else Wake(Sem(s.count + 1, s.queue[1..]), Some(s.queue[0]))
  }

  datatype LockState = LockState(isFree: bool, owner: Option<Thread>, queue: seq<Thread>)

  /** One pass through the loop of Acquire by thread t. */
  function TryAcquire(l: LockState, t: Thread): Attempt<LockState> {
    if l.isFree then Attempt(LockState(false, Some(t), l.queue), true)
    else Attempt(l.(queue := l.queue + [t]), false)
  }

  /** Release wakes the first waiter without freeing the lock, or frees it. */
  function Unlock(l: LockState): Wake<LockState> {
    if l.queue != [] then Wake(l.(queue := l.queue[1..]), Some(l.queue[0]))
    else Wake(LockState(true, None, []), None)
  }

  // ----- the objects -----

  class Scheduler {
    var readyList: seq<Thread>

    constructor ()
      ensures readyList == []
    {
      readyList := [];
    }

    method ReadyToRun(t: Thread)
      modifies this
      ensures readyList == old(readyList) + [t]
    {
      readyList := readyList + [t];
    }

    method FindNextToRun() returns (t: Option<Thread>)
      modifies this
      ensures t == if old(readyList) == [] then None else Some(old(readyList)[0])
      ensures readyList == if old(readyList) == [] then [] else old(readyList)[1..]
    {
      if readyList == [] {
        return None;
      }
      t := Some(readyList[0]);
      readyList := readyList[1..];
    }
  }

  class Semaphore {
    var count: int
    var waitQueue: seq<Thread>

    constructor (initial: nat)
      ensures View() == Sem(initial, [])
    {
      count, waitQueue := initial, [];
    }

    ghost function View(): Sem
      reads this
    {
      Sem(count, waitQueue)
    }

    /** The loop test of P; on false the caller sleeps and calls it again when it runs. */
    method PStep(current: Thread) returns (passed: bool)
      modifies this
      ensures Attempt(View(), passed) == TryP(old(View()), current)
    {
      if count == 0 {
        waitQueue := waitQueue + [current];
        return false;
      }
      count := count - 1;
      passed := true;
    }

    method V(scheduler: Scheduler)
      modifies this, scheduler
      ensures var w := Signal(old(View()));
              && View() == w.after
              && scheduler.readyList == old(scheduler.readyList) + if w.woken.Some? then [w.woken.value] else []
    {
      if waitQueue != [] {
        var t := waitQueue[0];
        waitQueue := waitQueue[1..];
        scheduler.ReadyToRun(t);
      }
      count := count + 1;
    }
  }

  class Lock {
    var isFree: bool
    var owner: Option<Thread>
    var waitQueue: seq<Thread>

    constructor ()
      ensures View() == LockState(true, None, [])
    {
      isFree, owner, waitQueue := true, None, [];
    }

    ghost function View(): LockState
      reads this
    {
      LockState(isFree, owner, waitQueue)
    }

    /** The loop test of Acquire. */
    method AcquireStep(current: Thread) returns (passed: bool)
      modifies this
      ensures Attempt(View(), passed) == TryAcquire(old(View()), current)
    {
      if !isFree {
        waitQueue := waitQueue + [current];
        return false;
      }
      isFree, owner := false, Some(current);
      passed := true;
    }

    method Release(current: Thread, scheduler: Scheduler)
      requires owner == Some(current)
      modifies this, scheduler
      ensures var w := Unlock(old(View()));
              && View() == w.after
              && scheduler.readyList == old(scheduler.readyList) + if w.woken.Some? then [w.woken.value] else []
    {
      if waitQueue != [] {
        var t := waitQueue[0];
        waitQueue := waitQueue[1..];
        scheduler.ReadyToRun(t);
      } else {
        isFree, owner := true, None;
      }
    }
  }
}
