/**
 Threads in ReadSector and WriteSector, and the completion interrupts of the
 disk (drivers/drvDisk.cc, machine/disk.cc): every interleaving of their atomic
 steps. The two calls differ only in the transfer, which the disk performs when
 it accepts the request.
 */
module DriverProtocol {
  import opened Basics
  import opened Synch

  /** Where a thread is: testing the lock, asleep in its queue, holding it and
      about to make a request, testing the semaphore, asleep in its queue, or
      past P and about to release the lock. */
  datatype Pc = Outside | Locking | LockAsleep | Issuing | Waiting | SemAsleep | Releasing

  /** `pending` are the requests whose interrupt is scheduled, `completed` those
      whose interrupt has been handled, and `ok` says that no assertion failed. */
  datatype State = State(lock: LockState, sem: Sem, active: bool, ok: bool, pc: map<Thread, Pc>,
                         request: map<Thread, nat>, issued: nat, pending: seq<nat>, completed: set<nat>)

  datatype Event = Call(t: Thread) | TryLock(t: Thread) | Issue(t: Thread) | TryWait(t: Thread) | Unlocking(t: Thread)
                 | Complete(i: nat)

  // ----- the steps -----

  predicate Enabled(d: State, e: Event) {
    match e
    case Call(t) => t in d.pc && d.pc[t].Outside?
    case TryLock(t) => t in d.pc && d.pc[t].Locking?
    case Issue(t) => t in d.pc && d.pc[t].Issuing?
    case TryWait(t) => t in d.pc && d.pc[t].Waiting?
    case Unlocking(t) => t in d.pc && d.pc[t].Releasing?
    case Complete(i) => i < |d.pending|
  }

  /** A woken thread goes back to the test it failed. */
  function Resume(pc: map<Thread, Pc>, woken: Option<Thread>, to: Pc): map<Thread, Pc> {
    if woken.Some? then pc[woken.value := to] else pc
  }

  function Next(d: State, e: Event): State
    requires Enabled(d, e)
  {
    match e
    case Call(t) => d.(pc := d.pc[t := Locking])
    case TryLock(t) =>
      var a := TryAcquire(d.lock, t);
      d.(lock := a.after, pc := d.pc[t := if a.passed then Issuing else LockAsleep])
    case Issue(t) =>
      d.(ok := d.ok && !d.active, active := true, request := d.request[t := d.issued], issued := d.issued + 1,
         pending := d.pending + [d.issued], pc := d.pc[t := Waiting])
    case TryWait(t) =>
      var a := TryP(d.sem, t);
      d.(sem := a.after, pc := d.pc[t := if a.passed then Releasing else SemAsleep])
    case Unlocking(t) =>
      var w := Unlock(d.lock);
      d.(ok := d.ok && d.lock.owner == Some(t), lock := w.after, pc := Resume(d.pc[t := Outside], w.woken, Locking))
    case Complete(i) =>
      var w := Signal(d.sem);
      d.(active := false, completed := d.completed + {d.pending[i]}, pending := d.pending[..i] + d.pending[i + 1..],
         sem := w.after, pc := Resume(d.pc, w.woken, Waiting))
  }

  // ----- the invariant -----

  /** The thread is between Acquire and Release. */
  predicate Inside(d: State, t: Thread) { t in d.pc && (d.pc[t].Issuing? || d.pc[t].Waiting? || d.pc[t].SemAsleep? || d.pc[t].Releasing?) }

  ghost predicate LockOk(d: State) {
    && (d.lock.isFree ==> d.lock.owner.None?)
    && (forall t: Thread :: Inside(d, t) ==> !d.lock.isFree && d.lock.owner == Some(t))
    && (forall t: Thread :: t in d.lock.queue ==> t in d.pc && d.pc[t].LockAsleep?)
    && NoDup(d.lock.queue)
  }

  /** No request is in flight and no unit is left in the semaphore. */
  predicate Quiet(d: State) { d.pending == [] && !d.active && d.sem == Sem(0, []) }

  /** The disk and the semaphore, as thread t sees them at each place. */
  ghost predicate PhaseOk(d: State, t: Thread)
    requires Inside(d, t)
  {
    match d.pc[t]
    case Waiting =>
      t in d.request &&
      if d.active then d.pending == [d.request[t]] && d.sem == Sem(0, []) && d.request[t] !in d.completed
      else d.pending == [] && d.sem == Sem(1, []) && d.request[t] in d.completed
    case SemAsleep =>
      t in d.request && d.active && d.pending == [d.request[t]] && d.sem == Sem(0, [t]) && d.request[t] !in d.completed
    case Releasing => Quiet(d) && t in d.request && d.request[t] in d.completed
    case _ => Quiet(d)
  }

  ghost predicate Inv(d: State) {
    && d.ok && LockOk(d)
    && (forall t: Thread :: Inside(d, t) ==> PhaseOk(d, t))
    && ((forall t: Thread :: !Inside(d, t)) ==> Quiet(d))
    && (forall r :: r in d.completed || r in d.pending ==> r < d.issued)
  }

  lemma CallKeeps(d: State, t: Thread)
    requires Inv(d) && Enabled(d, Call(t))
    ensures Inv(Next(d, Call(t)))
  {
    var d' := Next(d, Call(t));
    assert forall u :: Inside(d', u) <==> Inside(d, u);
  }

  lemma TryLockKeeps(d: State, t: Thread)
    requires Inv(d) && Enabled(d, TryLock(t))
    ensures Inv(Next(d, TryLock(t)))
  {
    var d' := Next(d, TryLock(t));
    if d.lock.isFree {
      assert forall u :: u != t ==> (Inside(d', u) <==> Inside(d, u));
      assert Inside(d', t);
    } else {
      assert forall u :: Inside(d', u) <==> Inside(d, u);
    }
  }

  /** The disk is idle when a request is made. */
  lemma IssueKeeps(d: State, t: Thread)
    requires Inv(d) && Enabled(d, Issue(t))
    ensures Inv(Next(d, Issue(t))) && !d.active
  {
    assert Inside(d, t) && PhaseOk(d, t);
    var d' := Next(d, Issue(t));
    assert forall u :: Inside(d', u) <==> Inside(d, u);
  }

  lemma TryWaitKeeps(d: State, t: Thread)
    requires Inv(d) && Enabled(d, TryWait(t))
    ensures Inv(Next(d, TryWait(t)))
  {
    assert Inside(d, t) && PhaseOk(d, t);
    var d' := Next(d, TryWait(t));
    assert forall u :: Inside(d', u) <==> Inside(d, u);
  }

  lemma UnlockingKeeps(d: State, t: Thread)
    requires Inv(d) && Enabled(d, Unlocking(t))
    ensures Inv(Next(d, Unlocking(t)))
  {
    assert Inside(d, t) && PhaseOk(d, t);
    var d' := Next(d, Unlocking(t));
    assert forall u :: Inside(d', u) ==> Inside(d, u) && u != t;
    assert forall u :: !Inside(d', u);
  }

  lemma CompleteKeeps(d: State, i: nat)
    requires Inv(d) && Enabled(d, Complete(i))
    ensures Inv(Next(d, Complete(i)))
  {
    assert !Quiet(d);
    var t :| Inside(d, t);
    assert PhaseOk(d, t);
    var d' := Next(d, Complete(i));
    assert forall u :: Inside(d', u) <==> Inside(d, u);
  }

  lemma StepKeepsInv(d: State, e: Event)
    requires Inv(d) && Enabled(d, e)
    ensures Inv(Next(d, e))
  {
    match e
    case Call(t) => CallKeeps(d, t);
    case TryLock(t) => TryLockKeeps(d, t);
    case Issue(t) => IssueKeeps(d, t);
    case TryWait(t) => TryWaitKeeps(d, t);
    case Unlocking(t) => UnlockingKeeps(d, t);
    case Complete(i) => CompleteKeeps(d, i);
  }

  // ----- every run -----

  /** A new driver; no thread has called it yet. */
  ghost predicate Init(d: State) {
    && d.lock == LockState(true, None, []) && d.sem == Sem(0, []) && !d.active && d.ok
    && (forall t :: t in d.pc ==> d.pc[t].Outside?)
    && d.pending == [] && d.completed == {}
  }

  ghost predicate IsRun(run: seq<State>, events: seq<Event>) {
    && |run| == |events| + 1 && Init(run[0])
    && forall i :: 0 <= i < |events| ==> Enabled(run[i], events[i]) && run[i + 1] == Next(run[i], events[i])
  }

  lemma {:induction false} RunKeepsInv(run: seq<State>, events: seq<Event>, i: nat)
    requires IsRun(run, events) && i < |run|
    ensures Inv(run[i])
  {
    if i > 0 {
      RunKeepsInv(run, events, i - 1);
      StepKeepsInv(run[i - 1], events[i - 1]);
    }
  }

  /** In every state of every run: no assertion has failed, at most one request
      is in flight, at most one thread is inside, a thread is past P only after
      its own request completed, and the semaphore is 0 when the lock is free. */
  lemma RunIsSafe(run: seq<State>, events: seq<Event>, i: nat)
    requires IsRun(run, events) && i < |run|
    ensures var d := run[i];
            && d.ok && |d.pending| <= 1
            && (forall t, u :: Inside(d, t) && Inside(d, u) ==> t == u)
            && (forall t :: t in d.pc && d.pc[t].Releasing? ==> t in d.request && d.request[t] in d.completed)
            && (d.lock.isFree ==> d.sem.count == 0)
  {
    RunKeepsInv(run, events, i);
    var d := run[i];
    assert forall t :: t in d.pc && d.pc[t].Releasing? ==> Inside(d, t);
    if t :| Inside(d, t) {
      assert PhaseOk(d, t);
    }
  }

  // ----- what Release with waiters does to progress -----

  /** The lock is taken, but no thread is inside. */
  ghost predicate Stuck(d: State) { !d.lock.isFree && forall t :: !Inside(d, t) }

  /** Release leaves the driver stuck exactly when a thread waits for the lock. */
  lemma ReleaseSticksIff(d: State, t: Thread)
    requires Inv(d) && Enabled(d, Unlocking(t))
    ensures Stuck(Next(d, Unlocking(t))) <==> d.lock.queue != []
  {
    UnlockingKeeps(d, t);
    assert Inside(d, t);
    var d' := Next(d, Unlocking(t));
    assert forall u :: Inside(d', u) ==> Inside(d, u) && u != t;
    assert forall u :: !Inside(d', u);
  }

  /** A stuck driver stays stuck: no request is ever made again. */
  lemma {:induction false} StuckForever(run: seq<State>, events: seq<Event>, i: nat, j: nat)
    requires IsRun(run, events) && i <= j < |run| && Stuck(run[i])
    ensures Stuck(run[j]) && run[j].issued == run[i].issued
    decreases j - i
  {
    if i < j {
      StuckForever(run, events, i, j - 1);
      RunKeepsInv(run, events, j - 1);
      StuckStep(run[j - 1], events[j - 1]);
    }
  }

  lemma StuckStep(d: State, e: Event)
    requires Inv(d) && Stuck(d) && Enabled(d, e)
    ensures Stuck(Next(d, e)) && Next(d, e).issued == d.issued
  {
    assert Quiet(d);
    assert e.Issue? || e.TryWait? || e.Unlocking? ==> Inside(d, e.t);
    assert e.Call? || e.TryLock?;
    forall u
      ensures !Inside(Next(d, e), u)
    {
      assert !Inside(d, u);
    }
  }

  /** Two threads are enough: the second asks for the lock while the first
      waits for its request. */
  const STICKING_EVENTS: seq<Event> :=
    [Call(0), TryLock(0), Issue(0), Call(1), TryLock(1), Complete(0), TryWait(0), Unlocking(0)]

  function Pcs(a: Pc, b: Pc): map<Thread, Pc> { map[0 := a, 1 := b] }

  const FREE_LOCK := LockState(true, None, [])

  function BeforeIssue(lock: LockState, a: Pc, b: Pc): State {
    State(lock, Sem(0, []), false, true, Pcs(a, b), map[], 0, [], {})
  }

  function AfterIssue(lock: LockState, units: int, a: Pc, b: Pc, pending: seq<nat>): State {
    State(lock, Sem(units, []), pending != [], true, Pcs(a, b), map[0 := 0], 1, pending, if pending == [] then {0} else {})
  }

  const STICKING_RUN: seq<State> :=
    [BeforeIssue(FREE_LOCK, Outside, Outside),
     BeforeIssue(FREE_LOCK, Locking, Outside),
     BeforeIssue(LockState(false, Some(0), []), Issuing, Outside),
     AfterIssue(LockState(false, Some(0), []), 0, Waiting, Outside, [0]),
     AfterIssue(LockState(false, Some(0), []), 0, Waiting, Locking, [0]),
     AfterIssue(LockState(false, Some(0), [1]), 0, Waiting, LockAsleep, [0]),
     AfterIssue(LockState(false, Some(0), [1]), 1, Waiting, LockAsleep, []),
     AfterIssue(LockState(false, Some(0), [1]), 0, Releasing, LockAsleep, []),
     AfterIssue(Unlock(LockState(false, Some(0), [1])).after, 0, Outside, Locking, [])]

  lemma LockSteps(i: nat)
    requires i < 4
    ensures Enabled(STICKING_RUN[i], STICKING_EVENTS[i]) && STICKING_RUN[i + 1] == Next(STICKING_RUN[i], STICKING_EVENTS[i])
  {
  }

  lemma RequestSteps(i: nat)
    requires 4 <= i < 6
    ensures Enabled(STICKING_RUN[i], STICKING_EVENTS[i]) && STICKING_RUN[i + 1] == Next(STICKING_RUN[i], STICKING_EVENTS[i])
  {
  }

  lemma ReleaseSteps(i: nat)
    requires 6 <= i < 8
    ensures Enabled(STICKING_RUN[i], STICKING_EVENTS[i]) && STICKING_RUN[i + 1] == Next(STICKING_RUN[i], STICKING_EVENTS[i])
  {
  }

  lemma StuckIsReachable()
    ensures IsRun(STICKING_RUN, STICKING_EVENTS) && Stuck(STICKING_RUN[8])
  {
    forall i | 0 <= i < |STICKING_EVENTS|
      ensures Enabled(STICKING_RUN[i], STICKING_EVENTS[i]) && STICKING_RUN[i + 1] == Next(STICKING_RUN[i], STICKING_EVENTS[i])
    {
      if i < 4 {
        LockSteps(i);
      } else if i < 6 {
        RequestSteps(i);
      } else {
        ReleaseSteps(i);
      }
    }
  }
}
