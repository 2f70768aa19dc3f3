/**
 Any number of threads doing P and V on any number of semaphores, with
 preemption and with V called from interrupt handlers: what holds in every
 reachable state.
 */
module Semaphores {
  import opened Basics
  import opened Synch

  /** A semaphore with the number of P and V calls that have returned. */
  datatype Counted = Counted(sem: Sem, initial: nat, passed: nat, signalled: nat)

  /** A thread is inside P from its first failed test until it takes a unit. */
  datatype Pc = Outside | InP(s: nat)

  /** No thread is running while Sleep idles. */
  datatype Kernel = Kernel(running: Option<Thread>, ready: seq<Thread>, sems: seq<Counted>, pc: map<Thread, Pc>)

  datatype Event = Try(s: nat) | Wakeup(s: nat) | Yield | Dispatch

  // ----- the steps -----

  /** Sleep: the next ready thread runs, or nobody does. */
  function SwitchAway(k: Kernel): Kernel {
    if k.ready == [] then k.(running := None) else k.(running := Some(k.ready[0]), ready := k.ready[1..])
  }

  /** Whether the CPU is where interrupts are on: idling or outside P. */
  predicate Interruptible(k: Kernel) { k.running.None? || (k.running.value in k.pc && k.pc[k.running.value].Outside?) }

  predicate Enabled(k: Kernel, e: Event) {
    match e
    case Try(s) => s < |k.sems| && k.running.Some? && k.running.value in k.pc &&
                   (k.pc[k.running.value].Outside? || k.pc[k.running.value] == InP(s))
    case Wakeup(s) => s < |k.sems| && Interruptible(k)
    case Yield => k.running.Some? && Interruptible(k) && k.ready != []
    case Dispatch => k.running.None? && k.ready != []
  }

  /** A first or a repeated test of P(s) by the running thread. */
  function TryStep(k: Kernel, s: nat): Kernel
    requires Enabled(k, Try(s))
  {
    var t := k.running.value;
    var c := k.sems[s];
    var a := TryP(c.sem, t);
    if a.passed then k.(sems := k.sems[s := c.(sem := a.after, passed := c.passed + 1)], pc := k.pc[t := Outside])
    else SwitchAway(k.(sems := k.sems[s := c.(sem := a.after)], pc := k.pc[t := InP(s)]))
  }

  function WakeupStep(k: Kernel, s: nat): Kernel
    requires Enabled(k, Wakeup(s))
  {
    var c := k.sems[s];
    var w := Signal(c.sem);
    k.(sems := k.sems[s := c.(sem := w.after, signalled := c.signalled + 1)],
       ready := k.ready + if w.woken.Some? then [w.woken.value] else [])
  }

  function Next(k: Kernel, e: Event): Kernel
    requires Enabled(k, e)
  {
    match e
    case Try(s) => TryStep(k, s)
    case Wakeup(s) => WakeupStep(k, s)
    case Yield => k.(running := Some(k.ready[0]), ready := k.ready[1..] + [k.running.value])
    case Dispatch => SwitchAway(k)
  }

  // ----- the invariant -----

  datatype Place = OnCpu | InReady | InQueue(s: nat)

  ghost predicate At(k: Kernel, t: Thread, p: Place) {
    match p
    case OnCpu => k.running == Some(t)
    case InReady => t in k.ready
    case InQueue(s) => s < |k.sems| && t in k.sems[s].sem.queue
  }

  /** Every thread is in exactly one place, once. */
  ghost predicate PlacesOk(k: Kernel) {
    && NoDup(k.ready) && (forall s :: 0 <= s < |k.sems| ==> NoDup(k.sems[s].sem.queue))
    && (forall t, p :: At(k, t, p) ==> t in k.pc)
    && (forall t :: t in k.pc ==> exists p :: At(k, t, p))
    && (forall t, p, q :: At(k, t, p) && At(k, t, q) ==> p == q)
  }

  ghost predicate CountOk(c: Counted) { c.sem.count >= 0 && c.sem.count + c.passed == c.initial + c.signalled }

  ghost predicate PcOk(k: Kernel) {
    && (forall t, s :: At(k, t, InQueue(s)) && t in k.pc ==> k.pc[t] == InP(s))
    && (forall t :: t in k.pc && k.pc[t].InP? ==> k.pc[t].s < |k.sems|)
  }

  /** Threads that V has taken out of the queue and that have not tested again. */
  ghost function Woken(k: Kernel, s: nat): set<Thread> { set t | t in k.pc && k.pc[t] == InP(s) && !At(k, t, InQueue(s)) }

  /** While somebody waits, every unit is meant for a woken thread. */
  ghost predicate NoLostWakeup(k: Kernel, s: nat)
    requires s < |k.sems|
  {
    k.sems[s].sem.queue != [] ==> k.sems[s].sem.count <= |Woken(k, s)|
  }

  ghost predicate Inv(k: Kernel) {
    && PlacesOk(k) && PcOk(k)
    && (forall s :: 0 <= s < |k.sems| ==> CountOk(k.sems[s]))
    && (forall s :: 0 <= s < |k.sems| ==> NoLostWakeup(k, s))
  }

  // ----- the moves that the steps are made of -----

  /** The running thread joins the queue of s. */
  function Block(k: Kernel, s: nat): Kernel
    requires Enabled(k, Try(s))
  {
    var t, c := k.running.value, k.sems[s];
    Kernel(None, k.ready, k.sems[s := c.(sem := Sem(c.sem.count, c.sem.queue + [t]))], k.pc[t := InP(s)])
  }

  /** The running thread takes a unit of s. */
  function Take(k: Kernel, s: nat): Kernel
    requires Enabled(k, Try(s))
  {
    var t, c := k.running.value, k.sems[s];
    k.(sems := k.sems[s := c.(sem := Sem(c.sem.count - 1, c.sem.queue), passed := c.passed + 1)], pc := k.pc[t := Outside])
  }

  /** The running thread goes to the end of the ready list. */
  function Preempt(k: Kernel): Kernel
    requires k.running.Some?
  {
    k.(running := None, ready := k.ready + [k.running.value])
  }

  // ----- where the threads are after a move -----

  lemma SwitchPlaces(k: Kernel)
    requires PlacesOk(k) && k.running.None?
    ensures PlacesOk(SwitchAway(k))
    ensures forall t, s :: At(SwitchAway(k), t, InQueue(s)) <==> At(k, t, InQueue(s))
    ensures forall t, p :: At(SwitchAway(k), t, p) <==>
                             if k.ready != [] && t == k.ready[0] then p == OnCpu else At(k, t, p)
  {
    if k.ready != [] {
      var k' := SwitchAway(k);
      var h := k.ready[0];
      assert forall t :: t in k.ready <==> t == h || t in k'.ready;
      assert At(k, h, InReady);
      forall t, p
        ensures At(k', t, p) <==> if t == h then p == OnCpu else At(k, t, p)
      {
        assert At(k, h, p) ==> p == InReady;
      }
      forall t | t in k'.pc
        ensures exists p :: At(k', t, p)
      {
        var p :| At(k, t, p);
        assert At(k', t, if t == h then OnCpu else p);
      }
    }
  }

  lemma PreemptPlaces(k: Kernel)
    requires PlacesOk(k) && k.running.Some?
    ensures PlacesOk(Preempt(k))
    ensures forall t, s :: At(Preempt(k), t, InQueue(s)) <==> At(k, t, InQueue(s))
  {
    var k' := Preempt(k);
    var r := k.running.value;
    assert At(k, r, OnCpu);
    forall t, p
      ensures At(k', t, p) <==> if t == r then p == InReady else At(k, t, p)
    {
      assert At(k, r, p) ==> p == OnCpu;
    }
    assert !At(k, r, InReady);
    forall t | t in k'.pc
      ensures exists p :: At(k', t, p)
    {
      var p :| At(k, t, p);
      assert At(k', t, if t == r then InReady else p);
    }
  }

  lemma BlockPlaces(k: Kernel, s: nat)
    requires PlacesOk(k) && Enabled(k, Try(s))
    ensures PlacesOk(Block(k, s))
    ensures forall t, p :: At(Block(k, s), t, p) <==> if t == k.running.value then p == InQueue(s) else At(k, t, p)
  {
    var k' := Block(k, s);
    var r := k.running.value;
    assert At(k, r, OnCpu);
    assert !At(k, r, InQueue(s));
    forall t, p
      ensures At(k', t, p) <==> if t == r then p == InQueue(s) else At(k, t, p)
    {
      assert At(k, r, p) ==> p == OnCpu;
    }
    forall t | t in k'.pc
      ensures exists p :: At(k', t, p)
    {
      var p :| At(k, t, p);
      assert At(k', t, if t == r then InQueue(s) else p);
    }
  }

  lemma WakePlaces(k: Kernel, s: nat)
    requires PlacesOk(k) && Enabled(k, Wakeup(s)) && k.sems[s].sem.queue != []
    ensures PlacesOk(WakeupStep(k, s))
    ensures forall t, p :: At(WakeupStep(k, s), t, p) <==>
                             if t == k.sems[s].sem.queue[0] then p == InReady else At(k, t, p)
  {
    var k' := WakeupStep(k, s);
    var q := k.sems[s].sem.queue;
    assert forall t :: t in q <==> t == q[0] || t in q[1..];
    assert At(k, q[0], InQueue(s));
    assert !At(k, q[0], InReady);
    forall t, p
      ensures At(k', t, p) <==> if t == q[0] then p == InReady else At(k, t, p)
    {
      assert At(k, q[0], p) ==> p == InQueue(s);
    }
    forall t | t in k'.pc
      ensures exists p :: At(k', t, p)
    {
      var p :| At(k, t, p);
      assert At(k', t, if t == q[0] then InReady else p);
    }
  }

  // ----- the moves keep the invariant -----

  /** Moves that change neither queues nor semaphores nor program counters. */
  lemma OtherPartsKept(k: Kernel, k': Kernel)
    requires Inv(k) && k'.sems == k.sems && k'.pc == k.pc && PlacesOk(k')
    requires forall t, s :: At(k', t, InQueue(s)) <==> At(k, t, InQueue(s))
    ensures Inv(k')
  {
    forall s | 0 <= s < |k.sems|
      ensures NoLostWakeup(k', s)
    {
      assert NoLostWakeup(k, s);
      assert Woken(k', s) == Woken(k, s);
    }
  }

  lemma SwitchKeeps(k: Kernel)
    requires Inv(k) && k.running.None?
    ensures Inv(SwitchAway(k))
  {
    SwitchPlaces(k);
    OtherPartsKept(k, SwitchAway(k));
  }

  lemma PreemptKeeps(k: Kernel)
    requires Inv(k) && k.running.Some?
    ensures Inv(Preempt(k))
  {
    PreemptPlaces(k);
    OtherPartsKept(k, Preempt(k));
  }

  /** A thread that finds no unit waits; it was woken for nothing or never. */
  lemma BlockKeeps(k: Kernel, s: nat)
    requires Inv(k) && Enabled(k, Try(s)) && k.sems[s].sem.count == 0
    ensures Inv(Block(k, s))
  {
    var k' := Block(k, s);
    BlockPlaces(k, s);
    forall i | 0 <= i < |k'.sems|
      ensures NoLostWakeup(k', i)
    {
      if i != s {
        assert NoLostWakeup(k, i);
        assert Woken(k', i) == Woken(k, i);
      }
    }
  }

  lemma TakeWoken(k: Kernel, s: nat, i: nat)
    requires Inv(k) && Enabled(k, Try(s)) && i < |k.sems|
    ensures Woken(Take(k, s), i) == Woken(k, i) - (if i == s then {k.running.value} else {})
  {
    var k', r := Take(k, s), k.running.value;
    assert At(k, r, OnCpu);
    assert forall t, p :: At(k', t, p) <==> At(k, t, p);
  }

  /** Taking a unit uses up at most the wake-up of the thread that takes it. */
  lemma TakeKeeps(k: Kernel, s: nat)
    requires Inv(k) && Enabled(k, Try(s)) && k.sems[s].sem.count != 0
    ensures Inv(Take(k, s))
  {
    var k', r := Take(k, s), k.running.value;
    assert At(k, r, OnCpu);
    assert forall t, p :: At(k', t, p) <==> At(k, t, p);
    forall t | t in k'.pc
      ensures exists p :: At(k', t, p)
    {
      var p :| At(k, t, p);
      assert At(k', t, p);
    }
    forall i | 0 <= i < |k'.sems|
      ensures NoLostWakeup(k', i) && CountOk(k'.sems[i])
    {
      assert NoLostWakeup(k, i) && CountOk(k.sems[i]);
      TakeWoken(k, s, i);
    }
  }

  lemma SignalWoken(k: Kernel, s: nat, i: nat)
    requires Inv(k) && Enabled(k, Wakeup(s)) && i < |k.sems| && k.sems[s].sem.queue != []
    ensures var h := k.sems[s].sem.queue[0];
            Woken(WakeupStep(k, s), i) == Woken(k, i) + (if i == s then {h} else {}) && h !in Woken(k, s)
  {
    WakePlaces(k, s);
    var h := k.sems[s].sem.queue[0];
    assert At(k, h, InQueue(s));
    assert k.pc[h] == InP(s);
  }

  lemma WakeupQuietKeeps(k: Kernel, s: nat)
    requires Inv(k) && Enabled(k, Wakeup(s)) && k.sems[s].sem.queue == []
    ensures Inv(WakeupStep(k, s))
  {
    var k' := WakeupStep(k, s);
    assert forall t, p :: At(k', t, p) <==> At(k, t, p);
    forall t | t in k'.pc
      ensures exists p :: At(k', t, p)
    {
      var p :| At(k, t, p);
      assert At(k', t, p);
    }
    forall i | 0 <= i < |k'.sems|
      ensures NoLostWakeup(k', i) && CountOk(k'.sems[i])
    {
      assert NoLostWakeup(k, i) && CountOk(k.sems[i]);
      assert Woken(k', i) == Woken(k, i);
    }
  }

  /** V adds a unit together with a woken thread to use it, if one waits. */
  lemma WakeupKeeps(k: Kernel, s: nat)
    requires Inv(k) && Enabled(k, Wakeup(s)) && k.sems[s].sem.queue != []
    ensures Inv(WakeupStep(k, s))
  {
    var k' := WakeupStep(k, s);
    WakePlaces(k, s);
    assert At(k, k.sems[s].sem.queue[0], InQueue(s));
    forall i | 0 <= i < |k'.sems|
      ensures NoLostWakeup(k', i) && CountOk(k'.sems[i])
    {
      assert NoLostWakeup(k, i) && CountOk(k.sems[i]);
      SignalWoken(k, s, i);
    }
  }

  /** Every step keeps the invariant. */
  lemma StepKeepsInv(k: Kernel, e: Event)
    requires Inv(k) && Enabled(k, e)
    ensures Inv(Next(k, e))
  {
    match e
    case Try(s) =>
      if k.sems[s].sem.count == 0 {
        BlockKeeps(k, s);
        SwitchKeeps(Block(k, s));
        assert TryStep(k, s) == SwitchAway(Block(k, s));
      } else {
        TakeKeeps(k, s);
        assert TryStep(k, s) == Take(k, s);
      }
    case Wakeup(s) =>
      if k.sems[s].sem.queue == [] {
        WakeupQuietKeeps(k, s);
      } else {
        WakeupKeeps(k, s);
      }
    case Yield =>
      PreemptKeeps(k);
      SwitchKeeps(Preempt(k));
      assert Next(k, e) == SwitchAway(Preempt(k));
    case Dispatch =>
      SwitchKeeps(k);
  }

  // ----- every run -----

  /** At the start one thread runs, the others are ready and nobody waits. */
  ghost predicate Init(k: Kernel) {
    && k.running.Some? && NoDup([k.running.value] + k.ready)
    && (forall t :: t in k.pc <==> t in [k.running.value] + k.ready)
    && (forall t :: t in k.pc ==> k.pc[t] == Outside)
    && (forall s :: 0 <= s < |k.sems| ==> k.sems[s] == Counted(Sem(k.sems[s].initial, []), k.sems[s].initial, 0, 0))
  }

  lemma InitInv(k: Kernel)
    requires Init(k)
    ensures Inv(k)
  {
    InitPlaces(k);
  }

  lemma InitPlaces(k: Kernel)
    requires Init(k)
    ensures PlacesOk(k)
  {
    var all := [k.running.value] + k.ready;
    assert forall i :: 0 <= i < |k.ready| ==> k.ready[i] == all[i + 1];
    assert all[0] == k.running.value;
    forall t | t in k.pc
      ensures exists p :: At(k, t, p)
    {
      assert At(k, t, OnCpu) || At(k, t, InReady);
    }
    forall t, p, q | At(k, t, p) && At(k, t, q)
      ensures p == q
    {
      assert t in k.ready ==> t != k.running.value;
    }
  }

  ghost predicate IsRun(run: seq<Kernel>, events: seq<Event>) {
    && |run| == |events| + 1 && Init(run[0])
    && forall i :: 0 <= i < |events| ==> Enabled(run[i], events[i]) && run[i + 1] == Next(run[i], events[i])
  }

  /** The invariant holds in every state of every run. */
  lemma {:induction false} RunKeepsInv(run: seq<Kernel>, events: seq<Event>, i: nat)
    requires IsRun(run, events) && i < |run|
    ensures Inv(run[i])
  {
    if i == 0 {
      InitInv(run[0]);
    } else {
      RunKeepsInv(run, events, i - 1);
      StepKeepsInv(run[i - 1], events[i - 1]);
    }
  }

  /** When nothing can run, every waiter really has nothing to take: no wake-up
      has been lost on the way. */
  lemma IdleMeansBlocked(run: seq<Kernel>, events: seq<Event>, i: nat, s: nat)
    requires IsRun(run, events) && i < |run| && s < |run[i].sems|
    requires run[i].running.None? && run[i].ready == [] && run[i].sems[s].sem.queue != []
    ensures run[i].sems[s].sem.count == 0
    ensures run[i].sems[s].passed == run[i].sems[s].initial + run[i].sems[s].signalled
  {
    RunKeepsInv(run, events, i);
    var k := run[i];
    assert CountOk(k.sems[s]) && NoLostWakeup(k, s);
    forall t | t in k.pc && k.pc[t] == InP(s)
      ensures At(k, t, InQueue(s))
    {
      var p :| At(k, t, p);
    }
    assert Woken(k, s) == {};
  }
}
