/**
 Simulated time and the pending-interrupt list (machine/interrupt.cc,
 utility/stats.cc). What interrupt handlers do is arbitrary, except that they
 schedule interrupts only in the future, as Schedule asserts.
 */
module Interrupts {
  import opened LinkedLists

  const SYSTEM_TICK := 1
  const MEMORY_TICKS := 10

  // ----- tick counters -----

  datatype ProcessTicks = ProcessTicks(systemTicks: nat, userTicks: nat)

  function TicksOf(s: seq<ProcessTicks>): nat {
    if s == [] then 0 else TicksOf(s[..|s| - 1]) + s[|s| - 1].systemTicks + s[|s| - 1].userTicks
  }

  lemma {:induction false} TicksUpdate(s: seq<ProcessTicks>, p: nat, t: ProcessTicks)
    requires p < |s|
    ensures TicksOf(s[p := t]) + s[p].systemTicks + s[p].userTicks == TicksOf(s) + t.systemTicks + t.userTicks
  {
    var s', n := s[p := t], |s| - 1;
    if p < n {
      assert s'[..n] == s[..n][p := t];
      TicksUpdate(s[..n], p, t);
    } else {
      assert s'[..n] == s[..n];
    }
  }

  /** All time is either idle or charged to some process. */
  class Statistics {
    var totalTicks: nat
    var idleTicks: nat
    var processes: seq<ProcessTicks>

    ghost predicate Valid()
      reads this
    {
      totalTicks == idleTicks + TicksOf(processes)
    }

    constructor ()
      ensures Valid() && totalTicks == 0 && processes == []
    {
      totalTicks, idleTicks, processes := 0, 0, [];
    }

    method NewProcess() returns (p: nat)
      requires Valid()
      modifies this
      ensures Valid() && totalTicks == old(totalTicks)
      ensures p == |old(processes)| && processes == old(processes) + [ProcessTicks(0, 0)]
    {
      p := |processes|;
      processes := processes + [ProcessTicks(0, 0)];
    }

    method IncrSystemTicks(p: nat, val: nat)
      requires Valid() && p < |processes|
      modifies this
      ensures Valid() && totalTicks == old(totalTicks) + val && idleTicks == old(idleTicks)
      ensures processes == old(processes)[p := ProcessTicks(old(processes[p]).systemTicks + val, old(processes[p]).userTicks)]
    {
      TicksUpdate(processes, p, processes[p].(systemTicks := processes[p].systemTicks + val));
      processes := processes[p := processes[p].(systemTicks := processes[p].systemTicks + val)];
      totalTicks := totalTicks + val;
    }

    method IncrUserTicks(p: nat, val: nat)
      requires Valid() && p < |processes|
      modifies this
      ensures Valid() && totalTicks == old(totalTicks) + val && idleTicks == old(idleTicks)
      ensures processes == old(processes)[p := ProcessTicks(old(processes[p]).systemTicks, old(processes[p]).userTicks + val)]
    {
      TicksUpdate(processes, p, processes[p].(userTicks := processes[p].userTicks + val));
      processes := processes[p := processes[p].(userTicks := processes[p].userTicks + val)];
      totalTicks := totalTicks + val;
    }

    /** A memory access costs user time. */
    method IncrMemoryAccess(p: nat)
      requires Valid() && p < |processes|
      modifies this
      ensures Valid() && totalTicks == old(totalTicks) + MEMORY_TICKS && idleTicks == old(idleTicks)
      ensures processes == old(processes)[p := ProcessTicks(old(processes[p]).systemTicks, old(processes[p]).userTicks + MEMORY_TICKS)]
    {
      IncrUserTicks(p, MEMORY_TICKS);
    }

    /** Idle time up to `when` (lines 304 to 306 of CheckIfDue). */
    method IdleUntil(when: nat)
      requires Valid() && when > totalTicks
      modifies this
      ensures Valid() && totalTicks == when && processes == old(processes)
    {
      idleTicks := idleTicks + (when - totalTicks);
      totalTicks := when;
    }
  }

  // ----- pending interrupts -----

  datatype Irq = TimerInt | DeviceInt(device: nat)

  type Delay = n: int | n > 0 witness 1

  datatype Request = Request(irq: Irq, fromNow: Delay)

  type Pending = seq<Pair<Irq>>

  /** The number of interrupts that are due. */
  function DueCount(s: Pending, now: nat): (n: nat)
    ensures n <= |s|
  {
    if s == [] then 0 else DueCount(s[..|s| - 1], now) + if s[|s| - 1].key <= now then 1 else 0
  }

  lemma {:induction false} DueCountAppend(s: Pending, t: Pending, now: nat)
    ensures DueCount(s + t, now) == DueCount(s, now) + DueCount(t, now)
  {
    if t == [] {
      assert s + t == s;
    } else {
      assert (s + t)[..|s + t| - 1] == s + t[..|t| - 1];
      DueCountAppend(s, t[..|t| - 1], now);
    }
  }

  lemma DueCountInsert(s: Pending, e: Pair<Irq>, now: nat)
    ensures DueCount(Inserted(s, e), now) == DueCount(s, now) + if e.key <= now then 1 else 0
  {
    var i := InsertAt(s, e.key);
    DueCountAppend(s[..i] + [e], s[i..], now);
    DueCountAppend(s[..i], [e], now);
    DueCountAppend(s[..i], s[i..], now);
    assert s == s[..i] + s[i..];
  }

  lemma DueCountHead(s: Pending, now: nat)
    requires s != []
    ensures DueCount(s, now) == DueCount(s[1..], now) + if s[0].key <= now then 1 else 0
  {
    DueCountAppend(s[..1], s[1..], now);
    assert s == s[..1] + s[1..];
  }

  /** A fired interrupt: when it was due and when it was handled. */
  datatype Firing = Firing(when: int, at: nat)

  /** Every key in the list is at least w. */
  ghost predicate NotBefore(s: Pending, w: int) {
    s == [] || (w <= s[|s| - 1].key && NotBefore(s[..|s| - 1], w))
  }

  lemma {:induction false} NotBeforeMeans(s: Pending, w: int)
    ensures NotBefore(s, w) <==> forall k :: 0 <= k < |s| ==> w <= s[k].key
  {
    if s != [] {
      NotBeforeMeans(s[..|s| - 1], w);
    }
  }

  /** Nothing fires early, and due times and handling times never go back. */
  ghost predicate InOrder(log: seq<Firing>, now: nat) {
    log == [] ||
    (var f, rest := log[|log| - 1], log[..|log| - 1];
     f.when <= f.at <= now && InOrder(rest, f.at) && (rest != [] ==> rest[|rest| - 1].when <= f.when))
  }

  lemma {:induction false} InOrderMeans(log: seq<Firing>, now: nat)
    requires InOrder(log, now)
    ensures forall i :: 0 <= i < |log| ==> log[i].when <= log[i].at <= now
    ensures forall i, j :: 0 <= i < j < |log| ==> log[i].when <= log[j].when && log[i].at <= log[j].at
  {
    if log != [] {
      InOrderMeans(log[..|log| - 1], log[|log| - 1].at);
    }
  }

  /** What is still pending is not older than what has fired. */
  ghost predicate LogOk(log: seq<Firing>, now: nat, s: Pending) {
    InOrder(log, now) && (log != [] ==> NotBefore(s, log[|log| - 1].when))
  }

  lemma InsertedKeepsLog(log: seq<Firing>, now: nat, s: Pending, e: Pair<Irq>)
    requires LogOk(log, now, s) && (log != [] ==> log[|log| - 1].when <= e.key)
    ensures LogOk(log, now, Inserted(s, e))
  {
    if log != [] {
      InsertedNotBefore(s, e, log[|log| - 1].when);
    }
  }

  lemma InsertedNotBefore(s: Pending, e: Pair<Irq>, w: int)
    requires NotBefore(s, w) && w <= e.key
    ensures NotBefore(Inserted(s, e), w)
  {
    NotBeforeMeans(s, w);
    var i, r := InsertAt(s, e.key), Inserted(s, e);
    NotBeforeMeans(r, w);
    forall k | 0 <= k < |r|
      ensures w <= r[k].key
    {
      assert r[k] == if k < i then s[k] else if k == i then e else s[k - 1];
    }
  }

  lemma ScheduledOk(log: seq<Firing>, now: nat, s: Pending, e: Pair<Irq>)
    requires Sorted(s) && LogOk(log, now, s) && now < e.key
    ensures Sorted(Inserted(s, e)) && LogOk(log, now, Inserted(s, e))
    ensures DueCount(Inserted(s, e), now) == DueCount(s, now)
  {
    InsertedIsSorted(s, e);
    InsertedKeepsLog(log, now, s, e);
    DueCountInsert(s, e, now);
  }

  /** Taking the first interrupt off the list. */
  lemma HeadTaken(log: seq<Firing>, now: nat, s: Pending)
    requires Sorted(s) && LogOk(log, now, s) && s != []
    ensures Sorted(s[1..]) && LogOk(log, now, s[1..]) && NotBefore(s[1..], s[0].key)
    ensures DueCount(s, now) == DueCount(s[1..], now) + if s[0].key <= now then 1 else 0
    ensures log != [] ==> log[|log| - 1].when <= s[0].key
  {
    HeadIsLeast(s);
    DueCountHead(s, now);
    NotBeforeMeans(s[1..], s[0].key);
    if log != [] {
      NotBeforeMeans(s, log[|log| - 1].when);
      NotBeforeMeans(s[1..], log[|log| - 1].when);
    }
  }

  lemma {:induction false} NothingDue(s: Pending, now: nat)
    ensures DueCount(s, now) == 0 <==> forall i :: 0 <= i < |s| ==> now < s[i].key
  {
    if s != [] {
      NothingDue(s[..|s| - 1], now);
    }
  }

  lemma PutBackCases(s: Pending, now: nat)
    requires Sorted(s) && s != []
    ensures now < s[0].key ==> DueCount(s, now) == 0
  {
    if now < s[0].key {
      HeadNotDue(s, now);
    }
  }

  lemma HeadNotDue(s: Pending, now: nat)
    requires Sorted(s) && s != [] && now < s[0].key
    ensures DueCount(s, now) == 0
  {
    HeadIsLeast(s);
    NothingDue(s, now);
  }

  /** Putting the first interrupt back: it goes behind its equals. */
  lemma PutBack(log: seq<Firing>, now: nat, s: Pending)
    requires Sorted(s) && LogOk(log, now, s) && s != []
    ensures var r := Inserted(s[1..], s[0]);
            Sorted(r) && LogOk(log, now, r) && multiset(r) == multiset(s) && DueCount(r, now) == DueCount(s, now)
  {
    HeadTaken(log, now, s);
    HeadIsLeast(s);
    InsertedIsSorted(s[1..], s[0]);
    InsertedKeepsLog(log, now, s[1..], s[0]);
    DueCountInsert(s[1..], s[0], now);
  }

  /** Firing the first interrupt once its time has come. */
  lemma Fired(log: seq<Firing>, now: nat, s: Pending)
    requires Sorted(s) && LogOk(log, now, s) && s != [] && s[0].key <= now
    ensures LogOk(log + [Firing(s[0].key, now)], now, s[1..])
  {
    HeadTaken(log, now, s);
    var log' := log + [Firing(s[0].key, now)];
    assert log'[..|log'| - 1] == log;
  }

  lemma LaterLog(log: seq<Firing>, now: nat, later: nat, s: Pending)
    requires LogOk(log, now, s) && now <= later
    ensures LogOk(log, later, s)
  {
  }

  // ----- the machine -----

  /** The clock when the machine idles: it jumps to the next interrupt. */
  function NextTime(s: Pending, now: nat): nat { if s != [] && s[0].key > now then s[0].key else now }

  /** Only the timer is pending. */
  predicate LoneTimer(s: Pending) { |s| == 1 && s[0].item == TimerInt }

  datatype Mode = IdleMode | SystemMode | UserMode

  /** `oracle` says what the n-th handler call schedules, whatever it depends on. */
  class Interrupt {
    var pending: Pending
    const stats: Statistics
    const oracle: nat -> seq<Request>
    var current: nat
    var calls: nat
    var level: bool
    var status: Mode
    ghost var log: seq<Firing>

    ghost predicate Valid()
      reads this, stats
    {
      && stats.Valid() && current < |stats.processes|
      && Sorted(pending) && LogOk(log, stats.totalTicks, pending)
    }

    constructor (oracle: nat -> seq<Request>)
      ensures Valid() && !level && status == SystemMode && log == [] && pending == []
      ensures fresh(stats)
    {
      this.oracle := oracle;
      stats := new Statistics();
      pending, current, calls, log, level, status := [], 0, 0, [], false, SystemMode;
      new;
      current := stats.NewProcess();
    }

    /** Arranges an interrupt strictly in the future. */
    method Schedule(irq: Irq, fromNow: Delay)
      requires Valid()
      modifies this`pending
      ensures Valid()
      ensures pending == Inserted(old(pending), Pair(stats.totalTicks + fromNow, irq))
      ensures DueCount(pending, stats.totalTicks) == DueCount(old(pending), stats.totalTicks)
    {
      ghost var s, e := pending, Pair(stats.totalTicks + fromNow, irq);
      ScheduledOk(log, stats.totalTicks, s, e);
      pending := Inserted(pending, Pair(stats.totalTicks + fromNow, irq));
    }

    /** A handler runs: it may schedule any number of interrupts. */
    method Handle()
      requires Valid()
      modifies this`calls, this`pending
      ensures Valid()
      ensures DueCount(pending, stats.totalTicks) == DueCount(old(pending), stats.totalTicks)
    {
      var requests := oracle(calls);
      calls := calls + 1;
      for i := 0 to |requests|
        invariant Valid()
        invariant DueCount(pending, stats.totalTicks) == DueCount(old(pending), stats.totalTicks)
      {
        Schedule(requests[i].irq, requests[i].fromNow);
      }
    }

    /** Runs the handler of an interrupt that has been taken off the list. */
    method Fire(ghost when: int)
      requires Valid() && LogOk(log + [Firing(when, stats.totalTicks)], stats.totalTicks, pending)
      modifies this`calls, this`log, this`pending
      ensures Valid() && log == old(log) + [Firing(when, stats.totalTicks)]
      ensures DueCount(pending, stats.totalTicks) == DueCount(old(pending), stats.totalTicks)
    {
      log := log + [Firing(when, stats.totalTicks)];
      Handle();
    }

    method PutBackHead(irq: Irq, when: int, ghost s: Pending)
      requires stats.Valid() && current < |stats.processes|
      requires Sorted(s) && LogOk(log, stats.totalTicks, s) && s != [] && s[0] == Pair(when, irq) && pending == s[1..]
      modifies this`pending
      ensures Valid()
      ensures multiset(pending) == multiset(s)
      ensures DueCount(pending, stats.totalTicks) == DueCount(s, stats.totalTicks)
    {
      PutBack(log, stats.totalTicks, s);
      pending := Inserted(pending, Pair(when, irq));
    }

    /** The rest of CheckIfDue, once the first interrupt of s is off the list. */
    method FireOrPutBack(irq: Irq, when: int, ghost s: Pending) returns (fired: bool)
      requires Valid() && !level && Sorted(s) && LogOk(log, stats.totalTicks, s)
      requires s != [] && s[0] == Pair(when, irq) && pending == s[1..]
      modifies this`calls, this`log, this`pending
      ensures Valid()
      ensures fired ==> log == old(log) + [Firing(when, stats.totalTicks)]
      ensures fired ==> DueCount(pending, stats.totalTicks) + 1 == DueCount(s, stats.totalTicks)
      ensures !fired ==> log == old(log) && multiset(pending) == multiset(s)
      ensures !fired ==> DueCount(pending, stats.totalTicks) == DueCount(s, stats.totalTicks)
      ensures fired <==> when <= stats.totalTicks && !(status == IdleMode && LoneTimer(s))
      ensures !fired ==> DueCount(pending, stats.totalTicks) == 0 || (status == IdleMode && LoneTimer(s))
    {
      var end := when <= stats.totalTicks && status == IdleMode && irq == TimerInt && pending == [];
      if when > stats.totalTicks || end {
        PutBackHead(irq, when, s);
        PutBackCases(s, stats.totalTicks);
        return false;
      }
      HeadTaken(log, stats.totalTicks, s);
      Fired(log, stats.totalTicks, s);
      Fire(when);
      fired := true;
    }

    /** CheckIfDue(false): fires the first interrupt if it is due. In idle mode a
        timer interrupt that is alone is put back instead. */
    method CheckIfDue() returns (fired: bool)
      requires Valid() && !level
      modifies this`calls, this`log, this`pending
      ensures Valid()
      ensures fired <==> old(pending) != [] && old(pending)[0].key <= stats.totalTicks
                         && !(status == IdleMode && LoneTimer(old(pending)))
      ensures fired ==> log == old(log) + [Firing(old(pending)[0].key, stats.totalTicks)]
      ensures fired ==> DueCount(pending, stats.totalTicks) + 1 == DueCount(old(pending), stats.totalTicks)
      ensures !fired ==> log == old(log) && multiset(pending) == multiset(old(pending))
      ensures !fired ==> DueCount(pending, stats.totalTicks) == DueCount(old(pending), stats.totalTicks)
      ensures !fired && status != IdleMode ==> DueCount(pending, stats.totalTicks) == 0
    {
      ghost var s := pending;
      if pending == [] {
        return false;
      }
      var head := pending[0];
      pending := pending[1..];
      HeadTaken(log, stats.totalTicks, s);
      fired := FireOrPutBack(head.item, head.key, s);
    }

    /** CheckIfDue(true): the clock first jumps to the next interrupt. */
    method CheckNext() returns (fired: bool)
      requires Valid() && !level
      modifies this`calls, this`log, this`pending, stats
      ensures Valid() && stats.totalTicks == NextTime(old(pending), old(stats.totalTicks))
      ensures fired ==> old(pending) != [] && log == old(log) + [Firing(old(pending)[0].key, stats.totalTicks)]
      ensures !fired ==> log == old(log) && multiset(pending) == multiset(old(pending))
      ensures fired <==> old(pending) != [] && !(status == IdleMode && LoneTimer(old(pending)))
    {
      ghost var s := pending;
      if pending == [] {
        return false;
      }
      var head := pending[0];
      pending := pending[1..];
      HeadTaken(log, stats.totalTicks, s);
      if head.key > stats.totalTicks {
        LaterLog(log, stats.totalTicks, head.key, s);
        LaterLog(log, stats.totalTicks, head.key, s[1..]);
        stats.IdleUntil(head.key);
      }
      DueCountHead(s, stats.totalTicks);
      fired := FireOrPutBack(head.item, head.key, s);
    }

    /** The loop of OneTick and Idle: it ends because every firing leaves one due
        interrupt less, whatever the handlers schedule. */
    method FireAllDue()
      requires Valid() && !level
      modifies this`calls, this`log, this`pending
      ensures Valid()
      ensures status != IdleMode ==> DueCount(pending, stats.totalTicks) == 0
      ensures old(log) <= log
    {
      var more := CheckIfDue();
      while more
        invariant Valid() && old(log) <= log
        invariant !more && status != IdleMode ==> DueCount(pending, stats.totalTicks) == 0
        decreases DueCount(pending, stats.totalTicks) + if more then 1 else 0
      {
        more := CheckIfDue();
      }
    }

    /** Advances the clock and fires everything that is due by then. */
    method OneTick(nbcycles: nat)
      requires Valid() && level && status != IdleMode
      modifies this`calls, this`log, this`level, this`pending, stats
      ensures Valid() && level
      ensures stats.totalTicks == old(stats.totalTicks) + nbcycles && stats.idleTicks == old(stats.idleTicks)
      ensures DueCount(pending, stats.totalTicks) == 0
      ensures old(log) <= log
    {
      LaterLog(log, stats.totalTicks, stats.totalTicks + nbcycles, pending);
      if status == SystemMode {
        stats.IncrSystemTicks(current, nbcycles);
      } else {
        stats.IncrUserTicks(current, nbcycles);
      }
      level := false;
      FireAllDue();
      level := true;
    }

    /** Turning interrupts on lets one tick pass. */
    method SetStatus(now: bool) returns (was: bool)
      requires Valid() && status != IdleMode
      modifies this`calls, this`log, this`level, this`pending, stats
      ensures Valid() && was == old(level) && level == now
      ensures stats.totalTicks == old(stats.totalTicks) + if now && !was then SYSTEM_TICK else 0
    {
      was := level;
      level := now;
      if now && !was {
        OneTick(SYSTEM_TICK);
      }
    }

    /** Nothing is ready to run: jump to the next interrupt, or report that there is none. */
    method Idle() returns (halted: bool)
      requires Valid() && !level
      modifies this`calls, this`log, this`status, this`pending, stats
      ensures Valid() && stats.totalTicks == NextTime(old(pending), old(stats.totalTicks))
      ensures old(log) <= log && (halted <==> old(pending) == [] || LoneTimer(old(pending)))
    {
      status := IdleMode;
      var fired := CheckNext();
      if fired {
        FireAllDue();
        status := SystemMode;
        return false;
      }
      halted := true;
    }
  }
}
