/**
 Runs of the whole file system: the disk together with the table of open files,
 under Open, Close, Remove, Create, Mkdir, Rmdir and writes to open files, also
 to files that have been removed (filesys/oftable.cc, filesys/filesys.cc,
 filesys/openfile.cc). A file removed while it is open keeps its sectors until
 the last close, which frees them once.
 */
module SystemRuns {
  import opened Layout
  import opened BitMaps
  import opened DiskImage
  import opened FileHeaders
  import opened OpenFiles
  import opened Directories
  import opened Paths
  import opened FileTree
  import opened FsDisk
  import opened FsSteps
  import opened FileSystemOps
  import opened FileGrowth
  import opened FileWrites
  import opened PathStability
  import opened OpenFileTables
  import opened OpenFileState
  import opened OpenFileOps
  import opened OpenFileRemoval

  datatype Sys = Sys(d: Disk, o: Oft)

  /** What the threads do. Writes go through the open file of entry i. */
  datatype Action = OpenName(name: CString)
                  | CloseName(name: CString)
                  | RemoveName(name: CString, r: Status)
                  | Operate(op: Op, r: Status)
                  | WriteTo(i: nat, w: Request, n: int)

  // ----- the invariant -----

  /** The disk holds g, the table agrees with it, and every file without a name
      is waiting for its last close. */
  ghost predicate SysInv(a: Sys, g: Fs) {
    && FsInv(a.d, g) && ExactChains(g) && Inv(a.o)
    && SlotsOk(a.o.table, a.d, g) && FilesDistinct(a.o.table) && NoLeak(a.o.table, g)
  }

  // ----- the steps -----

  ghost predicate SysStep(a: Sys, e: Action, b: Sys) {
    && (a.o.nbentry == ERROR || 0 <= a.o.nbentry < |a.o.table|)
    && match e
    case OpenName(name) => b.d == a.d && b.o == Next(a.o, Event.Open(name, LookupAt(a.d, name)))
    case CloseName(name) => CloseDone(a.o.table, a.d, b.d, name) && b.o == Next(a.o, Event.Close(name))
    case RemoveName(name, r) =>
      RemoveDone(a.o.table, a.d, b.d, name, r) && b.o == Next(a.o, Event.Remove(name, Resolve(a.d, name) != ERROR))
    case Operate(op, r) => ValidOp(op) && !op.Remove? && Step(a.d, op, r, b.d) && b.o == a.o
    case WriteTo(i, w, n) =>
      i < |a.o.table| && a.o.table[i].Used? && WritesTo(a.d, w, n, b.d, a.o.table[i].sector) && b.o == a.o
  }

  /** The last close of a removed file finds all its sectors recorded. */
  ghost predicate RecordIsCurrent(d: Disk, e: Slot) { e.Used? && e.toBeDeleted ==> SameLists(e.hdr, FetchHeader(d, e.sector)) }

  /** What the threads take care of: one spelling per file, no removal of a name
      that a removed file still has in the table, and no growth of a file that is
      removed while it is open. */
  ghost predicate Careful(a: Sys, e: Action) {
    match e
    case OpenName(name) => OneSpelling(a.o.table, a.d, name)
    case CloseName(name) => RecordIsCurrent(a.d, LastClose(a.o.table, name))
    case RemoveName(name, r) => SafeToRemove(a.o.table, a.d, name) && (Resolve(a.d, name) != ERROR ==> !IsCondemned(a.o.table, name))
    case Operate(op, r) => true
    case WriteTo(i, w, n) => true
  }

  /** The abstract file system after a step. */
  ghost function NextSys(a: Sys, g: Fs, e: Action): Fs {
    match e
    case OpenName(name) => g
    case CloseName(name) => ClosedFs(a.o.table, g, name)
    case RemoveName(name, r) => RemovedFs(a.o.table, a.d, g, name)
    case Operate(op, r) => NextFs(a.d, g, op)
    case WriteTo(i, w, n) => if i < |a.o.table| && a.o.table[i].Used? then WrittenFs(g, a.o.table[i].sector, w) else g
  }

  // ----- each step keeps the invariant -----

  lemma SameAwaits(t: Slots, t': Slots, g: Fs, g': Fs)
    requires NoLeak(t, g) && g'.roots <= g.roots && forall s :: Awaits(t, s) ==> Awaits(t', s)
    ensures NoLeak(t', g')
  {
  }

  lemma OpenedAwaits(t: Slots, nbentry: int, name: CString, found: Lookup, s: int)
    requires TableOk(t, nbentry) && Awaits(t, s)
    ensures Awaits(Opened(t, nbentry, name, found), s)
  {
    var j :| 0 <= j < |t| && t[j].Used? && t[j].toBeDeleted && t[j].sector == s;
    var t' := Opened(t, nbentry, name, found);
    assert t'[j].Used? && t'[j].toBeDeleted && t'[j].sector == s;
  }

  lemma OpenStep(a: Sys, g: Fs, name: CString)
    requires SysInv(a, g) && OneSpelling(a.o.table, a.d, name)
    ensures SysInv(Sys(a.d, Next(a.o, Event.Open(name, LookupAt(a.d, name)))), g)
  {
    var found := LookupAt(a.d, name);
    OpenKeeps(a.o, name, found);
    OpenEvent(a.o, a.d, g, name, found);
    forall s | Awaits(a.o.table, s)
      ensures Awaits(Opened(a.o.table, a.o.nbentry, name, found), s)
    {
      OpenedAwaits(a.o.table, a.o.nbentry, name, found, s);
    }
    SameAwaits(a.o.table, Opened(a.o.table, a.o.nbentry, name, found), g, g);
  }

  lemma ClosedDistinct(t: Slots, name: CString)
    requires FilesDistinct(t)
    ensures FilesDistinct(Closed(t, name))
  {
    var i := Findl(t, name);
    if i != ERROR {
      assert forall j :: 0 <= j < |t| && j != i ==> !SameFile(t[j], t[i]);
      FilesWith(t, i, Fewer(t[i]));
    }
  }

  lemma CurrentOnDisk(d: Disk, g: Fs, e: Slot)
    requires FsInv(d, g) && SlotOk(e, d, g) && RecordIsCurrent(d, e)
    ensures e.Used? && e.toBeDeleted ==> Current(e, g)
  {
    if e.Used? && e.toBeDeleted {
      NodeFetched(d, g, e.sector);
    }
  }

  lemma ClosedExact(t: Slots, g: Fs, name: CString)
    requires ExactChains(g)
    ensures ExactChains(ClosedFs(t, g, name))
  {
    assert forall x :: x in g.nodes ==> Exact(g.nodes[x]);
  }

  lemma CloseStep(a: Sys, g: Fs, name: CString, d': Disk)
    requires SysInv(a, g) && CloseDone(a.o.table, a.d, d', name) && RecordIsCurrent(a.d, LastClose(a.o.table, name))
    ensures SysInv(Sys(d', Next(a.o, Event.Close(name))), ClosedFs(a.o.table, g, name))
  {
    var t := a.o.table;
    CloseKeeps(a.o, name);
    LastCloseSlots(t, a.d, g, name);
    CurrentOnDisk(a.d, g, LastClose(t, name));
    ClosedInv(t, a.d, d', g, name);
    ClosedDistinct(t, name);
    CloseKeepsNoLeak(t, a.d, g, name);
    ClosedExact(t, g, name);
  }

  lemma RemovedDistinct(t: Slots, name: CString)
    requires FilesDistinct(t)
    ensures FilesDistinct(RemovedSlots(t, name))
  {
    var i := Findl(t, name);
    if i != ERROR && t[i].Used? {
      assert forall j :: 0 <= j < |t| && j != i ==> !SameFile(t[j], t[i]);
      FilesWith(t, i, t[i].(toBeDeleted := true));
    }
  }

  /** The disk after Remove holds the file system without the name. */
  lemma RemovedInv(t: Slots, d: Disk, d': Disk, g: Fs, name: CString, r: Status)
    requires FsInv(d, g) && RemoveDone(t, d, d', name, r)
    ensures FsInv(d', RemovedFs(t, d, g, name))
  {
    if Resolve(d, name) != ERROR {
      if Findl(t, name) != ERROR {
        NameRemovedInv(d, d', g, name);
      } else {
        StepTouches(d, g, Op.Remove(name), r, d');
      }
    }
  }

  lemma NameRemovedInv(d: Disk, d': Disk, g: Fs, name: CString)
    requires FsInv(d, g) && Resolve(d, name) != ERROR && NameRemoved(d, d', name)
    ensures FsInv(d', UnlinkedFs(d, g, name))
  {
    NamedEntry(d, g, name);
    var Found(p, leaf) := FindDir(d, name);
    NodeFetched(d, g, p);
    EntryRemoved(d, d', g, name, p, leaf);
  }

  lemma RemovedExact(t: Slots, d: Disk, g: Fs, name: CString)
    requires FsInv(d, g) && ExactChains(g)
    ensures ExactChains(RemovedFs(t, d, g, name))
  {
    StepIsExact(d, g, Op.Remove(name));
    if Resolve(d, name) != ERROR {
      UnlinkedIs(d, g, name);
      assert forall x :: x in g.nodes ==> Exact(g.nodes[x]);
    }
  }

  lemma RemovedNoLeak(t: Slots, d: Disk, d': Disk, g: Fs, name: CString, r: Status)
    requires FsInv(d, g) && SlotsOk(t, d, g) && NoLeak(t, g) && RemoveDone(t, d, d', name, r)
    requires Resolve(d, name) != ERROR && !IsCondemned(t, name)
    ensures NoLeak(RemovedSlots(t, name), RemovedFs(t, d, g, name))
  {
    if Findl(t, name) != ERROR {
      RemoveLeaksIff(t, d, g, name);
    } else {
      StepTouches(d, g, Op.Remove(name), r, d');
    }
  }

  lemma RemoveStep(a: Sys, g: Fs, name: CString, r: Status, d': Disk)
    requires SysInv(a, g) && RemoveDone(a.o.table, a.d, d', name, r) && Careful(a, RemoveName(name, r))
    ensures SysInv(Sys(d', Next(a.o, Event.Remove(name, Resolve(a.d, name) != ERROR))), RemovedFs(a.o.table, a.d, g, name))
  {
    var t := a.o.table;
    RemoveKeeps(a.o, name, Resolve(a.d, name) != ERROR);
    RemovedInv(t, a.d, d', g, name, r);
    RemoveKeepsSlotsIff(t, a.o.nbentry, a.d, g, d', name, r);
    RemovedExact(t, a.d, g, name);
    RemovedDistinct(t, name);
    if Resolve(a.d, name) != ERROR {
      RemovedNoLeak(t, a.d, d', g, name, r);
    }
  }

  lemma OperateStep(a: Sys, g: Fs, op: Op, r: Status, d': Disk)
    requires SysInv(a, g) && ValidOp(op) && !op.Remove? && Step(a.d, op, r, d')
    ensures SysInv(Sys(d', a.o), NextFs(a.d, g, op))
  {
    StepTouches(a.d, g, op, r, d');
    OnlyRemoveCloses(a.o.table, a.d, g, op);
    StepSlots(a.o.table, a.d, g, op, r, d');
    StepIsExact(a.d, g, op);
  }

  lemma WriteStep(a: Sys, g: Fs, i: nat, w: Request, n: int, d': Disk)
    requires SysInv(a, g) && i < |a.o.table| && a.o.table[i].Used? && WritesTo(a.d, w, n, d', a.o.table[i].sector)
    ensures SysInv(Sys(d', a.o), WrittenFs(g, a.o.table[i].sector, w))
  {
    var s := a.o.table[i].sector;
    SlotsOkAt(a.o.table, a.d, g, i);
    WriteKeepsInv(a.d, g, s, w, n, d');
    WriteKeepsSlots(a.o.table, a.d, g, s, w, n, d');
  }

  /** Every careful step keeps the invariant. */
  lemma StepKeepsSys(a: Sys, g: Fs, e: Action, b: Sys)
    requires SysInv(a, g) && SysStep(a, e, b) && Careful(a, e)
    ensures SysInv(b, NextSys(a, g, e))
  {
    match e
    case OpenName(name) => OpenStep(a, g, name);
    case CloseName(name) => CloseStep(a, g, name, b.d);
    case RemoveName(name, r) => RemoveStep(a, g, name, r, b.d);
    case Operate(op, r) => OperateStep(a, g, op, r, b.d);
    case WriteTo(i, w, n) => WriteStep(a, g, i, w, n, b.d);
  }

  // ----- runs -----

  /** states[i + 1] comes from actions[i]. */
  datatype SysRun = SysRun(states: seq<Sys>, actions: seq<Action>)

  ghost predicate CarefulStepAt(run: SysRun, i: nat)
    requires |run.states| == |run.actions| + 1 && i < |run.actions|
  {
    SysStep(run.states[i], run.actions[i], run.states[i + 1]) && Careful(run.states[i], run.actions[i])
  }

  ghost predicate CarefulSteps(run: SysRun) {
    |run.states| == |run.actions| + 1 && forall i :: 0 <= i < |run.actions| ==> CarefulStepAt(run, i)
  }

  /** A run from a formatted disk and an empty table. */
  ghost predicate IsSysRun(run: SysRun) { CarefulSteps(run) && Formatted(run.states[0].d) && Init(run.states[0].o) }

  lemma InitialSys(a: Sys) returns (g: Fs)
    requires Formatted(a.d) && Init(a.o)
    ensures SysInv(a, g)
  {
    g := FormattedIsExact(a.d);
    InitInv(a.o);
    SlotsOkAll(a.o.table, a.d, g);
  }

  lemma NextInRun(run: SysRun, i: nat, g: Fs) returns (g': Fs)
    requires i < |run.actions| && |run.states| == |run.actions| + 1 && SysInv(run.states[i], g)
    ensures CarefulSteps(run) ==> SysInv(run.states[i + 1], g')
  {
    g' := NextSys(run.states[i], g, run.actions[i]);
    if CarefulSteps(run) {
      assert CarefulStepAt(run, i);
      StepKeepsSys(run.states[i], g, run.actions[i], run.states[i + 1]);
    }
  }

  lemma {:induction false} RunFrom(run: SysRun, g0: Fs, i: nat) returns (g: Fs)
    requires i < |run.states| == |run.actions| + 1 && SysInv(run.states[0], g0)
    ensures CarefulSteps(run) ==> SysInv(run.states[i], g)
    decreases i
  {
    g := g0;
    if i > 0 && CarefulSteps(run) {
      var g1 := RunFrom(run, g0, i - 1);
      g := NextInRun(run, i - 1, g1);
    }
  }

  /** In every state of every run the disk holds a consistent file system, the
      table agrees with it, and only removed files that are still open have no
      name. */
  lemma RunKeepsSys(run: SysRun, i: nat) returns (g: Fs)
    requires IsSysRun(run) && i < |run.states|
    ensures SysInv(run.states[i], g)
  {
    g := InitialSys(run.states[0]);
    g := RunFrom(run, g, i);
  }

  /** And clear and owned sectors add up, those of removed files included. */
  lemma SysAccounting(run: SysRun, i: nat) returns (g: Fs)
    requires IsSysRun(run) && i < |run.states|
    ensures SysInv(run.states[i], g)
    ensures NumClearOf(MarksAt(run.states[i].d), NUM_SECTORS) + OwnedBelow(g, NUM_SECTORS) == NUM_SECTORS
  {
    g := RunKeepsSys(run, i);
    Accounting(run.states[i].d, g);
  }

  // ----- a removed file waits for its last close -----

  /** The entry of the name stands for the removed file s, which had the sectors
      of h when it was opened. */
  ghost predicate WaitsAs(t: Slots, name: CString, s: int, h: Header) {
    IsCondemned(t, name) && t[Findl(t, name)].sector == s && t[Findl(t, name)].hdr == h
  }

  /** The event is the last close of the name. */
  predicate LastCloseOf(t: Slots, e: Action, name: CString) { e.CloseName? && e.name == name && LastClose(t, name).Used? }

  lemma StillThere(t: Slots, t': Slots, nbentry': int, name: CString, s: int, h: Header)
    requires WaitsAs(t, name, s, h) && TableOk(t', nbentry') && |t'| == |t|
    requires var i := Findl(t, name);
             t'[i].Used? && t'[i].name == name && t'[i].toBeDeleted && t'[i].sector == s && t'[i].hdr == h
    ensures WaitsAs(t', name, s, h)
  {
    FindlIs(t', nbentry', Findl(t, name));
  }

  lemma OpenLeavesEntry(o: Oft, other: CString, found: Lookup, name: CString, s: int, h: Header)
    requires Inv(o) && WaitsAs(o.table, name, s, h)
    ensures WaitsAs(Next(o, Event.Open(other, found)).table, name, s, h)
  {
    FindlMeans(o.table, name, 0);
    FindlMeans(o.table, other, 0);
    OpenKeeps(o, other, found);
    StillThere(o.table, Next(o, Event.Open(other, found)).table, Next(o, Event.Open(other, found)).nbentry, name, s, h);
  }

  lemma CloseLeavesEntry(o: Oft, other: CString, name: CString, s: int, h: Header)
    requires Inv(o) && WaitsAs(o.table, name, s, h) && !(other == name && LastClose(o.table, name).Used?)
    ensures WaitsAs(Next(o, Event.Close(other)).table, name, s, h)
  {
    FindlMeans(o.table, name, 0);
    FindlMeans(o.table, other, 0);
    CloseKeeps(o, other);
    StillThere(o.table, Next(o, Event.Close(other)).table, o.nbentry, name, s, h);
  }

  lemma RemoveLeavesEntry(o: Oft, other: CString, present: bool, name: CString, s: int, h: Header)
    requires Inv(o) && WaitsAs(o.table, name, s, h)
    ensures WaitsAs(Next(o, Event.Remove(other, present)).table, name, s, h)
  {
    FindlMeans(o.table, name, 0);
    FindlMeans(o.table, other, 0);
    RemoveKeeps(o, other, present);
    StillThere(o.table, Next(o, Event.Remove(other, present)).table, o.nbentry, name, s, h);
  }

  /** Only the last close takes the entry away. */
  lemma StepLeavesEntry(a: Sys, e: Action, b: Sys, name: CString, s: int, h: Header)
    requires Inv(a.o) && SysStep(a, e, b) && WaitsAs(a.o.table, name, s, h) && !LastCloseOf(a.o.table, e, name)
    ensures WaitsAs(b.o.table, name, s, h)
  {
    match e
    case OpenName(other) => OpenLeavesEntry(a.o, other, LookupAt(a.d, other), name, s, h);
    case CloseName(other) => CloseLeavesEntry(a.o, other, name, s, h);
    case RemoveName(other, r) => RemoveLeavesEntry(a.o, other, Resolve(a.d, other) != ERROR, name, s, h);
    case Operate(op, r) =>
    case WriteTo(i, w, n) =>
  }

  /** File s is still there, with the same sectors or more. */
  ghost predicate FileStays(g: Fs, g': Fs, s: int) {
    s in g.nodes && s in g'.nodes && g.nodes[s].data <= g'.nodes[s].data && g.nodes[s].chain <= g'.nodes[s].chain
  }

  lemma CloseLeavesFile(t: Slots, d: Disk, g: Fs, other: CString, name: CString, s: int, h: Header)
    requires FilesDistinct(t) && SlotsOk(t, d, g) && WaitsAs(t, name, s, h) && !(other == name && LastClose(t, name).Used?)
    requires s in g.nodes
    ensures FileStays(g, ClosedFs(t, g, other), s)
  {
    var i, j := Findl(t, name), Findl(t, other);
    FindlMeans(t, name, 0);
    FindlMeans(t, other, 0);
    if j != ERROR && j != i {
      assert !SameFile(t[i], t[j]);
    }
  }

  lemma RemoveLeavesFile(t: Slots, d: Disk, g: Fs, other: CString, s: int)
    requires FsInv(d, g) && s in g.nodes && s in g.roots
    ensures FileStays(g, RemovedFs(t, d, g, other), s)
  {
    if Resolve(d, other) != ERROR {
      UnlinkedIs(d, g, other);
      ResolveIsNode(d, g, other);
      StepPersists(d, g, Op.Remove(other));
    }
  }

  lemma OperateLeavesFile(t: Slots, d: Disk, g: Fs, op: Op, i: int)
    requires FsInv(d, g) && SlotsOk(t, d, g) && ValidOp(op) && !op.Remove? && 0 <= i < |t| && t[i].Used? && t[i].sector in g.nodes
    ensures FileStays(g, NextFs(d, g, op), t[i].sector)
  {
    OnlyRemoveCloses(t, d, g, op);
    StepPersists(d, g, op);
  }

  lemma WriteLeavesFile(d: Disk, g: Fs, x: int, w: Request, n: int, d': Disk, s: int)
    requires FsInv(d, g) && x in g.nodes && WritesTo(d, w, n, d', x) && s in g.nodes && s >= 0
    ensures FileStays(g, WrittenFs(g, x, w), s)
  {
    WrittenPersists(d, g, x, w, n, d');
  }

  lemma StepLeavesFile(a: Sys, g: Fs, e: Action, b: Sys, name: CString, s: int, h: Header)
    requires SysInv(a, g) && SysStep(a, e, b) && WaitsAs(a.o.table, name, s, h) && !LastCloseOf(a.o.table, e, name)
    ensures FileStays(g, NextSys(a, g, e), s)
  {
    var t := a.o.table;
    SlotsOkAt(t, a.d, g, Findl(t, name));
    match e
    case OpenName(other) =>
    case CloseName(other) => CloseLeavesFile(t, a.d, g, other, name, s, h);
    case RemoveName(other, r) => RemoveLeavesFile(t, a.d, g, other, s);
    case Operate(op, r) => OperateLeavesFile(t, a.d, g, op, Findl(t, name));
    case WriteTo(i, w, n) =>
      SlotsOkAt(t, a.d, g, i);
      WriteLeavesFile(a.d, g, t[i].sector, w, n, b.d, s);
  }

  // ----- the removal of an open file, over whole runs -----

  /** From state i to state j the name is not closed for the last time. */
  ghost predicate StaysOpen(run: SysRun, name: CString, i: nat, j: nat)
    requires j < |run.states| == |run.actions| + 1
  {
    forall m :: i <= m < j ==> !LastCloseOf(run.states[m].o.table, run.actions[m], name)
  }

  lemma WaitingStep(run: SysRun, m: nat, g: Fs, name: CString, s: int, h: Header)
    requires m < |run.actions| && |run.states| == |run.actions| + 1 && SysInv(run.states[m], g)
    requires WaitsAs(run.states[m].o.table, name, s, h) && !LastCloseOf(run.states[m].o.table, run.actions[m], name)
    ensures CarefulSteps(run) ==>
              var g' := NextSys(run.states[m], g, run.actions[m]);
              SysInv(run.states[m + 1], g') && WaitsAs(run.states[m + 1].o.table, name, s, h) && FileStays(g, g', s)
  {
    if CarefulSteps(run) {
      assert CarefulStepAt(run, m);
      StepKeepsSys(run.states[m], g, run.actions[m], run.states[m + 1]);
      StepLeavesEntry(run.states[m], run.actions[m], run.states[m + 1], name, s, h);
      StepLeavesFile(run.states[m], g, run.actions[m], run.states[m + 1], name, s, h);
    }
  }

  lemma StaysTrans(g: Fs, g1: Fs, g2: Fs, s: int)
    requires FileStays(g, g1, s) && FileStays(g1, g2, s)
    ensures FileStays(g, g2, s)
  {
  }

  lemma {:induction false} Waiting(run: SysRun, i: nat, j: nat, g: Fs, name: CString, s: int, h: Header) returns (g': Fs)
    requires i <= j < |run.states| == |run.actions| + 1 && StaysOpen(run, name, i, j)
    requires SysInv(run.states[i], g) && WaitsAs(run.states[i].o.table, name, s, h) && FileStays(g, g, s)
    ensures CarefulSteps(run) ==> SysInv(run.states[j], g') && WaitsAs(run.states[j].o.table, name, s, h) && FileStays(g, g', s)
    decreases j - i
  {
    g' := g;
    if i < j && CarefulSteps(run) {
      var g1 := Waiting(run, i, j - 1, g, name, s, h);
      WaitingStep(run, j - 1, g1, name, s, h);
      g' := NextSys(run.states[j - 1], g1, run.actions[j - 1]);
      StaysTrans(g, g1, g', s);
    }
  }

  /** Remove of an open file, as in oftable.cc: the entry is marked. */
  ghost predicate RemovesOpenFile(a: Sys, e: Action, name: CString) {
    e.RemoveName? && e.name == name && Resolve(a.d, name) != ERROR && Findl(a.o.table, name) != ERROR
  }

  lemma EntryIsMarked(o: Oft, name: CString)
    requires Inv(o) && Findl(o.table, name) != ERROR
    ensures var e := o.table[Findl(o.table, name)];
            e.Used? && WaitsAs(Next(o, Event.Remove(name, true)).table, name, e.sector, e.hdr)
  {
    FindlMeans(o.table, name, 0);
    RemoveKeeps(o, name, true);
    FindlIs(Next(o, Event.Remove(name, true)).table, o.nbentry, Findl(o.table, name));
  }

  /** An entry that is not marked stands for the file that its name leads to. */
  lemma NamedByEntry(t: Slots, d: Disk, g: Fs, name: CString)
    requires SlotsOk(t, d, g) && Findl(t, name) != ERROR && !IsCondemned(t, name)
    ensures t[Findl(t, name)].Used? && t[Findl(t, name)].sector == Resolve(d, name) && Resolve(d, name) in g.nodes
  {
    FindlMeans(t, name, 0);
    SlotsOkAt(t, d, g, Findl(t, name));
  }

  lemma RemovalMarks(a: Sys, g: Fs, e: Action, b: Sys, name: CString) returns (h: Header)
    requires SysInv(a, g) && SysStep(a, e, b) && Careful(a, e) && RemovesOpenFile(a, e, name)
    ensures var s, g' := Resolve(a.d, name), NextSys(a, g, e);
            WaitsAs(b.o.table, name, s, h) && s in g.nodes && g'.nodes == g.nodes
  {
    NamedByEntry(a.o.table, a.d, g, name);
    EntryIsMarked(a.o, name);
    UnlinkedIs(a.d, g, name);
    h := a.o.table[Findl(a.o.table, name)].hdr;
  }

  lemma RemovalInRun(run: SysRun, i: nat, g: Fs, name: CString, s: int) returns (h: Header)
    requires i < |run.actions| && |run.states| == |run.actions| + 1 && SysInv(run.states[i], g)
    requires RemovesOpenFile(run.states[i], run.actions[i], name) && s == Resolve(run.states[i].d, name)
    ensures CarefulSteps(run) ==>
              var g' := NextSys(run.states[i], g, run.actions[i]);
              SysInv(run.states[i + 1], g') && WaitsAs(run.states[i + 1].o.table, name, s, h) && FileStays(g, g', s)
  {
    h := Header(0, 0, [], []);
    if CarefulSteps(run) {
      assert CarefulStepAt(run, i);
      StepKeepsSys(run.states[i], g, run.actions[i], run.states[i + 1]);
      h := RemovalMarks(run.states[i], g, run.actions[i], run.states[i + 1], name);
    }
  }

  lemma RemovedThenWaits(run: SysRun, i: nat, m: nat, g: Fs, name: CString, s: int) returns (g': Fs, h: Header)
    requires i < m < |run.states| == |run.actions| + 1 && SysInv(run.states[i], g) && StaysOpen(run, name, i + 1, m)
    requires RemovesOpenFile(run.states[i], run.actions[i], name) && s == Resolve(run.states[i].d, name)
    ensures CarefulSteps(run) ==> SysInv(run.states[m], g') && WaitsAs(run.states[m].o.table, name, s, h) && FileStays(g, g', s)
  {
    h := RemovalInRun(run, i, g, name, s);
    g' := g;
    if CarefulSteps(run) {
      var g1 := NextSys(run.states[i], g, run.actions[i]);
      g' := Waiting(run, i + 1, m, g1, name, s, h);
      StaysTrans(g, g1, g', s);
    }
  }

  /** From a removal to some state before the last close of the name. */
  lemma RemovedWaits(run: SysRun, i: nat, m: nat, name: CString, s: int) returns (g: Fs, g': Fs, h: Header)
    requires IsSysRun(run) && i < m < |run.states| && StaysOpen(run, name, i + 1, m)
    requires RemovesOpenFile(run.states[i], run.actions[i], name) && s == Resolve(run.states[i].d, name)
    ensures SysInv(run.states[i], g) && SysInv(run.states[m], g') && WaitsAs(run.states[m].o.table, name, s, h) && FileStays(g, g', s)
  {
    g := RunKeepsSys(run, i);
    g', h := RemovedThenWaits(run, i, m, g, name, s);
  }

  /** The sectors that the header of file s lists on the disk. */
  ghost function SectorsOf(d: Disk, s: int): set<int> { SetOf(Owned(s, FetchHeader(d, s))) }

  lemma StaysMarked(d: Disk, g: Fs, d': Disk, g': Fs, s: int)
    requires FsInv(d, g) && FsInv(d', g') && FileStays(g, g', s)
    ensures SectorsOf(d, s) <= SectorsOf(d', s) <= MarksAt(d')
  {
    NodeFetched(d, g, s);
    NodeFetched(d', g', s);
    OlderOwned(s, g.nodes[s], g'.nodes[s]);
    OwnedAreMarked(d', g', s);
  }

  /** In every run, from the removal of an open file to its last close, all
      sectors that it had, and those that were added since, stay marked. */
  lemma RemovedKeepsSectors(run: SysRun, i: nat, m: nat, name: CString)
    requires IsSysRun(run) && i < m < |run.states| && RemovesOpenFile(run.states[i], run.actions[i], name)
    requires StaysOpen(run, name, i + 1, m)
    ensures var s := Resolve(run.states[i].d, name);
            SectorsOf(run.states[i].d, s) <= SectorsOf(run.states[m].d, s) <= MarksAt(run.states[m].d)
  {
    var s := Resolve(run.states[i].d, name);
    var g, g', h := RemovedWaits(run, i, m, name, s);
    StaysMarked(run.states[i].d, g, run.states[m].d, g', s);
  }

  lemma WaitingIsLast(t: Slots, name: CString, s: int, h: Header)
    requires WaitsAs(t, name, s, h) && LastClose(t, name).Used?
    ensures LastClose(t, name).toBeDeleted && LastClose(t, name).sector == s && LastClose(t, name).hdr == h
  {
  }

  /** The last close of a removed file clears exactly the sectors of the file. */
  lemma CloseFrees(a: Sys, g: Fs, e: Action, b: Sys, name: CString, s: int, h: Header)
    requires SysInv(a, g) && SysStep(a, e, b) && Careful(a, e) && WaitsAs(a.o.table, name, s, h) && LastCloseOf(a.o.table, e, name)
    ensures SectorsOf(a.d, s) <= MarksAt(a.d) && MarksAt(b.d) == MarksAt(a.d) - SectorsOf(a.d, s)
    ensures SysInv(b, NextSys(a, g, e)) && s !in NextSys(a, g, e).nodes && NotOpen(b.o.table, s)
  {
    var t := a.o.table;
    WaitingIsLast(t, name, s, h);
    LastCloseSlots(t, a.d, g, name);
    GoneFromTable(t, name);
    StepKeepsSys(a, g, e, b);
    FreedSectors(a.d, g, b.d, NextSys(a, g, e), LastClose(t, name));
  }

  lemma FreedSectors(d: Disk, g: Fs, d': Disk, g': Fs, e: Slot)
    requires FsInv(d, g) && FsInv(d', g') && e.Used? && e.toBeDeleted && SlotOk(e, d, g) && RecordIsCurrent(d, e)
    requires e.sector in g.nodes && g' == Drop(g, e.sector)
    ensures SectorsOf(d, e.sector) <= MarksAt(d) && MarksAt(d') == MarksAt(d) - SectorsOf(d, e.sector)
  {
    NodeFetched(d, g, e.sector);
    OwnedAreMarked(d, g, e.sector);
    MapFetched(d, g);
    MapFetched(d', g');
  }

  /** In every run, the last close of a file that was removed while it was open
      clears exactly the sectors of the file. They were marked until then, the
      file is gone, and no entry is left that could clear them again. */
  lemma RemovedIsFreedOnce(run: SysRun, i: nat, j: nat, name: CString) returns (g: Fs)
    requires IsSysRun(run) && i < j < |run.actions| && RemovesOpenFile(run.states[i], run.actions[i], name)
    requires StaysOpen(run, name, i + 1, j) && LastCloseOf(run.states[j].o.table, run.actions[j], name)
    ensures var s, d, d' := Resolve(run.states[i].d, name), run.states[j].d, run.states[j + 1].d;
            && SectorsOf(run.states[i].d, s) <= SectorsOf(d, s) <= MarksAt(d)
            && MarksAt(d') == MarksAt(d) - SectorsOf(d, s)
            && SysInv(run.states[j + 1], g) && s !in g.nodes && NotOpen(run.states[j + 1].o.table, s)
  {
    var s := Resolve(run.states[i].d, name);
    var g0, g1, h := RemovedWaits(run, i, j, name, s);
    StaysMarked(run.states[i].d, g0, run.states[j].d, g1, s);
    assert CarefulStepAt(run, j);
    CloseFrees(run.states[j], g1, run.actions[j], run.states[j + 1], name, s, h);
    g := NextSys(run.states[j], g1, run.actions[j]);
  }

  // ----- the operations of the objects are these steps -----

  ghost function State(fs: FileSystem, oft: OpenFileTable): Sys
    reads fs, fs.disk, oft
  {
    Sys(fs.disk.sectors, oft.View())
  }

  ghost predicate SysReady(fs: FileSystem, oft: OpenFileTable, g: Fs)
    reads fs, fs.disk, fs.freeMapFile.hdr, fs.directoryFile.hdr, oft
  {
    fs.Valid(g) && SysInv(State(fs, oft), g)
  }

  method DoOpen(fs: FileSystem, oft: OpenFileTable, name: CString, ghost g: Fs) returns (ok: bool)
    requires SysReady(fs, oft, g) && Careful(State(fs, oft), OpenName(name))
    modifies oft
    ensures SysStep(old(State(fs, oft)), OpenName(name), State(fs, oft)) && SysReady(fs, oft, g)
    ensures ok == CanOpen(old(oft.table), old(oft.nbentry), name, LookupAt(fs.disk.sectors, name))
  {
    ghost var a := State(fs, oft);
    var found;
    ok, found := OpenFileByName(fs, oft, name, g);
    StepKeepsSys(a, g, OpenName(name), State(fs, oft));
  }

  /** The two permanent files are never closed. */
  lemma ClosedRoots(t: Slots, d: Disk, g: Fs, name: CString)
    requires FsInv(d, g) && SlotsOk(t, d, g)
    ensures SameHeaders(g, ClosedFs(t, g, name))
  {
    LastCloseSlots(t, d, g, name);
  }

  ghost predicate SameHeaders(g: Fs, g': Fs) {
    forall s :: (s == FREE_MAP_SECTOR || s == ROOT_SECTOR) && s in g.nodes ==> s in g'.nodes && g'.nodes[s] == g.nodes[s]
  }

  method DoClose(fs: FileSystem, oft: OpenFileTable, name: CString, ghost g: Fs)
    requires SysReady(fs, oft, g) && Careful(State(fs, oft), CloseName(name))
    modifies fs.disk, oft
    ensures SysStep(old(State(fs, oft)), CloseName(name), State(fs, oft))
    ensures SysReady(fs, oft, NextSys(old(State(fs, oft)), g, CloseName(name)))
  {
    ghost var a := State(fs, oft);
    ClosedRoots(oft.table, fs.disk.sectors, g, name);
    CloseFileByName(fs, oft, name, g);
    StepKeepsSys(a, g, CloseName(name), State(fs, oft));
  }

  method DoRemove(fs: FileSystem, oft: OpenFileTable, name: CString, ghost g: Fs) returns (r: Status)
    requires SysReady(fs, oft, g) && Careful(State(fs, oft), RemoveName(name, NoError))
    modifies fs.disk, oft
    ensures SysStep(old(State(fs, oft)), RemoveName(name, r), State(fs, oft))
    ensures SysReady(fs, oft, NextSys(old(State(fs, oft)), g, RemoveName(name, r)))
  {
    ghost var a := State(fs, oft);
    r := RemoveFileByName(fs, oft, name, g);
    StepKeepsSys(a, g, RemoveName(name, r), State(fs, oft));
  }

  method DoOperate(fs: FileSystem, oft: OpenFileTable, op: Op, ghost g: Fs) returns (r: Status)
    requires SysReady(fs, oft, g) && ValidOp(op) && !op.Remove?
    modifies fs.disk
    ensures SysStep(old(State(fs, oft)), Operate(op, r), State(fs, oft))
    ensures SysReady(fs, oft, NextSys(old(State(fs, oft)), g, Operate(op, r)))
  {
    ghost var a := State(fs, oft);
    r := PerformWithOpenFiles(fs, oft, op, g);
    StepKeepsSys(a, g, Operate(op, r), State(fs, oft));
  }

  /** Writes to the file of an entry, through an open file of its own whose header
      lists the sectors on disk. */
  method DoWrite(fs: FileSystem, oft: OpenFileTable, ghost i: nat, file: OpenFile, bytes: seq<byte>, position: int, ghost g: Fs)
    returns (n: int, ghost w: Request)
    requires SysReady(fs, oft, g) && i < |oft.table| && oft.table[i].Used? && file.fSector == oft.table[i].sector
    requires file.hdr != fs.freeMapFile.hdr && file.hdr != fs.directoryFile.hdr
    requires file.hdr.Sized() && IsOpenAt(fs.disk.sectors, file.fSector, file.hdr.View())
    requires Writable(fs.disk.sectors, file.hdr.View(), position, |bytes|)
    modifies fs.disk, file.hdr
    ensures file.hdr.Sized()
    ensures w == Request(old(file.hdr.View()), fs.freeMapFile.hdr.View(), position, bytes, file.hdr.View(), w.grown)
    ensures SysStep(old(State(fs, oft)), WriteTo(i, w, n), State(fs, oft))
    ensures SysReady(fs, oft, NextSys(old(State(fs, oft)), g, WriteTo(i, w, n)))
  {
    ghost var a := State(fs, oft);
    SlotsOkAt(oft.table, fs.disk.sectors, g, i);
    n, w := WriteToFile(fs, file, bytes, position, g);
    StepKeepsSys(a, g, WriteTo(i, w, n), State(fs, oft));
  }
}
