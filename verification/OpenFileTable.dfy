/**
 The table of open files (filesys/oftable.cc): one entry per open file name,
 with a reference count. This module is about the table alone; what it means
 for the disk is in OpenFileState and OpenFileOps.
 */
module OpenFileTables {
  import opened Layout
  import opened FileHeaders
  import opened Directories

  const NBOFTENTRY := 15

  /** An entry keeps the header that was read when the file was first opened. */
  datatype Slot = Empty | Used(name: CString, sector: int, hdr: Header, numthread: int, toBeDeleted: bool)

  type Slots = seq<Slot>

  // ----- searching the table -----

  function FindlFrom(t: Slots, name: CString, i: nat): (r: int)
    ensures r == ERROR || i <= r < |t|
    decreases |t| - i
  {
    if i >= |t| then ERROR else if t[i].Used? && t[i].name == name then i else FindlFrom(t, name, i + 1)
  }

  function Findl(t: Slots, name: CString): (r: int)
    ensures r == ERROR || 0 <= r < |t|
  {
    FindlFrom(t, name, 0)
  }

  lemma {:induction false} FindlMeans(t: Slots, name: CString, i: nat)
    ensures var r := FindlFrom(t, name, i);
            && (r != ERROR ==> t[r].Used? && t[r].name == name)
            && (r == ERROR ==> forall k :: i <= k < |t| && t[k].Used? ==> t[k].name != name)
    decreases |t| - i
  {
    if i < |t| && !(t[i].Used? && t[i].name == name) {
      FindlMeans(t, name, i + 1);
    }
  }

  function EmptyFrom(t: Slots, i: nat): (r: int)
    ensures r == ERROR || (i <= r < |t| && t[r].Empty?)
    decreases |t| - i
  {
    if i >= |t| then ERROR else if t[i].Empty? then i else EmptyFrom(t, i + 1)
  }

  ghost predicate Full(t: Slots) { forall i :: 0 <= i < |t| ==> t[i].Used? }

  /** next_entry finds no slot exactly when every slot is used. */
  lemma EmptyIsErrorIffFull(t: Slots)
    ensures EmptyFrom(t, 0) == ERROR <==> Full(t)
  {
    EmptyFromMeans(t, 0);
  }

  lemma {:induction false} EmptyFromMeans(t: Slots, i: nat)
    ensures EmptyFrom(t, i) == ERROR <==> forall k :: i <= k < |t| ==> t[k].Used?
    decreases |t| - i
  {
    if i < |t| && t[i].Used? {
      EmptyFromMeans(t, i + 1);
    }
  }

  // ----- what the operations do to the table -----

  /** What the directory tree says about a name. */
  datatype Lookup = Missing | IsDirectory | IsFile(sector: int, hdr: Header)

  predicate CanOpen(t: Slots, nbentry: int, name: CString, found: Lookup) {
    var i := Findl(t, name);
    if i != ERROR then t[i].Used? && !t[i].toBeDeleted else nbentry != ERROR && found.IsFile?
  }

  function Opened(t: Slots, nbentry: int, name: CString, found: Lookup): Slots
    requires nbentry == ERROR || 0 <= nbentry < |t|
  {
    var i := Findl(t, name);
    if !CanOpen(t, nbentry, name, found) then t
    else if i != ERROR then t[i := t[i].(numthread := t[i].numthread + 1)]
    else t[nbentry := Used(name, found.sector, found.hdr, 1, false)]
  }

  function NextSlot(t: Slots, nbentry: int, name: CString, found: Lookup): int
    requires nbentry == ERROR || 0 <= nbentry < |t|
  {
    if CanOpen(t, nbentry, name, found) && Findl(t, name) == ERROR then EmptyFrom(Opened(t, nbentry, name, found), 0) else nbentry
  }

  /** The entry that a close deletes from the table, or Empty. */
  function LastClose(t: Slots, name: CString): Slot {
    var i := Findl(t, name);
    if i != ERROR && t[i].Used? && t[i].numthread <= 1 then t[i] else Empty
  }

  /** An entry with one thread less, or none at all. */
  function Fewer(e: Slot): Slot {
    if e.Empty? || e.numthread <= 1 then Empty else e.(numthread := e.numthread - 1)
  }

  function Closed(t: Slots, name: CString): Slots {
    var i := Findl(t, name);
    if i == ERROR then t else t[i := Fewer(t[i])]
  }

  /** The slot of an open file that is being removed. */
  function Condemned(t: Slots, num: int): Slots
    requires 0 <= num < |t| && t[num].Used?
  {
    t[num := t[num].(toBeDeleted := true)]
  }

  /** Remove, when the name leads to a file: only an open one is in the table. */
  function RemovedSlots(t: Slots, name: CString): Slots {
    var i := Findl(t, name);
    if i == ERROR || !t[i].Used? then t else Condemned(t, i)
  }

  // ----- the invariant of the table -----

  ghost predicate SameName(a: Slot, b: Slot) { a.Used? && b.Used? && a.name == b.name }

  /** Live entries have different names and are in use by some thread, and the
      next slot to use is empty, so that Open never overwrites a live entry. */
  ghost predicate TableOk(t: Slots, nbentry: int) {
    && (forall i, j {:trigger SameName(t[i], t[j])} :: 0 <= i < |t| && 0 <= j < |t| && i != j ==> !SameName(t[i], t[j]))
    && (forall i :: 0 <= i < |t| && t[i].Used? ==> t[i].numthread >= 1)
    && (nbentry == ERROR || (0 <= nbentry < |t| && t[nbentry].Empty?))
  }

  /** The number of threads that have the name open. */
  function Threads(t: Slots, name: CString): int {
    var i := Findl(t, name);
    if i == ERROR || !t[i].Used? then 0 else t[i].numthread
  }

  datatype Call = Opening(name: CString) | Closing(name: CString)

  /** Opens minus closes. */
  function Net(history: seq<Call>, name: CString): int {
    if history == [] then 0 else
      var c := history[|history| - 1];
      Net(history[..|history| - 1], name) + if c.name != name then 0 else if c.Opening? then 1 else -1
  }

  /** Every entry counts the opens of its name that have not been closed. */
  ghost predicate CountsOk(t: Slots, history: seq<Call>) { forall name :: Threads(t, name) == Net(history, name) }

  // ----- replacing one slot -----

  lemma EntryAdded(t: Slots, nbentry: int, e: Slot)
    requires TableOk(t, nbentry) && nbentry != ERROR && e.Used? && e.numthread >= 1 && Findl(t, e.name) == ERROR
    ensures TableOk(t[nbentry := e], EmptyFrom(t[nbentry := e], 0))
  {
    FindlMeans(t, e.name, 0);
    assert forall i :: 0 <= i < |t| ==> !SameName(t[i], e) && !SameName(e, t[i]);
  }

  /** Changing an entry without renaming it. */
  lemma EntryChanged(t: Slots, nbentry: int, i: nat, e: Slot)
    requires TableOk(t, nbentry) && i < |t| && t[i].Used?
    requires e.Used? ==> e.name == t[i].name && e.numthread >= 1
    ensures TableOk(t[i := e], nbentry)
  {
    assert forall j :: 0 <= j < |t| && SameName(t[j], e) ==> SameName(t[j], t[i]);
    assert forall j :: 0 <= j < |t| && SameName(e, t[j]) ==> SameName(t[i], t[j]);
  }

  lemma FindlIs(t: Slots, nbentry: int, i: nat)
    requires TableOk(t, nbentry) && i < |t| && t[i].Used?
    ensures Findl(t, t[i].name) == i
  {
    FindlMeans(t, t[i].name, 0);
    var r := Findl(t, t[i].name);
    assert r != ERROR && r != i ==> SameName(t[r], t[i]);
  }

  /** What replacing one slot does to the thread counts. */
  lemma ThreadsAfter(t: Slots, nbentry: int, i: nat, e: Slot, nbentry': int, name: CString)
    requires TableOk(t, nbentry) && i < |t| && TableOk(t[i := e], nbentry')
    requires t[i].Used? && e.Used? ==> e.name == t[i].name
    ensures Threads(t[i := e], name) ==
            if e.Used? && e.name == name then e.numthread
            else if t[i].Used? && t[i].name == name then 0 else Threads(t, name)
  {
    var t' := t[i := e];
    FindlMeans(t, name, 0);
    FindlMeans(t', name, 0);
    var r, r' := Findl(t, name), Findl(t', name);
    assert r != ERROR && r != i ==> t'[r] == t[r];
    if e.Used? && e.name == name {
      FindlIs(t', nbentry', i);
    } else if t[i].Used? && t[i].name == name {
      FindlIs(t, nbentry, i);
      assert forall j :: 0 <= j < |t| && j != i ==> !SameName(t[j], t[i]);
    } else if r' != ERROR {
      FindlIs(t, nbentry, r');
    }
  }

  lemma NetSnoc(history: seq<Call>, c: Call, name: CString)
    ensures Net(history + [c], name) == Net(history, name) + if c.name != name then 0 else if c.Opening? then 1 else -1
  {
    assert (history + [c])[..|history|] == history;
  }

  lemma CountsAfter(t: Slots, nbentry: int, i: nat, e: Slot, nbentry': int, history: seq<Call>, c: Call)
    requires TableOk(t, nbentry) && i < |t| && TableOk(t[i := e], nbentry') && CountsOk(t, history)
    requires t[i].Used? && e.Used? ==> e.name == t[i].name
    requires (e.Used? || t[i].Used?) && (if e.Used? then e.name else t[i].name) == c.name
    requires (if e.Used? then e.numthread else 0) == Threads(t, c.name) + if c.Opening? then 1 else -1
    ensures CountsOk(t[i := e], history + [c])
  {
    forall name
      ensures Threads(t[i := e], name) == Net(history + [c], name)
    {
      ThreadsAfter(t, nbentry, i, e, nbentry', name);
      NetSnoc(history, c, name);
    }
  }

  lemma SameCounts(t: Slots, nbentry: int, i: nat, e: Slot, history: seq<Call>)
    requires TableOk(t, nbentry) && i < |t| && TableOk(t[i := e], nbentry) && CountsOk(t, history)
    requires t[i].Used? && e.Used? && e.name == t[i].name && e.numthread == t[i].numthread
    ensures CountsOk(t[i := e], history)
  {
    forall name
      ensures Threads(t[i := e], name) == Net(history, name)
    {
      ThreadsAfter(t, nbentry, i, e, nbentry, name);
      FindlIs(t, nbentry, i);
    }
  }

  // ----- the table over whole runs -----

  datatype Oft = Oft(table: Slots, nbentry: int, history: seq<Call>)

  /** `found` and `present` are what the file system says about the name. */
  datatype Event = Open(name: CString, found: Lookup) | Close(name: CString) | Remove(name: CString, present: bool)

  ghost predicate Inv(o: Oft) { |o.table| == NBOFTENTRY && TableOk(o.table, o.nbentry) && CountsOk(o.table, o.history) }

  function Next(o: Oft, e: Event): Oft
    requires o.nbentry == ERROR || 0 <= o.nbentry < |o.table|
  {
    match e
    case Open(name, found) =>
      Oft(Opened(o.table, o.nbentry, name, found), NextSlot(o.table, o.nbentry, name, found),
          o.history + if CanOpen(o.table, o.nbentry, name, found) then [Opening(name)] else [])
    case Close(name) =>
      Oft(Closed(o.table, name), o.nbentry, o.history + if Findl(o.table, name) != ERROR then [Closing(name)] else [])
    case Remove(name, present) => if present then o.(table := RemovedSlots(o.table, name)) else o
  }

  lemma OpenKeeps(o: Oft, name: CString, found: Lookup)
    requires Inv(o)
    ensures Inv(Next(o, Open(name, found)))
  {
    assert o.history + [] == o.history;
    FindlMeans(o.table, name, 0);
    var i := Findl(o.table, name);
    if CanOpen(o.table, o.nbentry, name, found) {
      if i != ERROR {
        var e := o.table[i].(numthread := o.table[i].numthread + 1);
        EntryChanged(o.table, o.nbentry, i, e);
        CountsAfter(o.table, o.nbentry, i, e, o.nbentry, o.history, Opening(name));
      } else {
        var e := Used(name, found.sector, found.hdr, 1, false);
        EntryAdded(o.table, o.nbentry, e);
        CountsAfter(o.table, o.nbentry, o.nbentry, e, EmptyFrom(o.table[o.nbentry := e], 0), o.history, Opening(name));
      }
    }
  }

  lemma CloseKeeps(o: Oft, name: CString)
    requires Inv(o)
    ensures Inv(Next(o, Close(name)))
  {
    assert o.history + [] == o.history;
    FindlMeans(o.table, name, 0);
    var i := Findl(o.table, name);
    if i != ERROR {
      EntryChanged(o.table, o.nbentry, i, Fewer(o.table[i]));
      CountsAfter(o.table, o.nbentry, i, Fewer(o.table[i]), o.nbentry, o.history, Closing(name));
    }
  }

  lemma RemoveKeeps(o: Oft, name: CString, present: bool)
    requires Inv(o)
    ensures Inv(Next(o, Remove(name, present)))
  {
    FindlMeans(o.table, name, 0);
    var i := Findl(o.table, name);
    if present && i != ERROR {
      EntryChanged(o.table, o.nbentry, i, o.table[i].(toBeDeleted := true));
      SameCounts(o.table, o.nbentry, i, o.table[i].(toBeDeleted := true), o.history);
    }
  }

  lemma StepKeepsInv(o: Oft, e: Event)
    requires Inv(o)
    ensures Inv(Next(o, e))
  {
    match e
    case Open(name, found) => OpenKeeps(o, name, found);
    case Close(name) => CloseKeeps(o, name);
    case Remove(name, present) => RemoveKeeps(o, name, present);
  }

  ghost predicate Init(o: Oft) {
    |o.table| == NBOFTENTRY && (forall i :: 0 <= i < |o.table| ==> o.table[i].Empty?) && o.nbentry == 0 && o.history == []
  }

  lemma InitInv(o: Oft)
    requires Init(o)
    ensures Inv(o)
  {
    forall name
      ensures Threads(o.table, name) == 0
    {
      FindlMeans(o.table, name, 0);
    }
  }

  ghost predicate IsRun(run: seq<Oft>, events: seq<Event>) {
    && |run| == |events| + 1 && Init(run[0])
    && forall i :: 0 <= i < |events| ==>
                     (run[i].nbentry == ERROR || 0 <= run[i].nbentry < |run[i].table|) && run[i + 1] == Next(run[i], events[i])
  }

  /** Over every run of Open, Close and Remove, whatever the names are and
      whatever files they lead to: one live entry per name, which counts opens
      minus closes and at least 1, and a next slot that is empty or ERROR. */
  lemma {:induction false} RunKeepsInv(run: seq<Oft>, events: seq<Event>, i: nat)
    requires IsRun(run, events) && i < |run|
    ensures Inv(run[i])
  {
    if i == 0 {
      InitInv(run[0]);
    } else {
      RunKeepsInv(run, events, i - 1);
      StepKeepsInv(run[i - 1], events[i - 1]);
    }
  }

  // ----- a table that has been full -----

  lemma {:induction false} ErrorStays(run: seq<Oft>, events: seq<Event>, i: nat, j: nat)
    requires IsRun(run, events) && i <= j < |run| && run[i].nbentry == ERROR
    ensures run[j].nbentry == ERROR
    decreases j - i
  {
    if i < j {
      ErrorStays(run, events, i, j - 1);
    }
  }

  /** Once every slot has been used at the same time, no name that is not in the
      table can be opened any more, whatever has been closed since. */
  lemma FullTableSticks(run: seq<Oft>, events: seq<Event>, i: nat, j: nat)
    requires IsRun(run, events) && i <= j < |events| && Full(run[i].table)
    requires events[j].Open? && Findl(run[j].table, events[j].name) == ERROR
    ensures !CanOpen(run[j].table, run[j].nbentry, events[j].name, events[j].found) && run[j + 1] == run[j]
  {
    RunKeepsInv(run, events, i);
    ErrorStays(run, events, i, j);
    assert run[j + 1] == Next(run[j], events[j]);
    assert run[j].history + [] == run[j].history;
  }

  lemma {:induction false} NeverFullIsOpen(run: seq<Oft>, events: seq<Event>, j: nat)
    requires IsRun(run, events) && j < |run| && forall i :: 0 <= i <= j ==> !Full(run[i].table)
    ensures run[j].nbentry != ERROR
  {
    if j > 0 {
      NeverFullIsOpen(run, events, j - 1);
      assert run[j] == Next(run[j - 1], events[j - 1]);
      EmptyIsErrorIffFull(run[j].table);
    }
  }

  /** A table refuses new names exactly when it has been full at some time. */
  lemma RefusesIffOnceFull(run: seq<Oft>, events: seq<Event>, j: nat)
    requires IsRun(run, events) && j < |run|
    ensures run[j].nbentry == ERROR <==> exists i :: 0 <= i <= j && Full(run[i].table)
  {
    if i :| 0 <= i <= j && Full(run[i].table) {
      RunKeepsInv(run, events, i);
      ErrorStays(run, events, i, j);
    } else {
      NeverFullIsOpen(run, events, j);
    }
  }

  // ----- a run that fills the table -----

  /** Sixteen different names, of files in different sectors. */
  function NameOf(i: nat): CString
    requires i <= NBOFTENTRY
  {
    [i + 1]
  }

  function FileOf(i: nat): Lookup { IsFile(i + 2, Header(0, 0, [], [])) }

  /** The table after the first k names have been opened. */
  function Filled(k: nat): (t: Slots)
    requires k <= NBOFTENTRY
    ensures |t| == NBOFTENTRY
  {
    seq(NBOFTENTRY, i requires 0 <= i < NBOFTENTRY =>
      if i < k then Used(NameOf(i), FileOf(i).sector, FileOf(i).hdr, 1, false) else Empty)
  }

  function Openings(k: nat): seq<Call>
    requires k <= NBOFTENTRY
  {
    seq(k, i requires 0 <= i < k => Opening(NameOf(i)))
  }

  function FilledState(k: nat): Oft
    requires k <= NBOFTENTRY
  {
    Oft(Filled(k), if k < NBOFTENTRY then k else ERROR, Openings(k))
  }

  lemma {:induction false} FirstEmpty(k: nat, i: nat)
    requires i <= k <= NBOFTENTRY
    ensures EmptyFrom(Filled(k), i) == if k < NBOFTENTRY then k else ERROR
    decreases k - i
  {
    if i < k {
      FirstEmpty(k, i + 1);
    }
  }

  lemma FillStep(k: nat)
    requires k < NBOFTENTRY
    ensures Next(FilledState(k), Open(NameOf(k), FileOf(k))) == FilledState(k + 1)
  {
    var t := Filled(k);
    FindlMeans(t, NameOf(k), 0);
    assert forall i :: 0 <= i < k ==> t[i].name[0] != NameOf(k)[0];
    assert t[k := Used(NameOf(k), FileOf(k).sector, FileOf(k).hdr, 1, false)] == Filled(k + 1);
    assert Openings(k) + [Opening(NameOf(k))] == Openings(k + 1);
    FirstEmpty(k + 1, 0);
  }

  /** Fifteen opens, one close, and the open of a sixteenth name. */
  function FillingEvents(): seq<Event> {
    seq(NBOFTENTRY, i requires 0 <= i < NBOFTENTRY => Open(NameOf(i), FileOf(i)))
    + [Close(NameOf(0)), Open(NameOf(NBOFTENTRY), FileOf(NBOFTENTRY))]
  }

  function OneClosed(): Oft { Next(FilledState(NBOFTENTRY), Close(NameOf(0))) }

  function FillingRun(): seq<Oft> {
    seq(NBOFTENTRY + 1, k requires 0 <= k < NBOFTENTRY + 1 => FilledState(k)) + [OneClosed(), OneClosed()]
  }

  /** The slot is empty again, and still the new name is refused. */
  lemma SixteenthIsRefused()
    ensures OneClosed().table[0].Empty? && !Full(OneClosed().table)
    ensures Next(OneClosed(), Open(NameOf(NBOFTENTRY), FileOf(NBOFTENTRY))) == OneClosed()
  {
    var full := Filled(NBOFTENTRY);
    FindlMeans(full, NameOf(0), 0);
    assert full[0].name == NameOf(0);
    assert forall i :: 0 < i < NBOFTENTRY ==> full[i].name[0] != NameOf(0)[0];
    assert Findl(full, NameOf(0)) == 0;
    assert OneClosed().history + [] == OneClosed().history;
    var t := OneClosed().table;
    FindlMeans(t, NameOf(NBOFTENTRY), 0);
    assert forall i :: 0 < i < NBOFTENTRY ==> t[i].name[0] != NameOf(NBOFTENTRY)[0];
  }

  /** A run in which the table has an empty slot and refuses a new name. */
  lemma FullTableIsReachable()
    ensures var run, events := FillingRun(), FillingEvents();
            && IsRun(run, events) && Full(run[NBOFTENTRY].table)
            && !Full(run[NBOFTENTRY + 1].table) && run[NBOFTENTRY + 2] == run[NBOFTENTRY + 1]
            && events[NBOFTENTRY + 1].Open? && Findl(run[NBOFTENTRY + 1].table, events[NBOFTENTRY + 1].name) == ERROR
  {
    var run, events := FillingRun(), FillingEvents();
    SixteenthIsRefused();
    forall i | 0 <= i < |events|
      ensures (run[i].nbentry == ERROR || 0 <= run[i].nbentry < |run[i].table|) && run[i + 1] == Next(run[i], events[i])
    {
      if i < NBOFTENTRY {
        FillStep(i);
      }
    }
    FindlMeans(OneClosed().table, NameOf(NBOFTENTRY), 0);
  }

  // ----- the class -----

  class OpenFileTable {
    var table: Slots
    var nbentry: int
    ghost var history: seq<Call>

    ghost function View(): Oft
      reads this
    {
      Oft(table, nbentry, history)
    }

    ghost predicate Valid()
      reads this
    {
      Inv(View())
    }

    constructor ()
      ensures Init(View()) && Valid()
    {
      table := seq(NBOFTENTRY, _ => Empty);
      nbentry := 0;
      history := [];
      new;
      InitInv(View());
    }

    method FindlLoop(name: CString) returns (r: int)
      ensures r == Findl(table, name)
    {
      for i := 0 to |table|
        invariant FindlFrom(table, name, i) == Findl(table, name)
      {
        if table[i].Used? && table[i].name == name {
          return i;
        }
      }
      r := ERROR;
    }

    /** The first empty slot, or ERROR when every slot is used. */
    method NextEntry() returns (r: int)
      ensures r == EmptyFrom(table, 0)
      ensures r == ERROR <==> Full(table)
    {
      EmptyIsErrorIffFull(table);
      for i := 0 to |table|
        invariant EmptyFrom(table, i) == EmptyFrom(table, 0)
      {
        if table[i].Empty? {
          return i;
        }
      }
      r := ERROR;
    }

    /** Opens a file: the first open of a name takes a slot, later ones only count. */
    method Open(name: CString, found: Lookup) returns (ok: bool)
      requires Valid()
      modifies this
      ensures Valid() && View() == Next(old(View()), Event.Open(name, found))
      ensures ok == CanOpen(old(table), old(nbentry), name, found)
    {
      OpenKeeps(View(), name, found);
      FindlMeans(table, name, 0);
      var num := FindlLoop(name);
      if num != ERROR {
        ok := !table[num].toBeDeleted;
        if ok {
          table := table[num := table[num].(numthread := table[num].numthread + 1)];
        }
      } else {
        ok := nbentry != ERROR && found.IsFile?;
        if ok {
          table := table[nbentry := Used(name, found.sector, found.hdr, 1, false)];
          nbentry := NextEntry();
        }
      }
      history := history + if ok then [Opening(name)] else [];
    }

    /** One thread less has the file open; the last one deletes the entry. */
    method Close(name: CString) returns (gone: Slot)
      requires Valid()
      modifies this
      ensures Valid() && View() == Next(old(View()), Event.Close(name)) && gone == LastClose(old(table), name)
    {
      CloseKeeps(View(), name);
      FindlMeans(table, name, 0);
      gone := Empty;
      var num := FindlLoop(name);
      history := history + if num != ERROR then [Closing(name)] else [];
      if num != ERROR {
        var left := table[num].numthread - 1;
        if left <= 0 {
          gone := table[num];
          table := table[num := Empty];
        } else {
          table := table[num := table[num].(numthread := left)];
        }
      }
    }

    /** The file of an entry will be freed by the last close. */
    method MarkDeleted(num: int, ghost name: CString)
      requires Valid() && num == Findl(table, name) != ERROR
      modifies this
      ensures Valid() && View() == Next(old(View()), Remove(name, true))
    {
      RemoveKeeps(View(), name, true);
      FindlMeans(table, name, 0);
      table := table[num := table[num].(toBeDeleted := true)];
    }
  }
}
