/**
 What the table of open files has to do with the disk (filesys/oftable.cc):
 which file an entry stands for, and what removals, growth and other operations
 leave of that.
 */
module OpenFileState {
  import opened Layout
  import opened DiskImage
  import opened FileHeaders
  import opened Directories
  import opened Paths
  import opened FileTree
  import opened FsDisk
  import opened FsSteps
  import opened FileGrowth
  import opened FileWrites
  import opened PathStability
  import opened OpenFileTables

  /** An entry stands for a regular file and records the sectors that the file
      had when it was opened; since then it may have grown. A removed file has no
      name, any other one is where its name leads. */
  ghost predicate SlotOk(e: Slot, d: Disk, g: Fs) { e.Used? ==> StandsFor(e, g, Resolve(d, e.name)) }

  /** The same, for an entry whose name leads to file `target`. */
  ghost predicate StandsFor(e: Slot, g: Fs, target: int)
    requires e.Used?
  {
    && e.sector in g.nodes && e.sector !in g.tables && e.sector > ROOT_SECTOR && WellFormed(e.sector, e.hdr)
    && e.hdr.data <= g.nodes[e.sector].data && e.hdr.chain <= g.nodes[e.sector].chain
    && (if e.toBeDeleted then e.sector in g.roots else e.sector !in g.roots && target == e.sector)
  }

  ghost predicate SlotsOk(t: Slots, d: Disk, g: Fs) {
    t == [] || (SlotOk(t[|t| - 1], d, g) && SlotsOk(t[..|t| - 1], d, g))
  }

  lemma {:induction false} SlotsOkAt(t: Slots, d: Disk, g: Fs, i: int)
    requires SlotsOk(t, d, g) && 0 <= i < |t|
    ensures SlotOk(t[i], d, g)
  {
    if i < |t| - 1 {
      SlotsOkAt(t[..|t| - 1], d, g, i);
    }
  }

  lemma {:induction false} SlotsOkAll(t: Slots, d: Disk, g: Fs)
    requires forall i :: 0 <= i < |t| ==> SlotOk(t[i], d, g)
    ensures SlotsOk(t, d, g)
  {
    if t != [] {
      var s := t[..|t| - 1];
      forall i | 0 <= i < |s|
        ensures SlotOk(s[i], d, g)
      {
        assert SlotOk(t[i], d, g);
      }
      SlotsOkAll(s, d, g);
    }
  }

  lemma SlotsOkMeans(t: Slots, d: Disk, g: Fs)
    ensures SlotsOk(t, d, g) <==> forall i :: 0 <= i < |t| ==> SlotOk(t[i], d, g)
  {
    if forall i :: 0 <= i < |t| ==> SlotOk(t[i], d, g) {
      SlotsOkAll(t, d, g);
    } else if SlotsOk(t, d, g) {
      var i :| 0 <= i < |t| && !SlotOk(t[i], d, g);
      SlotsOkAt(t, d, g, i);
    }
  }

  lemma SlotsWith(t: Slots, i: int, e: Slot, d: Disk, g: Fs)
    requires SlotsOk(t, d, g) && 0 <= i < |t| && SlotOk(e, d, g)
    ensures SlotsOk(t[i := e], d, g)
  {
    var t' := t[i := e];
    SlotsOkMeans(t, d, g);
    SlotsOkMeans(t', d, g);
    forall j | 0 <= j < |t'|
      ensures SlotOk(t'[j], d, g)
    {
      assert SlotOk(t[j], d, g);
    }
  }

  /** The recorded sectors are all the sectors the file has now. */
  ghost predicate Current(e: Slot, g: Fs) {
    e.Used? && e.sector in g.nodes && e.hdr.data == g.nodes[e.sector].data && e.hdr.chain == g.nodes[e.sector].chain
  }

  /** The file is not in the table under any name. */
  ghost predicate NotOpen(t: Slots, s: int) { forall i :: 0 <= i < |t| && t[i].Used? ==> t[i].sector != s }

  ghost predicate SameFile(a: Slot, b: Slot) { a.Used? && b.Used? && a.sector == b.sector }

  /** No file is open under two names. */
  ghost predicate FilesDistinct(t: Slots) {
    forall i, j {:trigger SameFile(t[i], t[j])} :: 0 <= i < |t| && 0 <= j < |t| && i != j ==> !SameFile(t[i], t[j])
  }

  /** No open file is called by another name: every file is always spelled the same way. */
  ghost predicate OneSpelling(t: Slots, d: Disk, name: CString) {
    forall i :: 0 <= i < |t| && t[i].Used? && t[i].sector == Resolve(d, name) ==> t[i].name == name
  }

  /** Some entry will free file s when it is closed for the last time. */
  ghost predicate Awaits(t: Slots, s: int) { exists i :: 0 <= i < |t| && t[i].Used? && t[i].toBeDeleted && t[i].sector == s }

  /** No file but the open ones hides in the disk without a name. */
  ghost predicate NoLeak(t: Slots, g: Fs) {
    forall s :: s in g.roots ==> s == FREE_MAP_SECTOR || s == ROOT_SECTOR || Awaits(t, s)
  }

  function LookupAt(d: Disk, name: CString): Lookup {
    var s := Resolve(d, name);
    if s < 0 then Missing else if IsDirAt(d, s) then IsDirectory else IsFile(s, FetchHeader(d, s))
  }

  // ----- what a change of the file system leaves to the other files -----

  /** Every file but x is still there, as it was or with more sectors. */
  ghost predicate Persists(g: Fs, g': Fs, x: int) {
    forall s :: s in g.nodes && s != x ==>
                  && s in g'.nodes && g.nodes[s].data <= g'.nodes[s].data && g.nodes[s].chain <= g'.nodes[s].chain
                  && (s in g'.tables <==> s in g.tables) && (s in g'.roots <==> s in g.roots)
  }

  lemma SlotKept(e: Slot, d: Disk, g: Fs, d': Disk, g': Fs, x: int)
    requires SlotOk(e, d, g) && FsInv(d, g) && FsInv(d', g') && Persists(g, g', x) && KeepsLookups(g, g', x)
    requires e.Used? ==> e.sector != x
    ensures SlotOk(e, d', g')
  {
    if e.Used? && !e.toBeDeleted {
      ResolveSame(d, g, d', g', x, e.name);
    }
  }

  lemma ResolveSame(d: Disk, g: Fs, d': Disk, g': Fs, x: int, name: CString)
    requires FsInv(d, g) && FsInv(d', g') && KeepsLookups(g, g', x) && Resolve(d, name) != ERROR && Resolve(d, name) != x
    ensures Resolve(d', name) == Resolve(d, name)
  {
    ResolveKept(d, g, d', g', x, ROOT_SECTOR, name);
  }

  lemma SlotsKept(t: Slots, d: Disk, g: Fs, d': Disk, g': Fs, x: int)
    requires SlotsOk(t, d, g) && FsInv(d, g) && FsInv(d', g') && Persists(g, g', x) && KeepsLookups(g, g', x)
    requires NotOpen(t, x)
    ensures SlotsOk(t, d', g')
  {
    SlotsOkMeans(t, d, g);
    SlotsOkMeans(t, d', g');
    forall i | 0 <= i < |t|
      ensures SlotOk(t[i], d', g')
    {
      SlotKept(t[i], d, g, d', g', x);
    }
  }

  lemma NoNegativeSector(t: Slots, d: Disk, g: Fs)
    requires SlotsOk(t, d, g)
    ensures NotOpen(t, ERROR)
  {
    SlotsOkMeans(t, d, g);
  }

  // ----- how the file system changes -----

  lemma DropPersists(g: Fs, s: int)
    requires CanDrop(g, s) && s in g.nodes
    ensures Persists(g, Drop(g, s), s) && KeepsLookups(g, Drop(g, s), s)
  {
    var g' := Drop(g, s);
    assert forall q, name :: q != s ==> LookIn(g', q, name) == LookIn(g, q, name);
  }

  lemma AddedPersists(g: Fs, g': Fs, s: int, h: Header, p: int, t: Table, x: int)
    requires AddedTo(g, g', s, h, p, t) && p in g.tables && s !in g.nodes
    ensures Persists(g, g', x)
  {
  }

  lemma RemovedPersists(g: Fs, g': Fs, s: int, p: int, t: Table)
    requires RemovedFrom(g, g', s, p, t) && p in g.tables
    ensures Persists(g, g', s)
  {
  }

  lemma StepPersists(d: Disk, g: Fs, op: Op)
    requires FsInv(d, g) && ValidOp(op)
    ensures Persists(g, NextFs(d, g, op), TargetOf(d, op))
  {
    if StatusOf(d, op) != NoError {
      assert NextFs(d, g, op) == g;
    } else if op.Create? || op.Mkdir? {
      AddPersists(d, g, op);
    } else {
      RemovePersists(d, g, op);
    }
  }

  lemma AddPersists(d: Disk, g: Fs, op: Op)
    requires FsInv(d, g) && ValidOp(op) && (op.Create? || op.Mkdir?) && StatusOf(d, op) == NoError
    ensures Persists(g, NextFs(d, g, op), ERROR)
  {
    AddNext(d, g, op);
    var Found(p, leaf) := FindDir(d, op.path);
    var s := NewSector(d);
    AddResultIs(d, g, op, p, leaf);
    AddedPersists(g, NextFs(d, g, op), s, NewHeader(d, op), p, Added(g.tables[p], leaf, s), ERROR);
  }

  lemma RemovePersists(d: Disk, g: Fs, op: Op)
    requires FsInv(d, g) && (op.Remove? || op.Rmdir?) && StatusOf(d, op) == NoError
    ensures Persists(g, NextFs(d, g, op), TargetOf(d, op))
  {
    FsInvIs(d, g);
    RemovalTarget(d, g, op);
    RemovalNext(d, g, op);
    var Found(p, leaf) := FindDir(d, op.path);
    RemoveResultIs(g, p, leaf);
    RemovedPersists(g, NextFs(d, g, op), TargetOf(d, op), p, Removed(g.tables[p], leaf));
  }

  // ----- growth -----

  lemma GrowPersists(g: Fs, s: int, h': Header)
    requires TreeInv(g) && s in g.nodes && g.nodes[s].data <= h'.data && g.nodes[s].chain <= h'.chain
    ensures Persists(g, Grow(g, s, h'), ERROR) && KeepsLookups(g, Grow(g, s, h'), ERROR)
  {
    NoSuchSector(g);
    assert forall q, name :: LookIn(Grow(g, s, h'), q, name) == LookIn(g, q, name);
  }

  lemma GrownPersists(d: Disk, g: Fs, s: int, h': Header)
    requires FsInv(d, g) && s in g.nodes && g.nodes[s].data <= h'.data && g.nodes[s].chain <= h'.chain
    ensures Persists(g, Grow(g, s, h'), ERROR) && KeepsLookups(g, Grow(g, s, h'), ERROR)
  {
    FsInvIs(d, g);
    GrowPersists(g, s, h');
  }

  lemma SamePersists(d: Disk, g: Fs)
    requires FsInv(d, g)
    ensures Persists(g, g, ERROR) && KeepsLookups(g, g, ERROR)
  {
    FsInvIs(d, g);
    NoSuchSector(g);
  }

  lemma WriteLists(d: Disk, g: Fs, w: Request, n: int, d': Disk, s: int)
    requires FsInv(d, g) && s in g.nodes && WritesTo(d, w, n, d', s) && w.grown
    ensures g.nodes[s].data < w.after.data && g.nodes[s].chain <= w.after.chain
  {
    HeadersOf(d, g, w, n, d', s);
    EffectOf(d, w, n, d', s);
    LongerLists(d, d', s, w.before, w.after, w.mapHdr, w.position + |w.bytes|);
  }

  lemma WrittenPersists(d: Disk, g: Fs, s: int, w: Request, n: int, d': Disk)
    requires FsInv(d, g) && s in g.nodes && WritesTo(d, w, n, d', s)
    ensures Persists(g, WrittenFs(g, s, w), ERROR) && KeepsLookups(g, WrittenFs(g, s, w), ERROR)
  {
    if w.grown {
      WriteLists(d, g, w, n, d', s);
      GrownPersists(d, g, s, w.after);
    } else {
      SamePersists(d, g);
    }
  }

  /** A write to a regular file, growing or not, to an open file or not, with a
      name or without, keeps every entry right. */
  lemma WriteKeepsSlots(t: Slots, d: Disk, g: Fs, s: int, w: Request, n: int, d': Disk)
    requires FsInv(d, g) && ExactChains(g) && SlotsOk(t, d, g) && IsRegular(g, s) && WritesTo(d, w, n, d', s)
    ensures FsInv(d', WrittenFs(g, s, w)) && SlotsOk(t, d', WrittenFs(g, s, w))
  {
    WriteKeepsInv(d, g, s, w, n, d');
    WrittenPersists(d, g, s, w, n, d');
    NoNegativeSector(t, d, g);
    SlotsKept(t, d, g, d', WrittenFs(g, s, w), ERROR);
  }

  /** But the record of an open file stays current if and only if the write adds
      no sector. */
  lemma StaysCurrentIff(e: Slot, d: Disk, g: Fs, w: Request, n: int, d': Disk)
    requires FsInv(d, g) && e.Used? && Current(e, g) && WritesTo(d, w, n, d', e.sector)
    ensures Current(e, WrittenFs(g, e.sector, w)) <==> !w.grown
  {
    if w.grown {
      WriteLists(d, g, w, n, d', e.sector);
    }
  }
}
