/**
 Remove, and the operations of the file system, while files are open
 (filesys/oftable.cc): an open file only loses its name. What that does to the
 other open files, and when sectors are lost for good.
 */
module OpenFileRemoval {
  import opened Layout
  import opened BitMaps
  import opened DiskImage
  import opened FileHeaders
  import opened OpenFiles
  import opened Directories
  import opened Paths
  import opened FileTree
  import opened FsDisk
  import opened FsSteps
  import opened FileSystemOps
  import opened DeferredRemoval
  import opened PathStability
  import opened OpenFileTables
  import opened OpenFileState
  import opened OpenFileOps

  // ----- other operations while files are open -----

  /** An operation that does not take away an open file keeps the table correct. */
  lemma StepSlots(t: Slots, d: Disk, g: Fs, op: Op, r: Status, d': Disk)
    requires FsInv(d, g) && SlotsOk(t, d, g) && ValidOp(op) && Step(d, op, r, d') && NotOpen(t, TargetOf(d, op))
    ensures SlotsOk(t, d', NextFs(d, g, op))
  {
    StepTouches(d, g, op, r, d');
    StepPersists(d, g, op);
    StepKeepsLookups(d, g, op);
    SlotsKept(t, d, g, d', NextFs(d, g, op), TargetOf(d, op));
  }

  /** Create, Mkdir and Rmdir never take away an open file. */
  lemma OnlyRemoveCloses(t: Slots, d: Disk, g: Fs, op: Op)
    requires FsInv(d, g) && SlotsOk(t, d, g) && !op.Remove?
    ensures NotOpen(t, TargetOf(d, op))
  {
    forall i | 0 <= i < |t| && t[i].Used?
      ensures t[i].sector != TargetOf(d, op)
    {
      SlotsOkAt(t, d, g, i);
      if TargetOf(d, op) != ERROR {
        RmdirTarget(d, g, op);
      }
    }
  }

  lemma RmdirTarget(d: Disk, g: Fs, op: Op)
    requires FsInv(d, g) && !op.Remove? && TargetOf(d, op) != ERROR
    ensures TargetOf(d, op) in g.tables
  {
    RemovalTarget(d, g, op);
    ResolveIsNode(d, g, op.path);
    TableFetched(d, g, FindDir(d, op.path).sector);
  }

  /** Create, Mkdir and Rmdir while files are open: every entry stays right. */
  method PerformWithOpenFiles(fs: FileSystem, oft: OpenFileTable, op: Op, ghost g: Fs) returns (r: Status)
    requires SystemOk(fs, oft, g) && ValidOp(op) && !op.Remove?
    modifies fs.disk
    ensures Step(old(fs.disk.sectors), op, r, fs.disk.sectors)
    ensures SystemOk(fs, oft, NextFs(old(fs.disk.sectors), g, op))
  {
    ghost var d := fs.disk.sectors;
    OnlyRemoveCloses(oft.table, d, g, op);
    r := PerformStep(fs, op, g);
    StepSlots(oft.table, d, g, op, r, fs.disk.sectors);
  }

  method PerformStep(fs: FileSystem, op: Op, ghost g: Fs) returns (r: Status)
    requires fs.Valid(g) && ValidOp(op)
    modifies fs.disk
    ensures Step(old(fs.disk.sectors), op, r, fs.disk.sectors)
    ensures fs.Valid(NextFs(old(fs.disk.sectors), g, op))
  {
    ghost var d, g' := fs.disk.sectors, g;
    r, g' := fs.Perform(op, g);
    StepTouches(d, g, op, r, fs.disk.sectors);
  }

  // ----- removing the name of an open file -----

  method StoreDirectory(disk: DiskDriver, dirFile: OpenFile, directory: Directory)
    requires dirFile.hdr.Sized() && IsDirHeader(dirFile.hdr.View()) && ValidTable(directory.table)
    modifies disk
    ensures TableOf(disk.sectors, dirFile.hdr.View()) == directory.table
    ensures SameExcept(old(disk.sectors), disk.sectors, SetOf(dirFile.hdr.View().data))
  {
    ghost var d := disk.sectors;
    directory.WriteBack(disk, dirFile);
    OutsideIsExcept(d, disk.sectors, dirFile.hdr.View().data);
  }

  /** Removes a name from a directory on disk. */
  method UnlinkName(disk: DiskDriver, p: int, leaf: CString, ghost ph: Header)
    requires Stored(disk.sectors, p, ph) && WellFormed(p, ph) && IsDirHeader(ph)
    requires ValidTable(Removed(TableOf(disk.sectors, ph), leaf))
    modifies disk
    ensures TableOf(disk.sectors, ph) == Removed(TableOf(old(disk.sectors), ph), leaf)
    ensures SameExcept(old(disk.sectors), disk.sectors, SetOf(ph.data))
  {
    ghost var d := disk.sectors;
    var dirFile, directory := OpenDirectory(disk, p, ph);
    var r := directory.Remove(leaf);
    StoreDirectory(disk, dirFile, directory);
  }

  /** The file system after the entry that a name leads to has been removed. */
  ghost function UnlinkedFs(d: Disk, g: Fs, name: CString): Fs {
    match FindDir(d, name)
    case NotFound => g
    case Found(p, leaf) =>
      if p in g.tables && FileTree.Entry(g, p, FindIndex(g.tables[p], leaf)) then Unlink(g, p, FindIndex(g.tables[p], leaf)) else g
  }

  /** The entry that a name leads to, in terms of the abstract file system. */
  lemma NamedEntry(d: Disk, g: Fs, name: CString)
    requires FsInv(d, g) && Resolve(d, name) != ERROR
    ensures FindDir(d, name).Found?
    ensures var Found(p, leaf) := FindDir(d, name);
            && p in g.tables && p in g.nodes && FileTree.Entry(g, p, FindIndex(g.tables[p], leaf))
            && Target(g, p, FindIndex(g.tables[p], leaf)) == Resolve(d, name) == FindSector(g.tables[p], leaf)
            && UnlinkedFs(d, g, name) == Unlink(g, p, FindIndex(g.tables[p], leaf))
  {
    FindDirIsDirectory(d, g, ROOT_SECTOR, name);
    var Found(p, leaf) := FindDir(d, name);
    TableFetched(d, g, p);
    LookupIsNode(d, g, p, leaf);
  }

  /** The file stays with all its sectors, but has no name. */
  lemma UnlinkedIs(d: Disk, g: Fs, name: CString)
    requires FsInv(d, g) && Resolve(d, name) != ERROR
    ensures var g' := UnlinkedFs(d, g, name);
            && g'.nodes == g.nodes && g'.marks == g.marks && g'.roots == g.roots + {Resolve(d, name)}
            && g'.tables.Keys == g.tables.Keys
  {
    NamedEntry(d, g, name);
  }

  lemma EntryRemoved(d: Disk, d': Disk, g: Fs, name: CString, p: int, leaf: CString)
    requires FsInv(d, g) && FindDir(d, name) == Found(p, leaf) && Resolve(d, name) != ERROR && p in g.nodes
    requires SameExcept(d, d', SetOf(g.nodes[p].data))
    requires TableOf(d', g.nodes[p]) == Removed(TableOf(d, g.nodes[p]), leaf)
    ensures FsInv(d', UnlinkedFs(d, g, name)) && FetchHeader(d, p) == g.nodes[p]
  {
    NamedEntry(d, g, name);
    NodeOnDisk(d, g, p);
    UnlinkOnDisk(d, d', g, p, FindIndex(g.tables[p], leaf));
  }

  lemma EntryReady(d: Disk, g: Fs, name: CString, p: int, leaf: CString)
    requires FsInv(d, g) && FindDir(d, name) == Found(p, leaf) && Resolve(d, name) != ERROR
    ensures p in g.nodes && Stored(d, p, g.nodes[p]) && WellFormed(p, g.nodes[p]) && IsDirHeader(g.nodes[p])
    ensures ValidTable(Removed(TableOf(d, g.nodes[p]), leaf))
  {
    NamedEntry(d, g, name);
    NodeOnDisk(d, g, p);
    RemovedValid(g.tables[p], leaf);
  }

  method UnlinkFile(fs: FileSystem, name: CString, p: int, leaf: CString, ghost g: Fs)
    requires fs.Valid(g) && FindDir(fs.disk.sectors, name) == Found(p, leaf) && Resolve(fs.disk.sectors, name) != ERROR
    modifies fs.disk
    ensures fs.Valid(UnlinkedFs(old(fs.disk.sectors), g, name)) && NameRemoved(old(fs.disk.sectors), fs.disk.sectors, name)
  {
    ghost var d := fs.disk.sectors;
    EntryReady(d, g, name, p, leaf);
    UnlinkName(fs.disk, p, leaf, g.nodes[p]);
    EntryRemoved(d, fs.disk.sectors, g, name, p, leaf);
    UnlinkedIs(d, g, name);
  }

  // ----- Remove -----

  /** Finds the directory and the entry of a name; no directory means no file. */
  method FindTarget(fs: FileSystem, name: CString, ghost g: Fs) returns (p: int, leaf: CString)
    requires fs.Valid(g)
    ensures p == ERROR <==> Resolve(fs.disk.sectors, name) == ERROR
    ensures p != ERROR ==> FindDir(fs.disk.sectors, name) == Found(p, leaf)
  {
    ghost var d := fs.disk.sectors;
    p, leaf := fs.FindDir(name, g);
    if p != ERROR {
      TargetReady(d, g, p, leaf);
      NodeFetched(d, g, p);
      var found := LookupIn(fs.disk, p, leaf, g.nodes[p]);
      p := if found.Missing? then ERROR else p;
    }
  }

  /** What Remove does to the disk. A name with no file is an error that changes
      nothing; an open file only loses its name; a closed one goes away. */
  ghost predicate RemoveDone(t: Slots, d: Disk, d': Disk, name: CString, r: Status) {
    if Resolve(d, name) == ERROR then r == InexistFile && d' == d
    else if Findl(t, name) != ERROR then r == NoError && NameRemoved(d, d', name)
    else Step(d, Op.Remove(name), r, d')
  }

  /** Only the directory of the name has changed, and it has lost the name. */
  ghost predicate NameRemoved(d: Disk, d': Disk, name: CString) {
    match FindDir(d, name)
    case NotFound => false
    case Found(p, leaf) =>
      var ph := FetchHeader(d, p);
      SameExcept(d, d', SetOf(ph.data)) && TableOf(d', ph) == Removed(TableOf(d, ph), leaf)
  }

  ghost function RemovedFs(t: Slots, d: Disk, g: Fs, name: CString): Fs {
    if Resolve(d, name) == ERROR then g
    else if Findl(t, name) != ERROR then UnlinkedFs(d, g, name)
    else NextFs(d, g, Op.Remove(name))
  }

  /** Removes a file by name, whatever is open under whatever names. */
  method RemoveFileByName(fs: FileSystem, oft: OpenFileTable, name: CString, ghost g: Fs) returns (r: Status)
    requires fs.Valid(g) && oft.Valid()
    modifies fs.disk, oft
    ensures oft.Valid() && oft.View() == Next(old(oft.View()), Event.Remove(name, Resolve(old(fs.disk.sectors), name) != ERROR))
    ensures RemoveDone(old(oft.table), old(fs.disk.sectors), fs.disk.sectors, name, r)
    ensures fs.Valid(RemovedFs(old(oft.table), old(fs.disk.sectors), g, name))
  {
    var p, leaf := FindTarget(fs, name, g);
    if p == ERROR {
      return InexistFile;
    }
    var num := CondemnEntry(oft, name);
    r := TakeAway(fs, name, num != ERROR, p, leaf, g);
  }

  method CondemnEntry(oft: OpenFileTable, name: CString) returns (num: int)
    requires oft.Valid()
    modifies oft
    ensures oft.Valid() && num == Findl(old(oft.table), name) && oft.View() == Next(old(oft.View()), Event.Remove(name, true))
  {
    num := oft.FindlLoop(name);
    if num != ERROR {
      oft.MarkDeleted(num, name);
    }
  }

  method TakeAway(fs: FileSystem, name: CString, open: bool, p: int, leaf: CString, ghost g: Fs) returns (r: Status)
    requires fs.Valid(g) && FindDir(fs.disk.sectors, name) == Found(p, leaf) && Resolve(fs.disk.sectors, name) != ERROR
    modifies fs.disk
    ensures open ==> r == NoError && fs.Valid(UnlinkedFs(old(fs.disk.sectors), g, name))
    ensures open ==> NameRemoved(old(fs.disk.sectors), fs.disk.sectors, name)
    ensures !open ==> Step(old(fs.disk.sectors), Op.Remove(name), r, fs.disk.sectors)
    ensures !open ==> fs.Valid(NextFs(old(fs.disk.sectors), g, Op.Remove(name)))
  {
    if open {
      r := NoError;
      UnlinkFile(fs, name, p, leaf, g);
    } else {
      r := PerformStep(fs, Op.Remove(name), g);
    }
  }

  // ----- which entries a removal leaves right -----

  /** No open file that still has a name is reached through the removed one. */
  ghost predicate NothingBelow(t: Slots, d: Disk, name: CString) {
    forall i :: 0 <= i < |t| && t[i].Used? && !t[i].toBeDeleted ==>
                  !PassesThrough(d, ROOT_SECTOR, t[i].name, Resolve(d, name))
  }

  lemma UnlinkedPaths(d: Disk, g: Fs, d': Disk, name: CString, path: CString)
    requires FsInv(d, g) && Resolve(d, name) != ERROR && FsInv(d', UnlinkedFs(d, g, name))
    ensures Resolve(d', path) ==
            if PassesThrough(d, ROOT_SECTOR, path, Resolve(d, name)) || Resolve(d, path) == Resolve(d, name) then ERROR
            else Resolve(d, path)
  {
    NamedEntry(d, g, name);
    var Found(p, leaf) := FindDir(d, name);
    UnlinkedResolve(d, g, d', p, leaf, path);
  }

  /** The file of an entry was removed before, or is neither the unlinked file
      under another name nor below it. */
  ghost predicate StaysRight(e: Slot, d: Disk, name: CString) {
    e.Used? && !e.toBeDeleted ==>
      && (e.sector == Resolve(d, name) ==> e.name == name)
      && !PassesThrough(d, ROOT_SECTOR, e.name, Resolve(d, name))
  }

  lemma UnlinkedSlotIff(e: Slot, d: Disk, g: Fs, d': Disk, name: CString)
    requires FsInv(d, g) && Resolve(d, name) != ERROR && FsInv(d', UnlinkedFs(d, g, name)) && SlotOk(e, d, g)
    requires e.Used? ==> e.name != name
    ensures SlotOk(e, d', UnlinkedFs(d, g, name)) <==> StaysRight(e, d, name)
  {
    if e.Used? {
      UnlinkedIs(d, g, name);
      UnlinkedPaths(d, g, d', name, e.name);
      var s := Resolve(d, name);
      StandsAfter(e, g, UnlinkedFs(d, g, name), s, Resolve(d, e.name), PassesThrough(d, ROOT_SECTOR, e.name, s));
    }
  }

  lemma StandsAfter(e: Slot, g: Fs, g': Fs, s: int, target: int, through: bool)
    requires e.Used? && StandsFor(e, g, target) && s != ERROR
    requires g'.nodes == g.nodes && g'.tables.Keys == g.tables.Keys && g'.roots == g.roots + {s}
    ensures StandsFor(e, g', if through || target == s then ERROR else target) <==> e.toBeDeleted || (e.sector != s && !through)
  {
  }

  lemma CondemnedSlotOk(e: Slot, d: Disk, g: Fs, d': Disk, name: CString)
    requires FsInv(d, g) && Resolve(d, name) != ERROR && SlotOk(e, d, g) && e.Used? && e.name == name
    ensures SlotOk(e.(toBeDeleted := true), d', UnlinkedFs(d, g, name)) && StaysRight(e, d, name)
  {
    UnlinkedIs(d, g, name);
    if !e.toBeDeleted && PassesThrough(d, ROOT_SECTOR, name, Resolve(d, name)) {
      ThroughDirectory(d, ROOT_SECTOR, name, Resolve(d, name));
      ResolveIsNode(d, g, name);
    }
  }

  lemma OthersAt(t: Slots, nbentry: int, name: CString, j: int)
    requires TableOk(t, nbentry) && Findl(t, name) != ERROR && 0 <= j < |t|
    ensures |RemovedSlots(t, name)| == |t|
    ensures if j == Findl(t, name) then t[j].Used? && t[j].name == name && RemovedSlots(t, name)[j] == t[j].(toBeDeleted := true)
            else RemovedSlots(t, name)[j] == t[j] && (t[j].Used? ==> t[j].name != name)
  {
    FindlMeans(t, name, 0);
    assert j != Findl(t, name) ==> !SameName(t[j], t[Findl(t, name)]);
  }

  lemma CondemnedNotTarget(t: Slots, d: Disk, g: Fs, name: CString)
    requires FsInv(d, g) && SlotsOk(t, d, g)
    ensures forall i :: 0 <= i < |t| && t[i].Used? && t[i].sector == Resolve(d, name) ==> !t[i].toBeDeleted && !IsDirAt(d, t[i].sector)
  {
    SlotsOkMeans(t, d, g);
    if Resolve(d, name) != ERROR {
      ResolveIsNode(d, g, name);
    }
  }

  lemma AllStayRight(t: Slots, d: Disk, name: CString)
    requires forall i :: 0 <= i < |t| && t[i].Used? && t[i].sector == Resolve(d, name) ==> !t[i].toBeDeleted
    ensures (forall j :: 0 <= j < |t| ==> StaysRight(t[j], d, name)) <==> OneSpelling(t, d, name) && NothingBelow(t, d, name)
  {
    if forall j :: 0 <= j < |t| ==> StaysRight(t[j], d, name) {
      assert forall j :: 0 <= j < |t| && t[j].Used? && t[j].sector == Resolve(d, name) ==> StaysRight(t[j], d, name);
    }
  }

  /** After the removal of an open file the entries are right exactly when no
      file was open under another name and nothing open is below the name. */
  lemma UnlinkedSlotsIff(t: Slots, nbentry: int, d: Disk, g: Fs, d': Disk, name: CString)
    requires TableOk(t, nbentry) && SlotsOk(t, d, g) && Findl(t, name) != ERROR
    requires FsInv(d, g) && Resolve(d, name) != ERROR && FsInv(d', UnlinkedFs(d, g, name))
    ensures SlotsOk(RemovedSlots(t, name), d', UnlinkedFs(d, g, name)) <==> OneSpelling(t, d, name) && NothingBelow(t, d, name)
  {
    var t', g' := RemovedSlots(t, name), UnlinkedFs(d, g, name);
    SlotsOkMeans(t, d, g);
    SlotsOkMeans(t', d', g');
    CondemnedNotTarget(t, d, g, name);
    AllStayRight(t, d, name);
    forall j | 0 <= j < |t|
      ensures |t'| == |t| && (SlotOk(t'[j], d', g') <==> StaysRight(t[j], d, name))
    {
      OthersAt(t, nbentry, name, j);
      if j == Findl(t, name) {
        CondemnedSlotOk(t[j], d, g, d', name);
      } else {
        UnlinkedSlotIff(t[j], d, g, d', name);
      }
    }
  }

  /** A name that is not in the table: one spelling means that its file is not open. */
  lemma NotInTable(t: Slots, d: Disk, name: CString)
    requires Findl(t, name) == ERROR
    ensures OneSpelling(t, d, name) <==> NotOpen(t, Resolve(d, name))
  {
    FindlMeans(t, name, 0);
  }

  /** Remove fails on directories. */
  lemma RemoveStatusIs(d: Disk, g: Fs, name: CString)
    requires FsInv(d, g) && Resolve(d, name) != ERROR
    ensures StatusOf(d, Op.Remove(name)) == NoError <==> Resolve(d, name) !in g.tables
  {
    ResolveIsNode(d, g, name);
  }

  lemma RemoveTargetIs(d: Disk, g: Fs, name: CString)
    requires FsInv(d, g) && Resolve(d, name) != ERROR && Resolve(d, name) !in g.tables
    ensures TargetOf(d, Op.Remove(name)) == Resolve(d, name) && Resolve(d, name) !in NextFs(d, g, Op.Remove(name)).nodes
  {
    FsInvIs(d, g);
    RemoveStatusIs(d, g, name);
    NamedEntry(d, g, name);
    RemovalNext(d, g, Op.Remove(name));
    var Found(p, leaf) := FindDir(d, name);
    RemoveResultIs(g, p, leaf);
  }

  /** The same for a removal that finds no entry of that name. */
  lemma ClosedRemovalIff(t: Slots, d: Disk, g: Fs, d': Disk, name: CString, r: Status)
    requires SlotsOk(t, d, g) && Findl(t, name) == ERROR && FsInv(d, g) && Resolve(d, name) != ERROR
    requires Step(d, Op.Remove(name), r, d')
    ensures SlotsOk(t, d', NextFs(d, g, Op.Remove(name))) <==> OneSpelling(t, d, name)
  {
    var op := Op.Remove(name);
    NotInTable(t, d, name);
    RemoveStatusIs(d, g, name);
    if Resolve(d, name) in g.tables {
      SlotsOkMeans(t, d, g);
    } else {
      RemoveTargetIs(d, g, name);
      if NotOpen(t, Resolve(d, name)) {
        StepSlots(t, d, g, op, r, d');
      }
      SlotsOkMeans(t, d', NextFs(d, g, op));
    }
  }

  /** What must hold before a Remove so that every entry is right after it. */
  ghost predicate SafeToRemove(t: Slots, d: Disk, name: CString) {
    Resolve(d, name) == ERROR || (OneSpelling(t, d, name) && (Findl(t, name) != ERROR ==> NothingBelow(t, d, name)))
  }

  /** Remove leaves every entry of the table right if and only if the file is not
      open under another spelling, and no open file is below a directory that
      has taken over the name of a removed file. */
  lemma RemoveKeepsSlotsIff(t: Slots, nbentry: int, d: Disk, g: Fs, d': Disk, name: CString, r: Status)
    requires TableOk(t, nbentry) && SlotsOk(t, d, g) && FsInv(d, g) && RemoveDone(t, d, d', name, r)
    requires FsInv(d', RemovedFs(t, d, g, name))
    ensures var t' := if Resolve(d, name) == ERROR then t else RemovedSlots(t, name);
            SlotsOk(t', d', RemovedFs(t, d, g, name)) <==> SafeToRemove(t, d, name)
  {
    if Resolve(d, name) != ERROR {
      if Findl(t, name) != ERROR {
        UnlinkedSlotsIff(t, nbentry, d, g, d', name);
      } else {
        ClosedRemovalIff(t, d, g, d', name, r);
      }
    }
  }

  // ----- sectors that are lost for good -----

  lemma CondemnedAwaits(t: Slots, num: int, s: int)
    requires 0 <= num < |t| && t[num].Used?
    ensures Awaits(Condemned(t, num), s) <==> Awaits(t, s) || s == t[num].sector
  {
    var t' := Condemned(t, num);
    if Awaits(t, s) {
      var j :| 0 <= j < |t| && t[j].Used? && t[j].toBeDeleted && t[j].sector == s;
      assert t'[j].Used? && t'[j].toBeDeleted && t'[j].sector == s;
    }
    if s == t[num].sector {
      assert t'[num].Used? && t'[num].toBeDeleted && t'[num].sector == s;
    }
  }

  /** Which files the entries wait for after an open file has lost its name. */
  lemma RemovedAwaits(t: Slots, d: Disk, g: Fs, name: CString, x: int)
    requires FsInv(d, g) && SlotsOk(t, d, g) && Findl(t, name) != ERROR && Resolve(d, name) != ERROR
    ensures var e := t[Findl(t, name)];
            && e.Used? && (Awaits(RemovedSlots(t, name), x) <==> Awaits(t, x) || (x == Resolve(d, name) && !e.toBeDeleted))
  {
    var num := Findl(t, name);
    FindlMeans(t, name, 0);
    SlotsOkAt(t, d, g, num);
    CondemnedAwaits(t, num, x);
  }

  lemma NamedIsNotAwaited(t: Slots, d: Disk, g: Fs, name: CString)
    requires FsInv(d, g) && SlotsOk(t, d, g) && Resolve(d, name) != ERROR
    ensures !Awaits(t, Resolve(d, name)) && Resolve(d, name) > ROOT_SECTOR
  {
    ResolveIsFile(d, g, name);
    AwaitedAreRoots(t, d, g);
  }

  /** Removing an open file leaks its sectors exactly when the entry found under
      its name still stands for an earlier file of that name, removed before. */
  lemma RemoveLeaksIff(t: Slots, d: Disk, g: Fs, name: CString)
    requires FsInv(d, g) && SlotsOk(t, d, g) && NoLeak(t, g) && Findl(t, name) != ERROR && Resolve(d, name) != ERROR
    ensures var e := t[Findl(t, name)];
            e.Used? && (NoLeak(RemovedSlots(t, name), UnlinkedFs(d, g, name)) <==> !e.toBeDeleted)
  {
    UnlinkedIs(d, g, name);
    NamedIsNotAwaited(t, d, g, name);
    forall x
      ensures var e := t[Findl(t, name)];
              && e.Used? && (Awaits(RemovedSlots(t, name), x) <==> Awaits(t, x) || (x == Resolve(d, name) && !e.toBeDeleted))
    {
      RemovedAwaits(t, d, g, name, x);
    }
    LeaksIff(t, RemovedSlots(t, name), g, UnlinkedFs(d, g, name), Resolve(d, name), t[Findl(t, name)].toBeDeleted);
  }

  lemma LeaksIff(t: Slots, t': Slots, g: Fs, g': Fs, s: int, condemned: bool)
    requires NoLeak(t, g) && g'.roots == g.roots + {s} && !Awaits(t, s) && s > ROOT_SECTOR
    requires forall x :: Awaits(t', x) <==> Awaits(t, x) || (x == s && !condemned)
    ensures NoLeak(t', g') <==> !condemned
  {
    assert s in g'.roots;
  }

  /** The entry of this name stands for a file that has been removed. */
  ghost predicate IsCondemned(t: Slots, name: CString) {
    var i := Findl(t, name);
    i != ERROR && t[i].Used? && t[i].toBeDeleted
  }

  /** A condemned entry does not wait for a new file of the same name. */
  lemma SecondRemoveLeaks(o: Oft, o': Oft, d: Disk, g: Fs, name: CString)
    requires Inv(o) && FsInv(d, g) && SlotsOk(o.table, d, g) && IsCondemned(o.table, name) && Resolve(d, name) != ERROR
    requires o' == Next(o, Event.Remove(name, Resolve(d, name) != ERROR))
    ensures !NoLeak(o'.table, UnlinkedFs(d, g, name))
  {
    UnlinkedIs(d, g, name);
    NamedIsNotAwaited(o.table, d, g, name);
    RemovedAwaits(o.table, d, g, name, Resolve(d, name));
    NotAwaitedLeaks(o'.table, UnlinkedFs(d, g, name), Resolve(d, name));
  }

  lemma NotAwaitedLeaks(t: Slots, g: Fs, s: int)
    requires !Awaits(t, s) && s in g.roots && s > ROOT_SECTOR
    ensures !NoLeak(t, g)
  {
  }

  // ----- a run that leaks -----

  /** The disk has room for another file. */
  predicate HasRoom(d: Disk, size: int) { NewSector(d) != ERROR && CanAllocate(MarksAt(d) + {NewSector(d)}, size) }

  lemma RemovedHasSlot(t: Table, leaf: CString)
    requires ValidTable(t) && FindIndex(t, leaf) != ERROR
    ensures AddStatus(Removed(t, leaf), leaf) == NoError && FindSector(Removed(t, leaf), leaf) == ERROR
  {
    var t', i := Removed(t, leaf), FindIndex(t, leaf);
    RemovedValid(t, leaf);
    FindMeans(t', leaf);
    var r := FindIndex(t', leaf);
    if r != ERROR {
      assert t'[r].inUse && r != i && t'[r] == t[r];
      FindIsUnique(t, leaf, r);
    }
    FreeFromMeans(t', 0);
    assert !t'[i].inUse;
  }

  /** After an unlink, the directory is found again and has room for the name. */
  lemma NameIsFree(d: Disk, g: Fs, d': Disk, name: CString)
    requires FsInv(d, g) && Resolve(d, name) != ERROR && !IsDirAt(d, Resolve(d, name)) && FsInv(d', UnlinkedFs(d, g, name))
    ensures FindDir(d', name).Found?
    ensures var Found(p, leaf) := FindDir(d', name);
            AddStatus(TableAt(d', p), leaf) == NoError && FindSector(TableAt(d', p), leaf) == ERROR
  {
    NamedEntry(d, g, name);
    var Found(p, leaf) := FindDir(d, name);
    UnlinkedWalk(d, g, d', p, leaf, name);
    if PassesThrough(d, ROOT_SECTOR, name, Resolve(d, name)) {
      ThroughDirectory(d, ROOT_SECTOR, name, Resolve(d, name));
    }
    TableFetched(d, g, p);
    TableFetched(d', UnlinkedFs(d, g, name), p);
    RemovedHasSlot(g.tables[p], leaf);
  }

  lemma MarksUnchanged(d: Disk, g: Fs, d': Disk, name: CString)
    requires FsInv(d, g) && Resolve(d, name) != ERROR && FsInv(d', UnlinkedFs(d, g, name))
    ensures MarksAt(d') == MarksAt(d)
  {
    FsInvIs(d, g);
    FsInvIs(d', UnlinkedFs(d, g, name));
    UnlinkedIs(d, g, name);
    NodeFetched(d, g, FREE_MAP_SECTOR);
    NodeFetched(d', UnlinkedFs(d, g, name), FREE_MAP_SECTOR);
  }

  /** Once a regular file has lost its name, the name can be used again. */
  lemma CreateAgain(d: Disk, g: Fs, d': Disk, name: CString, size: int)
    requires FsInv(d, g) && Resolve(d, name) != ERROR && !IsDirAt(d, Resolve(d, name)) && FsInv(d', UnlinkedFs(d, g, name))
    ensures StatusOf(d', Op.Create(name, size)) == NoError <==> HasRoom(d, size)
  {
    NameIsFree(d, g, d', name);
    MarksUnchanged(d, g, d', name);
    CreateStatus(d, d', name, size);
  }

  lemma CreateStatus(d: Disk, d': Disk, name: CString, size: int)
    requires FindDir(d', name).Found? && MarksAt(d') == MarksAt(d)
    requires var Found(p, leaf) := FindDir(d', name);
             AddStatus(TableAt(d', p), leaf) == NoError && FindSector(TableAt(d', p), leaf) == ERROR
    ensures StatusOf(d', Op.Create(name, size)) == NoError <==> HasRoom(d, size)
  {
  }

  lemma FirstOpen(t: Slots, nbentry: int, d: Disk, name: CString, found: Lookup)
    requires TableOk(t, nbentry) && Findl(t, name) == ERROR && nbentry != ERROR && found.IsFile? && found == LookupAt(d, name)
    requires OneSpelling(t, d, name)
    ensures var t' := Opened(t, nbentry, name, found);
            Findl(t', name) == nbentry && OneSpelling(t', d, name) && t'[nbentry].Used?
  {
    FindlMeans(t, name, 0);
    var e := Used(name, found.sector, found.hdr, 1, false);
    EntryAdded(t, nbentry, e);
    FindlIs(t[nbentry := e], EmptyFrom(t[nbentry := e], 0), nbentry);
  }

  lemma FoundAgain(t: Slots, nbentry: int, name: CString)
    requires TableOk(t, nbentry) && Findl(t, name) != ERROR
    ensures IsCondemned(RemovedSlots(t, name), name)
  {
    FindlMeans(t, name, 0);
    EntryChanged(t, nbentry, Findl(t, name), t[Findl(t, name)].(toBeDeleted := true));
    FindlIs(RemovedSlots(t, name), nbentry, Findl(t, name));
  }

  lemma FileIsSafe(t: Slots, d: Disk, name: CString)
    requires OneSpelling(t, d, name) && !IsDirAt(d, Resolve(d, name))
    ensures SafeToRemove(t, d, name)
  {
    forall i | 0 <= i < |t| && t[i].Used? && PassesThrough(d, ROOT_SECTOR, t[i].name, Resolve(d, name))
      ensures false
    {
      ThroughDirectory(d, ROOT_SECTOR, t[i].name, Resolve(d, name));
    }
  }

  /** A regular file that is not open, a name that is not in the table, and room
      in the table. */
  ghost predicate ReadyToOpen(t: Slots, nbentry: int, d: Disk, name: CString) {
    nbentry != ERROR && Findl(t, name) == ERROR && OneSpelling(t, d, name) && LookupAt(d, name).IsFile?
  }

  lemma OpenThenRemove(o: Oft, o1: Oft, o2: Oft, d: Disk, g: Fs, d': Disk, name: CString, r: Status)
    requires Inv(o) && ReadyToOpen(o.table, o.nbentry, d, name) && Inv(o1) && o1 == Next(o, Event.Open(name, LookupAt(d, name)))
    requires o2 == Next(o1, Event.Remove(name, Resolve(d, name) != ERROR))
    requires FsInv(d, g) && SlotsOk(o1.table, d, g) && RemoveDone(o1.table, d, d', name, r)
    requires FsInv(d', RemovedFs(o1.table, d, g, name))
    ensures SlotsOk(o2.table, d', UnlinkedFs(d, g, name)) && IsCondemned(o2.table, name)
    ensures RemovedFs(o1.table, d, g, name) == UnlinkedFs(d, g, name)
  {
    FirstOpen(o.table, o.nbentry, d, name, LookupAt(d, name));
    FileIsSafe(o1.table, d, name);
    RemoveKeepsSlotsIff(o1.table, o1.nbentry, d, g, d', name, r);
    FoundAgain(o1.table, o1.nbentry, name);
  }

  /** A thread opens a file, and it is removed. */
  method OpenAndRemove(fs: FileSystem, oft: OpenFileTable, name: CString, ghost g: Fs)
    requires SystemOk(fs, oft, g) && ReadyToOpen(oft.table, oft.nbentry, fs.disk.sectors, name)
    modifies fs.disk, oft
    ensures SystemOk(fs, oft, UnlinkedFs(old(fs.disk.sectors), g, name)) && IsCondemned(oft.table, name)
  {
    ghost var d, o := fs.disk.sectors, oft.View();
    var ok, found := OpenFileByName(fs, oft, name, g);
    ghost var o1 := oft.View();
    var r := RemoveFileByName(fs, oft, name, g);
    OpenThenRemove(o, o1, oft.View(), d, g, fs.disk.sectors, name, r);
  }

  /** Then a file of the same name is created, which works if there is room on
      the disk, and removed as well: no entry will ever free the second file. */
  method LeakByReuse(fs: FileSystem, oft: OpenFileTable, name: CString, size: int, ghost g: Fs) returns (created: Status, ghost g': Fs)
    requires SystemOk(fs, oft, g) && ReadyToOpen(oft.table, oft.nbentry, fs.disk.sectors, name) && ValidOp(Op.Create(name, size))
    modifies fs.disk, oft
    ensures created == NoError <==> HasRoom(old(fs.disk.sectors), size)
    ensures fs.Valid(g') && oft.Valid() && (created == NoError ==> !NoLeak(oft.table, g'))
  {
    ghost var d := fs.disk.sectors;
    FileResolves(d, g, name);
    OpenAndRemove(fs, oft, name, g);
    CreateAgain(d, g, fs.disk.sectors, name, size);
    created, g' := CreateAndRemove(fs, oft, name, size, UnlinkedFs(d, g, name));
  }

  lemma FileResolves(d: Disk, g: Fs, name: CString)
    requires FsInv(d, g) && LookupAt(d, name).IsFile?
    ensures Resolve(d, name) != ERROR && !IsDirAt(d, Resolve(d, name))
  {
  }

  /** Creates a file under a name that is condemned, and removes it. */
  method CreateAndRemove(fs: FileSystem, oft: OpenFileTable, name: CString, size: int, ghost g: Fs) returns (created: Status, ghost g': Fs)
    requires SystemOk(fs, oft, g) && IsCondemned(oft.table, name) && ValidOp(Op.Create(name, size))
    modifies fs.disk, oft
    ensures created == StatusOf(old(fs.disk.sectors), Op.Create(name, size))
    ensures fs.Valid(g') && oft.Valid() && (created == NoError ==> !NoLeak(oft.table, g'))
  {
    ghost var d := fs.disk.sectors;
    created := PerformWithOpenFiles(fs, oft, Op.Create(name, size), g);
    g' := NextFs(d, g, Op.Create(name, size));
    if created == NoError {
      NewFileResolves(d, g, Op.Create(name, size), fs.disk.sectors);
      g' := RemoveCondemned(fs, oft, name, g');
    }
  }

  lemma NewFileResolves(d: Disk, g: Fs, op: Op, d': Disk)
    requires FsInv(d, g) && ValidOp(op) && (op.Create? || op.Mkdir?) && Step(d, op, NoError, d')
    ensures Resolve(d', op.path) != ERROR
  {
    AddedResolves(d, g, op, d');
    AddFound(d, g, op);
  }

  method RemoveCondemned(fs: FileSystem, oft: OpenFileTable, name: CString, ghost g: Fs) returns (ghost g': Fs)
    requires SystemOk(fs, oft, g) && Resolve(fs.disk.sectors, name) != ERROR && IsCondemned(oft.table, name)
    modifies fs.disk, oft
    ensures fs.Valid(g') && oft.Valid() && !NoLeak(oft.table, g')
  {
    ghost var d, o := fs.disk.sectors, oft.View();
    g' := UnlinkedFs(fs.disk.sectors, g, name);
    var r := RemoveFileByName(fs, oft, name, g);
    SecondRemoveLeaks(o, oft.View(), d, g, name);
  }
}
