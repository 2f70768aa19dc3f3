/**
 Programs that run into the traps of filesys/oftable.cc and filesys/openfile.cc:
 each is a few calls that any thread may make, and leaves the system in a state
 that the theorems about careful runs exclude.
 */
module Pitfalls {
  import opened Layout
  import opened BitMaps
  import opened DiskImage
  import opened FileHeaders
  import opened OpenFiles
  import opened Directories
  import opened Paths
  import opened FileTree
  import opened FsDisk
  import opened FsSteps
  import opened FileSystemOps
  import opened FileWrites
  import opened PathStability
  import opened OpenFileTables
  import opened OpenFileState
  import opened OpenFileOps
  import opened OpenFileRemoval
  import opened SystemRuns

  // ----- two spellings of one file -----

  /** The same path with a slash in front. */
  function Slashed(name: CString): CString { [SLASH] + name }

  lemma SlashedLeadsThere(d: Disk, name: CString)
    ensures Resolve(d, Slashed(name)) == Resolve(d, name) && Slashed(name) != name
  {
    assert Slashed(name)[1..] == name;
    assert StripSlashes(Slashed(name)) == StripSlashes(name);
    assert Decomp(Slashed(name)) == Decomp(name);
    assert |Slashed(name)| == |name| + 1;
  }

  lemma OnlyThatName(t: Slots, nbentry: int, name: CString, found: Lookup, other: CString)
    requires TableOk(t, nbentry) && nbentry != ERROR && Findl(t, name) == ERROR && found.IsFile?
    requires Findl(t, other) == ERROR && other != name
    ensures var t' := Opened(t, nbentry, name, found);
            && Findl(t', other) == ERROR && Findl(t', name) == nbentry
            && t'[nbentry] == Used(name, found.sector, found.hdr, 1, false)
  {
    FindlMeans(t, name, 0);
    FindlMeans(t, other, 0);
    var e := Used(name, found.sector, found.hdr, 1, false);
    EntryAdded(t, nbentry, e);
    FindlIs(t[nbentry := e], EmptyFrom(t[nbentry := e], 0), nbentry);
    FindlMeans(t[nbentry := e], other, 0);
  }

  /** Opens a file and removes it by another spelling of its name. Remove takes
      the file for closed: it is gone from the disk, its sectors are clear, and
      the entry still counts it as open and present. */
  method OpenThenRemoveSlashed(fs: FileSystem, oft: OpenFileTable, name: CString, ghost g: Fs) returns (r: Status, ghost g': Fs)
    requires SystemOk(fs, oft, g) && ReadyToOpen(oft.table, oft.nbentry, fs.disk.sectors, name)
    requires Findl(oft.table, Slashed(name)) == ERROR
    modifies fs.disk, oft
    ensures r == NoError && fs.Valid(g') && oft.Valid() && LostOpenFile(oft.table, g', name)
    ensures !SlotsOk(oft.table, fs.disk.sectors, g')
  {
    ghost var d, o := fs.disk.sectors, oft.View();
    var ok, found := OpenFileByName(fs, oft, name, g);
    ghost var o1 := oft.View();
    r := RemoveFileByName(fs, oft, Slashed(name), g);
    g' := RemovedFs(o1.table, d, g, Slashed(name));
    SlashedOutcome(o, o1, oft.View(), d, g, fs.disk.sectors, name, r);
    LostIsWrong(oft.table, fs.disk.sectors, g', name);
  }

  lemma SlashedOutcome(o: Oft, o1: Oft, o2: Oft, d: Disk, g: Fs, d': Disk, name: CString, r: Status)
    requires Inv(o) && FsInv(d, g) && ReadyToOpen(o.table, o.nbentry, d, name) && Findl(o.table, Slashed(name)) == ERROR
    requires Inv(o1) && o1 == Next(o, Event.Open(name, LookupAt(d, name)))
    requires o2 == Next(o1, Event.Remove(Slashed(name), Resolve(d, Slashed(name)) != ERROR))
    requires RemoveDone(o1.table, d, d', Slashed(name), r)
    ensures r == NoError && LostOpenFile(o2.table, RemovedFs(o1.table, d, g, Slashed(name)), name)
  {
    SlashedIsLost(o, o1.table, d, g, name, LookupAt(d, name));
    UnlistedStays(o1, Slashed(name), Resolve(d, Slashed(name)) != ERROR);
  }

  lemma UnlistedStays(o: Oft, name: CString, present: bool)
    requires Inv(o) && Findl(o.table, name) == ERROR
    ensures Next(o, Event.Remove(name, present)) == o
  {
  }

  /** The entry stands for a file that is not there any more. */
  ghost predicate LostOpenFile(t: Slots, g: Fs, name: CString) {
    var i := Findl(t, name);
    i != ERROR && t[i].Used? && !t[i].toBeDeleted && t[i].sector !in g.nodes
  }

  lemma SlashedIsLost(o: Oft, t1: Slots, d: Disk, g: Fs, name: CString, found: Lookup)
    requires Inv(o) && FsInv(d, g) && ReadyToOpen(o.table, o.nbentry, d, name) && Findl(o.table, Slashed(name)) == ERROR
    requires found == LookupAt(d, name) && t1 == Opened(o.table, o.nbentry, name, found)
    ensures Resolve(d, Slashed(name)) != ERROR && Findl(t1, Slashed(name)) == ERROR
    ensures StatusOf(d, Op.Remove(Slashed(name))) == NoError
    ensures LostOpenFile(t1, RemovedFs(t1, d, g, Slashed(name)), name)
  {
    SlashedLeadsThere(d, name);
    OnlyThatName(o.table, o.nbentry, name, found, Slashed(name));
    ResolveIsNode(d, g, name);
    RemoveStatusIs(d, g, Slashed(name));
    RemoveTargetIs(d, g, Slashed(name));
  }

  lemma LostIsWrong(t: Slots, d: Disk, g: Fs, name: CString)
    requires LostOpenFile(t, g, name)
    ensures !SlotsOk(t, d, g)
  {
    if SlotsOk(t, d, g) {
      SlotsOkAt(t, d, g, Findl(t, name));
    }
  }

  // ----- a write for which there is no room -----

  lemma NoRoomFor(m: set<int>, h: Header, end: int)
    requires Exact(h) && end == Span(|h.data| + NumClearOf(m, NUM_SECTORS)) + 1 <= MAX_FILE_LENGTH
    ensures Span(|h.data|) < end && !CanGrow(m, h, end)
  {
    var k := |h.data| + NumClearOf(m, NUM_SECTORS);
    if |h.data| < k {
      TimesMono(|h.data|, k, SECTOR_SIZE);
    }
    MoreSectors(k, end);
  }

  lemma RefusedIsBroken(d: Disk, d': Disk, s: int, w: Request, n: int)
    requires WritesTo(d, w, n, d', s) && WellFormed(s, w.before) && Refused(d, w.before, w.mapHdr, w.position, |w.bytes|)
    ensures !WellFormed(s, w.after)
  {
    StepIsOutcome(d, w, n, d', s);
    UsableIffNotRefused(d, d', s, w.before, w.after, w.mapHdr, w.position, w.bytes, n);
  }

  method CountClear(fs: FileSystem, ghost g: Fs) returns (clear: nat)
    requires fs.Valid(g)
    ensures clear == NumClearOf(MarksAt(fs.disk.sectors), NUM_SECTORS)
  {
    MapFileReady(fs, g);
    var freeMap := FetchMap(fs.disk, fs.freeMapFile);
    clear := freeMap.NumClear();
  }

  lemma TooMuch(d: Disk, g: Fs, s: int, h: Header, end: int)
    requires FsInv(d, g) && ExactChains(g) && s in g.nodes && IsOpenAt(d, s, h) && h.numBytes > 0
    requires |h.data| + NumClearOf(MarksAt(d), NUM_SECTORS) < MAX_DATA_SECTORS
    requires end == Span(|h.data| + NumClearOf(MarksAt(d), NUM_SECTORS)) + 1
    ensures h.numBytes < end && Writable(d, h, h.numBytes, end - h.numBytes)
    ensures Refused(d, h, g.nodes[FREE_MAP_SECTOR], h.numBytes, end - h.numBytes)
  {
    OpenHeaderIs(d, g, s, h);
    assert Exact(g.nodes[s]) && Exact(h);
    TimesMono(|h.data| + NumClearOf(MarksAt(d), NUM_SECTORS), MAX_DATA_SECTORS, SECTOR_SIZE);
    NoRoomFor(MarksAt(d), h, end);
  }

  /** Writes more bytes to the end of a file than the disk has room for. Nothing is
      written, and the open file is left with a header that cannot be used. */
  method WriteTooMuch(fs: FileSystem, file: OpenFile, ghost g: Fs) returns (n: int)
    requires fs.Valid(g) && ExactChains(g) && IsRegular(g, file.fSector)
    requires file.hdr != fs.freeMapFile.hdr && file.hdr != fs.directoryFile.hdr
    requires file.hdr.Sized() && IsOpenAt(fs.disk.sectors, file.fSector, file.hdr.View()) && file.hdr.numBytes > 0
    requires |file.hdr.View().data| + NumClearOf(MarksAt(fs.disk.sectors), NUM_SECTORS) < MAX_DATA_SECTORS
    modifies fs.disk, file.hdr
    ensures file.hdr.Sized() && !WellFormed(file.fSector, file.hdr.View())
  {
    ghost var d, h := fs.disk.sectors, file.hdr.View();
    var clear := CountClear(fs, g);
    var end := Span(file.hdr.numSectors + clear) + 1;
    TooMuch(d, g, file.fSector, h, end);
    ghost var w;
    n, w := WriteToFile(fs, file, seq(end - file.hdr.numBytes, _ => 0), file.hdr.numBytes, g);
    RefusedIsBroken(d, fs.disk.sectors, file.fSector, w, n);
  }

  // ----- a file that grows, is removed and closed -----

  /** One thread has the file open, it has its name, and it has more sectors than
      when it was opened. */
  ghost predicate Outgrown(t: Slots, g: Fs, name: CString) {
    var i := Findl(t, name);
    i != ERROR && t[i].Used? && !t[i].toBeDeleted && t[i].numthread == 1 && !Current(t[i], g)
  }

  /** An open file that has its name may be removed by that name. */
  lemma MayRemove(a: Sys, g: Fs, name: CString)
    requires SysInv(a, g) && Outgrown(a.o.table, g, name)
    ensures Careful(a, RemoveName(name, NoError)) && Resolve(a.d, name) != ERROR
  {
    var t, i := a.o.table, Findl(a.o.table, name);
    SlotsOkAt(t, a.d, g, i);
    FindlMeans(t, name, 0);
    ResolveIsNode(a.d, g, name);
    forall j | 0 <= j < |t| && t[j].Used? && t[j].sector == Resolve(a.d, name)
      ensures t[j].name == name
    {
      assert j == i || !SameFile(t[j], t[i]);
    }
    FileIsSafe(t, a.d, name);
  }

  /** After the removal the next close is the last one, and its record is stale. */
  lemma RemovedIsStale(a: Sys, g: Fs, b: Sys, r: Status, name: CString)
    requires SysInv(a, g) && Outgrown(a.o.table, g, name) && Resolve(a.d, name) != ERROR && SysStep(a, RemoveName(name, r), b)
    ensures var e := LastClose(b.o.table, name); e.Used? && e.toBeDeleted && !Current(e, NextSys(a, g, RemoveName(name, r)))
  {
    LastAfterRemove(a.o, name);
    UnlinkedIs(a.d, g, name);
  }

  lemma LastAfterRemove(o: Oft, name: CString)
    requires Inv(o) && Findl(o.table, name) != ERROR && o.table[Findl(o.table, name)].Used?
    requires o.table[Findl(o.table, name)].numthread == 1
    ensures LastClose(Next(o, Event.Remove(name, true)).table, name) == o.table[Findl(o.table, name)].(toBeDeleted := true)
  {
    FindlMeans(o.table, name, 0);
    RemoveKeeps(o, name, true);
    FindlIs(Next(o, Event.Remove(name, true)).table, o.nbentry, Findl(o.table, name));
  }

  /** Removes and closes such a file. Whatever file system the disk may hold now,
      it has leaked sectors. */
  method RemoveAndClose(fs: FileSystem, oft: OpenFileTable, name: CString, ghost g: Fs)
    requires SysReady(fs, oft, g) && Outgrown(oft.table, g, name)
    modifies fs.disk, oft
    ensures !exists g' :: FsInv(fs.disk.sectors, g') && NoLeak(oft.table, g')
  {
    ghost var a := State(fs, oft);
    MayRemove(a, g, name);
    var r := DoRemove(fs, oft, name, g);
    ghost var b, g1 := State(fs, oft), NextSys(a, g, RemoveName(name, r));
    RemovedIsStale(a, g, b, r, name);
    CloseFileByName(fs, oft, name, g1);
    LastCloseIff(b.o.table, b.d, fs.disk.sectors, g1, name);
  }

  /** A write at the end of the file that needs more sectors and gets them. */
  ghost predicate GrowsAtEnd(d: Disk, h: Header, n: nat) {
    && n > 0 && Grows(h, h.numBytes, n) && Writable(d, h, h.numBytes, n)
    && CanGrow(MarksAt(d), h, h.numBytes + n)
  }

  lemma FirstEntry(a: Sys, g: Fs, name: CString)
    requires SysInv(a, g) && ReadyToOpen(a.o.table, a.o.nbentry, a.d, name)
    ensures var s, t' := Resolve(a.d, name), Next(a.o, Event.Open(name, LookupAt(a.d, name))).table;
            && IsRegular(g, s) && WellFormed(s, g.nodes[s]) && Stored(a.d, s, g.nodes[s]) && FetchHeader(a.d, s) == g.nodes[s]
            && Findl(t', name) == a.o.nbentry && t'[a.o.nbentry] == Used(name, s, g.nodes[s], 1, false)
  {
    var s, t := Resolve(a.d, name), a.o.table;
    ResolveIsFile(a.d, g, name);
    NodeOnDisk(a.d, g, s);
    FindlMeans(t, name, 0);
    var e := Used(name, s, g.nodes[s], 1, false);
    EntryAdded(t, a.o.nbentry, e);
    FindlIs(t[a.o.nbentry := e], EmptyFrom(t[a.o.nbentry := e], 0), a.o.nbentry);
  }

  lemma GrowsIt(d: Disk, g: Fs, e: Slot, w: Request, n: int, d': Disk)
    requires FsInv(d, g) && e.Used? && e.sector in g.nodes && e.hdr == g.nodes[e.sector] == FetchHeader(d, e.sector)
    requires WritesTo(d, w, n, d', e.sector) && w.before == e.hdr && w.position == e.hdr.numBytes
    requires GrowsAtEnd(d, e.hdr, |w.bytes|)
    ensures !Current(e, WrittenFs(g, e.sector, w))
  {
    assert WritePart(d, w, n, d', e.sector, InMemory) && WritePart(d, w, n, d', e.sector, Growth);
    StaysCurrentIff(e, d, g, w, n, d');
  }

  /** Opens a file and writes so many bytes to its end that it grows. */
  method OpenAndGrow(fs: FileSystem, oft: OpenFileTable, name: CString, bytes: seq<byte>, ghost g: Fs) returns (ghost g': Fs)
    requires SysReady(fs, oft, g) && ReadyToOpen(oft.table, oft.nbentry, fs.disk.sectors, name)
    requires GrowsAtEnd(fs.disk.sectors, FetchHeader(fs.disk.sectors, Resolve(fs.disk.sectors, name)), |bytes|)
    modifies fs.disk, oft
    ensures SysReady(fs, oft, g') && Outgrown(oft.table, g', name)
  {
    ghost var a := State(fs, oft);
    FirstEntry(a, g, name);
    var found := LookupFile(fs, name, g);
    var ok := DoOpen(fs, oft, name, g);
    g' := GrowOpened(fs, oft, a.o.nbentry, name, found.sector, bytes, g);
  }

  /** The file of entry i, which has just been opened, is written to. */
  method GrowOpened(fs: FileSystem, oft: OpenFileTable, ghost i: nat, name: CString, s: int, bytes: seq<byte>, ghost g: Fs)
    returns (ghost g': Fs)
    requires SysReady(fs, oft, g) && i < |oft.table| && Findl(oft.table, name) == i && IsRegular(g, s)
    requires oft.table[i] == Used(name, s, g.nodes[s], 1, false) && FetchHeader(fs.disk.sectors, s) == g.nodes[s]
    requires WellFormed(s, g.nodes[s]) && Stored(fs.disk.sectors, s, g.nodes[s]) && GrowsAtEnd(fs.disk.sectors, g.nodes[s], |bytes|)
    modifies fs.disk
    ensures SysReady(fs, oft, g') && Outgrown(oft.table, g', name)
  {
    ghost var d := fs.disk.sectors;
    var file := FileSystemOps.Open(fs.disk, s, g.nodes[s]);
    var n;
    ghost var w;
    n, w := DoWrite(fs, oft, i, file, bytes, file.hdr.numBytes, g);
    g' := WrittenFs(g, s, w);
    GrowsIt(d, g, oft.table[i], w, n, fs.disk.sectors);
  }

  /** The whole program: open, write, remove, close. */
  method GrowRemoveClose(fs: FileSystem, oft: OpenFileTable, name: CString, bytes: seq<byte>, ghost g: Fs)
    requires SysReady(fs, oft, g) && ReadyToOpen(oft.table, oft.nbentry, fs.disk.sectors, name)
    requires GrowsAtEnd(fs.disk.sectors, FetchHeader(fs.disk.sectors, Resolve(fs.disk.sectors, name)), |bytes|)
    modifies fs.disk, oft
    ensures !exists g' :: FsInv(fs.disk.sectors, g') && NoLeak(oft.table, g')
  {
    ghost var g1 := OpenAndGrow(fs, oft, name, bytes, g);
    RemoveAndClose(fs, oft, name, g1);
  }
}
