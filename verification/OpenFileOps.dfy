/**
 Open and Close as system operations: the table of open files together with the
 file system on disk (filesys/oftable.cc). The last close of a file that was
 removed while it was open frees the sectors recorded in its entry.
 */
module OpenFileOps {
  import opened Layout
  import opened BitMaps
  import opened DiskImage
  import opened FileHeaders
  import opened OpenFiles
  import opened Directories
  import opened Paths
  import opened FileTree
  import opened FsDisk
  import opened FsSteps
  import opened FileGrowth
  import opened FileSystemOps
  import opened DeferredRemoval
  import opened PathStability
  import opened OpenFileTables
  import opened OpenFileState

  /** The table, the file system and what the entries say about it are right. */
  ghost predicate SystemOk(fs: FileSystem, oft: OpenFileTable, g: Fs)
    reads fs, fs.disk, fs.freeMapFile.hdr, fs.directoryFile.hdr, oft
  {
    fs.Valid(g) && oft.Valid() && SlotsOk(oft.table, fs.disk.sectors, g)
  }

  // ----- opening -----

  /** Looks the name up in the directory tree and reads the header it leads to. */
  method LookupFile(fs: FileSystem, name: CString, ghost g: Fs) returns (found: Lookup)
    requires fs.Valid(g)
    ensures found == LookupAt(fs.disk.sectors, name)
  {
    ghost var d := fs.disk.sectors;
    var p, leaf := fs.FindDir(name, g);
    if p == ERROR {
      return Missing;
    }
    TargetReady(d, g, p, leaf);
    NodeFetched(d, g, p);
    found := LookupIn(fs.disk, p, leaf, g.nodes[p]);
  }

  method LookupIn(disk: DiskDriver, p: int, leaf: CString, ghost ph: Header) returns (found: Lookup)
    requires TargetOpen(disk.sectors, p, leaf, ph)
    ensures var s := FindSector(TableOf(disk.sectors, ph), leaf);
            found == if s < 0 then Missing else if IsDirAt(disk.sectors, s) then IsDirectory else IsFile(s, FetchHeader(disk.sectors, s))
  {
    var dirFile, directory := OpenDirectory(disk, p, ph);
    var s := directory.Find(leaf);
    if s < 0 {
      return Missing;
    }
    var file := FileSystemOps.Open(disk, s, FetchHeader(disk.sectors, s));
    if file.hdr.isdir == 1 {
      return IsDirectory;
    }
    var h := file.hdr;
    found := IsFile(s, Header(h.isdir, h.numBytes, h.dataSectors[..h.numSectors], h.headerSectors[..h.numHeaderSectors]));
  }

  lemma NewSlotOk(d: Disk, g: Fs, name: CString)
    requires FsInv(d, g)
    ensures var found := LookupAt(d, name); found.IsFile? ==> SlotOk(Used(name, found.sector, found.hdr, 1, false), d, g)
  {
    FsInvIs(d, g);
    if Resolve(d, name) >= 0 {
      ResolveIsFile(d, g, name);
      assert WellFormed(Resolve(d, name), g.nodes[Resolve(d, name)]);
    }
  }

  lemma OpenedSlots(t: Slots, nbentry: int, d: Disk, g: Fs, name: CString, found: Lookup)
    requires TableOk(t, nbentry) && SlotsOk(t, d, g)
    requires found.IsFile? ==> SlotOk(Used(name, found.sector, found.hdr, 1, false), d, g)
    ensures SlotsOk(Opened(t, nbentry, name, found), d, g)
  {
    if CanOpen(t, nbentry, name, found) {
      var i := Findl(t, name);
      if i == ERROR {
        SlotsWith(t, nbentry, Used(name, found.sector, found.hdr, 1, false), d, g);
      } else {
        SlotsOkAt(t, d, g, i);
        SlotsWith(t, i, t[i].(numthread := t[i].numthread + 1), d, g);
      }
    }
  }

  lemma FilesWith(t: Slots, i: int, e: Slot)
    requires FilesDistinct(t) && 0 <= i < |t| && forall j :: 0 <= j < |t| && j != i ==> !SameFile(t[j], e)
    ensures FilesDistinct(t[i := e])
  {
    var t' := t[i := e];
    forall j, k | 0 <= j < |t| && 0 <= k < |t| && j != k
      ensures !SameFile(t'[j], t'[k])
    {
      assert !SameFile(t[j], t[k]);
    }
  }

  /** With one spelling per file, no file is open under two names. */
  lemma OpenedFiles(t: Slots, nbentry: int, d: Disk, name: CString, found: Lookup)
    requires TableOk(t, nbentry) && FilesDistinct(t) && OneSpelling(t, d, name) && found == LookupAt(d, name)
    ensures FilesDistinct(Opened(t, nbentry, name, found))
  {
    if CanOpen(t, nbentry, name, found) {
      var i := Findl(t, name);
      FindlMeans(t, name, 0);
      if i == ERROR {
        FilesWith(t, nbentry, Used(name, found.sector, found.hdr, 1, false));
      } else {
        assert forall j :: 0 <= j < |t| && j != i ==> !SameFile(t[j], t[i]);
        FilesWith(t, i, t[i].(numthread := t[i].numthread + 1));
      }
    }
  }

  lemma OpenEvent(o: Oft, d: Disk, g: Fs, name: CString, found: Lookup)
    requires Inv(o) && FsInv(d, g) && SlotsOk(o.table, d, g) && found == LookupAt(d, name)
    ensures SlotsOk(Next(o, Event.Open(name, found)).table, d, g)
    ensures FilesDistinct(o.table) && OneSpelling(o.table, d, name) ==> FilesDistinct(Next(o, Event.Open(name, found)).table)
  {
    NewSlotOk(d, g, name);
    OpenedSlots(o.table, o.nbentry, d, g, name, found);
    if FilesDistinct(o.table) && OneSpelling(o.table, d, name) {
      OpenedFiles(o.table, o.nbentry, d, name, found);
    }
  }

  /** Opening a file. */
  method OpenFileByName(fs: FileSystem, oft: OpenFileTable, name: CString, ghost g: Fs) returns (ok: bool, found: Lookup)
    requires SystemOk(fs, oft, g)
    modifies oft
    ensures SystemOk(fs, oft, g) && found == LookupAt(fs.disk.sectors, name)
    ensures oft.View() == Next(old(oft.View()), Event.Open(name, found))
    ensures ok == CanOpen(old(oft.table), old(oft.nbentry), name, found)
    ensures FilesDistinct(old(oft.table)) && OneSpelling(old(oft.table), fs.disk.sectors, name) ==> FilesDistinct(oft.table)
  {
    found := LookupFile(fs, name, g);
    ok := OpenEntry(oft, name, found, fs.disk.sectors, g);
  }

  method OpenEntry(oft: OpenFileTable, name: CString, found: Lookup, ghost d: Disk, ghost g: Fs) returns (ok: bool)
    requires oft.Valid() && FsInv(d, g) && SlotsOk(oft.table, d, g) && found == LookupAt(d, name)
    modifies oft
    ensures oft.Valid() && SlotsOk(oft.table, d, g) && oft.View() == Next(old(oft.View()), Event.Open(name, found))
    ensures ok == CanOpen(old(oft.table), old(oft.nbentry), name, found)
    ensures FilesDistinct(old(oft.table)) && OneSpelling(old(oft.table), d, name) ==> FilesDistinct(oft.table)
  {
    OpenEvent(oft.View(), d, g, name, found);
    ok := oft.Open(name, found);
  }

  // ----- closing -----

  /** The file system after a close. */
  ghost function ClosedFs(t: Slots, g: Fs, name: CString): Fs {
    var e := LastClose(t, name);
    if e.Used? && e.toBeDeleted && e.sector in g.nodes then Drop(g, e.sector) else g
  }

  lemma GoneFromTable(t: Slots, name: CString)
    requires FilesDistinct(t) && LastClose(t, name).Used?
    ensures NotOpen(Closed(t, name), LastClose(t, name).sector)
  {
    var i := Findl(t, name);
    assert forall j :: 0 <= j < |t| && j != i ==> !SameFile(t[j], t[i]);
  }

  lemma LastCloseSlots(t: Slots, d: Disk, g: Fs, name: CString)
    requires SlotsOk(t, d, g)
    ensures SlotOk(LastClose(t, name), d, g) && SlotsOk(Closed(t, name), d, g)
  {
    var i := Findl(t, name);
    if i != ERROR {
      SlotsOkAt(t, d, g, i);
      SlotsWith(t, i, Fewer(t[i]), d, g);
    }
  }

  /** Freeing the sectors of the closed file leaves the other open files alone. */
  lemma ClosedSlots(t: Slots, d: Disk, g: Fs, d': Disk, name: CString)
    requires FilesDistinct(t) && SlotsOk(t, d, g) && FsInv(d, g) && FsInv(d', ClosedFs(t, g, name))
    requires ClosedFs(t, g, name) == g ==> d' == d
    ensures SlotsOk(Closed(t, name), d', ClosedFs(t, g, name))
  {
    LastCloseSlots(t, d, g, name);
    var e := LastClose(t, name);
    if e.Used? && e.toBeDeleted {
      GoneFromTable(t, name);
      DropPersists(g, e.sector);
      SlotsKept(Closed(t, name), d, g, d', ClosedFs(t, g, name), e.sector);
    }
  }

  /** The entry's destructor for a condemned file: the sectors recorded when it
      was opened are cleared in the bitmap. */
  method FreeRecorded(disk: DiskDriver, mapFile: OpenFile, sector: int, h: Header)
    requires MapReady(disk, mapFile) && WellFormed(sector, h) && SetOf(Owned(sector, h)) <= MarksAt(disk.sectors)
    modifies disk
    ensures SameExcept(old(disk.sectors), disk.sectors, SetOf(mapFile.hdr.View().data))
    ensures DiskMarks(disk.sectors, mapFile.hdr.View()) == MarksAt(old(disk.sectors)) - SetOf(Owned(sector, h))
  {
    ghost var d, mh := disk.sectors, mapFile.hdr.View();
    var freeMap := FetchMap(disk, mapFile);
    ReleaseRecorded(freeMap, sector, h);
    WriteBackMap(disk, mapFile, freeMap);
    OutsideIsExcept(d, disk.sectors, mh.data);
  }

  method ReleaseRecorded(freeMap: BitMap, sector: int, h: Header)
    requires WellFormed(sector, h) && freeMap.Valid() && freeMap.numBits == NUM_SECTORS
    requires SetOf(Owned(sector, h)) <= freeMap.Marks()
    modifies freeMap
    ensures freeMap.Valid() && freeMap.Marks() == old(freeMap.Marks()) - SetOf(Owned(sector, h))
  {
    HeaderParts(sector, h);
    OwnedIs(sector, h);
    SetOfIs(h.data);
    SetOfIs(h.chain);
    forall k | k in SetOf(h.data)
      ensures k !in SetOf(h.chain)
    {
    }
    FileHeader.ReleaseSectors(freeMap, h.data);
    FileHeader.ReleaseSectors(freeMap, h.chain);
    freeMap.Clear(sector);
  }

  /** What an entry records are sectors of its file. */
  lemma RecordedOwned(e: Slot, d: Disk, g: Fs)
    requires SlotOk(e, d, g) && e.Used?
    ensures e.sector in g.nodes && SetOf(Owned(e.sector, e.hdr)) <= SetOf(Owned(e.sector, g.nodes[e.sector]))
  {
    OlderOwned(e.sector, e.hdr, g.nodes[e.sector]);
  }

  lemma OwnedAreMarked(d: Disk, g: Fs, s: int)
    requires FsInv(d, g) && s in g.nodes
    ensures SetOf(Owned(s, g.nodes[s])) <= MarksAt(d) && MarksAt(d) == g.marks
  {
    FsInvIs(d, g);
    NodeFetched(d, g, FREE_MAP_SECTOR);
    forall k | k in SetOf(Owned(s, g.nodes[s]))
      ensures k in g.marks
    {
      assert Owns(g, s, k);
    }
  }

  /** As long as a file is open, removed or not, grown or not, all its sectors
      stay marked. */
  lemma OpenFileStaysMarked(t: Slots, d: Disk, g: Fs, i: int)
    requires FsInv(d, g) && SlotsOk(t, d, g) && 0 <= i < |t| && t[i].Used?
    ensures t[i].sector in g.nodes && SetOf(Owned(t[i].sector, g.nodes[t[i].sector])) <= MarksAt(d)
    ensures SetOf(Owned(t[i].sector, t[i].hdr)) <= MarksAt(d)
  {
    SlotsOkAt(t, d, g, i);
    RecordedOwned(t[i], d, g);
    OwnedAreMarked(d, g, t[i].sector);
  }

  /** The bitmap of the disk after the sectors in an entry have been cleared. */
  ghost predicate RecordedFreed(d: Disk, d': Disk, e: Slot)
    requires e.Used?
  {
    var mh := FetchHeader(d, FREE_MAP_SECTOR);
    SameExcept(d, d', SetOf(mh.data)) && DiskMarks(d', mh) == MarksAt(d) - SetOf(Owned(e.sector, e.hdr))
  }

  lemma FreedIs(d: Disk, d': Disk, g: Fs, e: Slot)
    requires FsInv(d, g) && e.Used? && RecordedFreed(d, d', e)
    ensures OnlyMapChanged(d, d', g) && DiskMarks(d', g.nodes[FREE_MAP_SECTOR]) == g.marks - SetOf(Owned(e.sector, e.hdr))
  {
    MapFetched(d, g);
  }

  lemma CondemnedCanDrop(d: Disk, g: Fs, e: Slot)
    requires FsInv(d, g) && SlotOk(e, d, g) && e.Used? && e.toBeDeleted
    ensures CanDrop(g, e.sector) && e.sector in g.nodes && WellFormed(e.sector, e.hdr)
    ensures SetOf(Owned(e.sector, e.hdr)) <= MarksAt(d) == g.marks
  {
    RecordedOwned(e, d, g);
    OwnedAreMarked(d, g, e.sector);
  }

  /** If the record is current, the file is gone altogether. */
  lemma CurrentIsDropped(d: Disk, d': Disk, g: Fs, e: Slot)
    requires FsInv(d, g) && SlotOk(e, d, g) && e.Used? && e.toBeDeleted && RecordedFreed(d, d', e) && Current(e, g)
    ensures e.sector in g.nodes && FsInv(d', Drop(g, e.sector))
  {
    FreedIs(d, d', g, e);
    CondemnedCanDrop(d, g, e);
    OwnedIs(e.sector, e.hdr);
    OwnedIs(e.sector, g.nodes[e.sector]);
    DropOnDisk(d, d', g, e.sector);
  }

  lemma MapFileReady(fs: FileSystem, g: Fs)
    requires fs.Valid(g)
    ensures MapReady(fs.disk, fs.freeMapFile) && FREE_MAP_SECTOR in g.nodes
    ensures fs.freeMapFile.hdr.View() == g.nodes[FREE_MAP_SECTOR] && MarksAt(fs.disk.sectors) == g.marks
  {
    NodeOnDisk(fs.disk.sectors, g, FREE_MAP_SECTOR);
  }

  /** The destructor of a condemned entry clears exactly what it recorded. */
  method FreeCondemned(fs: FileSystem, gone: Slot, ghost g: Fs)
    requires fs.Valid(g) && gone.Used? && gone.toBeDeleted && SlotOk(gone, fs.disk.sectors, g)
    modifies fs.disk
    ensures RecordedFreed(old(fs.disk.sectors), fs.disk.sectors, gone)
  {
    ghost var d := fs.disk.sectors;
    CondemnedCanDrop(d, g, gone);
    MapFileReady(fs, g);
    FreeRecorded(fs.disk, fs.freeMapFile, gone.sector, gone.hdr);
  }

  /** What Close does to the disk. */
  ghost predicate CloseDone(t: Slots, d: Disk, d': Disk, name: CString) {
    var e := LastClose(t, name);
    if e.Used? && e.toBeDeleted then RecordedFreed(d, d', e) else d' == d
  }

  /** The file system stays consistent if what is freed is all there is to free. */
  lemma ClosedInv(t: Slots, d: Disk, d': Disk, g: Fs, name: CString)
    requires FsInv(d, g) && SlotsOk(t, d, g) && CloseDone(t, d, d', name)
    requires var e := LastClose(t, name); e.Used? && e.toBeDeleted ==> Current(e, g)
    ensures FsInv(d', ClosedFs(t, g, name))
    ensures FilesDistinct(t) ==> SlotsOk(Closed(t, name), d', ClosedFs(t, g, name))
  {
    LastCloseSlots(t, d, g, name);
    var e := LastClose(t, name);
    if e.Used? && e.toBeDeleted {
      CurrentIsDropped(d, d', g, e);
      if FilesDistinct(t) {
        ClosedSlots(t, d, g, d', name);
      }
    }
  }

  /** Closing a file. The last close of a condemned file clears exactly the
      sectors recorded when it was opened. If those are all its sectors, the file
      system is consistent again, and if the file was open under one name only,
      so are the other entries. */
  method CloseFileByName(fs: FileSystem, oft: OpenFileTable, name: CString, ghost g: Fs)
    requires SystemOk(fs, oft, g)
    modifies oft, fs.disk
    ensures oft.Valid() && oft.View() == Next(old(oft.View()), Event.Close(name))
    ensures CloseDone(old(oft.table), old(fs.disk.sectors), fs.disk.sectors, name)
    ensures var e := LastClose(old(oft.table), name);
            (e.Used? && e.toBeDeleted ==> Current(e, g)) ==>
              && FsInv(fs.disk.sectors, ClosedFs(old(oft.table), g, name))
              && (FilesDistinct(old(oft.table)) ==> SlotsOk(oft.table, fs.disk.sectors, ClosedFs(old(oft.table), g, name)))
  {
    ghost var d, t := fs.disk.sectors, oft.table;
    LastCloseSlots(t, d, g, name);
    var gone := oft.Close(name);
    if gone.Used? && gone.toBeDeleted {
      FreeCondemned(fs, gone, g);
    }
    if gone.Used? && gone.toBeDeleted ==> Current(gone, g) {
      ClosedInv(t, d, fs.disk.sectors, g, name);
    }
  }

  // ----- when the last close frees everything -----

  lemma AwaitedAreRoots(t: Slots, d: Disk, g: Fs)
    requires SlotsOk(t, d, g)
    ensures forall s :: Awaits(t, s) ==> s in g.roots && s > ROOT_SECTOR
  {
    SlotsOkMeans(t, d, g);
  }

  lemma ClosedAwaits(t: Slots, name: CString, s: int)
    requires FilesDistinct(t)
    ensures var e := LastClose(t, name);
            Awaits(Closed(t, name), s) <==> Awaits(t, s) && !(e.Used? && e.sector == s)
  {
    var t', i := Closed(t, name), Findl(t, name);
    if Awaits(t', s) {
      var j :| 0 <= j < |t'| && t'[j].Used? && t'[j].toBeDeleted && t'[j].sector == s;
      assert t[j].Used? && t[j].toBeDeleted && t[j].sector == s;
      assert i != ERROR && j != i ==> !SameFile(t[i], t[j]);
    }
    if Awaits(t, s) {
      var j :| 0 <= j < |t| && t[j].Used? && t[j].toBeDeleted && t[j].sector == s;
      assert t'[j] == if j == i then Fewer(t[i]) else t[j];
    }
  }

  /** A close that drops the file leaves no unnamed file behind. */
  lemma CloseKeepsNoLeak(t: Slots, d: Disk, g: Fs, name: CString)
    requires FilesDistinct(t) && SlotsOk(t, d, g) && NoLeak(t, g)
    ensures NoLeak(Closed(t, name), ClosedFs(t, g, name))
  {
    LastCloseSlots(t, d, g, name);
    var e, g' := LastClose(t, name), ClosedFs(t, g, name);
    forall s | s in g'.roots && s != FREE_MAP_SECTOR && s != ROOT_SECTOR
      ensures Awaits(Closed(t, name), s)
    {
      assert Awaits(t, s);
      ClosedAwaits(t, name, s);
      if e.Used? && e.sector == s {
        assert s in g.roots;
      }
    }
  }

  /** If the file has grown since it was opened, some sector of it is not recorded. */
  lemma UnrecordedSector(e: Slot, d: Disk, g: Fs) returns (k: int)
    requires FsInv(d, g) && SlotOk(e, d, g) && e.Used? && !Current(e, g)
    ensures Owns(g, e.sector, k) && k !in SetOf(Owned(e.sector, e.hdr))
  {
    FsInvIs(d, g);
    assert WellFormed(e.sector, g.nodes[e.sector]);
    k := GrownSector(e.sector, e.hdr, g.nodes[e.sector]);
  }

  /** Without unnamed files left over, no file system on the new disk has the
      closed file any more. */
  lemma ClosedFileIsGone(t: Slots, d: Disk, d': Disk, g: Fs, g': Fs, name: CString, u: int)
    requires FsInv(d, g) && SlotsOk(t, d, g) && FilesDistinct(t) && OnlyMapChanged(d, d', g)
    requires LastClose(t, name).Used? && LastClose(t, name).toBeDeleted
    requires FsInv(d', g') && NoLeak(Closed(t, name), g') && u in g'.nodes
    ensures u in g.nodes && g'.nodes[u] == g.nodes[u] && u != LastClose(t, name).sector
  {
    var s := LastClose(t, name).sector;
    LastCloseSlots(t, d, g, name);
    AwaitedAreRoots(t, d, g);
    forall r | r in g'.roots
      ensures r in g.roots && r != s
    {
      ClosedAwaits(t, name, r);
    }
    MapChangeKeeps(d, d', g);
    NoErrorFile(d, g);
    NoErrorFile(d', g');
    FilesAreOld(d, d', g, g', ERROR, u);
  }

  lemma SameMarks(d: Disk, d': Disk, g: Fs, g': Fs)
    requires FsInv(d, g) && FsInv(d', g') && OnlyMapChanged(d, d', g)
    ensures g'.marks == DiskMarks(d', g.nodes[FREE_MAP_SECTOR])
  {
    FsInvIs(d', g');
    MapChangeKeeps(d, d', g);
    HeaderOfBoth(d, d', g, g', ERROR, FREE_MAP_SECTOR);
  }

  /** A sector that was not recorded stays marked, but belongs to no file. */
  lemma StaleCloseLeaks(t: Slots, d: Disk, d': Disk, g: Fs, g': Fs, name: CString)
    requires FsInv(d, g) && SlotsOk(t, d, g) && FilesDistinct(t)
    requires LastClose(t, name).Used? && LastClose(t, name).toBeDeleted && RecordedFreed(d, d', LastClose(t, name))
    requires FsInv(d', g') && NoLeak(Closed(t, name), g')
    ensures Current(LastClose(t, name), g)
  {
    FsInvIs(d, g);
    FsInvIs(d', g');
    var e := LastClose(t, name);
    LastCloseSlots(t, d, g, name);
    if !Current(e, g) {
      var k := UnrecordedSector(e, d, g);
      FreedIs(d, d', g, e);
      SameMarks(d, d', g, g');
      assert k in g'.marks;
      var u :| Owns(g', u, k);
      ClosedFileIsGone(t, d, d', g, g', name, u);
      assert Owns(g, u, k);
    }
  }

  /** The last close of a removed file leaves a consistent disk without leaked
      files if and only if the sectors recorded when it was opened are the
      sectors it has now, that is, if it has not grown since. */
  lemma LastCloseIff(t: Slots, d: Disk, d': Disk, g: Fs, name: CString)
    requires FsInv(d, g) && SlotsOk(t, d, g) && FilesDistinct(t) && NoLeak(t, g)
    requires LastClose(t, name).Used? && LastClose(t, name).toBeDeleted && CloseDone(t, d, d', name)
    ensures (exists g' :: FsInv(d', g') && NoLeak(Closed(t, name), g')) <==> Current(LastClose(t, name), g)
  {
    if Current(LastClose(t, name), g) {
      ClosedInv(t, d, d', g, name);
      CloseKeepsNoLeak(t, d, g, name);
    }
    if g' :| FsInv(d', g') && NoLeak(Closed(t, name), g') {
      StaleCloseLeaks(t, d, d', g, g', name);
    }
  }
}
