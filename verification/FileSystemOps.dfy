/**
 The file system object and its operations as they work on in-memory
 directories, bitmaps and headers before flushing them to disk
 (filesys/filesys.cc). Each is shown to be one step of the FsSteps module.
 */
module FileSystemOps {
  import opened Layout
  import opened BitMaps
  import opened DiskImage
  import opened FileHeaders
  import opened OpenFiles
  import opened Directories
  import opened Paths
  import opened FileTree
  import opened FsDisk
  import opened FsSteps

  // ----- what writing some sectors leaves alone -----

  lemma OutsideIsExcept(d: Disk, d': Disk, data: seq<int>)
    requires SameOutside(d, d', data)
    ensures SameExcept(d, d', SetOf(data))
  {
    SetOfIs(data);
  }

  lemma ExceptTrans(d: Disk, d1: Disk, d2: Disk, X: set<int>, Y: set<int>)
    requires SameExcept(d, d1, X) && SameExcept(d1, d2, Y)
    ensures SameExcept(d, d2, X + Y)
  {
  }

  lemma DataApart(d: Disk, d': Disk, X: set<int>, h: Header)
    requires SameExcept(d, d', X) && SetOf(h.data) !! X
    ensures TableOf(d', h) == TableOf(d, h) && DiskMarks(d', h) == DiskMarks(d, h)
  {
    SetOfIs(h.data);
    forall i | 0 <= i < |h.data|
      ensures Rd(d', h.data[i]) == Rd(d, h.data[i])
    {
      assert h.data[i] in h.data;
    }
    FileBytesFrame(d, d', h);
  }

  lemma HeaderApart(d: Disk, d': Disk, X: set<int>, s: int, h: Header)
    requires SameExcept(d, d', X) && HeaderSectors(s, h) !! X && Stored(d, s, h)
    ensures Stored(d', s, h)
  {
    StoredFrame(d, d', s, h);
  }

  // ----- opening files -----

  /** A header object whose tables have not been filled yet. */
  method NewFileHeader(isdir: int) returns (hdr: FileHeader)
    ensures fresh(hdr) && hdr.Valid() && hdr.isdir == isdir
  {
    MaxDataSectors();
    hdr := new FileHeader(isdir, seq(MAX_DATA_SECTORS, _ => 0), seq(MAX_HEADER_SECTORS, _ => 0));
  }

  method Open(disk: DiskDriver, sector: int, ghost h: Header) returns (file: OpenFile)
    requires Stored(disk.sectors, sector, h) && WellFormed(sector, h)
    ensures fresh(file) && fresh(file.hdr) && file.fSector == sector
    ensures file.hdr.Sized() && file.hdr.View() == h
  {
    HeaderParts(sector, h);
    var hdr := NewFileHeader(0);
    hdr.FetchFrom(disk, sector, h);
    file := new OpenFile(hdr, sector);
  }

  method OpenDirectory(disk: DiskDriver, sector: int, ghost h: Header) returns (file: OpenFile, dir: Directory)
    requires Stored(disk.sectors, sector, h) && WellFormed(sector, h) && h.numBytes == DIR_SIZE
    ensures fresh(file) && fresh(file.hdr) && file.fSector == sector && fresh(dir)
    ensures file.hdr.Sized() && file.hdr.View() == h && dir.table == TableOf(disk.sectors, h)
  {
    HeaderParts(sector, h);
    file := Open(disk, sector, h);
    dir := new Directory();
    dir.FetchFrom(disk, file);
  }

  // ----- flushing changes -----

  /** The new file, its parent directory and the bitmap share no sector. */
  ghost predicate Separate(s: int, h: Header, ph: Header, mh: Header) {
    && WellFormed(s, h) && IsDirHeader(ph) && IsMapHeader(mh)
    && SetOf(Owned(s, h)) !! SetOf(ph.data) && SetOf(Owned(s, h)) !! SetOf(mh.data)
    && SetOf(ph.data) !! SetOf(mh.data)
  }

  /** Directory then bitmap are written. */
  method FlushDirAndMap(disk: DiskDriver, dirFile: OpenFile, dir: Directory, mapFile: OpenFile, freeMap: BitMap)
    requires dirFile.hdr.Sized() && mapFile.hdr.Sized()
    requires IsDirHeader(dirFile.hdr.View()) && IsMapHeader(mapFile.hdr.View())
    requires SetOf(dirFile.hdr.View().data) !! SetOf(mapFile.hdr.View().data)
    requires ValidTable(dir.table) && freeMap.Valid() && freeMap.numBits == NUM_SECTORS
    modifies disk
    ensures TableOf(disk.sectors, dirFile.hdr.View()) == dir.table
    ensures DiskMarks(disk.sectors, mapFile.hdr.View()) == freeMap.Marks()
    ensures SameExcept(old(disk.sectors), disk.sectors, SetOf(dirFile.hdr.View().data) + SetOf(mapFile.hdr.View().data))
  {
    ghost var d, ph, mh := disk.sectors, dirFile.hdr.View(), mapFile.hdr.View();
    dir.WriteBack(disk, dirFile);
    ghost var d1 := disk.sectors;
    OutsideIsExcept(d, d1, ph.data);
    WriteBackMap(disk, mapFile, freeMap);
    OutsideIsExcept(d1, disk.sectors, mh.data);
    DataApart(d1, disk.sectors, SetOf(mh.data), ph);
    ExceptTrans(d, d1, disk.sectors, SetOf(ph.data), SetOf(mh.data));
  }

  /** Bitmap then directory are written, as Remove and Rmdir do. */
  method FlushMapAndDir(disk: DiskDriver, dirFile: OpenFile, dir: Directory, mapFile: OpenFile, freeMap: BitMap)
    requires dirFile.hdr.Sized() && mapFile.hdr.Sized()
    requires IsDirHeader(dirFile.hdr.View()) && IsMapHeader(mapFile.hdr.View())
    requires SetOf(dirFile.hdr.View().data) !! SetOf(mapFile.hdr.View().data)
    requires ValidTable(dir.table) && freeMap.Valid() && freeMap.numBits == NUM_SECTORS
    modifies disk
    ensures TableOf(disk.sectors, dirFile.hdr.View()) == dir.table
    ensures DiskMarks(disk.sectors, mapFile.hdr.View()) == freeMap.Marks()
    ensures SameExcept(old(disk.sectors), disk.sectors, SetOf(dirFile.hdr.View().data) + SetOf(mapFile.hdr.View().data))
  {
    ghost var d, ph, mh := disk.sectors, dirFile.hdr.View(), mapFile.hdr.View();
    WriteBackMap(disk, mapFile, freeMap);
    ghost var d1 := disk.sectors;
    OutsideIsExcept(d, d1, mh.data);
    dir.WriteBack(disk, dirFile);
    OutsideIsExcept(d1, disk.sectors, ph.data);
    DataApart(d1, disk.sectors, SetOf(ph.data), mh);
    ExceptTrans(d, d1, disk.sectors, SetOf(mh.data), SetOf(ph.data));
  }

  /** The flushes of Create. */
  method FlushNewFile(disk: DiskDriver, hdr: FileHeader, sector: int, dirFile: OpenFile, dir: Directory,
                      mapFile: OpenFile, freeMap: BitMap)
    requires hdr.Sized() && dirFile.hdr.Sized() && mapFile.hdr.Sized()
    requires Separate(sector, hdr.View(), dirFile.hdr.View(), mapFile.hdr.View())
    requires ValidTable(dir.table) && freeMap.Valid() && freeMap.numBits == NUM_SECTORS
    modifies disk
    ensures Flushed(old(disk.sectors), disk.sectors, sector, hdr.View(), dirFile.hdr.View(), mapFile.hdr.View(),
                    dir.table, freeMap.Marks())
  {
    ghost var d, h, ph, mh := disk.sectors, hdr.View(), dirFile.hdr.View(), mapFile.hdr.View();
    hdr.WriteBack(disk, sector);
    ghost var d1 := disk.sectors;
    FlushDirAndMap(disk, dirFile, dir, mapFile, freeMap);
    OwnedSplit(sector, h);
    HeaderApart(d1, disk.sectors, SetOf(ph.data) + SetOf(mh.data), sector, h);
    ExceptTrans(d, d1, disk.sectors, HeaderSectors(sector, h), SetOf(ph.data) + SetOf(mh.data));
  }

  /** The flushes of Mkdir, which also writes the empty table of the new directory. */
  method FlushNewDirectory(disk: DiskDriver, hdr: FileHeader, sector: int, dirFile: OpenFile, dir: Directory,
                           mapFile: OpenFile, freeMap: BitMap)
    requires hdr.Sized() && dirFile.hdr.Sized() && mapFile.hdr.Sized()
    requires Separate(sector, hdr.View(), dirFile.hdr.View(), mapFile.hdr.View()) && hdr.numBytes == DIR_SIZE
    requires ValidTable(dir.table) && freeMap.Valid() && freeMap.numBits == NUM_SECTORS
    modifies disk
    ensures Flushed(old(disk.sectors), disk.sectors, sector, hdr.View(), dirFile.hdr.View(), mapFile.hdr.View(),
                    dir.table, freeMap.Marks())
    ensures TableOf(disk.sectors, hdr.View()) == EmptyTable()
  {
    ghost var d, h, ph, mh := disk.sectors, hdr.View(), dirFile.hdr.View(), mapFile.hdr.View();
    OwnedSplit(sector, h);
    WriteDirectoryFile(disk, hdr, sector);
    ghost var d1 := disk.sectors;
    FlushDirAndMap(disk, dirFile, dir, mapFile, freeMap);
    HeaderApart(d1, disk.sectors, SetOf(ph.data) + SetOf(mh.data), sector, h);
    DataApart(d1, disk.sectors, SetOf(ph.data) + SetOf(mh.data), h);
    ExceptTrans(d, d1, disk.sectors, SetOf(Owned(sector, h)), SetOf(ph.data) + SetOf(mh.data));
  }

  /** Writes the header of a new directory, opens it and writes an empty table. */
  method WriteDirectoryFile(disk: DiskDriver, hdr: FileHeader, sector: int)
    requires hdr.Sized() && WellFormed(sector, hdr.View()) && hdr.numBytes == DIR_SIZE
    modifies disk
    ensures Stored(disk.sectors, sector, hdr.View()) && TableOf(disk.sectors, hdr.View()) == EmptyTable()
    ensures SameExcept(old(disk.sectors), disk.sectors, SetOf(Owned(sector, hdr.View())))
  {
    ghost var d, h := disk.sectors, hdr.View();
    HeaderParts(sector, h);
    OwnedSplit(sector, h);
    hdr.WriteBack(disk, sector);
    ghost var d1 := disk.sectors;
    var newFile := Open(disk, sector, h);
    var newDir := new Directory();
    EmptyTableValid();
    newDir.WriteBack(disk, newFile);
    OutsideIsExcept(d1, disk.sectors, h.data);
    HeaderApart(d1, disk.sectors, SetOf(h.data), sector, h);
    ExceptTrans(d, d1, disk.sectors, HeaderSectors(sector, h), SetOf(h.data));
  }

  ghost predicate Flushed(d: Disk, d': Disk, s: int, h: Header, ph: Header, mh: Header, t: Table, m: set<int>) {
    && SameExcept(d, d', SetOf(Owned(s, h)) + SetOf(ph.data) + SetOf(mh.data))
    && Stored(d', s, h) && TableOf(d', ph) == t && DiskMarks(d', mh) == m
  }

  // ----- reading the file system -----

  /** What the operations need to know about a file they open. */
  lemma NodeOnDisk(d: Disk, g: Fs, s: int)
    requires FsInv(d, g) && s in g.nodes
    ensures Stored(d, s, g.nodes[s]) && WellFormed(s, g.nodes[s]) && FetchHeader(d, s) == g.nodes[s]
    ensures s in g.tables ==> g.nodes[s].numBytes == DIR_SIZE && TableOf(d, g.nodes[s]) == g.tables[s]
                              && ValidTable(g.tables[s]) && TableAt(d, s) == g.tables[s] && IsDirHeader(g.nodes[s])
    ensures s == FREE_MAP_SECTOR ==> IsMapHeader(g.nodes[s]) && MarksAt(d) == g.marks
  {
    FsInvIs(d, g);
    NodeFetched(d, g, s);
    HeaderParts(s, g.nodes[s]);
  }

  // ----- formatting -----

  method AllocateRoots(junk: int) returns (freeMap: BitMap, mapHdr: FileHeader, dirHdr: FileHeader)
    requires CanFormat(junk)
    ensures fresh(freeMap) && fresh(mapHdr) && fresh(dirHdr) && mapHdr != dirHdr
    ensures freeMap.Valid() && freeMap.numBits == NUM_SECTORS && mapHdr.Sized() && dirHdr.Sized()
    ensures var mh := MapHeader(junk); mapHdr.View() == mh && dirHdr.View() == RootHeader(mh)
    ensures freeMap.Marks() == FIRST_MARKS + HeaderAndData(mapHdr.View()) + HeaderAndData(dirHdr.View())
  {
    MapWords();
    freeMap := new BitMap(NUM_SECTORS, seq(NUM_TRACKS, _ => 0));
    freeMap.Mark(FREE_MAP_SECTOR);
    freeMap.Mark(ROOT_SECTOR);
    assert freeMap.Marks() == FIRST_MARKS;
    mapHdr := NewFileHeader(junk);
    var ok := mapHdr.Allocate(freeMap, FREE_MAP_SIZE);
    assert freeMap.Marks() == FIRST_MARKS + HeaderAndData(mapHdr.View());
    ok, dirHdr := AllocateDirectory(freeMap);
  }

  /** Takes the sectors of a new directory and sets its directory flag. */
  method AllocateDirectory(freeMap: BitMap) returns (ok: bool, dirHdr: FileHeader)
    requires freeMap.Valid() && freeMap.numBits == NUM_SECTORS && IsInt32(DIR_SIZE) && DIR_SIZE <= MAX_FILE_LENGTH
    modifies freeMap
    ensures fresh(dirHdr) && freeMap.Valid()
    ensures ok <==> CanAllocate(old(freeMap.Marks()), DIR_SIZE)
    ensures ok ==> SectorsFor(DIR_SIZE) >= 0 && HeaderCount(SectorsFor(DIR_SIZE)) >= 0
    ensures ok ==> dirHdr.Sized() && dirHdr.View() == AllocatedHeader(old(freeMap.Marks()), 1, DIR_SIZE)
    ensures ok ==> freeMap.Marks() == old(freeMap.Marks()) + HeaderAndData(dirHdr.View())
  {
    dirHdr := NewFileHeader(0);
    ghost var m := freeMap.Marks();
    ok := dirHdr.Allocate(freeMap, DIR_SIZE);
    dirHdr.isdir := 1;
    assert ok ==> freeMap.Marks() == m + HeaderAndData(dirHdr.View());
  }

  /** Both headers are written before either file is opened. */
  method WriteRootHeaders(disk: DiskDriver, mapHdr: FileHeader, dirHdr: FileHeader)
    requires mapHdr.Sized() && dirHdr.Sized()
    requires WellFormed(FREE_MAP_SECTOR, mapHdr.View()) && WellFormed(ROOT_SECTOR, dirHdr.View())
    requires SetOf(Owned(FREE_MAP_SECTOR, mapHdr.View())) !! SetOf(Owned(ROOT_SECTOR, dirHdr.View()))
    modifies disk
    ensures Stored(disk.sectors, FREE_MAP_SECTOR, mapHdr.View()) && Stored(disk.sectors, ROOT_SECTOR, dirHdr.View())
  {
    OwnedSplit(FREE_MAP_SECTOR, mapHdr.View());
    OwnedSplit(ROOT_SECTOR, dirHdr.View());
    mapHdr.WriteBack(disk, FREE_MAP_SECTOR);
    ghost var d1 := disk.sectors;
    dirHdr.WriteBack(disk, ROOT_SECTOR);
    HeaderApart(d1, disk.sectors, HeaderSectors(ROOT_SECTOR, dirHdr.View()), FREE_MAP_SECTOR, mapHdr.View());
  }

  lemma RootsApart(junk: int)
    requires CanFormat(junk)
    ensures var mh := MapHeader(junk);
            var rh := RootHeader(mh);
            && WellFormed(FREE_MAP_SECTOR, mh) && WellFormed(ROOT_SECTOR, rh) && IsDirHeader(rh) && IsMapHeader(mh)
            && SetOf(Owned(FREE_MAP_SECTOR, mh)) !! SetOf(Owned(ROOT_SECTOR, rh))
  {
    FormatHeaders(junk);
    var mh := MapHeader(junk);
    OwnedIs(FREE_MAP_SECTOR, mh);
    OwnedIs(ROOT_SECTOR, RootHeader(mh));
    HeaderParts(FREE_MAP_SECTOR, mh);
    HeaderParts(ROOT_SECTOR, RootHeader(mh));
  }

  method FormatDisk(disk: DiskDriver, junk: int) returns (mapFile: OpenFile, rootFile: OpenFile)
    requires CanFormat(junk)
    modifies disk
    ensures fresh(mapFile) && fresh(rootFile) && fresh(mapFile.hdr) && fresh(rootFile.hdr)
    ensures mapFile.hdr.Sized() && rootFile.hdr.Sized()
    ensures var mh := MapHeader(junk); mapFile.hdr.View() == mh && rootFile.hdr.View() == RootHeader(mh)
    ensures FormattedWith(disk.sectors, junk)
  {
    var freeMap, mapHdr, dirHdr := AllocateRoots(junk);
    RootsApart(junk);
    ghost var mh, rh := mapHdr.View(), dirHdr.View();
    WriteRootHeaders(disk, mapHdr, dirHdr);
    mapFile := Open(disk, FREE_MAP_SECTOR, mh);
    rootFile := Open(disk, ROOT_SECTOR, rh);
    FlushRoots(disk, mapFile, rootFile, freeMap);
  }

  method FlushRoots(disk: DiskDriver, mapFile: OpenFile, rootFile: OpenFile, freeMap: BitMap)
    requires mapFile.hdr.Sized() && rootFile.hdr.Sized() && freeMap.Valid() && freeMap.numBits == NUM_SECTORS
    requires var mh, rh := mapFile.hdr.View(), rootFile.hdr.View();
             && WellFormed(FREE_MAP_SECTOR, mh) && WellFormed(ROOT_SECTOR, rh) && IsDirHeader(rh) && IsMapHeader(mh)
             && SetOf(Owned(FREE_MAP_SECTOR, mh)) !! SetOf(Owned(ROOT_SECTOR, rh))
             && Stored(disk.sectors, FREE_MAP_SECTOR, mh) && Stored(disk.sectors, ROOT_SECTOR, rh)
    modifies disk
    ensures var mh, rh := mapFile.hdr.View(), rootFile.hdr.View();
            && Stored(disk.sectors, FREE_MAP_SECTOR, mh) && Stored(disk.sectors, ROOT_SECTOR, rh)
            && TableOf(disk.sectors, rh) == EmptyTable() && DiskMarks(disk.sectors, mh) == freeMap.Marks()
  {
    ghost var d, mh, rh := disk.sectors, mapFile.hdr.View(), rootFile.hdr.View();
    var directory := new Directory();
    EmptyTableValid();
    OwnedSplit(FREE_MAP_SECTOR, mh);
    OwnedSplit(ROOT_SECTOR, rh);
    FlushMapAndDir(disk, rootFile, directory, mapFile, freeMap);
    HeaderApart(d, disk.sectors, SetOf(rh.data) + SetOf(mh.data), FREE_MAP_SECTOR, mh);
    HeaderApart(d, disk.sectors, SetOf(rh.data) + SetOf(mh.data), ROOT_SECTOR, rh);
  }

  // ----- why the flushes do not disturb each other -----

  lemma DataDisjoint(g: Fs, s: int, t: int)
    requires TreeInv(g) && s in g.nodes && t in g.nodes && s != t
    ensures SetOf(g.nodes[s].data) !! SetOf(g.nodes[t].data)
    ensures SetOf(g.nodes[s].data) <= g.marks
  {
    OwnedSplit(s, g.nodes[s]);
    OwnedSplit(t, g.nodes[t]);
    forall k | k in SetOf(g.nodes[s].data)
      ensures k !in SetOf(g.nodes[t].data) && k in g.marks
    {
      assert Owns(g, s, k) && (k in SetOf(g.nodes[t].data) ==> Owns(g, t, k));
    }
  }

  lemma AddSeparate(d: Disk, g: Fs, op: Op, p: int, leaf: CString)
    requires FsInv(d, g) && MarksAt(d) == g.marks && Addable(d, g, op, p, leaf) && ValidOp(op)
    ensures p in g.nodes && FREE_MAP_SECTOR in g.nodes
    ensures Separate(NewSector(d), NewHeader(d, op), g.nodes[p], g.nodes[FREE_MAP_SECTOR])
    ensures ValidTable(Added(g.tables[p], leaf, NewSector(d)))
  {
    FsInvIs(d, g);
    TablesAreNodes(g);
    DirSizeFits(d, g);
    AddIsInsert(d, g, op, p, leaf);
    NodeOnDisk(d, g, p);
    NodeOnDisk(d, g, FREE_MAP_SECTOR);
    DataDisjoint(g, p, FREE_MAP_SECTOR);
    DataDisjoint(g, FREE_MAP_SECTOR, p);
  }

  lemma FlushedIsAdded(d: Disk, d': Disk, s: int, h: Header, ph: Header, mh: Header, t: Table, m: set<int>)
    requires Flushed(d, d', s, h, ph, mh, t, m) && mh == FetchHeader(d, FREE_MAP_SECTOR)
    requires m == MarksAt(d) + {s} + HeaderAndData(h) && (h.isdir == 1 ==> TableOf(d', h) == EmptyTable())
    ensures FileAdded(d, d', s, h, ph, t)
  {
    OwnedIs(s, h);
  }

  /** What a successful Create or Mkdir did to the directory with header ph. */
  ghost predicate AddedUnder(d: Disk, d': Disk, op: Op, leaf: CString, ph: Header) {
    FileAdded(d, d', NewSector(d), NewHeader(d, op), ph, Added(TableOf(d, ph), leaf, NewSector(d)))
  }

  // ----- in memory: checks, entry and sectors -----

  ghost predicate MapReady(disk: DiskDriver, mapFile: OpenFile)
    reads disk, mapFile, mapFile.hdr
  {
    mapFile.hdr.Sized() && IsMapHeader(mapFile.hdr.View()) && mapFile.hdr.View() == FetchHeader(disk.sectors, FREE_MAP_SECTOR)
  }

  /** The in-memory objects of a successful Create or Mkdir. */
  ghost predicate Reserved(d: Disk, op: Op, freeMap: BitMap, sector: int, hdr: FileHeader)
    reads freeMap, hdr
  {
    && freeMap.Valid() && freeMap.numBits == NUM_SECTORS && hdr.Sized()
    && sector == NewSector(d) != ERROR && hdr.View() == NewHeader(d, op)
    && CanAllocate(MarksAt(d) + {sector}, SizeOf(op))
    && freeMap.Marks() == MarksAt(d) + {sector} + HeaderAndData(hdr.View())
  }

  /** The first checks of Create and Mkdir, and the sector for the new header. */
  method TakeSector(disk: DiskDriver, mapFile: OpenFile, directory: Directory, op: Op, leaf: CString)
    returns (r: Status, freeMap: BitMap, sector: int)
    requires (op.Create? || op.Mkdir?) && MapReady(disk, mapFile)
    ensures fresh(freeMap) && freeMap.Valid() && freeMap.numBits == NUM_SECTORS
    ensures r == if NameTaken(op, directory.table, leaf) then AlreadyInDirectory
                 else if NewSector(disk.sectors) == ERROR then OutOfDisk else NoError
    ensures r == NoError ==> sector == NewSector(disk.sectors) != ERROR && freeMap.Marks() == MarksAt(disk.sectors) + {sector}
  {
    freeMap := FetchMap(disk, mapFile);
    sector := directory.Find(leaf);
    if sector != ERROR && (op.Create? || sector >= 0) {
      return AlreadyInDirectory, freeMap, sector;
    }
    sector := freeMap.Find();
    r := if sector == ERROR then OutOfDisk else NoError;
  }

  /** Create: the header sector, then the directory entry, then the data sectors. */
  method ReserveFile(disk: DiskDriver, mapFile: OpenFile, directory: Directory, op: Op, leaf: CString)
    returns (r: Status, freeMap: BitMap, sector: int, hdr: FileHeader)
    requires op.Create? && ValidOp(op) && MapReady(disk, mapFile)
    modifies directory
    ensures r == AddStatusOf(disk.sectors, op, old(directory.table), leaf)
    ensures r == NoError ==> fresh(freeMap) && fresh(hdr) && Reserved(disk.sectors, op, freeMap, sector, hdr)
    ensures r == NoError ==> AddStatus(old(directory.table), leaf) == NoError
                             && directory.table == Added(old(directory.table), leaf, sector)
  {
    r, freeMap, sector := TakeSector(disk, mapFile, directory, op, leaf);
    hdr := NewFileHeader(0);
    if r == NoError {
      r := EnterFile(directory, hdr, freeMap, leaf, sector, op.size);
    }
  }

  /** The directory entry and the data sectors of a new file. */
  method EnterFile(directory: Directory, hdr: FileHeader, freeMap: BitMap, leaf: CString, sector: int, size: int) returns (r: Status)
    requires hdr.Valid() && hdr.isdir == 0 && freeMap.Valid() && freeMap.numBits == NUM_SECTORS
    requires IsInt32(size) && size <= MAX_FILE_LENGTH
    modifies directory, hdr, freeMap
    ensures freeMap.Valid()
    ensures var slot, m := AddStatus(old(directory.table), leaf), old(freeMap.Marks());
            r == if slot != NoError then slot else if CanAllocate(m, size) then NoError else OutOfDisk
    ensures r == NoError ==>
              && AddStatus(old(directory.table), leaf) == NoError && directory.table == Added(old(directory.table), leaf, sector)
              && hdr.Sized() && SectorsFor(size) >= 0 && HeaderCount(SectorsFor(size)) >= 0
              && hdr.View() == AllocatedHeader(old(freeMap.Marks()), 0, size)
              && freeMap.Marks() == old(freeMap.Marks()) + HeaderAndData(hdr.View())
  {
    ghost var m := freeMap.Marks();
    r := directory.Add(leaf, sector);
    if r == NoError {
      var ok := hdr.Allocate(freeMap, size);
      r := if ok then NoError else OutOfDisk;
      assert ok ==> freeMap.Marks() == m + HeaderAndData(hdr.View());
    }
  }

  method StoreNewFile(disk: DiskDriver, hdr: FileHeader, sector: int, dirFile: OpenFile, directory: Directory,
                      mapFile: OpenFile, freeMap: BitMap, ghost op: Op)
    requires Reserved(disk.sectors, op, freeMap, sector, hdr) && op.Create?
    requires dirFile.hdr.Sized() && MapReady(disk, mapFile) && ValidTable(directory.table)
    requires Separate(sector, NewHeader(disk.sectors, op), dirFile.hdr.View(), mapFile.hdr.View())
    modifies disk
    ensures var d := old(disk.sectors);
            FileAdded(d, disk.sectors, NewSector(d), NewHeader(d, op), dirFile.hdr.View(), directory.table)
  {
    ghost var d, h, ph, mh := disk.sectors, hdr.View(), dirFile.hdr.View(), mapFile.hdr.View();
    FlushNewFile(disk, hdr, sector, dirFile, directory, mapFile, freeMap);
    FlushedIsAdded(d, disk.sectors, sector, h, ph, mh, directory.table, freeMap.Marks());
  }

  /** Mkdir: the header sector, then the data sectors, then the directory entry. */
  method ReserveDirectory(disk: DiskDriver, mapFile: OpenFile, directory: Directory, op: Op, leaf: CString)
    returns (r: Status, freeMap: BitMap, sector: int, hdr: FileHeader)
    requires op.Mkdir? && IsInt32(DIR_SIZE) && DIR_SIZE <= MAX_FILE_LENGTH && MapReady(disk, mapFile)
    modifies directory
    ensures r == AddStatusOf(disk.sectors, op, old(directory.table), leaf)
    ensures r == NoError ==> fresh(freeMap) && fresh(hdr) && Reserved(disk.sectors, op, freeMap, sector, hdr)
    ensures r == NoError ==> AddStatus(old(directory.table), leaf) == NoError
                             && directory.table == Added(old(directory.table), leaf, sector)
  {
    r, freeMap, sector := TakeSector(disk, mapFile, directory, op, leaf);
    if r != NoError {
      hdr := NewFileHeader(0);
      return;
    }
    r, hdr := EnterDirectory(directory, freeMap, leaf, sector);
  }

  /** The data sectors and the directory entry of a new directory. */
  method EnterDirectory(directory: Directory, freeMap: BitMap, leaf: CString, sector: int) returns (r: Status, hdr: FileHeader)
    requires freeMap.Valid() && freeMap.numBits == NUM_SECTORS && IsInt32(DIR_SIZE) && DIR_SIZE <= MAX_FILE_LENGTH
    modifies directory, freeMap
    ensures fresh(hdr) && freeMap.Valid()
    ensures r == if !CanAllocate(old(freeMap.Marks()), DIR_SIZE) then OutOfDisk else AddStatus(old(directory.table), leaf)
    ensures r == NoError ==>
              && AddStatus(old(directory.table), leaf) == NoError && directory.table == Added(old(directory.table), leaf, sector)
              && hdr.Sized() && SectorsFor(DIR_SIZE) >= 0 && HeaderCount(SectorsFor(DIR_SIZE)) >= 0
              && hdr.View() == AllocatedHeader(old(freeMap.Marks()), 1, DIR_SIZE)
              && freeMap.Marks() == old(freeMap.Marks()) + HeaderAndData(hdr.View())
  {
    var ok;
    ok, hdr := AllocateDirectory(freeMap);
    if !ok {
      return OutOfDisk, hdr;
    }
    r := directory.Add(leaf, sector);
  }

  method StoreNewDirectory(disk: DiskDriver, hdr: FileHeader, sector: int, dirFile: OpenFile, directory: Directory,
                           mapFile: OpenFile, freeMap: BitMap, ghost op: Op)
    requires Reserved(disk.sectors, op, freeMap, sector, hdr) && op.Mkdir? && hdr.numBytes == DIR_SIZE
    requires dirFile.hdr.Sized() && MapReady(disk, mapFile) && ValidTable(directory.table)
    requires Separate(sector, NewHeader(disk.sectors, op), dirFile.hdr.View(), mapFile.hdr.View())
    modifies disk
    ensures var d := old(disk.sectors);
            FileAdded(d, disk.sectors, NewSector(d), NewHeader(d, op), dirFile.hdr.View(), directory.table)
  {
    ghost var d, h, ph, mh := disk.sectors, hdr.View(), dirFile.hdr.View(), mapFile.hdr.View();
    FlushNewDirectory(disk, hdr, sector, dirFile, directory, mapFile, freeMap);
    FlushedIsAdded(d, disk.sectors, sector, h, ph, mh, directory.table, freeMap.Marks());
  }

  /** The parent directory can be opened, and if there is room for the new
      file, its sectors are none of the parent's or the bitmap's. */
  ghost predicate ParentOpen(d: Disk, op: Op, p: int, leaf: CString, ph: Header) {
    && Stored(d, p, ph) && WellFormed(p, ph) && ph.numBytes == DIR_SIZE
    && (AddStatusOf(d, op, TableOf(d, ph), leaf) == NoError ==>
          && Separate(NewSector(d), NewHeader(d, op), ph, FetchHeader(d, FREE_MAP_SECTOR))
          && ValidTable(Added(TableOf(d, ph), leaf, NewSector(d))))
  }

  lemma ParentReady(d: Disk, g: Fs, op: Op, p: int, leaf: CString)
    requires FsInv(d, g) && ValidOp(op) && (op.Create? || op.Mkdir?) && p in g.tables
    ensures p in g.nodes && FREE_MAP_SECTOR in g.nodes && ParentOpen(d, op, p, leaf, g.nodes[p])
    ensures TableOf(d, g.nodes[p]) == g.tables[p]
    ensures FetchHeader(d, FREE_MAP_SECTOR) == g.nodes[FREE_MAP_SECTOR] && IsMapHeader(g.nodes[FREE_MAP_SECTOR])
  {
    FsInvIs(d, g);
    TablesAreNodes(g);
    NodeOnDisk(d, g, p);
    NodeOnDisk(d, g, FREE_MAP_SECTOR);
    if AddStatusOf(d, op, g.tables[p], leaf) == NoError {
      AddSeparate(d, g, op, p, leaf);
    }
  }

  /** The rest of Create, once the parent directory p is known. */
  method CreateIn(disk: DiskDriver, mapFile: OpenFile, op: Op, p: int, leaf: CString, ghost ph: Header) returns (r: Status)
    requires op.Create? && ValidOp(op) && ParentOpen(disk.sectors, op, p, leaf, ph) && MapReady(disk, mapFile)
    modifies disk
    ensures r == AddStatusOf(old(disk.sectors), op, TableOf(old(disk.sectors), ph), leaf)
    ensures r != NoError ==> disk.sectors == old(disk.sectors)
    ensures r == NoError ==> AddedUnder(old(disk.sectors), disk.sectors, op, leaf, ph)
  {
    var dirFile, directory := OpenDirectory(disk, p, ph);
    var freeMap, sector, hdr;
    r, freeMap, sector, hdr := ReserveFile(disk, mapFile, directory, op, leaf);
    if r == NoError {
      StoreFileUnder(disk, hdr, sector, dirFile, directory, mapFile, freeMap, op, p, leaf, ph);
    }
  }

  method StoreFileUnder(disk: DiskDriver, hdr: FileHeader, sector: int, dirFile: OpenFile, directory: Directory, mapFile: OpenFile,
                        freeMap: BitMap, ghost op: Op, ghost p: int, ghost leaf: CString, ghost ph: Header)
    requires op.Create? && ParentOpen(disk.sectors, op, p, leaf, ph) && MapReady(disk, mapFile)
    requires Reserved(disk.sectors, op, freeMap, sector, hdr) && dirFile.hdr.Sized() && dirFile.hdr.View() == ph
    requires AddStatusOf(disk.sectors, op, TableOf(disk.sectors, ph), leaf) == NoError
    requires directory.table == Added(TableOf(disk.sectors, ph), leaf, sector)
    modifies disk
    ensures AddedUnder(old(disk.sectors), disk.sectors, op, leaf, ph)
  {
    StoreNewFile(disk, hdr, sector, dirFile, directory, mapFile, freeMap, op);
  }

  /** The rest of Mkdir, once the parent directory p is known. */
  method MkdirIn(disk: DiskDriver, mapFile: OpenFile, op: Op, p: int, leaf: CString, ghost ph: Header) returns (r: Status)
    requires op.Mkdir? && IsInt32(DIR_SIZE) && DIR_SIZE <= MAX_FILE_LENGTH
    requires ParentOpen(disk.sectors, op, p, leaf, ph) && MapReady(disk, mapFile)
    modifies disk
    ensures r == AddStatusOf(old(disk.sectors), op, TableOf(old(disk.sectors), ph), leaf)
    ensures r != NoError ==> disk.sectors == old(disk.sectors)
    ensures r == NoError ==> AddedUnder(old(disk.sectors), disk.sectors, op, leaf, ph)
  {
    var dirFile, directory := OpenDirectory(disk, p, ph);
    var freeMap, sector, hdr;
    r, freeMap, sector, hdr := ReserveDirectory(disk, mapFile, directory, op, leaf);
    if r == NoError {
      NewDirectorySize(disk.sectors, op);
      StoreNewDirectory(disk, hdr, sector, dirFile, directory, mapFile, freeMap, op);
    }
  }

  lemma NewDirectorySize(d: Disk, op: Op)
    requires op.Mkdir? && CanAllocate(MarksAt(d) + {NewSector(d)}, DIR_SIZE)
    requires IsInt32(DIR_SIZE) && DIR_SIZE <= MAX_FILE_LENGTH
    ensures NewHeader(d, op).numBytes == DIR_SIZE
  {
    AllocationFits(MarksAt(d) + {NewSector(d)}, DIR_SIZE);
  }

  // ----- removing -----

  /** Frees the data and chained header sectors, then the first header sector. */
  method ReleaseFile(freeMap: BitMap, hdr: FileHeader, sector: int)
    requires hdr.Sized() && WellFormed(sector, hdr.View()) && freeMap.Valid() && freeMap.numBits == NUM_SECTORS
    requires SetOf(Owned(sector, hdr.View())) <= freeMap.Marks()
    modifies freeMap
    ensures freeMap.Valid() && freeMap.Marks() == old(freeMap.Marks()) - SetOf(Owned(sector, hdr.View()))
  {
    ghost var h := hdr.View();
    HeaderParts(sector, h);
    OwnedIs(sector, h);
    SetOfIs(h.data);
    SetOfIs(h.chain);
    forall k | k in SetOf(h.data)
      ensures k !in SetOf(h.chain)
    {
    }
    hdr.Deallocate(freeMap);
    freeMap.Clear(sector);
  }

  /** The parent directory can be opened, and so can the file that the name
      leads to, whose sectors are all marked. */
  ghost predicate TargetOpen(d: Disk, p: int, leaf: CString, ph: Header) {
    && Stored(d, p, ph) && WellFormed(p, ph) && IsDirHeader(ph) && ValidTable(Removed(TableOf(d, ph), leaf))
    && SetOf(ph.data) !! SetOf(FetchHeader(d, FREE_MAP_SECTOR).data)
    && var s := FindSector(TableOf(d, ph), leaf);
       s == ERROR || (s >= 0 && CanEnter(d, s, FetchHeader(d, s)) && SetOf(Owned(s, FetchHeader(d, s))) <= MarksAt(d))
  }

  lemma TargetReady(d: Disk, g: Fs, p: int, leaf: CString)
    requires FsInv(d, g) && p in g.tables
    ensures p in g.nodes && FREE_MAP_SECTOR in g.nodes && TargetOpen(d, p, leaf, g.nodes[p])
    ensures TableOf(d, g.nodes[p]) == g.tables[p]
    ensures FetchHeader(d, FREE_MAP_SECTOR) == g.nodes[FREE_MAP_SECTOR] && IsMapHeader(g.nodes[FREE_MAP_SECTOR])
  {
    FsInvIs(d, g);
    TablesAreNodes(g);
    NodeOnDisk(d, g, p);
    NodeOnDisk(d, g, FREE_MAP_SECTOR);
    DataDisjoint(g, p, FREE_MAP_SECTOR);
    RemovedValid(g.tables[p], leaf);
    TargetMarked(d, g, p, leaf);
  }

  lemma TargetMarked(d: Disk, g: Fs, p: int, leaf: CString)
    requires FsInv(d, g) && p in g.tables
    ensures var s := FindSector(g.tables[p], leaf);
            s == ERROR || (s >= 0 && CanEnter(d, s, FetchHeader(d, s)) && SetOf(Owned(s, FetchHeader(d, s))) <= g.marks)
  {
    FsInvIs(d, g);
    var s := FindSector(g.tables[p], leaf);
    if s != ERROR {
      LookupIsNode(d, g, p, leaf);
      NodeOnDisk(d, g, s);
      HeaderParts(s, g.nodes[s]);
      forall k | k in SetOf(Owned(s, g.nodes[s]))
        ensures k in g.marks
      {
        assert Owns(g, s, k);
      }
    }
  }

  /** Frees the file's sectors and its entry and writes both changes. */
  method RemoveEntry(disk: DiskDriver, mapFile: OpenFile, dirFile: OpenFile, directory: Directory,
                     hdr: FileHeader, sector: int, leaf: CString)
    requires MapReady(disk, mapFile) && dirFile.hdr.Sized() && hdr.Sized() && WellFormed(sector, hdr.View())
    requires IsDirHeader(dirFile.hdr.View()) && ValidTable(Removed(directory.table, leaf))
    requires SetOf(dirFile.hdr.View().data) !! SetOf(mapFile.hdr.View().data)
    requires SetOf(Owned(sector, hdr.View())) <= MarksAt(disk.sectors)
    modifies disk, directory
    ensures FileRemoved(old(disk.sectors), disk.sectors, sector, hdr.View(), dirFile.hdr.View(),
                        Removed(old(directory.table), leaf))
  {
    ghost var d := disk.sectors;
    var freeMap := MapWithout(disk, mapFile, hdr, sector);
    var r := directory.Remove(leaf);
    FlushMapAndDir(disk, dirFile, directory, mapFile, freeMap);
    FlushedIsRemoved(d, disk.sectors, sector, hdr.View(), dirFile.hdr.View(), mapFile.hdr.View(), directory.table);
  }

  lemma FlushedIsRemoved(d: Disk, d': Disk, s: int, h: Header, ph: Header, mh: Header, t: Table)
    requires mh == FetchHeader(d, FREE_MAP_SECTOR) && SameExcept(d, d', SetOf(ph.data) + SetOf(mh.data))
    requires TableOf(d', ph) == t && DiskMarks(d', mh) == MarksAt(d) - SetOf(Owned(s, h))
    ensures FileRemoved(d, d', s, h, ph, t)
  {
  }

  /** The bitmap with the sectors of the file cleared. */
  method MapWithout(disk: DiskDriver, mapFile: OpenFile, hdr: FileHeader, sector: int) returns (freeMap: BitMap)
    requires MapReady(disk, mapFile) && hdr.Sized() && WellFormed(sector, hdr.View())
    requires SetOf(Owned(sector, hdr.View())) <= MarksAt(disk.sectors)
    ensures fresh(freeMap) && freeMap.Valid() && freeMap.numBits == NUM_SECTORS
    ensures freeMap.Marks() == MarksAt(disk.sectors) - SetOf(Owned(sector, hdr.View()))
  {
    freeMap := FetchMap(disk, mapFile);
    ReleaseFile(freeMap, hdr, sector);
  }

  /** What a successful Remove or Rmdir did to the directory with header ph. */
  ghost predicate RemovedUnder(d: Disk, d': Disk, leaf: CString, ph: Header) {
    var s := FindSector(TableOf(d, ph), leaf);
    FileRemoved(d, d', s, FetchHeader(d, s), ph, Removed(TableOf(d, ph), leaf))
  }

  /** Removes the file that the name leads to. */
  method RemoveFound(disk: DiskDriver, mapFile: OpenFile, dirFile: OpenFile, directory: Directory, hdr: FileHeader, sector: int,
                     leaf: CString, ghost p: int, ghost ph: Header)
    requires TargetOpen(disk.sectors, p, leaf, ph) && MapReady(disk, mapFile) && dirFile.hdr.Sized() && hdr.Sized()
    requires dirFile.hdr.View() == ph && directory.table == TableOf(disk.sectors, ph)
    requires sector == FindSector(directory.table, leaf) != ERROR && hdr.View() == FetchHeader(disk.sectors, sector)
    modifies disk, directory
    ensures RemovedUnder(old(disk.sectors), disk.sectors, leaf, ph)
  {
    RemoveEntry(disk, mapFile, dirFile, directory, hdr, sector, leaf);
  }

  method RemoveIn(disk: DiskDriver, mapFile: OpenFile, op: Op, p: int, leaf: CString, ghost ph: Header) returns (r: Status)
    requires op.Remove? && TargetOpen(disk.sectors, p, leaf, ph) && MapReady(disk, mapFile)
    modifies disk
    ensures r == RemoveStatusOf(old(disk.sectors), op, TableOf(old(disk.sectors), ph), leaf)
    ensures r != NoError ==> disk.sectors == old(disk.sectors)
    ensures r == NoError ==> RemovedUnder(old(disk.sectors), disk.sectors, leaf, ph)
  {
    var dirFile, directory := OpenDirectory(disk, p, ph);
    var sector := directory.Find(leaf);
    if sector == ERROR {
      return InexistFile;
    }
    var file := Open(disk, sector, FetchHeader(disk.sectors, sector));
    if file.hdr.isdir == 1 {
      return NotAFile;
    }
    RemoveFound(disk, mapFile, dirFile, directory, file.hdr, sector, leaf, p, ph);
    r := NoError;
  }

  method RmdirIn(disk: DiskDriver, mapFile: OpenFile, op: Op, p: int, leaf: CString, ghost ph: Header) returns (r: Status)
    requires op.Rmdir? && TargetOpen(disk.sectors, p, leaf, ph) && MapReady(disk, mapFile)
    modifies disk
    ensures r == RemoveStatusOf(old(disk.sectors), op, TableOf(old(disk.sectors), ph), leaf)
    ensures r != NoError ==> disk.sectors == old(disk.sectors)
    ensures r == NoError ==> RemovedUnder(old(disk.sectors), disk.sectors, leaf, ph)
  {
    var dirFile, directory := OpenDirectory(disk, p, ph);
    var sector := directory.Find(leaf);
    if sector < 0 {
      return InexistDirectory;
    }
    var file := Open(disk, sector, FetchHeader(disk.sectors, sector));
    if file.hdr.isdir != 1 {
      return NotADirectory;
    }
    var dirFile', thatDir := OpenDirectory(disk, sector, FetchHeader(disk.sectors, sector));
    var empty := thatDir.Empty();
    if !empty {
      return DirectoryNotEmpty;
    }
    RemoveFound(disk, mapFile, dirFile, directory, file.hdr, sector, leaf, p, ph);
    r := NoError;
  }

  /** A finished Remove or Rmdir is a step. */
  lemma RemoveIsStep(d: Disk, g: Fs, op: Op, r: Status, d': Disk, p: int, leaf: CString)
    requires FsInv(d, g) && (op.Remove? || op.Rmdir?)
    requires Paths.FindDir(d, op.path) == Found(p, leaf) && p in g.tables
    requires r == RemoveStatusOf(d, op, g.tables[p], leaf)
    requires p in g.nodes && if r == NoError then RemovedUnder(d, d', leaf, g.nodes[p]) else d' == d
    ensures Step(d, op, r, d')
  {
    TableFetched(d, g, p);
    NodeFetched(d, g, p);
  }

  lemma NoParentIsStep(d: Disk, op: Op)
    requires Paths.FindDir(d, op.path).NotFound?
    ensures Step(d, op, if op.Create? then InexistFile else InexistDirectory, d)
  {
  }

  /** A finished Create or Mkdir is a step. */
  lemma AddIsStep(d: Disk, g: Fs, op: Op, r: Status, d': Disk, p: int, leaf: CString)
    requires FsInv(d, g) && ValidOp(op) && (op.Create? || op.Mkdir?)
    requires Paths.FindDir(d, op.path) == Found(p, leaf) && p in g.tables
    requires r == AddStatusOf(d, op, g.tables[p], leaf)
    requires p in g.nodes && if r == NoError then AddedUnder(d, d', op, leaf, g.nodes[p]) else d' == d
    ensures Step(d, op, r, d')
  {
    TableFetched(d, g, p);
    NodeFetched(d, g, p);
  }

  /** The directory that a name in a directory leads to. */
  function NextDirectory(d: Disk, sector: int, head: CString): int {
    var s := FindSector(TableAt(d, sector), head);
    if s < 0 || !IsDirAt(d, s) then ERROR else s
  }

  lemma LookupCases(d: Disk, g: Fs, sector: int, head: CString, s: int)
    requires FsInv(d, g) && sector in g.tables && s == FindSector(g.tables[sector], head)
    ensures if s < 0 then NextDirectory(d, sector, head) == ERROR else
              && s in g.nodes && CanEnter(d, s, g.nodes[s]) && (s in g.tables <==> g.nodes[s].isdir == 1)
              && (s in g.tables ==> TableOf(d, g.nodes[s]) == g.tables[s])
              && NextDirectory(d, sector, head) == if g.nodes[s].isdir == 1 then s else ERROR
  {
    TableFetched(d, g, sector);
    if s >= 0 {
      LookupIsNode(d, g, sector, head);
      NodeOnDisk(d, g, s);
    }
  }

  ghost predicate CanEnter(d: Disk, s: int, h: Header) {
    Stored(d, s, h) && WellFormed(s, h) && (h.isdir == 1 ==> h.numBytes == DIR_SIZE)
  }

  /** Reads the table of the file in a sector if it is a directory. */
  method Enter(disk: DiskDriver, directory: Directory, sector: int, ghost h: Header) returns (ok: bool)
    requires CanEnter(disk.sectors, sector, h) && |directory.table| == NUM_DIR_ENTRIES
    modifies directory
    ensures ok <==> h.isdir == 1
    ensures ok ==> directory.table == TableOf(disk.sectors, h)
  {
    HeaderParts(sector, h);
    var file := Open(disk, sector, h);
    ok := file.hdr.isdir == 1;
    if ok {
      directory.FetchFrom(disk, file);
    }
  }

  /** One step down: the directory named `head` in the directory read so far. */
  method Descend(disk: DiskDriver, directory: Directory, sector: int, head: CString, ghost g: Fs) returns (next: int)
    requires FsInv(disk.sectors, g) && sector in g.tables && directory.table == g.tables[sector]
    modifies directory
    ensures next == NextDirectory(disk.sectors, sector, head)
    ensures next != ERROR ==> next >= 0 && next in g.tables && directory.table == g.tables[next]
  {
    TableFetched(disk.sectors, g, sector);
    next := directory.Find(head);
    LookupCases(disk.sectors, g, sector, head, next);
    if next >= 0 {
      var ok := Enter(disk, directory, next, g.nodes[next]);
      next := if ok then next else ERROR;
    } else {
      next := ERROR;
    }
  }

  /** The answer of FindDir. */
  ghost predicate WalkEnds(d: Disk, g: Fs, path: CString, sector: int, leaf: CString) {
    match Paths.FindDir(d, path)
    case NotFound => sector == ERROR
    case Found(s, l) => sector == s && leaf == l && s >= 0 && s in g.tables
  }

  /** Walks down the path; the remaining name gets shorter at every step. */
  method WalkPath(disk: DiskDriver, directory: Directory, path: CString, ghost g: Fs) returns (sector: int, leaf: CString)
    requires FsInv(disk.sectors, g) && directory.table == g.tables[ROOT_SECTOR]
    modifies directory
    ensures WalkEnds(disk.sectors, g, path, sector, leaf)
  {
    ghost var d := disk.sectors;
    sector := ROOT_SECTOR;
    leaf := path;
    var r := DecompName(leaf);
    while r.more
      invariant r == Decomp(leaf) && sector >= 0 && sector in g.tables && directory.table == g.tables[sector]
      invariant FindDirFrom(d, sector, leaf) == Paths.FindDir(d, path)
      decreases |leaf|
    {
      var next := Descend(disk, directory, sector, r.head, g);
      if next == ERROR {
        return ERROR, leaf;
      }
      leaf, sector := r.tail, next;
      r := DecompName(leaf);
    }
    leaf := r.tail;
  }

  lemma AfterStep(d: Disk, g: Fs, op: Op, r: Status, d': Disk) returns (g': Fs)
    requires FsInv(d, g) && ValidOp(op) && Step(d, op, r, d')
    ensures FsInv(d', g') && SameRoots(g, g')
  {
    StepTouches(d, g, op, r, d');
    g' := NextFs(d, g, op);
  }

  class FileSystem {
    const disk: DiskDriver
    const freeMapFile: OpenFile
    const directoryFile: OpenFile

    ghost predicate Valid(g: Fs)
      reads this, disk, freeMapFile.hdr, directoryFile.hdr
    {
      && FsInv(disk.sectors, g)
      && freeMapFile.hdr.Sized() && freeMapFile.hdr.View() == g.nodes[FREE_MAP_SECTOR]
      && directoryFile.hdr.Sized() && directoryFile.hdr.View() == g.nodes[ROOT_SECTOR]
    }

    /** Opens the two files of a disk that holds a file system. */
    constructor Mount(d: DiskDriver, ghost g: Fs)
      requires FsInv(d.sectors, g)
      ensures Valid(g) && disk == d && fresh(freeMapFile) && fresh(directoryFile)
      ensures fresh(freeMapFile.hdr) && fresh(directoryFile.hdr)
    {
      NodeOnDisk(d.sectors, g, FREE_MAP_SECTOR);
      NodeOnDisk(d.sectors, g, ROOT_SECTOR);
      var mapFile := Open(d, FREE_MAP_SECTOR, g.nodes[FREE_MAP_SECTOR]);
      var rootFile := Open(d, ROOT_SECTOR, g.nodes[ROOT_SECTOR]);
      disk, freeMapFile, directoryFile := d, mapFile, rootFile;
    }

    /** Writes an empty file system to the disk and opens its two files. */
    constructor Format(d: DiskDriver, junk: int)
      requires CanFormat(junk)
      modifies d
      ensures disk == d && FormattedWith(d.sectors, junk)
      ensures Valid(InitialFs(MapHeader(junk), RootHeader(MapHeader(junk))))
    {
      var mapFile, rootFile := FormatDisk(d, junk);
      FormatEstablishes(d.sectors, junk);
      disk, freeMapFile, directoryFile := d, mapFile, rootFile;
    }

    method FindDir(path: CString, ghost g: Fs) returns (sector: int, leaf: CString)
      requires Valid(g)
      ensures WalkEnds(disk.sectors, g, path, sector, leaf)
    {
      var directory := new Directory();
      NodeOnDisk(disk.sectors, g, ROOT_SECTOR);
      directory.FetchFrom(disk, directoryFile);
      sector, leaf := WalkPath(disk, directory, path, g);
    }

    method Create(path: CString, size: int, ghost g: Fs) returns (r: Status)
      requires Valid(g) && ValidOp(Op.Create(path, size))
      modifies disk
      ensures Step(old(disk.sectors), Op.Create(path, size), r, disk.sectors)
    {
      var op := Op.Create(path, size);
      ghost var d := disk.sectors;
      var p, leaf := FindDir(path, g);
      if p == ERROR {
        r := InexistFile;
        NoParentIsStep(d, op);
      } else {
        ParentReady(d, g, op, p, leaf);
        r := CreateIn(disk, freeMapFile, op, p, leaf, g.nodes[p]);
        AddIsStep(d, g, op, r, disk.sectors, p, leaf);
      }
    }

    method Mkdir(path: CString, ghost g: Fs) returns (r: Status)
      requires Valid(g)
      modifies disk
      ensures Step(old(disk.sectors), Op.Mkdir(path), r, disk.sectors)
    {
      var op := Op.Mkdir(path);
      ghost var d := disk.sectors;
      var p, leaf := FindDir(path, g);
      if p < 0 {
        r := InexistDirectory;
        NoParentIsStep(d, op);
      } else {
        ParentReady(d, g, op, p, leaf);
        DirSizeFits(d, g);
        r := MkdirIn(disk, freeMapFile, op, p, leaf, g.nodes[p]);
        AddIsStep(d, g, op, r, disk.sectors, p, leaf);
      }
    }

    method Remove(path: CString, ghost g: Fs) returns (r: Status)
      requires Valid(g)
      modifies disk
      ensures Step(old(disk.sectors), Op.Remove(path), r, disk.sectors)
    {
      var op := Op.Remove(path);
      ghost var d := disk.sectors;
      var p, leaf := FindDir(path, g);
      if p == ERROR {
        r := InexistDirectory;
        NoParentIsStep(d, op);
      } else {
        TargetReady(d, g, p, leaf);
        r := RemoveIn(disk, freeMapFile, op, p, leaf, g.nodes[p]);
        RemoveIsStep(d, g, op, r, disk.sectors, p, leaf);
      }
    }

    method Rmdir(path: CString, ghost g: Fs) returns (r: Status)
      requires Valid(g)
      modifies disk
      ensures Step(old(disk.sectors), Op.Rmdir(path), r, disk.sectors)
    {
      var op := Op.Rmdir(path);
      ghost var d := disk.sectors;
      var p, leaf := FindDir(path, g);
      if p < 0 {
        r := InexistDirectory;
        NoParentIsStep(d, op);
      } else {
        TargetReady(d, g, p, leaf);
        r := RmdirIn(disk, freeMapFile, op, p, leaf, g.nodes[p]);
        RemoveIsStep(d, g, op, r, disk.sectors, p, leaf);
      }
    }

    /** Any operation leaves a valid file system with the same unnamed files behind. */
    method Perform(op: Op, ghost g: Fs) returns (r: Status, ghost g': Fs)
      requires Valid(g) && ValidOp(op)
      modifies disk
      ensures Step(old(disk.sectors), op, r, disk.sectors)
      ensures Valid(g') && g'.roots == g.roots
    {
      match op {
        case Create(path, size) => r := Create(path, size, g);
        case Mkdir(path) => r := Mkdir(path, g);
        case Remove(path) => r := Remove(path, g);
        case Rmdir(path) => r := Rmdir(path, g);
      }
      g' := AfterStep(old(disk.sectors), g, op, r, disk.sectors);
    }
  }
}
