/**
 Create, Mkdir, Remove and Rmdir as steps from disk to disk
 (filesys/filesys.cc), and the proof that every run of them from a freshly
 formatted disk keeps the file system consistent.
 */
module FsSteps {
  import opened Layout
  import opened BitMaps
  import opened DiskImage
  import opened FileHeaders
  import opened OpenFiles
  import opened Directories
  import opened Paths
  import opened FileTree
  import opened FsDisk

  datatype Op = Create(path: CString, size: int) | Mkdir(path: CString) | Remove(path: CString) | Rmdir(path: CString)

  /** The sizes Allocate does not reject with an assertion. */
  predicate ValidOp(op: Op) { op.Create? ==> IsInt32(op.size) && op.size <= MAX_FILE_LENGTH }

  /** The bitmap read from disk. */
  function MarksAt(d: Disk): set<int> { DiskMarks(d, FetchHeader(d, FREE_MAP_SECTOR)) }

  function NewSector(d: Disk): int { FirstClear(MarksAt(d), NUM_SECTORS) }

  function IsDirFlag(op: Op): int { if op.Mkdir? then 1 else 0 }

  function SizeOf(op: Op): int { if op.Create? then op.size else DIR_SIZE }

  // ----- what the operations answer -----

  predicate NameTaken(op: Op, t: Table, leaf: CString) {
    if op.Create? then FindSector(t, leaf) != ERROR else FindSector(t, leaf) >= 0
  }

  /** Create and Mkdir differ in when they look for a free directory slot. */
  function AddStatusOf(d: Disk, op: Op, t: Table, leaf: CString): Status {
    var m, s := MarksAt(d), NewSector(d);
    if NameTaken(op, t, leaf) then AlreadyInDirectory
    else if s == ERROR then OutOfDisk
    else
      var slot := AddStatus(t, leaf);
      var room := CanAllocate(m + {s}, SizeOf(op));
      if op.Create? then (if slot != NoError then slot else if room then NoError else OutOfDisk)
      else (if !room then OutOfDisk else slot)
  }

  function RemoveStatusOf(d: Disk, op: Op, t: Table, leaf: CString): Status {
    var s := FindSector(t, leaf);
    if op.Remove? then
      (if s == ERROR then InexistFile else if IsDirAt(d, s) then NotAFile else NoError)
    else
      (if s < 0 then InexistDirectory
       else if !IsDirAt(d, s) then NotADirectory
       else if !NoEntries(TableAt(d, s)) then DirectoryNotEmpty
       else NoError)
  }

  function StatusOf(d: Disk, op: Op): Status {
    match FindDir(d, op.path)
    case NotFound => if op.Create? then InexistFile else InexistDirectory
    case Found(p, leaf) =>
      if op.Create? || op.Mkdir? then AddStatusOf(d, op, TableAt(d, p), leaf)
      else RemoveStatusOf(d, op, TableAt(d, p), leaf)
  }

  // ----- what the operations do to the disk when they succeed -----

  /** A file with header h appears in sector s, and the parent directory and
      the bitmap are rewritten. */
  ghost predicate FileAdded(d: Disk, d': Disk, s: int, h: Header, ph: Header, t: Table) {
    var mh := FetchHeader(d, FREE_MAP_SECTOR);
    && SameExcept(d, d', SetOf(Owned(s, h)) + SetOf(ph.data) + SetOf(mh.data))
    && Stored(d', s, h)
    && TableOf(d', ph) == t
    && (h.isdir == 1 ==> TableOf(d', h) == EmptyTable())
    && DiskMarks(d', mh) == MarksAt(d) + SetOf(Owned(s, h))
  }

  ghost predicate FileRemoved(d: Disk, d': Disk, s: int, h: Header, ph: Header, t: Table) {
    var mh := FetchHeader(d, FREE_MAP_SECTOR);
    && SameExcept(d, d', SetOf(ph.data) + SetOf(mh.data))
    && TableOf(d', ph) == t
    && DiskMarks(d', mh) == MarksAt(d) - SetOf(Owned(s, h))
  }

  /** The header a successful Create or Mkdir writes. */
  ghost function NewHeader(d: Disk, op: Op): Header {
    if SectorsFor(SizeOf(op)) >= 0 && HeaderCount(SectorsFor(SizeOf(op))) >= 0
    then AllocatedHeader(MarksAt(d) + {NewSector(d)}, IsDirFlag(op), SizeOf(op)) else Header(0, 0, [], [])
  }

  ghost predicate Effect(d: Disk, op: Op, d': Disk) {
    match FindDir(d, op.path)
    case NotFound => false
    case Found(p, leaf) =>
      var ph, t := FetchHeader(d, p), TableAt(d, p);
      if op.Create? || op.Mkdir? then
        FileAdded(d, d', NewSector(d), NewHeader(d, op), ph, Added(t, leaf, NewSector(d)))
      else
        var s := FindSector(t, leaf);
        FileRemoved(d, d', s, FetchHeader(d, s), ph, Removed(t, leaf))
  }

  /** How an operation may end: an error changes nothing. */
  ghost predicate Step(d: Disk, op: Op, r: Status, d': Disk) {
    r == StatusOf(d, op) && if r == NoError then Effect(d, op, d') else d' == d
  }

  // ----- adding a file -----

  /** What a successful Create or Mkdir found, in terms of the abstract file system. */
  ghost predicate Addable(d: Disk, g: Fs, op: Op, p: int, leaf: CString) {
    var s := NewSector(d);
    && p in g.tables
    && AddStatus(g.tables[p], leaf) == NoError
    && s != ERROR && CanAllocate(g.marks + {s}, SizeOf(op))
  }

  lemma AddFound(d: Disk, g: Fs, op: Op)
    requires FsInv(d, g) && (op.Create? || op.Mkdir?) && StatusOf(d, op) == NoError
    ensures FindDir(d, op.path).Found?
    ensures var Found(p, leaf) := FindDir(d, op.path); Addable(d, g, op, p, leaf)
    ensures MarksAt(d) == g.marks
  {
    FindDirIsDirectory(d, g, ROOT_SECTOR, op.path);
    MapFetched(d, g);
    var Found(p, leaf) := FindDir(d, op.path);
    TableFetched(d, g, p);
    AddSucceeds(d, op, g.tables[p], leaf);
  }

  lemma AddSucceeds(d: Disk, op: Op, t: Table, leaf: CString)
    requires AddStatusOf(d, op, t, leaf) == NoError
    ensures AddStatus(t, leaf) == NoError && NewSector(d) != ERROR && CanAllocate(MarksAt(d) + {NewSector(d)}, SizeOf(op))
  {
  }

  /** The bitmap on disk is the one of the abstract file system. */
  lemma MapFetched(d: Disk, g: Fs)
    requires FsInv(d, g)
    ensures FetchHeader(d, FREE_MAP_SECTOR) == g.nodes[FREE_MAP_SECTOR] && MarksAt(d) == g.marks
  {
    FsInvIs(d, g);
    NodeFetched(d, g, FREE_MAP_SECTOR);
  }

  lemma NewHeaderFits(d: Disk, g: Fs, op: Op)
    requires MarksAt(d) == g.marks && NewSector(d) != ERROR && CanAllocate(g.marks + {NewSector(d)}, SizeOf(op))
    requires ValidOp(op) && DIR_SIZE <= MAX_FILE_LENGTH
    ensures var s, h := NewSector(d), NewHeader(d, op);
            && WellFormed(s, h) && SetOf(Owned(s, h)) !! g.marks && h.isdir == IsDirFlag(op) && h.numBytes == SizeOf(op)
  {
    var s, m := NewSector(d), g.marks;
    MaxFileLengthFits();
    FirstClearLeast(m, NUM_SECTORS);
    AllocatedIsFresh(m + {s}, IsDirFlag(op), SizeOf(op), s);
    OwnedSplit(s, NewHeader(d, op));
  }

  /** The directory entry a successful Create or Mkdir adds. */
  ghost function NewEntry(d: Disk, leaf: CString): DirEntry { DirEntry(true, NewSector(d), Field(leaf)) }

  lemma AddIsInsert(d: Disk, g: Fs, op: Op, p: int, leaf: CString)
    requires FsInv(d, g) && MarksAt(d) == g.marks && Addable(d, g, op, p, leaf)
    requires ValidOp(op) && DIR_SIZE <= MAX_FILE_LENGTH
    ensures CanInsert(g, p, FreeFrom(g.tables[p], 0), NewEntry(d, leaf), NewHeader(d, op))
    ensures Added(g.tables[p], leaf, NewSector(d)) == g.tables[p][FreeFrom(g.tables[p], 0) := NewEntry(d, leaf)]
  {
    FsInvIs(d, g);
    NewHeaderFits(d, g, op);
    assert IsDir(g, p) && ValidTable(g.tables[p]);
    OwnedParts(NewSector(d), NewHeader(d, op));
    AddedValid(g.tables[p], leaf, NewSector(d));
  }

  /** The file system after a successful Create or Mkdir. */
  ghost function AddResult(d: Disk, g: Fs, op: Op, p: int, leaf: CString): Fs
    requires p in g.tables && p in g.depth && AddStatus(g.tables[p], leaf) == NoError
  {
    Insert(g, p, FreeFrom(g.tables[p], 0), NewEntry(d, leaf), NewHeader(d, op))
  }

  /** The sectors named by a change of two files' data. */
  lemma TwoFilesTouched(d: Disk, d': Disk, g: Fs, p: int, X: set<int>)
    requires p in g.nodes && FREE_MAP_SECTOR in g.nodes && X !! g.marks
    requires SameExcept(d, d', X + SetOf(g.nodes[p].data) + SetOf(g.nodes[FREE_MAP_SECTOR].data))
    ensures Touches(d, d', g, {p, FREE_MAP_SECTOR}, X)
  {
    forall k | OnDisk(k) && d'[k] != d[k]
      ensures k in X || DataOf(g, {p, FREE_MAP_SECTOR}, k)
    {
      assert k in SetOf(g.nodes[p].data) ==> DataOf(g, {p, FREE_MAP_SECTOR}, k);
      assert k in SetOf(g.nodes[FREE_MAP_SECTOR].data) ==> DataOf(g, {p, FREE_MAP_SECTOR}, k);
    }
  }

  lemma DirSizeFits(d: Disk, g: Fs)
    requires FsInv(d, g)
    ensures DIR_SIZE <= MAX_FILE_LENGTH
  {
    FsInvIs(d, g);
    assert WellFormed(ROOT_SECTOR, g.nodes[ROOT_SECTOR]);
    SizesBound(g.nodes[ROOT_SECTOR]);
  }

  lemma AddResultIs(d: Disk, g: Fs, op: Op, p: int, leaf: CString)
    requires FsInv(d, g) && MarksAt(d) == g.marks && Addable(d, g, op, p, leaf) && ValidOp(op)
    ensures p in g.depth && p in g.nodes
    ensures var g', s, h := AddResult(d, g, op, p, leaf), NewSector(d), NewHeader(d, op);
            && TreeInv(g') && s !in g.nodes && SetOf(Owned(s, h)) !! g.marks && FREE_MAP_SECTOR in g.nodes
            && AddedTo(g, g', s, h, p, Added(g.tables[p], leaf, s))
  {
    FsInvIs(d, g);
    DirSizeFits(d, g);
    AddIsInsert(d, g, op, p, leaf);
    var i, e, h := FreeFrom(g.tables[p], 0), NewEntry(d, leaf), NewHeader(d, op);
    InsertKeepsInv(g, p, i, e, h);
    InsertIsNew(g, p, i, e, h);
    InsertIsAdded(g, p, i, e, h);
  }

  lemma InsertIsAdded(g: Fs, p: int, i: int, e: DirEntry, h: Header)
    requires p in g.tables && 0 <= i < |g.tables[p]| && p in g.depth
    ensures AddedTo(g, Insert(g, p, i, e, h), e.sector, h, p, g.tables[p][i := e])
  {
  }

  ghost predicate AddedTo(g: Fs, g': Fs, s: int, h: Header, p: int, t: Table) {
    && g'.nodes == g.nodes[s := h] && g'.marks == g.marks + SetOf(Owned(s, h)) && g'.roots == g.roots
    && g'.tables == if h.isdir == 1 then g.tables[p := t][s := EmptyTable()] else g.tables[p := t]
  }

  lemma AddChanges(d: Disk, d': Disk, g: Fs, g': Fs, s: int, h: Header, p: int, t: Table)
    requires MarksAt(d) == g.marks && p in g.nodes && FREE_MAP_SECTOR in g.nodes && s !in g.nodes
    requires FetchHeader(d, FREE_MAP_SECTOR) == g.nodes[FREE_MAP_SECTOR] && FREE_MAP_SECTOR !in g.tables
    requires FileAdded(d, d', s, h, g.nodes[p], t) && AddedTo(g, g', s, h, p, t) && g.tables.Keys <= g.nodes.Keys
    requires p != FREE_MAP_SECTOR
    ensures Changes(d', g, g', {p, FREE_MAP_SECTOR})
  {
    AddedTables(d', g, g', s, h, p, t);
  }

  lemma AddedTables(d': Disk, g: Fs, g': Fs, s: int, h: Header, p: int, t: Table)
    requires p in g.nodes && s !in g.nodes && AddedTo(g, g', s, h, p, t) && g.tables.Keys <= g.nodes.Keys
    requires TableOf(d', g.nodes[p]) == t && (h.isdir == 1 ==> TableOf(d', h) == EmptyTable())
    requires FREE_MAP_SECTOR in g.nodes && FREE_MAP_SECTOR !in g.tables && p != FREE_MAP_SECTOR
    ensures forall x :: x in g'.tables && x in g'.nodes && (x in {p, FREE_MAP_SECTOR} || x !in g.nodes) ==>
                          TableOf(d', g'.nodes[x]) == g'.tables[x]
    ensures forall x :: x in g'.tables && x in g.nodes && x !in {p, FREE_MAP_SECTOR} ==> x in g.tables && g'.tables[x] == g.tables[x]
  {
    forall x | x in g'.tables && x in g'.nodes && (x in {p, FREE_MAP_SECTOR} || x !in g.nodes)
      ensures TableOf(d', g'.nodes[x]) == g'.tables[x]
    {
      assert x == p || x == s;
    }
  }

  /** The unnamed files and the headers of the two permanent ones are the same. */
  ghost predicate SameRoots(g: Fs, g': Fs) {
    && g'.roots == g.roots
    && forall s :: (s == FREE_MAP_SECTOR || s == ROOT_SECTOR) && s in g.nodes ==> s in g'.nodes && g'.nodes[s] == g.nodes[s]
  }

  /** A successful Create or Mkdir keeps the invariant. */
  lemma AddKeepsInv(d: Disk, g: Fs, op: Op, d': Disk, p: int, leaf: CString)
    requires FsInv(d, g) && MarksAt(d) == g.marks && Addable(d, g, op, p, leaf) && ValidOp(op)
    requires p in g.depth && p in g.nodes
    requires FileAdded(d, d', NewSector(d), NewHeader(d, op), g.nodes[p], Added(g.tables[p], leaf, NewSector(d)))
    ensures FsInv(d', AddResult(d, g, op, p, leaf)) && SameRoots(g, AddResult(d, g, op, p, leaf))
    ensures Touches(d, d', g, {p, FREE_MAP_SECTOR}, SetOf(Owned(NewSector(d), NewHeader(d, op))))
  {
    FsInvIs(d, g);
    var s, h := NewSector(d), NewHeader(d, op);
    AddResultIs(d, g, op, p, leaf);
    NodeFetched(d, g, FREE_MAP_SECTOR);
    TablesAreNodes(g);
    AddChanges(d, d', g, AddResult(d, g, op, p, leaf), s, h, p, Added(g.tables[p], leaf, s));
    TwoFilesTouched(d, d', g, p, SetOf(Owned(s, h)));
    RepAfter(d, d', g, AddResult(d, g, op, p, leaf), {p, FREE_MAP_SECTOR}, SetOf(Owned(s, h)));
  }

  // ----- removing a file -----

  /** What a successful Remove or Rmdir found. */
  ghost predicate Removable(g: Fs, p: int, leaf: CString) {
    && p in g.tables && FindSector(g.tables[p], leaf) != ERROR
    && var i, s := FindIndex(g.tables[p], leaf), FindSector(g.tables[p], leaf);
       && NamesFile(g, p, i, s) && s in g.nodes && s !in g.roots
       && (s in g.tables ==> NoEntries(g.tables[s]))
  }

  lemma LookupRemovable(d: Disk, g: Fs, op: Op, p: int, leaf: CString)
    requires FsInv(d, g) && (op.Remove? || op.Rmdir?) && p in g.tables && RemoveStatusOf(d, op, g.tables[p], leaf) == NoError
    ensures Removable(g, p, leaf) && FetchHeader(d, FindSector(g.tables[p], leaf)) == g.nodes[FindSector(g.tables[p], leaf)]
  {
    LookupIsNode(d, g, p, leaf);
    var s := FindSector(g.tables[p], leaf);
    if s in g.tables {
      TableFetched(d, g, s);
    }
  }

  lemma RemoveFound(d: Disk, g: Fs, op: Op)
    requires FsInv(d, g) && (op.Remove? || op.Rmdir?) && StatusOf(d, op) == NoError
    ensures FindDir(d, op.path).Found?
    ensures var Found(p, leaf) := FindDir(d, op.path);
            Removable(g, p, leaf) && FetchHeader(d, FindSector(g.tables[p], leaf)) == g.nodes[FindSector(g.tables[p], leaf)]
    ensures MarksAt(d) == g.marks
  {
    FsInvIs(d, g);
    FindDirIsDirectory(d, g, ROOT_SECTOR, op.path);
    NodeFetched(d, g, FREE_MAP_SECTOR);
    var Found(p, leaf) := FindDir(d, op.path);
    TableFetched(d, g, p);
    LookupRemovable(d, g, op, p, leaf);
  }

  ghost function RemoveResult(g: Fs, p: int, leaf: CString): Fs
    requires Removable(g, p, leaf)
  {
    Drop(Unlink(g, p, FindIndex(g.tables[p], leaf)), FindSector(g.tables[p], leaf))
  }

  lemma RemoveResultIs(g: Fs, p: int, leaf: CString)
    requires TreeInv(g) && Removable(g, p, leaf)
    ensures var g', s := RemoveResult(g, p, leaf), FindSector(g.tables[p], leaf);
            && TreeInv(g') && s != p && s != FREE_MAP_SECTOR && s != ROOT_SECTOR
            && RemovedFrom(g, g', s, p, Removed(g.tables[p], leaf))
  {
    var i, s := FindIndex(g.tables[p], leaf), FindSector(g.tables[p], leaf);
    var g1 := Unlink(g, p, i);
    UnlinkKeepsInv(g, p, i);
    assert Entry(g, p, i) && g.depth[s] == g.depth[p] + 1;
    assert CanDrop(g1, s);
    DropKeepsInv(g1, s);
  }

  ghost predicate RemovedFrom(g: Fs, g': Fs, s: int, p: int, t: Table) {
    && g'.nodes == g.nodes - {s} && s in g.nodes && g'.marks == g.marks - SetOf(Owned(s, g.nodes[s]))
    && g'.tables == g.tables[p := t] - {s} && g'.roots == g.roots
  }

  lemma RemoveChanges(d: Disk, d': Disk, g: Fs, g': Fs, s: int, p: int, t: Table)
    requires MarksAt(d) == g.marks && p in g.nodes && FREE_MAP_SECTOR in g.nodes && s != p && s != FREE_MAP_SECTOR
    requires FetchHeader(d, FREE_MAP_SECTOR) == g.nodes[FREE_MAP_SECTOR] && FREE_MAP_SECTOR !in g.tables
    requires RemovedFrom(g, g', s, p, t) && FileRemoved(d, d', s, g.nodes[s], g.nodes[p], t)
    requires g.tables.Keys <= g.nodes.Keys && p != FREE_MAP_SECTOR
    ensures Changes(d', g, g', {p, FREE_MAP_SECTOR})
  {
  }

  /** A successful Remove or Rmdir keeps the invariant. */
  lemma RemoveKeepsInv(d: Disk, g: Fs, d': Disk, p: int, leaf: CString)
    requires FsInv(d, g) && MarksAt(d) == g.marks && Removable(g, p, leaf) && p in g.nodes
    requires var s := FindSector(g.tables[p], leaf);
             FileRemoved(d, d', s, g.nodes[s], g.nodes[p], Removed(g.tables[p], leaf))
    ensures FsInv(d', RemoveResult(g, p, leaf)) && SameRoots(g, RemoveResult(g, p, leaf))
    ensures Touches(d, d', g, {p, FREE_MAP_SECTOR}, {})
  {
    FsInvIs(d, g);
    var g', s := RemoveResult(g, p, leaf), FindSector(g.tables[p], leaf);
    RemoveResultIs(g, p, leaf);
    NodeFetched(d, g, FREE_MAP_SECTOR);
    TablesAreNodes(g);
    RemoveChanges(d, d', g, g', s, p, Removed(g.tables[p], leaf));
    TwoFilesTouched(d, d', g, p, {});
    RepAfter(d, d', g, g', {p, FREE_MAP_SECTOR}, {});
  }

  // ----- every step -----

  /** The abstract file system after a step. */
  ghost function NextFs(d: Disk, g: Fs, op: Op): Fs {
    match FindDir(d, op.path)
    case NotFound => g
    case Found(p, leaf) =>
      if StatusOf(d, op) != NoError then g
      else if op.Create? || op.Mkdir? then
        (if p in g.tables && p in g.depth && AddStatus(g.tables[p], leaf) == NoError
         then AddResult(d, g, op, p, leaf) else g)
      else (if Removable(g, p, leaf) then RemoveResult(g, p, leaf) else g)
  }

  /** The directory whose table the operation rewrites. */
  ghost function ParentOf(d: Disk, op: Op): int {
    match FindDir(d, op.path) case NotFound => ERROR case Found(p, _) => p
  }

  /** The sectors of the file the operation adds. */
  ghost function NewSectors(d: Disk, op: Op): set<int> {
    if StatusOf(d, op) == NoError && (op.Create? || op.Mkdir?) then SetOf(Owned(NewSector(d), NewHeader(d, op))) else {}
  }

  lemma StepTouches(d: Disk, g: Fs, op: Op, r: Status, d': Disk)
    requires FsInv(d, g) && ValidOp(op) && Step(d, op, r, d')
    ensures FsInv(d', NextFs(d, g, op)) && SameRoots(g, NextFs(d, g, op))
    ensures Touches(d, d', g, {ParentOf(d, op), FREE_MAP_SECTOR}, NewSectors(d, op))
  {
    if r != NoError {
    } else if op.Create? || op.Mkdir? {
      AddFound(d, g, op);
      var Found(p, leaf) := FindDir(d, op.path);
      TableFetched(d, g, p);
      NodeFetched(d, g, p);
      AddKeepsInv(d, g, op, d', p, leaf);
    } else {
      RemoveFound(d, g, op);
      var Found(p, leaf) := FindDir(d, op.path);
      TableFetched(d, g, p);
      NodeFetched(d, g, p);
      RemoveKeepsInv(d, g, d', p, leaf);
    }
  }

  /** A step changes the byte contents of no file but its parent directory and
      the bitmap, and removes at most the file it names. */
  lemma StepKeepsContents(d: Disk, g: Fs, op: Op, r: Status, d': Disk, s: int)
    requires FsInv(d, g) && ValidOp(op) && Step(d, op, r, d')
    requires s in g.nodes && s != FREE_MAP_SECTOR && (r == NoError ==> s != ParentOf(d, op))
    ensures FileBytes(d', g.nodes[s]) == FileBytes(d, g.nodes[s])
    ensures r != NoError ==> d' == d
  {
    FsInvIs(d, g);
    if r == NoError {
      StepTouches(d, g, op, r, d');
      OtherKept(d, d', g, ParentOf(d, op), NewSectors(d, op), s);
    }
  }

  lemma OtherKept(d: Disk, d': Disk, g: Fs, p: int, X: set<int>, s: int)
    requires TreeInv(g) && Touches(d, d', g, {p, FREE_MAP_SECTOR}, X) && s in g.nodes && s != p && s != FREE_MAP_SECTOR
    ensures FileBytes(d', g.nodes[s]) == FileBytes(d, g.nodes[s])
  {
    ContentsKept(d, d', g, {p, FREE_MAP_SECTOR}, X, s);
  }

  // ----- formatting -----

  const FIRST_MARKS := {FREE_MAP_SECTOR, ROOT_SECTOR}

  /** The two files a format creates; nothing sets the bitmap header's isdir field. */
  function MapHeader(junk: int): Header
    requires SectorsFor(FREE_MAP_SIZE) >= 0 && HeaderCount(SectorsFor(FREE_MAP_SIZE)) >= 0
  {
    AllocatedHeader(FIRST_MARKS, junk, FREE_MAP_SIZE)
  }

  function RootHeader(mapHdr: Header): Header
    requires SectorsFor(DIR_SIZE) >= 0 && HeaderCount(SectorsFor(DIR_SIZE)) >= 0
  {
    AllocatedHeader(FIRST_MARKS + HeaderAndData(mapHdr), 1, DIR_SIZE)
  }

  /** The assertions of the constructor: both files fit on the disk. */
  ghost predicate CanFormat(junk: int) {
    && IsInt32(junk) && FREE_MAP_SIZE <= MAX_FILE_LENGTH && IsInt32(DIR_SIZE) && DIR_SIZE <= MAX_FILE_LENGTH
    && SectorsFor(FREE_MAP_SIZE) >= 0 && HeaderCount(SectorsFor(FREE_MAP_SIZE)) >= 0
    && SectorsFor(DIR_SIZE) >= 0 && HeaderCount(SectorsFor(DIR_SIZE)) >= 0
    && CanAllocate(FIRST_MARKS, FREE_MAP_SIZE)
    && CanAllocate(FIRST_MARKS + HeaderAndData(MapHeader(junk)), DIR_SIZE)
  }

  /** The data and chained header sectors of a new file. */
  function SectorCount(fileSize: int): int { SectorsFor(fileSize) + HeaderCount(SectorsFor(fileSize)) }

  lemma FirstClearCount()
    ensures NUM_SECTORS >= 32 && NumClearOf(FIRST_MARKS, NUM_SECTORS) == NUM_SECTORS - 2
  {
    assert FIRST_MARKS <= Range(NUM_SECTORS);
    assert |FIRST_MARKS| == 2;
    NumClearCount(FIRST_MARKS, NUM_SECTORS);
  }

  /** The constructor's assertions hold exactly when the disk has room for the
      bitmap, the root directory and their headers. */
  lemma CanFormatIff(junk: int)
    requires IsInt32(junk) && FREE_MAP_SIZE <= MAX_FILE_LENGTH && 0 <= DIR_SIZE <= MAX_FILE_LENGTH
    ensures CanFormat(junk) <==> 2 + SectorCount(FREE_MAP_SIZE) + SectorCount(DIR_SIZE) <= NUM_SECTORS
  {
    MaxFileLengthFits();
    FirstClearCount();
    SectorsForBounds(FREE_MAP_SIZE);
    SectorsForBounds(DIR_SIZE);
    HeaderCountExact(SectorsFor(FREE_MAP_SIZE));
    HeaderCountExact(SectorsFor(DIR_SIZE));
    if CanAllocate(FIRST_MARKS, FREE_MAP_SIZE) {
      AllocatedCount(FIRST_MARKS, junk, FREE_MAP_SIZE);
    }
  }

  /** The disk holds a bitmap and an empty root directory, and nothing else. */
  ghost predicate FormattedWith(d: Disk, junk: int) {
    && CanFormat(junk)
    && var mh := MapHeader(junk);
       var rh := RootHeader(mh);
       && Stored(d, FREE_MAP_SECTOR, mh) && Stored(d, ROOT_SECTOR, rh)
       && TableOf(d, rh) == EmptyTable()
       && DiskMarks(d, mh) == FIRST_MARKS + HeaderAndData(mh) + HeaderAndData(rh)
  }

  ghost predicate Formatted(d: Disk) { exists junk :: FormattedWith(d, junk) }

  ghost function InitialFs(mh: Header, rh: Header): Fs {
    Fs(map[FREE_MAP_SECTOR := mh, ROOT_SECTOR := rh], map[ROOT_SECTOR := EmptyTable()],
       map[FREE_MAP_SECTOR := 0, ROOT_SECTOR := 0], {FREE_MAP_SECTOR, ROOT_SECTOR},
       FIRST_MARKS + HeaderAndData(mh) + HeaderAndData(rh))
  }

  lemma FormatHeaders(junk: int)
    requires CanFormat(junk)
    ensures var mh := MapHeader(junk);
            var rh := RootHeader(mh);
            && WellFormed(FREE_MAP_SECTOR, mh) && WellFormed(ROOT_SECTOR, rh)
            && HeaderAndData(mh) !! FIRST_MARKS && HeaderAndData(rh) !! FIRST_MARKS + HeaderAndData(mh)
  {
    var mh := MapHeader(junk);
    AllocatedIsFresh(FIRST_MARKS, junk, FREE_MAP_SIZE, FREE_MAP_SECTOR);
    AllocatedIsFresh(FIRST_MARKS + HeaderAndData(mh), 1, DIR_SIZE, ROOT_SECTOR);
  }

  lemma InitialOwns(mh: Header, rh: Header, s: int, k: int)
    ensures Owns(InitialFs(mh, rh), s, k) <==>
              || (s == FREE_MAP_SECTOR && (k == FREE_MAP_SECTOR || k in HeaderAndData(mh)))
              || (s == ROOT_SECTOR && (k == ROOT_SECTOR || k in HeaderAndData(rh)))
  {
    OwnedIs(FREE_MAP_SECTOR, mh);
    OwnedIs(ROOT_SECTOR, rh);
  }

  lemma InitialSectors(mh: Header, rh: Header)
    requires HeaderAndData(mh) !! FIRST_MARKS && HeaderAndData(rh) !! FIRST_MARKS + HeaderAndData(mh)
    ensures DisjointOk(InitialFs(mh, rh)) && MarksOk(InitialFs(mh, rh))
  {
    var g := InitialFs(mh, rh);
    forall s, k
      ensures Owns(g, s, k) <==>
                || (s == FREE_MAP_SECTOR && (k == FREE_MAP_SECTOR || k in HeaderAndData(mh)))
                || (s == ROOT_SECTOR && (k == ROOT_SECTOR || k in HeaderAndData(rh)))
    {
      InitialOwns(mh, rh, s, k);
    }
    forall k | k in g.marks
      ensures exists s :: Owns(g, s, k)
    {
      assert Owns(g, FREE_MAP_SECTOR, k) || Owns(g, ROOT_SECTOR, k);
    }
  }

  lemma InitialEntries(mh: Header, rh: Header)
    ensures forall p, i :: !Entry(InitialFs(mh, rh), p, i)
  {
    EmptyTableValid();
  }

  lemma InitialInv(mh: Header, rh: Header)
    requires WellFormed(FREE_MAP_SECTOR, mh) && WellFormed(ROOT_SECTOR, rh) && rh.isdir == 1
    requires mh.numBytes == FREE_MAP_SIZE && rh.numBytes == DIR_SIZE
    requires HeaderAndData(mh) !! FIRST_MARKS && HeaderAndData(rh) !! FIRST_MARKS + HeaderAndData(mh)
    ensures TreeInv(InitialFs(mh, rh))
  {
    InitialSectors(mh, rh);
    InitialNames(mh, rh);
    InitialNodes(mh, rh);
  }

  lemma InitialNodes(mh: Header, rh: Header)
    requires WellFormed(FREE_MAP_SECTOR, mh) && WellFormed(ROOT_SECTOR, rh) && rh.isdir == 1
    requires mh.numBytes == FREE_MAP_SIZE && rh.numBytes == DIR_SIZE
    ensures ShapeOk(InitialFs(mh, rh)) && NodesOk(InitialFs(mh, rh))
  {
    EmptyTableValid();
  }

  lemma InitialNames(mh: Header, rh: Header)
    ensures EntriesOk(InitialFs(mh, rh)) && NamesOk(InitialFs(mh, rh))
  {
    InitialEntries(mh, rh);
  }

  /** Formatting establishes the invariant. */
  lemma FormatEstablishes(d: Disk, junk: int)
    requires FormattedWith(d, junk)
    ensures var mh := MapHeader(junk); FsInv(d, InitialFs(mh, RootHeader(mh)))
  {
    var mh := MapHeader(junk);
    FormatHeaders(junk);
    InitialInv(mh, RootHeader(mh));
    InitialRep(d, mh, RootHeader(mh));
  }

  lemma InitialRep(d: Disk, mh: Header, rh: Header)
    requires Stored(d, FREE_MAP_SECTOR, mh) && Stored(d, ROOT_SECTOR, rh) && TableOf(d, rh) == EmptyTable()
    requires DiskMarks(d, mh) == FIRST_MARKS + HeaderAndData(mh) + HeaderAndData(rh)
    ensures Rep(d, InitialFs(mh, rh))
  {
    InitialHeaders(d, mh, rh);
    assert TablesOnDisk(d, InitialFs(mh, rh));
  }

  lemma InitialHeaders(d: Disk, mh: Header, rh: Header)
    requires Stored(d, FREE_MAP_SECTOR, mh) && Stored(d, ROOT_SECTOR, rh)
    ensures HeadersOnDisk(d, InitialFs(mh, rh))
  {
  }

  // ----- every run -----

  /** The disks and answers of a run: disks[i + 1] and results[i] come from ops[i]. */
  datatype Run = Run(disks: seq<Disk>, ops: seq<Op>, results: seq<Status>)

  ghost predicate Steps(run: Run) {
    && |run.disks| == |run.ops| + 1 && |run.results| == |run.ops|
    && forall i :: 0 <= i < |run.ops| ==> StepAt(run, i)
  }

  ghost predicate IsRun(run: Run) { Steps(run) && Formatted(run.disks[0]) }

  ghost predicate StepAt(run: Run, i: nat)
    requires |run.disks| == |run.ops| + 1 && |run.results| == |run.ops| && i < |run.ops|
  {
    ValidOp(run.ops[i]) && Step(run.disks[i], run.ops[i], run.results[i], run.disks[i + 1])
  }

  /** The disk holds a file system whose only unnamed files are the bitmap and
      the root directory. */
  ghost predicate Consistent(d: Disk, g: Fs) { FsInv(d, g) && g.roots == {FREE_MAP_SECTOR, ROOT_SECTOR} }

  lemma StepKeepsConsistent(d: Disk, g: Fs, op: Op, r: Status, d': Disk)
    requires Consistent(d, g) && ValidOp(op) && Step(d, op, r, d')
    ensures Consistent(d', NextFs(d, g, op))
  {
    StepTouches(d, g, op, r, d');
  }

  lemma FormattedIsConsistent(d: Disk) returns (g: Fs)
    requires Formatted(d)
    ensures Consistent(d, g)
  {
    var junk :| FormattedWith(d, junk);
    FormatEstablishes(d, junk);
    var mh := MapHeader(junk);
    g := InitialFs(mh, RootHeader(mh));
  }

  lemma NextInRun(run: Run, i: nat, g: Fs) returns (g': Fs)
    requires i < |run.ops| == |run.results| && |run.disks| == |run.ops| + 1 && Consistent(run.disks[i], g)
    ensures Steps(run) ==> Consistent(run.disks[i + 1], g')
  {
    g' := NextFs(run.disks[i], g, run.ops[i]);
    if Steps(run) {
      assert StepAt(run, i);
      StepKeepsConsistent(run.disks[i], g, run.ops[i], run.results[i], run.disks[i + 1]);
    }
  }

  lemma {:induction false} RunFrom(run: Run, g0: Fs, i: nat) returns (g: Fs)
    requires i < |run.disks| == |run.ops| + 1 && |run.results| == |run.ops| && Consistent(run.disks[0], g0)
    ensures Steps(run) ==> Consistent(run.disks[i], g)
    decreases i
  {
    g := g0;
    if i > 0 && Steps(run) {
      g := RunFrom(run, g0, i - 1);
      g := NextInRun(run, i - 1, g);
    }
  }

  /** Every disk of every run holds a consistent file system. */
  lemma RunIsConsistent(run: Run, i: nat) returns (g: Fs)
    requires IsRun(run) && i < |run.disks|
    ensures Consistent(run.disks[i], g)
  {
    g := FormattedIsConsistent(run.disks[0]);
    g := RunFrom(run, g, i);
  }

  /** According to the header in sector s of the disk, sector k belongs to that file. */
  ghost predicate OwnsOnDisk(d: Disk, s: int, k: int) { k in SetOf(Owned(s, FetchHeader(d, s))) }

  lemma OwnsIsOnDisk(d: Disk, g: Fs, s: int, k: int)
    requires FsInv(d, g) && s in g.nodes
    ensures OwnsOnDisk(d, s, k) <==> Owns(g, s, k)
  {
    NodeFetched(d, g, s);
  }

  /** What consistency says about the disk itself: the bitmap read from it marks
      exactly the sectors of the files, and no sector is in two files. */
  lemma ConsistentSectors(d: Disk, g: Fs)
    requires Consistent(d, g)
    ensures forall k :: k in MarksAt(d) <==> exists s :: s in g.nodes && OwnsOnDisk(d, s, k)
    ensures forall s, t, k :: s in g.nodes && t in g.nodes && OwnsOnDisk(d, s, k) && OwnsOnDisk(d, t, k) ==> s == t
  {
    FsInvIs(d, g);
    forall s, k | s in g.nodes
      ensures OwnsOnDisk(d, s, k) <==> Owns(g, s, k)
    {
      OwnsIsOnDisk(d, g, s, k);
    }
    NodeFetched(d, g, FREE_MAP_SECTOR);
  }

  lemma Accounting(d: Disk, g: Fs)
    requires FsInv(d, g)
    ensures NumClearOf(MarksAt(d), NUM_SECTORS) + OwnedBelow(g, NUM_SECTORS) == NUM_SECTORS
  {
    FsInvIs(d, g);
    NodeFetched(d, g, FREE_MAP_SECTOR);
    SectorAccounting(g);
  }

  /** On every disk of every run, the clear sectors of the bitmap and the sectors
      that the headers of all files list add up to the size of the disk. */
  lemma RunAccounting(run: Run, i: nat) returns (g: Fs)
    requires IsRun(run) && i < |run.disks|
    ensures Consistent(run.disks[i], g)
    ensures NumClearOf(MarksAt(run.disks[i]), NUM_SECTORS) + OwnedBelow(g, NUM_SECTORS) == NUM_SECTORS
  {
    g := RunIsConsistent(run, i);
    Accounting(run.disks[i], g);
  }
}
