/**
 Writes through open files (filesys/openfile.cc), growing ones and refused ones
 included, in any consistent file system: to files with a name and to files
 removed while they are open. And what happens when the open file lists fewer
 sectors than the file has by now.
 */
module FileWrites {
  import opened Layout
  import opened BitMaps
  import opened DiskImage
  import opened FileHeaders
  import opened OpenFiles
  import opened Directories
  import opened Paths
  import opened FileTree
  import opened FsDisk
  import opened FsSteps
  import opened FileSystemOps
  import opened FileGrowth
  import opened DeferredRemoval
  import opened PathStability

  // ----- header chains -----

  /** The header has exactly as many chained sectors as its data needs. */
  ghost predicate Exact(h: Header) { |h.chain| == HeaderCount(|h.data|) }

  ghost predicate ExactChains(g: Fs) {
    forall s {:trigger Exact(g.nodes[s])} :: s in g.nodes ==> Exact(g.nodes[s])
  }

  lemma HeaderCountMono(m: int, n: int)
    requires 0 <= m <= n <= MAX_DATA_SECTORS
    ensures HeaderCount(m) <= HeaderCount(n)
  {
    HeaderCountExact(m);
    HeaderCountExact(n);
    if HeaderCount(n) < HeaderCount(m) {
      TimesMono(HeaderCount(n), HeaderCount(m), DATAS_IN_SECTOR);
      if HeaderCount(n) < HeaderCount(m) - 1 {
        TimesMono(HeaderCount(n), HeaderCount(m) - 1, DATAS_IN_SECTOR);
      }
    }
  }

  /** A chain that can list n sectors is not shorter than the count for n. */
  lemma CountIsLeast(n: int, k: nat)
    requires 0 <= n <= MAX_DATA_SECTORS && n <= Capacity(k)
    ensures HeaderCount(n) <= k
  {
    HeaderCountExact(n);
    if k < HeaderCount(n) - 1 {
      TimesMono(k, HeaderCount(n) - 1, DATAS_IN_SECTOR);
    }
  }

  /** Growth that keeps the header usable keeps its chain exact. */
  lemma GrownIsExact(m: set<int>, s: int, h: Header, end: int)
    requires Exact(h) && SectorsFor(end) >= |h.data| && WellFormed(s, GrownHeader(m, h, end))
    ensures Exact(GrownHeader(m, h, end))
  {
    var h' := GrownHeader(m, h, end);
    SizesBound(h');
    CountIsLeast(|h'.data|, |h'.chain|);
    HeaderCountMono(|h.data|, |h'.data|);
  }

  lemma InitialIsExact(junk: int)
    requires CanFormat(junk)
    ensures var mh := MapHeader(junk); ExactChains(InitialFs(mh, RootHeader(mh)))
  {
  }

  lemma StepIsExact(d: Disk, g: Fs, op: Op)
    requires FsInv(d, g) && ValidOp(op) && ExactChains(g)
    ensures ExactChains(NextFs(d, g, op))
  {
    FsInvIs(d, g);
    if StatusOf(d, op) != NoError {
    } else if op.Create? || op.Mkdir? {
      AddIsExact(d, g, op);
    } else {
      RemovalNext(d, g, op);
      var Found(p, leaf) := FindDir(d, op.path);
      RemoveResultIs(g, p, leaf);
    }
  }

  lemma AddIsExact(d: Disk, g: Fs, op: Op)
    requires FsInv(d, g) && ValidOp(op) && ExactChains(g) && (op.Create? || op.Mkdir?) && StatusOf(d, op) == NoError
    ensures ExactChains(NextFs(d, g, op))
  {
    AddNext(d, g, op);
    var Found(p, leaf) := FindDir(d, op.path);
    AddResultIs(d, g, op, p, leaf);
    DirSizeFits(d, g);
    NewIsExact(d, op);
    AddedIsExact(g, NextFs(d, g, op), NewSector(d), NewHeader(d, op), p, Added(g.tables[p], leaf, NewSector(d)));
  }

  lemma NewIsExact(d: Disk, op: Op)
    requires ValidOp(op) && DIR_SIZE <= MAX_FILE_LENGTH
    ensures Exact(NewHeader(d, op))
  {
    MaxFileLengthFits();
    SectorsForBounds(SizeOf(op));
    if SizeOf(op) >= 0 {
      HeaderCountExact(SectorsFor(SizeOf(op)));
    }
  }

  lemma AddedIsExact(g: Fs, g': Fs, s: int, h: Header, p: int, t: Table)
    requires ExactChains(g) && AddedTo(g, g', s, h, p, t) && Exact(h)
    ensures ExactChains(g')
  {
    assert forall x :: x in g.nodes ==> Exact(g.nodes[x]);
  }

  lemma FormattedIsExact(d: Disk) returns (g: Fs)
    requires Formatted(d)
    ensures Consistent(d, g) && ExactChains(g)
  {
    var junk :| FormattedWith(d, junk);
    FormatEstablishes(d, junk);
    InitialIsExact(junk);
    var mh := MapHeader(junk);
    g := InitialFs(mh, RootHeader(mh));
  }

  // ----- writes -----

  /** A file that is neither a directory nor the bitmap. */
  ghost predicate IsRegular(g: Fs, s: int) { s in g.nodes && s !in g.tables && s != FREE_MAP_SECTOR }

  /** The header of an open file: the sectors on disk, and a length of its own,
      because growth inside the last sector is not written back. */
  function OpenHeader(d: Disk, s: int, length: int): Header { FetchHeader(d, s).(numBytes := length) }

  /** A write through an open file: its header before and after, the header of the
      bitmap file, and whether sectors have been added. */
  datatype Request = Request(before: Header, mapHdr: Header, position: int, bytes: seq<byte>, after: Header, grown: bool)

  datatype Part = InMemory | OnDisk | InFile | Growth

  /** One part of what is known about a write to the file in sector s: the open
      file lists the sectors of the file; what has happened to the disk, and to the
      file and the object; and whether sectors were added. */
  ghost predicate WritePart(d: Disk, w: Request, n: int, d': Disk, s: int, part: Part) {
    match part
    case InMemory => IsOpenAt(d, s, w.before) && w.mapHdr == FetchHeader(d, FREE_MAP_SECTOR)
    case OnDisk => WriteEffect(d, d', s, w.before, w.after, w.mapHdr, w.position + |w.bytes|, w.grown)
    case InFile => WriteResult(d, d', s, w.before, w.after, w.position, w.bytes, n, w.grown)
    case Growth => w.grown == AddsSectors(d, w.before, w.mapHdr, w.position, |w.bytes|)
  }

  /** The write goes to the file in sector s. The parts are only looked at where
      they are named. */
  ghost predicate WritesTo(d: Disk, w: Request, n: int, d': Disk, s: int) {
    forall part {:trigger WritePart(d, w, n, d', s, part)} :: WritePart(d, w, n, d', s, part)
  }

  /** The header of an open file lists the sectors of the file in sector s. */
  ghost predicate IsOpenAt(d: Disk, s: int, h: Header) { WellFormed(s, h) && h == OpenHeader(d, s, h.numBytes) }

  /** The file system after the write. */
  ghost function WrittenFs(g: Fs, s: int, w: Request): Fs { if w.grown then Grow(g, s, w.after) else g }

  /** Only data of one regular file has changed. */
  lemma DataWriteKeepsInv(d: Disk, d': Disk, g: Fs, s: int)
    requires FsInv(d, g) && IsRegular(g, s) && SameOutside(d, d', g.nodes[s].data)
    ensures FsInv(d', g)
  {
    FsInvIs(d, g);
    OutsideIsExcept(d, d', g.nodes[s].data);
    OneFileTouched(d, d', g, s);
    MarksKept(d, d', g, s);
    TablesAreNodes(g);
    UnchangedFs(d', g, s);
    RepAfter(d, d', g, g, {s}, {});
  }

  lemma UnchangedFs(d': Disk, g: Fs, s: int)
    requires s !in g.tables && FREE_MAP_SECTOR in g.nodes && DiskMarks(d', g.nodes[FREE_MAP_SECTOR]) == g.marks
    requires g.tables.Keys <= g.nodes.Keys
    ensures Changes(d', g, g, {s})
  {
  }

  /** The length in memory plays no part in growing the header. */
  lemma LengthIsIrrelevant(d: Disk, d': Disk, s: int, h: Header, length: int, h': Header, mh: Header, end: int)
    requires GrownTo(d, d', s, h, h', mh, end)
    ensures GrownTo(d, d', s, h.(numBytes := length), h', mh, end)
  {
    GrownToIs(d, d', s, h, h', mh, end);
    GrownToIs(d, d', s, h.(numBytes := length), h', mh, end);
    SameGrowth(DiskMarks(d, mh), h, length, end);
    assert Owned(s, h.(numBytes := length)) == Owned(s, h);
  }

  lemma SameGrowth(m: set<int>, h: Header, length: int, end: int)
    requires HeaderCount(|h.data|) >= |h.chain| && SectorsFor(end) >= |h.data|
    ensures var k := h.(numBytes := length);
            && GrownHeader(m, k, end) == GrownHeader(m, h, end) && (CanGrow(m, k, end) <==> CanGrow(m, h, end))
            && GrownChain(m, k) == GrownChain(m, h) && GrownData(m, k, end) == GrownData(m, h, end)
  {
  }

  lemma GrownWriteKeeps(d: Disk, d': Disk, g: Fs, s: int, h: Header, h': Header, mh: Header, end: int)
    requires FsInv(d, g) && ExactChains(g) && IsRegular(g, s)
    requires g.nodes[s] == h.(numBytes := g.nodes[s].numBytes) && mh == g.nodes[FREE_MAP_SECTOR]
    ensures GrownTo(d, d', s, h, h', mh, end) ==> FsInv(d', Grow(g, s, h')) && ExactChains(Grow(g, s, h'))
  {
    if GrownTo(d, d', s, h, h', mh, end) {
      LengthIsIrrelevant(d, d', s, h, g.nodes[s].numBytes, h', mh, end);
      GrownToIs(d, d', s, g.nodes[s], h', mh, end);
      GrowingWriteKeepsInv(d, d', g, s, h', end);
      assert Exact(g.nodes[s]);
      GrownIsExact(DiskMarks(d, mh), s, g.nodes[s], end);
      GrowIsExact(g, s, h');
    }
  }

  lemma GrowIsExact(g: Fs, s: int, h': Header)
    requires ExactChains(g) && Exact(h')
    ensures ExactChains(Grow(g, s, h'))
  {
    assert forall x :: x in g.nodes ==> Exact(g.nodes[x]);
  }

  /** What the headers of a request are in terms of the abstract file system. */
  lemma OpenHeaderIs(d: Disk, g: Fs, s: int, h: Header)
    requires FsInv(d, g) && s in g.nodes && h == OpenHeader(d, s, h.numBytes)
    ensures g.nodes[s] == h.(numBytes := g.nodes[s].numBytes)
    ensures FetchHeader(d, FREE_MAP_SECTOR) == g.nodes[FREE_MAP_SECTOR]
  {
    NodeFetched(d, g, s);
    NodeFetched(d, g, FREE_MAP_SECTOR);
  }

  lemma HeadersOf(d: Disk, g: Fs, w: Request, n: int, d': Disk, s: int)
    requires FsInv(d, g) && s in g.nodes && WritesTo(d, w, n, d', s)
    ensures g.nodes[s] == w.before.(numBytes := g.nodes[s].numBytes) && w.mapHdr == g.nodes[FREE_MAP_SECTOR]
  {
    assert WritePart(d, w, n, d', s, InMemory);
    OpenHeaderIs(d, g, s, w.before);
  }

  lemma EffectOf(d: Disk, w: Request, n: int, d': Disk, s: int)
    ensures WritesTo(d, w, n, d', s) ==> WriteEffect(d, d', s, w.before, w.after, w.mapHdr, w.position + |w.bytes|, w.grown)
  {
    assert WritesTo(d, w, n, d', s) ==> WritePart(d, w, n, d', s, OnDisk);
  }

  lemma EffectKeeps(d: Disk, d': Disk, g: Fs, s: int, h: Header, h': Header, mh: Header, end: int, grown: bool)
    requires FsInv(d, g) && ExactChains(g) && IsRegular(g, s)
    requires g.nodes[s] == h.(numBytes := g.nodes[s].numBytes) && mh == g.nodes[FREE_MAP_SECTOR]
    ensures WriteEffect(d, d', s, h, h', mh, end, grown) ==>
              var g' := if grown then Grow(g, s, h') else g;
              FsInv(d', g') && ExactChains(g') && SameRoots(g, g')
  {
    if grown {
      GrownWriteKeeps(d, d', g, s, h, h', mh, end);
      RootsStay(g, s, h');
    } else if SameOutside(d, d', h.data) {
      DataWriteKeepsInv(d, d', g, s);
    }
  }

  lemma RootsStay(g: Fs, s: int, h': Header)
    requires ROOT_SECTOR in g.tables && IsRegular(g, s)
    ensures SameRoots(g, Grow(g, s, h'))
  {
  }

  lemma MoreSectors(k: nat, end: int)
    requires Span(k) < end <= MAX_FILE_LENGTH
    ensures k < SectorsFor(end)
  {
    MaxFileLengthFits();
    SectorsForBounds(end);
    if SectorsFor(end) < k {
      TimesMono(SectorsFor(end), k, SECTOR_SIZE);
    }
  }

  /** A write that adds sectors makes the list of data sectors longer. */
  lemma LongerLists(d: Disk, d': Disk, s: int, h: Header, h': Header, mh: Header, end: int)
    requires WriteEffect(d, d', s, h, h', mh, end, true)
    ensures h.data < h'.data && h.chain <= h'.chain
  {
    GrownToIs(d, d', s, h, h', mh, end);
    MoreSectors(|h.data|, end);
  }

  /** Any write to a regular file, named or not, keeps the file system consistent. */
  lemma WriteKeepsInv(d: Disk, g: Fs, s: int, w: Request, n: int, d': Disk)
    requires FsInv(d, g) && ExactChains(g) && IsRegular(g, s) && WritesTo(d, w, n, d', s)
    ensures var g' := WrittenFs(g, s, w); FsInv(d', g') && ExactChains(g') && SameRoots(g, g')
  {
    HeadersOf(d, g, w, n, d', s);
    EffectOf(d, w, n, d', s);
    EffectKeeps(d, d', g, s, w.before, w.after, w.mapHdr, w.position + |w.bytes|, w.grown);
  }

  // ----- the write of an open file as such a step -----

  /** The request does not exceed the longest file; if sectors are added, the
      header chain can list them; if there is no room for them, the file is not
      empty. */
  ghost predicate Writable(d: Disk, h: Header, position: int, n: nat) {
    && position + n <= MAX_FILE_LENGTH
    && (0 <= position <= h.numBytes && Grows(h, position, n) ==>
          if CanGrow(MarksAt(d), h, position + n) then SectorsFor(position + n) <= Capacity(|h.chain|) else h.numBytes > 0)
  }

  lemma GrowthIsKnown(d: Disk, g: Fs, s: int, h: Header, mh: Header, position: int, n: nat)
    requires FsInv(d, g) && ExactChains(g) && s in g.nodes && s != FREE_MAP_SECTOR
    requires g.nodes[s] == h.(numBytes := g.nodes[s].numBytes) && mh == g.nodes[FREE_MAP_SECTOR]
    requires Writable(d, h, position, n)
    ensures GrowthKnown(d, s, h, mh, position, n)
  {
    if 0 <= position <= h.numBytes && Grows(h, position, n) {
      assert Exact(g.nodes[s]);
      MapFetched(d, g);
      MoreSectors(|h.data|, position + n);
      FileAndMap(d, g, s);
      assert Owned(s, h) == Owned(s, g.nodes[s]);
    }
  }

  /** Writes through an open file whose header lists the sectors on disk. */
  method WriteToFile(fs: FileSystem, file: OpenFile, bytes: seq<byte>, position: int, ghost g: Fs) returns (n: int, ghost w: Request)
    requires fs.Valid(g) && ExactChains(g) && IsRegular(g, file.fSector)
    requires file.hdr != fs.freeMapFile.hdr && file.hdr != fs.directoryFile.hdr
    requires file.hdr.Sized() && IsOpenAt(fs.disk.sectors, file.fSector, file.hdr.View())
    requires Writable(fs.disk.sectors, file.hdr.View(), position, |bytes|)
    modifies fs.disk, file.hdr
    ensures file.hdr.Sized()
    ensures w == Request(old(file.hdr.View()), fs.freeMapFile.hdr.View(), position, bytes, file.hdr.View(), w.grown)
    ensures WritesTo(old(fs.disk.sectors), w, n, fs.disk.sectors, file.fSector)
    ensures fs.Valid(WrittenFs(g, file.fSector, w))
    ensures ExactChains(WrittenFs(g, file.fSector, w))
  {
    ghost var d, h, mh := fs.disk.sectors, file.hdr.View(), fs.freeMapFile.hdr.View();
    ReadyToWrite(d, g, file.fSector, h, mh, position, |bytes|);
    n := WriteAt(fs.disk, file, fs.freeMapFile, bytes, position);
    w := Request(h, mh, position, bytes, file.hdr.View(), AddsSectors(d, h, mh, position, |bytes|));
    OutcomeIsStep(d, w, n, fs.disk.sectors, file.fSector);
    WriteKeepsInv(d, g, file.fSector, w, n, fs.disk.sectors);
  }

  lemma ReadyToWrite(d: Disk, g: Fs, s: int, h: Header, mh: Header, position: int, n: nat)
    requires FsInv(d, g) && ExactChains(g) && IsRegular(g, s) && IsOpenAt(d, s, h)
    requires mh == g.nodes[FREE_MAP_SECTOR] && Writable(d, h, position, n)
    ensures IsMapHeader(mh) && mh == FetchHeader(d, FREE_MAP_SECTOR) && GrowthKnown(d, s, h, mh, position, n)
  {
    OpenHeaderIs(d, g, s, h);
    NodeOnDisk(d, g, FREE_MAP_SECTOR);
    GrowthIsKnown(d, g, s, h, mh, position, n);
  }

  lemma OutcomeIsStep(d: Disk, w: Request, n: int, d': Disk, s: int)
    requires IsOpenAt(d, s, w.before) && w.mapHdr == FetchHeader(d, FREE_MAP_SECTOR)
    requires w.grown == AddsSectors(d, w.before, w.mapHdr, w.position, |w.bytes|)
    ensures WriteOutcome(d, d', s, w.before, w.after, w.mapHdr, w.position, w.bytes, n) ==> WritesTo(d, w, n, d', s)
  {
  }

  /** And all that WriteAt promises can be read off such a step. */
  lemma StepIsOutcome(d: Disk, w: Request, n: int, d': Disk, s: int)
    requires WritesTo(d, w, n, d', s)
    ensures w.grown == AddsSectors(d, w.before, w.mapHdr, w.position, |w.bytes|)
    ensures WriteOutcome(d, d', s, w.before, w.after, w.mapHdr, w.position, w.bytes, n)
  {
    assert WritePart(d, w, n, d', s, OnDisk) && WritePart(d, w, n, d', s, InFile) && WritePart(d, w, n, d', s, Growth);
  }

  // ----- writes through an open file that lists fewer sectors than the file has -----

  /** As long as no sector is added, such a write does no harm. */
  lemma OlderWriteKeepsInv(d: Disk, d': Disk, g: Fs, s: int, h: Header, h': Header, mh: Header, end: int)
    requires FsInv(d, g) && IsRegular(g, s) && Older(h, g.nodes[s]) && WriteEffect(d, d', s, h, h', mh, end, false)
    ensures FsInv(d', g)
  {
    assert forall k :: k in h.data ==> k in g.nodes[s].data;
    DataWriteKeepsInv(d, d', g, s);
  }

  /** Growing by older lists touches only the file, the bitmap and clear sectors. */
  lemma OlderGrowthTouches(d: Disk, d': Disk, g: Fs, s: int, h: Header, h': Header, end: int)
    requires FsInv(d, g) && IsRegular(g, s) && Older(h, g.nodes[s]) && GrownTo(d, d', s, h, h', g.nodes[FREE_MAP_SECTOR], end)
    requires HeaderCount(|h.data|) >= |h.chain| && SectorsFor(end) >= |h.data|
    ensures var more := NewSectorsOf(g.marks, h, end);
            && GrowthTouches(d, d', g, s, more) && SetOf(Owned(s, h')) == SetOf(Owned(s, h)) + more && Stored(d', s, h')
            && DiskMarks(d', g.nodes[FREE_MAP_SECTOR]) == g.marks + more && WellFormed(s, h') && h'.isdir == h.isdir
  {
    GrownToIs(d, d', s, h, h', g.nodes[FREE_MAP_SECTOR], end);
    MapOnDisk(d, g);
    NewAreClear(g.marks, h, end);
    GrownOwned(g.marks, s, h, end);
    OlderOwned(s, h, g.nodes[s]);
  }

  lemma MapOnDisk(d: Disk, g: Fs)
    requires FsInv(d, g)
    ensures DiskMarks(d, g.nodes[FREE_MAP_SECTOR]) == g.marks
  {
    FsInvIs(d, g);
  }

  lemma GrowthKeepsOthers(d: Disk, d': Disk, g: Fs, s: int, more: set<int>)
    requires FsInv(d, g) && IsRegular(g, s) && GrowthTouches(d, d', g, s, more)
    ensures KeptOnDisk(d', g, s)
  {
    forall t | t != s
      ensures OnDiskStill(d', g, t)
    {
      if t in g.nodes {
        OtherFileKept(d, d', g, s, more, t);
        if t in g.tables {
          TableFetched(d, g, t);
          NodeFetched(d, g, t);
        }
      }
    }
  }

  /** The new header of the file is the one that the write has stored. */
  lemma WrittenHeader(d: Disk, d': Disk, g: Fs, g': Fs, s: int, h': Header)
    requires FsInv(d, g) && IsRegular(g, s) && FsInv(d', g') && Stored(d', s, h') && WellFormed(s, h') && h'.isdir == g.nodes[s].isdir
    ensures s in g'.nodes ==> g'.nodes[s] == h'
    ensures s !in g'.tables
  {
    StoredIsFetched(d', s, h');
    FsInvIs(d, g);
    assert !IsDir(g, s);
    if s in g'.nodes {
      NodeFetched(d', g', s);
    }
    if s in g'.tables {
      TableFetched(d', g', s);
    }
  }

  /** A sector that is not in the older lists belongs to no file afterwards. */
  lemma OlderGrowthLeaks(d: Disk, d': Disk, g: Fs, g': Fs, s: int, h: Header, h': Header, end: int)
    requires FsInv(d, g) && IsRegular(g, s) && Older(h, g.nodes[s]) && GrownTo(d, d', s, h, h', g.nodes[FREE_MAP_SECTOR], end)
    requires FsInv(d', g') && g'.roots <= g.roots
    ensures SameLists(h, g.nodes[s])
  {
    GrownToIs(d, d', s, h, h', g.nodes[FREE_MAP_SECTOR], end);
    var more := NewSectorsOf(g.marks, h, end);
    OlderGrowthTouches(d, d', g, s, h, h', end);
    GrowthKeepsOthers(d, d', g, s, more);
    WrittenHeader(d, d', g, g', s, h');
    HeaderOfBoth(d, d', g, g', s, FREE_MAP_SECTOR);
    MapOnDisk(d', g');
    if !SameLists(h, g.nodes[s]) {
      var k := LostSector(d, g, s, h);
      var u := OwnerOf(d', g', k);
      NoErrorFile(d, g);
      FilesAreOld(d, d', g, g', s, u);
      SoleOwner(d, g, s, u, k);
    }
  }

  lemma LostSector(d: Disk, g: Fs, s: int, h: Header) returns (k: int)
    requires FsInv(d, g) && s in g.nodes && Older(h, g.nodes[s]) && !SameLists(h, g.nodes[s])
    ensures Owns(g, s, k) && k !in SetOf(Owned(s, h)) && k in g.marks
  {
    FsInvIs(d, g);
    assert WellFormed(s, g.nodes[s]);
    k := GrownSector(s, h, g.nodes[s]);
    assert Owns(g, s, k);
  }

  lemma OwnerOf(d: Disk, g: Fs, k: int) returns (u: int)
    requires FsInv(d, g) && k in g.marks
    ensures Owns(g, u, k) && u in g.nodes && u in g.depth
  {
    FsInvIs(d, g);
    u :| Owns(g, u, k);
  }

  lemma SoleOwner(d: Disk, g: Fs, s: int, u: int, k: int)
    requires FsInv(d, g)
    ensures Owns(g, s, k) && Owns(g, u, k) ==> u == s
  {
    FsInvIs(d, g);
  }

  /** A growing write leaves a consistent disk without new unnamed files if and
      only if the open file listed all sectors of the file; otherwise the sectors
      it did not know stay marked and belong to no file. */
  lemma GrowthIsSafeIff(d: Disk, d': Disk, g: Fs, s: int, h: Header, h': Header, end: int)
    requires FsInv(d, g) && ExactChains(g) && IsRegular(g, s) && Older(h, g.nodes[s])
    requires GrownTo(d, d', s, h, h', g.nodes[FREE_MAP_SECTOR], end)
    ensures (exists g' :: FsInv(d', g') && g'.roots <= g.roots) <==> SameLists(h, g.nodes[s])
  {
    if SameLists(h, g.nodes[s]) {
      GrownWriteKeeps(d, d', g, s, h, h', g.nodes[FREE_MAP_SECTOR], end);
      assert FsInv(d', Grow(g, s, h')) && Grow(g, s, h').roots <= g.roots;
    }
    if g' :| FsInv(d', g') && g'.roots <= g.roots {
      OlderGrowthLeaks(d, d', g, g', s, h, h', end);
    }
  }
}
