/**
 How a disk holds an abstract file system: every header is stored in its
 sectors, every directory file holds its table, and the bitmap file marks the
 sectors in use. A change of the disk that touches only some files' data and
 some clear sectors leaves all other files as they are.
 */
module FsDisk {
  import opened Layout
  import opened BitMaps
  import opened DiskImage
  import opened FileHeaders
  import opened OpenFiles
  import opened Directories
  import opened Paths
  import opened FileTree

  ghost predicate HeadersOnDisk(d: Disk, g: Fs) {
    forall s :: s in g.nodes ==> Stored(d, s, g.nodes[s])
  }

  ghost predicate TablesOnDisk(d: Disk, g: Fs) {
    forall s :: s in g.tables && s in g.nodes ==> TableOf(d, g.nodes[s]) == g.tables[s]
  }

  ghost predicate Rep(d: Disk, g: Fs) {
    && HeadersOnDisk(d, g) && TablesOnDisk(d, g)
    && FREE_MAP_SECTOR in g.nodes && DiskMarks(d, g.nodes[FREE_MAP_SECTOR]) == g.marks
  }

  /** One half of the invariant: the tree is consistent, or the disk holds it. */
  ghost predicate Half(d: Disk, g: Fs, onDisk: bool) { if onDisk then Rep(d, g) else TreeInv(g) }

  /** The disk holds the consistent file system g. Both halves are large; they
      are only looked at where FsInvIs is called. */
  ghost predicate FsInv(d: Disk, g: Fs) {
    && FREE_MAP_SECTOR in g.nodes && ROOT_SECTOR in g.nodes && ROOT_SECTOR in g.tables
    && FREE_MAP_SECTOR in g.roots && ROOT_SECTOR in g.roots && g.depth.Keys == g.nodes.Keys
    && forall onDisk {:trigger Half(d, g, onDisk)} :: Half(d, g, onDisk)
  }

  lemma FsInvIs(d: Disk, g: Fs)
    ensures FsInv(d, g) <==> TreeInv(g) && Rep(d, g)
  {
    assert Half(d, g, true) <==> Rep(d, g);
    assert Half(d, g, false) <==> TreeInv(g);
    assert TreeInv(g) ==> IsDir(g, ROOT_SECTOR);
  }

  // ----- reading through the representation -----

  lemma NodeFetched(d: Disk, g: Fs, s: int)
    requires FsInv(d, g) && s in g.nodes
    ensures FetchHeader(d, s) == g.nodes[s]
  {
    FsInvIs(d, g);
    assert WellFormed(s, g.nodes[s]) && Stored(d, s, g.nodes[s]);
    StoredIsFetched(d, s, g.nodes[s]);
  }

  lemma TableFetched(d: Disk, g: Fs, s: int)
    requires FsInv(d, g) && s in g.tables
    ensures TableAt(d, s) == g.tables[s] && ValidTable(g.tables[s]) && IsDir(g, s)
  {
    FsInvIs(d, g);
    assert IsDir(g, s);
    NodeFetched(d, g, s);
  }

  /** A successful lookup names an existing file, and a directory one that
      passes the IsDir test. */
  lemma LookupIsNode(d: Disk, g: Fs, p: int, name: CString)
    requires FsInv(d, g) && p in g.tables && FindSector(g.tables[p], name) != ERROR
    ensures var i, s := FindIndex(g.tables[p], name), FindSector(g.tables[p], name);
            && NamesFile(g, p, i, s) && s in g.nodes && s !in g.roots
            && (IsDirAt(d, s) <==> s in g.tables) && FetchHeader(d, s) == g.nodes[s]
  {
    FsInvIs(d, g);
    FindFromMeans(g.tables[p], name, 0);
    var i, s := FindIndex(g.tables[p], name), FindSector(g.tables[p], name);
    assert Entry(g, p, i) && Target(g, p, i) == s;
    NodeFetched(d, g, s);
  }

  /** FindDir only ever ends in a directory of the file system. */
  lemma {:induction false} FindDirIsDirectory(d: Disk, g: Fs, s: int, path: CString)
    requires FsInv(d, g) && s in g.tables
    ensures var r := FindDirFrom(d, s, path); r.Found? ==> r.sector in g.tables
    decreases |path|
  {
    var r := Decomp(path);
    if r.more {
      TableFetched(d, g, s);
      var next := FindSector(g.tables[s], r.head);
      if next >= 0 && IsDirAt(d, next) {
        LookupIsNode(d, g, s, r.head);
        FindDirIsDirectory(d, g, next, r.tail);
      }
    }
  }

  // ----- changing the disk -----

  /** Sector k holds data of one of the files in T. */
  ghost predicate DataOf(g: Fs, T: set<int>, k: int) {
    exists t :: t in T && t in g.nodes && k in SetOf(g.nodes[t].data)
  }

  /** Only data sectors of files in T and sectors in X, which are clear, may differ. */
  ghost predicate Touches(d: Disk, d': Disk, g: Fs, T: set<int>, X: set<int>) {
    X !! g.marks && forall k :: OnDisk(k) && d'[k] != d[k] ==> k in X || DataOf(g, T, k)
  }

  /** The header and data sectors of a file, as sets. */
  lemma OwnedSplit(s: int, h: Header)
    requires WellFormed(s, h)
    ensures SetOf(Owned(s, h)) == HeaderSectors(s, h) + SetOf(h.data)
    ensures HeaderSectors(s, h) !! SetOf(h.data)
  {
    SetOfAppend([s] + h.chain, h.data);
    SetOfAppend([s], h.chain);
    assert SetOf([s]) == {s};
    HeaderParts(s, h);
    SetOfIs(h.data);
    forall k | k in HeaderSectors(s, h)
      ensures k !in SetOf(h.data)
    {
    }
  }

  lemma SectorKept(d: Disk, d': Disk, g: Fs, T: set<int>, X: set<int>, s: int, k: int)
    requires TreeInv(g) && Touches(d, d', g, T, X) && s in g.nodes
    requires k in HeaderSectors(s, g.nodes[s]) || (s !in T && k in SetOf(g.nodes[s].data))
    ensures Rd(d', k) == Rd(d, k)
  {
    OwnedSplit(s, g.nodes[s]);
    assert Owns(g, s, k);
    if OnDisk(k) && d'[k] != d[k] {
      var t :| t in T && t in g.nodes && k in SetOf(g.nodes[t].data);
      OwnedSplit(t, g.nodes[t]);
      assert Owns(g, t, k);
    }
  }

  lemma HeadersKept(d: Disk, d': Disk, g: Fs, T: set<int>, X: set<int>)
    requires FsInv(d, g) && Touches(d, d', g, T, X)
    ensures HeadersOnDisk(d', g)
  {
    FsInvIs(d, g);
    forall s | s in g.nodes
      ensures Stored(d', s, g.nodes[s])
    {
      forall k | k in HeaderSectors(s, g.nodes[s])
        ensures Rd(d', k) == Rd(d, k)
      {
        SectorKept(d, d', g, T, X, s, k);
      }
      StoredFrame(d, d', s, g.nodes[s]);
    }
  }

  lemma DataKept(d: Disk, d': Disk, g: Fs, T: set<int>, X: set<int>, s: int)
    requires TreeInv(g) && Touches(d, d', g, T, X) && s in g.nodes && s !in T
    ensures forall i :: 0 <= i < |g.nodes[s].data| ==> Rd(d', g.nodes[s].data[i]) == Rd(d, g.nodes[s].data[i])
  {
    SetOfIs(g.nodes[s].data);
    forall i | 0 <= i < |g.nodes[s].data|
      ensures Rd(d', g.nodes[s].data[i]) == Rd(d, g.nodes[s].data[i])
    {
      SectorKept(d, d', g, T, X, s, g.nodes[s].data[i]);
    }
  }

  /** The contents of a file outside T do not change. */
  lemma ContentsKept(d: Disk, d': Disk, g: Fs, T: set<int>, X: set<int>, s: int)
    requires TreeInv(g) && Touches(d, d', g, T, X) && s in g.nodes && s !in T
    ensures FileBytes(d', g.nodes[s]) == FileBytes(d, g.nodes[s])
    ensures TableOf(d', g.nodes[s]) == TableOf(d, g.nodes[s])
  {
    DataKept(d, d', g, T, X, s);
    FileBytesFrame(d, d', g.nodes[s]);
  }

  /** g' is g with some files added or removed, whose headers the disk holds,
      and with tables of the files in T and a bitmap that the disk holds too. */
  ghost predicate Changes(d': Disk, g: Fs, g': Fs, T: set<int>) {
    && (forall s :: s in g'.nodes && s in g.nodes ==> g'.nodes[s] == g.nodes[s])
    && (forall s :: s in g'.nodes && s !in g.nodes ==> Stored(d', s, g'.nodes[s]))
    && (forall s :: s in g'.tables && s in g'.nodes && (s in T || s !in g.nodes) ==>
                      TableOf(d', g'.nodes[s]) == g'.tables[s])
    && (forall s :: s in g'.tables && s in g.nodes && s !in T ==> s in g.tables && g'.tables[s] == g.tables[s])
    && FREE_MAP_SECTOR in g'.nodes && DiskMarks(d', g'.nodes[FREE_MAP_SECTOR]) == g'.marks
  }

  /** If the tables and the bitmap of the touched files are as g' says, the new
      disk holds the changed file system. */
  lemma RepAfter(d: Disk, d': Disk, g: Fs, g': Fs, T: set<int>, X: set<int>)
    requires FsInv(d, g) && TreeInv(g') && Touches(d, d', g, T, X) && Changes(d', g, g', T)
    ensures FsInv(d', g')
  {
    FsInvIs(d, g);
    HeadersKept(d, d', g, T, X);
    forall s | s in g'.tables && s in g'.nodes && s in g.nodes && s !in T
      ensures TableOf(d', g'.nodes[s]) == g'.tables[s]
    {
      ContentsKept(d, d', g, T, X, s);
    }
  }
}
