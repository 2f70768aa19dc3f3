/**
 The abstract state of the file system: which files exist, where their sectors
 are, and which directory entry names each of them. The operations add or
 remove one file at a time, and TreeInv is what every one of them keeps.
 */
module FileTree {
  import opened Basics
  import opened Layout
  import opened BitMaps
  import opened DiskImage
  import opened FileHeaders
  import opened OpenFiles
  import opened Directories

  /** Files are identified by the sector of their first header. `roots` are the
      files that no directory entry names: the bitmap, the root directory and
      files removed while they are open. */
  datatype Fs = Fs(nodes: map<int, Header>, tables: map<int, Table>, depth: map<int, nat>,
                   roots: set<int>, marks: set<int>)

  predicate IsDir(g: Fs, s: int) { s in g.nodes && s != FREE_MAP_SECTOR && g.nodes[s].isdir == 1 }

  /** Sector k belongs to file s. */
  predicate Owns(g: Fs, s: int, k: int) { s in g.nodes && k in SetOf(Owned(s, g.nodes[s])) }

  /** Slot i of directory p is in use. */
  predicate Entry(g: Fs, p: int, i: int) { p in g.tables && 0 <= i < |g.tables[p]| && g.tables[p][i].inUse }

  function Target(g: Fs, p: int, i: int): int
    requires Entry(g, p, i)
  {
    g.tables[p][i].sector
  }

  /** Entry i of directory p names file s. */
  predicate NamesFile(g: Fs, p: int, i: int, s: int) { Entry(g, p, i) && Target(g, p, i) == s }

  // ----- the invariant -----

  ghost predicate ShapeOk(g: Fs) {
    && FREE_MAP_SECTOR in g.roots && ROOT_SECTOR in g.roots && g.roots <= g.nodes.Keys
    && IsDir(g, ROOT_SECTOR)
    && (forall s :: s in g.tables <==> IsDir(g, s))
    && g.depth.Keys == g.nodes.Keys
    && g.nodes[FREE_MAP_SECTOR].numBytes == FREE_MAP_SIZE
  }

  ghost predicate NodesOk(g: Fs) {
    && (forall s :: s in g.nodes ==> WellFormed(s, g.nodes[s]))
    && (forall s :: s in g.tables && s in g.nodes ==> g.nodes[s].numBytes == DIR_SIZE)
    && (forall s :: s in g.tables ==> ValidTable(g.tables[s]))
  }

  /** No sector belongs to two files. */
  ghost predicate DisjointOk(g: Fs) {
    forall s, t, k :: Owns(g, s, k) && Owns(g, t, k) ==> s == t
  }

  /** The marked sectors are exactly those that belong to some file. */
  ghost predicate MarksOk(g: Fs) {
    && (forall s, k :: Owns(g, s, k) ==> k in g.marks)
    && (forall k :: k in g.marks ==> exists s :: Owns(g, s, k))
  }

  /** Entries name files one level deeper that are not roots. */
  ghost predicate EntriesOk(g: Fs) {
    forall p, i :: Entry(g, p, i) ==>
                     var s := Target(g, p, i);
                     s in g.nodes && s !in g.roots && s in g.depth && p in g.depth && g.depth[s] == g.depth[p] + 1
  }

  /** Every file that is not a root is named by exactly one entry. */
  ghost predicate NamesOk(g: Fs) {
    && (forall p, i, q, j, s :: NamesFile(g, p, i, s) && NamesFile(g, q, j, s) ==> p == q && i == j)
    && (forall s :: s in g.nodes && s !in g.roots ==> exists p, i :: NamesFile(g, p, i, s))
  }

  ghost predicate TreeInv(g: Fs) {
    ShapeOk(g) && NodesOk(g) && DisjointOk(g) && MarksOk(g) && EntriesOk(g) && NamesOk(g)
  }

  lemma OwnedMarked(g: Fs, s: int)
    requires MarksOk(g) && s in g.nodes
    ensures SetOf(Owned(s, g.nodes[s])) <= g.marks
  {
    forall k | k in SetOf(Owned(s, g.nodes[s]))
      ensures k in g.marks
    {
      assert Owns(g, s, k);
    }
  }

  lemma OwnedDisjoint(g: Fs, s: int, t: int)
    requires DisjointOk(g) && s in g.nodes && t in g.nodes && s != t
    ensures SetOf(Owned(s, g.nodes[s])) !! SetOf(Owned(t, g.nodes[t]))
  {
    forall k | k in SetOf(Owned(s, g.nodes[s]))
      ensures k !in SetOf(Owned(t, g.nodes[t]))
    {
      assert Owns(g, s, k) && (k in SetOf(Owned(t, g.nodes[t])) ==> Owns(g, t, k));
    }
  }

  // ----- adding a file -----

  /** File s with header h is named by the entry put in slot i of directory p. */
  function Insert(g: Fs, p: int, i: int, e: DirEntry, h: Header): Fs
    requires p in g.tables && 0 <= i < |g.tables[p]| && p in g.depth
  {
    var s := e.sector;
    var tables := g.tables[p := g.tables[p][i := e]];
    Fs(g.nodes[s := h],
       if h.isdir == 1 then tables[s := EmptyTable()] else tables,
       g.depth[s := g.depth[p] + 1],
       g.roots,
       g.marks + SetOf(Owned(s, h)))
  }

  ghost predicate CanInsert(g: Fs, p: int, i: int, e: DirEntry, h: Header) {
    && p in g.tables && p in g.depth && 0 <= i < |g.tables[p]| && !g.tables[p][i].inUse
    && e.inUse && ValidTable(g.tables[p][i := e])
    && WellFormed(e.sector, h) && SetOf(Owned(e.sector, h)) !! g.marks
    && (h.isdir == 1 ==> h.numBytes == DIR_SIZE)
  }

  lemma OwnsSelf(g: Fs, s: int)
    requires s in g.nodes
    ensures Owns(g, s, s)
  {
    SetOfIs(Owned(s, g.nodes[s]));
    assert Owned(s, g.nodes[s])[0] == s;
  }

  /** The new file's sector is not the sector of an existing file. */
  lemma InsertIsNew(g: Fs, p: int, i: int, e: DirEntry, h: Header)
    requires TreeInv(g) && CanInsert(g, p, i, e, h)
    ensures e.sector !in g.nodes && e.sector in SetOf(Owned(e.sector, h))
  {
    SetOfIs(Owned(e.sector, h));
    assert Owned(e.sector, h)[0] == e.sector;
    if e.sector in g.nodes {
      OwnsSelf(g, e.sector);
    }
  }

  lemma InsertOwns(g: Fs, p: int, i: int, e: DirEntry, h: Header, t: int, k: int)
    requires TreeInv(g) && CanInsert(g, p, i, e, h)
    ensures Owns(Insert(g, p, i, e, h), t, k) <==>
              if t == e.sector then k in SetOf(Owned(e.sector, h)) else Owns(g, t, k)
  {
  }

  lemma InsertSectors(g: Fs, p: int, i: int, e: DirEntry, h: Header)
    requires TreeInv(g) && CanInsert(g, p, i, e, h)
    ensures var g' := Insert(g, p, i, e, h); DisjointOk(g') && MarksOk(g')
  {
    var g' := Insert(g, p, i, e, h);
    InsertIsNew(g, p, i, e, h);
    forall t, k
      ensures Owns(g', t, k) <==> if t == e.sector then k in SetOf(Owned(e.sector, h)) else Owns(g, t, k)
    {
      InsertOwns(g, p, i, e, h, t, k);
    }
    forall k | k in g'.marks
      ensures exists s :: Owns(g', s, k)
    {
      if k in g.marks {
        var s :| Owns(g, s, k);
        assert Owns(g', s, k);
      } else {
        assert Owns(g', e.sector, k);
      }
    }
  }

  lemma InsertEntry(g: Fs, p: int, i: int, e: DirEntry, h: Header, q: int, j: int)
    requires TreeInv(g) && CanInsert(g, p, i, e, h)
    ensures var g' := Insert(g, p, i, e, h);
            && (Entry(g', q, j) <==> (q == p && j == i) || Entry(g, q, j))
            && (Entry(g', q, j) ==> Target(g', q, j) == if q == p && j == i then e.sector else Target(g, q, j))
  {
    InsertIsNew(g, p, i, e, h);
    EmptyTableValid();
  }

  lemma InsertNodes(g: Fs, p: int, i: int, e: DirEntry, h: Header)
    requires TreeInv(g) && CanInsert(g, p, i, e, h)
    ensures var g' := Insert(g, p, i, e, h); ShapeOk(g') && NodesOk(g')
  {
    InsertIsNew(g, p, i, e, h);
    InsertShape(g, p, i, e, h);
    EmptyTableValid();
    TablesAreNodes(g);
    InsertTables(g, p, i, e, h);
  }

  lemma InsertTables(g: Fs, p: int, i: int, e: DirEntry, h: Header)
    requires NodesOk(g) && p in g.tables && p in g.nodes && p in g.depth && 0 <= i < |g.tables[p]| && e.sector !in g.nodes
    requires g.tables.Keys <= g.nodes.Keys && ValidTable(g.tables[p][i := e]) && ValidTable(EmptyTable())
    requires WellFormed(e.sector, h) && (h.isdir == 1 ==> h.numBytes == DIR_SIZE)
    ensures NodesOk(Insert(g, p, i, e, h))
  {
  }

  lemma InsertShape(g: Fs, p: int, i: int, e: DirEntry, h: Header)
    requires ShapeOk(g) && p in g.tables && p in g.depth && 0 <= i < |g.tables[p]| && e.sector !in g.nodes
    ensures ShapeOk(Insert(g, p, i, e, h))
  {
    var g' := Insert(g, p, i, e, h);
    assert IsDir(g, p);
    assert forall s :: s != e.sector ==> (IsDir(g', s) <==> IsDir(g, s));
  }

  lemma InsertEntries(g: Fs, p: int, i: int, e: DirEntry, h: Header)
    requires TreeInv(g) && CanInsert(g, p, i, e, h)
    ensures EntriesOk(Insert(g, p, i, e, h))
  {
    var g' := Insert(g, p, i, e, h);
    InsertIsNew(g, p, i, e, h);
    forall q, j | Entry(g', q, j)
      ensures var s := Target(g', q, j);
              && s in g'.nodes && s !in g'.roots && s in g'.depth && q in g'.depth
              && g'.depth[s] == g'.depth[q] + 1
    {
      InsertEntry(g, p, i, e, h, q, j);
    }
  }

  lemma InsertUnique(g: Fs, p: int, i: int, e: DirEntry, h: Header, q: int, j: int, q': int, j': int, s: int)
    requires TreeInv(g) && CanInsert(g, p, i, e, h)
    requires var g' := Insert(g, p, i, e, h); NamesFile(g', q, j, s) && NamesFile(g', q', j', s)
    ensures q == q' && j == j'
  {
    InsertIsNew(g, p, i, e, h);
    InsertEntry(g, p, i, e, h, q, j);
    InsertEntry(g, p, i, e, h, q', j');
    if !(q == p && j == i) && !(q' == p && j' == i) {
      assert NamesFile(g, q, j, s) && NamesFile(g, q', j', s);
    }
  }

  lemma InsertNamed(g: Fs, p: int, i: int, e: DirEntry, h: Header, s: int)
    requires TreeInv(g) && CanInsert(g, p, i, e, h)
    requires s in Insert(g, p, i, e, h).nodes && s !in g.roots
    ensures exists q, j :: NamesFile(Insert(g, p, i, e, h), q, j, s)
  {
    var g' := Insert(g, p, i, e, h);
    if s == e.sector {
      InsertEntry(g, p, i, e, h, p, i);
      assert NamesFile(g', p, i, s);
    } else {
      var q, j :| NamesFile(g, q, j, s);
      InsertEntry(g, p, i, e, h, q, j);
      assert NamesFile(g', q, j, s);
    }
  }

  lemma InsertNames(g: Fs, p: int, i: int, e: DirEntry, h: Header)
    requires TreeInv(g) && CanInsert(g, p, i, e, h)
    ensures NamesOk(Insert(g, p, i, e, h))
  {
    var g' := Insert(g, p, i, e, h);
    forall q, j, q', j', s | NamesFile(g', q, j, s) && NamesFile(g', q', j', s)
      ensures q == q' && j == j'
    {
      InsertUnique(g, p, i, e, h, q, j, q', j', s);
    }
    forall s | s in g'.nodes && s !in g'.roots
      ensures exists q, j :: NamesFile(g', q, j, s)
    {
      InsertNamed(g, p, i, e, h, s);
    }
  }

  /** Adding a file keeps the invariant. */
  lemma InsertKeepsInv(g: Fs, p: int, i: int, e: DirEntry, h: Header)
    requires TreeInv(g) && CanInsert(g, p, i, e, h)
    ensures TreeInv(Insert(g, p, i, e, h))
  {
    InsertSectors(g, p, i, e, h);
    InsertNodes(g, p, i, e, h);
    InsertEntries(g, p, i, e, h);
    InsertNames(g, p, i, e, h);
  }

  // ----- removing entries and files -----

  /** Slot i of directory p is freed; the file it named stays. */
  function Unlink(g: Fs, p: int, i: int): Fs
    requires Entry(g, p, i)
  {
    g.(tables := g.tables[p := g.tables[p][i := g.tables[p][i].(inUse := false)]],
       roots := g.roots + {Target(g, p, i)})
  }

  /** File s, which no entry names, is removed and its sectors are freed. */
  function Drop(g: Fs, s: int): Fs
    requires s in g.nodes
  {
    Fs(g.nodes - {s}, g.tables - {s}, g.depth - {s}, g.roots - {s}, g.marks - SetOf(Owned(s, g.nodes[s])))
  }

  lemma UnlinkEntry(g: Fs, p: int, i: int, q: int, j: int)
    requires Entry(g, p, i)
    ensures var g' := Unlink(g, p, i);
            && (Entry(g', q, j) <==> Entry(g, q, j) && !(q == p && j == i))
            && (Entry(g', q, j) ==> Target(g', q, j) == Target(g, q, j))
  {
  }

  lemma UnlinkTables(g: Fs, p: int, i: int)
    requires TreeInv(g) && Entry(g, p, i)
    ensures var g' := Unlink(g, p, i); ShapeOk(g') && NodesOk(g')
  {
    var g' := Unlink(g, p, i);
    var t := g.tables[p];
    var t' := g'.tables[p];
    forall k | 0 <= k < |t'|
      ensures ValidEntry(t'[k])
    {
      if t'[k].inUse {
        assert ValidEntry(t[k]);
        var n :| Named(t[k], n);
        assert Named(t'[k], n);
      }
    }
    assert Target(g, p, i) in g.nodes;
  }

  lemma UnlinkEntries(g: Fs, p: int, i: int)
    requires TreeInv(g) && Entry(g, p, i)
    ensures EntriesOk(Unlink(g, p, i))
  {
    var g' := Unlink(g, p, i);
    forall q, j | Entry(g', q, j)
      ensures Target(g', q, j) == Target(g, q, j) && Entry(g, q, j) && Target(g, q, j) !in g'.roots
    {
      UnlinkEntry(g, p, i, q, j);
      if Target(g, q, j) == Target(g, p, i) {
        assert NamesFile(g, q, j, Target(g, p, i)) && NamesFile(g, p, i, Target(g, p, i));
      }
    }
  }

  lemma UnlinkNames(g: Fs, p: int, i: int)
    requires TreeInv(g) && Entry(g, p, i)
    ensures NamesOk(Unlink(g, p, i))
  {
    var g' := Unlink(g, p, i);
    forall q, j, s
      ensures NamesFile(g', q, j, s) ==> NamesFile(g, q, j, s)
    {
      UnlinkEntry(g, p, i, q, j);
    }
    forall s | s in g'.nodes && s !in g'.roots
      ensures exists q, j :: NamesFile(g', q, j, s)
    {
      var q, j :| NamesFile(g, q, j, s);
      UnlinkEntry(g, p, i, q, j);
      assert NamesFile(g', q, j, s);
    }
  }

  /** Freeing a directory slot keeps the invariant: its file becomes a root. */
  lemma UnlinkKeepsInv(g: Fs, p: int, i: int)
    requires TreeInv(g) && Entry(g, p, i)
    ensures TreeInv(Unlink(g, p, i))
  {
    UnlinkTables(g, p, i);
    UnlinkEntries(g, p, i);
    UnlinkNames(g, p, i);
    var g' := Unlink(g, p, i);
    assert forall s, k :: Owns(g', s, k) <==> Owns(g, s, k);
  }

  /** A file that may be removed: a root other than the two permanent ones,
      and an empty directory if it is a directory. */
  ghost predicate CanDrop(g: Fs, s: int) {
    s in g.roots && s != FREE_MAP_SECTOR && s != ROOT_SECTOR && (s in g.tables ==> NoEntries(g.tables[s]))
  }

  lemma DropSectors(g: Fs, s: int)
    requires TreeInv(g) && CanDrop(g, s)
    ensures DisjointOk(Drop(g, s)) && MarksOk(Drop(g, s))
  {
    var g' := Drop(g, s);
    assert forall t, k :: Owns(g', t, k) <==> Owns(g, t, k) && t != s;
    forall t, k | Owns(g', t, k)
      ensures k in g'.marks
    {
      assert Owns(g, t, k) && (k in SetOf(Owned(s, g.nodes[s])) ==> Owns(g, s, k));
    }
    forall k | k in g'.marks
      ensures exists t :: Owns(g', t, k)
    {
      var t :| Owns(g, t, k);
      assert t != s;
      assert Owns(g', t, k);
    }
  }

  lemma DropEntry(g: Fs, s: int, q: int, j: int)
    requires TreeInv(g) && CanDrop(g, s)
    ensures var g' := Drop(g, s);
            && (Entry(g', q, j) <==> Entry(g, q, j))
            && (Entry(g', q, j) ==> Target(g', q, j) == Target(g, q, j) && Target(g, q, j) != s)
  {
  }

  lemma DropEntries(g: Fs, s: int)
    requires TreeInv(g) && CanDrop(g, s)
    ensures EntriesOk(Drop(g, s))
  {
    var g' := Drop(g, s);
    forall q, j | Entry(g', q, j)
      ensures var t := Target(g', q, j);
              && t in g'.nodes && t !in g'.roots && t in g'.depth && q in g'.depth
              && g'.depth[t] == g'.depth[q] + 1
    {
      DropEntry(g, s, q, j);
    }
  }

  lemma DropNames(g: Fs, s: int)
    requires TreeInv(g) && CanDrop(g, s)
    ensures NamesOk(Drop(g, s))
  {
    var g' := Drop(g, s);
    forall q, j, t
      ensures NamesFile(g', q, j, t) <==> NamesFile(g, q, j, t)
    {
      DropEntry(g, s, q, j);
    }
    forall t | t in g'.nodes && t !in g'.roots
      ensures exists q, j :: NamesFile(g', q, j, t)
    {
      var q, j :| NamesFile(g, q, j, t);
      assert NamesFile(g', q, j, t);
    }
  }

  /** Removing an unnamed file keeps the invariant and frees exactly its sectors. */
  lemma DropKeepsInv(g: Fs, s: int)
    requires TreeInv(g) && CanDrop(g, s)
    ensures TreeInv(Drop(g, s))
  {
    DropSectors(g, s);
    DropEntries(g, s);
    DropNames(g, s);
  }

  // ----- consequences -----

  lemma TablesAreNodes(g: Fs)
    requires ShapeOk(g)
    ensures g.tables.Keys <= g.nodes.Keys && FREE_MAP_SECTOR !in g.tables && FREE_MAP_SECTOR in g.nodes
  {
    forall s | s in g.tables
      ensures s in g.nodes
    {
      assert IsDir(g, s);
    }
  }

  /** The number of sectors that the headers of the files with first header
      sector below n list, added up file by file. */
  ghost function OwnedBelow(g: Fs, n: nat): nat {
    if n == 0 then 0 else OwnedBelow(g, n - 1) + if n - 1 in g.nodes then |Owned(n - 1, g.nodes[n - 1])| else 0
  }

  /** The sectors of the files below n. */
  ghost predicate SectorsBelow(g: Fs, n: nat, sectors: set<int>) {
    forall k :: k in sectors <==> exists s :: 0 <= s < n && Owns(g, s, k)
  }

  /** Files share no sector and list none twice, so the sectors can be counted
      file by file. */
  lemma {:induction false} OwnedBelowIs(g: Fs, n: nat, sectors: set<int>)
    requires DisjointOk(g) && (forall s :: s in g.nodes ==> NoDup(Owned(s, g.nodes[s])))
    ensures SectorsBelow(g, n, sectors) ==> |sectors| == OwnedBelow(g, n)
  {
    if n == 0 {
      NoSectorsBelow(g, sectors);
    } else {
      var rest := OneFileLess(g, n, sectors);
      OwnedBelowIs(g, n - 1, rest);
    }
  }

  lemma OneFileLess(g: Fs, n: nat, sectors: set<int>) returns (rest: set<int>)
    requires DisjointOk(g) && n > 0 && (forall s :: s in g.nodes ==> NoDup(Owned(s, g.nodes[s])))
    ensures SectorsBelow(g, n, sectors) ==>
              SectorsBelow(g, n - 1, rest) && |sectors| - OwnedBelow(g, n) == |rest| - OwnedBelow(g, n - 1)
  {
    if n - 1 in g.nodes {
      var owned := Owned(n - 1, g.nodes[n - 1]);
      rest := sectors - SetOf(owned);
      FileTakenOut(g, n, sectors, SetOf(owned));
      NoDupSize(owned);
      SplitSize(sectors, SetOf(owned));
    } else {
      rest := sectors;
      NoFileThere(g, n, sectors);
    }
  }

  lemma NoSectorsBelow(g: Fs, sectors: set<int>)
    ensures SectorsBelow(g, 0, sectors) ==> sectors == {}
  {
    if SectorsBelow(g, 0, sectors) {
      assert forall k: int :: k !in sectors;
    }
  }

  lemma NoFileThere(g: Fs, n: nat, sectors: set<int>)
    requires n > 0 && n - 1 !in g.nodes
    ensures SectorsBelow(g, n, sectors) ==> SectorsBelow(g, n - 1, sectors)
  {
    var m := n - 1;
    assert forall k :: !Owns(g, m, k);
  }

  lemma SplitSize(all: set<int>, part: set<int>)
    ensures part <= all ==> |all| == |part| + |all - part|
  {
    assert part <= all ==> all == part + (all - part);
  }

  lemma FileTakenOut(g: Fs, n: nat, sectors: set<int>, own: set<int>)
    requires DisjointOk(g) && n > 0 && n - 1 in g.nodes && own == SetOf(Owned(n - 1, g.nodes[n - 1]))
    ensures SectorsBelow(g, n, sectors) ==> own <= sectors && SectorsBelow(g, n - 1, sectors - own)
  {
    if SectorsBelow(g, n, sectors) {
      var m := n - 1;
      assert forall k :: k in own <==> Owns(g, m, k);
      forall k | k in own
        ensures k in sectors
      {
        assert 0 <= m < n && Owns(g, m, k);
      }
      forall k
        ensures k in sectors - own <==> exists s :: 0 <= s < m && Owns(g, s, k)
      {
        if k in sectors - own {
          var s :| 0 <= s < n && Owns(g, s, k);
          assert s != m;
        }
        if s :| 0 <= s < m && Owns(g, s, k) {
          assert 0 <= s < n && !Owns(g, m, k);
        }
      }
    }
  }

  lemma FilesOnDisk(g: Fs, s: int)
    requires NodesOk(g) && s in g.nodes
    ensures OnDisk(s) && NoDup(Owned(s, g.nodes[s])) && InRange(Owned(s, g.nodes[s]))
  {
    assert WellFormed(s, g.nodes[s]);
    assert Owned(s, g.nodes[s])[0] == s;
  }

  lemma MarksOnDisk(g: Fs)
    requires TreeInv(g)
    ensures g.marks <= Range(NUM_SECTORS) && SectorsBelow(g, NUM_SECTORS, g.marks)
  {
    forall s, k | Owns(g, s, k)
      ensures 0 <= s < NUM_SECTORS && 0 <= k < NUM_SECTORS
    {
      FilesOnDisk(g, s);
      SetOfIs(Owned(s, g.nodes[s]));
    }
    forall k | k in g.marks
      ensures k in Range(NUM_SECTORS) && exists s :: 0 <= s < NUM_SECTORS && Owns(g, s, k)
    {
      var s :| Owns(g, s, k);
    }
  }

  /** The clear sectors and the sectors of all files, counted file by file, add
      up to the size of the disk. */
  lemma SectorAccounting(g: Fs)
    requires TreeInv(g)
    ensures NumClearOf(g.marks, NUM_SECTORS) + OwnedBelow(g, NUM_SECTORS) == NUM_SECTORS
    ensures forall s :: s in g.nodes ==> OnDisk(s)
  {
    forall s | s in g.nodes
      ensures OnDisk(s) && NoDup(Owned(s, g.nodes[s]))
    {
      FilesOnDisk(g, s);
    }
    MarksOnDisk(g);
    NumClearCount(g.marks, NUM_SECTORS);
    OwnedBelowIs(g, NUM_SECTORS, g.marks);
  }
}
