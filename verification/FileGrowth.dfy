/**
 A file that grows when it is written (filesys/openfile.cc) keeps the whole file
 system consistent, and no other file's contents change.
 */
module FileGrowth {
  import opened Layout
  import opened BitMaps
  import opened DiskImage
  import opened FileHeaders
  import opened OpenFiles
  import opened Directories
  import opened FileTree
  import opened FsDisk

  /** File s gets the header h'. */
  function Grow(g: Fs, s: int, h': Header): Fs {
    g.(nodes := g.nodes[s := h'], marks := g.marks + SetOf(Owned(s, h')))
  }

  /** h' lists the sectors of h and others that were clear. */
  ghost predicate Extends(g: Fs, s: int, h': Header, more: set<int>) {
    && s in g.nodes && s !in g.tables && s != FREE_MAP_SECTOR && WellFormed(s, h') && h'.isdir == g.nodes[s].isdir
    && SetOf(Owned(s, h')) == SetOf(Owned(s, g.nodes[s])) + more && more !! g.marks
  }

  lemma GrowOwns(g: Fs, s: int, h': Header, more: set<int>, t: int, k: int)
    requires Extends(g, s, h', more)
    ensures Owns(Grow(g, s, h'), t, k) <==> Owns(g, t, k) || (t == s && k in more)
  {
  }

  lemma GrowSectors(g: Fs, s: int, h': Header, more: set<int>)
    requires TreeInv(g) && Extends(g, s, h', more)
    ensures DisjointOk(Grow(g, s, h')) && MarksOk(Grow(g, s, h'))
  {
    var g' := Grow(g, s, h');
    forall t, k
      ensures Owns(g', t, k) <==> Owns(g, t, k) || (t == s && k in more)
    {
      GrowOwns(g, s, h', more, t, k);
    }
    GrowMarks(g, s, h', more);
    GrownMarks(g, g', s, more);
  }

  lemma GrownMarks(g: Fs, g': Fs, s: int, more: set<int>)
    requires MarksOk(g) && g'.marks <= g.marks + more && g.marks + more <= g'.marks
    requires forall t, k :: Owns(g', t, k) <==> Owns(g, t, k) || (t == s && k in more)
    ensures MarksOk(g')
  {
    forall k | k in g'.marks
      ensures exists t :: Owns(g', t, k)
    {
      if k in g.marks {
        var t :| Owns(g, t, k);
        assert Owns(g', t, k);
      } else {
        assert Owns(g', s, k);
      }
    }
  }

  lemma GrowNames(g: Fs, s: int, h': Header, more: set<int>)
    requires TreeInv(g) && Extends(g, s, h', more)
    ensures EntriesOk(Grow(g, s, h')) && NamesOk(Grow(g, s, h'))
  {
    var g' := Grow(g, s, h');
    assert forall p, i :: Entry(g', p, i) <==> Entry(g, p, i);
    assert forall p, i, t :: NamesFile(g', p, i, t) <==> NamesFile(g, p, i, t);
    forall t | t in g'.nodes && t !in g'.roots
      ensures exists p, i :: NamesFile(g', p, i, t)
    {
      var p, i :| NamesFile(g, p, i, t);
      assert NamesFile(g', p, i, t);
    }
  }

  lemma GrowShape(g: Fs, s: int, h': Header, more: set<int>)
    requires TreeInv(g) && Extends(g, s, h', more)
    ensures ShapeOk(Grow(g, s, h')) && NodesOk(Grow(g, s, h'))
  {
    var g' := Grow(g, s, h');
    assert forall t :: IsDir(g', t) <==> IsDir(g, t);
  }

  lemma GrowKeepsTree(g: Fs, s: int, h': Header, more: set<int>)
    requires TreeInv(g) && Extends(g, s, h', more)
    ensures TreeInv(Grow(g, s, h'))
  {
    GrowShape(g, s, h', more);
    GrowSectors(g, s, h', more);
    GrowNames(g, s, h', more);
  }

  // ----- on disk -----

  /** Only sectors of file s, of the bitmap's data, and clear ones may differ. */
  ghost predicate GrowthTouches(d: Disk, d': Disk, g: Fs, s: int, more: set<int>) {
    && FREE_MAP_SECTOR in g.nodes && s in g.nodes && more !! g.marks
    && SameExcept(d, d', SetOf(Owned(s, g.nodes[s])) + more + SetOf(g.nodes[FREE_MAP_SECTOR].data))
  }

  lemma OtherSectorKept(d: Disk, d': Disk, g: Fs, s: int, more: set<int>, t: int, k: int)
    requires TreeInv(g) && GrowthTouches(d, d', g, s, more) && t in g.nodes && t != s
    requires k in HeaderSectors(t, g.nodes[t]) || (t != FREE_MAP_SECTOR && k in SetOf(g.nodes[t].data))
    ensures Rd(d', k) == Rd(d, k)
  {
    OwnedSplit(t, g.nodes[t]);
    OwnedSplit(FREE_MAP_SECTOR, g.nodes[FREE_MAP_SECTOR]);
    assert Owns(g, t, k);
    assert k in SetOf(Owned(s, g.nodes[s])) ==> Owns(g, s, k);
    assert k in SetOf(g.nodes[FREE_MAP_SECTOR].data) ==> Owns(g, FREE_MAP_SECTOR, k);
  }

  /** No other file changes. */
  lemma OtherFileKept(d: Disk, d': Disk, g: Fs, s: int, more: set<int>, t: int)
    requires FsInv(d, g) && GrowthTouches(d, d', g, s, more) && t in g.nodes && t != s
    ensures Stored(d', t, g.nodes[t])
    ensures t != FREE_MAP_SECTOR ==> FileBytes(d', g.nodes[t]) == FileBytes(d, g.nodes[t])
  {
    FsInvIs(d, g);
    forall k | k in HeaderSectors(t, g.nodes[t])
      ensures Rd(d', k) == Rd(d, k)
    {
      OtherSectorKept(d, d', g, s, more, t, k);
    }
    StoredFrame(d, d', t, g.nodes[t]);
    if t != FREE_MAP_SECTOR {
      OtherBytesKept(d, d', g, s, more, t);
    }
  }

  lemma OtherBytesKept(d: Disk, d': Disk, g: Fs, s: int, more: set<int>, t: int)
    requires TreeInv(g) && GrowthTouches(d, d', g, s, more) && t in g.nodes && t != s && t != FREE_MAP_SECTOR
    ensures FileBytes(d', g.nodes[t]) == FileBytes(d, g.nodes[t])
  {
    SetOfIs(g.nodes[t].data);
    forall i | 0 <= i < |g.nodes[t].data|
      ensures Rd(d', g.nodes[t].data[i]) == Rd(d, g.nodes[t].data[i])
    {
      assert g.nodes[t].data[i] in g.nodes[t].data;
      OtherSectorKept(d, d', g, s, more, t, g.nodes[t].data[i]);
    }
    FileBytesFrame(d, d', g.nodes[t]);
  }

  lemma GrowKeepsRep(d: Disk, d': Disk, g: Fs, s: int, h': Header, more: set<int>)
    requires FsInv(d, g) && Extends(g, s, h', more) && GrowthTouches(d, d', g, s, more)
    requires Stored(d', s, h') && DiskMarks(d', g.nodes[FREE_MAP_SECTOR]) == g.marks + more
    ensures Rep(d', Grow(g, s, h'))
  {
    FsInvIs(d, g);
    GrowKeepsHeaders(d, d', g, s, h', more);
    GrowKeepsTables(d, d', g, s, h', more);
    GrowMarks(g, s, h', more);
  }

  lemma GrowKeepsHeaders(d: Disk, d': Disk, g: Fs, s: int, h': Header, more: set<int>)
    requires FsInv(d, g) && GrowthTouches(d, d', g, s, more) && Stored(d', s, h')
    ensures HeadersOnDisk(d', Grow(g, s, h'))
  {
    var g' := Grow(g, s, h');
    forall t | t in g'.nodes
      ensures Stored(d', t, g'.nodes[t])
    {
      if t != s {
        OtherFileKept(d, d', g, s, more, t);
      }
    }
  }

  lemma GrowMarks(g: Fs, s: int, h': Header, more: set<int>)
    requires TreeInv(g) && Extends(g, s, h', more)
    ensures Grow(g, s, h').marks == g.marks + more
  {
    forall k | k in SetOf(Owned(s, g.nodes[s]))
      ensures k in g.marks
    {
      assert Owns(g, s, k);
    }
  }

  lemma GrowKeepsTables(d: Disk, d': Disk, g: Fs, s: int, h': Header, more: set<int>)
    requires FsInv(d, g) && Extends(g, s, h', more) && GrowthTouches(d, d', g, s, more)
    ensures TablesOnDisk(d', Grow(g, s, h'))
  {
    FsInvIs(d, g);
    TablesAreNodes(g);
    forall t | t in g.tables
      ensures t in g.nodes && TableOf(d', g.nodes[t]) == g.tables[t]
    {
      OtherBytesKept(d, d', g, s, more, t);
    }
  }

  // ----- the write -----

  /** What WriteAt asks of the disk follows from the invariant, but for room on
      the disk and in the header. */
  lemma GrowthReady(d: Disk, g: Fs, s: int, end: int)
    requires FsInv(d, g) && s in g.nodes && s != FREE_MAP_SECTOR && FREE_MAP_SECTOR in g.nodes
    requires var h, mh := g.nodes[s], g.nodes[FREE_MAP_SECTOR];
             && HeaderCount(|h.data|) >= |h.chain| && 0 <= end <= MAX_FILE_LENGTH
             && |h.data| <= SectorsFor(end) <= Capacity(HeaderCount(|h.data|)) && CanGrow(g.marks, h, end)
    ensures CanGrowTo(d, s, g.nodes[s], g.nodes[FREE_MAP_SECTOR], end)
  {
    FileAndMap(d, g, s);
  }

  /** The sectors of a file and of the bitmap's data are marked, and different. */
  lemma FileAndMap(d: Disk, g: Fs, s: int)
    requires FsInv(d, g) && s in g.nodes && s != FREE_MAP_SECTOR
    ensures var h, mh := g.nodes[s], g.nodes[FREE_MAP_SECTOR];
            && DiskMarks(d, mh) == g.marks && SetOf(Owned(s, h)) + SetOf(mh.data) <= g.marks
            && SetOf(Owned(s, h)) !! SetOf(mh.data)
  {
    FsInvIs(d, g);
    var h, mh := g.nodes[s], g.nodes[FREE_MAP_SECTOR];
    OwnedSplit(FREE_MAP_SECTOR, mh);
    OwnedMarked(g, s);
    OwnedMarked(g, FREE_MAP_SECTOR);
    OwnedDisjoint(g, s, FREE_MAP_SECTOR);
  }

  /** The sectors that a growing write adds. */
  ghost function NewSectorsOf(m: set<int>, h: Header, end: int): set<int>
    requires HeaderCount(|h.data|) >= |h.chain| && SectorsFor(end) >= |h.data|
  {
    SetOf(GrownChain(m, h)) + SetOf(GrownData(m, h, end))
  }

  lemma NewAreClear(m: set<int>, h: Header, end: int)
    requires HeaderCount(|h.data|) >= |h.chain| && SectorsFor(end) >= |h.data| && CanGrow(m, h, end)
    ensures NewSectorsOf(m, h, end) !! m
  {
    GrownParts(m, h, end);
    SetOfIs(GrownChain(m, h));
    SetOfIs(GrownData(m, h, end));
    forall k | k in NewSectorsOf(m, h, end)
      ensures k !in m
    {
    }
  }

  lemma GrownOwned(m: set<int>, s: int, h: Header, end: int)
    requires HeaderCount(|h.data|) >= |h.chain| && SectorsFor(end) >= |h.data|
    ensures SetOf(Owned(s, GrownHeader(m, h, end))) == SetOf(Owned(s, h)) + NewSectorsOf(m, h, end)
  {
    OwnedIs(s, h);
    OwnedIs(s, GrownHeader(m, h, end));
    SetOfAppend(h.chain, GrownChain(m, h));
    SetOfAppend(h.data, GrownData(m, h, end));
  }

  /** What GrownOnDisk says, in terms of the abstract file system. */
  lemma GrownFacts(d: Disk, d': Disk, g: Fs, s: int, h': Header, end: int)
    requires s in g.nodes && s !in g.tables && s != FREE_MAP_SECTOR && FREE_MAP_SECTOR in g.nodes
    requires DiskMarks(d, g.nodes[FREE_MAP_SECTOR]) == g.marks
    requires CanGrowTo(d, s, g.nodes[s], g.nodes[FREE_MAP_SECTOR], end)
    requires GrownOnDisk(d, d', s, g.nodes[s], h', g.nodes[FREE_MAP_SECTOR], end)
    requires SameExcept(d, d', SetOf(Owned(s, h')) + SetOf(g.nodes[FREE_MAP_SECTOR].data))
    ensures var more := NewSectorsOf(g.marks, g.nodes[s], end);
            && Extends(g, s, h', more) && GrowthTouches(d, d', g, s, more) && Stored(d', s, h')
            && DiskMarks(d', g.nodes[FREE_MAP_SECTOR]) == g.marks + more
  {
    NewAreClear(g.marks, g.nodes[s], end);
    GrownOwned(g.marks, s, g.nodes[s], end);
  }

  /** A write that grows a regular file keeps the file system consistent and
      changes the contents of no other file. */
  lemma GrowingWriteKeepsInv(d: Disk, d': Disk, g: Fs, s: int, h': Header, end: int)
    requires FsInv(d, g) && s in g.nodes && s !in g.tables && s != FREE_MAP_SECTOR && FREE_MAP_SECTOR in g.nodes
    requires CanGrowTo(d, s, g.nodes[s], g.nodes[FREE_MAP_SECTOR], end)
    requires GrownOnDisk(d, d', s, g.nodes[s], h', g.nodes[FREE_MAP_SECTOR], end)
    requires SameExcept(d, d', SetOf(Owned(s, h')) + SetOf(g.nodes[FREE_MAP_SECTOR].data))
    ensures FsInv(d', Grow(g, s, h'))
    ensures forall t :: t in g.nodes && t != s && t != FREE_MAP_SECTOR ==> FileBytes(d', g.nodes[t]) == FileBytes(d, g.nodes[t])
  {
    FsInvIs(d, g);
    GrownFacts(d, d', g, s, h', end);
    GrowthKeepsInv(d, d', g, s, h', NewSectorsOf(g.marks, g.nodes[s], end));
  }

  lemma GrowthKeepsInv(d: Disk, d': Disk, g: Fs, s: int, h': Header, more: set<int>)
    requires FsInv(d, g) && Extends(g, s, h', more) && GrowthTouches(d, d', g, s, more)
    requires Stored(d', s, h') && DiskMarks(d', g.nodes[FREE_MAP_SECTOR]) == g.marks + more
    ensures FsInv(d', Grow(g, s, h'))
    ensures forall t :: t in g.nodes && t != s && t != FREE_MAP_SECTOR ==> FileBytes(d', g.nodes[t]) == FileBytes(d, g.nodes[t])
  {
    FsInvIs(d, g);
    GrowKeepsTree(g, s, h', more);
    GrowKeepsRep(d, d', g, s, h', more);
    forall t | t in g.nodes && t != s && t != FREE_MAP_SECTOR
      ensures FileBytes(d', g.nodes[t]) == FileBytes(d, g.nodes[t])
    {
      OtherBytesKept(d, d', g, s, more, t);
    }
  }

  // ----- older lists of the same file -----

  /** h lists sectors that the file had before it grew to `now`. */
  ghost predicate Older(h: Header, now: Header) { h.data <= now.data && h.chain <= now.chain && h.isdir == now.isdir }

  ghost predicate SameLists(h: Header, now: Header) { h.data == now.data && h.chain == now.chain }

  lemma PrefixSets(s: seq<int>, t: seq<int>)
    requires s <= t
    ensures SetOf(s) <= SetOf(t)
  {
    SetOfAppend(s, t[|s|..]);
    assert t == s + t[|s|..];
  }

  lemma OlderOwned(s: int, h: Header, now: Header)
    requires h.data <= now.data && h.chain <= now.chain
    ensures SetOf(Owned(s, h)) <= SetOf(Owned(s, now))
  {
    OwnedIs(s, h);
    OwnedIs(s, now);
    PrefixSets(h.data, now.data);
    PrefixSets(h.chain, now.chain);
  }

  /** If the lists differ, some sector of the file is not in the older ones. */
  lemma GrownSector(s: int, h: Header, now: Header) returns (k: int)
    requires WellFormed(s, now) && h.data <= now.data && h.chain <= now.chain && (h.data != now.data || h.chain != now.chain)
    ensures k in SetOf(Owned(s, now)) && k !in SetOf(Owned(s, h))
  {
    OwnedIs(s, h);
    OwnedIs(s, now);
    k := GrownPart(s, h, now);
  }

  lemma GrownPart(s: int, h: Header, now: Header) returns (k: int)
    requires WellFormed(s, now) && h.data <= now.data && h.chain <= now.chain && (h.data != now.data || h.chain != now.chain)
    ensures k in SetOf(now.data) + SetOf(now.chain) && k != s && k !in SetOf(h.data) && k !in SetOf(h.chain)
  {
    HeaderParts(s, now);
    SetOfIs(now.data);
    SetOfIs(now.chain);
    SetOfIs(h.data);
    SetOfIs(h.chain);
    k := if h.data != now.data then now.data[|h.data|] else now.chain[|h.chain|];
  }
}
