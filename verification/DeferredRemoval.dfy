/**
 Removing a file in two steps: its directory entry first, its sectors later,
 when the last thread closes it (filesys/oftable.cc). In between the file is a
 root of the tree: no entry names it, but its sectors stay marked.
 */
module DeferredRemoval {
  import opened Layout
  import opened BitMaps
  import opened DiskImage
  import opened FileHeaders
  import opened OpenFiles
  import opened Directories
  import opened FileTree
  import opened FsDisk

  lemma OneFileTouched(d: Disk, d': Disk, g: Fs, p: int)
    requires p in g.nodes && SameExcept(d, d', SetOf(g.nodes[p].data))
    ensures Touches(d, d', g, {p}, {})
  {
    forall k | OnDisk(k) && d'[k] != d[k]
      ensures DataOf(g, {p}, k)
    {
      assert k in SetOf(g.nodes[p].data);
    }
  }

  lemma MarksKept(d: Disk, d': Disk, g: Fs, p: int)
    requires FsInv(d, g) && p in g.nodes && p != FREE_MAP_SECTOR && SameExcept(d, d', SetOf(g.nodes[p].data))
    ensures FREE_MAP_SECTOR in g.nodes && DiskMarks(d', g.nodes[FREE_MAP_SECTOR]) == g.marks
  {
    FsInvIs(d, g);
    OneFileTouched(d, d', g, p);
    DataKept(d, d', g, {p}, {}, FREE_MAP_SECTOR);
    DiskMarksFrame(d, d', g.nodes[FREE_MAP_SECTOR]);
  }

  lemma UnlinkChanges(d': Disk, g: Fs, p: int, i: int)
    requires Entry(g, p, i) && p in g.nodes && FREE_MAP_SECTOR in g.nodes
    requires DiskMarks(d', g.nodes[FREE_MAP_SECTOR]) == g.marks && g.tables.Keys <= g.nodes.Keys
    requires TableOf(d', g.nodes[p]) == g.tables[p][i := g.tables[p][i].(inUse := false)]
    ensures Changes(d', g, Unlink(g, p, i), {p})
  {
  }

  /** Removing the entry: the file stays, as a root. */
  lemma UnlinkOnDisk(d: Disk, d': Disk, g: Fs, p: int, i: int)
    requires FsInv(d, g) && Entry(g, p, i) && p in g.nodes && SameExcept(d, d', SetOf(g.nodes[p].data))
    requires TableOf(d', g.nodes[p]) == g.tables[p][i := g.tables[p][i].(inUse := false)]
    ensures FsInv(d', Unlink(g, p, i))
  {
    FsInvIs(d, g);
    UnlinkKeepsInv(g, p, i);
    OneFileTouched(d, d', g, p);
    assert IsDir(g, p);
    MarksKept(d, d', g, p);
    TablesAreNodes(g);
    UnlinkChanges(d', g, p, i);
    RepAfter(d, d', g, Unlink(g, p, i), {p}, {});
  }

  /** Freeing the sectors of a file that has no entry any more. */
  lemma DropOnDisk(d: Disk, d': Disk, g: Fs, s: int)
    requires FsInv(d, g) && CanDrop(g, s) && s in g.nodes && FREE_MAP_SECTOR in g.nodes
    requires SameExcept(d, d', SetOf(g.nodes[FREE_MAP_SECTOR].data))
    requires DiskMarks(d', g.nodes[FREE_MAP_SECTOR]) == g.marks - SetOf(Owned(s, g.nodes[s]))
    ensures FsInv(d', Drop(g, s))
  {
    FsInvIs(d, g);
    DropKeepsInv(g, s);
    OneFileTouched(d, d', g, FREE_MAP_SECTOR);
    DropChanges(d', g, s);
    RepAfter(d, d', g, Drop(g, s), {FREE_MAP_SECTOR}, {});
  }

  lemma DropChanges(d': Disk, g: Fs, s: int)
    requires ShapeOk(g) && CanDrop(g, s) && s in g.nodes && FREE_MAP_SECTOR in g.nodes
    requires DiskMarks(d', g.nodes[FREE_MAP_SECTOR]) == g.marks - SetOf(Owned(s, g.nodes[s]))
    ensures Changes(d', g, Drop(g, s), {FREE_MAP_SECTOR})
  {
    assert !IsDir(g, FREE_MAP_SECTOR);
    assert forall t :: t in g.tables ==> IsDir(g, t);
  }

  // ----- a disk determines its files -----

  /** File t and, if it is a directory, its table are on the disk as g has them. */
  ghost predicate OnDiskStill(d': Disk, g: Fs, t: int) {
    t in g.nodes ==> Stored(d', t, g.nodes[t]) && (t in g.tables ==> TableOf(d', g.nodes[t]) == g.tables[t])
  }

  /** Every file but x is. */
  ghost predicate KeptOnDisk(d': Disk, g: Fs, x: int) { forall t {:trigger OnDiskStill(d', g, t)} :: t != x ==> OnDiskStill(d', g, t) }

  lemma HeaderOfBoth(d: Disk, d': Disk, g: Fs, g': Fs, x: int, t: int)
    requires FsInv(d, g) && FsInv(d', g') && KeptOnDisk(d', g, x) && t in g.nodes && t in g'.nodes && t != x
    ensures g'.nodes[t] == g.nodes[t]
  {
    FsInvIs(d, g);
    assert OnDiskStill(d', g, t) && WellFormed(t, g.nodes[t]);
    StoredIsFetched(d', t, g.nodes[t]);
    NodeFetched(d', g', t);
  }

  lemma TableOfBoth(d: Disk, d': Disk, g: Fs, g': Fs, x: int, p: int)
    requires FsInv(d, g) && FsInv(d', g') && KeptOnDisk(d', g, x) && p in g.nodes && p in g'.tables && p != x
    ensures p in g.tables && g'.tables[p] == g.tables[p]
  {
    TableFetched(d', g', p);
    HeaderOfBoth(d, d', g, g', x, p);
    FsInvIs(d, g);
    assert IsDir(g, p);
    assert OnDiskStill(d', g, p);
    NodeFetched(d', g', p);
  }

  /** Who names a file in the new file system names it in the old one, too. */
  lemma ParentOf(d: Disk, g: Fs, t: int) returns (p: int, i: int)
    requires FsInv(d, g) && t in g.nodes && t !in g.roots
    ensures NamesFile(g, p, i, t) && p in g.nodes && p in g.depth && t in g.depth && g.depth[t] == g.depth[p] + 1
  {
    FsInvIs(d, g);
    p, i :| NamesFile(g, p, i, t);
    assert FileTree.Entry(g, p, i);
    TablesAreNodes(g);
  }

  lemma EntryIsNamed(d: Disk, g: Fs, p: int, i: int, t: int)
    requires FsInv(d, g) && NamesFile(g, p, i, t)
    ensures t in g.nodes && t !in g.roots
  {
    FsInvIs(d, g);
    assert FileTree.Entry(g, p, i);
  }

  /** If all files but the regular file x are on the new disk as before, any file
      system that it could hold, with no other unnamed files, has no files but
      those that the old one had. */
  lemma {:induction false} FilesAreOld(d: Disk, d': Disk, g: Fs, g': Fs, x: int, t: int)
    requires FsInv(d, g) && FsInv(d', g') && KeptOnDisk(d', g, x) && g'.roots <= g.roots && x !in g'.tables && g.roots <= g.nodes.Keys
    requires t in g'.nodes && t in g'.depth
    ensures t in g.nodes && (t != x ==> g'.nodes[t] == g.nodes[t]) && (t in g.roots ==> t in g'.roots)
    decreases g'.depth[t]
  {
    if t !in g'.roots {
      var p, i := ParentOf(d', g', t);
      FilesAreOld(d, d', g, g', x, p);
      TableOfBoth(d, d', g, g', x, p);
      EntryIsNamed(d, g, p, i, t);
    }
    if t != x {
      HeaderOfBoth(d, d', g, g', x, t);
    }
  }

  // ----- only the bitmap has changed -----

  /** Only the contents of the bitmap file may have changed. */
  ghost predicate OnlyMapChanged(d: Disk, d': Disk, g: Fs) {
    FREE_MAP_SECTOR in g.nodes && SameExcept(d, d', SetOf(g.nodes[FREE_MAP_SECTOR].data))
  }

  lemma MapChangeKeeps(d: Disk, d': Disk, g: Fs)
    requires FsInv(d, g) && OnlyMapChanged(d, d', g)
    ensures KeptOnDisk(d', g, ERROR)
  {
    MapChangeHeaders(d, d', g);
    forall t
      ensures OnDiskStill(d', g, t)
    {
      if t in g.nodes && t in g.tables {
        MapChangeTable(d, d', g, t);
      }
    }
  }

  lemma MapChangeHeaders(d: Disk, d': Disk, g: Fs)
    requires FsInv(d, g) && OnlyMapChanged(d, d', g)
    ensures HeadersOnDisk(d', g)
  {
    FsInvIs(d, g);
    OneFileTouched(d, d', g, FREE_MAP_SECTOR);
    HeadersKept(d, d', g, {FREE_MAP_SECTOR}, {});
  }

  lemma MapChangeTable(d: Disk, d': Disk, g: Fs, t: int)
    requires FsInv(d, g) && OnlyMapChanged(d, d', g) && t in g.tables && t in g.nodes
    ensures TableOf(d', g.nodes[t]) == g.tables[t]
  {
    FsInvIs(d, g);
    TablesAreNodes(g);
    OneFileTouched(d, d', g, FREE_MAP_SECTOR);
    ContentsKept(d, d', g, {FREE_MAP_SECTOR}, {}, t);
  }

  lemma NoErrorFile(d: Disk, g: Fs)
    requires FsInv(d, g)
    ensures ERROR !in g.tables && ERROR !in g.nodes && g.roots <= g.nodes.Keys
  {
    FsInvIs(d, g);
    TablesAreNodes(g);
    if ERROR in g.nodes {
      HeaderParts(ERROR, g.nodes[ERROR]);
    }
  }
}
