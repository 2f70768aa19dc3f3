/**
 What a path leads to is changed only by removing that very file: a path that
 resolves keeps resolving to the same header sector across every operation on
 other files.
 */
module PathStability {
  import opened Layout
  import opened DiskImage
  import opened FileHeaders
  import opened Directories
  import opened Paths
  import opened FileTree
  import opened FsDisk
  import opened FsSteps

  /** The header sector of the file that a path names, or ERROR. */
  function ResolveFrom(d: Disk, s: int, path: CString): int {
    match FindDirFrom(d, s, path)
    case NotFound => ERROR
    case Found(p, leaf) => FindSector(TableAt(d, p), leaf)
  }

  function Resolve(d: Disk, path: CString): int { ResolveFrom(d, ROOT_SECTOR, path) }

  ghost function LookIn(g: Fs, q: int, name: CString): int {
    if q in g.tables then FindSector(g.tables[q], name) else ERROR
  }

  /** Going from g to g' loses no lookup but those in s and those that lead to
      s, which has no entries. */
  ghost predicate KeepsLookups(g: Fs, g': Fs, s: int) {
    && (s in g.tables ==> NoEntries(g.tables[s]))
    && forall q, name :: LookIn(g, q, name) != ERROR && LookIn(g, q, name) != s && q != s ==>
                           q in g'.tables && LookIn(g', q, name) == LookIn(g, q, name)
  }

  lemma EmptyLookup(g: Fs, s: int, name: CString)
    requires s in g.tables ==> NoEntries(g.tables[s])
    ensures LookIn(g, s, name) == ERROR
  {
    if s in g.tables {
      FindFromMeans(g.tables[s], name, 0);
    }
  }

  /** Where the walk goes from directory q, in terms of the abstract file system. */
  ghost function NextOnPath(g: Fs, q: int, head: CString): int {
    var next := LookIn(g, q, head);
    if next < 0 || next !in g.tables then ERROR else next
  }

  lemma NextDirectoryIs(d: Disk, g: Fs, q: int, head: CString)
    requires FsInv(d, g) && q in g.tables
    ensures var next := FindSector(TableAt(d, q), head);
            next == LookIn(g, q, head) && (next >= 0 ==> (IsDirAt(d, next) <==> next in g.tables))
  {
    TableFetched(d, g, q);
    if LookIn(g, q, head) >= 0 {
      LookupIsNode(d, g, q, head);
    }
  }

  /** One step of the walk. */
  lemma WalkStep(d: Disk, g: Fs, q: int, path: CString)
    requires FsInv(d, g) && q in g.tables
    ensures var r := Decomp(path);
            var next := NextOnPath(g, q, r.head);
            ResolveFrom(d, q, path) ==
            if !r.more then LookIn(g, q, r.tail) else if next == ERROR then ERROR else ResolveFrom(d, next, r.tail)
  {
    var r := Decomp(path);
    NextDirectoryIs(d, g, q, r.head);
    NextDirectoryIs(d, g, q, r.tail);
  }

  /** A path that resolves to a file other than s still does afterwards. */
  lemma {:induction false} ResolveKept(d: Disk, g: Fs, d': Disk, g': Fs, s: int, q: int, path: CString)
    requires FsInv(d, g) && FsInv(d', g') && KeepsLookups(g, g', s) && q in g.tables && q in g'.tables
    requires ResolveFrom(d, q, path) != ERROR && ResolveFrom(d, q, path) != s
    ensures ResolveFrom(d', q, path) == ResolveFrom(d, q, path)
    decreases |path|
  {
    var r := Decomp(path);
    WalkStep(d, g, q, path);
    WalkStep(d', g', q, path);
    EmptyLookup(g, s, r.tail);
    EmptyLookup(g, s, r.head);
    if r.more {
      var next := LookIn(g, q, r.head);
      if next == s {
        WalkStep(d, g, s, r.tail);
        EmptyLookup(g, s, Decomp(r.tail).tail);
        EmptyLookup(g, s, Decomp(r.tail).head);
      } else {
        DirectoryKept(g, g', s, next, r.tail, d);
        ResolveKept(d, g, d', g', s, next, r.tail);
      }
    }
  }

  /** A directory on the way to a file is still there. */
  lemma DirectoryKept(g: Fs, g': Fs, s: int, q: int, path: CString, d: Disk)
    requires FsInv(d, g) && KeepsLookups(g, g', s) && q in g.tables && q != s && ResolveFrom(d, q, path) != ERROR
    requires ResolveFrom(d, q, path) != s
    ensures q in g'.tables
  {
    WalkStep(d, g, q, path);
    var r := Decomp(path);
    if r.more && LookIn(g, q, r.head) == s {
      WalkStep(d, g, s, r.tail);
      EmptyLookup(g, s, Decomp(r.tail).tail);
      EmptyLookup(g, s, Decomp(r.tail).head);
    }
  }

  // ----- the operations -----

  lemma AddKeepsLookups(d: Disk, g: Fs, op: Op, p: int, leaf: CString)
    requires FsInv(d, g) && MarksAt(d) == g.marks && Addable(d, g, op, p, leaf) && ValidOp(op) && p in g.depth
    ensures KeepsLookups(g, AddResult(d, g, op, p, leaf), ERROR)
  {
    FsInvIs(d, g);
    AddResultIs(d, g, op, p, leaf);
    var g', s := AddResult(d, g, op, p, leaf), NewSector(d);
    TablesAreNodes(g);
    HeaderParts(s, g'.nodes[s]);
    assert ERROR !in g.nodes by {
      if ERROR in g.nodes {
        HeaderParts(ERROR, g.nodes[ERROR]);
      }
    }
    forall q, name | LookIn(g, q, name) != ERROR
      ensures q in g'.tables && LookIn(g', q, name) == LookIn(g, q, name)
    {
      AddedLookup(g, g', s, NewHeader(d, op), p, leaf, q, name);
    }
  }

  lemma AddedLookup(g: Fs, g': Fs, s: int, h: Header, p: int, leaf: CString, q: int, name: CString)
    requires p in g.tables && AddStatus(g.tables[p], leaf) == NoError && AddedTo(g, g', s, h, p, Added(g.tables[p], leaf, s))
    requires ValidTable(g.tables[p]) && IsInt32(s) && s !in g.tables && LookIn(g, q, name) != ERROR
    ensures q in g'.tables && LookIn(g', q, name) == LookIn(g, q, name)
  {
    if q == p {
      FindAfterAdd(g.tables[p], leaf, s, name);
      if Key(name) == Key(leaf) {
        SameKeySameEntry(g.tables[p], leaf, name);
      }
    }
  }

  lemma SameKeySameEntry(t: Table, a: CString, b: CString)
    requires ValidTable(t) && Key(a) == Key(b)
    ensures FindIndex(t, a) == FindIndex(t, b)
  {
    KeyOfField(a, b);
    FindMeans(t, a);
    FindMeans(t, b);
    var i, j := FindIndex(t, a), FindIndex(t, b);
    if i != ERROR {
      FindIsUnique(t, b, i);
    }
  }

  lemma RemovedLookup(t: Table, leaf: CString, name: CString)
    requires ValidTable(t) && FindSector(t, name) != FindSector(t, leaf)
    ensures FindSector(Removed(t, leaf), name) == FindSector(t, name)
  {
    FindAfterRemove(t, leaf, name);
    if Key(name) == Key(leaf) {
      SameKeySameEntry(t, leaf, name);
    }
  }

  lemma RemoveKeepsLookups(g: Fs, p: int, leaf: CString)
    requires TreeInv(g) && Removable(g, p, leaf)
    ensures KeepsLookups(g, RemoveResult(g, p, leaf), FindSector(g.tables[p], leaf))
  {
    RemoveResultIs(g, p, leaf);
    var g', s := RemoveResult(g, p, leaf), FindSector(g.tables[p], leaf);
    forall q, name | LookIn(g, q, name) != ERROR && LookIn(g, q, name) != s && q != s
      ensures q in g'.tables && LookIn(g', q, name) == LookIn(g, q, name)
    {
      if q == p {
        RemovedLookup(g.tables[p], leaf, name);
      }
    }
  }

  /** The file that a successful Remove or Rmdir takes away. */
  ghost function TargetOf(d: Disk, op: Op): int {
    if StatusOf(d, op) == NoError && (op.Remove? || op.Rmdir?) then Resolve(d, op.path) else ERROR
  }

  lemma RemovalTarget(d: Disk, g: Fs, op: Op)
    requires FsInv(d, g) && (op.Remove? || op.Rmdir?) && StatusOf(d, op) == NoError
    ensures FindDir(d, op.path).Found?
    ensures var Found(p, leaf) := FindDir(d, op.path); p in g.tables && TargetOf(d, op) == FindSector(g.tables[p], leaf)
  {
    FindDirIsDirectory(d, g, ROOT_SECTOR, op.path);
    TableFetched(d, g, FindDir(d, op.path).sector);
  }

  lemma RemovalNext(d: Disk, g: Fs, op: Op)
    requires FsInv(d, g) && (op.Remove? || op.Rmdir?) && StatusOf(d, op) == NoError
    ensures FindDir(d, op.path).Found?
    ensures var Found(p, leaf) := FindDir(d, op.path); Removable(g, p, leaf) && NextFs(d, g, op) == RemoveResult(g, p, leaf)
  {
    RemoveFound(d, g, op);
  }

  lemma RemovalKeepsLookups(d: Disk, g: Fs, op: Op)
    requires FsInv(d, g) && (op.Remove? || op.Rmdir?) && StatusOf(d, op) == NoError
    ensures KeepsLookups(g, NextFs(d, g, op), TargetOf(d, op))
  {
    FsInvIs(d, g);
    RemovalTarget(d, g, op);
    RemovalNext(d, g, op);
    var Found(p, leaf) := FindDir(d, op.path);
    RemoveKeepsLookups(g, p, leaf);
  }

  lemma AddNext(d: Disk, g: Fs, op: Op)
    requires FsInv(d, g) && ValidOp(op) && (op.Create? || op.Mkdir?) && StatusOf(d, op) == NoError
    ensures FindDir(d, op.path).Found?
    ensures var Found(p, leaf) := FindDir(d, op.path);
            && MarksAt(d) == g.marks && Addable(d, g, op, p, leaf) && p in g.depth
            && NextFs(d, g, op) == AddResult(d, g, op, p, leaf)
  {
    AddFound(d, g, op);
    var Found(p, leaf) := FindDir(d, op.path);
    AddResultIs(d, g, op, p, leaf);
  }

  lemma AdditionKeepsLookups(d: Disk, g: Fs, op: Op)
    requires FsInv(d, g) && ValidOp(op) && (op.Create? || op.Mkdir?) && StatusOf(d, op) == NoError
    ensures KeepsLookups(g, NextFs(d, g, op), ERROR)
  {
    AddNext(d, g, op);
    var Found(p, leaf) := FindDir(d, op.path);
    AddKeepsLookups(d, g, op, p, leaf);
  }

  lemma StepKeepsLookups(d: Disk, g: Fs, op: Op)
    requires FsInv(d, g) && ValidOp(op)
    ensures KeepsLookups(g, NextFs(d, g, op), TargetOf(d, op))
  {
    FsInvIs(d, g);
    if StatusOf(d, op) != NoError {
      NoSuchSector(g);
    } else if op.Create? || op.Mkdir? {
      AdditionKeepsLookups(d, g, op);
    } else {
      RemovalKeepsLookups(d, g, op);
    }
  }

  lemma NoSuchSector(g: Fs)
    requires TreeInv(g)
    ensures KeepsLookups(g, g, ERROR)
  {
    TablesAreNodes(g);
    if ERROR in g.nodes {
      HeaderParts(ERROR, g.nodes[ERROR]);
    }
  }

  /** Every path that does not lead to the removed file keeps its meaning. */
  lemma StepKeepsPaths(d: Disk, g: Fs, op: Op, r: Status, d': Disk, path: CString)
    requires FsInv(d, g) && ValidOp(op) && Step(d, op, r, d')
    requires Resolve(d, path) != ERROR && Resolve(d, path) != TargetOf(d, op)
    ensures Resolve(d', path) == Resolve(d, path)
  {
    StepTouches(d, g, op, r, d');
    StepKeepsLookups(d, g, op);
    ResolveKept(d, g, d', NextFs(d, g, op), TargetOf(d, op), ROOT_SECTOR, path);
  }

  /** A path that resolves leads to a file that has a name. */
  lemma ResolveIsNode(d: Disk, g: Fs, name: CString)
    requires FsInv(d, g) && Resolve(d, name) != ERROR
    ensures var s := Resolve(d, name);
            s in g.nodes && s !in g.roots && (IsDirAt(d, s) <==> s in g.tables) && FetchHeader(d, s) == g.nodes[s]
  {
    FindDirIsDirectory(d, g, ROOT_SECTOR, name);
    var Found(p, leaf) := FindDir(d, name);
    TableFetched(d, g, p);
    LookupIsNode(d, g, p, leaf);
  }

  lemma NodeAboveRoot(g: Fs, s: int)
    requires TreeInv(g) && s in g.nodes && s !in g.roots
    ensures s > ROOT_SECTOR
  {
    HeaderParts(s, g.nodes[s]);
  }

  lemma ResolveIsFile(d: Disk, g: Fs, name: CString)
    requires FsInv(d, g) && Resolve(d, name) != ERROR
    ensures var s := Resolve(d, name);
            && s in g.nodes && s !in g.roots && s > ROOT_SECTOR
            && (IsDirAt(d, s) <==> s in g.tables) && FetchHeader(d, s) == g.nodes[s]
  {
    FsInvIs(d, g);
    ResolveIsNode(d, g, name);
    NodeAboveRoot(g, Resolve(d, name));
  }

  // ----- after an entry has been removed, with the file still there -----

  /** The walk over the directories of a path goes through directory s. */
  predicate PassesThrough(d: Disk, q: int, path: CString, s: int)
    decreases |path|
  {
    var r := Decomp(path);
    r.more &&
    var next := FindSector(TableAt(d, q), r.head);
    next >= 0 && IsDirAt(d, next) && (next == s || PassesThrough(d, next, r.tail, s))
  }

  /** Lookups lead to the unlinked file no more; all others are the same. */
  lemma UnlinkLookup(g: Fs, p: int, leaf: CString, q: int, name: CString)
    requires TreeInv(g) && p in g.tables && FindSector(g.tables[p], leaf) != ERROR
    requires Entry(g, p, FindIndex(g.tables[p], leaf))
    ensures var s, g' := FindSector(g.tables[p], leaf), Unlink(g, p, FindIndex(g.tables[p], leaf));
            LookIn(g', q, name) == if LookIn(g, q, name) == s then ERROR else LookIn(g, q, name)
  {
    var i, s := FindIndex(g.tables[p], leaf), FindSector(g.tables[p], leaf);
    if LookIn(g, q, name) == s {
      OnlyEntry(g, p, i, q, name);
      FindAfterRemove(g.tables[p], leaf, name);
      FindFromMeans(g.tables[p], leaf, 0);
      SameEntrySameKey(g.tables[p], leaf, name);
    } else if q == p {
      RemovedLookup(g.tables[p], leaf, name);
    }
  }

  /** The entry that a lookup uses is the only one that names the file. */
  lemma OnlyEntry(g: Fs, p: int, i: int, q: int, name: CString)
    requires TreeInv(g) && Entry(g, p, i) && LookIn(g, q, name) == Target(g, p, i) != ERROR
    ensures q == p && FindIndex(g.tables[p], name) == i
  {
    FindFromMeans(g.tables[q], name, 0);
    assert NamesFile(g, p, i, Target(g, p, i)) && NamesFile(g, q, FindIndex(g.tables[q], name), Target(g, p, i));
  }

  lemma SameEntrySameKey(t: Table, a: CString, b: CString)
    requires ValidTable(t) && FindIndex(t, a) == FindIndex(t, b) != ERROR
    ensures Key(a) == Key(b)
  {
    KeyOfField(a, b);
    FindMeans(t, a);
    FindMeans(t, b);
  }

  /** One lookup on disk, before and after: s is not found any more. */
  predicate SameStep(d: Disk, d': Disk, D: set<int>, s: int, q: int, name: CString) {
    var next, next' := FindSector(TableAt(d, q), name), FindSector(TableAt(d', q), name);
    && next' == (if next == s then ERROR else next)
    && (next' >= 0 ==> (IsDirAt(d', next') <==> IsDirAt(d, next')))
    && (next >= 0 && IsDirAt(d, next) ==> next in D)
  }

  lemma UnlinkedNext(d: Disk, g: Fs, d': Disk, p: int, leaf: CString, q: int, name: CString)
    requires FsInv(d, g) && p in g.tables && FindSector(g.tables[p], leaf) != ERROR && Entry(g, p, FindIndex(g.tables[p], leaf))
    requires FsInv(d', Unlink(g, p, FindIndex(g.tables[p], leaf))) && q in g.tables
    ensures SameStep(d, d', g.tables.Keys, FindSector(g.tables[p], leaf), q, name)
  {
    FsInvIs(d, g);
    NextDirectoryIs(d, g, q, name);
    NextDirectoryIs(d', Unlink(g, p, FindIndex(g.tables[p], leaf)), q, name);
    UnlinkLookup(g, p, leaf, q, name);
  }

  /** FindDir goes the same way as before, except into directory s. */
  lemma {:induction false} SameWalk(d: Disk, d': Disk, D: set<int>, s: int, q: int, path: CString)
    requires q in D && forall x, name :: x in D ==> SameStep(d, d', D, s, x, name)
    ensures FindDirFrom(d', q, path) == if PassesThrough(d, q, path, s) then NotFound else FindDirFrom(d, q, path)
    decreases |path|
  {
    var r := Decomp(path);
    if r.more {
      assert SameStep(d, d', D, s, q, r.head);
      var next := FindSector(TableAt(d, q), r.head);
      if next >= 0 && IsDirAt(d, next) {
        SameWalk(d, d', D, s, next, r.tail);
      }
    }
  }

  lemma UnlinkedWalk(d: Disk, g: Fs, d': Disk, p: int, leaf: CString, path: CString)
    requires FsInv(d, g) && p in g.tables && FindSector(g.tables[p], leaf) != ERROR && Entry(g, p, FindIndex(g.tables[p], leaf))
    requires FsInv(d', Unlink(g, p, FindIndex(g.tables[p], leaf)))
    ensures FindDir(d', path) ==
            if PassesThrough(d, ROOT_SECTOR, path, FindSector(g.tables[p], leaf)) then NotFound else FindDir(d, path)
  {
    var D, s := g.tables.Keys, FindSector(g.tables[p], leaf);
    forall x, name | x in D
      ensures SameStep(d, d', D, s, x, name)
    {
      UnlinkedNext(d, g, d', p, leaf, x, name);
    }
    SameWalk(d, d', D, s, ROOT_SECTOR, path);
  }

  /** What a path leads to after an entry has been removed. */
  lemma UnlinkedResolve(d: Disk, g: Fs, d': Disk, p: int, leaf: CString, path: CString)
    requires FsInv(d, g) && p in g.tables && FindSector(g.tables[p], leaf) != ERROR && Entry(g, p, FindIndex(g.tables[p], leaf))
    requires FsInv(d', Unlink(g, p, FindIndex(g.tables[p], leaf)))
    ensures var s := FindSector(g.tables[p], leaf);
            Resolve(d', path) ==
            if PassesThrough(d, ROOT_SECTOR, path, s) || Resolve(d, path) == s then ERROR else Resolve(d, path)
  {
    UnlinkedWalk(d, g, d', p, leaf, path);
    FindDirIsDirectory(d, g, ROOT_SECTOR, path);
    if FindDir(d', path).Found? {
      var Found(q, name) := FindDir(d, path);
      UnlinkedNext(d, g, d', p, leaf, q, name);
    }
  }

  /** A regular file is on the way to nothing. */
  lemma {:induction false} ThroughDirectory(d: Disk, q: int, path: CString, s: int)
    requires PassesThrough(d, q, path, s)
    ensures s >= 0 && IsDirAt(d, s)
    decreases |path|
  {
    var r := Decomp(path);
    var next := FindSector(TableAt(d, q), r.head);
    if next != s {
      ThroughDirectory(d, next, r.tail, s);
    }
  }

  // ----- a new file -----

  lemma NextKept(d: Disk, g: Fs, d': Disk, g': Fs, q: int, name: CString)
    requires FsInv(d, g) && FsInv(d', g') && KeepsLookups(g, g', ERROR) && g.tables.Keys <= g'.tables.Keys && q in g.tables
    ensures var next := FindSector(TableAt(d, q), name);
            next >= 0 && IsDirAt(d, next) ==> next in g.tables && FindSector(TableAt(d', q), name) == next && IsDirAt(d', next)
  {
    NextDirectoryIs(d, g, q, name);
    NextDirectoryIs(d', g', q, name);
  }

  /** FindDir goes the same way as before if no lookup is lost. */
  lemma {:induction false} FindDirKept(d: Disk, g: Fs, d': Disk, g': Fs, q: int, path: CString)
    requires FsInv(d, g) && FsInv(d', g') && KeepsLookups(g, g', ERROR) && g.tables.Keys <= g'.tables.Keys
    requires q in g.tables && FindDirFrom(d, q, path).Found?
    ensures FindDirFrom(d', q, path) == FindDirFrom(d, q, path)
    decreases |path|
  {
    var r := Decomp(path);
    if r.more {
      NextKept(d, g, d', g', q, r.head);
      FindDirKept(d, g, d', g', FindSector(TableAt(d, q), r.head), r.tail);
    }
  }

  /** After a successful Create or Mkdir the path leads to the new file. */
  lemma AddedResolves(d: Disk, g: Fs, op: Op, d': Disk)
    requires FsInv(d, g) && ValidOp(op) && (op.Create? || op.Mkdir?) && Step(d, op, NoError, d')
    ensures Resolve(d', op.path) == NewSector(d) && FsInv(d', NextFs(d, g, op))
  {
    StepTouches(d, g, op, NoError, d');
    AddNext(d, g, op);
    var Found(p, leaf) := FindDir(d, op.path);
    AddResultIs(d, g, op, p, leaf);
    AdditionKeepsLookups(d, g, op);
    FindDirKept(d, g, d', NextFs(d, g, op), ROOT_SECTOR, op.path);
    TableFetched(d, g, p);
    TableFetched(d', NextFs(d, g, op), p);
    NewFileFound(d, g, op, p, leaf);
  }

  lemma NewFileFound(d: Disk, g: Fs, op: Op, p: int, leaf: CString)
    requires FsInv(d, g) && MarksAt(d) == g.marks && Addable(d, g, op, p, leaf) && ValidOp(op) && p in g.depth
    ensures LookIn(AddResult(d, g, op, p, leaf), p, leaf) == NewSector(d)
  {
    FsInvIs(d, g);
    AddResultIs(d, g, op, p, leaf);
    var g', s, h := AddResult(d, g, op, p, leaf), NewSector(d), NewHeader(d, op);
    assert WellFormed(s, g'.nodes[s]);
    TableFetched(d, g, p);
    TablesAreNodes(g);
    AddedFound(g, g', s, h, p, leaf);
  }

  lemma AddedFound(g: Fs, g': Fs, s: int, h: Header, p: int, leaf: CString)
    requires p in g.tables && AddedTo(g, g', s, h, p, Added(g.tables[p], leaf, s)) && s !in g.tables
    requires ValidTable(g.tables[p]) && AddStatus(g.tables[p], leaf) == NoError && WellFormed(s, h)
    ensures LookIn(g', p, leaf) == s
  {
    HeaderParts(s, h);
    FindAfterAdd(g.tables[p], leaf, s, leaf);
  }
}
