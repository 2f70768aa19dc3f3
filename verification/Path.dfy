/**
 Path names: decompname peels off the first component, and FindDir walks the
 directory tree down to the directory that should hold the last component
 (filesys/filesys.cc, lines 94 to 169).
 */
module Paths {
  import opened Layout
  import opened DiskImage
  import opened FileHeaders
  import opened Directories

  const SLASH: byte := 47

  function StripSlashes(p: CString): (r: CString)
    ensures |r| <= |p|
    decreases |p|
  {
    if p != [] && p[0] == SLASH then StripSlashes(p[1..]) else p
  }

  function FirstSlashFrom(p: seq<byte>, i: nat): (r: nat)
    requires i <= |p|
    ensures i <= r <= |p|
    ensures r < |p| ==> p[r] == SLASH
    ensures forall k :: i <= k < r ==> p[k] != SLASH
    decreases |p| - i
  {
    if i < |p| && p[i] != SLASH then FirstSlashFrom(p, i + 1) else i
  }

  function FirstSlash(p: seq<byte>): (r: nat)
    ensures r <= |p|
    ensures r < |p| ==> p[r] == SLASH
    ensures forall k :: 0 <= k < r ==> p[k] != SLASH
  {
    FirstSlashFrom(p, 0)
  }

  datatype Decomposed = Decomposed(more: bool, head: CString, tail: CString)

  /** The first component and the rest, or (more == false) only the last component. */
  function Decomp(path: CString): (r: Decomposed)
    ensures r.more ==> |r.tail| < |path|
  {
    var p := StripSlashes(path);
    var k := FirstSlash(p);
    if k < |p| then StrippedHead(path); Decomposed(true, p[..k], p[k..]) else Decomposed(false, p, p)
  }

  lemma {:induction false} StrippedHead(p: CString)
    ensures StripSlashes(p) == [] || StripSlashes(p)[0] != SLASH
    decreases |p|
  {
    if p != [] && p[0] == SLASH {
      StrippedHead(p[1..]);
    }
  }

  /** decompname's loops over the characters of the path. */
  method DecompName(path: CString) returns (r: Decomposed)
    ensures r == Decomp(path)
  {
    var p := path;
    while p != [] && p[0] == SLASH
      invariant StripSlashes(p) == StripSlashes(path)
      decreases |p|
    {
      p := p[1..];
    }
    var k := 0;
    while k < |p| && p[k] != SLASH
      invariant k <= |p| && FirstSlashFrom(p, k) == FirstSlash(p)
    {
      k := k + 1;
    }
    if k == |p| {
      return Decomposed(false, p, p);
    }
    StrippedHead(path);
    r := Decomposed(true, p[..k], p[k..]);
  }

  // ----- walking down the tree -----

  datatype FindResult = Found(sector: int, leaf: CString) | NotFound

  function TableAt(d: Disk, s: int): Table { TableOf(d, FetchHeader(d, s)) }

  predicate IsDirAt(d: Disk, s: int) { FetchHeader(d, s).isdir == 1 }

  function FindDirFrom(d: Disk, sector: int, path: CString): FindResult
    decreases |path|
  {
    var r := Decomp(path);
    if !r.more then Found(sector, r.tail) else
      var next := FindSector(TableAt(d, sector), r.head);
      if next < 0 || !IsDirAt(d, next) then NotFound else FindDirFrom(d, next, r.tail)
  }

  function FindDir(d: Disk, path: CString): FindResult { FindDirFrom(d, ROOT_SECTOR, path) }

  // ----- the same as a walk over the components -----

  /** The pieces between the slashes. */
  function Pieces(p: CString): (r: seq<CString>)
    ensures |r| > 0
    decreases |p|
  {
    var k := FirstSlash(p);
    if k == |p| then [p] else [p[..k]] + Pieces(p[k + 1..])
  }

  /** The text after the last slash. */
  function Leaf(p: CString): CString { Pieces(p)[|Pieces(p)| - 1] }

  function NonEmpty(s: seq<CString>): seq<CString> {
    if s == [] then [] else (if s[0] == [] then [] else [s[0]]) + NonEmpty(s[1..])
  }

  /** The non-empty components before the last slash. */
  function Components(p: CString): seq<CString> { NonEmpty(Pieces(p)[..|Pieces(p)| - 1]) }

  /** Looks the names up one after the other. */
  function Walk(d: Disk, sector: int, names: seq<CString>): int
    decreases |names|
  {
    if names == [] then sector else
      var next := FindSector(TableAt(d, sector), names[0]);
      if next < 0 || !IsDirAt(d, next) then ERROR else Walk(d, next, names[1..])
  }

  function WalkResult(d: Disk, sector: int, path: CString): FindResult {
    var s := Walk(d, sector, Components(path));
    if s == ERROR then NotFound else Found(s, Leaf(path))
  }

  /** A leading slash changes neither the components nor the leaf. */
  lemma LeadingSlash(p: CString)
    requires p != [] && p[0] == SLASH
    ensures Components(p) == Components(p[1..]) && Leaf(p) == Leaf(p[1..])
  {
    assert FirstSlash(p) == 0;
    var rest := Pieces(p[1..]);
    assert Pieces(p) == [p[..0]] + rest;
    assert Pieces(p)[..|rest|] == [p[..0]] + rest[..|rest| - 1];
    assert NonEmpty([p[..0]] + rest[..|rest| - 1]) == NonEmpty(rest[..|rest| - 1]) by {
      assert ([p[..0]] + rest[..|rest| - 1])[1..] == rest[..|rest| - 1];
    }
  }

  lemma {:induction false} StripKeeps(p: CString)
    ensures Components(StripSlashes(p)) == Components(p) && Leaf(StripSlashes(p)) == Leaf(p)
    decreases |p|
  {
    if p != [] && p[0] == SLASH {
      LeadingSlash(p);
      StripKeeps(p[1..]);
    }
  }

  /** A path that starts with a name followed by a slash. */
  lemma HeadComponent(p: CString)
    requires 0 < FirstSlash(p) < |p|
    ensures var k := FirstSlash(p);
            Components(p) == [p[..k]] + Components(p[k..]) && Leaf(p) == Leaf(p[k..])
  {
    var k := FirstSlash(p);
    var rest := Pieces(p[k + 1..]);
    assert Pieces(p) == [p[..k]] + rest;
    assert Pieces(p)[..|rest|] == [p[..k]] + rest[..|rest| - 1];
    assert ([p[..k]] + rest[..|rest| - 1])[1..] == rest[..|rest| - 1];
    assert Components(p) == [p[..k]] + Components(p[k + 1..]);
    LeadingSlash(p[k..]);
    assert p[k..][1..] == p[k + 1..];
  }

  /** FindDir ends for every path, and its answer is the walk over the
      non-empty components before the last slash, with the rest as leaf. */
  lemma {:induction false} FindDirIsWalk(d: Disk, sector: int, path: CString)
    requires sector != ERROR
    ensures FindDirFrom(d, sector, path) == WalkResult(d, sector, path)
    decreases |path|
  {
    StripKeeps(path);
    StrippedHead(path);
    var p := StripSlashes(path);
    if FirstSlash(p) < |p| {
      HeadComponent(p);
      var r := Decomp(path);
      var names := Components(path);
      assert names[0] == r.head && names[1..] == Components(r.tail);
      var next := FindSector(TableAt(d, sector), r.head);
      assert Walk(d, sector, names) == if next < 0 || !IsDirAt(d, next) then ERROR else Walk(d, next, Components(r.tail));
      if next >= 0 && IsDirAt(d, next) {
        FindDirIsWalk(d, next, r.tail);
      }
    } else {
      assert Pieces(p) == [p];
      assert Components(p) == [];
    }
  }
}
