/**
 Directories: fixed-size tables of (in use, header sector, name) entries,
 stored as the contents of a file (filesys/directory.cc).
 */
module Directories {
  import opened Basics
  import opened Layout
  import opened BitMaps
  import opened DiskImage
  import opened FileHeaders
  import opened OpenFiles

  /** The name field: FILENAMEMAXLEN bytes, padded with zeros by strncpy. */
  type NameField = s: seq<byte> | |s| == 80 witness Zeros(80)

  /** A C string: no byte is zero. */
  type CString = s: seq<byte> | 0 !in s

  datatype DirEntry = DirEntry(inUse: bool, sector: int, name: NameField)

  type Table = seq<DirEntry>

  // ----- names -----

  /** The part of a name that is stored and compared. */
  function Key(name: CString): CString { if |name| <= 80 then name else name[..80] }

  /** strncpy into the name field. */
  function Field(name: CString): NameField { Key(name) + Zeros(80 - |Key(name)|) }

  /** strncmp(field, name, 80) == 0, from index i on. */
  predicate MatchesFrom(field: NameField, name: CString, i: nat)
    decreases |field| - i
  {
    i >= |field| ||
    (var c := if i < |name| then name[i] else 0;
     field[i] == c && (c == 0 || MatchesFrom(field, name, i + 1)))
  }

  predicate Matches(field: NameField, name: CString) { MatchesFrom(field, name, 0) }

  lemma {:induction false} MatchesFromMeans(field: NameField, name: CString, i: nat)
    requires i <= |Key(name)|
    ensures MatchesFrom(field, name, i) <==>
              && (forall k :: i <= k < |Key(name)| ==> field[k] == name[k])
              && (|name| < 80 ==> field[|name|] == 0)
    decreases |field| - i
  {
    if i < |field| && i < |name| {
      assert name[i] in name;
      MatchesFromMeans(field, name, i + 1);
    }
  }

  /** A stored name matches exactly the names that agree on their first 80 bytes. */
  lemma FieldMatches(a: CString, b: CString)
    ensures Matches(Field(a), b) <==> Key(a) == Key(b)
  {
    MatchesFromMeans(Field(a), b, 0);
    var ka, kb := Key(a), Key(b);
    assert |kb| < |ka| ==> ka[|kb|] in ka && Field(a)[|kb|] == ka[|kb|];
    assert |ka| < |kb| ==> kb[|ka|] in kb && Field(a)[|ka|] == 0;
  }

  // ----- operations on tables -----

  function FindFrom(t: Table, name: CString, i: nat): (r: int)
    ensures r == ERROR || i <= r < |t|
    decreases |t| - i
  {
    if i >= |t| then ERROR
    else if t[i].inUse && Matches(t[i].name, name) then i
    else FindFrom(t, name, i + 1)
  }

  function FindIndex(t: Table, name: CString): (r: int)
    ensures r == ERROR || 0 <= r < |t|
  {
    FindFrom(t, name, 0)
  }

  function FindSector(t: Table, name: CString): int {
    var i := FindIndex(t, name);
    if i != ERROR then t[i].sector else ERROR
  }

  function FreeFrom(t: Table, i: nat): (r: int)
    ensures r == ERROR || i <= r < |t|
    decreases |t| - i
  {
    if i >= |t| then ERROR else if !t[i].inUse then i else FreeFrom(t, i + 1)
  }

  datatype Status =
    | NoError | OutOfDisk | AlreadyInDirectory | InexistFile | InexistDirectory
    | NoSpaceInDirectory | NotAFile | NotADirectory | DirectoryNotEmpty

  function AddStatus(t: Table, name: CString): Status {
    if FindIndex(t, name) != ERROR then AlreadyInDirectory
    else if FreeFrom(t, 0) != ERROR then NoError else NoSpaceInDirectory
  }

  function Added(t: Table, name: CString, sector: int): Table {
    var i := FreeFrom(t, 0);
    if AddStatus(t, name) == NoError then t[i := DirEntry(true, sector, Field(name))] else t
  }

  function Removed(t: Table, name: CString): Table {
    var i := FindIndex(t, name);
    if i != ERROR then t[i := t[i].(inUse := false)] else t
  }

  predicate NoEntries(t: Table) { forall i :: 0 <= i < |t| ==> !t[i].inUse }

  // ----- what the searches mean -----

  lemma {:induction false} FindFromMeans(t: Table, name: CString, i: nat)
    ensures var r := FindFrom(t, name, i);
            && (r != ERROR ==> t[r].inUse && Matches(t[r].name, name))
            && (forall k :: i <= k < (if r == ERROR then |t| else r) ==> !(t[k].inUse && Matches(t[k].name, name)))
    decreases |t| - i
  {
    if i < |t| && !(t[i].inUse && Matches(t[i].name, name)) {
      FindFromMeans(t, name, i + 1);
    }
  }

  lemma {:induction false} FreeFromMeans(t: Table, i: nat)
    ensures var r := FreeFrom(t, i);
            && (r != ERROR ==> !t[r].inUse)
            && (r == ERROR ==> forall k :: i <= k < |t| ==> t[k].inUse)
    decreases |t| - i
  {
    if i < |t| && t[i].inUse {
      FreeFromMeans(t, i + 1);
    }
  }

  // ----- well-formed tables -----

  /** An in-use entry holds some name as strncpy leaves it. */
  ghost predicate Named(e: DirEntry, name: CString) { e.inUse && e.name == Field(name) }

  ghost predicate ValidEntry(e: DirEntry) { IsInt32(e.sector) && (e.inUse ==> exists name :: Named(e, name)) }

  ghost predicate Unique(t: Table) {
    forall i, j :: 0 <= i < j < |t| && t[i].inUse && t[j].inUse ==> t[i].name != t[j].name
  }

  ghost predicate ValidTable(t: Table) {
    && |t| == NUM_DIR_ENTRIES
    && (forall i :: 0 <= i < |t| ==> ValidEntry(t[i]))
    && Unique(t)
  }

  lemma KeyOfField(a: CString, b: CString)
    ensures Field(a) == Field(b) <==> Key(a) == Key(b)
  {
    FieldMatches(a, b);
    FieldMatches(b, b);
    assert Key(a) == Key(b) ==> Field(a) == Field(b);
  }

  /** In a valid table, an entry matches a name exactly when it stores it. */
  lemma EntryMatches(e: DirEntry, name: CString)
    requires ValidEntry(e) && e.inUse
    ensures Matches(e.name, name) <==> e.name == Field(name)
  {
    var n :| Named(e, n);
    FieldMatches(n, name);
    KeyOfField(n, name);
  }

  /** Lookup is single-valued: it finds the one entry that stores the name. */
  lemma FindIsUnique(t: Table, name: CString, i: nat)
    requires ValidTable(t) && i < |t| && Named(t[i], name)
    ensures FindIndex(t, name) == i
  {
    FieldMatches(name, name);
    FindFromMeans(t, name, 0);
    var r := FindIndex(t, name);
    EntryMatches(t[r], name);
  }

  lemma FindMeans(t: Table, name: CString)
    requires ValidTable(t)
    ensures var r := FindIndex(t, name);
            if r == ERROR then forall k :: 0 <= k < |t| ==> !Named(t[k], name) else Named(t[r], name)
  {
    FindFromMeans(t, name, 0);
    var r := FindIndex(t, name);
    if r != ERROR {
      EntryMatches(t[r], name);
    } else {
      forall k | 0 <= k < |t|
        ensures !Named(t[k], name)
      {
        if Named(t[k], name) {
          FindIsUnique(t, name, k);
        }
      }
    }
  }

  /** Adding a name keeps the table valid and takes a slot that was not in use. */
  lemma AddedValid(t: Table, name: CString, sector: int)
    requires ValidTable(t) && AddStatus(t, name) == NoError && IsInt32(sector)
    ensures ValidTable(Added(t, name, sector)) && !t[FreeFrom(t, 0)].inUse
    ensures Named(Added(t, name, sector)[FreeFrom(t, 0)], name)
  {
    FreeFromMeans(t, 0);
    FindMeans(t, name);
    var i := FreeFrom(t, 0);
    assert Named(DirEntry(true, sector, Field(name)), name);
  }

  lemma RemovedValid(t: Table, name: CString)
    requires ValidTable(t)
    ensures ValidTable(Removed(t, name))
  {
    var t' := Removed(t, name);
    forall k | 0 <= k < |t'|
      ensures ValidEntry(t'[k])
    {
      if t'[k].inUse {
        var n :| Named(t[k], n);
        assert Named(t'[k], n);
      }
    }
  }

  /** What a lookup sees after an addition and after a removal. */
  lemma FindAfterAdd(t: Table, name: CString, sector: int, other: CString)
    requires ValidTable(t) && AddStatus(t, name) == NoError && IsInt32(sector)
    ensures FindSector(Added(t, name, sector), other) ==
            if Key(other) == Key(name) then sector else FindSector(t, other)
  {
    AddedValid(t, name, sector);
    var t', i := Added(t, name, sector), FreeFrom(t, 0);
    KeyOfField(name, other);
    FindMeans(t, other);
    var r := FindIndex(t, other);
    if Key(other) == Key(name) {
      assert Named(t'[i], other);
      FindIsUnique(t', other, i);
    } else if r != ERROR {
      FindIsUnique(t', other, r);
    } else {
      FindMeans(t', other);
    }
  }

  lemma FindAfterRemove(t: Table, name: CString, other: CString)
    requires ValidTable(t)
    ensures FindSector(Removed(t, name), other) == if Key(other) == Key(name) then ERROR else FindSector(t, other)
  {
    RemovedValid(t, name);
    KeyOfField(name, other);
    FindMeans(t, name);
    FindMeans(t, other);
    var t' := Removed(t, name);
    FindMeans(t', other);
    var r, r' := FindIndex(t, other), FindIndex(t', other);
    if r' != ERROR {
      FindIsUnique(t, other, r');
    } else if r != ERROR {
      assert !Named(t'[r], other);
    }
  }

  // ----- tables as file contents -----

  /** sizeof(DirectoryEntry): a bool padded to 4 bytes, an int, 81 name bytes
      and 3 bytes of padding. The last 4 bytes are never read. */
  const DIR_SIZE: int := 92 * NUM_DIR_ENTRIES

  function EntryByte(e: DirEntry, k: int): byte
    requires 0 <= k < 92
  {
    if k == 0 then (if e.inUse then 1 else 0)
    else if k < 4 then 0
    else if k < 8 then IntByte(e.sector, k - 4)
    else if k < 88 then e.name[k - 8]
    else 0
  }

  function EncodeTable(t: Table): (b: seq<byte>)
    ensures |b| == 92 * |t|
  {
    seq<byte>(92 * |t|, k requires 0 <= k < 92 * |t| => EntryByte(t[k / 92], k % 92))
  }

  function DecodeEntry(b: seq<byte>, i: nat): DirEntry
    requires 92 * i + 92 <= |b|
  {
    DirEntry(b[92 * i] != 0,
             IntOfBytes(b[92 * i + 4], b[92 * i + 5], b[92 * i + 6], b[92 * i + 7]),
             b[92 * i + 8..92 * i + 88])
  }

  function DecodeTable(b: seq<byte>): (t: Table)
    ensures |t| == |b| / 92
  {
    seq(|b| / 92, i requires 0 <= i < |b| / 92 => DecodeEntry(b, i))
  }

  lemma EncodedByte(t: Table, i: nat, j: nat)
    requires i < |t| && j < 92
    ensures EncodeTable(t)[92 * i + j] == EntryByte(t[i], j)
  {
    assert (92 * i + j) / 92 == i && (92 * i + j) % 92 == j;
  }

  lemma EncodedName(t: Table, i: nat)
    requires i < |t|
    ensures EncodeTable(t)[92 * i + 8..92 * i + 88] == t[i].name
  {
    var b := EncodeTable(t);
    forall j | 0 <= j < 80
      ensures b[92 * i + 8..92 * i + 88][j] == t[i].name[j]
    {
      EncodedByte(t, i, 8 + j);
    }
  }

  lemma EncodedEntry(t: Table, i: nat)
    requires i < |t| && IsInt32(t[i].sector)
    ensures DecodeEntry(EncodeTable(t), i) == t[i]
  {
    EncodedByte(t, i, 0);
    EncodedByte(t, i, 4);
    EncodedByte(t, i, 5);
    EncodedByte(t, i, 6);
    EncodedByte(t, i, 7);
    IntRoundTrip(t[i].sector);
    EncodedName(t, i);
  }

  /** Storing a table and reading it back gives the same table. */
  lemma TableRoundTrip(t: Table)
    requires forall i :: 0 <= i < |t| ==> IsInt32(t[i].sector)
    ensures DecodeTable(EncodeTable(t)) == t
  {
    forall i | 0 <= i < |t|
      ensures DecodeTable(EncodeTable(t))[i] == t[i]
    {
      EncodedEntry(t, i);
    }
  }

  /** The table stored in the directory with header h. */
  function TableOf(d: Disk, h: Header): Table { DecodeTable(FileBytes(d, h)) }

  /** No entry in use. */
  function EmptyTable(): Table { seq(NUM_DIR_ENTRIES, _ => DirEntry(false, 0, Zeros(80))) }

  lemma EmptyTableValid()
    ensures ValidTable(EmptyTable()) && NoEntries(EmptyTable())
  {
  }

  ghost predicate IsDirHeader(h: Header) {
    NoDup(h.data) && InRange(h.data) && h.numBytes == DIR_SIZE <= Span(|h.data|)
  }

  // ----- the class -----

  class Directory {
    var table: Table

    /** All entries are marked unused. */
    constructor ()
      ensures table == EmptyTable()
    {
      table := EmptyTable();
    }

    method FetchFrom(disk: DiskDriver, file: OpenFile)
      requires file.Ready() && file.hdr.numBytes == DIR_SIZE && |table| == NUM_DIR_ENTRIES
      modifies this
      ensures |table| == NUM_DIR_ENTRIES
      ensures table == TableOf(disk.sectors, file.hdr.View())
    {
      var bytes := file.ReadAt(disk, 92 * |table|, 0);
      assert bytes == file.Contents(disk);
      table := DecodeTable(bytes);
    }

    method WriteBack(disk: DiskDriver, file: OpenFile)
      requires file.hdr.Sized() && IsDirHeader(file.hdr.View()) && ValidTable(table)
      modifies disk
      ensures TableOf(disk.sectors, file.hdr.View()) == table
      ensures SameOutside(old(disk.sectors), disk.sectors, file.hdr.View().data)
    {
      TableRoundTrip(table);
      var bytes := EncodeTable(table);
      if |bytes| > 0 {
        ghost var before := file.Contents(disk);
        SpliceAll(before, bytes);
        file.WriteInPlace(disk, bytes, 0);
      }
    }

    method FindIndexOf(name: CString) returns (r: int)
      ensures r == FindIndex(table, name)
    {
      for i := 0 to |table|
        invariant FindIndex(table, name) == FindFrom(table, name, i)
      {
        if table[i].inUse && Matches(table[i].name, name) {
          return i;
        }
      }
      r := ERROR;
    }

    method Find(name: CString) returns (sector: int)
      ensures sector == FindSector(table, name)
    {
      var i := FindIndexOf(name);
      sector := if i != ERROR then table[i].sector else ERROR;
    }

    method Add(name: CString, newSector: int) returns (r: Status)
      modifies this
      ensures r == AddStatus(old(table), name)
      ensures table == Added(old(table), name, newSector)
    {
      var k := FindIndexOf(name);
      if k != ERROR {
        return AlreadyInDirectory;
      }
      for i := 0 to |table|
        invariant table == old(table)
        invariant FreeFrom(table, 0) == FreeFrom(table, i)
      {
        if !table[i].inUse {
          table := table[i := DirEntry(true, newSector, Field(name))];
          return NoError;
        }
      }
      r := NoSpaceInDirectory;
    }

    method Remove(name: CString) returns (r: Status)
      modifies this
      ensures r == if FindIndex(old(table), name) == ERROR then InexistDirectory else NoError
      ensures table == Removed(old(table), name)
    {
      var i := FindIndexOf(name);
      if i == ERROR {
        return InexistDirectory;
      }
      table := table[i := table[i].(inUse := false)];
      r := NoError;
    }

    method Empty() returns (r: bool)
      ensures r <==> NoEntries(table)
    {
      for i := 0 to |table|
        invariant forall k :: 0 <= k < i ==> !table[k].inUse
      {
        if table[i].inUse {
          return false;
        }
      }
      r := true;
    }
  }
}
