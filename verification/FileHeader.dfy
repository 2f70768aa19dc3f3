/**
 File headers: how a file's length and sector lists are kept in memory, and
 how they are laid out on disk as a first header sector followed by a chain of
 further header sectors (filesys/filehdr.h, filesys/filehdr.cc).
 */
module FileHeaders {
  import opened Basics
  import opened Layout
  import opened BitMaps
  import opened DiskImage

  /** The meaning of a header: `data` are the data sectors in file order and
      `chain` the header sectors after the first one. */
  datatype Header = Header(isdir: int, numBytes: int, data: seq<int>, chain: seq<int>)

  // ----- layout on disk -----

  function NextOf(sec: Sector): int { IntAt(sec, SECTOR_INTS - 1) }

  /** The index in the data-sector list of entry j of chained header sector i. */
  function Slot(i: nat, j: nat): int { Capacity(i) + j }

  /** The chained header sector that lists data sector m, and the place there. */
  function LinkOf(m: int): nat
    requires m >= DATAS_IN_FIRST_SECTOR
  {
    Quotient(m - DATAS_IN_FIRST_SECTOR, DATAS_IN_SECTOR)
  }

  function PlaceOf(m: int): nat
    requires m >= DATAS_IN_FIRST_SECTOR
  {
    Remainder(m - DATAS_IN_FIRST_SECTOR, DATAS_IN_SECTOR)
  }

  lemma SlotOfIndex(m: int, k: nat)
    requires DATAS_IN_FIRST_SECTOR <= m < Capacity(k)
    ensures LinkOf(m) < k && PlaceOf(m) < DATAS_IN_SECTOR && Slot(LinkOf(m), PlaceOf(m)) == m
  {
    QuotientTimes(m - DATAS_IN_FIRST_SECTOR, DATAS_IN_SECTOR);
    if LinkOf(m) >= k {
      TimesMono(k, LinkOf(m), DATAS_IN_SECTOR);
    }
  }

  ghost predicate FieldsStored(img: Sector, h: Header) {
    && IntAt(img, 0) == h.isdir
    && IntAt(img, 1) == h.numBytes
    && IntAt(img, 2) == |h.data|
    && IntAt(img, 3) == |h.chain|
  }

  ghost predicate ChainStored(d: Disk, s: int, chain: seq<int>) {
    && (|chain| > 0 ==> NextOf(Rd(d, s)) == chain[0])
    && forall i :: 0 <= i < |chain| - 1 ==> NextOf(Rd(d, chain[i])) == chain[i + 1]
  }

  ghost predicate FirstDataStored(img: Sector, data: seq<int>) {
    forall m :: 0 <= m < |data| && m < DATAS_IN_FIRST_SECTOR ==> IntAt(img, 4 + m) == data[m]
  }

  ghost predicate LinkStored(sec: Sector, data: seq<int>, i: nat) {
    forall j :: 0 <= j < DATAS_IN_SECTOR && Slot(i, j) < |data| ==> IntAt(sec, j) == data[Slot(i, j)]
  }

  ghost predicate DataStored(d: Disk, s: int, h: Header) {
    && FirstDataStored(Rd(d, s), h.data)
    && forall i :: 0 <= i < |h.chain| ==> LinkStored(Rd(d, h.chain[i]), h.data, i)
  }

  /** Sector s and the chain behind it hold exactly the header h. */
  ghost predicate Stored(d: Disk, s: int, h: Header) {
    && FieldsStored(Rd(d, s), h)
    && ChainStored(d, s, h.chain)
    && DataStored(d, s, h)
  }

  /** The header sectors of h, when its first sector is s. */
  function HeaderSectors(s: int, h: Header): set<int> { {s} + SetOf(h.chain) }

  /** Every sector that belongs to the file with first header sector s. */
  function Owned(s: int, h: Header): seq<int> { [s] + h.chain + h.data }

  /** The header can list its data sectors and the data sectors hold its bytes. */
  ghost predicate SizesFit(h: Header) {
    && |h.chain| <= MAX_HEADER_SECTORS - 1
    && |h.data| <= Capacity(|h.chain|)
    && 0 <= h.numBytes <= Span(|h.data|)
    && IsInt32(h.isdir)
  }

  /** A header a file system operation may leave on disk. */
  ghost predicate WellFormed(s: int, h: Header) {
    NoDup(Owned(s, h)) && InRange(Owned(s, h)) && SizesFit(h)
  }

  /** What Stored depends on. */
  lemma StoredFrame(d: Disk, d': Disk, s: int, h: Header)
    requires Stored(d, s, h)
    requires forall k :: k in HeaderSectors(s, h) ==> Rd(d', k) == Rd(d, k)
    ensures Stored(d', s, h)
  {
    assert Rd(d', s) == Rd(d, s);
    SetOfIs(h.chain);
    forall i | 0 <= i < |h.chain|
      ensures Rd(d', h.chain[i]) == Rd(d, h.chain[i])
    {
      assert h.chain[i] in HeaderSectors(s, h);
    }
  }

  // ----- reading a header, as a function of the disk -----

  function ChainFrom(d: Disk, next: int, k: int): seq<int>
    decreases k
  {
    if k <= 0 then [] else [next] + ChainFrom(d, NextOf(Rd(d, next)), k - 1)
  }

  function EntryAt(d: Disk, s: int, chain: seq<int>, m: nat): int
    requires m < Capacity(|chain|)
  {
    if m < DATAS_IN_FIRST_SECTOR then IntAt(Rd(d, s), 4 + m) else
      SlotOfIndex(m, |chain|);
      IntAt(Rd(d, chain[LinkOf(m)]), PlaceOf(m))
  }

  /** The header that FetchFrom(s) brings into memory. */
  function FetchHeader(d: Disk, s: int): Header {
    var img := Rd(d, s);
    var chain := ChainFrom(d, NextOf(img), IntAt(img, 3));
    var n := IntAt(img, 2);
    var data := if 0 <= n <= Capacity(|chain|)
                then seq(n, m requires 0 <= m < n => EntryAt(d, s, chain, m)) else [];
    Header(IntAt(img, 0), IntAt(img, 1), data, chain)
  }

  lemma {:induction false} ChainFromStored(d: Disk, s: int, chain: seq<int>, i: nat)
    requires ChainStored(d, s, chain) && i < |chain|
    ensures ChainFrom(d, chain[i], |chain| - i) == chain[i..]
    decreases |chain| - i
  {
    if i + 1 < |chain| {
      ChainFromStored(d, s, chain, i + 1);
      assert chain[i..] == [chain[i]] + chain[i + 1..];
    } else {
      assert chain[i..] == [chain[i]];
      assert ChainFrom(d, chain[i], 1) == [chain[i]] + ChainFrom(d, NextOf(Rd(d, chain[i])), 0);
    }
  }

  /** A stored header is read back exactly; so a sector stores at most one. */
  lemma StoredIsFetched(d: Disk, s: int, h: Header)
    requires Stored(d, s, h) && |h.data| <= Capacity(|h.chain|)
    ensures FetchHeader(d, s) == h
  {
    var img := Rd(d, s);
    if |h.chain| > 0 {
      ChainFromStored(d, s, h.chain, 0);
    }
    assert ChainFrom(d, NextOf(img), IntAt(img, 3)) == h.chain;
    forall m | 0 <= m < |h.data|
      ensures EntryAt(d, s, h.chain, m) == h.data[m]
    {
      if m >= DATAS_IN_FIRST_SECTOR {
        SlotOfIndex(m, |h.chain|);
        assert LinkStored(Rd(d, h.chain[LinkOf(m)]), h.data, LinkOf(m));
      }
    }
    assert FetchHeader(d, s).data == h.data;
  }

  // ----- sizes -----

  /** C's int-to-unsigned conversion, applied to the file size by the unsigned SectorSize. */
  function Unsigned(n: int): int { if n < 0 then n + 0x1_0000_0000 else n }

  function SectorsFor(fileSize: int): int { DivRoundUp(Unsigned(fileSize), SECTOR_SIZE) }

  /** A size Allocate accepts needs at most MAX_DATA_SECTORS sectors; a negative
      one needs more sectors than the disk has. */
  lemma SectorsForBounds(fileSize: int)
    requires IsInt32(fileSize) && fileSize <= MAX_FILE_LENGTH
    ensures fileSize >= 0 ==> 0 <= SectorsFor(fileSize) <= MAX_DATA_SECTORS && fileSize <= Span(SectorsFor(fileSize))
    ensures fileSize > 0 ==> SectorsFor(fileSize) > 0 && Span(SectorsFor(fileSize) - 1) < fileSize
    ensures fileSize < 0 ==> SectorsFor(fileSize) > NUM_SECTORS && HeaderCount(SectorsFor(fileSize)) >= 0
  {
    DivRoundUpIsCeiling(Unsigned(fileSize), SECTOR_SIZE);
    var n := SectorsFor(fileSize);
    if fileSize >= 0 {
      if n > MAX_DATA_SECTORS {
        TimesMono(MAX_DATA_SECTORS, n - 1, SECTOR_SIZE);
      }
    } else {
      if n <= 32 * 1024 {
        TimesMono(n, 32 * 1024, SECTOR_SIZE);
        TimesIs(32 * 1024, SECTOR_SIZE);
      }
      DivRoundUpIsCeiling(n - DATAS_IN_FIRST_SECTOR, DATAS_IN_SECTOR);
    }
  }

  // ----- allocation, as functions of the set of marked sectors -----

  /** Allocate succeeds exactly when there are enough clear sectors. */
  predicate CanAllocate(m: set<int>, fileSize: int) {
    NumClearOf(m, NUM_SECTORS) >= SectorsFor(fileSize) + HeaderCount(SectorsFor(fileSize))
  }

  /** The header a successful Allocate builds: header sectors are taken first. */
  function AllocatedHeader(m: set<int>, isdir: int, fileSize: int): Header
    requires SectorsFor(fileSize) >= 0 && HeaderCount(SectorsFor(fileSize)) >= 0
  {
    var n := SectorsFor(fileSize);
    var chain := Grab(m, HeaderCount(n));
    Header(isdir, fileSize, Grab(m + SetOf(chain), n), chain)
  }

  function HeaderAndData(h: Header): set<int> { SetOf(h.chain) + SetOf(h.data) }

  lemma OwnedIs(s: int, h: Header)
    ensures SetOf(Owned(s, h)) == {s} + HeaderAndData(h)
  {
    SetOfAppend([s] + h.chain, h.data);
    SetOfAppend([s], h.chain);
  }

  lemma AllocatedParts(m: set<int>, isdir: int, fileSize: int)
    requires IsInt32(fileSize) && fileSize <= MAX_FILE_LENGTH && CanAllocate(m, fileSize)
    ensures fileSize >= 0
    ensures SectorsFor(fileSize) >= 0 && HeaderCount(SectorsFor(fileSize)) >= 0
    ensures var h := AllocatedHeader(m, isdir, fileSize);
            && NoDup(h.chain) && InRange(h.chain) && NoDup(h.data) && InRange(h.data)
            && (forall i :: 0 <= i < |h.chain| ==> h.chain[i] !in m)
            && (forall i :: 0 <= i < |h.data| ==> h.data[i] !in m + SetOf(h.chain))
  {
    AllocationFits(m, fileSize);
    var n := SectorsFor(fileSize);
    var c := HeaderCount(n);
    GrabFresh(m, c);
    GrabCount(m, c);
    GrabFresh(m + SetOf(Grab(m, c)), n);
  }

  lemma AllocatedSizesFit(m: set<int>, isdir: int, fileSize: int)
    requires IsInt32(fileSize) && 0 <= fileSize <= MAX_FILE_LENGTH && IsInt32(isdir)
    ensures SectorsFor(fileSize) >= 0 && HeaderCount(SectorsFor(fileSize)) >= 0
    ensures SizesFit(AllocatedHeader(m, isdir, fileSize))
  {
    SectorsForBounds(fileSize);
    HeaderCountExact(SectorsFor(fileSize));
  }

  /** A newly allocated header is well formed and takes only clear sectors. */
  lemma AllocatedIsFresh(m: set<int>, isdir: int, fileSize: int, s: int)
    requires IsInt32(fileSize) && fileSize <= MAX_FILE_LENGTH && CanAllocate(m, fileSize)
    requires s in m && OnDisk(s) && IsInt32(isdir)
    ensures fileSize >= 0
    ensures SectorsFor(fileSize) >= 0 && HeaderCount(SectorsFor(fileSize)) >= 0
    ensures var h := AllocatedHeader(m, isdir, fileSize);
            WellFormed(s, h) && HeaderAndData(h) !! m
  {
    AllocatedParts(m, isdir, fileSize);
    AllocatedSizesFit(m, isdir, fileSize);
    var h := AllocatedHeader(m, isdir, fileSize);
    SetOfIs(h.chain);
    SetOfIs(h.data);
    assert forall k :: k in h.chain ==> k !in m;
    assert forall k :: k in h.data ==> k !in m && k !in SetOf(h.chain);
    forall k | k in HeaderAndData(h)
      ensures k !in m
    {
    }
    OwnedNoDup(s, h);
  }

  lemma OwnedNoDup(s: int, h: Header)
    requires NoDup(h.chain) && NoDup(h.data) && InRange(h.chain) && InRange(h.data) && OnDisk(s)
    requires forall k :: k in h.data ==> k !in h.chain
    requires s !in h.chain && s !in h.data
    ensures NoDup(Owned(s, h)) && InRange(Owned(s, h))
  {
    var o := Owned(s, h);
    var c := |h.chain|;
    assert forall i :: 1 <= i < 1 + c ==> o[i] == h.chain[i - 1];
    assert forall i :: 1 + c <= i < |o| ==> o[i] == h.data[i - 1 - c] && o[i] in h.data;
  }

  /** Allocating uses up exactly as many sectors as the header lists. */
  lemma AllocatedCount(m: set<int>, isdir: int, fileSize: int)
    requires IsInt32(fileSize) && 0 <= fileSize <= MAX_FILE_LENGTH && CanAllocate(m, fileSize)
    ensures SectorsFor(fileSize) >= 0 && HeaderCount(SectorsFor(fileSize)) >= 0
    ensures var h := AllocatedHeader(m, isdir, fileSize);
            NumClearOf(m + HeaderAndData(h), NUM_SECTORS) == NumClearOf(m, NUM_SECTORS) - |h.chain| - |h.data|
  {
    SectorsForBounds(fileSize);
    var n := SectorsFor(fileSize);
    HeaderCountExact(n);
    GrabCount(m, HeaderCount(n));
    var h := AllocatedHeader(m, isdir, fileSize);
    GrabCount(m + SetOf(h.chain), n);
    assert m + HeaderAndData(h) == m + SetOf(h.chain) + SetOf(h.data);
  }

  /** Freeing what was allocated restores the bitmap exactly. */
  lemma DeallocateUndoesAllocate(m: set<int>, isdir: int, fileSize: int)
    requires IsInt32(fileSize) && fileSize <= MAX_FILE_LENGTH && CanAllocate(m, fileSize)
    ensures SectorsFor(fileSize) >= 0 && HeaderCount(SectorsFor(fileSize)) >= 0
    ensures var h := AllocatedHeader(m, isdir, fileSize); m + HeaderAndData(h) - HeaderAndData(h) == m
  {
    AllocatedParts(m, isdir, fileSize);
    var h := AllocatedHeader(m, isdir, fileSize);
    SetOfIs(h.chain);
    SetOfIs(h.data);
    forall k | k in HeaderAndData(h)
      ensures k !in m
    {
    }
  }

  lemma {:induction false} GrabPrefix(m: set<int>, n: nat, i: nat)
    requires i <= n
    ensures Grab(m, n)[..i] == Grab(m, i)
    decreases n - i
  {
    if i < n {
      GrabPrefix(m, n, i + 1);
      GrabSnoc(m, i);
      assert Grab(m, n)[..i] == Grab(m, n)[..i + 1][..i];
    }
  }

  /** The i-th Find of n returns the i-th grabbed sector. */
  lemma GrabNext(m: set<int>, n: nat, i: nat)
    requires i < n <= NumClearOf(m, NUM_SECTORS)
    ensures var g := Grab(m, n);
            var now := m + SetOf(g[..i]);
            FirstClear(now, NUM_SECTORS) == g[i] && g[i] != ERROR && now + {g[i]} == m + SetOf(g[..i + 1]) && g[..i + 1] == g[..i] + [g[i]]
  {
    var g := Grab(m, n);
    GrabPrefix(m, n, i);
    GrabPrefix(m, n, i + 1);
    GrabSnoc(m, i);
    GrabCount(m, i);
    FirstClearLeast(m + SetOf(g[..i]), NUM_SECTORS);
    assert g[..i + 1] == g[..i] + [g[i]];
    assert g[i] == g[..i + 1][i];
  }

  // ----- growing, as functions of the set of marked sectors -----

  /** reAllocate computes the new number of chained header sectors from the
      number of data sectors the file had before it grows. */
  function GrownChain(m: set<int>, h: Header): seq<int>
    requires HeaderCount(|h.data|) >= |h.chain|
  {
    Grab(m, HeaderCount(|h.data|) - |h.chain|)
  }

  predicate CanGrow(m: set<int>, h: Header, newSize: int) {
    NumClearOf(m, NUM_SECTORS) >= (SectorsFor(newSize) - |h.data|) + (HeaderCount(|h.data|) - |h.chain|)
  }

  function GrownData(m: set<int>, h: Header, newSize: int): seq<int>
    requires HeaderCount(|h.data|) >= |h.chain| && SectorsFor(newSize) >= |h.data|
  {
    Grab(m + SetOf(GrownChain(m, h)), SectorsFor(newSize) - |h.data|)
  }

  function GrownHeader(m: set<int>, h: Header, newSize: int): Header
    requires HeaderCount(|h.data|) >= |h.chain| && SectorsFor(newSize) >= |h.data|
  {
    Header(h.isdir, newSize, h.data + GrownData(m, h, newSize), h.chain + GrownChain(m, h))
  }

  /** The sectors a successful reAllocate adds: distinct, previously clear. */
  lemma GrownParts(m: set<int>, h: Header, newSize: int)
    requires HeaderCount(|h.data|) >= |h.chain| && SectorsFor(newSize) >= |h.data| && CanGrow(m, h, newSize)
    ensures var c, g := GrownChain(m, h), GrownData(m, h, newSize);
            && NoDup(c) && InRange(c) && NoDup(g) && InRange(g)
            && (forall k :: k in c ==> k !in m) && (forall k :: k in g ==> k !in m && k !in c)
  {
    var c := GrownChain(m, h);
    GrabFresh(m, HeaderCount(|h.data|) - |h.chain|);
    GrabCount(m, HeaderCount(|h.data|) - |h.chain|);
    GrabFresh(m + SetOf(c), SectorsFor(newSize) - |h.data|);
    SetOfIs(c);
  }

  lemma NoDupAppend(s: seq<int>, t: seq<int>)
    requires NoDup(s) && NoDup(t) && forall k :: k in t ==> k !in s
    ensures NoDup(s + t)
  {
    forall i, j | 0 <= i < j < |s + t|
      ensures (s + t)[i] != (s + t)[j]
    {
      if i < |s| <= j {
        assert t[j - |s|] in t;
      }
    }
  }

  lemma GrownOwnedDistinct(m: set<int>, h: Header, newSize: int, s: int)
    requires HeaderCount(|h.data|) >= |h.chain| && SectorsFor(newSize) >= |h.data| && CanGrow(m, h, newSize)
    requires NoDup(Owned(s, h)) && InRange(Owned(s, h)) && forall k :: k in Owned(s, h) ==> k in m
    ensures var h' := GrownHeader(m, h, newSize); NoDup(Owned(s, h')) && InRange(Owned(s, h'))
  {
    GrownParts(m, h, newSize);
    OwnedParts(s, h);
    var h' := GrownHeader(m, h, newSize);
    assert s in Owned(s, h);
    assert forall k :: k in h.chain ==> k in Owned(s, h);
    assert forall k :: k in h.data ==> k in Owned(s, h);
    NoDupAppend(h.chain, GrownChain(m, h));
    NoDupAppend(h.data, GrownData(m, h, newSize));
    OwnedNoDup(s, h');
  }

  /** A successful reAllocate keeps the old lists as prefixes, and its result
      is a well-formed header exactly when the new sector count fits the chain
      counted for the old one. */
  lemma GrowthFitsIff(m: set<int>, h: Header, newSize: int, s: int)
    requires WellFormed(s, h) && (forall k :: k in Owned(s, h) ==> k in m)
    requires HeaderCount(|h.data|) >= |h.chain| && 0 <= newSize <= MAX_FILE_LENGTH
    requires SectorsFor(newSize) >= |h.data| && CanGrow(m, h, newSize)
    ensures var h' := GrownHeader(m, h, newSize);
            && h.data <= h'.data && h.chain <= h'.chain
            && |h'.chain| == HeaderCount(|h.data|) && |h'.data| == SectorsFor(newSize)
            && (WellFormed(s, h') <==> SectorsFor(newSize) <= Capacity(HeaderCount(|h.data|)))
  {
    GrownOwnedDistinct(m, h, newSize, s);
    SizesBound(h);
    HeaderCountExact(|h.data|);
    MaxFileLengthFits();
    SectorsForBounds(newSize);
  }

  /** A file that fills its headers exactly cannot grow by one sector. */
  lemma GrowthPastCapacity(m: set<int>, h: Header, s: int)
    requires WellFormed(s, h) && (forall k :: k in Owned(s, h) ==> k in m)
    requires |h.data| == Capacity(|h.chain|) && |h.chain| + 1 < MAX_HEADER_SECTORS
    requires CanGrow(m, h, Span(|h.data|) + 1)
    ensures HeaderCount(|h.data|) == |h.chain| && SectorsFor(Span(|h.data|) + 1) == |h.data| + 1
    ensures !WellFormed(s, GrownHeader(m, h, Span(|h.data|) + 1))
  {
    SizesBound(h);
    FullHeaderCount(|h.chain|);
    BlockOffset(|h.data|, 1);
  }

  lemma FullHeaderCount(k: nat)
    ensures HeaderCount(Capacity(k)) == k
  {
    QuotientUnique(Times(k, DATAS_IN_SECTOR), DATAS_IN_SECTOR, k, 0);
  }

  // ----- the class -----

  class FileHeader {
    var isdir: int
    var numBytes: int
    var numSectors: int
    var numHeaderSectors: int
    var dataSectors: seq<int>
    var headerSectors: seq<int>

    ghost predicate Valid()
      reads this
    {
      |dataSectors| == MAX_DATA_SECTORS && |headerSectors| == MAX_HEADER_SECTORS
    }

    ghost predicate Sized()
      reads this
    {
      Valid() && 0 <= numSectors <= MAX_DATA_SECTORS && 0 <= numHeaderSectors <= MAX_HEADER_SECTORS
    }

    /** The header this object stands for. */
    ghost function View(): Header
      requires Sized()
      reads this
    {
      Header(isdir, numBytes, dataSectors[..numSectors], headerSectors[..numHeaderSectors])
    }

    /** The tables start with arbitrary contents. */
    constructor (isdir0: int, data0: seq<int>, header0: seq<int>)
      requires |data0| == MAX_DATA_SECTORS && |header0| == MAX_HEADER_SECTORS
      ensures Valid() && isdir == isdir0
    {
      isdir, dataSectors, headerSectors := isdir0, data0, header0;
    }

    /** Takes n sectors from the bitmap into a table, from index `at` on. */
    static method TakeSectors(freeMap: BitMap, table: seq<int>, at: nat, n: nat) returns (table': seq<int>)
      requires freeMap.Valid() && freeMap.numBits == NUM_SECTORS
      requires n <= NumClearOf(freeMap.Marks(), NUM_SECTORS)
      requires at + n <= |table|
      modifies freeMap
      ensures |table'| == |table| && table'[..at + n] == table[..at] + Grab(old(freeMap.Marks()), n)
      ensures freeMap.Valid() && freeMap.Marks() == old(freeMap.Marks()) + SetOf(Grab(old(freeMap.Marks()), n))
    {
      table' := table;
      ghost var m, g := freeMap.Marks(), Grab(freeMap.Marks(), n);
      assert m + SetOf(g[..0]) == m;
      for i := 0 to n
        invariant |table'| == |table| && freeMap.Valid()
        invariant table'[..at + i] == table[..at] + g[..i]
        invariant freeMap.Marks() == m + SetOf(g[..i])
      {
        GrabNext(m, n, i);
        var x := freeMap.Find();
        table' := table'[at + i := x];
      }
      assert g[..n] == g;
    }

    method FillTables(freeMap: BitMap)
      requires Sized() && freeMap.Valid() && freeMap.numBits == NUM_SECTORS
      requires numHeaderSectors + numSectors <= NumClearOf(freeMap.Marks(), NUM_SECTORS)
      modifies this`headerSectors, this`dataSectors, freeMap
      ensures freeMap.Valid() && Sized()
      ensures View().chain == Grab(old(freeMap.Marks()), numHeaderSectors)
      ensures View().data == Grab(old(freeMap.Marks()) + SetOf(View().chain), numSectors)
      ensures freeMap.Marks() == old(freeMap.Marks()) + SetOf(View().chain) + SetOf(View().data)
    {
      GrabCount(freeMap.Marks(), numHeaderSectors);
      headerSectors := TakeSectors(freeMap, headerSectors, 0, numHeaderSectors);
      dataSectors := TakeSectors(freeMap, dataSectors, 0, numSectors);
    }

    /** Takes the header sectors, then the data sectors, for a new file. */
    method Allocate(freeMap: BitMap, fileSize: int) returns (ok: bool)
      requires Valid() && freeMap.Valid() && freeMap.numBits == NUM_SECTORS
      requires IsInt32(fileSize) && fileSize <= MAX_FILE_LENGTH
      modifies this, freeMap
      ensures freeMap.Valid() && Valid() && isdir == old(isdir)
      ensures ok <==> CanAllocate(old(freeMap.Marks()), fileSize)
      ensures !ok ==> freeMap.Marks() == old(freeMap.Marks())
      ensures ok ==> fileSize >= 0 && Sized() && SectorsFor(fileSize) >= 0 && HeaderCount(SectorsFor(fileSize)) >= 0
      ensures ok ==> View() == AllocatedHeader(old(freeMap.Marks()), isdir, fileSize)
      ensures ok ==> freeMap.Marks() == old(freeMap.Marks()) + SetOf(View().chain) + SetOf(View().data)
    {
      ghost var m := freeMap.Marks();
      numBytes := fileSize;
      numSectors := SectorsFor(fileSize);
      numHeaderSectors := HeaderCount(numSectors);
      var clear := freeMap.NumClear();
      if clear < numSectors + numHeaderSectors {
        return false;
      }
      AllocationFits(m, fileSize);
      FillTables(freeMap);
      ok := true;
    }

    method ExtendTables(freeMap: BitMap, moreHeaders: nat, moreData: nat)
      requires Sized() && freeMap.Valid() && freeMap.numBits == NUM_SECTORS
      requires moreHeaders + moreData <= NumClearOf(freeMap.Marks(), NUM_SECTORS)
      requires numHeaderSectors + moreHeaders <= MAX_HEADER_SECTORS && numSectors + moreData <= MAX_DATA_SECTORS
      modifies this, freeMap
      ensures freeMap.Valid() && Sized()
      ensures var h, m := old(View()), old(freeMap.Marks());
              var chain := Grab(m, moreHeaders);
              var data := Grab(m + SetOf(chain), moreData);
              && View() == Header(h.isdir, h.numBytes, h.data + data, h.chain + chain)
              && freeMap.Marks() == m + SetOf(chain) + SetOf(data)
    {
      GrabCount(freeMap.Marks(), moreHeaders);
      headerSectors := TakeSectors(freeMap, headerSectors, numHeaderSectors, moreHeaders);
      numHeaderSectors := numHeaderSectors + moreHeaders;
      dataSectors := TakeSectors(freeMap, dataSectors, numSectors, moreData);
      numSectors := numSectors + moreData;
    }

    /** Grows the file to newFileSize bytes. numBytes changes even when there
        is no room, and the header sectors are counted for the old size. */
    method ReAllocate(freeMap: BitMap, newFileSize: int) returns (ok: bool)
      requires Sized() && freeMap.Valid() && freeMap.numBits == NUM_SECTORS
      requires 0 <= newFileSize <= MAX_FILE_LENGTH && numSectors <= SectorsFor(newFileSize)
      requires numHeaderSectors <= HeaderCount(numSectors)
      modifies this, freeMap
      ensures freeMap.Valid() && Sized()
      ensures ok <==> CanGrow(old(freeMap.Marks()), old(View()), newFileSize)
      ensures !ok ==> freeMap.Marks() == old(freeMap.Marks()) && View() == old(View()).(numBytes := newFileSize)
      ensures ok ==> View() == GrownHeader(old(freeMap.Marks()), old(View()), newFileSize)
      ensures ok ==> freeMap.Marks() == old(freeMap.Marks()) + SetOf(GrownChain(old(freeMap.Marks()), old(View())))
                                        + SetOf(GrownData(old(freeMap.Marks()), old(View()), newFileSize))
    {
      ghost var m := freeMap.Marks();
      ghost var h := View();
      var newNumSectors := SectorsFor(newFileSize) - numSectors;
      numBytes := newFileSize;
      var newNumHeaderSectors := HeaderCount(numSectors) - numHeaderSectors;
      var clear := freeMap.NumClear();
      if clear < newNumSectors + newNumHeaderSectors {
        return false;
      }
      GrowthFits(h, newFileSize);
      ExtendTables(freeMap, newNumHeaderSectors, newNumSectors);
      ok := true;
    }

    /** Frees every data and chained header sector; each must be marked when
        its turn comes, which is why they must be distinct. */
    method Deallocate(freeMap: BitMap)
      requires Sized() && freeMap.Valid() && freeMap.numBits == NUM_SECTORS
      requires NoDup(View().data) && NoDup(View().chain) && SetOf(View().data) !! SetOf(View().chain)
      requires InRange(View().data) && InRange(View().chain)
      requires HeaderAndData(View()) <= freeMap.Marks()
      modifies freeMap
      ensures freeMap.Valid() && freeMap.Marks() == old(freeMap.Marks()) - HeaderAndData(View())
    {
      ReleaseSectors(freeMap, dataSectors[..numSectors]);
      ReleaseSectors(freeMap, headerSectors[..numHeaderSectors]);
    }

    static method ReleaseSectors(freeMap: BitMap, table: seq<int>)
      requires freeMap.Valid() && freeMap.numBits == NUM_SECTORS
      requires NoDup(table) && InRange(table) && SetOf(table) <= freeMap.Marks()
      modifies freeMap
      ensures freeMap.Valid() && freeMap.Marks() == old(freeMap.Marks()) - SetOf(table)
    {
      ghost var m := freeMap.Marks();
      for i := 0 to |table|
        invariant freeMap.Valid() && freeMap.Marks() == m - SetOf(table[..i])
      {
        ReleaseStep(m, table, i);
        var marked := freeMap.Test(table[i]);
        assert marked;
        freeMap.Clear(table[i]);
      }
      assert table[..|table|] == table;
    }
  
    /** The contents of the first header sector. */
    method FirstImage() returns (img: seq<int>)
      requires Sized()
      ensures |img| == SECTOR_INTS
      ensures img[0] == isdir && img[1] == numBytes && img[2] == numSectors && img[3] == numHeaderSectors
      ensures forall k :: 4 <= k < DATAS_IN_SECTOR ==> img[k] == dataSectors[k - 4]
      ensures img[SECTOR_INTS - 1] == headerSectors[0]
    {
      img := seq(SECTOR_INTS, _ => 0);
      img := img[0 := isdir][1 := numBytes][2 := numSectors][3 := numHeaderSectors];
      for i := 4 to DATAS_IN_SECTOR
        invariant |img| == SECTOR_INTS
        invariant img[0] == isdir && img[1] == numBytes && img[2] == numSectors && img[3] == numHeaderSectors
        invariant forall k :: 4 <= k < i ==> img[k] == dataSectors[k - 4]
      {
        img := img[i := dataSectors[i - 4]];
      }
      img := img[SECTOR_INTS - 1 := headerSectors[0]];
    }

    /** The contents of chained header sector i. */
    method LinkImage(i: nat) returns (img: seq<int>)
      requires Sized() && i < numHeaderSectors <= MAX_HEADER_SECTORS - 1
      ensures |img| == SECTOR_INTS
      ensures forall j :: 0 <= j < DATAS_IN_SECTOR ==> Slot(i, j) < |dataSectors| && img[j] == dataSectors[Slot(i, j)]
      ensures i + 1 < numHeaderSectors ==> img[SECTOR_INTS - 1] == headerSectors[i + 1]
    {
      SlotsFit(i);
      img := seq(SECTOR_INTS, _ => 0);
      var base := Capacity(i);
      for j := 0 to DATAS_IN_SECTOR
        invariant |img| == SECTOR_INTS
        invariant forall k :: 0 <= k < j ==> img[k] == dataSectors[base + k]
      {
        img := img[j := dataSectors[base + j]];
      }
      img := img[SECTOR_INTS - 1 := if i + 1 < numHeaderSectors then headerSectors[i + 1] else 0];
    }

    method WriteFirst(disk: DiskDriver, sector: int)
      requires Sized() && WellFormed(sector, View())
      modifies disk
      ensures FirstWritten(Rd(disk.sectors, sector), View())
      ensures SameExcept(old(disk.sectors), disk.sectors, {sector})
    {
      HeaderParts(sector, View());
      var img := FirstImage();
      FirstImageStores(img, View());
      disk.WriteSector(sector, SectorOfInts(img));
    }

    method WriteLink(disk: DiskDriver, i: nat)
      requires Sized() && i < numHeaderSectors <= MAX_HEADER_SECTORS - 1
      requires NoDup(View().chain) && InRange(View().chain) && InRange(View().data)
      requires LinksWritten(disk.sectors, View(), i)
      modifies disk
      ensures LinksWritten(disk.sectors, View(), i + 1)
      ensures SameExcept(old(disk.sectors), disk.sectors, {View().chain[i]})
    {
      var img := LinkImage(i);
      LinkImageStores(img, View(), i);
      LinksKept(disk.sectors, View(), i, SectorOfInts(img));
      disk.WriteSector(headerSectors[i], SectorOfInts(img));
    }

    /** Writes the header to its first sector and its chain; no other sector changes. */
    method WriteBack(disk: DiskDriver, sector: int)
      requires Sized() && WellFormed(sector, View())
      modifies disk
      ensures Stored(disk.sectors, sector, View())
      ensures SameExcept(old(disk.sectors), disk.sectors, HeaderSectors(sector, View()))
    {
      ghost var h := View();
      HeaderParts(sector, h);
      WriteFirst(disk, sector);
      ghost var first := Rd(disk.sectors, sector);
      for i := 0 to numHeaderSectors
        invariant Rd(disk.sectors, sector) == first
        invariant LinksWritten(disk.sectors, h, i)
        invariant SameExcept(old(disk.sectors), disk.sectors, HeaderSectors(sector, h))
      {
        WriteLink(disk, i);
      }
      WrittenIsStored(disk.sectors, sector, h);
    }
  
    /** Copies the sector numbers of the first header sector into the table. */
    method LoadFirst(img: Sector, ghost data: seq<int>)
      requires Valid() && FirstDataStored(img, data)
      modifies this`dataSectors
      ensures Valid() && Loaded(dataSectors, data, DATAS_IN_FIRST_SECTOR)
    {
      for i := 4 to DATAS_IN_SECTOR
        invariant Valid() && Loaded(dataSectors, data, i - 4)
      {
        dataSectors := dataSectors[i - 4 := IntAt(img, i)];
        assert i - 4 < |data| ==> IntAt(img, 4 + (i - 4)) == data[i - 4];
      }
    }

    /** Copies the sector numbers of chained header sector i into the table. */
    method LoadLink(img: Sector, i: nat, ghost data: seq<int>)
      requires Valid() && i < MAX_HEADER_SECTORS - 1
      requires LinkStored(img, data, i) && Loaded(dataSectors, data, Capacity(i))
      modifies this`dataSectors
      ensures Valid() && Loaded(dataSectors, data, Capacity(i + 1))
    {
      SlotsFit(i);
      var base := Capacity(i);
      for j := 0 to DATAS_IN_SECTOR
        invariant Valid() && Loaded(dataSectors, data, base + j)
      {
        dataSectors := dataSectors[base + j := IntAt(img, j)];
        assert Slot(i, j) < |data| ==> IntAt(img, j) == data[Slot(i, j)];
      }
    }

    /** Reads back the header that the sector and its chain hold. */
    method FetchFrom(disk: DiskDriver, sector: int, ghost h: Header)
      requires Valid() && OnDisk(sector) && InRange(h.chain) && SizesFit(h)
      requires Stored(disk.sectors, sector, h)
      modifies this
      ensures Sized() && View() == h
    {
      var img := disk.ReadSector(sector);
      isdir, numBytes := IntAt(img, 0), IntAt(img, 1);
      numSectors, numHeaderSectors := IntAt(img, 2), IntAt(img, 3);
      headerSectors := headerSectors[0 := NextOf(img)];
      LoadFirst(img, h.data);
      for i := 0 to numHeaderSectors
        invariant Valid() && Loaded(dataSectors, h.data, Capacity(i))
        invariant isdir == h.isdir && numBytes == h.numBytes && numSectors == |h.data| && numHeaderSectors == |h.chain|
        invariant forall k :: 0 <= k <= i && k < |h.chain| ==> headerSectors[k] == h.chain[k]
      {
        img := disk.ReadSector(headerSectors[i]);
        assert img == Rd(disk.sectors, h.chain[i]) && LinkStored(img, h.data, i);
        LoadLink(img, i, h.data);
        if i + 1 < numHeaderSectors {
          headerSectors := headerSectors[i + 1 := NextOf(img)];
        }
      }
      LoadedAll(dataSectors, h);
    }
  }

  /** The table agrees with the data-sector list below the bound. */
  ghost predicate Loaded(table: seq<int>, data: seq<int>, bound: int) {
    forall m :: 0 <= m < bound && m < |data| && m < |table| ==> table[m] == data[m]
  }

  lemma LoadedAll(table: seq<int>, h: Header)
    requires |table| == MAX_DATA_SECTORS && SizesFit(h) && Loaded(table, h.data, Capacity(|h.chain|))
    ensures |h.data| <= |table| && table[..|h.data|] == h.data
  {
    MaxDataSectors();
    TimesMono(|h.chain|, MAX_HEADER_SECTORS - 1, DATAS_IN_SECTOR);
  }

  ghost predicate FirstWritten(sec: Sector, h: Header) {
    FieldsStored(sec, h) && FirstDataStored(sec, h.data) && (|h.chain| > 0 ==> NextOf(sec) == h.chain[0])
  }

  lemma WrittenIsStored(d: Disk, s: int, h: Header)
    requires FirstWritten(Rd(d, s), h) && LinksWritten(d, h, |h.chain|)
    ensures Stored(d, s, h)
  {
    forall i | 0 <= i < |h.chain|
      ensures LinkWritten(Rd(d, h.chain[i]), h, i)
    {
    }
  }

  /** The first i chained header sectors have been written. */
  ghost predicate LinksWritten(d: Disk, h: Header, i: int) {
    forall k :: 0 <= k < i && k < |h.chain| ==> LinkWritten(Rd(d, h.chain[k]), h, k)
  }

  ghost predicate LinkWritten(sec: Sector, h: Header, k: nat) {
    LinkStored(sec, h.data, k) && (k + 1 < |h.chain| ==> NextOf(sec) == h.chain[k + 1])
  }

  lemma LinksKept(d: Disk, h: Header, i: nat, sec: Sector)
    requires NoDup(h.chain) && InRange(h.chain) && i < |h.chain|
    requires LinksWritten(d, h, i) && LinkWritten(sec, h, i)
    ensures LinksWritten(d[h.chain[i] := sec], h, i + 1)
  {
  }

  lemma SizesBound(h: Header)
    requires SizesFit(h)
    ensures |h.data| <= MAX_DATA_SECTORS && IsInt32(h.numBytes) && h.numBytes <= MAX_FILE_LENGTH
  {
    MaxDataSectors();
    TimesMono(|h.chain|, MAX_HEADER_SECTORS - 1, DATAS_IN_SECTOR);
    TimesMono(|h.data|, MAX_DATA_SECTORS, SECTOR_SIZE);
    MaxFileLengthFits();
  }

  lemma OwnedParts(s: int, h: Header)
    requires NoDup(Owned(s, h)) && InRange(Owned(s, h))
    ensures OnDisk(s) && NoDup(h.chain) && InRange(h.chain) && s !in h.chain && s !in h.data
    ensures NoDup(h.data) && InRange(h.data) && forall k :: k in h.data ==> k !in h.chain
  {
    var o, c := Owned(s, h), |h.chain|;
    assert o[0] == s;
    assert forall i :: 0 <= i < c ==> h.chain[i] == o[i + 1];
    assert forall i :: 0 <= i < |h.data| ==> h.data[i] == o[i + 1 + c];
  }

  lemma HeaderParts(s: int, h: Header)
    requires WellFormed(s, h)
    ensures OnDisk(s) && NoDup(h.chain) && InRange(h.chain) && s !in h.chain && s !in h.data
    ensures NoDup(h.data) && InRange(h.data) && forall k :: k in h.data ==> k !in h.chain
    ensures |h.data| <= MAX_DATA_SECTORS && IsInt32(h.numBytes)
    ensures forall k :: k in HeaderSectors(s, h) <==> k == s || k in h.chain
  {
    OwnedParts(s, h);
    SizesBound(h);
    SetOfIs(h.chain);
  }

  lemma FieldsImage(img: seq<int>, h: Header)
    requires |img| == SECTOR_INTS
    requires img[0] == h.isdir && img[1] == h.numBytes && img[2] == |h.data| && img[3] == |h.chain|
    requires IsInt32(h.isdir) && IsInt32(h.numBytes) && IsInt32(|h.data|) && IsInt32(|h.chain|)
    ensures FieldsStored(SectorOfInts(img), h)
  {
    SectorIntRoundTrip(img, 0);
    SectorIntRoundTrip(img, 1);
    SectorIntRoundTrip(img, 2);
    SectorIntRoundTrip(img, 3);
  }

  lemma FirstDataImage(img: seq<int>, data: seq<int>)
    requires |img| == SECTOR_INTS && InRange(data)
    requires forall k :: 4 <= k < DATAS_IN_SECTOR && k - 4 < |data| ==> img[k] == data[k - 4]
    ensures FirstDataStored(SectorOfInts(img), data)
  {
    forall m | 0 <= m < |data| && m < DATAS_IN_FIRST_SECTOR
      ensures IntAt(SectorOfInts(img), 4 + m) == data[m]
    {
      SectorIntRoundTrip(img, 4 + m);
    }
  }

  lemma FirstImageStores(img: seq<int>, h: Header)
    requires |img| == SECTOR_INTS
    requires img[0] == h.isdir && img[1] == h.numBytes && img[2] == |h.data| && img[3] == |h.chain|
    requires forall k :: 4 <= k < DATAS_IN_SECTOR && k - 4 < |h.data| ==> img[k] == h.data[k - 4]
    requires |h.chain| > 0 ==> img[SECTOR_INTS - 1] == h.chain[0]
    requires SizesFit(h) && InRange(h.chain) && InRange(h.data) && IsInt32(h.numBytes) && |h.data| <= MAX_DATA_SECTORS
    ensures FirstWritten(SectorOfInts(img), h)
  {
    FieldsImage(img, h);
    FirstDataImage(img, h.data);
    if |h.chain| > 0 {
      SectorIntRoundTrip(img, SECTOR_INTS - 1);
    }
  }

  lemma LinkImageStores(img: seq<int>, h: Header, i: nat)
    requires |img| == SECTOR_INTS && i < |h.chain|
    requires forall j :: 0 <= j < DATAS_IN_SECTOR && Slot(i, j) < |h.data| ==> img[j] == h.data[Slot(i, j)]
    requires i + 1 < |h.chain| ==> img[SECTOR_INTS - 1] == h.chain[i + 1]
    requires InRange(h.chain) && InRange(h.data)
    ensures LinkWritten(SectorOfInts(img), h, i)
  {
    forall j | 0 <= j < DATAS_IN_SECTOR && Slot(i, j) < |h.data|
      ensures IntAt(SectorOfInts(img), j) == h.data[Slot(i, j)]
    {
      SectorIntRoundTrip(img, j);
    }
    if i + 1 < |h.chain| {
      SectorIntRoundTrip(img, SECTOR_INTS - 1);
    }
  }

  lemma SlotsFit(i: nat)
    requires i < MAX_HEADER_SECTORS - 1
    ensures Capacity(i) + DATAS_IN_SECTOR <= MAX_DATA_SECTORS
  {
    MaxDataSectors();
    TimesMono(i, MAX_HEADER_SECTORS - 1, DATAS_IN_SECTOR);
  }

  lemma GrowthFits(h: Header, newFileSize: int)
    requires 0 <= newFileSize <= MAX_FILE_LENGTH && |h.data| <= SectorsFor(newFileSize)
    ensures SectorsFor(newFileSize) <= MAX_DATA_SECTORS
    ensures HeaderCount(|h.data|) <= MAX_HEADER_SECTORS - 1
  {
    MaxFileLengthFits();
    SectorsForBounds(newFileSize);
    HeaderCountExact(|h.data|);
  }

  lemma ReleaseStep(m: set<int>, table: seq<int>, i: nat)
    requires NoDup(table) && i < |table| && SetOf(table) <= m
    ensures table[i] in m - SetOf(table[..i])
    ensures m - SetOf(table[..i + 1]) == m - SetOf(table[..i]) - {table[i]}
  {
    SetOfIs(table);
    SetOfIs(table[..i]);
    assert table[..i + 1] == table[..i] + [table[i]];
  }

  lemma AllocationFits(m: set<int>, fileSize: int)
    requires IsInt32(fileSize) && fileSize <= MAX_FILE_LENGTH && CanAllocate(m, fileSize)
    ensures fileSize >= 0
    ensures 0 <= SectorsFor(fileSize) <= MAX_DATA_SECTORS
    ensures 0 <= HeaderCount(SectorsFor(fileSize)) <= MAX_HEADER_SECTORS - 1
  {
    SectorsForBounds(fileSize);
    NumClearBound(m, NUM_SECTORS);
    HeaderCountExact(SectorsFor(fileSize));
  }
}
