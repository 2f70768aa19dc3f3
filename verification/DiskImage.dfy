/**
 The disk as the file system sees it through its driver: a fixed number of
 sectors of SECTOR_SIZE bytes, read and written one at a time.
 */
module DiskImage {
  import opened Layout

  function Zeros(n: nat): seq<byte> { seq(n, _ => 0) }

  type Sector = s: seq<byte> | |s| == SECTOR_SIZE witness Zeros(SECTOR_SIZE)

  type Disk = d: seq<Sector> | |d| == NUM_SECTORS
    witness seq<Sector>(NUM_SECTORS, _ => Zeros(SECTOR_SIZE))

  predicate OnDisk(s: int) { 0 <= s < NUM_SECTORS }

  /** The contents of sector s (all zeros when there is no such sector). */
  function Rd(d: Disk, s: int): Sector { if OnDisk(s) then d[s] else Zeros(SECTOR_SIZE) }

  /** d' differs from d at most in the given sectors. */
  ghost predicate SameExcept(d: Disk, d': Disk, changed: set<int>) {
    forall s :: OnDisk(s) && s !in changed ==> d'[s] == d[s]
  }

  // ----- a sector as an array of ints -----

  function IntAt(sec: Sector, i: int): int
    requires 0 <= i < SECTOR_INTS
  {
    IntOfBytes(sec[4 * i], sec[4 * i + 1], sec[4 * i + 2], sec[4 * i + 3])
  }

  function SectorOfInts(v: seq<int>): Sector
    requires |v| == SECTOR_INTS
  {
    seq(SECTOR_SIZE, k requires 0 <= k < SECTOR_SIZE => IntByte(v[k / 4], k % 4))
  }

  lemma ByteOfInts(v: seq<int>, i: int, j: int)
    requires |v| == SECTOR_INTS && 0 <= i < SECTOR_INTS && 0 <= j < 4
    ensures SectorOfInts(v)[4 * i + j] == IntByte(v[i], j)
  {
    assert (4 * i + j) / 4 == i && (4 * i + j) % 4 == j;
  }

  lemma SectorIntRoundTrip(v: seq<int>, i: int)
    requires |v| == SECTOR_INTS && 0 <= i < SECTOR_INTS && IsInt32(v[i])
    ensures IntAt(SectorOfInts(v), i) == v[i]
  {
    ByteOfInts(v, i, 0);
    ByteOfInts(v, i, 1);
    ByteOfInts(v, i, 2);
    ByteOfInts(v, i, 3);
    IntRoundTrip(v[i]);
  }

  /** The synchronous disk: ReadSector and WriteSector return after the transfer. */
  class DiskDriver {
    var sectors: Disk

    constructor (d: Disk)
      ensures sectors == d
    {
      sectors := d;
    }

    method ReadSector(s: int) returns (data: Sector)
      requires OnDisk(s)
      ensures data == Rd(sectors, s)
    {
      data := sectors[s];
    }

    method WriteSector(s: int, data: Sector)
      requires OnDisk(s)
      modifies this
      ensures sectors == old(sectors)[s := data]
    {
      sectors := sectors[s := data];
    }
  }
}
