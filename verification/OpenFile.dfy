/**
 Reading and writing the bytes of an open file by whole sectors
 (filesys/openfile.cc, filesys/fsmisc.cc).
 */
module OpenFiles {
  import opened Basics
  import opened Layout
  import opened BitMaps
  import opened DiskImage
  import opened FileHeaders

  // ----- the byte contents of a file -----

  /** Byte k of the file whose data sectors are given. */
  function ByteAt(d: Disk, data: seq<int>, k: nat): byte {
    if Block(k) < |data| then Rd(d, data[Block(k)])[OffsetIn(k)] else 0
  }

  function OffsetIn(k: nat): (r: nat)
    ensures r < SECTOR_SIZE
  {
    OffsetBlock(k);
    Within(k)
  }

  function BytesFrom(d: Disk, data: seq<int>, from: nat, n: nat): (r: seq<byte>)
    ensures |r| == n
  {
    seq<byte>(n, k requires 0 <= k < n => ByteAt(d, data, from + k))
  }

  /** The contents of a file: its first numBytes bytes. */
  function FileBytes(d: Disk, h: Header): (r: seq<byte>)
    ensures h.numBytes >= 0 ==> |r| == h.numBytes
  {
    if h.numBytes < 0 then [] else BytesFrom(d, h.data, 0, h.numBytes)
  }

  lemma FileBytesFrame(d: Disk, d': Disk, h: Header)
    requires forall i :: 0 <= i < |h.data| ==> Rd(d', h.data[i]) == Rd(d, h.data[i])
    ensures FileBytes(d', h) == FileBytes(d, h)
  {
  }

  lemma BytesFromSlice(d: Disk, data: seq<int>, from: nat, n: nat, lo: nat, hi: nat)
    requires lo <= hi <= n
    ensures BytesFrom(d, data, from, n)[lo..hi] == BytesFrom(d, data, from + lo, hi - lo)
  {
  }

  /** One whole block. */
  lemma BlockBytes(d: Disk, data: seq<int>, i: nat)
    requires i < |data|
    ensures BytesFrom(d, data, Span(i), SECTOR_SIZE) == Rd(d, data[i])
  {
    forall j | 0 <= j < SECTOR_SIZE
      ensures ByteAt(d, data, Span(i) + j) == Rd(d, data[i])[j]
    {
      BlockOffset(i, j);
    }
  }

  lemma BytesFromAppend(d: Disk, data: seq<int>, from: nat, m: nat, n: nat)
    ensures BytesFrom(d, data, from, m) + BytesFrom(d, data, from + m, n) == BytesFrom(d, data, from, m + n)
  {
  }

  lemma BlockStart(i: nat, n: nat)
    requires i < n
    ensures Span(i) < Span(n) && Block(Span(i)) == i
  {
    TimesMono(i, n, SECTOR_SIZE);
    BlockOffset(i, 0);
  }

  lemma NextBlockBytes(d: Disk, data: seq<int>, first: nat, i: nat)
    requires first <= i < |data|
    ensures BytesFrom(d, data, Span(first), Span(i - first)) + Rd(d, data[i])
            == BytesFrom(d, data, Span(first), Span(i + 1 - first))
  {
    TimesAdd(first, i - first, SECTOR_SIZE);
    BlockBytes(d, data, i);
    BytesFromAppend(d, data, Span(first), Span(i - first), SECTOR_SIZE);
  }

  /** The length of the answer to a read request. */
  function ReadCount(len: int, n: int, position: int): (r: int)
    ensures r > 0 ==> 0 <= position && position + r <= len && r <= n
    ensures r >= 0
  {
    if n <= 0 || position < 0 || position >= len then 0
    else if position + n > len then len - position else n
  }

  /** s with the bytes from `at` on replaced by t. */
  function Splice(s: seq<byte>, at: nat, t: seq<byte>): (r: seq<byte>)
    requires at + |t| <= |s|
    ensures |r| == |s|
  {
    s[..at] + t + s[at + |t|..]
  }

  lemma SpliceAt(s: seq<byte>, at: nat, t: seq<byte>, k: nat)
    requires at + |t| <= |s| && k < |s|
    ensures Splice(s, at, t)[k] == if at <= k < at + |t| then t[k - at] else s[k]
  {
  }

  lemma SpliceAll(s: seq<byte>, t: seq<byte>)
    requires |t| == |s|
    ensures Splice(s, 0, t) == t
  {
  }

  // ----- the class -----

  class OpenFile {
    const hdr: FileHeader
    const fSector: int
    var seekPosition: int

    constructor (h: FileHeader, sector: int)
      ensures hdr == h && fSector == sector && seekPosition == 0
    {
      hdr, fSector, seekPosition := h, sector, 0;
    }

    /** Every data sector in the header exists. */
    ghost predicate Listed()
      reads this, hdr
    {
      hdr.Sized() && InRange(hdr.View().data) && hdr.numBytes >= 0
    }

    /** The open file can be read: its data sectors hold all its bytes. */
    ghost predicate Ready()
      reads this, hdr
    {
      Listed() && hdr.numBytes <= Span(hdr.numSectors)
    }

    ghost function Contents(disk: DiskDriver): seq<byte>
      requires hdr.Sized()
      reads this, hdr, disk
    {
      FileBytes(disk.sectors, hdr.View())
    }

    method ByteToSector(offset: nat) returns (s: int)
      requires Listed() && offset < Span(hdr.numSectors)
      ensures Block(offset) < hdr.numSectors && s == hdr.View().data[Block(offset)]
    {
      BlockBound(offset, hdr.numSectors);
      s := hdr.dataSectors[Block(offset)];
    }

    /** Reads the sectors first..last of the file. */
    method ReadBlocks(disk: DiskDriver, first: nat, last: nat) returns (buf: seq<byte>)
      requires Listed() && first <= last < hdr.numSectors
      ensures buf == BytesFrom(disk.sectors, hdr.View().data, Span(first), Span(1 + last - first))
    {
      buf := [];
      for i := first to last + 1
        invariant buf == BytesFrom(disk.sectors, hdr.View().data, Span(first), Span(i - first))
      {
        BlockStart(i, hdr.numSectors);
        var s := ByteToSector(Span(i));
        var sec := disk.ReadSector(s);
        buf := buf + sec;
        NextBlockBytes(disk.sectors, hdr.View().data, first, i);
      }
    }

    /** Reads a range that lies inside the file. */
    method ReadRange(disk: DiskDriver, position: nat, count: nat) returns (result: seq<byte>)
      requires Listed() && count > 0 && position + count <= hdr.numBytes && position + count <= Span(hdr.numSectors)
      ensures result == Contents(disk)[position..position + count]
    {
      var first := Block(position);
      var last := Block(position + count - 1);
      RequestBlocks(position, count, hdr.numSectors);
      var buf := ReadBlocks(disk, first, last);
      RequestSlice(disk.sectors, hdr.View(), position, count);
      result := buf[position - Span(first)..position - Span(first) + count];
    }

    /** Reads up to n bytes from the given position: exactly the clipped slice. */
    method ReadAt(disk: DiskDriver, n: int, position: int) returns (result: seq<byte>)
      requires Listed()
      requires ReadCount(hdr.numBytes, n, position) > 0 ==> position + ReadCount(hdr.numBytes, n, position) <= Span(hdr.numSectors)
      ensures |result| == ReadCount(hdr.numBytes, n, position)
      ensures |result| > 0 ==> result == Contents(disk)[position..position + |result|]
    {
      if n <= 0 || position < 0 || position >= hdr.numBytes {
        return [];
      }
      var count := if position + n > hdr.numBytes then hdr.numBytes - position else n;
      result := ReadRange(disk, position, count);
    }

    /** Reads from the current position and advances it. */
    method Read(disk: DiskDriver, n: int) returns (result: seq<byte>)
      requires Ready()
      modifies this
      ensures |result| == ReadCount(hdr.numBytes, n, old(seekPosition))
      ensures seekPosition == old(seekPosition) + |result|
      ensures |result| > 0 ==> 0 <= old(seekPosition) && seekPosition <= |Contents(disk)|
                               && result == Contents(disk)[old(seekPosition)..seekPosition]
    {
      result := ReadAt(disk, n, seekPosition);
      seekPosition := seekPosition + |result|;
    }

    method Seek(position: int)
      modifies this
      ensures seekPosition == position
    {
      seekPosition := position;
    }

    /** A buffer for the blocks of a write of n bytes. The partially covered
        first and last blocks are read into it. */
    method ReadEdges(disk: DiskDriver, position: nat, n: nat) returns (buf: seq<byte>)
      requires Listed() && n > 0 && position + n <= hdr.numBytes && position + n <= Span(hdr.numSectors)
      ensures EdgesFilled(disk.sectors, hdr.View(), position, n, buf)
    {
      var first := Block(position);
      var last := Block(position + n - 1);
      RequestBlocks(position, n, hdr.numSectors);
      EdgeRoom(first, last);
      var storage := new byte[Span(1 + last - first)];
      buf := storage[..];
      var firstAligned := position == Span(first);
      var lastAligned := position + n == Span(last + 1);
      if !firstAligned {
        buf := ReadBlockInto(disk, first, buf, 0);
      }
      if !lastAligned && (first != last || firstAligned) {
        ghost var before := buf;
        buf := ReadBlockInto(disk, last, buf, Span(last - first));
        if first != last {
          FirstBlockKept(before, buf, Span(last - first));
        }
      }
    }

    /** The blocks to write: the bytes of the request over what they hold already. */
    method PatchedBlocks(disk: DiskDriver, bytes: seq<byte>, position: nat) returns (buf: seq<byte>)
      requires Listed() && |bytes| > 0 && position + |bytes| <= hdr.numBytes && position + |bytes| <= Span(hdr.numSectors)
      ensures var first, last := Block(position), Block(position + |bytes| - 1);
              first <= last && |buf| == Span(1 + last - first)
      ensures Patched(disk.sectors, hdr.View(), position, bytes, buf)
    {
      var first := Block(position);
      RequestBlocks(position, |bytes|, hdr.numSectors);
      buf := ReadEdges(disk, position, |bytes|);
      PatchCovers(disk.sectors, hdr.View(), position, bytes, buf, position - Span(first));
      buf := Splice(buf, position - Span(first), bytes);
    }

    /** Reads block i into the buffer; bytes past the end of the file stay as they are. */
    method ReadBlockInto(disk: DiskDriver, i: nat, buf: seq<byte>, at: nat) returns (buf': seq<byte>)
      requires Listed() && i < hdr.numSectors && Span(i) < hdr.numBytes && at + SECTOR_SIZE <= |buf|
      ensures |buf'| == |buf| && buf'[..at] == buf[..at]
      ensures Filled(disk.sectors, hdr.View(), i, buf', at)
    {
      TimesMono(i, hdr.numSectors, SECTOR_SIZE);
      var r := ReadAt(disk, SECTOR_SIZE, Span(i));
      SpliceFills(disk.sectors, hdr.View(), i, buf, at, r);
      buf' := Splice(buf, at, r);
    }
  
    /** Writes the buffer to the blocks first, first + 1, ... of the file. */
    method WriteBlocks(disk: DiskDriver, first: nat, n: nat, buf: seq<byte>)
      requires Listed() && NoDup(hdr.View().data) && first + n <= hdr.numSectors && |buf| == Span(n)
      modifies disk
      ensures BlocksHold(disk.sectors, hdr.View().data, first, n, buf)
      ensures BlocksSame(old(disk.sectors), disk.sectors, hdr.View().data, first, n)
      ensures SameOutside(old(disk.sectors), disk.sectors, hdr.View().data)
    {
      ghost var data := hdr.View().data;
      for i := 0 to n
        invariant BlocksHold(disk.sectors, data, first, i, buf)
        invariant BlocksSame(old(disk.sectors), disk.sectors, data, first, n)
        invariant SameOutside(old(disk.sectors), disk.sectors, data)
      {
        BlockStart(first + i, hdr.numSectors);
        ChunkFits(buf, i, n);
        var s := ByteToSector(Span(first + i));
        WriteBlockStep(old(disk.sectors), disk.sectors, data, first, n, buf, i);
        disk.WriteSector(s, Chunk(buf, i));
      }
    }

    /** The part of WriteAt after the file has been made long enough: the
        contents become the old ones with the new bytes spliced in. */
    method WriteInPlace(disk: DiskDriver, bytes: seq<byte>, position: nat)
      requires Listed() && NoDup(hdr.View().data)
      requires |bytes| > 0 && position + |bytes| <= hdr.numBytes && position + |bytes| <= Span(hdr.numSectors)
      modifies disk
      ensures Contents(disk) == Splice(old(Contents(disk)), position, bytes)
      ensures SameOutside(old(disk.sectors), disk.sectors, hdr.View().data)
    {
      ghost var d, h := disk.sectors, hdr.View();
      var buf := PatchedBlocks(disk, bytes, position);
      var first, last := Block(position), Block(position + |bytes| - 1);
      RequestBlocks(position, |bytes|, hdr.numSectors);
      WriteBlocks(disk, first, 1 + last - first, buf);
      WrittenBytes(d, disk.sectors, h, position, bytes, buf);
    }
  }

  /** The sector of a buffer that starts at block i of it. */
  function Chunk(buf: seq<byte>, i: nat): Sector {
    if Span(i) + SECTOR_SIZE <= |buf| then buf[Span(i)..Span(i) + SECTOR_SIZE] else Zeros(SECTOR_SIZE)
  }

  lemma ChunkFits(buf: seq<byte>, i: nat, n: nat)
    requires i < n && |buf| == Span(n)
    ensures Span(i) + SECTOR_SIZE <= |buf|
  {
    TimesMono(i, n, SECTOR_SIZE);
  }

  ghost predicate BlocksHold(d: Disk, data: seq<int>, first: nat, n: nat, buf: seq<byte>) {
    forall b :: first <= b < first + n && b < |data| ==> Rd(d, data[b]) == Chunk(buf, b - first)
  }

  ghost predicate BlocksSame(d: Disk, d': Disk, data: seq<int>, first: nat, n: nat) {
    forall b :: 0 <= b < |data| && !(first <= b < first + n) ==> Rd(d', data[b]) == Rd(d, data[b])
  }

  /** d' differs from d at most in the listed sectors. */
  ghost predicate SameOutside(d: Disk, d': Disk, data: seq<int>) {
    forall s :: OnDisk(s) && s !in data ==> d'[s] == d[s]
  }

  lemma WriteBlockStep(d0: Disk, d: Disk, data: seq<int>, first: nat, n: nat, buf: seq<byte>, i: nat)
    requires InRange(data) && NoDup(data) && i < n && first + n <= |data|
    requires BlocksHold(d, data, first, i, buf) && BlocksSame(d0, d, data, first, n) && SameOutside(d0, d, data)
    ensures var d' := d[data[first + i] := Chunk(buf, i)];
            BlocksHold(d', data, first, i + 1, buf) && BlocksSame(d0, d', data, first, n) && SameOutside(d0, d', data)
  {
    OneSectorWritten(d, data, first + i, Chunk(buf, i));
    BlocksStep(d0, d, d[data[first + i] := Chunk(buf, i)], data, first, n, buf, i);
    OutsideTrans(d0, d, d[data[first + i] := Chunk(buf, i)], data);
  }

  lemma BlocksStep(d0: Disk, d: Disk, d': Disk, data: seq<int>, first: nat, n: nat, buf: seq<byte>, i: nat)
    requires i < n && first + n <= |data| && BlocksHold(d, data, first, i, buf) && BlocksSame(d0, d, data, first, n)
    requires forall b :: 0 <= b < |data| ==> Rd(d', data[b]) == if b == first + i then Chunk(buf, i) else Rd(d, data[b])
    ensures BlocksHold(d', data, first, i + 1, buf) && BlocksSame(d0, d', data, first, n)
  {
    forall b | first <= b < first + (i + 1) && b < |data|
      ensures Rd(d', data[b]) == Chunk(buf, b - first)
    {
      assert b == first + i || Rd(d, data[b]) == Chunk(buf, b - first);
    }
  }

  /** Writing one sector of a list of distinct ones. */
  lemma OneSectorWritten(d: Disk, data: seq<int>, j: nat, sec: Sector)
    requires InRange(data) && NoDup(data) && j < |data|
    ensures var d' := d[data[j] := sec];
            && SameOutside(d, d', data)
            && forall b :: 0 <= b < |data| ==> Rd(d', data[b]) == if b == j then sec else Rd(d, data[b])
  {
    assert data[j] in data;
  }

  lemma OutsideTrans(d: Disk, d1: Disk, d2: Disk, data: seq<int>)
    requires SameOutside(d, d1, data) && SameOutside(d1, d2, data)
    ensures SameOutside(d, d2, data)
  {
  }

  /** A byte of a written block is the byte of the buffer at the same place. */
  lemma BufferByte(d: Disk, data: seq<int>, first: nat, n: nat, buf: seq<byte>, x: nat)
    requires |buf| == Span(n) && BlocksHold(d, data, first, n, buf)
    requires first <= Block(x) < first + n && Block(x) < |data|
    ensures Span(first) <= x < Span(first) + |buf|
    ensures ByteAt(d, data, x) == buf[x - Span(first)]
  {
    var b := Block(x);
    OffsetBlock(x);
    ChunkFits(buf, b - first, n);
    TimesAdd(first, b - first, SECTOR_SIZE);
    assert x - Span(first) == Span(b - first) + OffsetIn(x);
    assert Rd(d, data[b]) == Chunk(buf, b - first);
  }

  /** A byte in another block is not one of those requested. */
  lemma OutsideRequest(position: nat, count: nat, n: nat, x: nat)
    requires count > 0 && position + count <= Span(n) && !(Block(position) <= Block(x) <= Block(position + count - 1))
    ensures !(position <= x < position + count)
  {
    RequestBlocks(position, count, n);
    BlockBound(x, Block(position));
    BlockBound(x, Block(position + count - 1) + 1);
  }

  lemma WrittenByte(d: Disk, d': Disk, h: Header, position: nat, bytes: seq<byte>, buf: seq<byte>, x: nat)
    requires |bytes| > 0 && position + |bytes| <= h.numBytes && position + |bytes| <= Span(|h.data|) && x < h.numBytes
    requires var first, last := Block(position), Block(position + |bytes| - 1);
             && first <= last && |buf| == Span(1 + last - first)
             && BlocksHold(d', h.data, first, 1 + last - first, buf)
             && BlocksSame(d, d', h.data, first, 1 + last - first)
    requires Patched(d, h, position, bytes, buf)
    ensures ByteAt(d', h.data, x) == NewByte(d, h, position, bytes, x)
  {
    var first, last := Block(position), Block(position + |bytes| - 1);
    BlockBound(x, |h.data|);
    if x >= Span(|h.data|) {
    } else if first <= Block(x) <= last {
      BufferByte(d', h.data, first, 1 + last - first, buf, x);
      assert buf[x - Span(first)] == NewByte(d, h, position, bytes, Span(first) + (x - Span(first)));
    } else {
      OutsideRequest(position, |bytes|, |h.data|, x);
    }
  }

  lemma WrittenBytes(d: Disk, d': Disk, h: Header, position: nat, bytes: seq<byte>, buf: seq<byte>)
    requires |bytes| > 0 && position + |bytes| <= h.numBytes && position + |bytes| <= Span(|h.data|)
    requires var first, last := Block(position), Block(position + |bytes| - 1);
             && first <= last && |buf| == Span(1 + last - first)
             && BlocksHold(d', h.data, first, 1 + last - first, buf)
             && BlocksSame(d, d', h.data, first, 1 + last - first)
    requires Patched(d, h, position, bytes, buf)
    ensures FileBytes(d', h) == Splice(FileBytes(d, h), position, bytes)
  {
    forall x | 0 <= x < h.numBytes
      ensures FileBytes(d', h)[x] == Splice(FileBytes(d, h), position, bytes)[x]
    {
      WrittenByte(d, d', h, position, bytes, buf, x);
      SpliceAt(FileBytes(d, h), position, bytes, x);
    }
  }

  /** From `at` on, the buffer holds the bytes of block i that the file has. */
  ghost predicate Filled(d: Disk, h: Header, i: nat, buf: seq<byte>, at: nat) {
    forall k :: at <= k < at + SECTOR_SIZE && k < |buf| && Span(i) + k - at < h.numBytes ==>
                  buf[k] == ByteAt(d, h.data, Span(i) + k - at)
  }

  /** Writing behind the first block of a buffer leaves that block alone. */
  lemma FirstBlockKept(buf: seq<byte>, buf': seq<byte>, at: nat)
    requires SECTOR_SIZE <= at <= |buf| == |buf'| && buf'[..at] == buf[..at]
    ensures forall k :: 0 <= k < SECTOR_SIZE ==> buf'[k] == buf[k]
  {
    forall k | 0 <= k < SECTOR_SIZE
      ensures buf'[k] == buf[k]
    {
      assert buf'[..at][k] == buf[..at][k];
    }
  }

  lemma SpliceFills(d: Disk, h: Header, i: nat, buf: seq<byte>, at: nat, r: seq<byte>)
    requires at + SECTOR_SIZE <= |buf| && Span(i) < h.numBytes
    requires |r| == ReadCount(h.numBytes, SECTOR_SIZE, Span(i)) && r == FileBytes(d, h)[Span(i)..Span(i) + |r|]
    ensures Splice(buf, at, r)[..at] == buf[..at] && Filled(d, h, i, Splice(buf, at, r), at)
  {
    var buf' := Splice(buf, at, r);
    forall k | at <= k < at + SECTOR_SIZE && k < |buf'| && Span(i) + k - at < h.numBytes
      ensures buf'[k] == ByteAt(d, h.data, Span(i) + k - at)
    {
      SpliceAt(buf, at, r, k);
      assert k - at < |r| && r[k - at] == FileBytes(d, h)[Span(i) + (k - at)];
    }
  }

  /** Byte x of the file after the write. */
  function NewByte(d: Disk, h: Header, position: nat, bytes: seq<byte>, x: nat): byte {
    if position <= x < position + |bytes| then bytes[x - position] else ByteAt(d, h.data, x)
  }

  /** The buffer holds the new contents of the blocks from Block(position) on. */
  ghost predicate Patched(d: Disk, h: Header, position: nat, bytes: seq<byte>, buf: seq<byte>) {
    forall k :: 0 <= k < |buf| && Span(Block(position)) + k < h.numBytes ==>
                  buf[k] == NewByte(d, h, position, bytes, Span(Block(position)) + k)
  }

  /** What PatchedBlocks has read when it copies in the new bytes. */
  ghost predicate EdgesFilled(d: Disk, h: Header, position: nat, n: nat, buf: seq<byte>)
    requires n > 0
  {
    var first, last := Block(position), Block(position + n - 1);
    && first <= last && |buf| == Span(1 + last - first)
    && (position != Span(first) ==> Filled(d, h, first, buf, 0))
    && (position + n != Span(last + 1) && (first != last || position == Span(first)) ==>
          Filled(d, h, last, buf, Span(last - first)))
  }

  /** An old byte in the blocks of the request was read into the buffer. */
  lemma EdgeByte(d: Disk, h: Header, position: nat, n: nat, buf: seq<byte>, k: nat)
    requires n > 0 && position + n <= h.numBytes && position + n <= Span(|h.data|) && EdgesFilled(d, h, position, n, buf)
    requires var x := Span(Block(position)) + k;
             k < |buf| && x < h.numBytes && !(position <= x < position + n)
    ensures buf[k] == ByteAt(d, h.data, Span(Block(position)) + k)
  {
    var first, last := Block(position), Block(position + n - 1);
    RequestBlocks(position, n, |h.data|);
    TimesAdd(first, last - first, SECTOR_SIZE);
    if Span(first) + k < position || (first == last && position != Span(first)) {
      assert buf[k] == ByteAt(d, h.data, Span(first) + k - 0);
    } else {
      assert buf[k] == ByteAt(d, h.data, Span(last) + k - Span(last - first));
    }
  }

  lemma PatchByte(d: Disk, h: Header, position: nat, bytes: seq<byte>, buf: seq<byte>, at: nat, k: nat)
    requires |bytes| > 0 && position + |bytes| <= h.numBytes && position + |bytes| <= Span(|h.data|)
    requires EdgesFilled(d, h, position, |bytes|, buf)
    requires position == Span(Block(position)) + at && at + |bytes| <= |buf|
    requires k < |buf| && Span(Block(position)) + k < h.numBytes
    ensures Splice(buf, at, bytes)[k] == NewByte(d, h, position, bytes, Span(Block(position)) + k)
  {
    SpliceAt(buf, at, bytes, k);
    if !(at <= k < at + |bytes|) {
      EdgeByte(d, h, position, |bytes|, buf, k);
    }
  }

  lemma PatchCovers(d: Disk, h: Header, position: nat, bytes: seq<byte>, buf: seq<byte>, at: nat)
    requires |bytes| > 0 && position + |bytes| <= h.numBytes && position + |bytes| <= Span(|h.data|)
    requires EdgesFilled(d, h, position, |bytes|, buf)
    requires position == Span(Block(position)) + at && at + |bytes| <= |buf|
    ensures Patched(d, h, position, bytes, Splice(buf, at, bytes))
  {
    forall k | 0 <= k < |buf| && Span(Block(position)) + k < h.numBytes {
      PatchByte(d, h, position, bytes, buf, at, k);
    }
  }

  /** The requested bytes are a slice of the blocks read for them. */
  lemma RequestSlice(d: Disk, h: Header, position: nat, count: nat)
    requires count > 0 && position + count <= h.numBytes && position + count <= Span(|h.data|)
    ensures var first, last := Block(position), Block(position + count - 1);
            && first <= last && Span(first) <= position && position + count <= Span(first) + Span(1 + last - first)
            && BytesFrom(d, h.data, Span(first), Span(1 + last - first))[position - Span(first)..position - Span(first) + count]
               == FileBytes(d, h)[position..position + count]
  {
    var first, last := Block(position), Block(position + count - 1);
    RequestBlocks(position, count, |h.data|);
    SliceAt(d, h.data, Span(first), Span(1 + last - first), position, count);
    SliceAt(d, h.data, 0, h.numBytes, position, count);
  }

  lemma SliceAt(d: Disk, data: seq<int>, start: nat, len: nat, position: nat, count: nat)
    requires start <= position && position + count <= start + len
    ensures BytesFrom(d, data, start, len)[position - start..position - start + count] == BytesFrom(d, data, position, count)
  {
    BytesFromSlice(d, data, start, len, position - start, position - start + count);
  }

  lemma EdgeRoom(first: nat, last: nat)
    requires first <= last
    ensures SECTOR_SIZE <= Span(1 + last - first) == Span(last - first) + SECTOR_SIZE
    ensures first != last ==> SECTOR_SIZE <= Span(last - first)
    ensures Span(last - first) <= Span(last)
  {
    TimesMono(1, 1 + last - first, SECTOR_SIZE);
    if first != last {
      TimesMono(1, last - first, SECTOR_SIZE);
    }
    TimesMono(last - first, last, SECTOR_SIZE);
  }

  /** A request for bytes position .. position + count lies in blocks first..last. */
  lemma RequestBlocks(position: nat, count: nat, n: nat)
    requires count > 0 && position + count <= Span(n)
    ensures var first, last := Block(position), Block(position + count - 1);
            && first <= last < n
            && Span(first) <= position < Span(first) + SECTOR_SIZE
            && Span(last) <= position + count - 1 < Span(last) + SECTOR_SIZE
            && Span(first) + Span(1 + last - first) == Span(last) + SECTOR_SIZE
  {
    var first, last := Block(position), Block(position + count - 1);
    OffsetBlock(position);
    OffsetBlock(position + count - 1);
    BlockBound(position + count - 1, n);
    if last < first {
      TimesMono(last, first, SECTOR_SIZE);
    }
    TimesAdd(first, 1 + last - first, SECTOR_SIZE);
  }

  // ----- the bitmap file -----

  /** FreeMapFileSize: one bit per sector. */
  const FREE_MAP_SIZE: int := 4 * NUM_TRACKS

  lemma MapWords()
    ensures DivRoundUp(NUM_SECTORS, 32) == NUM_TRACKS
  {
    TimesIs(NUM_TRACKS, 32);
    QuotientUnique(NUM_SECTORS, 32, NUM_TRACKS, 0);
  }

  /** The sectors marked in the bitmap file with the given header. */
  function DiskMarks(d: Disk, mapHdr: Header): set<int> {
    if mapHdr.numBytes == FREE_MAP_SIZE then MarksIn(FileBytes(d, mapHdr), NUM_SECTORS) else {}
  }

  lemma DiskMarksFrame(d: Disk, d': Disk, h: Header)
    requires forall i :: 0 <= i < |h.data| ==> Rd(d', h.data[i]) == Rd(d, h.data[i])
    ensures DiskMarks(d', h) == DiskMarks(d, h)
  {
    FileBytesFrame(d, d', h);
  }

  /** A new bitmap with the contents of the bitmap file (BitMap::FetchFrom). */
  method FetchMap(disk: DiskDriver, file: OpenFile) returns (freeMap: BitMap)
    requires file.Ready() && file.hdr.numBytes == FREE_MAP_SIZE
    ensures fresh(freeMap) && freeMap.Valid() && freeMap.numBits == NUM_SECTORS
    ensures freeMap.Marks() == DiskMarks(disk.sectors, file.hdr.View())
  {
    MapWords();
    freeMap := new BitMap(NUM_SECTORS, seq(NUM_TRACKS, _ => 0));
    var bytes := file.ReadAt(disk, 4 * |freeMap.words|, 0);
    assert bytes == file.Contents(disk);
    WordsRoundTrip(bytes);
    MarksOfIsMarksIn(WordsOfBytes(bytes), NUM_SECTORS);
    freeMap.words := WordsOfBytes(bytes);
  }

  /** Stores a bitmap in the bitmap file (BitMap::WriteBack). */
  method WriteBackMap(disk: DiskDriver, file: OpenFile, freeMap: BitMap)
    requires file.Ready() && NoDup(file.hdr.View().data) && file.hdr.numBytes == FREE_MAP_SIZE
    requires freeMap.Valid() && freeMap.numBits == NUM_SECTORS
    modifies disk
    ensures DiskMarks(disk.sectors, file.hdr.View()) == freeMap.Marks()
    ensures SameOutside(old(disk.sectors), disk.sectors, file.hdr.View().data)
  {
    MapWords();
    var bytes := BytesOfWords(freeMap.words);
    ghost var before := file.Contents(disk);
    SpliceAll(before, bytes);
    file.WriteInPlace(disk, bytes, 0);
    MarksOfIsMarksIn(freeMap.words, NUM_SECTORS);
  }

  // ----- writing, with growth -----

  /** The contents after writing at a position inside or at the end of the file. */
  function Written(s: seq<byte>, position: nat, bytes: seq<byte>): (r: seq<byte>)
    requires position <= |s|
    ensures |r| == if position + |bytes| > |s| then position + |bytes| else |s|
  {
    s[..position] + bytes + if position + |bytes| < |s| then s[position + |bytes|..] else []
  }

  /** What WriteAt needs in order to grow the file with header h in sector s to
      `end` bytes: enough clear sectors, room in the header chain, and a bitmap
      file that marks the sectors of both files and shares none of them. */
  ghost predicate CanGrowTo(d: Disk, s: int, h: Header, mapHdr: Header, end: int) {
    && HeaderCount(|h.data|) >= |h.chain|
    && 0 <= end <= MAX_FILE_LENGTH && |h.data| <= SectorsFor(end) <= Capacity(HeaderCount(|h.data|))
    && CanGrow(DiskMarks(d, mapHdr), h, end)
    && SetOf(Owned(s, h)) + SetOf(mapHdr.data) <= DiskMarks(d, mapHdr)
    && SetOf(Owned(s, h)) !! SetOf(mapHdr.data)
  }

  /** The file with header h has become the one with header h', and the disk
      holds that header and marks its sectors. */
  ghost predicate GrownOnDisk(d: Disk, d': Disk, s: int, h: Header, h': Header, mapHdr: Header, end: int)
    requires CanGrowTo(d, s, h, mapHdr, end)
  {
    var m := DiskMarks(d, mapHdr);
    && h' == GrownHeader(m, h, end)
    && WellFormed(s, h') && Stored(d', s, h')
    && DiskMarks(d', mapHdr) == m + SetOf(GrownChain(m, h)) + SetOf(GrownData(m, h, end))
  }

  /** The same, when only the header and the bitmap have been written. */
  ghost predicate HeaderGrown(d: Disk, d': Disk, s: int, h: Header, h': Header, mh: Header, end: int) {
    && CanGrowTo(d, s, h, mh, end) && GrownOnDisk(d, d', s, h, h', mh, end)
    && SameExcept(d, d', HeaderSectors(s, h') + SetOf(mh.data))
  }

  ghost predicate IsMapHeader(h: Header) {
    NoDup(h.data) && InRange(h.data) && h.numBytes == FREE_MAP_SIZE <= Span(|h.data|)
  }

  /** There are too few clear sectors to grow the file to `end` bytes. */
  ghost predicate NoRoom(d: Disk, h: Header, mapHdr: Header, end: int) {
    && HeaderCount(|h.data|) >= |h.chain| && 0 <= end <= MAX_FILE_LENGTH && |h.data| <= SectorsFor(end)
    && !CanGrow(DiskMarks(d, mapHdr), h, end)
  }

  /** Makes the file `end` bytes long. With enough clear sectors the new header
      and the new bitmap are on disk and the old contents are untouched;
      otherwise only the length in memory has changed. */
  method GrowFile(disk: DiskDriver, file: OpenFile, mapFile: OpenFile, end: int) returns (ok: bool)
    requires file.hdr != mapFile.hdr && file.hdr.Sized() && mapFile.hdr.Sized()
    requires WellFormed(file.fSector, file.hdr.View()) && IsMapHeader(mapFile.hdr.View())
    requires || CanGrowTo(disk.sectors, file.fSector, file.hdr.View(), mapFile.hdr.View(), end)
             || NoRoom(disk.sectors, file.hdr.View(), mapFile.hdr.View(), end)
    modifies disk, file.hdr
    ensures file.hdr.Sized() && mapFile.hdr.Sized()
    ensures ok <==> CanGrow(DiskMarks(old(disk.sectors), mapFile.hdr.View()), old(file.hdr.View()), end)
    ensures !ok ==> disk.sectors == old(disk.sectors) && file.hdr.View() == old(file.hdr.View()).(numBytes := end)
    ensures ok ==> HeaderGrown(old(disk.sectors), disk.sectors, file.fSector, old(file.hdr.View()), file.hdr.View(),
                               mapFile.hdr.View(), end)
  {
    ghost var h := file.hdr.View();
    var freeMap := FetchMap(disk, mapFile);
    ok := file.hdr.ReAllocate(freeMap, end);
    if ok {
      StoreGrowth(disk, file, mapFile, freeMap, h, end);
    }
  }

  /** The new header and the new bitmap go to disk. */
  method StoreGrowth(disk: DiskDriver, file: OpenFile, mapFile: OpenFile, freeMap: BitMap, ghost h: Header, ghost end: int)
    requires file.hdr.Sized() && mapFile.hdr.Sized() && freeMap.Valid() && freeMap.numBits == NUM_SECTORS
    requires WellFormed(file.fSector, h) && IsMapHeader(mapFile.hdr.View())
    requires CanGrowTo(disk.sectors, file.fSector, h, mapFile.hdr.View(), end)
    requires var m := DiskMarks(disk.sectors, mapFile.hdr.View());
             && file.hdr.View() == GrownHeader(m, h, end)
             && freeMap.Marks() == m + SetOf(GrownChain(m, h)) + SetOf(GrownData(m, h, end))
    modifies disk
    ensures HeaderGrown(old(disk.sectors), disk.sectors, file.fSector, h, file.hdr.View(), mapFile.hdr.View(), end)
  {
    ghost var d, s, mh := disk.sectors, file.fSector, mapFile.hdr.View();
    SetOfIs(Owned(s, h));
    GrowthFitsIff(DiskMarks(d, mh), h, end, s);
    file.hdr.WriteBack(disk, file.fSector);
    ghost var d1 := disk.sectors;
    WriteBackMap(disk, mapFile, freeMap);
    GrowthStored(d, d1, disk.sectors, s, h, mh, end);
  }

  lemma GrowthStored(d: Disk, d1: Disk, d2: Disk, s: int, h: Header, mh: Header, end: int)
    requires IsMapHeader(mh) && CanGrowTo(d, s, h, mh, end)
    requires var h' := GrownHeader(DiskMarks(d, mh), h, end); Stored(d1, s, h') && SameExcept(d, d1, HeaderSectors(s, h'))
    requires SameOutside(d1, d2, mh.data)
    ensures var h' := GrownHeader(DiskMarks(d, mh), h, end);
            Stored(d2, s, h') && SameExcept(d, d2, HeaderSectors(s, h') + SetOf(mh.data))
  {
    var h' := GrownHeader(DiskMarks(d, mh), h, end);
    GrownAway(d, s, h, mh, end);
    SetOfIs(mh.data);
    StoredFrame(d1, d2, s, h');
  }

  /** The grown header shares no sector with the bitmap file. */
  lemma GrownAway(d: Disk, s: int, h: Header, mh: Header, end: int)
    requires IsMapHeader(mh) && CanGrowTo(d, s, h, mh, end)
    ensures var h' := GrownHeader(DiskMarks(d, mh), h, end);
            && (forall k :: k in HeaderSectors(s, h') ==> k !in mh.data)
            && (forall k :: k in h'.data ==> k !in mh.data)
            && (forall k :: k in h.data ==> k !in h'.chain[|h.chain|..])
  {
    var m := DiskMarks(d, mh);
    GrownParts(m, h, end);
    var h' := GrownHeader(m, h, end);
    SetOfIs(h'.chain);
    SetOfIs(mh.data);
    SetOfIs(Owned(s, h));
    assert s in Owned(s, h);
    assert forall k :: k in h.chain ==> k in Owned(s, h);
    assert forall k :: k in h.data ==> k in Owned(s, h);
  }

  /** Bytes below the old length are the same under the old and the longer list. */
  lemma PrefixBytes(d: Disk, h: Header, h': Header, n: nat)
    requires h.data <= h'.data && n <= h.numBytes <= Span(|h.data|) && n <= h'.numBytes
    ensures FileBytes(d, h')[..n] == FileBytes(d, h)[..n]
  {
    forall k | 0 <= k < n
      ensures ByteAt(d, h'.data, k) == ByteAt(d, h.data, k)
    {
      BlockBound(k, |h.data|);
    }
  }

  /** s' is s made long enough for a write of n bytes at the position. */
  ghost predicate RoomMade(s: seq<byte>, s': seq<byte>, position: nat, n: nat)
    requires position <= |s|
  {
    (s' == s && position + n <= |s|) || (position + n == |s'| && |s| <= |s'| && s'[..position] == s[..position])
  }

  lemma SpliceIsWritten(s: seq<byte>, s': seq<byte>, position: nat, bytes: seq<byte>)
    requires position <= |s| && RoomMade(s, s', position, |bytes|)
    ensures Splice(s', position, bytes) == Written(s, position, bytes)
  {
  }

  /** Whether a write needs more sectors than the file has. */
  predicate Grows(h: Header, position: int, n: nat) { position + n > Span(|h.data|) }

  /** WriteAt when the file has enough sectors: at most its length changes. */
  method WriteFitting(disk: DiskDriver, file: OpenFile, bytes: seq<byte>, position: nat)
    requires file.hdr.Sized() && WellFormed(file.fSector, file.hdr.View())
    requires |bytes| > 0 && position <= file.hdr.numBytes && !Grows(file.hdr.View(), position, |bytes|)
    modifies disk, file.hdr
    ensures file.hdr.Sized() && WellFormed(file.fSector, file.hdr.View())
    ensures file.Contents(disk) == Written(old(file.Contents(disk)), position, bytes)
    ensures SameOutside(old(disk.sectors), disk.sectors, file.hdr.View().data)
    ensures file.hdr.View() == old(file.hdr.View()).(numBytes := file.hdr.numBytes)
  {
    ghost var d, h := disk.sectors, file.hdr.View();
    if position + |bytes| > file.hdr.numBytes {
      file.hdr.numBytes := position + |bytes|;
      PrefixBytes(d, h, file.hdr.View(), position);
    }
    SpliceIsWritten(FileBytes(d, h), FileBytes(d, file.hdr.View()), position, bytes);
    HeaderParts(file.fSector, h);
    file.WriteInPlace(disk, bytes, position);
  }

  /** After GrowFile, splicing the bytes in writes the old contents. */
  lemma GrownWrite(d: Disk, d1: Disk, s: int, h: Header, h1: Header, mh: Header, bytes: seq<byte>, position: nat)
    requires WellFormed(s, h) && IsMapHeader(mh) && position <= h.numBytes && Grows(h, position, |bytes|)
    requires HeaderGrown(d, d1, s, h, h1, mh, position + |bytes|)
    ensures NoDup(h1.data) && InRange(h1.data) && 0 <= h1.numBytes == position + |bytes| <= Span(|h1.data|)
    ensures Splice(FileBytes(d1, h1), position, bytes) == Written(FileBytes(d, h), position, bytes)
  {
    HeaderParts(s, h1);
    GrownPrefix(d, d1, s, h, h1, mh, position + |bytes|, position);
    LongerIsWritten(FileBytes(d, h), FileBytes(d1, h1), position, bytes);
  }

  lemma LongerIsWritten(s: seq<byte>, s': seq<byte>, position: nat, bytes: seq<byte>)
    requires position <= |s| <= position + |bytes| == |s'| && s'[..position] == s[..position]
    ensures Splice(s', position, bytes) == Written(s, position, bytes)
  {
  }

  /** The rest of WriteAt when sectors have been added. */
  method WriteGrown(disk: DiskDriver, file: OpenFile, bytes: seq<byte>, position: nat, ghost d: Disk, ghost h: Header, ghost mh: Header)
    requires file.hdr.Sized() && WellFormed(file.fSector, h) && IsMapHeader(mh)
    requires |bytes| > 0 && position <= h.numBytes && Grows(h, position, |bytes|)
    requires HeaderGrown(d, disk.sectors, file.fSector, h, file.hdr.View(), mh, position + |bytes|)
    modifies disk
    ensures WriteOutcome(d, disk.sectors, file.fSector, h, file.hdr.View(), mh, position, bytes, |bytes|)
  {
    ghost var d1, h1 := disk.sectors, file.hdr.View();
    GrownWrite(d, d1, file.fSector, h, h1, mh, bytes, position);
    file.WriteInPlace(disk, bytes, position);
    GrownKept(d, d1, disk.sectors, file.fSector, h, h1, mh, position + |bytes|);
    GrownOutcome(d, disk.sectors, file.fSector, h, h1, mh, position, bytes);
  }

  lemma ShorterBytes(d: Disk, h: Header, end: int)
    requires 0 <= h.numBytes <= end
    ensures FileBytes(d, h.(numBytes := end))[..h.numBytes] == FileBytes(d, h)
  {
  }

  lemma ShorterSplice(s: seq<byte>, n: nat, at: nat, t: seq<byte>)
    requires at + |t| <= n <= |s|
    ensures Splice(s, at, t)[..n] == Splice(s[..n], at, t)
  {
  }

  lemma RefusedBytes(d: Disk, d': Disk, h: Header, end: int, position: nat, bytes: seq<byte>)
    requires position + |bytes| == h.numBytes <= end
    requires FileBytes(d', h.(numBytes := end)) == Splice(FileBytes(d, h.(numBytes := end)), position, bytes)
    ensures FileBytes(d', h) == Splice(FileBytes(d, h), position, bytes)
  {
    ShorterBytes(d, h, end);
    ShorterBytes(d', h, end);
    ShorterSplice(FileBytes(d, h.(numBytes := end)), h.numBytes, position, bytes);
  }

  /** The rest of WriteAt when there is no room for more sectors: the bytes up to
      the old length are written, but the object keeps the new length. */
  method WriteRefused(disk: DiskDriver, file: OpenFile, bytes: seq<byte>, position: nat, length: nat, ghost h: Header, ghost mh: Header)
    returns (n: int)
    requires file.hdr.Sized() && WellFormed(file.fSector, h) && 0 < length == h.numBytes
    requires file.hdr.View() == h.(numBytes := position + |bytes|) && Refused(disk.sectors, h, mh, position, |bytes|)
    modifies disk
    ensures WriteOutcome(old(disk.sectors), disk.sectors, file.fSector, h, file.hdr.View(), mh, position, bytes, n)
  {
    ghost var d := disk.sectors;
    n := WriteBelow(disk, file, bytes, position, length, h);
    RefusedOutcome(d, disk.sectors, file.fSector, h, mh, position, bytes);
  }

  method WriteBelow(disk: DiskDriver, file: OpenFile, bytes: seq<byte>, position: nat, length: nat, ghost h: Header) returns (n: int)
    requires file.hdr.Sized() && WellFormed(file.fSector, h) && 0 < length == h.numBytes
    requires file.hdr.View() == h.(numBytes := position + |bytes|) && position <= length <= position + |bytes|
    modifies disk
    ensures n == length - position && FileBytes(disk.sectors, h) == Splice(FileBytes(old(disk.sectors), h), position, bytes[..n])
    ensures SameOutside(old(disk.sectors), disk.sectors, h.data)
  {
    ghost var d, end := disk.sectors, position + |bytes|;
    n := length - position;
    HeaderParts(file.fSector, h);
    if n > 0 {
      file.WriteInPlace(disk, bytes[..n], position);
      RefusedBytes(d, disk.sectors, h, end, position, bytes[..n]);
    } else {
      RewriteBlock(disk, file, position);
      assert Splice(FileBytes(d, h), position, bytes[..n]) == FileBytes(d, h);
    }
  }

  /** A write of no bytes at the end of the file: a block that is used in part
      is read and written back as it is. */
  method RewriteBlock(disk: DiskDriver, file: OpenFile, position: nat)
    requires file.Listed() && position <= Span(file.hdr.numSectors)
    modifies disk
    ensures disk.sectors == old(disk.sectors)
  {
    OffsetBlock(position);
    if position != Span(Block(position)) {
      if position == Span(file.hdr.numSectors) {
        BlockOffset(file.hdr.numSectors, 0);
      }
      var s := file.ByteToSector(position);
      var sec := disk.ReadSector(s);
      disk.WriteSector(s, sec);
    }
  }

  /** A write that adds sectors to the file. */
  ghost predicate AddsSectors(d: Disk, h: Header, mh: Header, position: int, n: nat) {
    n > 0 && 0 <= position <= h.numBytes && Grows(h, position, n) && CanGrow(DiskMarks(d, mh), h, position + n)
  }

  /** A write that needs more sectors than there are. */
  ghost predicate Refused(d: Disk, h: Header, mh: Header, position: int, n: nat) {
    n > 0 && 0 <= position <= h.numBytes && Grows(h, position, n) && !CanGrow(DiskMarks(d, mh), h, position + n)
  }

  /** What a write outside the file's sectors needs. */
  ghost predicate GrowthKnown(d: Disk, s: int, h: Header, mh: Header, position: int, n: nat) {
    0 <= position <= h.numBytes && Grows(h, position, n) ==>
      || CanGrowTo(d, s, h, mh, position + n)
      || (NoRoom(d, h, mh, position + n) && h.numBytes > 0)
  }

  method WriteGrowing(disk: DiskDriver, file: OpenFile, mapFile: OpenFile, bytes: seq<byte>, position: nat) returns (n: int)
    requires file.hdr != mapFile.hdr && file.hdr.Sized() && mapFile.hdr.Sized()
    requires WellFormed(file.fSector, file.hdr.View()) && IsMapHeader(mapFile.hdr.View())
    requires |bytes| > 0 && position <= file.hdr.numBytes && Grows(file.hdr.View(), position, |bytes|)
    requires GrowthKnown(disk.sectors, file.fSector, file.hdr.View(), mapFile.hdr.View(), position, |bytes|)
    modifies disk, file.hdr
    ensures file.hdr.Sized()
    ensures WriteOutcome(old(disk.sectors), disk.sectors, file.fSector, old(file.hdr.View()), file.hdr.View(), mapFile.hdr.View(),
                         position, bytes, n)
  {
    ghost var d, h, mh := disk.sectors, file.hdr.View(), mapFile.hdr.View();
    var length := file.hdr.numBytes;
    var ok := GrowFile(disk, file, mapFile, position + |bytes|);
    if ok {
      n := |bytes|;
      WriteGrown(disk, file, bytes, position, d, h, mh);
    } else {
      n := WriteRefused(disk, file, bytes, position, length, h, mh);
    }
  }

  /** One half of a growth: the header and the bitmap are on the disk, or all other
      sectors are as before. */
  ghost predicate GrowthHalf(d: Disk, d': Disk, s: int, h: Header, h': Header, mh: Header, end: int, elsewhere: bool) {
    if elsewhere then SameExcept(d, d', SetOf(Owned(s, h')) + SetOf(mh.data))
    else CanGrowTo(d, s, h, mh, end) && GrownOnDisk(d, d', s, h, h', mh, end)
  }

  /** The file has grown to `end` bytes, and only its sectors and those of the
      bitmap file have changed. The halves are only looked at where GrownToIs is
      called. */
  ghost predicate GrownTo(d: Disk, d': Disk, s: int, h: Header, h': Header, mh: Header, end: int) {
    forall elsewhere {:trigger GrowthHalf(d, d', s, h, h', mh, end, elsewhere)} :: GrowthHalf(d, d', s, h, h', mh, end, elsewhere)
  }

  lemma GrownToIs(d: Disk, d': Disk, s: int, h: Header, h': Header, mh: Header, end: int)
    ensures GrownTo(d, d', s, h, h', mh, end) <==>
              && CanGrowTo(d, s, h, mh, end) && GrownOnDisk(d, d', s, h, h', mh, end)
              && SameExcept(d, d', SetOf(Owned(s, h')) + SetOf(mh.data))
  {
    assert GrowthHalf(d, d', s, h, h', mh, end, true) <==> SameExcept(d, d', SetOf(Owned(s, h')) + SetOf(mh.data));
    assert GrowthHalf(d, d', s, h, h', mh, end, false) <==> CanGrowTo(d, s, h, mh, end) && GrownOnDisk(d, d', s, h, h', mh, end);
  }

  /** What a write does to the disk: only sectors of this file, and when sectors
      are added of the bitmap file, change. */
  ghost predicate WriteEffect(d: Disk, d': Disk, s: int, h: Header, h': Header, mh: Header, end: int, grown: bool) {
    if grown then Span(|h.data|) < end && GrownTo(d, d', s, h, h', mh, end) else SameOutside(d, d', h.data)
  }

  /** What a write does to the file and to the object. A request outside the file
      writes nothing. A refused one writes what fits below the old length and
      leaves the object with a length that its sectors do not have. Otherwise the
      contents become exactly the spliced ones, with the length grown as needed. */
  ghost predicate WriteResult(d: Disk, d': Disk, s: int, h: Header, h': Header, position: int, bytes: seq<byte>, n: int, grown: bool) {
    if |bytes| == 0 || position < 0 || position > h.numBytes then n == 0 && d' == d && h' == h
    else if Grows(h, position, |bytes|) && !grown then
      && 0 <= n == h.numBytes - position <= |bytes| && h' == h.(numBytes := position + |bytes|)
      && FileBytes(d', h) == Splice(FileBytes(d, h), position, bytes[..n])
    else
      && n == |bytes| && WellFormed(s, h') && FileBytes(d', h') == Written(FileBytes(d, h), position, bytes)
      && (grown || h' == h.(numBytes := h'.numBytes))
  }

  /** What WriteAt does. */
  ghost predicate WriteOutcome(d: Disk, d': Disk, s: int, h: Header, h': Header, mh: Header, position: int, bytes: seq<byte>, n: int) {
    var grown := AddsSectors(d, h, mh, position, |bytes|);
    WriteEffect(d, d', s, h, h', mh, position + |bytes|, grown) && WriteResult(d, d', s, h, h', position, bytes, n, grown)
  }

  lemma GrownOutcome(d: Disk, d': Disk, s: int, h: Header, h': Header, mh: Header, position: int, bytes: seq<byte>)
    requires |bytes| > 0 && 0 <= position <= h.numBytes && Grows(h, position, |bytes|)
    requires FileBytes(d', h') == Written(FileBytes(d, h), position, bytes) && GrownTo(d, d', s, h, h', mh, position + |bytes|)
    ensures WriteOutcome(d, d', s, h, h', mh, position, bytes, |bytes|)
  {
    GrownToIs(d, d', s, h, h', mh, position + |bytes|);
  }

  lemma RefusedOutcome(d: Disk, d': Disk, s: int, h: Header, mh: Header, position: int, bytes: seq<byte>)
    requires Refused(d, h, mh, position, |bytes|) && h.numBytes <= position + |bytes| && SameOutside(d, d', h.data)
    requires FileBytes(d', h) == Splice(FileBytes(d, h), position, bytes[..h.numBytes - position])
    ensures WriteOutcome(d, d', s, h, h.(numBytes := position + |bytes|), mh, position, bytes, h.numBytes - position)
  {
  }

  /** Writes the bytes at the position. */
  method WriteAt(disk: DiskDriver, file: OpenFile, mapFile: OpenFile, bytes: seq<byte>, position: int) returns (n: int)
    requires file.hdr != mapFile.hdr && file.hdr.Sized() && mapFile.hdr.Sized()
    requires WellFormed(file.fSector, file.hdr.View()) && IsMapHeader(mapFile.hdr.View())
    requires GrowthKnown(disk.sectors, file.fSector, file.hdr.View(), mapFile.hdr.View(), position, |bytes|)
    modifies disk, file.hdr
    ensures file.hdr.Sized()
    ensures WriteOutcome(old(disk.sectors), disk.sectors, file.fSector, old(file.hdr.View()), file.hdr.View(), mapFile.hdr.View(),
                         position, bytes, n)
  {
    if |bytes| == 0 || position < 0 || position > file.hdr.numBytes {
      return 0;
    }
    if position + |bytes| > Span(file.hdr.numSectors) {
      n := WriteGrowing(disk, file, mapFile, bytes, position);
    } else {
      n := |bytes|;
      WriteFitting(disk, file, bytes, position);
    }
  }

  /** The header in memory is usable after a write exactly if it was not refused. */
  lemma UsableIffNotRefused(d: Disk, d': Disk, s: int, h: Header, h': Header, mh: Header, position: int, bytes: seq<byte>, n: int)
    requires WellFormed(s, h) && WriteOutcome(d, d', s, h, h', mh, position, bytes, n)
    ensures WellFormed(s, h') <==> !Refused(d, h, mh, position, |bytes|)
  {
  }

  /** Writing the file's own data sectors keeps what GrowFile established. */
  lemma GrownKept(d: Disk, d1: Disk, d': Disk, s: int, h: Header, h': Header, mh: Header, end: int)
    requires IsMapHeader(mh) && HeaderGrown(d, d1, s, h, h', mh, end) && SameOutside(d1, d', h'.data)
    ensures GrownTo(d, d', s, h, h', mh, end)
  {
    HeaderParts(s, h');
    GrownAway(d, s, h, mh, end);
    SetOfIs(Owned(s, h'));
    StoredFrame(d1, d', s, h');
    DiskMarksFrame(d1, d', mh);
  }

  lemma GrownPrefix(d: Disk, d': Disk, s: int, h: Header, h': Header, mh: Header, end: int, n: nat)
    requires WellFormed(s, h) && IsMapHeader(mh) && CanGrowTo(d, s, h, mh, end) && n <= h.numBytes && n <= end
    requires h' == GrownHeader(DiskMarks(d, mh), h, end) && SameExcept(d, d', HeaderSectors(s, h') + SetOf(mh.data))
    ensures FileBytes(d', h')[..n] == FileBytes(d, h)[..n]
  {
    GrownAway(d, s, h, mh, end);
    SetOfIs(mh.data);
    SetOfIs(h'.chain);
    OwnedParts(s, h);
    forall i | 0 <= i < |h.data|
      ensures Rd(d', h.data[i]) == Rd(d, h.data[i])
    {
      assert h.data[i] in h.data && h.data[i] in h'.data;
      assert h'.chain == h.chain + h'.chain[|h.chain|..];
    }
    FileBytesFrame(d, d', h);
    PrefixBytes(d', h, h', n);
  }

  // ----- copying a host file -----

  const TRANSFER_SIZE := 10

  /** The chunk loop of Copy: the file was created with the length of the
      source; afterwards it holds exactly the source bytes. */
  method CopyInto(disk: DiskDriver, file: OpenFile, mapFile: OpenFile, source: seq<byte>)
    requires file.hdr != mapFile.hdr && file.hdr.Sized() && mapFile.hdr.Sized()
    requires WellFormed(file.fSector, file.hdr.View()) && IsMapHeader(mapFile.hdr.View())
    requires file.hdr.numBytes == |source| && file.seekPosition == 0
    modifies disk, file, file.hdr
    ensures file.hdr.Sized() && file.hdr.View() == old(file.hdr.View())
    ensures file.Contents(disk) == source
    ensures SameOutside(old(disk.sectors), disk.sectors, file.hdr.View().data)
  {
    ghost var h := file.hdr.View();
    SizesBound(h);
    var done := 0;
    while done < |source|
      invariant 0 <= done == file.seekPosition <= |source|
      invariant file.hdr.Sized() && file.hdr.View() == h
      invariant file.Contents(disk)[..done] == source[..done]
      invariant SameOutside(old(disk.sectors), disk.sectors, h.data)
    {
      var amount := if |source| - done < TRANSFER_SIZE then |source| - done else TRANSFER_SIZE;
      ghost var before := file.Contents(disk);
      var n := WriteAt(disk, file, mapFile, source[done..done + amount], file.seekPosition);
      file.seekPosition := file.seekPosition + n;
      CopyStep(before, source, done, amount);
      done := done + amount;
    }
    assert file.Contents(disk) == file.Contents(disk)[..|source|] == source[..|source|] == source;
  }

  lemma CopyStep(before: seq<byte>, source: seq<byte>, done: nat, amount: nat)
    requires |before| == |source| && done + amount <= |source| && before[..done] == source[..done]
    ensures |Written(before, done, source[done..done + amount])| == |source|
    ensures Written(before, done, source[done..done + amount])[..done + amount] == source[..done + amount]
  {
    assert source[..done + amount] == source[..done] + source[done..done + amount];
  }
}
