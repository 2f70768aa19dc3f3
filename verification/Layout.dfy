/**
 Sizes, limits and encodings shared by the whole file system: C's truncating
 division, the capacity macros of the header layout, and the little-endian
 storage of a 32-bit `int` in four bytes.

 Products and quotients with the symbolic sector size are defined by repeated
 addition and subtraction; TimesIs and QuotientIs say that they are `*`, `/`
 and `%`.
 */
module Layout {

  type byte = n: int | 0 <= n < 256

  /** SectorSize / sizeof(int): any sector of 32 to 16384 bytes. */
  type SectorInts = w: int | 8 <= w <= 4096 witness 32
  const SECTOR_INTS: SectorInts
  const SECTOR_SIZE: int := 4 * SECTOR_INTS

  /** Number of entries of every directory table (a configuration value). */
  const NUM_DIR_ENTRIES: nat

  /** The disk has NUM_TRACKS tracks of 32 sectors; NUM_TRACKS is 64 in the
      source, and nothing below depends on that number. */
  type TrackCount = n: int | 1 <= n <= 1024 witness 64
  const NUM_TRACKS: TrackCount
  const NUM_SECTORS: int := 32 * NUM_TRACKS

  const ERROR := -1

  /** The header sectors of the bitmap file and of the root directory. */
  const FREE_MAP_SECTOR := 0
  const ROOT_SECTOR := 1

  const DATAS_IN_FIRST_SECTOR: int := SECTOR_INTS - 5
  const DATAS_IN_SECTOR: int := SECTOR_INTS - 1
  const MAX_HEADER_SECTORS := 32
  const MAX_DATA_SECTORS: int := (MAX_HEADER_SECTORS - 1) * DATAS_IN_SECTOR + DATAS_IN_FIRST_SECTOR
  const MAX_FILE_LENGTH: int := Span(MAX_DATA_SECTORS)

  predicate IsInt32(x: int) { -0x8000_0000 <= x < 0x8000_0000 }

  // ----- products and quotients -----

  function Times(n: nat, s: nat): (r: nat)
    decreases n
  {
    if n == 0 then 0 else Times(n - 1, s) + s
  }

  function Quotient(n: nat, s: int): nat
    requires s > 0
    decreases n
  {
    if n < s then 0 else 1 + Quotient(n - s, s)
  }

  function Remainder(n: nat, s: int): nat
    requires s > 0
    decreases n
  {
    if n < s then n else Remainder(n - s, s)
  }

  lemma {:induction false} TimesIs(n: nat, s: nat)
    ensures Times(n, s) == n * s
    decreases n
  {
    if n > 0 {
      TimesIs(n - 1, s);
    }
  }

  lemma {:induction false} QuotientUnique(n: nat, s: int, q: nat, r: nat)
    requires r < s && n == Times(q, s) + r
    ensures Quotient(n, s) == q && Remainder(n, s) == r
    decreases q
  {
    if q > 0 {
      QuotientUnique(n - s, s, q - 1, r);
    }
  }

  lemma {:induction false} QuotientTimes(n: nat, s: int)
    requires s > 0
    ensures Remainder(n, s) < s && n == Times(Quotient(n, s), s) + Remainder(n, s)
    decreases n
  {
    if n >= s {
      QuotientTimes(n - s, s);
    }
  }

  lemma QuotientIs(n: nat, s: int)
    requires s > 0
    ensures Quotient(n, s) == n / s && Remainder(n, s) == n % s
  {
    var q, r := n / s, n % s;
    assert n == q * s + r;
    TimesIs(q, s);
    QuotientUnique(n, s, q, r);
  }

  lemma {:induction false} TimesMono(a: nat, b: nat, s: nat)
    requires a <= b
    ensures Times(a, s) <= Times(b, s)
    ensures a < b ==> Times(a, s) + s <= Times(b, s)
    decreases b
  {
    if a < b {
      TimesMono(a, b - 1, s);
    }
  }

  lemma {:induction false} TimesAdd(a: nat, b: nat, s: nat)
    ensures Times(a + b, s) == Times(a, s) + Times(b, s)
    decreases b
  {
    if b > 0 {
      TimesAdd(a, b - 1, s);
    }
  }

  // ----- offsets in a file -----

  /** The number of bytes in n sectors. */
  function Span(n: nat): nat { Times(n, SECTOR_SIZE) }

  /** The block of a file that holds its byte k, and the place of the byte there. */
  function Block(k: nat): nat { Quotient(k, SECTOR_SIZE) }

  function Within(k: nat): nat { Remainder(k, SECTOR_SIZE) }

  lemma BlockOffset(i: nat, j: nat)
    requires j < SECTOR_SIZE
    ensures Block(Span(i) + j) == i && Within(Span(i) + j) == j
  {
    QuotientUnique(Span(i) + j, SECTOR_SIZE, i, j);
  }

  lemma OffsetBlock(k: nat)
    ensures Within(k) < SECTOR_SIZE && k == Span(Block(k)) + Within(k)
  {
    QuotientTimes(k, SECTOR_SIZE);
  }

  /** An offset below n sectors lies in one of the first n blocks. */
  lemma BlockBound(k: nat, n: nat)
    ensures k < Span(n) <==> Block(k) < n
  {
    OffsetBlock(k);
    if Block(k) < n {
      TimesMono(Block(k), n, SECTOR_SIZE);
    } else {
      TimesMono(n, Block(k), SECTOR_SIZE);
    }
  }

  // ----- truncating division -----

  /** C's n / s for s > 0: rounds toward zero. */
  function TruncDiv(n: int, s: int): int
    requires s > 0
  {
    if n >= 0 then Quotient(n, s) else 0 - Quotient(-n, s)
  }

  /** C's n % s for s > 0: takes the sign of n. */
  function TruncMod(n: int, s: int): int
    requires s > 0
  {
    if n >= 0 then Remainder(n, s) else 0 - Remainder(-n, s)
  }

  function DivRoundUp(n: int, s: int): int
    requires s > 0
  {
    TruncDiv(n, s) + if TruncMod(n, s) > 0 then 1 else 0
  }

  /** On non-negative numerators the macro is the ceiling; on (-s, 0] it is 0. */
  lemma DivRoundUpIsCeiling(n: int, s: int)
    requires s > 0
    ensures n >= 0 ==> 0 <= DivRoundUp(n, s) && n <= Times(DivRoundUp(n, s), s)
    ensures n > 0 ==> 0 < DivRoundUp(n, s) && Times(DivRoundUp(n, s) - 1, s) < n
    ensures -s < n <= 0 ==> DivRoundUp(n, s) == 0
  {
    if n >= 0 {
      QuotientTimes(n, s);
    }
  }

  // ----- header capacity -----

  /** How many data-sector numbers a header with k chained sectors can hold. */
  function Capacity(k: nat): int { DATAS_IN_FIRST_SECTOR + Times(k, DATAS_IN_SECTOR) }

  function HeaderCount(n: int): int { DivRoundUp(n - DATAS_IN_FIRST_SECTOR, DATAS_IN_SECTOR) }

  lemma MaxDataSectors()
    ensures MAX_DATA_SECTORS == Capacity(MAX_HEADER_SECTORS - 1)
  {
    TimesIs(MAX_HEADER_SECTORS - 1, DATAS_IN_SECTOR);
  }

  lemma MulBound(a: nat, a': nat, b: nat, b': nat)
    requires a <= a' && b <= b'
    ensures a * b <= a' * b'
  {
    assert a * b <= a * b' <= a' * b';
  }

  lemma MaxFileLengthFits()
    ensures 0 <= MAX_FILE_LENGTH < 0x8000_0000
  {
    TimesIs(MAX_DATA_SECTORS, SECTOR_SIZE);
    MulBound(MAX_DATA_SECTORS, 32 * 4096 - 36, SECTOR_SIZE, 4 * 4096);
  }

  /** The truncated-division header count is the least k >= 0 whose capacity
      suffices, and it is at most 31, one less than the headerSectors array. */
  lemma HeaderCountExact(n: int)
    requires 0 <= n <= MAX_DATA_SECTORS
    ensures 0 <= HeaderCount(n) <= MAX_HEADER_SECTORS - 1
    ensures n <= Capacity(HeaderCount(n))
    ensures HeaderCount(n) > 0 ==> Capacity(HeaderCount(n) - 1) < n
  {
    MaxDataSectors();
    DivRoundUpIsCeiling(n - DATAS_IN_FIRST_SECTOR, DATAS_IN_SECTOR);
    var k := HeaderCount(n);
    if k > MAX_HEADER_SECTORS - 1 {
      TimesMono(MAX_HEADER_SECTORS - 1, k - 1, DATAS_IN_SECTOR);
    }
  }

  // ----- 32-bit integers in bytes -----

  function IntByte(x: int, j: int): byte
    requires 0 <= j < 4
  {
    var u := x % 0x1_0000_0000;
    if j == 0 then u % 256
    else if j == 1 then u / 256 % 256
    else if j == 2 then u / 256 / 256 % 256
    else u / 256 / 256 / 256 % 256
  }

  function IntOfBytes(b0: byte, b1: byte, b2: byte, b3: byte): int {
    var u := b0 + 256 * (b1 + 256 * (b2 + 256 * b3));
    if u >= 0x8000_0000 then u - 0x1_0000_0000 else u
  }

  lemma IntRoundTrip(x: int)
    requires IsInt32(x)
    ensures IntOfBytes(IntByte(x, 0), IntByte(x, 1), IntByte(x, 2), IntByte(x, 3)) == x
  {
    var u := x % 0x1_0000_0000;
    var v := u / 256;
    var w := v / 256;
    assert 0 <= w / 256 < 256;
    assert w == w % 256 + 256 * (w / 256 % 256);
    assert v == v % 256 + 256 * w;
  }
}
