/**
 Address translation through a linear page table, and memory accesses of 1, 2,
 4 or 8 bytes (machine/mmu.cc): which reads see a write, and when only those do
 that overlap it in the same address space.
 */
module Mmu {
  import opened Layout

  type Positive = n: int | 0 < n witness 1

  /** The page size is a multiple of 8; how many frames there are does not matter. */
  const PAGE_WORDS: Positive
  const PAGE_SIZE: int := 8 * PAGE_WORDS
  const NUM_FRAMES: Positive

  type AccessSize = n: int | n == 1 || n == 2 || n == 4 || n == 8 witness 1

  datatype Pte = Pte(valid: bool, readAllowed: bool, writeAllowed: bool, used: bool, modified: bool, physicalPage: int)

  type PageTable = seq<Pte>

  type Bytes = seq<byte>

  // ----- translation -----

  datatype Translation = Physical(addr: nat) | BusError | AddressError | ReadOnly | PageFault

  /** The 64-bit address is cut to 32 bits on the way into Translate. */
  function Cut(virtAddr: nat): nat { virtAddr % 0x1_0000_0000 }

  predicate Misaligned(a: nat, size: AccessSize) { (size == 4 && a % 4 != 0) || (size == 2 && a % 2 != 0) }

  function Vpn(a: nat): nat { Quotient(a, PAGE_SIZE) }

  function Offset(a: nat): nat { Remainder(a, PAGE_SIZE) }

  function Translate(t: PageTable, a: nat, size: AccessSize, writing: bool): Translation {
    var vpn := Vpn(a);
    if Misaligned(a, size) then BusError
    else if vpn >= |t| then AddressError
    else if !t[vpn].readAllowed && !t[vpn].writeAllowed then AddressError
    else if writing && !t[vpn].writeAllowed then ReadOnly
    else if !t[vpn].valid then PageFault
    else if t[vpn].physicalPage < 0 || t[vpn].physicalPage >= NUM_FRAMES then BusError
    else Physical(Times(t[vpn].physicalPage, PAGE_SIZE) + Offset(a))
  }

  /** A successful translation sets the use bit and, for a write, the modified bit. */
  function Touched(t: PageTable, a: nat, size: AccessSize, writing: bool): PageTable {
    var v := Vpn(a);
    if Translate(t, a, size, writing).Physical? then
      t[v := t[v].(used := true, modified := t[v].modified || writing)]
    else t
  }

  /** The use and modified bits play no part in translation. */
  lemma TouchedTranslates(t: PageTable, a: nat, size: AccessSize, writing: bool, a': nat, size': AccessSize, writing': bool)
    ensures Translate(Touched(t, a, size, writing), a', size', writing') == Translate(t, a', size', writing')
  {
  }

  // ----- accesses to physical memory -----

  function Load(mem: Bytes, p: nat, n: nat): nat
    requires p + n <= |mem|
    decreases n
  {
    if n == 0 then 0 else mem[p] + 256 * Load(mem, p + 1, n - 1)
  }

  function Store(mem: Bytes, p: nat, n: nat, value: nat): (mem': Bytes)
    requires p + n <= |mem|
    ensures |mem'| == |mem|
    decreases n
  {
    if n == 0 then mem else Store(mem[p := value % 256], p + 1, n - 1, value / 256)
  }

  function Power256(n: nat): nat { if n == 0 then 1 else 256 * Power256(n - 1) }

  lemma {:induction false} StoreOutside(mem: Bytes, p: nat, n: nat, value: nat, k: nat)
    requires p + n <= |mem| && k < |mem| && !(p <= k < p + n)
    ensures Store(mem, p, n, value)[k] == mem[k]
    decreases n
  {
    if n > 0 {
      StoreOutside(mem[p := value % 256], p + 1, n - 1, value / 256, k);
    }
  }

  lemma {:induction false} LoadSame(mem: Bytes, mem': Bytes, p: nat, n: nat)
    requires |mem'| == |mem| && p + n <= |mem| && forall k :: p <= k < p + n ==> mem'[k] == mem[k]
    ensures Load(mem', p, n) == Load(mem, p, n)
    decreases n
  {
    if n > 0 {
      LoadSame(mem, mem', p + 1, n - 1);
    }
  }

  /** Reading back what was written, cut to the size of the access. */
  lemma {:induction false} LoadStored(mem: Bytes, p: nat, n: nat, value: nat)
    requires p + n <= |mem|
    ensures Power256(n) > 0 && Load(Store(mem, p, n, value), p, n) == value % Power256(n)
    decreases n
  {
    if n > 0 {
      var mem1 := mem[p := value % 256];
      LoadStored(mem1, p + 1, n - 1, value / 256);
      StoreOutside(mem1, p + 1, n - 1, value / 256, p);
      DigitStep(value, Power256(n - 1));
    }
  }

  lemma DigitStep(value: nat, m: nat)
    requires m > 0
    ensures value % (256 * m) == value % 256 + 256 * (value / 256 % m)
  {
    var q, d := value / 256, value % 256;
    var k, e := q / m, q % m;
    assert q == k * m + e;
    assert value == k * (256 * m) + (256 * e + d);
    ModIs(value, 256 * m, k, 256 * e + d);
  }

  lemma ModIs(n: nat, m: nat, k: nat, r: nat)
    requires m > 0 && r < m && n == k * m + r
    ensures n % m == r
  {
    TimesIs(k, m);
    QuotientUnique(n, m, k, r);
    QuotientIs(n, m);
  }

  // ----- accesses stay in their page -----

  /** The access does not run over the end of its page. */
  predicate InPage(a: nat, size: AccessSize) { Offset(a) + size <= PAGE_SIZE }

  lemma OffsetAligned(a: nat)
    ensures Offset(a) < PAGE_SIZE && Offset(a) % 2 == a % 2 && Offset(a) % 4 == a % 4 && Offset(a) % 8 == a % 8
  {
    QuotientTimes(a, PAGE_SIZE);
    PagesAreAligned(Vpn(a), PAGE_WORDS);
    Modulo8(Times(Vpn(a), PAGE_WORDS), Offset(a));
  }

  lemma {:induction false} PagesAreAligned(v: nat, w: nat)
    ensures Times(v, 8 * w) == 8 * Times(v, w)
  {
    if v > 0 {
      PagesAreAligned(v - 1, w);
    }
  }

  lemma Modulo8(k: nat, r: nat)
    ensures (8 * k + r) % 2 == r % 2 && (8 * k + r) % 4 == r % 4 && (8 * k + r) % 8 == r % 8
  {
    ModIs(8 * k + r, 2, 4 * k + r / 2, r % 2);
    ModIs(8 * k + r, 4, 2 * k + r / 4, r % 4);
    ModIs(8 * k + r, 8, k + r / 8, r % 8);
  }

  /** Accesses of 1, 2 and 4 bytes that translate never leave their page, and
      neither do aligned ones of 8 bytes, whose alignment is not checked. */
  lemma AccessInPage(t: PageTable, a: nat, size: AccessSize, writing: bool)
    requires Translate(t, a, size, writing).Physical? && (size != 8 || a % 8 == 0)
    ensures InPage(a, size)
  {
    OffsetAligned(a);
    AlignedFits(Offset(a), size, PAGE_WORDS);
  }

  lemma AlignedFits(offset: nat, size: AccessSize, words: nat)
    requires offset < 8 * words && (size == 2 ==> offset % 2 == 0) && (size == 4 ==> offset % 4 == 0) && (size == 8 ==> offset % 8 == 0)
    ensures offset + size <= 8 * words
  {
  }

  // ----- isolation -----

  /** A valid entry of one of the page tables. */
  predicate Maps(tables: seq<PageTable>, s: nat, v: nat) { s < |tables| && v < |tables[s]| && tables[s][v].valid }

  function FrameOf(tables: seq<PageTable>, s: nat, v: nat): int
    requires Maps(tables, s, v)
  {
    tables[s][v].physicalPage
  }

  /** No frame is mapped twice. */
  ghost predicate FramesDistinct(tables: seq<PageTable>) {
    forall s, v, s', v' :: Maps(tables, s, v) && Maps(tables, s', v') && FrameOf(tables, s, v) == FrameOf(tables, s', v') ==>
                             s == s' && v == v'
  }

  lemma FrameBounds(f: nat, offset: nat, size: nat)
    requires f < NUM_FRAMES && offset + size <= PAGE_SIZE
    ensures Times(f, PAGE_SIZE) + offset + size <= Times(NUM_FRAMES, PAGE_SIZE)
  {
    TimesMono(f, NUM_FRAMES, PAGE_SIZE);
  }

  /** Accesses in different frames do not overlap. */
  lemma FramesApart(f: nat, o: nat, n: nat, f': nat, o': nat, n': nat)
    requires f != f' && o + n <= PAGE_SIZE && o' + n' <= PAGE_SIZE
    ensures var p, p' := Times(f, PAGE_SIZE) + o, Times(f', PAGE_SIZE) + o'; p + n <= p' || p' + n' <= p
  {
    if f < f' {
      TimesMono(f, f', PAGE_SIZE);
    } else {
      TimesMono(f', f, PAGE_SIZE);
    }
  }

  /** Virtual accesses that do not overlap. */
  predicate Apart(s: nat, a: nat, n: int, s': nat, a': nat, n': int) { s != s' || a + n <= a' || a' + n' <= a }

  lemma PhysicalApart(tables: seq<PageTable>, s: nat, a: nat, n: AccessSize, w: bool, s': nat, a': nat, n': AccessSize, w': bool)
    requires FramesDistinct(tables) && s < |tables| && s' < |tables| && Apart(s, a, n, s', a', n')
    requires Translate(tables[s], a, n, w).Physical? && Translate(tables[s'], a', n', w').Physical?
    requires InPage(a, n) && InPage(a', n')
    ensures var p, p' := Translate(tables[s], a, n, w).addr, Translate(tables[s'], a', n', w').addr;
            p + n <= p' || p' + n' <= p
  {
    var v, v' := Vpn(a), Vpn(a');
    assert Maps(tables, s, v) && Maps(tables, s', v');
    var f, f' := FrameOf(tables, s, v), FrameOf(tables, s', v');
    if f != f' {
      FramesApart(f, Offset(a), n, f', Offset(a'), n');
    } else {
      QuotientTimes(a, PAGE_SIZE);
      QuotientTimes(a', PAGE_SIZE);
    }
  }

  /** A translated access does not run over the end of main memory. */
  predicate InMemory(t: PageTable, a: nat, n: AccessSize, w: bool) {
    Translate(t, a, n, w).Physical? ==> Translate(t, a, n, w).addr + n <= Times(NUM_FRAMES, PAGE_SIZE)
  }

  lemma PhysicalInMemory(t: PageTable, a: nat, n: AccessSize, w: bool)
    requires Translate(t, a, n, w).Physical? && InPage(a, n)
    ensures Translate(t, a, n, w).addr + n <= Times(NUM_FRAMES, PAGE_SIZE)
  {
    FrameBounds(t[Vpn(a)].physicalPage, Offset(a), n);
  }

  /** A write changes no read that does not overlap it in the same address space. */
  lemma WriteIsolated(tables: seq<PageTable>, mem: Bytes, s: nat, a: nat, n: AccessSize, value: nat,
                      s': nat, a': nat, n': AccessSize)
    requires FramesDistinct(tables) && s < |tables| && s' < |tables| && |mem| == Times(NUM_FRAMES, PAGE_SIZE)
    requires Apart(s, a, n, s', a', n') && InPage(a, n) && InPage(a', n')
    requires Translate(tables[s], a, n, true).Physical? && Translate(tables[s'], a', n', false).Physical?
    ensures var p, p' := Translate(tables[s], a, n, true).addr, Translate(tables[s'], a', n', false).addr;
            p + n <= |mem| && p' + n' <= |mem| && Load(Store(mem, p, n, value), p', n') == Load(mem, p', n')
  {
    PhysicalInMemory(tables[s], a, n, true);
    PhysicalInMemory(tables[s'], a', n', false);
    PhysicalApart(tables, s, a, n, true, s', a', n', false);
    StoreElsewhere(mem, Translate(tables[s], a, n, true).addr, n, value, Translate(tables[s'], a', n', false).addr, n');
  }

  /** A read sees the last write to the same place, cut to its size. */
  lemma ReadAfterWrite(t: PageTable, mem: Bytes, a: nat, n: AccessSize, value: nat)
    requires |mem| == Times(NUM_FRAMES, PAGE_SIZE) && InMemory(t, a, n, true) && Translate(t, a, n, true).Physical?
    ensures Translate(t, a, n, false) == Translate(t, a, n, true)
    ensures var p := Translate(t, a, n, true).addr;
            p + n <= |mem| && Power256(n) > 0 && Load(Store(mem, p, n, value), p, n) == value % Power256(n)
  {
    LoadStored(mem, Translate(t, a, n, true).addr, n, value);
  }

  // ----- accesses that cross a page boundary -----

  /** Byte k of a value, from the lowest. */
  function ByteOf(value: nat, k: nat): byte { if k == 0 then value % 256 else ByteOf(value / 256, k - 1) }

  lemma {:induction false} StoreInside(mem: Bytes, p: nat, n: nat, value: nat, k: nat)
    requires p + n <= |mem| && k < n
    ensures Store(mem, p, n, value)[p + k] == ByteOf(value, k)
    decreases n
  {
    var mem1 := mem[p := value % 256];
    if k == 0 {
      StoreOutside(mem1, p + 1, n - 1, value / 256, p);
    } else {
      StoreInside(mem1, p + 1, n - 1, value / 256, k - 1);
    }
  }

  lemma {:induction false} ByteOfPower(k: nat)
    ensures ByteOf(Power256(k), k) == 1
  {
    if k > 0 {
      ByteOfPower(k - 1);
    }
  }

  lemma {:induction false} ByteOfZero(k: nat)
    ensures ByteOf(0, k) == 0
  {
    if k > 0 {
      ByteOfZero(k - 1);
    }
  }

  /** The write of a value at (s, a) is not seen by the read at (s', a'), unless
      they overlap or the read does not translate to bytes of the memory. */
  ghost predicate Unseen(tables: seq<PageTable>, mem: Bytes, s: nat, a: nat, n: AccessSize, value: nat, s': nat, a': nat, n': AccessSize)
    requires s < |tables| && Translate(tables[s], a, n, true).Physical? && Translate(tables[s], a, n, true).addr + n <= |mem|
  {
    s' < |tables| && Apart(s, a, n, s', a', n') && Translate(tables[s'], a', n', false).Physical? ==>
      var p, p' := Translate(tables[s], a, n, true).addr, Translate(tables[s'], a', n', false).addr;
      p' + n' <= |mem| ==> Load(Store(mem, p, n, value), p', n') == Load(mem, p', n')
  }

  /** No write to (s, a) is seen elsewhere. */
  ghost predicate Isolated(tables: seq<PageTable>, mem: Bytes, s: nat, a: nat, n: AccessSize)
    requires s < |tables| && Translate(tables[s], a, n, true).Physical? && Translate(tables[s], a, n, true).addr + n <= |mem|
  {
    forall value, s', a', n' :: Unseen(tables, mem, s, a, n, value, s', a', n')
  }

  /** Page (s', v') can be read, holds frame f and is not page v of space s. */
  predicate Stranger(tables: seq<PageTable>, s: nat, v: int, f: int, s': nat, v': nat) {
    && Maps(tables, s', v') && FrameOf(tables, s', v') == f && (tables[s'][v'].readAllowed || tables[s'][v'].writeAllowed)
    && !(s' == s && v' == v)
  }

  /** Frame f holds another page than v of space s. */
  ghost predicate StrangerIn(tables: seq<PageTable>, s: nat, v: int, f: int) { exists s', v' :: Stranger(tables, s, v, f, s', v') }

  /** The frame behind that of (s, a) holds another page than the next one. */
  ghost predicate StrangerBehind(tables: seq<PageTable>, s: nat, a: nat)
    requires Maps(tables, s, Vpn(a))
  {
    StrangerIn(tables, s, Vpn(a) + 1, FrameOf(tables, s, Vpn(a)) + 1)
  }

  /** The frame ahead of that of (s, a) holds another page than the previous one. */
  ghost predicate StrangerAhead(tables: seq<PageTable>, s: nat, a: nat)
    requires Maps(tables, s, Vpn(a))
  {
    StrangerIn(tables, s, Vpn(a) - 1, FrameOf(tables, s, Vpn(a)) - 1)
  }

  /** A crossing write reaches into the next frame, and a crossing read of the
      frame ahead reaches the first seven bytes of this one. */
  ghost predicate Sheltered(tables: seq<PageTable>, s: nat, a: nat, n: AccessSize)
    requires Maps(tables, s, Vpn(a))
  {
    (InPage(a, n) || !StrangerBehind(tables, s, a)) && !(Offset(a) < 7 && StrangerAhead(tables, s, a))
  }

  // ----- a write that is not sheltered is seen -----

  /** Where a write that crosses the end of its page lies in physical memory. */
  lemma CrossingPlace(t: PageTable, a: nat, f: nat)
    requires Translate(t, a, 8, true).Physical? && !InPage(a, 8) && f == t[Vpn(a)].physicalPage
    requires Translate(t, a, 8, true).addr + 8 <= Times(NUM_FRAMES, PAGE_SIZE)
    ensures f + 1 < NUM_FRAMES
    ensures var p, j := Translate(t, a, 8, true).addr, PAGE_SIZE - Offset(a);
            0 < j < 8 && p + j == Times(f + 1, PAGE_SIZE)
  {
    QuotientTimes(a, PAGE_SIZE);
    if f + 1 >= NUM_FRAMES {
      TimesMono(NUM_FRAMES, f + 1, PAGE_SIZE);
    }
  }

  /** Bytes at a given offset of a page that can be read. */
  lemma PlaceInPage(tables: seq<PageTable>, s: nat, v: nat, f: nat, offset: nat, n: AccessSize)
    requires Maps(tables, s, v) && FrameOf(tables, s, v) == f < NUM_FRAMES && offset < PAGE_SIZE && (n == 1 || n == 8)
    requires tables[s][v].readAllowed || tables[s][v].writeAllowed
    ensures var a := Times(v, PAGE_SIZE) + offset;
            Vpn(a) == v && Offset(a) == offset && Translate(tables[s], a, n, false) == Physical(Times(f, PAGE_SIZE) + offset)
  {
    QuotientUnique(Times(v, PAGE_SIZE) + offset, PAGE_SIZE, v, offset);
  }

  /** The first byte of another page is apart from a crossing write. */
  lemma BehindApart(s: nat, a: nat, s': nat, v': nat)
    requires !InPage(a, 8) && !(s' == s && (v' == Vpn(a) || v' == Vpn(a) + 1))
    ensures Apart(s, a, 8, s', Times(v', PAGE_SIZE), 1)
  {
    QuotientTimes(a, PAGE_SIZE);
    if s' == s {
      if v' < Vpn(a) {
        TimesMono(v', Vpn(a), PAGE_SIZE);
      } else {
        TimesMono(Vpn(a) + 2, v', PAGE_SIZE);
      }
    }
  }

  /** So is a read of 8 bytes that starts with the last byte of another page
      from a write among the first bytes of its own. */
  lemma AheadApart(s: nat, a: nat, n: AccessSize, s': nat, v': nat)
    requires Offset(a) < 7 && !(s' == s && (v' == Vpn(a) || v' == Vpn(a) - 1))
    ensures Apart(s, a, n, s', Times(v', PAGE_SIZE) + (PAGE_SIZE - 1), 8)
  {
    QuotientTimes(a, PAGE_SIZE);
    if s' == s {
      if v' < Vpn(a) {
        TimesMono(v' + 2, Vpn(a), PAGE_SIZE);
      } else {
        TimesMono(Vpn(a) + 1, v', PAGE_SIZE);
      }
    }
  }

  /** A byte can be changed to some other value by a suitable write. */
  lemma SomeValueDiffers(mem: Bytes, p: nat, n: nat, j: nat)
    requires p + n <= |mem| && j < n
    ensures exists value: nat :: Store(mem, p, n, value)[p + j] != mem[p + j]
  {
    StoreInside(mem, p, n, 0, j);
    StoreInside(mem, p, n, Power256(j), j);
    ByteOfZero(j);
    ByteOfPower(j);
    assert Store(mem, p, n, 0)[p + j] != mem[p + j] || Store(mem, p, n, Power256(j))[p + j] != mem[p + j];
  }

  /** A read of bytes that have not all stayed the same gives another value. */
  lemma {:induction false} LoadDiffers(mem: Bytes, mem': Bytes, p: nat, n: nat, k: nat)
    requires |mem'| == |mem| && p <= k < p + n <= |mem| && mem'[k] != mem[k]
    ensures Load(mem', p, n) != Load(mem, p, n)
    decreases n
  {
    if k == p {
      DigitsDiffer(mem[p], Load(mem, p + 1, n - 1), mem'[p], Load(mem', p + 1, n - 1));
    } else {
      LoadDiffers(mem, mem', p + 1, n - 1, k);
      DigitsDiffer(mem[p], Load(mem, p + 1, n - 1), mem'[p], Load(mem', p + 1, n - 1));
    }
  }

  lemma DigitsDiffer(b: byte, rest: nat, b': byte, rest': nat)
    requires b != b' || rest != rest'
    ensures b + 256 * rest != b' + 256 * rest'
  {
  }

  /** A write is seen by a read that is apart in its space but not in memory. */
  lemma SharedByteIsSeen(tables: seq<PageTable>, mem: Bytes, s: nat, a: nat, n: AccessSize, s': nat, a': nat, n': AccessSize, k: nat)
    requires s < |tables| && s' < |tables| && Apart(s, a, n, s', a', n')
    requires Translate(tables[s], a, n, true).Physical? && Translate(tables[s'], a', n', false).Physical?
    requires var p, p' := Translate(tables[s], a, n, true).addr, Translate(tables[s'], a', n', false).addr;
             p <= k < p + n <= |mem| && p' <= k < p' + n' <= |mem|
    ensures exists value: nat :: !Unseen(tables, mem, s, a, n, value, s', a', n')
  {
    var p, p' := Translate(tables[s], a, n, true).addr, Translate(tables[s'], a', n', false).addr;
    SomeValueDiffers(mem, p, n, k - p);
    var value: nat :| Store(mem, p, n, value)[p + (k - p)] != mem[p + (k - p)];
    LoadDiffers(mem, Store(mem, p, n, value), p', n', k);
    assert !Unseen(tables, mem, s, a, n, value, s', a', n');
  }

  /** A crossing write is seen through the page in the frame behind. */
  lemma SeenBehind(tables: seq<PageTable>, mem: Bytes, s: nat, a: nat, s': nat, v': nat, a': nat)
    requires s < |tables| && |mem| == Times(NUM_FRAMES, PAGE_SIZE) && a' == Times(v', PAGE_SIZE)
    requires Translate(tables[s], a, 8, true).Physical? && !InPage(a, 8) && Translate(tables[s], a, 8, true).addr + 8 <= |mem|
    requires Stranger(tables, s, Vpn(a) + 1, tables[s][Vpn(a)].physicalPage + 1, s', v')
    ensures exists value: nat :: !Unseen(tables, mem, s, a, 8, value, s', a', 1)
  {
    var f := tables[s][Vpn(a)].physicalPage;
    CrossingPlace(tables[s], a, f);
    PlaceInPage(tables, s', v', f + 1, 0, 1);
    BehindApart(s, a, s', v');
    FrameBounds(f + 1, 0, 1);
    SharedByteIsSeen(tables, mem, s, a, 8, s', a', 1, Times(f + 1, PAGE_SIZE));
  }

  /** Any write to the first bytes of a page is seen by a read that crosses into
      its frame from the one ahead. */
  lemma SeenAhead(tables: seq<PageTable>, mem: Bytes, s: nat, a: nat, n: AccessSize, s': nat, v': nat, a': nat)
    requires s < |tables| && |mem| == Times(NUM_FRAMES, PAGE_SIZE) && Offset(a) < 7 && a' == Times(v', PAGE_SIZE) + (PAGE_SIZE - 1)
    requires Translate(tables[s], a, n, true).Physical? && Translate(tables[s], a, n, true).addr + n <= |mem|
    requires Stranger(tables, s, Vpn(a) - 1, tables[s][Vpn(a)].physicalPage - 1, s', v') && FrameOf(tables, s', v') >= 0
    ensures exists value: nat :: !Unseen(tables, mem, s, a, n, value, s', a', 8)
  {
    var f := tables[s][Vpn(a)].physicalPage;
    PlaceInPage(tables, s', v', f - 1, PAGE_SIZE - 1, 8);
    AheadApart(s, a, n, s', v');
    FrameBounds(f, 0, 8);
    SharedByteIsSeen(tables, mem, s, a, n, s', a', 8, Times(f, PAGE_SIZE) + Offset(a));
  }

  // ----- a sheltered write is not seen -----

  /** Two accesses in one page keep their distance in physical memory. */
  lemma SamePageApart(a: nat, n: nat, a': nat, n': nat, f: nat)
    requires Vpn(a) == Vpn(a') && (a + n <= a' || a' + n' <= a)
    ensures var p, p' := Times(f, PAGE_SIZE) + Offset(a), Times(f, PAGE_SIZE) + Offset(a'); p + n <= p' || p' + n' <= p
  {
    QuotientTimes(a, PAGE_SIZE);
    QuotientTimes(a', PAGE_SIZE);
  }

  /** So do an access and one in the next page, if the frames follow each other. */
  lemma NextPageApart(a: nat, n: nat, a': nat, n': nat, f: nat)
    requires Vpn(a') == Vpn(a) + 1 && (a + n <= a' || a' + n' <= a)
    ensures var p, p' := Times(f, PAGE_SIZE) + Offset(a), Times(f + 1, PAGE_SIZE) + Offset(a'); p + n <= p' || p' + n' <= p
  {
    QuotientTimes(a, PAGE_SIZE);
    QuotientTimes(a', PAGE_SIZE);
  }

  /** Accesses in frames that do not follow each other are out of reach. */
  lemma FarFrameApart(f: nat, o: nat, n: AccessSize, f': nat, o': nat, n': AccessSize)
    requires (f + 1 < f' || f' + 1 < f) && o < PAGE_SIZE && o' < PAGE_SIZE
    ensures var p, p' := Times(f, PAGE_SIZE) + o, Times(f', PAGE_SIZE) + o'; p + n <= p' || p' + n' <= p
  {
    if f < f' {
      TimesMono(f + 2, f', PAGE_SIZE);
    } else {
      TimesMono(f' + 2, f, PAGE_SIZE);
    }
  }

  /** An access in the frame behind: a sheltered write does not reach it. */
  lemma BehindOutOfReach(tables: seq<PageTable>, s: nat, a: nat, n: AccessSize, s': nat, a': nat, n': AccessSize, f: nat)
    requires Apart(s, a, n, s', a', n') && Maps(tables, s, Vpn(a)) && Sheltered(tables, s, a, n) && f == FrameOf(tables, s, Vpn(a))
    requires s' < |tables| && Translate(tables[s'], a', n', false).Physical? && tables[s'][Vpn(a')].physicalPage == f + 1
    ensures var p, p' := Times(f, PAGE_SIZE) + Offset(a), Times(f + 1, PAGE_SIZE) + Offset(a'); p + n <= p' || p' + n' <= p
  {
    if !InPage(a, n) {
      assert !StrangerIn(tables, s, Vpn(a) + 1, f + 1) && Maps(tables, s', Vpn(a'));
      assert !Stranger(tables, s, Vpn(a) + 1, f + 1, s', Vpn(a'));
      NextPageApart(a, n, a', n', f);
    }
  }

  /** An access in the frame ahead does not reach a sheltered write. */
  lemma AheadOutOfReach(tables: seq<PageTable>, s: nat, a: nat, n: AccessSize, s': nat, a': nat, n': AccessSize, f: nat)
    requires Apart(s, a, n, s', a', n') && Maps(tables, s, Vpn(a)) && Sheltered(tables, s, a, n) && f + 1 == FrameOf(tables, s, Vpn(a))
    requires s' < |tables| && Translate(tables[s'], a', n', false).Physical? && tables[s'][Vpn(a')].physicalPage == f
    ensures var p, p' := Times(f + 1, PAGE_SIZE) + Offset(a), Times(f, PAGE_SIZE) + Offset(a'); p + n <= p' || p' + n' <= p
  {
    if Offset(a) < 7 {
      assert !StrangerIn(tables, s, Vpn(a) - 1, f) && Maps(tables, s', Vpn(a'));
      assert !Stranger(tables, s, Vpn(a) - 1, f, s', Vpn(a'));
      NextPageApart(a', n', a, n, f);
    } else {
      QuotientTimes(a', PAGE_SIZE);
    }
  }

  lemma ShelteredApart(tables: seq<PageTable>, s: nat, a: nat, n: AccessSize, s': nat, a': nat, n': AccessSize)
    requires FramesDistinct(tables) && s < |tables| && s' < |tables| && Apart(s, a, n, s', a', n')
    requires Translate(tables[s], a, n, true).Physical? && Translate(tables[s'], a', n', false).Physical?
    requires Maps(tables, s, Vpn(a)) && Sheltered(tables, s, a, n)
    ensures var p, p' := Translate(tables[s], a, n, true).addr, Translate(tables[s'], a', n', false).addr;
            p + n <= p' || p' + n' <= p
  {
    var f, f' := FrameOf(tables, s, Vpn(a)), tables[s'][Vpn(a')].physicalPage;
    assert Maps(tables, s', Vpn(a')) && FrameOf(tables, s', Vpn(a')) == f';
    if f' == f {
      SamePageApart(a, n, a', n', f);
    } else if f' == f + 1 {
      BehindOutOfReach(tables, s, a, n, s', a', n', f);
    } else if f' == f - 1 {
      AheadOutOfReach(tables, s, a, n, s', a', n', f');
    } else {
      QuotientTimes(a, PAGE_SIZE);
      QuotientTimes(a', PAGE_SIZE);
      FarFrameApart(f, Offset(a), n, f', Offset(a'), n');
    }
  }

  lemma ShelteredIsUnseen(tables: seq<PageTable>, mem: Bytes, s: nat, a: nat, n: AccessSize, value: nat, s': nat, a': nat, n': AccessSize)
    requires FramesDistinct(tables) && s < |tables|
    requires Translate(tables[s], a, n, true).Physical? && Translate(tables[s], a, n, true).addr + n <= |mem|
    requires Maps(tables, s, Vpn(a)) && Sheltered(tables, s, a, n)
    ensures Unseen(tables, mem, s, a, n, value, s', a', n')
  {
    if s' < |tables| && Apart(s, a, n, s', a', n') && Translate(tables[s'], a', n', false).Physical? {
      ShelteredApart(tables, s, a, n, s', a', n');
      var p, p' := Translate(tables[s], a, n, true).addr, Translate(tables[s'], a', n', false).addr;
      if p' + n' <= |mem| {
        StoreElsewhere(mem, p, n, value, p', n');
      }
    }
  }

  lemma StoreElsewhere(mem: Bytes, p: nat, n: nat, value: nat, p': nat, n': nat)
    requires p + n <= |mem| && p' + n' <= |mem| && (p + n <= p' || p' + n' <= p)
    ensures Load(Store(mem, p, n, value), p', n') == Load(mem, p', n')
  {
    forall k | p' <= k < p' + n'
      ensures Store(mem, p, n, value)[k] == mem[k]
    {
      StoreOutside(mem, p, n, value, k);
    }
    LoadSame(mem, Store(mem, p, n, value), p', n');
  }

  /** No frame lies ahead of frame 0. */
  ghost predicate FramesExist(tables: seq<PageTable>) {
    forall s, v :: Maps(tables, s, v) ==> 0 <= FrameOf(tables, s, v) < NUM_FRAMES
  }

  lemma UnshelteredIsSeen(tables: seq<PageTable>, mem: Bytes, s: nat, a: nat, n: AccessSize)
    requires FramesExist(tables) && s < |tables| && |mem| == Times(NUM_FRAMES, PAGE_SIZE) && (n == 8 || InPage(a, n))
    requires Translate(tables[s], a, n, true).Physical? && Translate(tables[s], a, n, true).addr + n <= |mem|
    requires Maps(tables, s, Vpn(a)) && !Sheltered(tables, s, a, n)
    ensures !Isolated(tables, mem, s, a, n)
  {
    var f := FrameOf(tables, s, Vpn(a));
    if Offset(a) < 7 && StrangerAhead(tables, s, a) {
      var s', v' :| Stranger(tables, s, Vpn(a) - 1, f - 1, s', v');
      var a' := Times(v', PAGE_SIZE) + (PAGE_SIZE - 1);
      SeenAhead(tables, mem, s, a, n, s', v', a');
      var value: nat :| !Unseen(tables, mem, s, a, n, value, s', a', 8);
    } else {
      var s', v' :| Stranger(tables, s, Vpn(a) + 1, f + 1, s', v');
      var a' := Times(v', PAGE_SIZE);
      SeenBehind(tables, mem, s, a, s', v', a');
      var value: nat :| !Unseen(tables, mem, s, a, 8, value, s', a', 1);
    }
  }

  /** A write is isolated from every read that it does not overlap if and only if
      it stays in its page or no stranger is in the frame behind, and it stays
      away from the first seven bytes or no stranger is in the frame ahead. */
  lemma IsolatedIff(tables: seq<PageTable>, mem: Bytes, s: nat, a: nat, n: AccessSize)
    requires FramesDistinct(tables) && FramesExist(tables) && s < |tables| && |mem| == Times(NUM_FRAMES, PAGE_SIZE)
    requires Translate(tables[s], a, n, true).Physical? && Translate(tables[s], a, n, true).addr + n <= |mem|
    ensures Maps(tables, s, Vpn(a))
    ensures Isolated(tables, mem, s, a, n) <==>
              && (InPage(a, n) || !StrangerBehind(tables, s, a))
              && !(Offset(a) < 7 && StrangerAhead(tables, s, a))
  {
    if n != 8 {
      AccessInPage(tables[s], a, n, true);
    }
    if Sheltered(tables, s, a, n) {
      forall value, s', a', n'
        ensures Unseen(tables, mem, s, a, n, value, s', a', n')
      {
        ShelteredIsUnseen(tables, mem, s, a, n, value, s', a', n');
      }
    } else {
      UnshelteredIsSeen(tables, mem, s, a, n);
    }
  }
}
