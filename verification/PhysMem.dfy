/**
 Physical frames and page tables (vm/physMem.cc, kernel/addrspace.cc). Address
 spaces are numbered; each frame in use points back to the page it holds.
 */
module PhysMem {
  import opened Basics
  import opened Layout
  import opened Mmu

  const INVALID_PAGE := -1

  /** How many pages a translation table can hold. */
  const MAX_PAGES: Positive

  datatype Frame = Frame(free: bool, locked: bool, virtualPage: nat, owner: nat)

  // ----- the invariant -----

  predicate IsFrame(f: int) { 0 <= f < NUM_FRAMES }

  /** The free list holds exactly the frames flagged free, each once. */
  ghost predicate FreeOk(tpr: seq<Frame>, freeList: seq<int>) {
    && |tpr| == NUM_FRAMES && NoDup(freeList)
    && forall f :: f in freeList <==> IsFrame(f) && tpr[f].free
  }

  /** The back pointer of a mapped frame leads to the page that maps it. */
  ghost predicate BackOk(tpr: seq<Frame>, tables: seq<PageTable>) {
    && |tpr| == NUM_FRAMES
    && forall s, v :: Maps(tables, s, v) ==>
                        var f := FrameOf(tables, s, v);
                        IsFrame(f) && !tpr[f].free && tpr[f].owner == s && tpr[f].virtualPage == v
  }

  /** Every frame in use, except those just taken, is mapped. */
  ghost predicate UsedOk(tpr: seq<Frame>, tables: seq<PageTable>, taken: set<int>) {
    && |tpr| == NUM_FRAMES
    && (forall f :: IsFrame(f) && !tpr[f].free && f !in taken ==> MapsTo(tables, tpr[f].owner, tpr[f].virtualPage, f))
    && (forall f :: f in taken ==> IsFrame(f) && !tpr[f].free)
    && (forall s, v, f :: MapsTo(tables, s, v, f) ==> f !in taken)
  }

  predicate MapsTo(tables: seq<PageTable>, s: nat, v: nat, f: int) { Maps(tables, s, v) && FrameOf(tables, s, v) == f }

  /** Only pages below the allocation counter of a space are mapped. */
  ghost predicate TablesOk(tables: seq<PageTable>, tops: seq<nat>) {
    && |tops| == |tables| && (forall s :: 0 <= s < |tables| ==> |tables[s]| == MAX_PAGES && tops[s] <= MAX_PAGES)
    && forall s: nat, v: nat :: Maps(tables, s, v) ==> v < tops[s]
  }

  ghost predicate VmOk(tpr: seq<Frame>, freeList: seq<int>, tables: seq<PageTable>, tops: seq<nat>, taken: set<int>) {
    FreeOk(tpr, freeList) && BackOk(tpr, tables) && UsedOk(tpr, tables, taken) && TablesOk(tables, tops)
  }

  /** Hence no frame is mapped twice. */
  lemma MappedOnce(tpr: seq<Frame>, tables: seq<PageTable>)
    requires BackOk(tpr, tables)
    ensures FramesDistinct(tables)
  {
  }

  // ----- taking and freeing a frame -----

  lemma TakeFree(tpr: seq<Frame>, freeList: seq<int>)
    requires FreeOk(tpr, freeList) && freeList != []
    ensures var f := freeList[0];
            IsFrame(f) && tpr[f].free && FreeOk(tpr[f := tpr[f].(free := false)], freeList[1..])
  {
    var f := freeList[0];
    assert f in freeList;
    assert forall g :: g in freeList <==> g == f || g in freeList[1..];
  }

  lemma TakeKeeps(tpr: seq<Frame>, freeList: seq<int>, tables: seq<PageTable>, tops: seq<nat>)
    requires VmOk(tpr, freeList, tables, tops, {}) && freeList != []
    ensures var f := freeList[0];
            IsFrame(f) && tpr[f].free && VmOk(tpr[f := tpr[f].(free := false)], freeList[1..], tables, tops, {f})
  {
    TakeFree(tpr, freeList);
  }

  /** The page table entry of a frame that has just been loaded. */
  function Loaded(e: Pte, f: int, writable: bool): Pte {
    e.(valid := true, readAllowed := true, writeAllowed := writable, physicalPage := f)
  }

  function WithEntry(tables: seq<PageTable>, s: nat, v: nat, e: Pte): seq<PageTable>
    requires s < |tables| && v < |tables[s]|
  {
    tables[s := tables[s][v := e]]
  }

  lemma WithEntryMaps(tables: seq<PageTable>, s: nat, v: nat, e: Pte, s': nat, v': nat)
    requires s < |tables| && v < |tables[s]|
    ensures Maps(WithEntry(tables, s, v, e), s', v') <==> if s' == s && v' == v then e.valid else Maps(tables, s', v')
    ensures Maps(WithEntry(tables, s, v, e), s', v') ==>
              FrameOf(WithEntry(tables, s, v, e), s', v') ==
              if s' == s && v' == v then e.physicalPage else FrameOf(tables, s', v')
  {
  }

  lemma LoadKeeps(tpr: seq<Frame>, freeList: seq<int>, tables: seq<PageTable>, tops: seq<nat>, f: int, s: nat, v: nat, writable: bool)
    requires VmOk(tpr, freeList, tables, tops, {f}) && s < |tables| && v < tops[s] && !tables[s][v].valid
    ensures IsFrame(f)
    ensures VmOk(tpr[f := Frame(false, true, v, s)], freeList,
                 WithEntry(tables, s, v, Loaded(tables[s][v], f, writable)), tops, {})
  {
    assert f in {f};
    var tables', tpr' := WithEntry(tables, s, v, Loaded(tables[s][v], f, writable)), tpr[f := Frame(false, true, v, s)];
    forall s', v'
      ensures Maps(tables', s', v') <==> if s' == s && v' == v then true else Maps(tables, s', v')
      ensures Maps(tables', s', v') ==>
                FrameOf(tables', s', v') == if s' == s && v' == v then f else FrameOf(tables, s', v')
    {
      WithEntryMaps(tables, s, v, Loaded(tables[s][v], f, writable), s', v');
    }
    forall g | IsFrame(g) && !tpr'[g].free
      ensures MapsTo(tables', tpr'[g].owner, tpr'[g].virtualPage, g)
    {
      if g != f {
        assert MapsTo(tables, tpr[g].owner, tpr[g].virtualPage, g);
      }
    }
    forall s', v' | Maps(tables', s', v')
      ensures var g := FrameOf(tables', s', v'); IsFrame(g) && !tpr'[g].free && tpr'[g].owner == s' && tpr'[g].virtualPage == v'
    {
      if !(s' == s && v' == v) {
        assert MapsTo(tables, s', v', FrameOf(tables, s', v'));
      }
    }
  }

  lemma FreeListKeeps(tpr: seq<Frame>, freeList: seq<int>, f: int)
    requires FreeOk(tpr, freeList) && IsFrame(f) && !tpr[f].free
    ensures FreeOk(tpr[f := tpr[f].(free := true, locked := false)], [f] + freeList)
  {
    assert f !in freeList;
    forall i, j | 0 <= i < j < |[f] + freeList|
      ensures ([f] + freeList)[i] != ([f] + freeList)[j]
    {
      assert freeList[j - 1] in freeList;
    }
  }

  /** Freeing a frame invalidates the page that it held. */
  lemma FreeKeeps(tpr: seq<Frame>, freeList: seq<int>, tables: seq<PageTable>, tops: seq<nat>, f: int)
    requires VmOk(tpr, freeList, tables, tops, {}) && IsFrame(f) && !tpr[f].free
    ensures var s, v := tpr[f].owner, tpr[f].virtualPage;
            && MapsTo(tables, s, v, f)
            && VmOk(tpr[f := tpr[f].(free := true, locked := false)], [f] + freeList,
                    WithEntry(tables, s, v, tables[s][v].(valid := false)), tops, {})
  {
    FreeListKeeps(tpr, freeList, f);
    var s, v := tpr[f].owner, tpr[f].virtualPage;
    assert MapsTo(tables, s, v, f);
    var tables', tpr' := WithEntry(tables, s, v, tables[s][v].(valid := false)), tpr[f := tpr[f].(free := true, locked := false)];
    forall s', v'
      ensures Maps(tables', s', v') <==> !(s' == s && v' == v) && Maps(tables, s', v')
      ensures Maps(tables', s', v') ==> FrameOf(tables', s', v') == FrameOf(tables, s', v')
    {
      WithEntryMaps(tables, s, v, tables[s][v].(valid := false), s', v');
    }
    forall g | IsFrame(g) && !tpr'[g].free
      ensures MapsTo(tables', tpr'[g].owner, tpr'[g].virtualPage, g)
    {
      assert MapsTo(tables, tpr[g].owner, tpr[g].virtualPage, g);
    }
    forall s', v' | Maps(tables', s', v')
      ensures FrameOf(tables', s', v') != f
    {
      assert Maps(tables, s', v');
    }
  }

  // ----- pages of physical memory -----

  type Page = s: Bytes | |s| == PAGE_SIZE witness seq(PAGE_SIZE, _ => 0)

  function WithPage(mem: Bytes, f: nat, page: Page): (mem': Bytes)
    requires f < NUM_FRAMES && |mem| == Times(NUM_FRAMES, PAGE_SIZE)
    ensures |mem'| == |mem|
  {
    FrameBounds(f, 0, PAGE_SIZE);
    mem[..Times(f, PAGE_SIZE)] + page + mem[Times(f, PAGE_SIZE) + PAGE_SIZE..]
  }

  function ZeroPage(): Page { seq(PAGE_SIZE, _ => 0) }

  // ----- the objects -----

  function CountValid(t: PageTable): nat {
    if t == [] then 0 else CountValid(t[..|t| - 1]) + if t[|t| - 1].valid then 1 else 0
  }

  lemma {:induction false} CountValidClear(t: PageTable, v: nat)
    requires v < |t| && t[v].valid
    ensures CountValid(t[v := t[v].(valid := false)]) + 1 == CountValid(t)
  {
    var n := |t| - 1;
    var t' := t[v := t[v].(valid := false)];
    if v < n {
      assert t'[..n] == t[..n][v := t[v].(valid := false)];
      CountValidClear(t[..n], v);
    } else {
      assert t'[..n] == t[..n];
    }
  }

  lemma {:induction false} CountValidNone(t: PageTable)
    requires forall v :: 0 <= v < |t| ==> !t[v].valid
    ensures CountValid(t) == 0
  {
    if t != [] {
      CountValidNone(t[..|t| - 1]);
    }
  }

  /** A page to load: its number, its contents and whether it may be written. */
  datatype PageImage = PageImage(page: nat, writable: bool, contents: Page)

  const UNMAPPED := Pte(false, false, false, false, false, 0)

  const STACK_BLANK_LEN := 4

  /** The gap below a stack; a failure to reserve it is ignored. */
  function StackGap(top: nat): nat { if top + STACK_BLANK_LEN >= MAX_PAGES then 0 else STACK_BLANK_LEN }

  class VirtualMemory {
    var tpr: seq<Frame>
    var freeList: seq<int>
    var tables: seq<PageTable>
    var tops: seq<nat>
    var mem: Bytes

    ghost predicate Valid(taken: set<int>)
      reads this
    {
      VmOk(tpr, freeList, tables, tops, taken) && |mem| == Times(NUM_FRAMES, PAGE_SIZE)
    }

    /** All frames are free and there is no address space. */
    constructor (initial: Bytes)
      requires |initial| == Times(NUM_FRAMES, PAGE_SIZE)
      ensures Valid({}) && tables == [] && tops == [] && |freeList| == NUM_FRAMES
      ensures forall k :: 0 <= k < NUM_FRAMES ==> freeList[k] == k
    {
      tables, tops, mem := [], [], initial;
      tpr := seq(NUM_FRAMES, _ => Frame(true, false, 0, 0));
      freeList := [];
      new;
      for i := 0 to NUM_FRAMES
        invariant |freeList| == i && forall k :: 0 <= k < i ==> freeList[k] == k
        invariant tables == [] && tops == [] && mem == initial && tpr == seq(NUM_FRAMES, _ => Frame(true, false, 0, 0))
      {
        freeList := freeList + [i];
      }
      assert forall f :: IsFrame(f) ==> freeList[f] == f;
    }

    /** Takes the first free frame. */
    method FindFreePage() returns (page: int)
      requires Valid({})
      modifies this`tpr, this`freeList
      ensures page == if old(freeList) == [] then INVALID_PAGE else old(freeList)[0]
      ensures page == INVALID_PAGE ==> Valid({}) && freeList == [] == old(freeList)
      ensures page != INVALID_PAGE ==> Valid({page}) && freeList == old(freeList)[1..] && IsFrame(page) && old(tpr)[page].free
    {
      if freeList == [] {
        return INVALID_PAGE;
      }
      TakeKeeps(tpr, freeList, tables, tops);
      page := freeList[0];
      freeList := freeList[1..];
      assert tpr[page].free;
      tpr := tpr[page := tpr[page].(free := false)];
    }

    /** Frees a frame and invalidates the page that it held. */
    method FreePhysicalPage(page: int)
      requires Valid({}) && IsFrame(page) && !tpr[page].free
      modifies this`tpr, this`freeList, this`tables
      ensures Valid({}) && freeList == [page] + old(freeList)
      ensures var s, v := old(tpr)[page].owner, old(tpr)[page].virtualPage;
              MapsTo(old(tables), s, v, page) && tables == WithEntry(old(tables), s, v, old(tables)[s][v].(valid := false))
    {
      FreeKeeps(tpr, freeList, tables, tops, page);
      var s, v := tpr[page].owner, tpr[page].virtualPage;
      tpr := tpr[page := tpr[page].(free := true, locked := false)];
      tables := WithEntry(tables, s, v, tables[s][v].(valid := false));
      freeList := [page] + freeList;
    }

    /** An empty address space. */
    method NewSpace() returns (s: nat)
      requires Valid({})
      modifies this`tables, this`tops
      ensures Valid({}) && s == |old(tables)| && tables == old(tables) + [seq(MAX_PAGES, _ => UNMAPPED)] && tops == old(tops) + [0]
    {
      s := |tables|;
      tables := tables + [seq(MAX_PAGES, _ => UNMAPPED)];
      tops := tops + [0];
      assert forall s', v' :: Maps(tables, s', v') <==> Maps(old(tables), s', v');
      assert forall s', v', f :: MapsTo(tables, s', v', f) <==> MapsTo(old(tables), s', v', f);
    }

    /** Reserves virtual pages; the counter only grows. */
    method Alloc(s: nat, numPages: nat) returns (base: int)
      requires Valid({}) && s < |tables|
      modifies this`tops
      ensures Valid({})
      ensures base == if old(tops)[s] + numPages >= MAX_PAGES then INVALID_PAGE else old(tops)[s]
      ensures tops == if base == INVALID_PAGE then old(tops) else old(tops)[s := base + numPages]
    {
      if tops[s] + numPages >= MAX_PAGES {
        return INVALID_PAGE;
      }
      base := tops[s];
      tops := tops[s := tops[s] + numPages];
    }

    /** One turn of the loading loop: a frame is taken, filled and mapped. */
    method LoadPage(s: nat, image: PageImage) returns (ok: bool)
      requires Valid({}) && s < |tables| && image.page < tops[s] && !tables[s][image.page].valid
      modifies this`tpr, this`freeList, this`tables, this`mem
      ensures Valid({}) && (ok <==> old(freeList) != [])
      ensures !ok ==> tables == old(tables) && mem == old(mem) && freeList == []
      ensures ok ==> freeList == old(freeList)[1..] && PageLoaded(old(freeList)[0], old(tables), tables, old(mem), mem, s, image)
    {
      var pp := FindFreePage();
      if pp == INVALID_PAGE {
        return false;
      }
      LoadKeeps(tpr, freeList, tables, tops, pp, s, image.page, image.writable);
      tpr := tpr[pp := tpr[pp].(virtualPage := image.page, owner := s, locked := true)];
      mem := WithPage(mem, pp, image.contents);
      tables := WithEntry(tables, s, image.page, Loaded(tables[s][image.page], pp, image.writable));
      ok := true;
    }

    /** Loads pages that do not overlap, as long as there are frames. */
    method LoadPages(s: nat, images: seq<PageImage>) returns (ok: bool)
      requires Valid({}) && s < |tables|
      requires forall i :: 0 <= i < |images| ==> images[i].page < tops[s] && !tables[s][images[i].page].valid
      requires forall i, j :: 0 <= i < j < |images| ==> images[i].page != images[j].page
      modifies this`tpr, this`freeList, this`tables, this`mem
      ensures Valid({}) && (ok <==> |images| <= |old(freeList)|)
      ensures |tables| == |old(tables)| && forall s' :: 0 <= s' < |tables| && s' != s ==> tables[s'] == old(tables)[s']
      ensures SameButFor(old(tables)[s], tables[s], images, |images|)
      ensures ok ==> |freeList| == |old(freeList)| - |images| && AllHeld(tables, mem, s, images, |images|)
    {
      for i := 0 to |images|
        invariant Valid({}) && |freeList| == |old(freeList)| - i
        invariant |tables| == |old(tables)| && forall s' :: 0 <= s' < |tables| && s' != s ==> tables[s'] == old(tables)[s']
        invariant forall j :: i <= j < |images| ==> !tables[s][images[j].page].valid
        invariant AllHeld(tables, mem, s, images, i) && SameButFor(old(tables)[s], tables[s], images, i)
      {
        ghost var tables0, mem0, f := tables, mem, if freeList == [] then 0 else freeList[0];
        assert freeList != [] ==> freeList[0] in freeList;
        HeldFrames(tpr, freeList, tables, tops, mem, s, images, i);
        ok := LoadPage(s, images[i]);
        if !ok {
          return;
        }
        HeldAfterLoad(f, tables0, tables, mem0, mem, s, images, i);
        AmongMore(images, i);
      }
      ok := true;
    }

    /** A gap that stays unmapped, then zeroed stack pages. */
    method StackAllocate(s: nat, numPages: nat) returns (ok: bool, base: nat)
      requires Valid({}) && s < |tables| && tops[s] + StackGap(tops[s]) + numPages < MAX_PAGES
      modifies this`tpr, this`freeList, this`tables, this`mem, this`tops
      ensures Valid({}) && base == old(tops)[s] + StackGap(old(tops)[s])
      ensures |tables| == |old(tables)| && forall s' :: 0 <= s' < |tables| && s' != s ==> tables[s'] == old(tables)[s']
      ensures forall v :: 0 <= v < MAX_PAGES && !(base <= v < base + numPages) ==> tables[s][v] == old(tables)[s][v]
      ensures forall v :: old(tops)[s] <= v < base ==> !tables[s][v].valid
      ensures ok <==> numPages <= |old(freeList)|
      ensures ok ==> forall v :: base <= v < base + numPages ==> Holds(tables, mem, s, PageImage(v, true, ZeroPage()))
    {
      NothingAboveTop(tables, tops, s);
      var blank := Alloc(s, STACK_BLANK_LEN);
      base := Alloc(s, numPages);
      ok := LoadStack(s, base, numPages);
    }

    /** Loads zeroed pages from page `base` on. */
    method LoadStack(s: nat, base: nat, numPages: nat) returns (ok: bool)
      requires Valid({}) && s < |tables| && base + numPages <= tops[s]
      requires forall v :: base <= v < base + numPages ==> !tables[s][v].valid
      modifies this`tpr, this`freeList, this`tables, this`mem
      ensures Valid({}) && |tables| == |old(tables)| && forall s' :: 0 <= s' < |tables| && s' != s ==> tables[s'] == old(tables)[s']
      ensures forall v :: 0 <= v < MAX_PAGES && !(base <= v < base + numPages) ==> tables[s][v] == old(tables)[s][v]
      ensures ok <==> numPages <= |old(freeList)|
      ensures ok ==> forall v :: base <= v < base + numPages ==> Holds(tables, mem, s, PageImage(v, true, ZeroPage()))
    {
      var images := seq(numPages, i requires 0 <= i < numPages => PageImage(base + i, true, ZeroPage()));
      ok := LoadPages(s, images);
      assert forall v :: Among(images, numPages, v) ==> base <= v < base + numPages;
      if ok {
        StackHeld(tables, mem, s, images, base);
      }
    }

    /** Frees the frame of every mapped page of the space. */
    method DestroySpace(s: nat)
      requires Valid({}) && s < |tables|
      modifies this`tpr, this`freeList, this`tables
      ensures Valid({}) && |tables| == |old(tables)| && forall v :: !Maps(tables, s, v)
      ensures forall s' :: 0 <= s' < |tables| && s' != s ==> tables[s'] == old(tables)[s']
      ensures |freeList| == |old(freeList)| + CountValid(old(tables)[s])
    {
      var top := tops[s];
      for i := 0 to top
        invariant Valid({}) && |tables| == |old(tables)|
        invariant forall s' :: 0 <= s' < |tables| && s' != s ==> tables[s'] == old(tables)[s']
        invariant forall v :: 0 <= v < i ==> !tables[s][v].valid
        invariant |freeList| + CountValid(tables[s]) == |old(freeList)| + CountValid(old(tables)[s])
      {
        if tables[s][i].valid {
          assert Maps(tables, s, i);
          CountValidClear(tables[s], i);
          FreePhysicalPage(tables[s][i].physicalPage);
        }
      }
      assert forall v: nat :: Maps(tables, s, v) ==> v < top;
      assert forall v :: 0 <= v < |tables[s]| && tables[s][v].valid ==> Maps(tables, s, v);
      CountValidNone(tables[s]);
    }

    method ReadMem(s: nat, virtAddr: nat, size: AccessSize) returns (exc: Translation, value: nat)
      requires Valid({}) && s < |tables| && InMemory(tables[s], Cut(virtAddr), size, false)
      modifies this`tables
      ensures Valid({}) && exc == Translate(old(tables)[s], Cut(virtAddr), size, false)
      ensures tables == old(tables)[s := Touched(old(tables)[s], Cut(virtAddr), size, false)]
      ensures exc.Physical? ==> exc.addr + size <= |mem| && value == Load(mem, exc.addr, size)
    {
      var a := Cut(virtAddr);
      exc := Translate(tables[s], a, size, false);
      TouchedKeeps(tpr, freeList, tables, tops, s, a, size, false);
      tables := tables[s := Touched(tables[s], a, size, false)];
      value := if exc.Physical? then Load(mem, exc.addr, size) else 0;
    }

    method WriteMem(s: nat, virtAddr: nat, size: AccessSize, value: nat) returns (exc: Translation)
      requires Valid({}) && s < |tables| && InMemory(tables[s], Cut(virtAddr), size, true)
      modifies this`tables, this`mem
      ensures Valid({}) && exc == Translate(old(tables)[s], Cut(virtAddr), size, true)
      ensures tables == old(tables)[s := Touched(old(tables)[s], Cut(virtAddr), size, true)]
      ensures exc.Physical? ==> exc.addr + size <= |old(mem)| && mem == Store(old(mem), exc.addr, size, value)
      ensures !exc.Physical? ==> mem == old(mem)
    {
      var a := Cut(virtAddr);
      exc := Translate(tables[s], a, size, true);
      TouchedKeeps(tpr, freeList, tables, tops, s, a, size, true);
      tables := tables[s := Touched(tables[s], a, size, true)];
      if exc.Physical? {
        mem := Store(mem, exc.addr, size, value);
      }
    }
  }

  /** Only an 8-byte access that crosses the end of the last frame runs over the
      end of memory; those that stay in their page never do. */
  lemma AccessReady(t: PageTable, a: nat, size: AccessSize, writing: bool)
    requires size == 8 ==> InPage(a, size)
    ensures InMemory(t, a, size, writing)
    ensures Translate(t, a, size, writing).Physical? ==> InPage(a, size)
  {
    if Translate(t, a, size, writing).Physical? {
      if size != 8 {
        AccessInPage(t, a, size, writing);
      }
      PhysicalInMemory(t, a, size, writing);
    }
  }

  /** Setting the use and modified bits changes no mapping. */
  lemma TouchedKeeps(tpr: seq<Frame>, freeList: seq<int>, tables: seq<PageTable>, tops: seq<nat>,
                     s: nat, a: nat, size: AccessSize, writing: bool)
    requires VmOk(tpr, freeList, tables, tops, {}) && s < |tables|
    ensures VmOk(tpr, freeList, tables[s := Touched(tables[s], a, size, writing)], tops, {})
  {
    var tables' := tables[s := Touched(tables[s], a, size, writing)];
    assert forall s', v' :: Maps(tables', s', v') <==> Maps(tables, s', v');
    assert forall s', v', f :: MapsTo(tables', s', v', f) <==> MapsTo(tables, s', v', f);
  }

  /** The two tables differ at most in the pages of the first n images. */
  ghost predicate SameButFor(t: PageTable, t': PageTable, images: seq<PageImage>, n: nat) {
    |t'| == |t| && forall v :: 0 <= v < |t| && !Among(images, n, v) ==> t'[v] == t[v]
  }

  ghost predicate Among(images: seq<PageImage>, n: nat, v: int) { exists i :: 0 <= i < n && i < |images| && images[i].page == v }

  lemma AmongMore(images: seq<PageImage>, n: nat)
    requires n < |images|
    ensures forall v :: Among(images, n, v) ==> Among(images, n + 1, v)
    ensures Among(images, n + 1, images[n].page)
  {
  }

  ghost predicate PageLoaded(f: int, tables: seq<PageTable>, tables': seq<PageTable>, mem: Bytes, mem': Bytes, s: nat, image: PageImage) {
    && IsFrame(f) && s < |tables| && image.page < |tables[s]| && |mem| == Times(NUM_FRAMES, PAGE_SIZE)
    && tables' == WithEntry(tables, s, image.page, Loaded(tables[s][image.page], f, image.writable))
    && mem' == WithPage(mem, f, image.contents)
  }

  function PageAt(mem: Bytes, f: nat): Bytes
    requires f < NUM_FRAMES && |mem| == Times(NUM_FRAMES, PAGE_SIZE)
  {
    FrameBounds(f, 0, PAGE_SIZE);
    mem[Times(f, PAGE_SIZE)..Times(f, PAGE_SIZE) + PAGE_SIZE]
  }

  lemma PageAfter(mem: Bytes, f: nat, page: Page, g: nat)
    requires f < NUM_FRAMES && g < NUM_FRAMES && |mem| == Times(NUM_FRAMES, PAGE_SIZE)
    ensures PageAt(WithPage(mem, f, page), g) == if g == f then page else PageAt(mem, g)
  {
    FrameBounds(f, 0, PAGE_SIZE);
    FrameBounds(g, 0, PAGE_SIZE);
    var mem', p, q := WithPage(mem, f, page), Times(f, PAGE_SIZE), Times(g, PAGE_SIZE);
    if f != g {
      FramesApart(f, 0, PAGE_SIZE, g, 0, PAGE_SIZE);
      assert forall k :: q <= k < q + PAGE_SIZE ==> mem'[k] == mem[k];
    } else {
      assert forall k :: 0 <= k < PAGE_SIZE ==> mem'[p + k] == page[k];
    }
  }

  /** The page of an image is mapped to a frame with its contents. */
  ghost predicate Holds(tables: seq<PageTable>, mem: Bytes, s: nat, image: PageImage) {
    && |mem| == Times(NUM_FRAMES, PAGE_SIZE) && Maps(tables, s, image.page) && IsFrame(FrameOf(tables, s, image.page))
    && tables[s][image.page].readAllowed && tables[s][image.page].writeAllowed == image.writable
    && PageAt(mem, FrameOf(tables, s, image.page)) == image.contents
  }

  ghost predicate AllHeld(tables: seq<PageTable>, mem: Bytes, s: nat, images: seq<PageImage>, n: nat) {
    forall i :: 0 <= i < n && i < |images| ==> Holds(tables, mem, s, images[i])
  }

  /** Only pages below the allocation counter are mapped. */
  lemma NothingAboveTop(tables: seq<PageTable>, tops: seq<nat>, s: nat)
    requires TablesOk(tables, tops) && s < |tables|
    ensures forall v :: tops[s] <= v < MAX_PAGES ==> !tables[s][v].valid
  {
    forall v | tops[s] <= v < MAX_PAGES
      ensures !tables[s][v].valid
    {
      assert !Maps(tables, s, v);
    }
  }

  lemma StackHeld(tables: seq<PageTable>, mem: Bytes, s: nat, images: seq<PageImage>, base: nat)
    requires AllHeld(tables, mem, s, images, |images|)
    requires forall i :: 0 <= i < |images| ==> images[i] == PageImage(base + i, true, ZeroPage())
    ensures forall v :: base <= v < base + |images| ==> Holds(tables, mem, s, PageImage(v, true, ZeroPage()))
  {
    forall v | base <= v < base + |images|
      ensures Holds(tables, mem, s, PageImage(v, true, ZeroPage()))
    {
      assert images[v - base] == PageImage(v, true, ZeroPage());
    }
  }

  /** The first free frame holds none of the pages loaded so far. */
  lemma HeldFrames(tpr: seq<Frame>, freeList: seq<int>, tables: seq<PageTable>, tops: seq<nat>, mem: Bytes,
                   s: nat, images: seq<PageImage>, n: nat)
    requires VmOk(tpr, freeList, tables, tops, {}) && AllHeld(tables, mem, s, images, n)
    ensures freeList != [] ==>
              forall i :: 0 <= i < n && i < |images| ==> !MapsTo(tables, s, images[i].page, freeList[0])
  {
    assert freeList != [] ==> freeList[0] in freeList;
  }

  lemma HeldAfterLoad(f: int, tables: seq<PageTable>, tables': seq<PageTable>, mem: Bytes, mem': Bytes,
                      s: nat, images: seq<PageImage>, n: nat)
    requires n < |images| && AllHeld(tables, mem, s, images, n) && PageLoaded(f, tables, tables', mem, mem', s, images[n])
    requires forall i :: 0 <= i < n ==> images[i].page != images[n].page && !MapsTo(tables, s, images[i].page, f)
    ensures AllHeld(tables', mem', s, images, n + 1)
  {
    forall i | 0 <= i < n + 1
      ensures Holds(tables', mem', s, images[i])
    {
      if i < n {
        assert Holds(tables, mem, s, images[i]);
        PageAfter(mem, f, images[n].contents, FrameOf(tables, s, images[i].page));
      } else {
        PageAfter(mem, f, images[n].contents, f);
      }
    }
  }

  /** In every reachable state, a write is invisible to every read that does not
      overlap it in the same address space. */
  lemma WriteSeenOnlyByOverlap(tpr: seq<Frame>, freeList: seq<int>, tables: seq<PageTable>, tops: seq<nat>, mem: Bytes,
                               s: nat, a: nat, n: AccessSize, value: nat, s': nat, a': nat, n': AccessSize)
    requires VmOk(tpr, freeList, tables, tops, {}) && s < |tables| && s' < |tables| && |mem| == Times(NUM_FRAMES, PAGE_SIZE)
    requires (n == 8 ==> InPage(Cut(a), n)) && (n' == 8 ==> InPage(Cut(a'), n')) && Apart(s, Cut(a), n, s', Cut(a'), n')
    requires Translate(tables[s], Cut(a), n, true).Physical?
    ensures var tables1 := tables[s := Touched(tables[s], Cut(a), n, true)];
            var p, r := Translate(tables[s], Cut(a), n, true).addr, Translate(tables[s'], Cut(a'), n', false);
            && Translate(tables1[s'], Cut(a'), n', false) == r && p + n <= |mem|
            && (r.Physical? ==> r.addr + n' <= |mem| && Load(Store(mem, p, n, value), r.addr, n') == Load(mem, r.addr, n'))
  {
    MappedOnce(tpr, tables);
    AccessReady(tables[s], Cut(a), n, true);
    AccessReady(tables[s'], Cut(a'), n', false);
    TouchedTranslates(tables[s], Cut(a), n, true, Cut(a'), n', false);
    assert s' != s ==> tables[s := Touched(tables[s], Cut(a), n, true)][s'] == tables[s'];
    if Translate(tables[s'], Cut(a'), n', false).Physical? {
      WriteIsolated(tables, mem, s, Cut(a), n, value, s', Cut(a'), n');
    }
  }

  /** The exact condition, in every reachable state and for every write. */
  lemma ReachableIsolation(tpr: seq<Frame>, freeList: seq<int>, tables: seq<PageTable>, tops: seq<nat>, mem: Bytes,
                           s: nat, a: nat, n: AccessSize)
    requires VmOk(tpr, freeList, tables, tops, {}) && s < |tables| && |mem| == Times(NUM_FRAMES, PAGE_SIZE)
    requires Translate(tables[s], Cut(a), n, true).Physical? && InMemory(tables[s], Cut(a), n, true)
    ensures Maps(tables, s, Vpn(Cut(a)))
    ensures Isolated(tables, mem, s, Cut(a), n) <==>
              && (InPage(Cut(a), n) || !StrangerBehind(tables, s, Cut(a)))
              && !(Offset(Cut(a)) < 7 && StrangerAhead(tables, s, Cut(a)))
  {
    MappedOnce(tpr, tables);
    IsolatedIff(tables, mem, s, Cut(a), n);
  }

  // ----- such a state -----

  /** Some write to (s, a) is seen by a read that it does not overlap. */
  ghost predicate Leaks(tables: seq<PageTable>, mem: Bytes, s: nat, a: nat, n: AccessSize) {
    && s < |tables| && Translate(tables[s], a, n, true).Physical? && Translate(tables[s], a, n, true).addr + n <= |mem|
    && !Isolated(tables, mem, s, a, n)
  }

  /** One page of space 0 in frame 0 and one of space 1 in frame 1. */
  ghost predicate SideBySide(tables: seq<PageTable>) {
    && |tables| == 2 && Maps(tables, 0, 0) && Maps(tables, 1, 0)
    && tables[0][0].writeAllowed && tables[1][0].writeAllowed && FrameOf(tables, 0, 0) == 0 && FrameOf(tables, 1, 0) == 1
  }

  lemma FirstPage(offset: nat)
    requires offset < PAGE_SIZE
    ensures Vpn(offset) == 0 && Offset(offset) == offset
  {
    QuotientUnique(offset, PAGE_SIZE, 0, offset);
  }

  lemma EndOfFirstLeaks(tables: seq<PageTable>, mem: Bytes)
    requires FramesDistinct(tables) && FramesExist(tables) && SideBySide(tables) && |mem| == Times(NUM_FRAMES, PAGE_SIZE)
    requires Times(1, PAGE_SIZE) == PAGE_SIZE && Times(0, PAGE_SIZE) == 0 && 2 * PAGE_SIZE <= |mem|
    ensures Leaks(tables, mem, 0, PAGE_SIZE - 1, 8)
  {
    FirstPage(PAGE_SIZE - 1);
    assert Stranger(tables, 0, 1, 1, 1, 0);
    IsolatedIff(tables, mem, 0, PAGE_SIZE - 1, 8);
  }

  lemma StartOfSecondLeaks(tables: seq<PageTable>, mem: Bytes)
    requires FramesDistinct(tables) && FramesExist(tables) && SideBySide(tables) && |mem| == Times(NUM_FRAMES, PAGE_SIZE)
    requires Times(1, PAGE_SIZE) == PAGE_SIZE && 2 * PAGE_SIZE <= |mem|
    ensures Leaks(tables, mem, 1, 0, 1)
  {
    FirstPage(0);
    assert Stranger(tables, 1, -1, 0, 0, 0);
    IsolatedIff(tables, mem, 1, 0, 1);
  }

  lemma SideBySideLeaks(tpr: seq<Frame>, tables: seq<PageTable>, mem: Bytes)
    requires BackOk(tpr, tables) && SideBySide(tables) && NUM_FRAMES >= 2 && |mem| == Times(NUM_FRAMES, PAGE_SIZE)
    ensures Leaks(tables, mem, 0, PAGE_SIZE - 1, 8) && Leaks(tables, mem, 1, 0, 1)
  {
    MappedOnce(tpr, tables);
    FrameBounds(1, 0, PAGE_SIZE);
    assert Times(1, PAGE_SIZE) == Times(0, PAGE_SIZE) + PAGE_SIZE;
    EndOfFirstLeaks(tables, mem);
    StartOfSecondLeaks(tables, mem);
  }

  /** Two programs of one page each are enough: an 8-byte write of the first at
      the end of its page is seen by the second, and a byte that the second
      writes at the start of its page is seen by an 8-byte read of the first. */
  method LoadTwoPrograms(initial: Bytes) returns (vm: VirtualMemory)
    requires |initial| == Times(NUM_FRAMES, PAGE_SIZE) && NUM_FRAMES >= 2 && MAX_PAGES >= 2
    ensures fresh(vm) && vm.Valid({}) && Leaks(vm.tables, vm.mem, 0, PAGE_SIZE - 1, 8) && Leaks(vm.tables, vm.mem, 1, 0, 1)
  {
    vm := new VirtualMemory(initial);
    var first := vm.NewSpace();
    var second := vm.NewSpace();
    var base := vm.Alloc(first, 1);
    base := vm.Alloc(second, 1);
    var ok := vm.LoadPage(first, PageImage(0, true, ZeroPage()));
    ok := vm.LoadPage(second, PageImage(0, true, ZeroPage()));
    SideBySideLeaks(vm.tpr, vm.tables, vm.mem);
  }
}
