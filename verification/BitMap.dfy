/**
 The free-sector bitmap: an array of 32-bit words that stands for the set of
 marked bits (utility/bitmap.cc).
 */
module BitMaps {
  import opened Basics
  import opened Layout

  // ----- sets of bit numbers -----

  predicate InSpan(i: int, n: nat) { 0 <= i < n }

  function Range(n: nat): set<int> { set i: int | 0 <= i < n && InSpan(i, n) }

  lemma {:induction false} RangeSize(n: nat)
    ensures |Range(n)| == n
  {
    if n > 0 {
      RangeSize(n - 1);
      assert Range(n) == Range(n - 1) + {n - 1};
    } else {
      assert Range(0) == {};
    }
  }

  lemma {:induction false} SubsetSize(a: set<int>, b: set<int>)
    requires a <= b
    ensures |a| <= |b| && |b - a| == |b| - |a|
  {
    assert b == a + (b - a);
  }

  /** The number of clear bits among the first n. */
  function NumClearOf(m: set<int>, n: nat): nat {
    if n == 0 then 0 else NumClearOf(m, n - 1) + if n - 1 in m then 0 else 1
  }

  lemma {:induction false} NumClearIsSize(m: set<int>, n: nat)
    ensures NumClearOf(m, n) == |Range(n) - m|
  {
    if n == 0 {
      assert Range(0) - m == {};
    } else {
      NumClearIsSize(m, n - 1);
      var rest := Range(n - 1) - m;
      if n - 1 in m {
        assert Range(n) - m == rest;
      } else {
        assert Range(n) - m == rest + {n - 1} && n - 1 !in rest;
      }
    }
  }

  /** Clear and marked bits add up to the size of the bitmap. */
  lemma NumClearCount(m: set<int>, n: nat)
    requires m <= Range(n)
    ensures NumClearOf(m, n) + |m| == n
  {
    NumClearIsSize(m, n);
    RangeSize(n);
    SubsetSize(m, Range(n));
  }

  lemma {:induction false} NumClearBound(m: set<int>, n: nat)
    ensures NumClearOf(m, n) <= n
  {
    if n > 0 {
      NumClearBound(m, n - 1);
    }
  }

  /** Marking a set of clear bits uses up as many clear bits as it has elements. */
  lemma NumClearMark(m: set<int>, n: nat, s: set<int>)
    requires s <= Range(n) && s !! m
    ensures NumClearOf(m + s, n) == NumClearOf(m, n) - |s|
  {
    NumClearIsSize(m, n);
    NumClearIsSize(m + s, n);
    SubsetSize(s, Range(n) - m);
    assert Range(n) - (m + s) == Range(n) - m - s;
  }

  /** The least clear bit from i on, or ERROR. */
  function FirstClearFrom(m: set<int>, n: nat, i: nat): (r: int)
    ensures r == ERROR || i <= r < n
    decreases n - i
  {
    if i >= n then ERROR else if i !in m then i else FirstClearFrom(m, n, i + 1)
  }

  function FirstClear(m: set<int>, n: nat): int { FirstClearFrom(m, n, 0) }

  lemma {:induction false} FirstClearFromLeast(m: set<int>, n: nat, i: nat)
    ensures var r := FirstClearFrom(m, n, i);
            if r == ERROR then forall j :: i <= j < n ==> j in m
            else r !in m && forall j :: i <= j < r ==> j in m
    decreases n - i
  {
    if i < n && i in m {
      FirstClearFromLeast(m, n, i + 1);
    }
  }

  /** Find yields ERROR exactly when no bit is clear, else the least clear bit. */
  lemma FirstClearLeast(m: set<int>, n: nat)
    ensures FirstClear(m, n) == ERROR <==> NumClearOf(m, n) == 0
    ensures FirstClear(m, n) != ERROR ==> FirstClear(m, n) !in m
    ensures forall j :: 0 <= j < FirstClear(m, n) ==> j in m
  {
    FirstClearFromLeast(m, n, 0);
    NumClearIsSize(m, n);
    if FirstClear(m, n) == ERROR {
      assert Range(n) - m == {};
    } else {
      assert FirstClear(m, n) in Range(n) - m;
    }
  }

  // ----- words -----

  type Shift = k: bv6 | k < 32

  /** Bit number k of a word as a shift count. */
  function ShiftBy(k: nat): bv6 { if k == 0 then 0 else ShiftBy(k - 1) + 1 }

  lemma {:induction false} ShiftByIs(k: nat)
    requires k < 64
    ensures ShiftBy(k) as int == k
  {
    if k > 0 {
      ShiftByIs(k - 1);
      NextShift(ShiftBy(k - 1));
    }
  }

  lemma NextShift(p: bv6)
    requires p < 63
    ensures (p + 1) as int == p as int + 1
  {
  }

  lemma SmallShift(p: bv6)
    requires p as int < 32
    ensures p < 32
  {
  }

  /** The position of bit i in its word: i % BITS_IN_WORD. */
  function Pos(i: int): Shift {
    ShiftByIs(i % 32);
    SmallShift(ShiftBy(i % 32));
    ShiftBy(i % 32)
  }

  lemma PosInjective(i: int, j: int)
    ensures Pos(i) == Pos(j) <==> i % 32 == j % 32
  {
    ShiftByIs(i % 32);
    ShiftByIs(j % 32);
  }

  predicate HasBit(w: bv32, k: Shift) { w & (1 << k) != 0 }

  function WithBit(w: bv32, k: Shift): bv32 { w | (1 << k) }

  function WithoutBit(w: bv32, k: Shift): bv32 { w & !(1 << k) }

  lemma MarkSelf(w: bv32, a: Shift)
    ensures HasBit(WithBit(w, a), a)
  {
  }

  lemma MaskMarkOther(w: bv32, a: Shift, b: Shift)
    requires a != b
    ensures (w | (1 << a)) & (1 << b) == w & (1 << b)
  {
  }

  lemma MarkOther(w: bv32, a: Shift, b: Shift)
    requires a != b
    ensures HasBit(WithBit(w, a), b) == HasBit(w, b)
  {
    MaskMarkOther(w, a, b);
  }

  lemma ClearSelf(w: bv32, a: Shift)
    ensures !HasBit(WithoutBit(w, a), a)
  {
  }

  lemma MaskOther(w: bv32, a: Shift, b: Shift)
    requires a != b
    ensures w & !(1 << a) & (1 << b) == w & (1 << b)
  {
  }

  lemma ClearOther(w: bv32, a: Shift, b: Shift)
    requires a != b
    ensures HasBit(WithoutBit(w, a), b) == HasBit(w, b)
  {
    MaskOther(w, a, b);
  }

  predicate BitSet(words: seq<bv32>, i: int)
    requires 0 <= i < 32 * |words|
  {
    HasBit(words[i / 32], Pos(i))
  }

  /** The set of the marked bits among the first n. */
  function MarksOf(words: seq<bv32>, n: nat): set<int>
    requires n <= 32 * |words|
  {
    if n == 0 then {} else MarksOf(words, n - 1) + if BitSet(words, n - 1) then {n - 1} else {}
  }

  lemma {:induction false} MarksOfMember(words: seq<bv32>, n: nat, i: int)
    requires n <= 32 * |words|
    ensures i in MarksOf(words, n) <==> 0 <= i < n && BitSet(words, i)
  {
    if n > 0 {
      MarksOfMember(words, n - 1, i);
    }
  }

  function MarkIn(words: seq<bv32>, which: int): seq<bv32>
    requires 0 <= which < 32 * |words|
  {
    words[which / 32 := WithBit(words[which / 32], Pos(which))]
  }

  function ClearIn(words: seq<bv32>, which: int): seq<bv32>
    requires 0 <= which < 32 * |words|
  {
    words[which / 32 := WithoutBit(words[which / 32], Pos(which))]
  }

  lemma MarkInAt(words: seq<bv32>, which: int, i: int)
    requires 0 <= which < 32 * |words| && 0 <= i < 32 * |words|
    ensures BitSet(MarkIn(words, which), i) <==> i == which || BitSet(words, i)
  {
    if i == which {
      MarkSelf(words[which / 32], Pos(i));
    } else if i / 32 == which / 32 {
      PosInjective(which, i);
      MarkOther(words[which / 32], Pos(which), Pos(i));
    }
  }

  lemma ClearInAt(words: seq<bv32>, which: int, i: int)
    requires 0 <= which < 32 * |words| && 0 <= i < 32 * |words|
    ensures BitSet(ClearIn(words, which), i) <==> i != which && BitSet(words, i)
  {
    if i == which {
      ClearSelf(words[which / 32], Pos(i));
    } else if i / 32 == which / 32 {
      PosInjective(which, i);
      ClearOther(words[which / 32], Pos(which), Pos(i));
    }
  }

  lemma MarkInMarks(words: seq<bv32>, n: nat, which: int)
    requires 0 <= which < n <= 32 * |words|
    ensures MarksOf(MarkIn(words, which), n) == MarksOf(words, n) + {which}
  {
    forall i
      ensures i in MarksOf(MarkIn(words, which), n) <==> i in MarksOf(words, n) + {which}
    {
      MarksOfMember(words, n, i);
      MarksOfMember(MarkIn(words, which), n, i);
      if 0 <= i < n {
        MarkInAt(words, which, i);
      }
    }
  }

  lemma ClearInMarks(words: seq<bv32>, n: nat, which: int)
    requires 0 <= which < n <= 32 * |words|
    ensures MarksOf(ClearIn(words, which), n) == MarksOf(words, n) - {which}
  {
    forall i
      ensures i in MarksOf(ClearIn(words, which), n) <==> i in MarksOf(words, n) - {which}
    {
      MarksOfMember(words, n, i);
      MarksOfMember(ClearIn(words, which), n, i);
      if 0 <= i < n {
        ClearInAt(words, which, i);
      }
    }
  }

  // ----- words in bytes -----

  function WordByte(w: bv32, j: int): bv8
    requires 0 <= j < 4
  {
    if j == 0 then (w & 0xff) as bv8
    else if j == 1 then ((w >> 8) & 0xff) as bv8
    else if j == 2 then ((w >> 16) & 0xff) as bv8
    else ((w >> 24) & 0xff) as bv8
  }

  function WordOfBytes(b0: bv8, b1: bv8, b2: bv8, b3: bv8): bv32 {
    (b0 as bv32) | ((b1 as bv32) << 8) | ((b2 as bv32) << 16) | ((b3 as bv32) << 24)
  }

  lemma ByteOfWord(b0: bv8, b1: bv8, b2: bv8, b3: bv8)
    ensures var w := WordOfBytes(b0, b1, b2, b3);
            WordByte(w, 0) == b0 && WordByte(w, 1) == b1 && WordByte(w, 2) == b2 && WordByte(w, 3) == b3
  {
  }

  function ByteOf(v: bv8): byte { v as int }

  /** The byte b as a bit vector, see ByteRoundTrip. */
  function OctetOf(b: nat): bv8 { if b == 0 then 0 else OctetOf(b - 1) + 1 }

  lemma NextOctet(v: bv8)
    requires v as int < 255
    ensures (v + 1) as int == v as int + 1
  {
  }

  lemma {:induction false} ByteRoundTrip(b: nat)
    requires b < 256
    ensures ByteOf(OctetOf(b)) == b
  {
    if b > 0 {
      ByteRoundTrip(b - 1);
      NextOctet(OctetOf(b - 1));
    }
  }

  /** The bytes that the array of words occupies, and back. */
  function BytesOfWords(words: seq<bv32>): (b: seq<byte>)
    ensures |b| == 4 * |words|
  {
    seq<byte>(4 * |words|, k requires 0 <= k < 4 * |words| => ByteOf(WordByte(words[k / 4], k % 4)))
  }

  function WordsOfBytes(b: seq<byte>): (words: seq<bv32>)
    ensures |words| == |b| / 4
  {
    seq(|b| / 4, i requires 0 <= i < |b| / 4 =>
      WordOfBytes(OctetOf(b[4 * i]), OctetOf(b[4 * i + 1]), OctetOf(b[4 * i + 2]), OctetOf(b[4 * i + 3])))
  }

  lemma ByteInWord(words: seq<bv32>, i: nat, j: nat)
    requires i < |words| && j < 4
    ensures BytesOfWords(words)[4 * i + j] == ByteOf(WordByte(words[i], j))
  {
    assert (4 * i + j) / 4 == i && (4 * i + j) % 4 == j;
  }

  /** Reading words and writing them back gives the same bytes. */
  lemma WordsRoundTrip(b: seq<byte>)
    requires |b| % 4 == 0
    ensures BytesOfWords(WordsOfBytes(b)) == b
  {
    forall k | 0 <= k < |b|
      ensures BytesOfWords(WordsOfBytes(b))[k] == b[k]
    {
      WordsRoundTripAt(b, k / 4, k % 4);
    }
  }

  lemma WordsRoundTripAt(b: seq<byte>, i: nat, j: nat)
    requires |b| % 4 == 0 && 4 * i < |b| && j < 4
    ensures BytesOfWords(WordsOfBytes(b))[4 * i + j] == b[4 * i + j]
  {
    var b0, b1, b2, b3 := b[4 * i], b[4 * i + 1], b[4 * i + 2], b[4 * i + 3];
    assert b[4 * i + j] == if j == 0 then b0 else if j == 1 then b1 else if j == 2 then b2 else b3;
    assert WordsOfBytes(b)[i] == WordOfBytes(OctetOf(b0), OctetOf(b1), OctetOf(b2), OctetOf(b3));
    ByteInWord(WordsOfBytes(b), i, j);
    ByteOfWord(OctetOf(b0), OctetOf(b1), OctetOf(b2), OctetOf(b3));
    ByteRoundTrip(b[4 * i + j]);
  }

  // ----- bits of bytes -----

  /** Bit k of a byte. */
  predicate ByteBit(b: nat, k: nat)
    decreases k
  {
    if k == 0 then b % 2 == 1 else ByteBit(b / 2, k - 1)
  }

  /** Bit i of the bytes of a bitmap. */
  predicate FileBit(bytes: seq<byte>, i: nat)
    requires i < 8 * |bytes|
  {
    ByteBit(bytes[i / 8], i % 8)
  }

  /** The set of the bits among the first n that are set in the bytes. */
  function MarksIn(bytes: seq<byte>, n: nat): set<int>
    requires n <= 8 * |bytes|
  {
    if n == 0 then {} else MarksIn(bytes, n - 1) + if FileBit(bytes, n - 1) then {n - 1} else {}
  }

  predicate OctetBit(v: bv8, p: bv6)
    requires p < 8
  {
    v & (1 << p) != 0
  }

  lemma OctetShift(v: bv8, p: bv6)
    requires p < 7
    ensures OctetBit(v, p + 1) == OctetBit(v >> 1, p)
  {
  }

  lemma OctetHalf(v: bv8)
    ensures (v >> 1) as int == v as int / 2
    ensures OctetBit(v, 0) <==> v as int % 2 == 1
  {
  }

  lemma SmallStep(p: bv6)
    requires p as int < 8
    ensures p < 8
  {
  }

  lemma ShiftSmall(k: nat)
    requires k < 8
    ensures ShiftBy(k) < 8 && (k > 0 ==> ShiftBy(k - 1) < 7)
  {
    ShiftByIs(k);
    SmallStep(ShiftBy(k));
    if k > 0 {
      ShiftByIs(k - 1);
      SmallStep(ShiftBy(k - 1));
    }
  }

  lemma {:induction false} OctetIsByte(v: bv8, k: nat)
    requires k < 8 && ShiftBy(k) < 8
    ensures OctetBit(v, ShiftBy(k)) <==> ByteBit(ByteOf(v), k)
    decreases k
  {
    OctetHalf(v);
    if k > 0 {
      ShiftSmall(k);
      OctetIsByte(v >> 1, k - 1);
      OctetShift(v, ShiftBy(k - 1));
    }
  }

  lemma WordOctet0(w: bv32, p: bv6)
    requires p < 8
    ensures HasBit(w, p) == OctetBit(WordByte(w, 0), p)
  {
  }

  lemma WordOctet1(w: bv32, p: bv6)
    requires p < 8
    ensures HasBit(w, p + 8) == OctetBit(WordByte(w, 1), p)
  {
  }

  lemma WordOctet2(w: bv32, p: bv6)
    requires p < 8
    ensures HasBit(w, p + 16) == OctetBit(WordByte(w, 2), p)
  {
  }

  lemma WordOctet3(w: bv32, p: bv6)
    requires p < 8
    ensures HasBit(w, p + 24) == OctetBit(WordByte(w, 3), p)
  {
  }

  lemma {:induction false} ShiftByAdd(a: nat, b: nat)
    ensures ShiftBy(a + b) == ShiftBy(a) + ShiftBy(b)
    decreases b
  {
    if b > 0 {
      ShiftByAdd(a, b - 1);
    }
  }

  lemma Shift8(j: nat)
    requires j < 4
    ensures ShiftBy(8 * j) == if j == 0 then 0 else if j == 1 then 8 else if j == 2 then 16 else 24
  {
    assert ShiftBy(4) == 4;
    ShiftByAdd(4, 4);
    ShiftByAdd(8, 8);
    ShiftByAdd(16, 8);
  }

  lemma PosBelow32(i: nat)
    requires i < 32
    ensures Pos(i) == ShiftBy(i)
  {
    var r := i % 32;
    assert r == i;
  }

  lemma PosOfPlace(base: nat, k: nat)
    requires base + k < 32
    ensures Pos(base + k) == ShiftBy(k) + ShiftBy(base)
  {
    PosBelow32(base + k);
    ShiftByAdd(base, k);
  }

  lemma WordBitIsOctetBit(w: bv32, j: nat, k: nat)
    requires j < 4 && k < 8 && ShiftBy(k) < 8
    ensures HasBit(w, Pos(8 * j + k)) == OctetBit(WordByte(w, j), ShiftBy(k))
  {
    PosOfPlace(8 * j, k);
    Shift8(j);
    if j == 0 {
      WordOctet0(w, ShiftBy(k));
    } else if j == 1 {
      WordOctet1(w, ShiftBy(k));
    } else if j == 2 {
      WordOctet2(w, ShiftBy(k));
    } else {
      WordOctet3(w, ShiftBy(k));
    }
  }

  lemma WordBitIsByteBit(w: bv32, j: nat, k: nat)
    requires j < 4 && k < 8
    ensures HasBit(w, Pos(8 * j + k)) <==> ByteBit(ByteOf(WordByte(w, j)), k)
  {
    ShiftSmall(k);
    OctetIsByte(WordByte(w, j), k);
    WordBitIsOctetBit(w, j, k);
  }

  lemma BitIsFileBit(words: seq<bv32>, i: nat)
    requires i < 32 * |words|
    ensures BitSet(words, i) <==> FileBit(BytesOfWords(words), i)
  {
    var j, k := i % 32 / 8, i % 8;
    WordBitIsByteBit(words[i / 32], j, k);
    ByteInWord(words, i / 32, j);
    assert i / 8 == 4 * (i / 32) + j && 8 * j + k == i % 32;
    assert Pos(i) == Pos(8 * j + k);
  }

  /** The words mark the same bits as the bytes they occupy. */
  lemma {:induction false} MarksOfIsMarksIn(words: seq<bv32>, n: nat)
    requires n <= 32 * |words|
    ensures MarksOf(words, n) == MarksIn(BytesOfWords(words), n)
  {
    if n > 0 {
      MarksOfIsMarksIn(words, n - 1);
      BitIsFileBit(words, n - 1);
    }
  }

  // ----- the class -----

  class BitMap {
    const numBits: nat
    var words: seq<bv32>

    ghost predicate Valid()
      reads this
    {
      |words| == DivRoundUp(numBits, 32) && numBits <= 32 * |words|
    }

    ghost function Marks(): set<int>
      requires Valid()
      reads this
    {
      MarksOf(words, numBits)
    }

    /** Clears every bit of storage whose initial contents are arbitrary. */
    constructor (nitems: nat, storage: seq<bv32>)
      requires |storage| == DivRoundUp(nitems, 32)
      ensures Valid() && numBits == nitems
      ensures Marks() == {}
    {
      numBits := nitems;
      words := storage;
      DivRoundUpIsCeiling(nitems, 32);
      TimesIs(DivRoundUp(nitems, 32), 32);
      new;
      for i := 0 to numBits
        invariant Valid()
        invariant forall k :: 0 <= k < i ==> k !in Marks()
      {
        Clear(i);
      }
      forall k
        ensures k !in Marks()
      {
        MarksOfMember(words, numBits, k);
      }
    }

    method Mark(which: int)
      requires Valid() && 0 <= which < numBits
      modifies this
      ensures Valid() && Marks() == old(Marks()) + {which}
    {
      MarkInMarks(words, numBits, which);
      words := MarkIn(words, which);
    }

    method Clear(which: int)
      requires Valid() && 0 <= which < numBits
      modifies this
      ensures Valid() && Marks() == old(Marks()) - {which}
    {
      ClearInMarks(words, numBits, which);
      words := ClearIn(words, which);
    }

    method Test(which: int) returns (marked: bool)
      requires Valid() && 0 <= which < numBits
      ensures marked <==> which in Marks()
    {
      MarksOfMember(words, numBits, which);
      marked := HasBit(words[which / 32], Pos(which));
    }

    /** Finds the least clear bit and marks it. */
    method Find() returns (r: int)
      requires Valid()
      modifies this
      ensures Valid()
      ensures r == FirstClear(old(Marks()), numBits)
      ensures Marks() == if r == ERROR then old(Marks()) else old(Marks()) + {r}
    {
      for i := 0 to numBits
        invariant Valid() && Marks() == old(Marks())
        invariant FirstClear(Marks(), numBits) == FirstClearFrom(Marks(), numBits, i)
      {
        var t := Test(i);
        if !t {
          Mark(i);
          return i;
        }
      }
      r := ERROR;
    }

    method NumClear() returns (count: int)
      requires Valid()
      ensures count == NumClearOf(Marks(), numBits)
    {
      count := 0;
      for i := 0 to numBits
        invariant count == NumClearOf(Marks(), i)
      {
        var t := Test(i);
        if !t {
          count := count + 1;
        }
      }
    }
  }

  // ----- taking several sectors -----

  /** The sectors n successive Find calls return. */
  function Grab(m: set<int>, n: nat): (r: seq<int>)
    ensures |r| == n
    decreases n
  {
    if n == 0 then [] else
      var x := FirstClear(m, NUM_SECTORS);
      [x] + Grab(m + {x}, n - 1)
  }

  /** The set of the elements of s. */
  function SetOf(s: seq<int>): set<int> {
    if s == [] then {} else SetOf(s[..|s| - 1]) + {s[|s| - 1]}
  }

  lemma {:induction false} SetOfIs(s: seq<int>)
    ensures forall x :: x in SetOf(s) <==> x in s
  {
    if s != [] {
      SetOfIs(s[..|s| - 1]);
      assert s == s[..|s| - 1] + [s[|s| - 1]];
    }
  }

  lemma {:induction false} SetOfAppend(s: seq<int>, t: seq<int>)
    ensures SetOf(s + t) == SetOf(s) + SetOf(t)
  {
    if t == [] {
      assert s + t == s;
    } else {
      var t' := t[..|t| - 1];
      SetOfAppend(s, t');
      assert (s + t)[..|s + t| - 1] == s + t';
    }
  }

  ghost predicate InRange(s: seq<int>) { forall i :: 0 <= i < |s| ==> 0 <= s[i] < NUM_SECTORS }

  lemma {:induction false} GrabStep(m: set<int>, n: nat)
    requires 0 < n <= NumClearOf(m, NUM_SECTORS)
    ensures var x := FirstClear(m, NUM_SECTORS);
            0 <= x < NUM_SECTORS && x !in m &&
            n - 1 <= NumClearOf(m + {x}, NUM_SECTORS) == NumClearOf(m, NUM_SECTORS) - 1
  {
    FirstClearLeast(m, NUM_SECTORS);
    NumClearMark(m, NUM_SECTORS, {FirstClear(m, NUM_SECTORS)});
  }

  /** With enough clear bits, n Find calls never fail and return n distinct
      sectors that were clear, ... */
  lemma {:induction false} GrabFresh(m: set<int>, n: nat)
    requires n <= NumClearOf(m, NUM_SECTORS)
    ensures NoDup(Grab(m, n)) && InRange(Grab(m, n))
    ensures forall i :: 0 <= i < n ==> Grab(m, n)[i] !in m
    decreases n
  {
    if n > 0 {
      GrabStep(m, n);
      var x := FirstClear(m, NUM_SECTORS);
      GrabFresh(m + {x}, n - 1);
      assert forall i :: 1 <= i < n ==> Grab(m, n)[i] == Grab(m + {x}, n - 1)[i - 1];
    }
  }

  lemma {:induction false} NoDupSize(s: seq<int>)
    requires NoDup(s)
    ensures |SetOf(s)| == |s|
  {
    if |s| > 0 {
      var t := s[..|s| - 1];
      NoDupSize(t);
      SetOfIs(t);
    }
  }

  /** ... and they use up exactly n clear bits. */
  lemma GrabCount(m: set<int>, n: nat)
    requires n <= NumClearOf(m, NUM_SECTORS)
    ensures NumClearOf(m + SetOf(Grab(m, n)), NUM_SECTORS) == NumClearOf(m, NUM_SECTORS) - n
  {
    GrabFresh(m, n);
    SetOfIs(Grab(m, n));
    NoDupSize(Grab(m, n));
    NumClearMark(m, NUM_SECTORS, SetOf(Grab(m, n)));
  }

  /** Taking j sectors and then one more. */
  lemma {:induction false} GrabSnoc(m: set<int>, j: nat)
    ensures Grab(m, j + 1) == Grab(m, j) + [FirstClear(m + SetOf(Grab(m, j)), NUM_SECTORS)]
    decreases j
  {
    var x := FirstClear(m, NUM_SECTORS);
    if j == 0 {
      assert m + SetOf(Grab(m, 0)) == m;
      assert Grab(m, 1) == [x] + Grab(m + {x}, 0);
    } else {
      GrabSnoc(m + {x}, j - 1);
      var rest := Grab(m + {x}, j - 1);
      SetOfAppend([x], rest);
      assert SetOf([x]) == {x};
      assert m + SetOf([x] + rest) == (m + {x}) + SetOf(rest);
    }
  }
}
