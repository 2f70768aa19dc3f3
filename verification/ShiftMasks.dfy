/**
 The masks that turn C's arithmetic right shift into a logical one
 (machine/machine.cc, lines 278 to 284, 634 to 671 and 761 to 770). Registers
 are signed numbers; & works on their two's complement bits.
 */
module ShiftMasks {
  import opened Layout

  function Pow2(n: nat): (p: nat)
    ensures p > 0
  {
    if n == 0 then 1 else 2 * Pow2(n - 1)
  }

  /** Division that rounds down, and its remainder, for dividends of either sign. */
  function Floor(x: int, m: nat): int
    requires m > 0
    decreases if x < 0 then -x + m else x
  {
    if x < 0 then Floor(x + m, m) - 1 else if x < m then 0 else Floor(x - m, m) + 1
  }

  function Rest(x: int, m: nat): (r: nat)
    requires m > 0
    ensures r < m
    decreases if x < 0 then -x + m else x
  {
    if x < 0 then Rest(x + m, m) else if x < m then x else Rest(x - m, m)
  }

  /** Bitwise and of two unsigned numbers. */
  function BitAnd(a: nat, b: nat): nat {
    if a == 0 || b == 0 then 0 else a % 2 * (b % 2) + 2 * BitAnd(a / 2, b / 2)
  }

  /** C's >> on a signed operand rounds down. */
  function ArithmeticShift(x: int, k: nat): int { Floor(x, Pow2(k)) }

  /** The bits of a number in a register of w bits, as an unsigned number. */
  function BitsOf(x: int, w: nat): nat { Rest(x, Pow2(w)) }

  predicate FitsIn(x: int, w: nat)
    requires w > 0
  {
    0 - Pow2(w - 1) <= x < Pow2(w - 1)
  }

  /** The logical shift of the specification: zeros come in at the top. */
  function LogicalShift(x: int, w: nat, k: nat): int { Floor(BitsOf(x, w), Pow2(k)) }

  // ----- quotients and remainders -----

  lemma {:induction false} FloorUp(q: nat, m: nat, r: nat)
    requires r < m
    ensures Floor(Times(q, m) + r, m) == q && Rest(Times(q, m) + r, m) == r
  {
    if q > 0 {
      FloorUp(q - 1, m, r);
    }
  }

  lemma {:induction false} FloorDown(q: nat, m: nat, r: nat)
    requires r < m
    ensures Floor(r - Times(q, m), m) == 0 - q && Rest(r - Times(q, m), m) == r
  {
    if q > 0 {
      FloorDown(q - 1, m, r);
    }
  }

  lemma {:induction false} Euclid(x: nat, m: nat)
    requires m > 0
    ensures Floor(x, m) >= 0 && x == Times(Floor(x, m), m) + Rest(x, m)
    decreases x
  {
    if x >= m {
      Euclid(x - m, m);
    }
  }

  /** These are the usual quotient and remainder. */
  lemma FloorIsDivision(x: int, m: nat)
    requires m > 0
    ensures Floor(x, m) == x / m && Rest(x, m) == x % m
  {
    var q, r := x / m, x % m;
    assert x == q * m + r;
    if q >= 0 {
      TimesIs(q, m);
      FloorUp(q, m, r);
    } else {
      TimesIs(-q, m);
      FloorDown(-q, m, r);
    }
  }

  lemma {:induction false} Pow2Add(a: nat, b: nat)
    ensures Pow2(a + b) == Times(Pow2(a), Pow2(b))
  {
    if a > 0 {
      Pow2Add(a - 1, b);
      TimesAdd(Pow2(a - 1), Pow2(a - 1), Pow2(b));
    } else {
      assert Times(1, Pow2(b)) == Times(0, Pow2(b)) + Pow2(b);
    }
  }

  // ----- the masks -----

  /** The loop of Run that fills the masks: entry k has the low 64 - k bits set. */
  method InitShiftMask() returns (shiftMask: seq<nat>)
    ensures |shiftMask| == 64 && forall k :: 0 <= k < 64 ==> shiftMask[k] == Pow2(64 - k) - 1
  {
    shiftMask := [];
    var value: nat := 0xffffffff;
    value := value * 0x1_0000_0000 + value;
    Pow2Of64();
    for i := 0 to 64
      invariant value == Pow2(64 - i) - 1 && |shiftMask| == i
      invariant forall k :: 0 <= k < i ==> shiftMask[k] == Pow2(64 - k) - 1
    {
      shiftMask := shiftMask + [value];
      value := value / 2;
    }
  }

  lemma Pow2Of64()
    ensures Pow2(64) == 0x1_0000_0000_0000_0000
  {
    assert Pow2(4) == 16;
    Pow2Add(4, 4);
    TimesIs(16, 16);
    Pow2Add(8, 8);
    TimesIs(256, 256);
    Pow2Add(16, 16);
    TimesIs(0x1_0000, 0x1_0000);
    Pow2Add(32, 32);
    TimesIs(0x1_0000_0000, 0x1_0000_0000);
  }

  /** Masking with n ones is taking the remainder by 2^n. */
  lemma {:induction false} AndMask(a: nat, n: nat)
    ensures BitAnd(a, Pow2(n) - 1) == Rest(a, Pow2(n))
    decreases n
  {
    if a > 0 {
      if n > 0 {
        AndMask(a / 2, n - 1);
        AndMaskStep(a, Pow2(n - 1));
        LastBit(a, Pow2(n - 1));
      }
    }
  }

  lemma AndMaskStep(a: nat, m: nat)
    requires a > 0 && m > 0
    ensures BitAnd(a, 2 * m - 1) == a % 2 + 2 * BitAnd(a / 2, m - 1)
  {
    var b := 2 * m - 1;
    assert b / 2 == m - 1 && b % 2 == 1;
  }

  lemma {:induction false} LastBit(a: nat, m: nat)
    requires m > 0
    ensures Rest(a, 2 * m) == a % 2 + 2 * Rest(a / 2, m)
    decreases a
  {
    if a >= 2 * m {
      var b := a - 2 * m;
      LastBit(b, m);
      assert b / 2 == a / 2 - m && b % 2 == a % 2;
    }
  }

  // ----- masking undoes the sign extension -----

  lemma UnsignedIs(x: int, w: nat)
    requires w > 0 && FitsIn(x, w)
    ensures BitsOf(x, w) == if x < 0 then x + Pow2(w) else x
  {
    assert Pow2(w) == 2 * Pow2(w - 1);
    RestNear(x, Pow2(w));
  }

  lemma RestNear(x: int, m: nat)
    requires m > 0 && 0 - m <= x < m
    ensures Rest(x, m) == if x < 0 then x + m else x
  {
    if x < 0 {
      assert Rest(x + m, m) == x + m;
    }
  }

  lemma QuotientBound(u: nat, m: nat, n: nat)
    requires m > 0 && u < Times(n, m)
    ensures 0 <= Floor(u, m) < n
  {
    Euclid(u, m);
    if Floor(u, m) >= n {
      TimesMono(n, Floor(u, m), m);
    }
  }

  /** The arithmetic shift of a w-bit number, in terms of the logical one. */
  lemma ShiftOfBits(x: int, w: nat, k: nat)
    requires k <= w && w > 0 && FitsIn(x, w)
    ensures 0 <= LogicalShift(x, w, k) < Pow2(w - k)
    ensures ArithmeticShift(x, k) == LogicalShift(x, w, k) - (if x < 0 then Pow2(w - k) else 0)
  {
    var m, n, u := Pow2(k), Pow2(w - k), BitsOf(x, w);
    Pow2Add(w - k, k);
    UnsignedIs(x, w);
    QuotientBound(u, m, n);
    if x < 0 {
      var q, r := Floor(u, m), Rest(u, m);
      Euclid(u, m);
      TimesAdd(q, n - q, m);
      FloorDown(n - q, m, r);
    }
  }

  /** Cut to `width` bits and then to n, a number keeps its lowest bits. */
  lemma CutTwice(y: int, q: nat, n: nat, width: nat)
    requires n <= width && q < Pow2(n) && (y == q || y == q - Pow2(n))
    ensures Rest(BitsOf(y, width), Pow2(n)) == q
  {
    var m, j := Pow2(n), Pow2(width - n);
    Pow2Add(width - n, n);
    TimesMono(1, j, m);
    assert Times(1, m) == Times(0, m) + m;
    RestNear(y, Pow2(width));
    RestNear(q, m);
    if y != q {
      TimesAdd(j - 1, 1, m);
      FloorUp(j - 1, m, q);
    }
  }

  /** The shifts in terms of division: C's >> divides the number and rounds
      down, the logical shift divides its bits. */
  lemma ShiftsAreDivisions(x: int, w: nat, k: nat)
    ensures ArithmeticShift(x, k) == x / Pow2(k) && LogicalShift(x, w, k) == x % Pow2(w) / Pow2(k)
  {
    FloorIsDivision(x, Pow2(k));
    FloorIsDivision(x, Pow2(w));
    FloorIsDivision(BitsOf(x, w), Pow2(k));
  }

  /** The arithmetic shift of a w-bit number, held in a wider register and
      masked with w - k ones, is the logical shift of w bits. In SRLI and SRL, w
      and width are 64; in SRLIW, w is 32 and the mask is entry 32 + k. */
  lemma MaskedShiftIsLogical(x: int, w: nat, k: nat, width: nat)
    requires 0 < w <= width && k < w && FitsIn(x, w)
    ensures BitAnd(BitsOf(ArithmeticShift(x, k), width), Pow2(w - k) - 1) == LogicalShift(x, w, k)
  {
    ShiftOfBits(x, w, k);
    CutTwice(ArithmeticShift(x, k), LogicalShift(x, w, k), w - k, width);
    AndMask(BitsOf(ArithmeticShift(x, k), width), w - k);
  }
}
