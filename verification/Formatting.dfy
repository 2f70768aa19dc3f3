/**
 The formatted output and the integer parser of the user library
 (userlib/libnachos.c): n_vsnprintf and n_atoi.
 */
module Formatting {
  import opened Basics
  import opened Layout

  /** A string without its terminating zero. */
  type Text = seq<byte>

  const ZERO: byte := 48
  const MINUS: byte := 45
  const PERCENT: byte := 37

  // ----- numbers as text -----

  function Digit(d: int): byte
    requires 0 <= d < 16
  {
    if d < 10 then ZERO + d else 97 + (d - 10)
  }

  /** The usual notation in base 10 or 16, without leading zeros. */
  function Notation(n: nat, base: int): (t: Text)
    requires base == 10 || base == 16
    ensures |t| > 0
    decreases n
  {
    if n < base then [Digit(n)] else Notation(n / base, base) + [Digit(n % base)]
  }

  function Abs(v: int): nat { if v < 0 then -v else v }

  function Decimal(v: int): Text { (if v < 0 then [MINUS] else []) + Notation(Abs(v), 10) }

  predicate IsInt64(v: int) { -0x8000_0000_0000_0000 <= v < 0x8000_0000_0000_0000 }

  function Power(base: int, n: nat): int
    requires base >= 1
    ensures Power(base, n) >= 1
  {
    if n == 0 then 1 else base * Power(base, n - 1)
  }

  /** A number below base^k has at most k digits. */
  lemma {:induction false} NotationLength(n: nat, base: int, k: nat)
    requires (base == 10 || base == 16) && k > 0 && n < Power(base, k)
    ensures |Notation(n, base)| <= k
    decreases n
  {
    if n >= base {
      assert n / base < Power(base, k - 1);
      NotationLength(n / base, base, k - 1);
    }
  }

  // ----- formats -----

  datatype Arg = Word(v: int) | LongWord(v: int) | Str(s: Option<Text>)

  /** What the format says at a position. */
  datatype Item = Plain(t: Text) | DecimalItem | LongDecimalItem | HexItem | LongHexItem | CharItem | StringItem

  datatype Parsed = Parsed(item: Item, width: nat)

  const CH_C: byte := 99
  const CH_D: byte := 100
  const CH_I: byte := 105
  const CH_L: byte := 108
  const CH_S: byte := 115
  const CH_X: byte := 120

  /** Whether a % or %l at position i has nothing behind it. */
  predicate Dangling(f: Text, i: nat) {
    i < |f| && f[i] == PERCENT && (i + 1 >= |f| || (f[i + 1] == CH_L && i + 2 >= |f|))
  }

  function ItemAt(f: Text, i: nat): (p: Parsed)
    requires i < |f| && !Dangling(f, i)
    ensures 0 < p.width && i + p.width <= |f|
  {
    if f[i] != PERCENT then Parsed(Plain([f[i]]), 1)
    else if f[i + 1] == PERCENT then Parsed(Plain([PERCENT]), 2)
    else if f[i + 1] == CH_I || f[i + 1] == CH_D then Parsed(DecimalItem, 2)
    else if f[i + 1] == CH_L then
      (if f[i + 2] == CH_D then Parsed(LongDecimalItem, 3)
       else if f[i + 2] == CH_X then Parsed(LongHexItem, 3)
       else Parsed(Plain([PERCENT, CH_L, f[i + 2]]), 3))
    else if f[i + 1] == CH_C then Parsed(CharItem, 2)
    else if f[i + 1] == CH_S then Parsed(StringItem, 2)
    else if f[i + 1] == CH_X then Parsed(HexItem, 2)
    else Parsed(Plain([PERCENT, f[i + 1]]), 2)
  }

  /** The argument has the type that the item takes from the list. */
  predicate Fits(item: Item, arg: Arg) {
    match item
    case Plain(_) => true
    case DecimalItem => arg.Word? && IsInt32(arg.v)
    case LongDecimalItem => arg.LongWord? && IsInt64(arg.v)
    case HexItem => arg.Word? && IsInt32(arg.v)
    case LongHexItem => arg.LongWord? && IsInt64(arg.v)
    case CharItem => arg.Word? && IsInt32(arg.v)
    case StringItem => arg.Str?
  }

  function Uses(item: Item): nat { if item.Plain? then 0 else 1 }

  const NULL_TEXT: Text := [40, 110, 117, 108, 108, 41]

  /** The text that an item stands for. */
  function Render(item: Item, arg: Arg): Text
    requires Fits(item, arg)
  {
    match item
    case Plain(t) => t
    case DecimalItem => Decimal(arg.v)
    case LongDecimalItem => Decimal(arg.v)
    case HexItem => Notation(arg.v % 0x1_0000_0000, 16)
    case LongHexItem => Notation(arg.v % 0x1_0000_0000_0000_0000, 16)
    case CharItem => [arg.v % 256]
    case StringItem => if arg.s.Some? then arg.s.value else NULL_TEXT
  }

  function ArgAt(args: seq<Arg>, k: nat): Arg { if k < |args| then args[k] else Word(0) }

  /** No % or %l is left dangling and every argument has the type its item takes. */
  predicate Formattable(f: Text, i: nat, args: seq<Arg>, k: nat)
    decreases |f| - i
  {
    i >= |f| ||
    (!Dangling(f, i) &&
     var p := ItemAt(f, i);
     k + Uses(p.item) <= |args| && Fits(p.item, ArgAt(args, k)) && Formattable(f, i + p.width, args, k + Uses(p.item)))
  }

  /** The whole output, however long it is. */
  function Output(f: Text, i: nat, args: seq<Arg>, k: nat): Text
    requires Formattable(f, i, args, k)
    decreases |f| - i
  {
    if i >= |f| then [] else
      var p := ItemAt(f, i);
      Render(p.item, ArgAt(args, k)) + Output(f, i + p.width, args, k + Uses(p.item))
  }

  // ----- the output buffer -----

  function Min(a: int, b: int): int { if a < b then a else b }

  /** The buffer after the text has been put: as much of it as fits before the
      last place, and the rest of the buffer as it was. */
  ghost predicate Holds(buff: Text, before: Text, len: int, text: Text) {
    var m := Min(|text|, len - 1);
    && 1 <= len <= |before| == |buff|
    && buff[..m] == text[..m] && buff[m..] == before[m..]
  }

  lemma HoldsNext(buff: Text, before: Text, len: int, text: Text, c: byte)
    requires Holds(buff, before, len, text)
    ensures Holds(if |text| < len - 1 then buff[|text| := c] else buff, before, len, text + [c])
  {
  }

  /** The variables of n_vsnprintf that PUTCHAR works on. */
  class Sink {
    const buff: array<byte>
    const len: int
    var result: nat
    ghost const before: Text
    ghost var text: Text

    ghost predicate Valid()
      reads this, buff
    {
      result == |text| && Holds(buff[..], before, len, text)
    }

    constructor (buff: array<byte>, len: int)
      requires 1 <= len <= buff.Length
      ensures Valid() && text == [] && this.buff == buff && this.len == len && before == buff[..]
    {
      this.buff, this.len, this.before := buff, len, buff[..];
      result, text := 0, [];
    }

    method PutChar(c: byte)
      requires Valid()
      modifies this`result, this`text, buff
      ensures Valid() && text == old(text) + [c]
    {
      HoldsNext(buff[..], before, len, text, c);
      if result < len - 1 {
        buff[result] := c;
      }
      result := result + 1;
      text := text + [c];
    }

    method PutText(t: Text)
      requires Valid()
      modifies this`result, this`text, buff
      ensures Valid() && text == old(text) + t
    {
      for i := 0 to |t|
        invariant Valid() && text == old(text) + t[..i]
      {
        PutChar(t[i]);
      }
    }

    method PutBackwards(digits: Text)
      requires Valid()
      modifies this`result, this`text, buff
      ensures Valid() && text == old(text) + Backwards(digits)
    {
      var n := |digits|;
      assert digits[..n] == digits;
      while n > 0
        invariant Valid() && 0 <= n <= |digits| && text + Backwards(digits[..n]) == old(text) + Backwards(digits)
      {
        BackwardsLast(digits[..n]);
        n := n - 1;
        assert digits[..n + 1][..n] == digits[..n];
        PutChar(digits[n]);
      }
    }

    /** %d and %ld: the digits are collected backwards in a buffer of the given size. */
    method PutDecimal(v: int, size: nat)
      requires Valid() && size > 0 && Abs(v) < Power(10, size)
      modifies this`result, this`text, buff
      ensures Valid() && text == old(text) + Decimal(v)
    {
      if v < 0 {
        PutChar(MINUS);
      }
      NotationLength(Abs(v), 10, size);
      var digits, n := CollectDigits(v, size);
      PutBackwards(digits[..n]);
      Associate(old(text), if v < 0 then [MINUS] else [], Notation(Abs(v), 10));
    }

    method PutNibble(nb: nat, seen: bool) returns (nonzero: bool)
      requires Valid() && nb < 16
      modifies this`result, this`text, buff
      ensures Valid() && nonzero == (seen || nb != 0)
      ensures text == old(text) + if nonzero then [Digit(nb)] else []
    {
      nonzero := seen;
      if nb == 0 {
        if nonzero {
          PutChar(ZERO);
        }
      } else {
        nonzero := true;
        PutChar(if nb < 10 then ZERO + nb else 97 + (nb - 10));
      }
    }

    /** %x and %lx: count nibbles from the highest; leading zeros are skipped. */
    method PutHex(v: nat, count: nat)
      requires Valid() && count > 0 && v < Power(16, count)
      modifies this`result, this`text, buff
      ensures Valid() && text == old(text) + Notation(v, 16)
    {
      var nonzero := false;
      TopEnds(v, count);
      for i := 0 to count
        invariant Valid() && nonzero == (Top(v, count - i) != 0)
        invariant text == old(text) + if nonzero then Notation(Top(v, count - i), 16) else []
      {
        var nb := NibbleAt(v, i, count);
        NextPrefix(v, count - i);
        NotationStep(Top(v, count - i), Top(v, count - i - 1), nb);
        nonzero := PutNibble(nb, nonzero);
      }
      if !nonzero {
        PutChar(ZERO);
      }
    }
  }

  // ----- nibbles -----

  /** Nibble i from the top of a word of count nibbles: shift it to the top,
      cut the word, and shift it down. */
  function Nibble(v: nat, i: nat, count: nat): (nb: nat)
    requires i < count
    ensures nb < 16
  {
    (v * Power(16, i) % Power(16, count)) / Power(16, count - 1) % 16
  }

  method NibbleAt(v: nat, i: nat, count: nat) returns (nb: nat)
    requires i < count
    ensures nb == Top(v, count - i - 1) % 16
  {
    NibbleIs(v, i, count);
    nb := (v * Power(16, i) % Power(16, count)) / Power(16, count - 1) % 16;
  }

  lemma TopEnds(v: nat, count: nat)
    requires v < Power(16, count)
    ensures Top(v, count) == 0 && Top(v, 0) == v
  {
    DivModIs(v, Power(16, count), 0, v);
  }

  lemma {:induction false} PowerAdd(a: nat, b: nat)
    ensures Power(16, a + b) == Power(16, a) * Power(16, b)
  {
    if a > 0 {
      PowerAdd(a - 1, b);
      assert Power(16, a + b) == 16 * Power(16, a + b - 1);
      assert 16 * (Power(16, a - 1) * Power(16, b)) == (16 * Power(16, a - 1)) * Power(16, b);
    }
  }

  lemma DivModIs(n: nat, m: nat, q: nat, r: nat)
    requires r < m && n == q * m + r
    ensures n / m == q && n % m == r
  {
    TimesIs(q, m);
    QuotientUnique(n, m, q, r);
    QuotientIs(n, m);
  }

  lemma Euclid(n: nat, m: nat)
    requires m > 0
    ensures n == n / m * m + n % m && 0 <= n % m < m && 0 <= n / m
  {
  }

  lemma Distribute(a: int, x: int, b: int, c: int)
    ensures (a * x + b) * c == a * (c * x) + b * c
  {
  }

  lemma Regroup(a: int, x: int, q: int, r: int)
    ensures a * (16 * x) + (q * x + r) == (16 * a + q) * x + r
  {
  }

  lemma LessTimes(b: nat, x: nat, c: nat)
    requires b < x && c > 0
    ensures b * c < c * x
  {
    TimesMono(b, x, c);
    TimesIs(b, c);
    TimesIs(x, c);
  }

  lemma SmallQuotient(q: nat, x: nat, r: nat)
    requires q * x + r < 16 * x
    ensures q < 16
  {
    if q >= 16 {
      TimesMono(16, q, x);
      TimesIs(16, x);
      TimesIs(q, x);
    }
  }

  lemma ShiftedTop(v: nat, c: nat, x: nat, a: nat, b: nat)
    requires c > 0 && x > 0 && v == a * (16 * x) + b && b < 16 * x
    requires c * x > 0 && c * (16 * x) > 0
    ensures (v * c % (c * (16 * x))) / (c * x) == b / x
  {
    Distribute(a, 16 * x, b, c);
    LessTimes(b, 16 * x, c);
    DivModIs(v * c, c * (16 * x), a, b * c);
    Euclid(b, x);
    Distribute(b / x, x, b % x, c);
    LessTimes(b % x, x, c);
    DivModIs(b * c, c * x, b / x, b % x * c);
  }

  lemma Prefix(v: nat, x: nat, a: nat, b: nat)
    requires x > 0 && v == a * (16 * x) + b && b < 16 * x
    ensures v / x == 16 * a + b / x && b / x < 16 && v / x % 16 == b / x
  {
    Euclid(b, x);
    Regroup(a, x, b / x, b % x);
    DivModIs(v, x, 16 * a + b / x, b % x);
    SmallQuotient(b / x, x, b % x);
    LastNibble(a, b / x);
  }

  lemma LastNibble(a: nat, q: nat)
    requires q < 16
    ensures (16 * a + q) % 16 == q
  {
  }

  lemma PowersPositive(i: nat, count: nat)
    requires i < count
    ensures Power(16, count) == Power(16, i) * (16 * Power(16, count - i - 1))
    ensures Power(16, count - 1) == Power(16, i) * Power(16, count - i - 1)
  {
    PowerAdd(i, count - i - 1);
    PowerAdd(i, count - i);
    assert i + (count - i) == count && i + (count - i - 1) == count - 1;
  }

  /** The number without its last k nibbles. */
  function Top(v: nat, k: nat): nat {
    Euclid(v, Power(16, k));
    v / Power(16, k)
  }

  lemma NibbleIs(v: nat, i: nat, count: nat)
    requires i < count
    ensures Nibble(v, i, count) == Top(v, count - i - 1) % 16
  {
    var c, x := Power(16, i), Power(16, count - i - 1);
    PowersPositive(i, count);
    Euclid(v, 16 * x);
    ShiftedTop(v, c, x, v / (16 * x), v % (16 * x));
    Prefix(v, x, v / (16 * x), v % (16 * x));
  }

  /** The leading k - 1 nibbles extend the leading nibbles above them by one. */
  lemma NextPrefix(v: nat, k: nat)
    requires k > 0
    ensures Top(v, k - 1) == 16 * Top(v, k) + Top(v, k - 1) % 16
  {
    var x := Power(16, k - 1);
    assert Power(16, k) == 16 * x;
    PrefixOf(v, x);
  }

  lemma PrefixOf(v: nat, x: nat)
    requires x > 0
    ensures v / x == 16 * (v / (16 * x)) + v / x % 16
  {
    Euclid(v, 16 * x);
    Prefix(v, x, v / (16 * x), v % (16 * x));
  }

  /** One more nibble of the text, or none as long as they are all zero. */
  lemma NotationStep(q: nat, q': nat, nb: nat)
    requires q' == 16 * q + nb && nb < 16
    ensures q' != 0 <==> q != 0 || nb != 0
    ensures q' != 0 ==> Notation(q', 16) == (if q != 0 then Notation(q, 16) else []) + [Digit(nb)]
  {
    assert q' / 16 == q && q' % 16 == nb;
  }

  // ----- digits -----

  function Backwards(s: Text): (r: Text)
    ensures |r| == |s|
  {
    if s == [] then [] else [s[|s| - 1]] + Backwards(s[..|s| - 1])
  }

  lemma BackwardsLast(s: Text)
    requires s != []
    ensures Backwards(s) == [s[|s| - 1]] + Backwards(s[..|s| - 1])
  {
  }

  /** C's remainder and quotient by 10. */
  function Rem10(v: int): int { if v >= 0 then v % 10 else -(-v % 10) }

  function Div10(v: int): int { if v >= 0 then v / 10 else -(-v / 10) }

  lemma Div10Abs(v: int)
    ensures Abs(Rem10(v)) == Abs(v) % 10 && Abs(Div10(v)) == Abs(v) / 10
  {
  }

  /** The digits of v from the last to the first; they never overrun the buffer. */
  method CollectDigits(v: int, size: nat) returns (digits: Text, n: nat)
    requires |Notation(Abs(v), 10)| <= size
    ensures n <= |digits| == size && Backwards(digits[..n]) == Notation(Abs(v), 10)
  {
    digits := seq(size, _ => 0);
    n := 0;
    var integer := v;
    ghost var whole := Notation(Abs(v), 10);
    while true
      invariant |digits| == size && n + |Notation(Abs(integer), 10)| == |whole|
      invariant Notation(Abs(integer), 10) + Backwards(digits[..n]) == whole
      decreases Abs(integer)
    {
      Div10Abs(integer);
      var m10 := Rem10(integer);
      m10 := if m10 < 0 then -m10 else m10;
      digits := digits[n := ZERO + m10];
      assert digits[..n + 1][..n] == digits[..n];
      n := n + 1;
      integer := Div10(integer);
      if integer == 0 {
        break;
      }
    }
  }

  // ----- n_vsnprintf -----

  lemma PowerSizes()
    ensures 0x8000_0000 < Power(10, 11) && 0x8000_0000_0000_0000 < Power(10, 20)
    ensures Power(16, 8) == 0x1_0000_0000 && Power(16, 16) == 0x1_0000_0000_0000_0000
  {
    assert Power(10, 5) == 100000 && Power(10, 10) == 10000000000 && Power(10, 11) == 100000000000;
    assert Power(10, 15) == 1000000000000000 && Power(10, 20) == 100000000000000000000;
    assert Power(16, 4) == 0x1_0000 && Power(16, 8) == 0x1_0000_0000 && Power(16, 12) == 0x1_0000_0000_0000;
  }

  /** One item: the buffers of 11 and 20 digits are long enough. */
  method PutItem(sink: Sink, item: Item, arg: Arg)
    requires sink.Valid() && Fits(item, arg)
    modifies sink`result, sink`text, sink.buff
    ensures sink.Valid() && sink.text == old(sink.text) + Render(item, arg)
  {
    PowerSizes();
    match item
    case Plain(t) => sink.PutText(t);
    case DecimalItem => sink.PutDecimal(arg.v, 11);
    case LongDecimalItem => sink.PutDecimal(arg.v, 20);
    case HexItem => sink.PutHex(arg.v % 0x1_0000_0000, 8);
    case LongHexItem => sink.PutHex(arg.v % 0x1_0000_0000_0000_0000, 16);
    case CharItem => sink.PutChar(arg.v % 256);
    case StringItem => sink.PutText(if arg.s.Some? then arg.s.value else NULL_TEXT);
  }

  /** The item at position i, with the argument it takes. */
  method PutNext(sink: Sink, format: Text, i: nat, args: seq<Arg>, k: nat) returns (i': nat, k': nat)
    requires sink.Valid() && i < |format| && Formattable(format, i, args, k)
    modifies sink`result, sink`text, sink.buff
    ensures sink.Valid() && i < i' <= |format| && Formattable(format, i', args, k')
    ensures sink.text + Output(format, i', args, k') == old(sink.text) + Output(format, i, args, k)
  {
    var p := ItemAt(format, i);
    ghost var start := sink.text;
    OutputStep(format, i, args, k);
    PutItem(sink, p.item, ArgAt(args, k));
    i', k' := i + p.width, k + Uses(p.item);
    ghost var t, rest := Render(p.item, ArgAt(args, k)), Output(format, i', args, k');
    assert sink.text == start + t;
    Associate(start, t, rest);
  }

  lemma OutputStep(f: Text, i: nat, args: seq<Arg>, k: nat)
    requires i < |f| && Formattable(f, i, args, k)
    ensures var p := ItemAt(f, i);
            && Fits(p.item, ArgAt(args, k)) && Formattable(f, i + p.width, args, k + Uses(p.item))
            && Output(f, i, args, k) == Render(p.item, ArgAt(args, k)) + Output(f, i + p.width, args, k + Uses(p.item))
  {
  }

  lemma Associate(a: Text, b: Text, c: Text)
    ensures a + b + c == a + (b + c)
  {
  }

  /** Writes as much of the output as fits, ends it with a zero and returns the
      length of the whole output. */
  method VsnPrintf(buff: array<byte>, len: int, format: Text, args: seq<Arg>) returns (result: int)
    requires len <= buff.Length && len != 0 && Formattable(format, 0, args, 0)
    modifies buff
    ensures len < 0 ==> result == -1 && buff[..] == old(buff[..])
    ensures len > 0 ==>
              var out := Output(format, 0, args, 0);
              var m := Min(|out|, len - 1);
              result == |out| && buff[..m] == out[..m] && buff[m] == 0 && buff[m + 1..] == old(buff[m + 1..])
  {
    if len < 0 {
      return -1;
    }
    var sink := new Sink(buff, len);
    var i, k := 0, 0;
    while i < |format|
      invariant 0 <= i <= |format| && 0 <= k && sink.Valid() && Formattable(format, i, args, k)
      invariant sink.text + Output(format, i, args, k) == Output(format, 0, args, 0)
      decreases |format| - i
    {
      i, k := PutNext(sink, format, i, args, k);
    }
    result := sink.result;
    buff[Min(result, len - 1)] := 0;
  }

  // ----- n_atoi -----

  predicate IsDigit(c: byte) { ZERO <= c <= 57 }

  /** One turn of the loop; None stands for a signed overflow. */
  function Shift(val: Option<int>, c: byte): Option<int> {
    if val.None? || !IsInt32(val.value * 10) || !IsInt32(val.value * 10 + (c - ZERO)) then None
    else Some(val.value * 10 + (c - ZERO))
  }

  /** The value of a run of digits. */
  function Value(t: Text): Option<int> { if t == [] then Some(0) else Shift(Value(t[..|t| - 1]), t[|t| - 1]) }

  function DigitsFrom(s: Text, i: nat): (e: nat)
    requires i <= |s|
    ensures i <= e <= |s| && (e < |s| ==> !IsDigit(s[e])) && forall k :: i <= k < e ==> IsDigit(s[k])
    decreases |s| - i
  {
    if i < |s| && IsDigit(s[i]) then DigitsFrom(s, i + 1) else i
  }

  /** An optional minus sign and the digits behind it; the rest is ignored. */
  function ParsedInt(s: Text): Option<int> {
    var start := if s != [] && s[0] == MINUS then 1 else 0;
    var v := Value(s[start..DigitsFrom(s, start)]);
    if v.Some? && start == 1 then Some(-v.value) else v
  }

  method Atoi(s: Text) returns (r: Option<int>)
    ensures r == ParsedInt(s)
  {
    var negative := s != [] && s[0] == MINUS;
    var start := if negative then 1 else 0;
    var i, val := start, 0;
    while i < |s| && IsDigit(s[i])
      invariant start <= i <= |s| && DigitsFrom(s, i) == DigitsFrom(s, start) && Value(s[start..i]) == Some(val)
    {
      assert s[start..i + 1][..i - start] == s[start..i];
      if !IsInt32(val * 10) || !IsInt32(val * 10 + (s[i] - ZERO)) {
        assert s[start..DigitsFrom(s, start)][..i + 1 - start] == s[start..i + 1];
        OverflowStays(s[start..DigitsFrom(s, start)], i + 1 - start);
        return None;
      }
      val := val * 10;
      val := val + (s[i] - ZERO);
      i := i + 1;
    }
    r := if negative then Some(-val) else Some(val);
  }

  lemma {:induction false} OverflowStays(t: Text, n: nat)
    requires n <= |t| && Value(t[..n]).None?
    ensures Value(t).None?
    decreases |t|
  {
    if n < |t| {
      assert t[..|t| - 1][..n] == t[..n];
      OverflowStays(t[..|t| - 1], n);
    } else {
      assert t[..n] == t;
    }
  }

  /** The digits of a number have its value, unless that is too large for an int. */
  lemma {:induction false} ValueOfNotation(n: nat)
    ensures Value(Notation(n, 10)) == if n < 0x8000_0000 then Some(n) else None
    ensures forall k :: 0 <= k < |Notation(n, 10)| ==> IsDigit(Notation(n, 10)[k])
    decreases n
  {
    var t := Notation(n, 10);
    if n < 10 {
      assert t[..0] == [];
    } else {
      ValueOfNotation(n / 10);
      assert t[..|t| - 1] == Notation(n / 10, 10);
    }
  }

  lemma {:induction false} AllDigits(s: Text, i: nat)
    requires i <= |s| && forall k :: i <= k < |s| ==> IsDigit(s[k])
    ensures DigitsFrom(s, i) == |s|
    decreases |s| - i
  {
    if i < |s| {
      AllDigits(s, i + 1);
    }
  }

  /** n_atoi undoes %d for every int but the least one, whose digits overflow. */
  lemma AtoiOfDecimal(v: int)
    requires IsInt32(v)
    ensures ParsedInt(Decimal(v)) == Some(v) <==> v != -0x8000_0000
    ensures v == -0x8000_0000 ==> ParsedInt(Decimal(v)) == None
  {
    var t := Notation(Abs(v), 10);
    ValueOfNotation(Abs(v));
    assert IsDigit(t[0]);
    if v < 0 {
      DigitsBehind([MINUS], t);
    } else {
      DigitsBehind([], t);
    }
  }

  lemma DigitsBehind(sign: Text, t: Text)
    requires forall k :: 0 <= k < |t| ==> IsDigit(t[k])
    ensures DigitsFrom(sign + t, |sign|) == |sign + t| && (sign + t)[|sign|..|sign + t|] == t
  {
    AllDigits(sign + t, |sign|);
  }
}
