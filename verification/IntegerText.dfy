/**
  * Integers as text in any radix from 2 to 36: printed six digits at a time, parsed eight digits at a
  * time, because the engine's own conversions only take small numbers.
  */
module IntegerText {
  import opened Wrappers
  import opened JsNumber
  import opened JsText
  import opened Integer64
  import opened IntegerDivision

  const MINUS: Unit := 0x2D
  const PLUS: Unit := 0x2B

  datatype TextError = EmptyString | RadixOutOfRange | InteriorMinus

  type Radix = r: int | 2 <= r <= 36 witness 10

  // ---------------------------------------------------------------- positional notation

  function Pow(b: nat, e: nat): (p: nat)
    ensures b > 0 ==> p > 0
  {
    if e == 0 then 1 else b * Pow(b, e - 1)
  }

  lemma {:induction false} PowAdd(b: nat, m: nat, n: nat)
    ensures Pow(b, m + n) == Pow(b, m) * Pow(b, n)
  {
    if m > 0 {
      PowAdd(b, m - 1, n);
      Associate(b, Pow(b, m - 1), Pow(b, n));
    }
  }

  lemma Associate(a: int, b: int, c: int)
    ensures a * (b * c) == a * b * c
  {}

  function Digit(d: nat): (u: Unit)
    requires d < 36
  {
    if d < 10 then 48 + d else 87 + d
  }

  /** The value of a digit in either case, or 36. */
  function DigitOf(u: Unit): (d: nat)
    ensures d <= 36
  {
    if 48 <= u < 58 then u - 48
    else if 97 <= u < 123 then u - 87
    else if 65 <= u < 91 then u - 55
    else 36
  }

  /** What the engine prints for a non-negative number. */
  function Digits(n: nat, r: Radix): (s: Str)
    ensures s != []
  {
    DivBounds(n, r);
    if n < r then [Digit(n)] else SmallerQuotient(n, r); Digits(n / r, r) + [Digit(n % r)]
  }

  lemma SmallerQuotient(n: nat, r: Radix)
    requires n >= r
    ensures 0 < n / r < n
  {
    DivBounds(n, r);
    FitsIff(1, n, r);
    Monotone(2, r, n / r);
  }

  /** Exactly `k` digits, with leading zeros. */
  function Padded(n: nat, k: nat, r: Radix): (s: Str)
    ensures |s| == k
  {
    DivBounds(n, r);
    if k == 0 then [] else Padded(n / r, k - 1, r) + [Digit(n % r)]
  }

  predicate AllDigits(s: Str, r: Radix)
  {
    forall k :: 0 <= k < |s| ==> DigitOf(s[k]) < r
  }

  /** The number a digit string denotes. */
  function Number(s: Str, r: Radix): (n: int)
  {
    if s == [] then 0 else Number(s[..|s| - 1], r) * r + DigitOf(s[|s| - 1])
  }

  lemma {:induction false} NumberOfDigits(n: nat, r: Radix)
    ensures Number(Digits(n, r), r) == n && AllDigits(Digits(n, r), r)
  {
    DivBounds(n, r);
    if n < r {
      assert Digits(n, r)[..0] == [];
    } else {
      SmallerQuotient(n, r);
      NumberOfDigits(n / r, r);
      var s := Digits(n, r);
      assert s[..|s| - 1] == Digits(n / r, r);
    }
  }

  lemma {:induction false} NumberConcat(a: Str, b: Str, r: Radix)
    ensures Number(a + b, r) == Number(a, r) * Pow(r, |b|) + Number(b, r)
  {
    if b == [] {
      assert a + b == a;
    } else {
      var b' := b[..|b| - 1];
      assert (a + b)[..|a + b| - 1] == a + b';
      NumberConcat(a, b', r);
      Regroup(Number(a, r), Pow(r, |b'|), r, Number(b', r), DigitOf(b[|b| - 1]));
    }
  }

  lemma Regroup(a: int, p: int, r: int, b: int, d: int)
    ensures (a * p + b) * r + d == a * (r * p) + (b * r + d)
  {
    assert a * p * r == a * (r * p);
  }

  /** Writing a number in two parts: the high part plainly, the low part padded. */
  lemma {:induction false} DigitsSplit(u: nat, m: nat, k: nat, r: Radix)
    requires u > 0 && m < Pow(r, k)
    ensures u * Pow(r, k) + m >= 0
    ensures Digits(u * Pow(r, k) + m, r) == Digits(u, r) + Padded(m, k, r)
  {
    hide Digits, Padded, Pow;
    PowStep(r, k);
    if k == 0 {
      PaddedEmpty(m, r);
      assert Digits(u, r) + [] == Digits(u, r);
    } else {
      var p, q := Pow(r, k - 1), m / r;
      DivBounds(m, r);
      LowerPart(m, r, p);
      DigitsSplit(u, q, k - 1, r);
      HighPart(u, p, q, m, r);
      DigitsLast(u * p + q, m % r, r);
      PaddedLast(m, k, r);
    }
  }

  lemma PowStep(b: nat, e: nat)
    ensures Pow(b, e) == if e == 0 then 1 else b * Pow(b, e - 1)
  {}

  lemma HighPart(u: nat, p: nat, q: nat, m: nat, r: Radix)
    requires u > 0 && p > 0 && q == m / r
    ensures u * (r * p) + m == (u * p + q) * r + m % r
    ensures u * p + q > 0
  {
    assert u * (r * p) == u * p * r;
    Monotone(1, u, p);
  }

  lemma LowerPart(m: nat, r: Radix, p: nat)
    requires m < r * p
    ensures m / r < p
  {
    FitsIff(p, m, r);
  }

  lemma PaddedEmpty(m: nat, r: Radix)
    ensures Padded(m, 0, r) == []
  {}

  lemma PaddedLast(m: nat, k: nat, r: Radix)
    requires k > 0
    ensures 0 <= m / r && Padded(m, k, r) == Padded(m / r, k - 1, r) + [Digit(m % r)]
  {
    DivBounds(m, r);
  }

  lemma DigitsLast(h: nat, d: nat, r: Radix)
    requires h > 0 && d < r
    ensures h * r + d >= 0
    ensures Digits(h * r + d, r) == Digits(h, r) + [Digit(d)]
  {
    Monotone(1, h, r);
    DivUnique(h * r + d, r, h, d);
  }

  /** Padding with zeros on the left is how the padded form comes about. */
  lemma {:induction false} PaddedIsDigits(m: nat, k: nat, r: Radix)
    requires m < Pow(r, k) && k > 0
    ensures |Digits(m, r)| <= k
    ensures Padded(m, k, r) == seq(k - |Digits(m, r)|, _ => Digit(0)) + Digits(m, r)
  {
    DivBounds(m, r);
    if k == 1 {
      PaddedEmpty(m / r, r);
      assert m < r;
    } else {
      LowerPart(m, r, Pow(r, k - 1));
      PaddedIsDigits(m / r, k - 1, r);
      if m < r {
        assert Padded(m, k, r) == seq(k - 1, _ => Digit(0)) + Digits(m, r);
      }
    }
  }

  // ---------------------------------------------------------------- printing

  /** The radix-`r` notation of any integer. */
  function Notation(n: int, r: Radix): (s: Str)
  {
    if n < 0 then [MINUS] + Digits(-n, r) else Digits(n, r)
  }

  /** `toString(radix)`; a missing or zero radix means ten. */
  method ToText(x: Integer, radix: int) returns (result: Result<Str, TextError>)
    ensures var r := if radix == 0 then 10 else radix;
            result == if 2 <= r <= 36 then Ok(Notation(Value(x), r)) else Err(RadixOutOfRange)
    decreases IsNegative(x), x == MIN_VALUE, 1
  {
    hide Value, Digits, Multiply, Subtract, Negate;
    var r := if radix == 0 then 10 else radix;
    if r < 2 || r > 36 {
      return Err(RadixOutOfRange);
    }
    SignValue(x);
    Constants();
    NoDigits(r);
    if IsZero(x) {
      return Ok([Digit(0)]);
    }
    if IsNegative(x) {
      if x == MIN_VALUE {
        var s := LeastToText(r);
        return Ok(s);
      }
      NegateFacts(x);
      var s := ToText(Negate(x), r);
      return Ok([MINUS] + s.value);
    }
    var s := PositiveToText(x, r);
    return Ok(s);
  }

  lemma NoDigits(r: Radix)
    ensures Digits(0, r) == [Digit(0)]
  {}

  lemma GroupSize(r: Radix, k: nat)
    requires k <= 8
    ensures 0 < Pow(r, k) <= 36 * 36 * 36 * 36 * 36 * 36 * 36 * 36
    ensures k <= 6 ==> Pow(r, k) < TWO_32
    ensures Value(FromNumber(Pow(r, k))) == Pow(r, k)
  {
    PowAtMost(r, k);
    FromNumberValue(Pow(r, k));
  }

  lemma {:induction false} PowAtMost(r: Radix, k: nat)
    ensures Pow(r, k) <= Pow(36, k)
    ensures k <= 8 ==> Pow(36, k) <= 36 * 36 * 36 * 36 * 36 * 36 * 36 * 36
    ensures k <= 6 ==> Pow(36, k) <= 36 * 36 * 36 * 36 * 36 * 36
  {
    if k > 0 {
      PowAtMost(r, k - 1);
      Monotone(r, 36, Pow(r, k - 1));
    }
  }

  lemma SmallToInt(x: Integer)
    requires 0 <= Value(x) < TWO_32
    ensures ToUint32(x.low) == Value(x)
    ensures Value(x) < TWO_31 ==> x.low == Value(x)
  {
    ToInt32Unsigned(x.low);
    DivUnique(Value(x), TWO_32, x.high, ToUint32(x.low));
    DivUnique(Value(x), TWO_32, 0, Value(x));
  }

  /** The loop over six-digit groups, least significant first. */
  method PositiveToText(x: Integer, r: Radix) returns (text: Str)
    requires Value(x) > 0
    ensures text == Digits(Value(x), r)
  {
    hide Value, Digits, Padded, Multiply, Subtract, Wrap64, Remainder, Quotient;
    var o := FromNumber(Pow(r, 6));
    GroupSize(r, 6);
    SignValue(o);
    var n, a: Str := x, [];
    assert Digits(Value(x), r) + [] == Digits(Value(x), r);
    while true
      invariant Value(n) > 0
      invariant Digits(Value(n), r) + a == Digits(Value(x), r)
      decreases Value(n)
    {
      var u, s := LastGroup(n, o, r);
      var n' := n;
      n := u;
      SignValue(u);
      if IsZero(n) {
        return s + a;
      }
      ghost var a' := a;
      while |s| < 6
        invariant |s| <= 6 && s + a' == s + a
        invariant |s| <= 6 ==> seq(6 - |s|, _ => Digit(0)) + s == Padded(Value(n') % Pow(r, 6), 6, r)
        decreases 6 - |s|
      {
        OneZeroLess(6 - |s|, s);
        s := [Digit(0)] + s;
      }
      assert seq(0, _ => Digit(0)) + s == s;
      a := s + a;
      assert Digits(Value(n), r) + (s + a') == Digits(Value(n), r) + s + a';
    }
  }

  lemma OneZeroLess(k: nat, s: Str)
    requires k > 0
    ensures seq(k, _ => Digit(0)) + s == seq(k - 1, _ => Digit(0)) + ([Digit(0)] + s)
  {}

  /** Splits off the last six digits; `s` lacks its leading zeros. */
  method LastGroup(n: Integer, o: Integer, r: Radix) returns (u: Integer, s: Str)
    requires Value(n) > 0 && Value(o) == Pow(r, 6) > 0
    ensures 0 <= Value(u) < Value(n)
    ensures Value(u) == 0 ==> s == Digits(Value(n), r)
    ensures Value(u) > 0 ==> Digits(Value(n), r) == Digits(Value(u), r) + Padded(Value(n) % Pow(r, 6), 6, r)
    ensures |s| <= 6 && seq(6 - |s|, _ => Digit(0)) + s == Padded(Value(n) % Pow(r, 6), 6, r)
  {
    hide Value, Digits, Padded, Multiply, Subtract, Wrap64, Remainder, Pow;
    var (v, p) := (Value(n), Pow(r, 6));
    GroupSize(r, 6);
    SignValue(o);
    var q := Divide(n, o);
    u := q.value;
    DivBounds(v, p);
    WrapId(v / p);
    var rest := Subtract(n, Multiply(u, o));
    ModuloValue(n, o, u);
    PositiveRemainder(v, p);
    SmallToInt(rest);
    s := Digits(ToUint32(rest.low), r);
    PaddedIsDigits(v % p, 6, r);
    LargeRadixGroup(v, p, r);
    if Value(u) > 0 {
      DigitsSplit(v / p, v % p, 6, r);
    }
  }

  lemma PositiveRemainder(v: nat, p: nat)
    requires p > 0
    ensures Quotient(v, p) == v / p && Remainder(v, p) == v % p
  {
    DivBounds(v, p);
  }

  lemma LargeRadixGroup(v: nat, p: nat, r: Radix)
    requires v > 0 && p == Pow(r, 6)
    ensures p > 1 && v / p < v
  {
    hide Pow;
    PowStep(r, 6); PowStep(r, 5); PowStep(r, 4); PowStep(r, 3); PowStep(r, 2); PowStep(r, 1); PowStep(r, 0);
    Monotone(1, Pow(r, 5), r);
    DivBounds(v, p);
    if v / p >= 1 {
      Monotone(2, p, v / p);
    }
  }

  /** The least value has no positive counterpart: its last digit is printed separately. */
  method LeastToText(r: Radix) returns (text: Str)
    ensures text == Notation(-TWO_63, r)
    decreases true, true, 0
  {
    hide Value, Digits, Multiply, Subtract, Wrap64;
    Constants();
    var radix := FromNumber(r);
    FromNumberValue(r);
    SignValue(radix);
    var q := Divide(MIN_VALUE, radix);
    var i := q.value;
    LeastQuotient(r);
    SignValue(i);
    var n := Subtract(Multiply(i, radix), MIN_VALUE);
    ProductInRange(i, radix, -(TWO_63 / r) * r);
    DifferenceInRange(Multiply(i, radix), MIN_VALUE, TWO_63 % r);
    SmallToInt(n);
    var head := ToText(i, r);
    DigitsLast(TWO_63 / r, TWO_63 % r, r);
    OneDigit(TWO_63 % r, r);
    text := head.value + Digits(n.low, r);
  }

  lemma LeastQuotient(r: Radix)
    ensures Wrap64(Quotient(-TWO_63, r)) == -(TWO_63 / r)
    ensures 0 < TWO_63 / r < TWO_63 && TWO_63 == (TWO_63 / r) * r + TWO_63 % r
    ensures -(TWO_63 / r) * r == -((TWO_63 / r) * r)
  {
    SmallerQuotient(TWO_63, r);
    WrapId(-(TWO_63 / r));
  }

  lemma OneDigit(d: nat, r: Radix)
    requires d < r
    ensures Digits(d, r) == [Digit(d)]
  {}

  // ---------------------------------------------------------------- parsing

  predicate IsSpace(u: Unit)
  {
    u == 32 || 9 <= u <= 13 || u == 0xA0 || u == 0x1680 || 0x2000 <= u <= 0x200A || u == 0x2028 || u == 0x2029
    || u == 0x202F || u == 0x205F || u == 0x3000 || u == 0xFEFF
  }

  function SkipSpace(s: Str): (r: Str)
  {
    if s != [] && IsSpace(s[0]) then SkipSpace(s[1..]) else s
  }

  function DigitPrefix(s: Str, r: Radix): (d: Str)
    ensures |d| <= |s|
  {
    if s != [] && DigitOf(s[0]) < r then [s[0]] + DigitPrefix(s[1..], r) else []
  }

  /** The engine's `parseInt`, with `None` for NaN. */
  function ParseInt(s: Str, r: Radix): (n: Option<int>)
  {
    var t := SkipSpace(s);
    var negative := t != [] && t[0] == MINUS;
    var u := if t != [] && (t[0] == MINUS || t[0] == PLUS) then t[1..] else t;
    var v := if r == 16 && |u| >= 2 && u[0] == 48 && (u[1] == 120 || u[1] == 88) then u[2..] else u;
    var d := DigitPrefix(v, r);
    if d == [] then None else Some(if negative then -Number(d, r) else Number(d, r))
  }

  /** NaN converts to zero. */
  function GroupValue(s: Str, r: Radix): (n: int)
  {
    var n := ParseInt(s, r);
    if n.Some? then n.value else 0
  }

  function Group(s: Str): (g: nat)
    ensures g <= |s| && (s != [] ==> g > 0)
  {
    if |s| < 8 then |s| else 8
  }

  /** Folds groups of eight characters into an accumulator, in 64-bit arithmetic. */
  function Accumulate(acc: int, s: Str, r: Radix): (n: int)
    decreases |s|
  {
    if s == [] then acc
    else
      var g := Group(s);
      Accumulate(Wrap64(Wrap64(acc * Pow(r, g)) + GroupValue(s[..g], r)), s[g..], r)
  }

  const NAN_TEXT: Str := [78, 97, 78]
  const INFINITY_TEXT: Str := [73, 110, 102, 105, 110, 105, 116, 121]

  function IndexOfMinus(s: Str): (i: int)
    ensures i == -1 ==> MINUS !in s
    ensures i != -1 ==> 0 <= i < |s| && s[i] == MINUS && MINUS !in s[..i]
  {
    if s == [] then -1
    else if s[0] == MINUS then 0
    else
      var i := IndexOfMinus(s[1..]);
      if i == -1 then -1 else i + 1
  }

  /** What `fromString` computes, as a number. */
  function Parse(s: Str, radix: int): (n: Result<int, TextError>)
    ensures n.Ok? ==> InRange(n.value)
    decreases |s|
  {
    if s == [] then Err(EmptyString)
    else if s == NAN_TEXT || s == INFINITY_TEXT || s == [PLUS] + INFINITY_TEXT || s == [MINUS] + INFINITY_TEXT
      then Ok(0)
    else
      var r := if radix == 0 then 10 else radix;
      if r < 2 || r > 36 then Err(RadixOutOfRange)
      else if IndexOfMinus(s) > 0 then Err(InteriorMinus)
      else if IndexOfMinus(s) == 0 then
        var n := Parse(s[1..], r);
        if n.Ok? then Ok(Wrap64(-n.value)) else n
      else
        AccumulateInRange(0, s, r);
        Ok(Accumulate(0, s, r))
  }

  lemma {:induction false} AccumulateInRange(acc: int, s: Str, r: Radix)
    requires InRange(acc)
    ensures InRange(Accumulate(acc, s, r))
    decreases |s|
  {
    if s != [] {
      var g := Group(s);
      AccumulateInRange(Wrap64(Wrap64(acc * Pow(r, g)) + GroupValue(s[..g], r)), s[g..], r);
    }
  }

  // ---------------------------------------------------------------- digit strings

  lemma {:induction false} DigitPrefixAll(s: Str, r: Radix)
    requires AllDigits(s, r)
    ensures DigitPrefix(s, r) == s
  {
    if s != [] {
      DigitPrefixAll(s[1..], r);
    }
  }

  /** On a group of digits the engine's parser reads the number they denote. */
  lemma GroupOfDigits(s: Str, r: Radix)
    requires AllDigits(s, r) && s != []
    ensures GroupValue(s, r) == Number(s, r)
  {
    DigitPrefixAll(s, r);
    assert DigitOf(s[0]) < r;
    assert |s| >= 2 ==> DigitOf(s[1]) < r;
  }

  lemma {:induction false} AccumulateDigits(acc: int, s: Str, r: Radix, n: int)
    requires AllDigits(s, r) && acc == Wrap64(n)
    ensures Accumulate(acc, s, r) == Wrap64(n * Pow(r, |s|) + Number(s, r))
    decreases |s|
  {
    hide Wrap64, Number, Pow, GroupValue;
    if s == [] {
      NothingRead(r, n);
    } else {
      var g := Group(s);
      var (a, b) := (s[..g], s[g..]);
      assert s == a + b;
      GroupOfDigits(a, r);
      NumberConcat(a, b, r);
      PowAdd(r, g, |b|);
      var m := n * Pow(r, g) + Number(a, r);
      WrapShift(n, Pow(r, g), Number(a, r));
      AccumulateDigits(Wrap64(Wrap64(acc * Pow(r, g)) + GroupValue(a, r)), b, r, m);
      Distribute(n, Pow(r, g), Number(a, r), Pow(r, |b|));
    }
  }

  lemma NothingRead(r: Radix, n: int)
    ensures n * Pow(r, 0) + Number([], r) == n
  {}

  lemma Distribute(n: int, p: int, a: int, q: int)
    ensures (n * p + a) * q == n * (p * q) + a * q
  {
    Associate(n, p, q);
  }

  /** Reducing before multiplying and adding makes no difference to the reduced result. */
  lemma WrapShift(n: int, p: int, a: int)
    ensures Wrap64(Wrap64(Wrap64(n) * p) + a) == Wrap64(n * p + a)
  {
    hide Wrap64;
    var k := WrapSplit(n);
    SplitProduct(n, Wrap64(n), k, p);
    WrapCongruent(n * p, Wrap64(n) * p, k * p);
    WrapTerm(a, n * p);
  }

  lemma {:induction false} NoMinusInDigits(n: nat, r: Radix)
    ensures IndexOfMinus(Digits(n, r)) == -1
  {
    NumberOfDigits(n, r);
    var i := IndexOfMinus(Digits(n, r));
    assert i != -1 ==> DigitOf(Digits(n, r)[i]) < r;
  }

  lemma {:induction false} LowerCase(n: nat, r: Radix)
    ensures var u := Digits(n, r)[0]; 48 <= u < 58 || 97 <= u < 123
  {
    if n >= r {
      SmallerQuotient(n, r);
      LowerCase(n / r, r);
    }
  }

  /** Digits of any non-negative number, however large, parse to that number modulo 2^64. */
  lemma ParseDigits(n: nat, r: Radix)
    ensures Parse(Digits(n, r), r) == Ok(Wrap64(n))
  {
    hide Wrap64, Digits, Number;
    LowerCase(n, r);
    NumberOfDigits(n, r);
    NoMinusInDigits(n, r);
    assert DigitOf(Digits(n, r)[0]) < r;
    WrapId(0);
    AccumulateDigits(0, Digits(n, r), r, 0);
  }

  // ---------------------------------------------------------------- digits in any case, with any sign

  /** Two words are zero, even where their letters are digits. */
  predicate IsWord(s: Str) { s == NAN_TEXT || s == INFINITY_TEXT }

  /** What is refused: nothing at all, a base out of range, a minus sign behind the first place. */
  lemma ParseRefuses(s: Str, radix: int)
    requires !IsWord(s) && s != [43] + INFINITY_TEXT && s != [45] + INFINITY_TEXT
    ensures s == [] ==> Parse(s, radix) == Err(EmptyString)
    ensures s != [] && radix != 0 && !(2 <= radix <= 36) ==> Parse(s, radix) == Err(RadixOutOfRange)
    ensures (radix == 0 || 2 <= radix <= 36) && s != [] && s[0] != 45 && 45 in s ==>
      Parse(s, radix) == Err(InteriorMinus)
  {}

  /** "NaN" and "Infinity", the latter with either sign. */
  lemma WordsAreZero(radix: int)
    ensures Parse([78, 97, 78], radix) == Ok(0)
    ensures var infinity := [73, 110, 102, 105, 110, 105, 116, 121];
      Parse(infinity, radix) == Parse([43] + infinity, radix) == Parse([45] + infinity, radix) == Ok(0)
  {}

  lemma NoMinusAmongDigits(s: Str, r: Radix)
    requires AllDigits(s, r)
    ensures IndexOfMinus(s) == -1 && IndexOfMinus([PLUS] + s) == -1 && MINUS !in s
  {
    forall k | 0 <= k < |s| ensures s[k] != MINUS {
      assert DigitOf(s[k]) < r;
    }
    assert ([PLUS] + s)[1..] == s;
  }

  /** Digits in either case, however many, parse to their number modulo 2^64, except the two words. */
  lemma ParseAnyDigits(s: Str, r: Radix)
    requires AllDigits(s, r) && s != []
    ensures Parse(s, r) == Ok(if IsWord(s) then 0 else Wrap64(Number(s, r)))
  {
    hide Wrap64, Number, Accumulate;
    NoMinusAmongDigits(s, r);
    assert DigitOf(s[0]) < r;
    WrapId(0);
    AccumulateDigits(0, s, r, 0);
  }

  lemma GroupWithPlus(a: Str, r: Radix)
    requires AllDigits(a, r) && a != []
    ensures GroupValue([PLUS] + a, r) == Number(a, r)
  {
    DigitPrefixAll(a, r);
    assert ([PLUS] + a)[1..] == a;
    assert SkipSpace([PLUS] + a) == [PLUS] + a;
    assert |a| >= 2 ==> DigitOf(a[1]) < r;
  }

  lemma AccumulateWithPlus(s: Str, r: Radix)
    requires AllDigits(s, r) && s != []
    ensures Accumulate(0, [PLUS] + s, r) == Wrap64(Number(s, r))
  {
    hide Wrap64, Number, Pow, GroupValue;
    var t := [PLUS] + s;
    var g := Group(t);
    var (a, b) := (s[..g - 1], s[g - 1..]);
    assert s == a + b && t[..g] == [PLUS] + a && t[g..] == b;
    assert AllDigits(a, r) && AllDigits(b, r) by { DigitsApart(a, b, r); }
    GroupWithPlus(a, r);
    WrapId(0);
    assert Accumulate(0, t, r) == Accumulate(Wrap64(Wrap64(0 * Pow(r, g)) + Number(a, r)), b, r);
    AccumulateDigits(Wrap64(Number(a, r)), b, r, Number(a, r));
    NumberConcat(a, b, r);
  }

  lemma DigitsApart(a: Str, b: Str, r: Radix)
    requires AllDigits(a + b, r)
    ensures AllDigits(a, r) && AllDigits(b, r)
  {
    assert forall k :: 0 <= k < |a| ==> (a + b)[k] == a[k];
    assert forall k :: 0 <= k < |b| ==> (a + b)[|a| + k] == b[k];
  }

  /** A plus sign changes nothing but the word NaN, and a minus sign negates. */
  lemma ParseSigned(s: Str, r: Radix)
    requires AllDigits(s, r) && s != []
    ensures Parse([PLUS] + s, r) == Ok(if s == INFINITY_TEXT then 0 else Wrap64(Number(s, r)))
    ensures Parse([MINUS] + s, r) == Ok(if IsWord(s) then 0 else Wrap64(-Number(s, r)))
  {
    hide Wrap64, Number, Accumulate;
    NoMinusAmongDigits(s, r);
    AccumulateWithPlus(s, r);
    ParseAnyDigits(s, r);
    WrapId(0);
    var n := Number(s, r);
    var k := WrapSplit(n);
    WrapCongruent(-Wrap64(n), -n, k);
    assert ([PLUS] + s)[1..] == s && ([MINUS] + s)[1..] == s;
    assert IndexOfMinus([MINUS] + s) == 0;
    ParseMinus(s, r);
  }

  lemma ParseMinus(s: Str, r: Radix)
    requires AllDigits(s, r) && s != []
    ensures Parse([MINUS] + s, r)
         == if s == INFINITY_TEXT then Ok(0)
            else match Parse(s, r) case Ok(n) => Ok(Wrap64(-n)) case Err(e) => Err(e)
  {
    hide Wrap64, Accumulate;
    assert ([MINUS] + s)[1..] == s && IndexOfMinus([MINUS] + s) == 0;
    assert [MINUS] + s == [MINUS] + INFINITY_TEXT ==> ([MINUS] + s)[1..] == ([MINUS] + INFINITY_TEXT)[1..];
    assert ([MINUS] + INFINITY_TEXT)[1..] == INFINITY_TEXT;
  }

  /** Small letters, a minus sign in front: -255 and 255 to the base sixteen. */
  lemma HexNotation()
    ensures Notation(255, 16) == [102, 102] && Notation(-255, 16) == [45, 102, 102]
    ensures Notation(19, 10) == [49, 57]
  {
    assert Digits(15, 16) == [102] && Digits(1, 10) == [49];
    assert Digits(255, 16) == Digits(15, 16) + [102] && Digits(19, 10) == Digits(1, 10) + [57];
  }

  /** Parsing undoes printing for every 64-bit value and radix, the least value included. */
  lemma ParseInvertsNotation(n: int, r: Radix)
    requires InRange(n)
    ensures Parse(Notation(n, r), r) == Ok(n)
  {
    hide Wrap64, Digits, Accumulate;
    WrapId(n);
    if n >= 0 {
      ParseDigits(n, r);
    } else {
      var d := Digits(-n, r);
      LowerCase(-n, r);
      ParseDigits(-n, r);
      assert Notation(n, r)[1..] == d;
      var k := WrapSplit(-n);
      WrapCongruent(n, -Wrap64(-n), -k);
    }
  }

  lemma {:induction false} NumberBound(s: Str, r: Radix)
    requires AllDigits(s, r)
    ensures 0 <= Number(s, r) < Pow(r, |s|)
  {
    if s != [] {
      NumberBound(s[..|s| - 1], r);
      AppendBound(Number(s[..|s| - 1], r), Pow(r, |s| - 1), r, DigitOf(s[|s| - 1]));
    }
  }

  lemma AppendBound(n: nat, p: nat, r: Radix, d: nat)
    requires n < p && d < r
    ensures 0 <= n * r + d < r * p
  {
    Monotone(n + 1, p, r);
    NonNegative(n, r);
  }

  lemma {:induction false} DigitPrefixDigits(s: Str, r: Radix)
    ensures AllDigits(DigitPrefix(s, r), r)
  {
    if s != [] {
      DigitPrefixDigits(s[1..], r);
    }
  }

  lemma {:induction false} SkipSpaceShortens(s: Str)
    ensures |SkipSpace(s)| <= |s|
  {
    if s != [] {
      SkipSpaceShortens(s[1..]);
    }
  }

  /** Every group fits the engine's exact integers. */
  lemma GroupInRange(s: Str, r: Radix)
    requires |s| <= 8
    ensures InRange(GroupValue(s, r)) && Value(FromNumber(GroupValue(s, r))) == GroupValue(s, r)
  {
    hide Number, Pow, DigitPrefix;
    var t := SkipSpace(s);
    SkipSpaceShortens(s);
    var u := if t != [] && (t[0] == MINUS || t[0] == PLUS) then t[1..] else t;
    var v := if r == 16 && |u| >= 2 && u[0] == 48 && (u[1] == 120 || u[1] == 88) then u[2..] else u;
    var d := DigitPrefix(v, r);
    DigitPrefixDigits(v, r);
    NumberBound(d, r);
    GroupSize(r, |d|);
    FromNumberValue(GroupValue(s, r));
  }

  /** `fromString(text, radix)` */
  method FromText(text: Str, radix: int) returns (result: Result<Integer, TextError>)
    ensures match Parse(text, radix)
            case Err(e) => result == Err(e)
            case Ok(n) => result.Ok? && Value(result.value) == n
    decreases |text|
  {
    hide Wrap64, Value, Multiply, Add, Negate;
    if text == [] {
      return Err(EmptyString);
    }
    Constants();
    if text == NAN_TEXT || text == INFINITY_TEXT || text == [PLUS] + INFINITY_TEXT || text == [MINUS] + INFINITY_TEXT {
      return Ok(ZERO);
    }
    var r := if radix == 0 then 10 else radix;
    if r < 2 || r > 36 {
      return Err(RadixOutOfRange);
    }
    var n := IndexOfMinus(text);
    if n > 0 {
      return Err(InteriorMinus);
    }
    if n == 0 {
      result := FromText(text[1..], r);
      if result.Ok? {
        NegateValue(result.value);
        result := Ok(Negate(result.value));
      }
      return;
    }
    var i := AccumulateText(text, r);
    return Ok(i);
  }

  /** The loop over eight-character groups. */
  method AccumulateText(text: Str, r: Radix) returns (i: Integer)
    ensures Value(i) == Accumulate(0, text, r)
  {
    hide Wrap64, Value, Multiply, Add, Negate, Pow, GroupValue, FromNumber;
    Constants();
    var power := FromNumber(Pow(r, 8));
    GroupSize(r, 8);
    i := ZERO;
    var o := 0;
    assert text[0..] == text;
    while o < |text|
      invariant o <= |text|
      invariant Accumulate(Value(i), text[o..], r) == Accumulate(0, text, r)
    {
      var size := if 8 < |text| - o then 8 else |text| - o;
      var group := text[o..o + size];
      AccumulateStep(Value(i), text, o, size, r);
      GroupInRange(group, r);
      GroupSize(r, size);
      var c := FromNumber(GroupValue(group, r));
      var factor := if size < 8 then FromNumber(Pow(r, size)) else power;
      MultiplyValue(i, factor);
      AddValue(Multiply(i, factor), c);
      i := Add(Multiply(i, factor), c);
      o := o + size;
    }
    assert text[o..] == [];
  }

  lemma AccumulateStep(acc: int, text: Str, o: nat, size: nat, r: Radix)
    requires o < |text| && size == if 8 < |text| - o then 8 else |text| - o
    ensures Accumulate(acc, text[o..], r)
         == Accumulate(Wrap64(Wrap64(acc * Pow(r, size)) + GroupValue(text[o..o + size], r)), text[o + size..], r)
  {
    assert text[o..][..size] == text[o..o + size] && text[o..][size..] == text[o + size..];
  }

  /** What `toString` prints, `fromString` reads back: for every 64-bit value and every radix. */
  method PrintAndParse(x: Integer, r: Radix) returns (result: Result<Integer, TextError>)
    ensures result == Ok(x)
  {
    hide Notation, Parse, Value;
    var text := ToText(x, r);
    assert InRange(Value(x));
    ParseInvertsNotation(Value(x), r);
    result := FromText(text.value, r);
    ValueInjective(result.value, x);
  }
}
