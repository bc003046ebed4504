/**
  * The driver's 64-bit integer: two signed 32-bit halves, added and multiplied on four 16-bit limbs
  * because JavaScript numbers have only 53 exact bits. Everything is compared with two's-complement
  * arithmetic on mathematical integers.
  */
module Integer64 {
  import opened JsNumber

  const TWO_16 := 0x1_0000

  datatype Integer = Integer(low: Int32, high: Int32)

  predicate InRange(n: int) { -TWO_63 <= n < TWO_63 }

  /** The number an `Integer` stands for. */
  function Value(x: Integer): (v: int)
    ensures -TWO_63 <= v < TWO_63
  {
    x.high * TWO_32 + ToUint32(x.low)
  }

  /** Two's-complement reduction to 64 bits. */
  function Wrap64(n: int): (w: int)
    ensures -TWO_63 <= w < TWO_63
  {
    (n + TWO_63) % TWO_64 - TWO_63
  }

  lemma WrapIs(n: int, w: int, k: int)
    requires InRange(w) && n == w + k * TWO_64
    ensures Wrap64(n) == w
  {
    DivUnique(n + TWO_63, TWO_64, k, w + TWO_63);
  }

  lemma WrapSplit(n: int) returns (k: int)
    ensures n == Wrap64(n) + k * TWO_64
  {
    k := (n + TWO_63) / TWO_64;
  }

  lemma WrapId(n: int)
    requires InRange(n)
    ensures Wrap64(n) == n
  {
    WrapIs(n, n, 0);
  }

  /** Only the value of an operand matters, and only up to multiples of 2^64. */
  lemma WrapCongruent(n: int, m: int, k: int)
    requires n == m + k * TWO_64
    ensures Wrap64(n) == Wrap64(m)
  {
    var j := WrapSplit(m);
    WrapIs(n, Wrap64(m), j + k);
  }

  /** A wrapped term may be replaced by what it was wrapped from. */
  lemma WrapTerm(a: int, b: int)
    ensures Wrap64(a + Wrap64(b)) == Wrap64(a + b)
  {
    var k := WrapSplit(b);
    WrapCongruent(a + b, a + Wrap64(b), k);
  }

  /** Two integers with the same value are the same pair of halves. */
  lemma ValueInjective(x: Integer, y: Integer)
    requires Value(x) == Value(y)
    ensures x == y
  {
    DivUnique(Value(x), TWO_32, x.high, ToUint32(x.low));
    DivUnique(Value(y), TWO_32, y.high, ToUint32(y.low));
    ToInt32Unsigned(x.low);
    ToInt32Unsigned(y.low);
  }

  lemma ToInt32Unsigned(i: Int32)
    ensures ToUint32(i) == if i < 0 then i + TWO_32 else i
    ensures ToInt32(ToUint32(i)) == i
  {
    DivUnique(i, TWO_32, if i < 0 then -1 else 0, if i < 0 then i + TWO_32 else i);
    DivUnique(ToUint32(i) + TWO_31, TWO_32, if i < 0 then 1 else 0, i + TWO_31);
  }

  // ---------------------------------------------------------------- constants and conversions

  const ZERO := Integer(0, 0)
  const ONE := Integer(1, 0)
  const NEG_ONE := Integer(-1, -1)
  const MIN_VALUE := Integer(0, -0x8000_0000)
  const MAX_VALUE := Integer(-1, 0x7FFF_FFFF)

  lemma Constants()
    ensures Value(ZERO) == 0 && Value(ONE) == 1 && Value(NEG_ONE) == -1
    ensures Value(MIN_VALUE) == -TWO_63 && Value(MAX_VALUE) == TWO_63 - 1
  {
    ToInt32Unsigned(-1);
  }

  /** `new Integer(low, high)` for any numbers. */
  function FromBits(low: int, high: int): (x: Integer)
  {
    Integer(ToInt32(low), ToInt32(high))
  }

  lemma FromBitsValue(low: int, high: int)
    ensures Value(FromBits(low, high)) == Wrap64(high * TWO_32 + ToUint32(low))
  {
    ToInt32Unsigned(ToInt32(low));
    var j := (high + TWO_31) / TWO_32;
    var h := ToInt32(high);
    assert high == h + j * TWO_32;
    assert ToUint32(ToInt32(low)) == ToUint32(low) by {
      var k := (low + TWO_31) / TWO_32;
      assert low == ToInt32(low) + k * TWO_32;
      assert ToInt32(low) == (ToInt32(low) / TWO_32) * TWO_32 + ToUint32(ToInt32(low));
      DivUnique(low, TWO_32, ToInt32(low) / TWO_32 + k, ToUint32(ToInt32(low)));
    }
    WrapIs(high * TWO_32 + ToUint32(low), h * TWO_32 + ToUint32(low), j);
  }

  predicate IsNegative(x: Integer) { x.high < 0 }

  predicate IsZero(x: Integer) { x.high == 0 && x.low == 0 }

  function Not(x: Integer): (r: Integer)
  {
    FromBits(-1 - x.low, -1 - x.high)
  }

  // ---------------------------------------------------------------- addition

  /** Four 16-bit digits, most significant first. */
  datatype Limbs = Limbs(l3: int, l2: int, l1: int, l0: int)

  predicate Digits(a: Limbs)
  {
    0 <= a.l3 < TWO_16 && 0 <= a.l2 < TWO_16 && 0 <= a.l1 < TWO_16 && 0 <= a.l0 < TWO_16
  }

  function Number(a: Limbs): (n: int)
  {
    a.l3 * 0x1_0000_0000_0000 + a.l2 * TWO_32 + a.l1 * TWO_16 + a.l0
  }

  /** `v >>> 16` */
  function UShift16(v: int): (r: int)
    ensures r >= 0
  {
    ToUint32(v) / TWO_16
  }

  /** `v & 65535` */
  function Low16(v: int): (r: int)
    ensures 0 <= r < TWO_16
  {
    v % TWO_16
  }

  function Split(x: Integer): (a: Limbs)
  {
    Limbs(UShift16(x.high), Low16(x.high), UShift16(x.low), Low16(x.low))
  }

  function Combine(a: Limbs): (x: Integer)
  {
    FromBits(a.l1 * TWO_16 + a.l0, a.l3 * TWO_16 + a.l2)
  }

  function AddLimbs(a: Limbs, b: Limbs): (r: Limbs)
    ensures Digits(r)
  {
    var h := a.l0 + b.l0;
    var f := UShift16(h) + a.l1 + b.l1;
    var l := UShift16(f) + a.l2 + b.l2;
    var c := UShift16(l) + a.l3 + b.l3;
    Limbs(Low16(c), Low16(l), Low16(f), Low16(h))
  }

  function Add(x: Integer, y: Integer): (r: Integer)
  {
    Combine(AddLimbs(Split(x), Split(y)))
  }

  lemma Halves(i: Int32)
    ensures ToUint32(i) == UShift16(i) * TWO_16 + Low16(i) && UShift16(i) < TWO_16
  {
    ToInt32Unsigned(i);
    var u := ToUint32(i);
    if i < 0 {
      DivUnique(i, TWO_16, u / TWO_16 - TWO_16, u % TWO_16);
    }
  }

  lemma SplitNumber(x: Integer)
    ensures Digits(Split(x))
    ensures Wrap64(Number(Split(x))) == Value(x)
    ensures Number(Split(x)) == if IsNegative(x) then Value(x) + TWO_64 else Value(x)
  {
    Halves(x.low);
    Halves(x.high);
    ToInt32Unsigned(x.high);
    WrapIs(Number(Split(x)), Value(x), if IsNegative(x) then 1 else 0);
  }

  lemma CombineValue(a: Limbs)
    requires Digits(a)
    ensures Value(Combine(a)) == Wrap64(Number(a))
  {
    var low := a.l1 * TWO_16 + a.l0;
    FromBitsValue(low, a.l3 * TWO_16 + a.l2);
    DivUnique(low, TWO_32, 0, low);
  }

  /** What is carried out of a column and what stays. */
  lemma Carry(v: nat)
    requires v < TWO_32
    ensures v == UShift16(v) * TWO_16 + Low16(v) && UShift16(v) < TWO_16
  {
    DivUnique(v, TWO_32, 0, v);
  }

  lemma Truncated(v: nat)
    ensures v == v / TWO_16 * TWO_16 + Low16(v)
  {}

  lemma AddLimbsNumber(a: Limbs, b: Limbs)
    requires Digits(a) && Digits(b)
    ensures Wrap64(Number(AddLimbs(a, b))) == Wrap64(Number(a) + Number(b))
  {
    hide UShift16, Low16, Wrap64;
    var h := a.l0 + b.l0;
    Carry(h);
    var f := UShift16(h) + a.l1 + b.l1;
    Carry(f);
    var l := UShift16(f) + a.l2 + b.l2;
    Carry(l);
    var c := UShift16(l) + a.l3 + b.l3;
    Carry(c);
    WrapCongruent(Number(a) + Number(b), Number(AddLimbs(a, b)), UShift16(c));
  }

  lemma AddValue(x: Integer, y: Integer)
    ensures Value(Add(x, y)) == Wrap64(Value(x) + Value(y))
  {
    hide UShift16, Low16, Wrap64, Number, Combine, Split, AddLimbs;
    SplitNumber(x);
    SplitNumber(y);
    AddLimbsNumber(Split(x), Split(y));
    CombineValue(AddLimbs(Split(x), Split(y)));
    WrapCongruent(Number(Split(x)) + Number(Split(y)), Value(x) + Value(y),
                  (if IsNegative(x) then 1 else 0) + if IsNegative(y) then 1 else 0);
  }

  // ---------------------------------------------------------------- negation and comparison

  lemma NotValue(x: Integer)
    ensures Value(Not(x)) == -Value(x) - 1
  {
    hide Wrap64, ToUint32;
    FromBitsValue(-1 - x.low, -1 - x.high);
    ToInt32Unsigned(x.low);
    ToInt32Unsigned(-1 - x.low);
    WrapId(-Value(x) - 1);
  }

  function Negate(x: Integer): (r: Integer)
  {
    if x == MIN_VALUE then MIN_VALUE else Add(Not(x), ONE)
  }

  lemma NegateValue(x: Integer)
    ensures Value(Negate(x)) == Wrap64(-Value(x))
    ensures x != MIN_VALUE ==> Value(Negate(x)) == -Value(x)
  {
    Constants();
    if x == MIN_VALUE {
      WrapIs(TWO_63, -TWO_63, 1);
    } else {
      if Value(x) == -TWO_63 {
        ValueInjective(x, MIN_VALUE);
      }
      NotValue(x);
      AddValue(Not(x), ONE);
      WrapId(-Value(x));
    }
  }

  function Subtract(x: Integer, y: Integer): (r: Integer)
  {
    Add(x, Negate(y))
  }

  lemma SubtractValue(x: Integer, y: Integer)
    ensures Value(Subtract(x, y)) == Wrap64(Value(x) - Value(y))
  {
    NegateValue(y);
    AddValue(x, Negate(y));
    WrapTerm(Value(x), -Value(y));
  }

  function Compare(x: Integer, y: Integer): (c: int)
  {
    if x == y then 0
    else if IsNegative(x) && !IsNegative(y) then -1
    else if !IsNegative(x) && IsNegative(y) then 1
    else if IsNegative(Subtract(x, y)) then -1 else 1
  }

  lemma SignValue(x: Integer)
    ensures IsNegative(x) <==> Value(x) < 0
    ensures IsZero(x) <==> Value(x) == 0
  {
    ToInt32Unsigned(x.low);
  }

  /** The sign of the comparison is the signed order; equal values are equal pairs of halves. */
  lemma CompareOrder(x: Integer, y: Integer)
    ensures Compare(x, y) == if Value(x) < Value(y) then -1 else if Value(x) == Value(y) then 0 else 1
  {
    SignValue(x);
    SignValue(y);
    if Value(x) == Value(y) {
      ValueInjective(x, y);
    } else if IsNegative(x) == IsNegative(y) {
      SubtractValue(x, y);
      WrapId(Value(x) - Value(y));
      SignValue(Subtract(x, y));
    }
  }

  // ---------------------------------------------------------------- multiplication

  /** `fromNumber` of an integral number. */
  function FromNumber(n: int): (x: Integer)
    decreases n < 0
  {
    if n <= -TWO_63 then MIN_VALUE
    else if n + 1 >= TWO_63 then MAX_VALUE
    else if n < 0 then Negate(FromNumber(-n))
    else FromBits(n % TWO_32, n / TWO_32)
  }

  lemma FromNumberValue(n: int)
    ensures Value(FromNumber(n)) == if n < -TWO_63 then -TWO_63 else if n >= TWO_63 then TWO_63 - 1 else n
    decreases n < 0
  {
    Constants();
    if -TWO_63 < n < TWO_63 - 1 {
      if n < 0 {
        FromNumberValue(-n);
        NegateValue(FromNumber(-n));
        WrapId(n);
      } else {
        FromBitsValue(n % TWO_32, n / TWO_32);
        DivUnique(n % TWO_32, TWO_32, 0, n % TWO_32);
        WrapId(n);
      }
    }
  }

  /** A JavaScript number; both infinities count as one here. */
  datatype Double = NaN | Infinite | Finite(x: real)

  function Truncate(x: real): (n: int) { if x < 0.0 then -((-x).Floor) else x.Floor }

  /** `fromNumber` of any number. */
  function FromDouble(d: Double): (x: Integer)
    decreases d.Finite? && d.x < 0.0
  {
    if !d.Finite? then ZERO
    else if d.x <= -TWO_63 as real then MIN_VALUE
    else if d.x + 1.0 >= TWO_63 as real then MAX_VALUE
    else if d.x < 0.0 then Negate(FromDouble(Finite(-d.x)))
    else
      var high := (d.x / TWO_32 as real).Floor;
      FromBits(Truncate(d.x - (high * TWO_32) as real), high)
  }

  /** Neither NaN nor an infinity saturates, both give zero; a fraction is cut off, toward zero. */
  lemma {:induction false} FromDoubleValue(d: Double)
    ensures Value(FromDouble(d)) ==
      if !d.Finite? then 0
      else
        var n := Truncate(d.x);
        if n < -TWO_63 then -TWO_63 else if n >= TWO_63 then TWO_63 - 1 else n
    decreases d.Finite? && d.x < 0.0
  {
    hide Value, Wrap64, Negate, FromBits;
    Constants();
    if d.Finite? && -TWO_63 as real < d.x && d.x + 1.0 < TWO_63 as real {
      if d.x < 0.0 {
        FromDoubleValue(Finite(-d.x));
        NegateValue(FromDouble(Finite(-d.x)));
      } else {
        var high := (d.x / TWO_32 as real).Floor;
        var low := Truncate(d.x - (high * TWO_32) as real);
        SplitReal(d.x, high);
        FromBitsValue(low, high);
        assert low == ToUint32(low) by { DivUnique(low, TWO_32, 0, low); }
        WrapId(Truncate(d.x));
      }
    }
  }

  lemma SplitReal(x: real, high: int)
    requires x >= 0.0 && high == (x / TWO_32 as real).Floor
    ensures var low := Truncate(x - (high * TWO_32) as real);
      0 <= low < TWO_32 && Truncate(x) == high * TWO_32 + low
  {
    var q := x / TWO_32 as real;
    assert q * TWO_32 as real == x;
    assert high as real <= q < high as real + 1.0;
    assert (high * TWO_32) as real == high as real * TWO_32 as real;
    assert 0.0 <= x - (high * TWO_32) as real < TWO_32 as real;
  }

  lemma FromValueInverse(x: Integer)
    ensures FromNumber(Value(x)) == x
  {
    FromNumberValue(Value(x));
    ValueInjective(FromNumber(Value(x)), x);
  }

  const FAST := 0x100_0000

  /** Adds up the columns of the schoolbook product; `top` is the most significant column. */
  function SumColumns(p00: int, p10: int, p01: int, p20: int, p11: int, p02: int, top: int): (r: Limbs)
    ensures Digits(r)
  {
    var d1 := UShift16(p00) + p10;
    var d2 := Low16(d1) + p01;
    var h1 := UShift16(d1) + UShift16(d2) + p20;
    var h2 := Low16(h1) + p11;
    var h3 := Low16(h2) + p02;
    var l := UShift16(h1) + UShift16(h2) + UShift16(h3) + top;
    Limbs(Low16(l), Low16(h3), Low16(d2), Low16(p00))
  }

  function MultiplyLimbs(a: Limbs, b: Limbs): (r: Limbs)
    ensures Digits(r)
  {
    SumColumns(a.l0 * b.l0, a.l1 * b.l0, a.l0 * b.l1, a.l2 * b.l0, a.l1 * b.l1, a.l0 * b.l2,
               a.l3 * b.l0 + a.l2 * b.l1 + a.l1 * b.l2 + a.l0 * b.l3)
  }

  function Multiply(x: Integer, y: Integer): (r: Integer)
    decreases IsNegative(x), IsNegative(y)
  {
    if IsZero(x) then ZERO
    else if IsZero(y) then ZERO
    else if x == MIN_VALUE then if y.low % 2 == 1 then MIN_VALUE else ZERO
    else if y == MIN_VALUE then if x.low % 2 == 1 then MIN_VALUE else ZERO
    else
      NegateValue(x); NegateValue(y); SignValue(x); SignValue(y); SignValue(Negate(x)); SignValue(Negate(y));
      if IsNegative(x) then
        if IsNegative(y) then Multiply(Negate(x), Negate(y)) else Negate(Multiply(Negate(x), y))
      else if IsNegative(y) then Negate(Multiply(x, Negate(y)))
      else if Compare(x, FromNumber(FAST)) < 0 && Compare(y, FromNumber(FAST)) < 0
        then FromNumber(Value(x) * Value(y))
      else
        SplitNumber(x); SplitNumber(y);
        Combine(MultiplyLimbs(Split(x), Split(y)))
  }


  lemma NonNegative(a: nat, b: nat)
    ensures 0 <= a * b
  {}

  lemma DigitProduct(a: nat, b: nat)
    requires a < TWO_16 && b < TWO_16
    ensures 0 <= a * b <= 0xFFFF * 0xFFFF
  {
    NonNegative(0xFFFF - a, b);
    NonNegative(a, b);
  }

  lemma CarriesCancel(p00: int, p10: int, p01: int, p20: int, p11: int, p02: int, top: int,
                      cv: int, v: int, cd1: int, d1: int, cd2: int, d2: int,
                      ch1: int, h1: int, ch2: int, h2: int, ch3: int, h3: int, k: int, l: int)
    requires p00 == cv * TWO_16 + v && cv + p10 == cd1 * TWO_16 + d1 && d1 + p01 == cd2 * TWO_16 + d2
    requires cd1 + cd2 + p20 == ch1 * TWO_16 + h1 && h1 + p11 == ch2 * TWO_16 + h2 && h2 + p02 == ch3 * TWO_16 + h3
    requires ch1 + ch2 + ch3 + top == k * TWO_16 + l
    ensures p00 + (p10 + p01) * TWO_16 + (p20 + p11 + p02) * TWO_32 + top * 0x1_0000_0000_0000
         == l * 0x1_0000_0000_0000 + h3 * TWO_32 + d2 * TWO_16 + v + k * TWO_64
  {}

  /**
    * The columns of the schoolbook product. Every sum that is shifted is at most
    * (2^16-1)^2 + 2(2^16-1) = 2^32 - 1, so no carry is lost.
    */
  lemma Columns(p00: nat, p10: nat, p01: nat, p20: nat, p11: nat, p02: nat, top: nat) returns (k: int)
    requires p00 <= 0xFFFE_0001 && p10 <= 0xFFFE_0001 && p01 <= 0xFFFE_0001
    requires p20 <= 0xFFFE_0001 && p11 <= 0xFFFE_0001 && p02 <= 0xFFFE_0001
    ensures p00 + (p10 + p01) * TWO_16 + (p20 + p11 + p02) * TWO_32 + top * 0x1_0000_0000_0000
         == Number(SumColumns(p00, p10, p01, p20, p11, p02, top)) + k * TWO_64
  {
    hide UShift16, Low16;
    Carry(p00);
    var d1 := UShift16(p00) + p10;
    Carry(d1);
    var d2 := Low16(d1) + p01;
    Carry(d2);
    var h1 := UShift16(d1) + UShift16(d2) + p20;
    Carry(h1);
    var h2 := Low16(h1) + p11;
    Carry(h2);
    var h3 := Low16(h2) + p02;
    Carry(h3);
    var l := UShift16(h1) + UShift16(h2) + UShift16(h3) + top;
    k := l / TWO_16;
    Truncated(l);
    CarriesCancel(p00, p10, p01, p20, p11, p02, top, UShift16(p00), Low16(p00), UShift16(d1), Low16(d1),
                  UShift16(d2), Low16(d2), UShift16(h1), Low16(h1), UShift16(h2), Low16(h2),
                  UShift16(h3), Low16(h3), k, Low16(l));
  }

  lemma TimesDigit(a: Limbs, d: int)
    ensures Number(a) * d == a.l3 * d * 0x1_0000_0000_0000 + a.l2 * d * TWO_32 + a.l1 * d * TWO_16 + a.l0 * d
  {}

  lemma TimesNumber(n: int, b: Limbs)
    ensures n * Number(b) == n * b.l3 * 0x1_0000_0000_0000 + n * b.l2 * TWO_32 + n * b.l1 * TWO_16 + n * b.l0
  {}

  /** Sixteen digit products, grouped by column. */
  lemma GroupColumns(a: Limbs, b: Limbs) returns (high: int)
    ensures Number(a) * Number(b)
         == a.l0 * b.l0 + (a.l1 * b.l0 + a.l0 * b.l1) * TWO_16
            + (a.l2 * b.l0 + a.l1 * b.l1 + a.l0 * b.l2) * TWO_32
            + (a.l3 * b.l0 + a.l2 * b.l1 + a.l1 * b.l2 + a.l0 * b.l3) * 0x1_0000_0000_0000
            + high * TWO_64
  {
    high := a.l3 * b.l1 + a.l2 * b.l2 + a.l1 * b.l3 + (a.l3 * b.l2 + a.l2 * b.l3) * TWO_16 + a.l3 * b.l3 * TWO_32;
    TimesNumber(Number(a), b);
    TimesDigit(a, b.l0); TimesDigit(a, b.l1); TimesDigit(a, b.l2); TimesDigit(a, b.l3);
  }

  lemma MultiplyLimbsNumber(a: Limbs, b: Limbs)
    requires Digits(a) && Digits(b)
    ensures Wrap64(Number(MultiplyLimbs(a, b))) == Wrap64(Number(a) * Number(b))
  {
    hide Wrap64, Number;
    DigitProduct(a.l0, b.l0); DigitProduct(a.l1, b.l0); DigitProduct(a.l0, b.l1);
    DigitProduct(a.l2, b.l0); DigitProduct(a.l1, b.l1); DigitProduct(a.l0, b.l2);
    DigitProduct(a.l3, b.l0); DigitProduct(a.l2, b.l1); DigitProduct(a.l1, b.l2); DigitProduct(a.l0, b.l3);
    var top := a.l3 * b.l0 + a.l2 * b.l1 + a.l1 * b.l2 + a.l0 * b.l3;
    var k := Columns(a.l0 * b.l0, a.l1 * b.l0, a.l0 * b.l1, a.l2 * b.l0, a.l1 * b.l1, a.l0 * b.l2, top);
    var high := GroupColumns(a, b);
    WrapCongruent(Number(a) * Number(b), Number(MultiplyLimbs(a, b)), k + high);
  }

  /** A multiple of 2^63 wraps to zero or to the least value, by the parity of the other factor. */
  lemma MinTimes(n: int, odd: bool)
    requires odd == (n % 2 == 1)
    ensures Wrap64(-TWO_63 * n) == Wrap64(n * -TWO_63) == if odd then -TWO_63 else 0
  {
    var h := n / 2;
    assert n == 2 * h + if odd then 1 else 0;
    WrapIs(-TWO_63 * n, if odd then -TWO_63 else 0, -h);
  }

  lemma Parity(x: Integer)
    ensures Value(x) % 2 == x.low % 2
  {
    hide ToUint32;
    ToInt32Unsigned(x.low);
    var u := ToUint32(x.low);
    DivUnique(Value(x), 2, x.high * TWO_31 + u / 2, u % 2);
  }

  /** Negating the wrapped -q gives the wrapped q. */
  lemma NegatedValue(m: Integer, p: int, q: int)
    requires Value(m) == Wrap64(p) && p == -q
    ensures Value(Negate(m)) == Wrap64(q)
  {
    NegateValue(m);
    var k := WrapSplit(p);
    WrapCongruent(q, -Value(m), -k);
  }

  lemma MultiplyEdge(x: Integer, y: Integer)
    requires IsZero(x) || IsZero(y) || x == MIN_VALUE || y == MIN_VALUE
    ensures Value(Multiply(x, y)) == Wrap64(Value(x) * Value(y))
  {
    hide Wrap64, ToUint32;
    SignValue(x); SignValue(y);
    if IsZero(x) || IsZero(y) {
      WrapId(0);
    } else if x == MIN_VALUE {
      Parity(y);
      MinTimes(Value(y), y.low % 2 == 1);
    } else {
      Parity(x);
      MinTimes(Value(x), x.low % 2 == 1);
    }
  }

  lemma NegatedFactor(a: int, a': int, b: int)
    requires a' == -a
    ensures a' * b == -(a * b) && b * a' == -(b * a)
  {}

  lemma FlipBoth(x: Integer, y: Integer)
    requires x != MIN_VALUE && y != MIN_VALUE && IsNegative(x) && IsNegative(y)
    requires Value(Multiply(Negate(x), Negate(y))) == Wrap64(Value(Negate(x)) * Value(Negate(y)))
    ensures Value(Multiply(x, y)) == Wrap64(Value(x) * Value(y))
  {
    NegateValue(x); NegateValue(y);
    NegatedFactor(Value(x), Value(Negate(x)), Value(y));
    NegatedFactor(Value(y), Value(Negate(y)), Value(Negate(x)));
  }

  lemma FlipOne(x: Integer, y: Integer, m: Integer, p: int)
    requires x != MIN_VALUE && y != MIN_VALUE && !IsZero(x) && !IsZero(y) && IsNegative(x) != IsNegative(y)
    requires m == if IsNegative(x) then Multiply(Negate(x), y) else Multiply(x, Negate(y))
    requires Value(m) == Wrap64(p) && p == -(Value(x) * Value(y))
    ensures Value(Multiply(x, y)) == Wrap64(Value(x) * Value(y))
  {
    assert Multiply(x, y) == Negate(m);
    NegatedValue(m, p, Value(x) * Value(y));
  }

  /** Multiplication is two's-complement multiplication, whichever of its branches is taken. */
  lemma {:induction false} MultiplyValue(x: Integer, y: Integer)
    ensures Value(Multiply(x, y)) == Wrap64(Value(x) * Value(y))
    decreases IsNegative(x), IsNegative(y)
  {
    if IsZero(x) || IsZero(y) || x == MIN_VALUE || y == MIN_VALUE {
      MultiplyEdge(x, y);
    } else if IsNegative(x) || IsNegative(y) {
      SignValue(x); SignValue(y);
      NegateValue(x); NegateValue(y);
      SignValue(Negate(x)); SignValue(Negate(y));
      if IsNegative(x) && IsNegative(y) {
        MultiplyValue(Negate(x), Negate(y));
        FlipBoth(x, y);
      } else if IsNegative(x) {
        MultiplyValue(Negate(x), y);
        NegatedFactor(Value(x), Value(Negate(x)), Value(y));
        FlipOne(x, y, Multiply(Negate(x), y), Value(Negate(x)) * Value(y));
      } else {
        MultiplyValue(x, Negate(y));
        NegatedFactor(Value(y), Value(Negate(y)), Value(x));
        FlipOne(x, y, Multiply(x, Negate(y)), Value(x) * Value(Negate(y)));
      }
    } else {
      MultiplyPositive(x, y);
    }
  }

  /** The product of small factors is computed by the engine, and exactly: it is below 2^48. */
  lemma SmallProduct(a: nat, b: nat)
    requires a < FAST && b < FAST
    ensures 0 <= a * b < 0x1_0000_0000_0000
    ensures Value(FromNumber(a * b)) == Wrap64(a * b)
  {
    NonNegative(FAST - a, b);
    NonNegative(a, b);
    FromNumberValue(a * b);
    WrapId(a * b);
  }

  lemma MultiplyPositive(x: Integer, y: Integer)
    requires !IsNegative(x) && !IsNegative(y) && !IsZero(x) && !IsZero(y)
    ensures Value(Multiply(x, y)) == Wrap64(Value(x) * Value(y))
  {
    hide Wrap64, Number, Split, Combine, MultiplyLimbs, FromNumber, ToUint32, Value;
    FromNumberValue(FAST);
    CompareOrder(x, FromNumber(FAST));
    CompareOrder(y, FromNumber(FAST));
    SignValue(x); SignValue(y);
    if Value(x) < FAST && Value(y) < FAST {
      SmallProduct(Value(x), Value(y));
    } else {
      SplitNumber(x); SplitNumber(y);
      MultiplyLimbsNumber(Split(x), Split(y));
      CombineValue(MultiplyLimbs(Split(x), Split(y)));
    }
  }
}