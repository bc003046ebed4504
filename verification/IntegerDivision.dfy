/**
  * 64-bit division by repeated floating-point estimates. The estimate is rounded three times and
  * may be too large by far more than one; it is lowered in steps until the product fits. Of the
  * floating-point unit it is assumed that it rounds to a 53-bit significand with the matching relative
  * error, and that the logarithm, rounded up, is right to within one.
  */
module IntegerDivision {
  import opened Wrappers
  import opened JsNumber
  import opened Integer64

  // ---------------------------------------------------------------- rounding

  /** Half a unit in the last place of a 53-bit significand, relative to the number. */
  const ROUNDOFF := 1.0 / 9007199254740992.0

  predicate Rounds(f: real, x: real)
  {
    -x * ROUNDOFF <= f - x <= x * ROUNDOFF
  }

  function Pow2(n: nat): (p: nat)
    ensures p > 0
  {
    if n == 0 then 1 else 2 * Pow2(n - 1)
  }

  lemma {:induction false} Pow2Split(m: nat, n: nat)
    ensures Pow2(m + n) == Pow2(m) * Pow2(n)
  {
    if m > 0 {
      Pow2Split(m - 1, n);
      assert Pow2(m) * Pow2(n) == 2 * (Pow2(m - 1) * Pow2(n));
    }
  }

  lemma RoundsSelf(x: real)
    requires x >= 0.0
    ensures Rounds(x, x)
  {}

  lemma RoundedPositive(x: real, f: real)
    requires x > 0.0 && Rounds(f, x)
    ensures f > 0.0
  {}

  lemma MonotoneReal(a: real, b: real, c: real)
    requires a <= b && 0.0 <= c
    ensures a * c <= b * c
  {}

  /** A rounded quotient of rounded positive operands is off by a factor near one. */
  lemma RoundedQuotient(r: real, t: real, f: real, g: real, e: real)
    requires r > 0.0 && t > 0.0
    requires Rounds(f, r) && Rounds(g, t)
    requires g > 0.0 && Rounds(e, f / g)
    ensures 0.0 <= e * t <= r * (1.0 + 4.0 * ROUNDOFF)
  {
    RoundedPositive(r, f);
    var d := f / g;
    assert d * g == f;
    assert 0.0 <= d && 0.0 <= e <= d * (1.0 + ROUNDOFF);
    MonotoneReal(e, d * (1.0 + ROUNDOFF), g);
    assert d * (1.0 + ROUNDOFF) * g == f * (1.0 + ROUNDOFF);
    MonotoneReal(t * (1.0 - ROUNDOFF), g, e);
    var p := e * t;
    assert t * (1.0 - ROUNDOFF) * e == p * (1.0 - ROUNDOFF);
    assert p * (1.0 - ROUNDOFF) <= r * (1.0 + ROUNDOFF) * (1.0 + ROUNDOFF);
    MonotoneReal(0.0, e, t);
  }

  /** The estimate is at most twice the quotient, whatever the three roundings do. */
  lemma EstimateBound(r: nat, t: nat, f: real, g: real, e: real)
    requires r >= t > 0
    requires Rounds(f, r as real) && Rounds(g, t as real) && g > 0.0 && Rounds(e, f / g)
    ensures e.Floor <= 2 * (r / t)
  {
    var q := r / t;
    RoundedQuotient(r as real, t as real, f, g, e);
    assert r < (q + 1) * t by { assert r == q * t + r % t; }
    var (qr, tr) := (q as real, t as real);
    assert r as real <= (qr + 1.0) * tr;
    CancelFactor(e, (qr + 1.0) * (1.0 + 4.0 * ROUNDOFF), tr, r as real, qr);
    assert qr >= 1.0;
    assert e < 2.0 * qr + 1.0;
  }

  lemma CancelFactor(e: real, bound: real, t: real, r: real, q: real)
    requires t > 0.0 && e * t <= r * (1.0 + 4.0 * ROUNDOFF) && r <= (q + 1.0) * t
    requires bound == (q + 1.0) * (1.0 + 4.0 * ROUNDOFF)
    ensures e <= bound
  {
    MonotoneReal(r, (q + 1.0) * t, 1.0 + 4.0 * ROUNDOFF);
    assert (q + 1.0) * t * (1.0 + 4.0 * ROUNDOFF) == bound * t;
    assert e > bound ==> (e - bound) * t > 0.0;
  }

  /** A whole number with a significand of 53 bits. */
  ghost predicate IsDouble(n: int)
  {
    exists k: int, s: nat {:trigger Scaled(k, s)} :: n == Scaled(k, s) && -SIGNIFICAND <= k <= SIGNIFICAND
  }

  const SIGNIFICAND: int := 9007199254740992

  function Scaled(k: int, s: nat): (n: int) { k * Pow2(s) }

  /** `o` is the rounded-up binary logarithm of the estimate, give or take one. */
  predicate NearLog(o: int, n: nat)
  {
    -1 <= o && n <= Pow2(o + 1) && (o >= 2 ==> Pow2(o - 2) < n)
  }

  lemma {:induction false} SomeLog(n: nat) returns (o: nat)
    requires n >= 1
    ensures NearLog(o, n) && n <= Pow2(o) && (o > 0 ==> Pow2(o - 1) < n)
  {
    if n == 1 {
      o := 0;
    } else {
      o := SomeLog(n - 1);
      if n > Pow2(o) {
        o := o + 1;
      }
    }
    assert o >= 2 ==> Pow2(o - 1) == 2 * Pow2(o - 2);
  }

  function Step(o: int): (u: nat)
    ensures u > 0
  {
    if o <= 48 then 1 else Pow2(o - 48)
  }

  lemma StepBound(o: int, n: nat, q: nat)
    requires 1 <= n <= 2 * q && NearLog(o, n)
    ensures Step(o) <= q
  {
    hide Pow2;
    if o > 48 {
      SmallPower();
      Pow2Split(1, 45);
      Pow2Split(46, o - 48);
      Monotone(2, Pow2(46), Pow2(o - 48));
    }
  }

  // ---------------------------------------------------------------- exact steps

  lemma PowersOfTwo()
    ensures Pow2(52) * 2 == Pow2(53) == SIGNIFICAND
  {
    SmallPower();
    hide Pow2;
    Pow2Split(13, 13);
    Pow2Split(26, 26);
    Pow2Split(1, 52);
  }

  lemma SmallPower()
    ensures Pow2(13) == 8192 && Pow2(1) == 2
  {
    assert Pow2(5) == 32;
    assert Pow2(9) == 512;
  }

  lemma {:induction false} Pow2Ascends(m: nat, n: nat)
    ensures m < n <==> Pow2(m) < Pow2(n)
  {
    if m > 0 && n > 0 {
      Pow2Ascends(m - 1, n - 1);
    }
  }

  /** Every positive real rounds to a double, and so does one whose whole part is a double. */
  lemma SomeDouble(d: real) returns (e: real)
    requires d > 0.0
    ensures Rounds(e, d) && IsDouble(e.Floor)
  {
    var o := SomeLog(d.Floor + 1);
    PowersOfTwo();
    if o <= 53 {
      Pow2Ascends(53, o);
      RoundsSelf(d);
      e := d;
      assert e.Floor == Scaled(e.Floor, 0);
    } else {
      var s := o - 53;
      Pow2Split(s, 53);
      Pow2Split(s, 52);
      var unit := Pow2(s) as real;
      assert Pow2(o - 1) as real <= d < Pow2(o) as real;
      var k := NearestUnit(d, unit);
      e := k as real * unit;
      assert e == Scaled(k, s) as real;
    }
  }

  /** The nearest multiple of a unit that `d` has between 2^52 and 2^53 of. */
  lemma NearestUnit(d: real, unit: real) returns (k: int)
    requires unit > 0.0 && SIGNIFICAND as real * unit <= 2.0 * d && d < unit * SIGNIFICAND as real
    ensures 0 <= k <= SIGNIFICAND && Rounds(k as real * unit, d)
  {
    var x := d / unit;
    assert x * unit == d;
    k := (x + 0.5).Floor;
    if x >= SIGNIFICAND as real {
      MonotoneReal(SIGNIFICAND as real, x, unit);
    }
    if x < 0.0 {
      MonotoneReal(x, 0.0, unit);
    }
    var e := k as real * unit;
    OffByHalf(k as real, x, unit, e, d);
    HalfUnit(unit, d);
  }

  lemma OffByHalf(k: real, x: real, unit: real, e: real, d: real)
    requires unit > 0.0 && x * unit == d && e == k * unit && -0.5 <= k - x <= 0.5
    ensures -0.5 * unit <= e - d <= 0.5 * unit
  {
    var p := e - d;
    assert (k - x) * unit == p;
    HalfProduct(k - x, unit, p);
  }

  lemma HalfProduct(off: real, unit: real, p: real)
    requires unit > 0.0 && -0.5 <= off <= 0.5 && p == off * unit
    ensures -0.5 * unit <= p <= 0.5 * unit
  {
    AtMostHalf(off, unit, p);
    AtMostHalf(-off, unit, -p);
  }

  lemma AtMostHalf(off: real, unit: real, p: real)
    requires unit > 0.0 && off <= 0.5 && p == off * unit
    ensures p <= 0.5 * unit
  {
    MonotoneReal(off, 0.5, unit);
  }

  lemma HalfUnit(unit: real, d: real)
    requires SIGNIFICAND as real * unit <= 2.0 * d
    ensures 0.5 * unit <= d * ROUNDOFF
  {
    var h := d * ROUNDOFF;
    assert h * 9007199254740992.0 == d;
    assert SIGNIFICAND as real == 9007199254740992.0;
    assert SIGNIFICAND as real * unit == 9007199254740992.0 * unit;
    assert 9007199254740992.0 * unit <= 2.0 * (h * 9007199254740992.0);
  }

  /** The estimate and its step are whole numbers of one unit, so that every subtraction is exact. */
  ghost predicate OnGrid(n: int, u: int)
  {
    exists k: int, l: int, s: nat :: 0 <= k <= SIGNIFICAND && 0 < l && n == Scaled(k, s) && u == Scaled(l, s)
  }

  lemma StepOnGrid(n: int, u: int)
    requires OnGrid(n, u) && n >= u
    ensures OnGrid(n - u, u) && IsDouble(n) && IsDouble(n - u)
  {
    var k: int, l: int, s: nat :| 0 <= k <= SIGNIFICAND && 0 < l && n == Scaled(k, s) && u == Scaled(l, s);
    ScaledMinus(k, l, s);
  }

  lemma ScaledMinus(k: int, l: int, s: nat)
    ensures Scaled(k, s) - Scaled(l, s) == Scaled(k - l, s)
    ensures Scaled(k, s) >= Scaled(l, s) ==> k >= l
  {
    if k < l {
      Monotone(k + 1, l, Pow2(s));
    }
  }

  /** A double in its own exponent: as many significant bits as there are, or no unit above one. */
  lemma {:induction false} Normal(k: nat, s: nat) returns (k': nat, s': nat)
    requires 0 < k <= SIGNIFICAND
    ensures Scaled(k', s') == Scaled(k, s) && 0 < k' <= SIGNIFICAND && (s' == 0 || 2 * k' > SIGNIFICAND)
    decreases s
  {
    if s == 0 || 2 * k > SIGNIFICAND {
      k', s' := k, s;
    } else {
      assert Scaled(2 * k, s - 1) == Scaled(k, s);
      k', s' := Normal(2 * k, s - 1);
    }
  }

  lemma StepsExact(n: nat, o: int)
    requires n >= 1 && IsDouble(n) && NearLog(o, n)
    ensures OnGrid(n, Step(o))
  {
    hide Pow2, NearLog, Step;
    var k: int, s: nat :| n == Scaled(k, s) && -SIGNIFICAND <= k <= SIGNIFICAND;
    if k <= 0 {
      Monotone(k, 0, Pow2(s));
    }
    var k', s' := Normal(k, s);
    if s' == 0 {
      UnitStep(o);
    } else {
      var l := GridStep(n, k', s', o);
    }
  }

  lemma UnitStep(o: int)
    ensures Step(o) == Scaled(Step(o), 0)
  {}

  /** The step is a multiple of the last place of a normal estimate. */
  lemma GridStep(n: nat, k: nat, s: nat, o: int) returns (l: nat)
    requires n == Scaled(k, s) && 2 * k > SIGNIFICAND && s > 0 && NearLog(o, n)
    ensures 0 < l && Step(o) == Scaled(l, s)
  {
    hide Pow2;
    PowersOfTwo();
    Monotone(Pow2(52) + 1, k, Pow2(s));
    Pow2Split(52, s);
    Pow2Ascends(52 + s, o + 1);
    Pow2Split(o - 48 - s, s);
    l := Pow2(o - 48 - s);
  }

  // ---------------------------------------------------------------- one trial

  /** What the wrapped product says about a trial quotient of at most twice the true one. */
  lemma Trial(s: Integer, c: Integer, y: Integer, r: Integer)
    requires Value(r) >= Value(y) > 0 && 1 <= Value(s) <= 2 * (Value(r) / Value(y))
    requires c == Multiply(s, y)
    ensures (IsNegative(c) || Compare(c, r) > 0) <==> Value(s) > Value(r) / Value(y)
    ensures Value(s) <= Value(r) / Value(y) ==> Value(c) == Value(s) * Value(y)
  {
    var (v, t, q) := (Value(s), Value(y), Value(r) / Value(y));
    MultiplyValue(s, y);
    SignValue(c);
    CompareOrder(c, r);
    TrialProduct(v, t, q, Value(r));
    if v * t < TWO_63 {
      WrapId(v * t);
    } else {
      WrapIs(v * t, v * t - TWO_64, 1);
    }
  }

  lemma TrialProduct(v: nat, t: nat, q: nat, r: nat)
    requires t > 0 && q == r / t && 1 <= v <= 2 * q && r < TWO_63
    ensures 0 <= v * t < TWO_64
    ensures v * t > r <==> v > q
  {
    FitsIff(v, r, t);
    assert q * t <= r by { assert r == q * t + r % t; }
    assert v * t <= 2 * q * t by { NonNegative(2 * q - v, t); }
    NonNegative(v, t);
  }

  lemma TrialStart(n: int, q: nat)
    requires 1 <= n <= 2 * q && q < TWO_63
    ensures 1 <= Value(FromNumber(n)) <= 2 * q
    ensures Value(FromNumber(n)) > q ==> n > q
  {
    FromNumberValue(n);
  }

  // ---------------------------------------------------------------- the positive case

  method DividePositive(x: Integer, y: Integer) returns (i: Integer)
    requires Value(x) >= 0 && Value(y) > 0
    ensures Value(i) == Value(x) / Value(y)
  {
    hide Value, Multiply, Subtract, Add, Compare;
    i := ZERO;
    var r := x;
    Constants();
    CompareOrder(r, y);
    while Compare(r, y) >= 0
      invariant Value(i) >= 0 && Value(r) >= 0
      invariant Value(x) == Value(i) * Value(y) + Value(r)
      invariant Compare(r, y) >= 0 <==> Value(r) >= Value(y)
      decreases Value(r)
    {
      var s, c := TrialQuotient(r, y);
      if IsZero(s) {
        s := ONE;
      }
      NextRemainder(i, r, s, c, x, y);
      i := Add(i, s);
      r := Subtract(r, c);
      CompareOrder(r, y);
    }
    DivUnique(Value(x), Value(y), Value(i), Value(r));
  }

  lemma NextRemainder(i: Integer, r: Integer, s: Integer, c: Integer, x: Integer, y: Integer)
    requires Value(i) >= 0 && Value(r) >= 0 && Value(y) > 0 && Value(s) > 0
    requires Value(x) == Value(i) * Value(y) + Value(r)
    requires Value(c) == Value(s) * Value(y) <= Value(r)
    ensures Value(Add(i, s)) == Value(i) + Value(s)
    ensures 0 <= Value(Subtract(r, c)) == Value(r) - Value(c) < Value(r)
    ensures Value(x) == (Value(i) + Value(s)) * Value(y) + Value(r) - Value(c)
  {
    hide Value, Subtract, Add, Wrap64;
    Accumulate(Value(i), Value(s), Value(y), Value(r));
    AddValue(i, s);
    WrapId(Value(i) + Value(s));
    SubtractValue(r, c);
    WrapId(Value(r) - Value(c));
  }

  lemma Accumulate(i: nat, s: nat, y: nat, r: nat)
    requires y > 0 && s * y <= r
    ensures i + s <= (i + s) * y == i * y + s * y
    ensures s <= s * y
  {
    NonNegative(i + s, y - 1);
    NonNegative(s, y - 1);
  }

  /** The rounded estimate and the size of the steps that lower it. */
  method Estimate(r: Integer, y: Integer) returns (n: nat, u: nat)
    requires Value(r) >= Value(y) > 0
    ensures 1 <= n <= 2 * (Value(r) / Value(y)) && 1 <= u <= Value(r) / Value(y)
    ensures IsDouble(n) && OnGrid(n, u)
  {
    var (x, t) := (Value(r) as real, Value(y) as real);
    FitsIff(1, Value(r), Value(y));
    RoundsSelf(x);
    RoundsSelf(t);
    var f: real :| Rounds(f, x);
    var g: real :| Rounds(g, t);
    RoundedPositive(x, f);
    RoundedPositive(t, g);
    var _ := SomeDouble(f / g);
    var e: real, k: int, s: nat :|
      Rounds(e, f / g) && e.Floor == Scaled(k, s) && -SIGNIFICAND <= k <= SIGNIFICAND;
    EstimateBound(Value(r), Value(y), f, g, e);
    n := if e.Floor < 1 then 1 else e.Floor;
    assert 1 == Scaled(1, 0);
    var _ := SomeLog(n);
    var o: int :| NearLog(o, n);
    u := Step(o);
    StepBound(o, n, Value(r) / Value(y));
    StepsExact(n, o);
  }

  /** One estimate, lowered until its product does not exceed the remainder; it never reaches zero. */
  method TrialQuotient(r: Integer, y: Integer) returns (s: Integer, c: Integer)
    requires Value(r) >= Value(y) > 0
    ensures 1 <= Value(s) <= Value(r) / Value(y)
    ensures Value(c) == Value(s) * Value(y) <= Value(r)
    ensures !IsZero(s)
  {
    hide Value, Multiply, FromNumber, Compare;
    ghost var q := Value(r) / Value(y);
    var n, u := Estimate(r, y);
    s := FromNumber(n);
    c := Multiply(s, y);
    TrialStart(n, q);
    Trial(s, c, y, r);
    while IsNegative(c) || Compare(c, r) > 0
      invariant 1 <= n <= 2 * q && OnGrid(n, u)
      invariant s == FromNumber(n) && c == Multiply(s, y)
      decreases n
    {
      TrialStart(n, q);
      Trial(s, c, y, r);
      StepOnGrid(n, u);
      assert IsDouble(n - u);
      n := n - u;
      s := FromNumber(n);
      c := Multiply(s, y);
    }
    TrialStart(n, q);
    Trial(s, c, y, r);
    SignValue(s);
    FitsIff(Value(s), Value(r), Value(y));
  }

  // ---------------------------------------------------------------- all signs

  /** `shiftRight(1)` */
  function Halve(x: Integer): (h: Integer)
  {
    FromBits(ToUint32(x.low) / 2 + x.high % 2 * TWO_31, x.high / 2)
  }

  /** `shiftLeft(1)` */
  function Twice(x: Integer): (d: Integer)
  {
    FromBits(2 * x.low, 2 * x.high + ToUint32(x.low) / TWO_31)
  }

  lemma HalveValue(x: Integer)
    ensures Value(Halve(x)) == Value(x) / 2
  {
    var low := ToUint32(x.low) / 2 + x.high % 2 * TWO_31;
    FromBitsValue(low, x.high / 2);
    DivUnique(low, TWO_32, 0, low);
    WrapId(Value(x) / 2);
  }

  lemma TwiceValue(x: Integer)
    ensures Value(Twice(x)) == Wrap64(2 * Value(x))
  {
    ToInt32Unsigned(x.low);
    FromBitsValue(2 * x.low, 2 * x.high + ToUint32(x.low) / TWO_31);
    var u := ToUint32(x.low);
    DivUnique(2 * x.low, TWO_32, if x.low < 0 then -1 else 0, 2 * u - u / TWO_31 * TWO_32);
  }

  datatype DivideError = DivisionByZero

  lemma QuotientSigns(x: int, y: int)
    requires y != 0
    ensures x != 0 ==> Quotient(-x, y) == -Quotient(x, y) && Quotient(x, -y) == -Quotient(x, y)
    ensures x != 0 ==> Quotient(-x, -y) == Quotient(x, y)
    ensures Quotient(0, y) == 0
  {
    DivUnique(0, if y > 0 then y else -y, 0, 0);
  }

  lemma QuotientBound(x: int, y: int)
    requires y != 0 && x != -TWO_63 && InRange(x) && InRange(y)
    ensures -TWO_63 < Quotient(x, y) < TWO_63
    ensures y == -TWO_63 ==> Quotient(x, y) == 0
  {
    DivBounds(if x > 0 then x else -x, if y > 0 then y else -y);
  }

  lemma NegateFacts(x: Integer)
    requires x != MIN_VALUE
    ensures Value(Negate(x)) == -Value(x) && Negate(x) != MIN_VALUE
    ensures IsNegative(x) <==> Value(x) < 0
    ensures IsNegative(Negate(x)) <==> Value(x) > 0
  {
    SignValue(x);
    NegateValue(x);
    SignValue(Negate(x));
    NotLeast(x);
    Constants();
  }

  lemma QuotientInRange(x: Integer, y: Integer)
    requires x != MIN_VALUE && Value(y) != 0
    ensures var q := Quotient(Value(x), Value(y));
            -TWO_63 < q < TWO_63 && Wrap64(q) == q && Wrap64(-q) == -q
    ensures y == MIN_VALUE ==> Quotient(Value(x), Value(y)) == 0
    ensures Value(x) == 0 ==> Quotient(Value(x), Value(y)) == 0
  {
    NotLeast(x);
    Constants();
    QuotientSigns(Value(x), Value(y));
    QuotientBound(Value(x), Value(y));
    WrapId(Quotient(Value(x), Value(y)));
    WrapId(-Quotient(Value(x), Value(y)));
  }

  /** The truncated quotient, for every non-zero divisor; only MIN_VALUE / -1 wraps. */
  method Divide(x: Integer, y: Integer) returns (result: Result<Integer, DivideError>)
    ensures IsZero(y) <==> Value(y) == 0
    ensures IsZero(y) ==> result == Err(DivisionByZero)
    ensures !IsZero(y) ==> result.Ok? && Value(result.value) == Wrap64(Quotient(Value(x), Value(y)))
    decreases x == MIN_VALUE, IsNegative(x), IsNegative(y), 1
  {
    SignValue(x); SignValue(y);
    Constants();
    if IsZero(y) {
      return Err(DivisionByZero);
    }
    if IsZero(x) {
      QuotientInRange(x, y);
      return Ok(ZERO);
    }
    if x == MIN_VALUE {
      var q := DivideLeast(y);
      return Ok(q);
    }
    QuotientInRange(x, y);
    if y == MIN_VALUE {
      return Ok(ZERO);
    }
    var q := DivideOrdinary(x, y);
    return Ok(q);
  }

  /** Both operands differ from the least value: signs are flipped until both are positive. */
  method DivideOrdinary(x: Integer, y: Integer) returns (q: Integer)
    requires x != MIN_VALUE && y != MIN_VALUE && Value(x) != 0 && Value(y) != 0
    ensures Value(q) == Quotient(Value(x), Value(y))
    decreases false, IsNegative(x), IsNegative(y), 0
  {
    hide Value, Negate, Wrap64;
    NegateFacts(x);
    NegateFacts(y);
    QuotientInRange(x, y);
    QuotientSigns(Value(x), Value(y));
    if IsNegative(x) {
      if IsNegative(y) {
        q := Recurse(Negate(x), Negate(y));
      } else {
        var p := Recurse(Negate(x), y);
        NegateValue(p);
        q := Negate(p);
      }
    } else if IsNegative(y) {
      var p := Recurse(x, Negate(y));
      NegateValue(p);
      q := Negate(p);
    } else {
      q := DividePositive(x, y);
    }
  }

  /** The recursive call, whose divisor is never zero. */
  method Recurse(x: Integer, y: Integer) returns (q: Integer)
    requires x != MIN_VALUE && Value(y) != 0
    ensures Value(q) == Quotient(Value(x), Value(y))
    decreases false, IsNegative(x), IsNegative(y), 2
  {
    QuotientInRange(x, y);
    var r := Divide(x, y);
    q := r.value;
  }

  lemma NotLeast(x: Integer)
    requires x != MIN_VALUE
    ensures Value(x) > -TWO_63
  {
    Constants();
    if Value(x) == -TWO_63 {
      ValueInjective(x, MIN_VALUE);
    }
  }

  lemma LeastByUnit()
    ensures Wrap64(Quotient(-TWO_63, 1)) == Wrap64(Quotient(-TWO_63, -1)) == -TWO_63
    ensures Wrap64(Quotient(-TWO_63, -TWO_63)) == 1
  {
    WrapIs(TWO_63, -TWO_63, 1);
    WrapId(-TWO_63);
    WrapId(1);
  }

  /** Dividing the least value: half of it is divided first, then what is left over. */
  method DivideLeast(y: Integer) returns (q: Integer)
    requires Value(y) != 0
    ensures Value(q) == Wrap64(Quotient(-TWO_63, Value(y)))
    decreases true, true, IsNegative(y), 0
  {
    hide Quotient, Wrap64, Value, ToUint32, Multiply, Subtract, Add, Twice, Halve;
    Constants();
    SignValue(y);
    var t := Value(y);
    LeastByUnit();
    if y == ONE || y == NEG_ONE {
      return MIN_VALUE;
    }
    if y == MIN_VALUE {
      return ONE;
    }
    NotLeast(y);
    assert t != 1 && t != -1 by {
      if t == 1 { ValueInjective(y, ONE); } else if t == -1 { ValueInjective(y, NEG_ONE); }
    }
    HalveValue(MIN_VALUE);
    var half := Recurse(Halve(MIN_VALUE), y);
    var n := Twice(half);
    TwiceValue(half);
    HalvedQuotient(t);
    WrapId(2 * Quotient(-TWO_63 / 2, t));
    assert n == ZERO <==> Value(n) == 0 by { if Value(n) == 0 { ValueInjective(n, ZERO); } }
    if n == ZERO {
      WrapId(if t < 0 then 1 else -1);
      return if IsNegative(y) then ONE else NEG_ONE;
    }
    var r := Subtract(MIN_VALUE, Multiply(y, n));
    ghost var p := t * (2 * Quotient(-TWO_63 / 2, t));
    ProductInRange(y, n, p);
    DifferenceInRange(MIN_VALUE, Multiply(y, n), -TWO_63 - p);
    var rest := Recurse(r, y);
    SumInRange(n, rest, Quotient(-TWO_63, t));
    q := Add(n, rest);
  }

  /** The quotient of -2^63 put together from the quotient of -2^62. */
  lemma HalvedQuotient(t: int)
    requires -TWO_63 < t < TWO_63 && !(-1 <= t <= 1)
    ensures var n := 2 * Quotient(-TWO_63 / 2, t);
            var r := -TWO_63 - t * n;
            && -TWO_63 < n < TWO_63 && InRange(t * n) && -TWO_63 <= r <= 0
            && (n != 0 ==> r > -TWO_63)
            && Quotient(-TWO_63, t) == n + Quotient(r, t)
            && (n == 0 ==> Quotient(-TWO_63, t) == if t < 0 then 1 else -1)
            && -TWO_63 / 2 <= Quotient(r, t) <= TWO_63 / 2
            && InRange(Quotient(-TWO_63, t))
  {
    var b := if t > 0 then t else -t;
    var h := (TWO_63 / 2) / b;
    Doubling(b);
    var e := if TWO_63 - 2 * (h * b) < b then 0 else 1;
    Signed(t, h, Quotient(-TWO_63 / 2, t));
    DivUnique(TWO_63 - 2 * (h * b), b, e, TWO_63 - 2 * (h * b) - e * b);
  }

  lemma Signed(t: int, h: int, q: int)
    requires q == if t > 0 then -h else h
    ensures t * (2 * q) == -(2 * (h * if t > 0 then t else -t))
  {
    if t > 0 {
      assert t * (2 * q) == -(2 * (h * t));
    } else {
      assert t * (2 * q) == -(2 * (h * -t));
    }
  }

  lemma Doubling(b: int)
    requires 1 < b < TWO_63
    ensures var h := (TWO_63 / 2) / b; var rest := TWO_63 - 2 * (h * b);
            && 0 <= h < TWO_63 / 2 && 0 <= h * b && 0 <= rest < 2 * b && (h > 0 ==> h * b > 0)
            && TWO_63 / b == 2 * h + if rest < b then 0 else 1
  {
    var h, m := (TWO_63 / 2) / b, (TWO_63 / 2) % b;
    assert TWO_63 / 2 == h * b + m;
    NonNegative(h, b - 2);
    NonNegative(h, b);
    var e := if 2 * m < b then 0 else 1;
    assert (2 * h + e) * b == 2 * (h * b) + e * b;
    DivUnique(TWO_63, b, 2 * h + e, 2 * m - e * b);
  }

  lemma ProductInRange(x: Integer, y: Integer, p: int)
    requires p == Value(x) * Value(y) && InRange(p)
    ensures Value(Multiply(x, y)) == p
  {
    MultiplyValue(x, y);
    WrapId(p);
  }

  lemma DifferenceInRange(x: Integer, y: Integer, d: int)
    requires d == Value(x) - Value(y) && InRange(d)
    ensures Value(Subtract(x, y)) == d
  {
    SubtractValue(x, y);
    WrapId(d);
  }

  lemma SumInRange(x: Integer, y: Integer, s: int)
    requires s == Value(x) + Value(y) && InRange(s)
    ensures Value(Add(x, y)) == s && Wrap64(s) == s
  {
    AddValue(x, y);
    WrapId(s);
  }

  /** A quotient that wrapped still gives the right remainder. */
  lemma ModuloValue(x: Integer, y: Integer, q: Integer)
    requires Value(y) != 0 && Value(q) == Wrap64(Quotient(Value(x), Value(y)))
    ensures Value(Subtract(x, Multiply(q, y))) == Remainder(Value(x), Value(y))
  {
    hide Value, Subtract, Multiply, Wrap64, Quotient;
    var (a, b) := (Value(x), Value(y));
    MultiplyValue(q, y);
    SubtractValue(x, Multiply(q, y));
    var k := WrapSplit(Quotient(a, b));
    var j := WrapSplit(Value(q) * b);
    SplitProduct(Quotient(a, b), Value(q), k, b);
    RemainderRange(a, b);
    WrapIs(a - Value(Multiply(q, y)), Remainder(a, b), k * b + j);
  }

  lemma SplitProduct(p: int, q: int, k: int, b: int)
    requires p == q + k * TWO_64
    ensures p * b == q * b + k * b * TWO_64
  {
    assert k * TWO_64 * b == k * b * TWO_64;
  }

  lemma RemainderRange(a: int, b: int)
    requires b != 0 && InRange(a) && InRange(b)
    ensures InRange(Remainder(a, b))
  {
    var (m, n) := (if a >= 0 then a else -a, if b > 0 then b else -b);
    assert m == (m / n) * n + m % n;
  }

  /** `modulo`: the remainder with the dividend's sign, even where the quotient wraps. */
  method Modulo(x: Integer, y: Integer) returns (result: Result<Integer, DivideError>)
    ensures IsZero(y) ==> result == Err(DivisionByZero)
    ensures !IsZero(y) ==> Value(y) != 0 && result.Ok? && Value(result.value) == Remainder(Value(x), Value(y))
  {
    var q := Divide(x, y);
    if q.Err? {
      return q;
    }
    ModuloValue(x, y, q.value);
    return Ok(Subtract(x, Multiply(q.value, y)));
  }
}