/**
  * The driver's date and time conversions, on the values of its 64-bit integers: every sum, product
  * and quotient below wraps as the integer type does. The proofs show that none of them does wrap
  * and that conversions in both directions undo each other.
  */
module Temporal {
  import opened JsNumber
  import opened Integer64
  import opened IntegerDivision
  import opened Calendar

  function Plus(a: int, b: int): (r: int) { Wrap64(a + b) }

  function Minus(a: int, b: int): (r: int) { Wrap64(a - b) }

  function Times(a: int, b: int): (r: int) { Wrap64(a * b) }

  function Over(a: int, b: int): (r: int)
    requires b != 0
  {
    Wrap64(Quotient(a, b))
  }

  /** These operations are what the integer type computes. */
  lemma OperationsAreIntegers(x: Integer, y: Integer)
    ensures Value(Add(x, y)) == Plus(Value(x), Value(y))
    ensures Value(Subtract(x, y)) == Minus(Value(x), Value(y))
    ensures Value(Multiply(x, y)) == Times(Value(x), Value(y))
    ensures Compare(x, y) < 0 <==> Value(x) < Value(y)
    ensures Compare(x, y) == 0 <==> Value(x) == Value(y)
    ensures IsNegative(x) <==> Value(x) < 0
    ensures IsZero(x) <==> Value(x) == 0
  {
    AddValue(x, y);
    SubtractValue(x, y);
    MultiplyValue(x, y);
    CompareOrder(x, y);
    SignValue(x);
  }

  /** So are quotient and remainder. */
  method QuotientsAreIntegers(x: Integer, y: Integer) returns (q: Integer, r: Integer)
    requires Value(y) != 0
    ensures Value(q) == Over(Value(x), Value(y)) && Value(r) == Remainder(Value(x), Value(y))
  {
    var quotient := Divide(x, y);
    var remainder := Modulo(x, y);
    q, r := quotient.value, remainder.value;
  }

  // ---------------------------------------------------------------- dates

  function LeapYears(y: int): (n: int)
  {
    if y >= 0 then Plus(Minus(Over(Plus(y, 3), 4), Over(Plus(y, 99), 100)), Over(Plus(y, 399), 400))
    else Plus(Minus(Over(y, -4), Over(y, -100)), Over(y, -400))
  }

  function DateToEpochDay(year: int, month: int, day: int): (n: int)
  {
    var r0 := Times(year, 365);
    var r1 := if year >= 0 then Plus(r0, LeapYears(year)) else Minus(r0, LeapYears(year));
    var r2 := Plus(r1, Over(Minus(Times(month, 367), 362), 12));
    var r3 := Plus(r2, Minus(day, 1));
    var leap := Remainder(year, 4) == 0 && (Remainder(year, 100) != 0 || Remainder(year, 400) == 0);
    var r4 := if month > 2 then (if leap then Minus(r3, 1) else Minus(Minus(r3, 1), 1)) else r3;
    Minus(r4, DAYS_TO_1970)
  }

  function DayOfMarchYear(z: int, i: int): (doy: int)
  {
    Minus(z, Plus(Minus(Plus(Times(i, 365), Over(i, 4)), Over(i, 100)), Over(i, 400)))
  }

  function EpochDayToDate(e: int): (d: Date)
  {
    var z0 := Minus(Plus(e, DAYS_TO_1970), 60);
    var cycles := if z0 < 0 then Minus(Over(Plus(z0, 1), CYCLE), 1) else 0;
    var z := if z0 < 0 then Plus(z0, Times(cycles, -CYCLE)) else z0;
    var n := if z0 < 0 then Times(cycles, 400) else 0;
    var i0 := Over(Plus(Times(z, 400), 591), CYCLE);
    var o0 := DayOfMarchYear(z, i0);
    var i := if o0 < 0 then Minus(i0, 1) else i0;
    var o := if o0 < 0 then DayOfMarchYear(z, i) else o0;
    var y := Plus(i, n);
    var c := Over(Plus(Times(o, 5), 2), 153);
    var month := Plus(Remainder(Plus(c, 2), 12), 1);
    var day := Plus(Minus(o, Over(Plus(Times(c, 306), 5), 10)), 1);
    Date(Plus(y, Over(c, 10)), month, day)
  }

  /** Bounds for years and days within which nothing overflows; the driver allows years to 999,999,999. */
  const YEARS := 1_000_000_000_000
  const DAYS := 10_000_000_000_000

  lemma Small(n: int)
    requires -0x4000_0000_0000_0000 <= n <= 0x4000_0000_0000_0000
    ensures Wrap64(n) == n
  {
    WrapId(n);
  }

  lemma Floor(a: nat, b: int)
    requires b > 0
    ensures Quotient(a, b) == a / b && Remainder(a, b) == a % b && 0 <= a / b <= a
  {
    DivBounds(a, b);
  }

  lemma Divisible(a: int, b: int)
    requires b > 0
    ensures Remainder(a, b) == 0 <==> a % b == 0
  {
    if a >= 0 {
      Floor(a, b);
    } else {
      Floor(-a, b);
      DivBounds(-a, b);
      SignedMultiple(a, b);
    }
  }

  lemma SignedMultiple(a: int, b: int)
    requires b > 0
    ensures a % b == 0 <==> -a % b == 0
  {
    var (q, r) := (a / b, a % b);
    assert a == q * b + r;
    if r == 0 {
      DivUnique(-a, b, -q, 0);
    } else {
      DivUnique(-a, b, -q - 1, b - r);
    }
  }

  /** The leap-year terms for both signs are the same rounded-down quotients. */
  lemma LeapYearsExact(y: int)
    requires -YEARS <= y <= YEARS
    ensures var l := (y + 3) / 4 - (y + 99) / 100 + (y + 399) / 400;
            LeapYears(y) == (if y >= 0 then l else -l) && -YEARS <= l <= YEARS
  {
    hide Wrap64, Quotient, Plus, Minus, Over;
    if y >= 0 {
      SmallPlus(y, 3); SmallPlus(y, 99); SmallPlus(y, 399);
      SmallOver(y + 3, 4); SmallOver(y + 99, 100); SmallOver(y + 399, 400);
      MinusPlus((y + 3) / 4, (y + 99) / 100, (y + 399) / 400);
    } else {
      RoundUp(y, 4); RoundUp(y, 100); RoundUp(y, 400);
      MinusPlus(-y / 4, -y / 100, -y / 400);
    }
  }

  lemma SmallPlus(a: int, b: int)
    requires -0x4000_0000_0000_0000 <= a + b <= 0x4000_0000_0000_0000
    ensures Plus(a, b) == a + b
  {
    Small(a + b);
  }

  lemma SmallOver(a: nat, b: int)
    requires b > 0 && a <= 0x4000_0000_0000_0000
    ensures Over(a, b) == a / b && 0 <= a / b <= a
  {
    Floor(a, b);
    Small(a / b);
  }

  lemma MinusPlus(p: int, q: int, r: int)
    requires 0 <= p <= YEARS && 0 <= q <= YEARS && 0 <= r <= YEARS
    ensures Plus(Minus(p, q), r) == p - q + r
  {
    Small(p - q);
    Small(p - q + r);
  }

  lemma RoundUp(y: int, b: int)
    requires -YEARS <= y < 0 && (b == 4 || b == 100 || b == 400)
    ensures Over(y, -b) == -y / b == -((y + b - 1) / b)
    ensures 0 <= -y / b <= -y
  {
    Floor(-y, b);
    assert Quotient(y, -b) == -y / b;
    Small(-y / b);
  }

  lemma YearTerm(y: int)
    requires -YEARS <= y <= YEARS
    ensures YearStart(y) == if y >= 0 then Plus(Times(y, 365), LeapYears(y)) else Minus(Times(y, 365), LeapYears(y))
    ensures -400 * YEARS <= YearStart(y) <= 400 * YEARS
  {
    hide Wrap64, LeapYears;
    LeapYearsExact(y);
    Small(y * 365);
    Small(YearStart(y));
  }

  lemma MonthTerm(m: int)
    requires 1 <= m <= 12
    ensures Over(Minus(Times(m, 367), 362), 12) == (367 * m - 362) / 12
    ensures 0 <= (367 * m - 362) / 12 <= 400
  {
    hide Wrap64;
    Small(m * 367);
    Small(m * 367 - 362);
    Floor(m * 367 - 362, 12);
    Small((m * 367 - 362) / 12);
  }

  /** The driver's day count is the calendar's, and nothing wraps on the way. */
  lemma DateToEpochDayExact(d: Date)
    requires Exists(d) && -YEARS <= d.year <= YEARS
    ensures DateToEpochDay(d.year, d.month, d.day) == EpochDay(d)
  {
    hide Wrap64, LeapYears, Quotient, Times, Over, YearStart, Remainder;
    var (y, m) := (d.year, d.month);
    YearTerm(y);
    MonthTerm(m);
    Divisible(y, 4); Divisible(y, 100); Divisible(y, 400);
    var r2 := YearStart(y) + (m * 367 - 362) / 12;
    Small(r2);
    Small(d.day - 1);
    var r := r2 + d.day - 1;
    Small(r); Small(r - 1); Small(r - 2);
    Small(r - DAYS_TO_1970); Small(r - 1 - DAYS_TO_1970); Small(r - 2 - DAYS_TO_1970);
  }

  lemma MarchStartBounds(i: int)
    ensures 365 * i - 1 <= MarchStart(i) <= 366 * i || i < 0
    ensures i >= 0 ==> MarchStart(i) >= 0
  {}

  lemma DayOfMarchYearExact(z: int, i: int)
    requires 0 <= i <= YEARS && -DAYS <= z <= 2 * DAYS
    ensures DayOfMarchYear(z, i) == z - MarchStart(i)
  {
    hide Wrap64, Quotient, Over, Plus, Minus, MarchStart;
    SmallOver(i, 4); SmallOver(i, 100); SmallOver(i, 400);
    Small(i * 365);
    FourTerms(z, i * 365, i / 4, i / 100, i / 400);
    MarchStartIs(i);
  }

  lemma FourTerms(z: int, a: int, p: int, q: int, r: int)
    requires -DAYS <= z <= 2 * DAYS && 0 <= a <= 400 * YEARS
    requires 0 <= p <= YEARS && 0 <= q <= YEARS && 0 <= r <= YEARS
    ensures Minus(z, Plus(Minus(Plus(a, p), q), r)) == z - (a + p - q + r)
  {
    hide Wrap64;
    Small(a + p);
    Small(a + p - q);
    Small(a + p - q + r);
    Small(z - (a + p - q + r));
  }

  /** Month and day, once the year that begins in March is known. */
  lemma FromMarchExact(o: int, y: int)
    requires 0 <= o <= 365 && -2 * YEARS <= y <= 2 * YEARS
    ensures var c := Over(Plus(Times(o, 5), 2), 153);
            FromMarch(y, o) == Date(Plus(y, Over(c, 10)), Plus(Remainder(Plus(c, 2), 12), 1),
                                    Plus(Minus(o, Over(Plus(Times(c, 306), 5), 10)), 1))
  {
    hide Wrap64, Quotient, Remainder;
    var c := (5 * o + 2) / 153;
    MarchMonth(o, c);
    Small(o * 5); Small(o * 5 + 2);
    Floor(o * 5 + 2, 153);
    Small(c);
    Floor(c, 10);
    Small(c / 10); Small(y + c / 10);
    Small(c + 2);
    Floor(c + 2, 12);
    Small((c + 2) % 12 + 1);
    Small(c * 306); Small(c * 306 + 5);
    Floor(c * 306 + 5, 10);
    var k := (c * 306 + 5) / 10;
    Small(k); Small(o - k); Small(o - k + 1);
  }

  /** Whole cycles of 400 years that bring a negative day count to the first cycle. */
  lemma NegativeCycles(z: int)
    requires -2 * DAYS <= z < 0
    ensures var k := Minus(Over(Plus(z, 1), CYCLE), 1);
            && -YEARS / 400 <= k < 0
            && Times(k, 400) == 400 * k && Times(k, -CYCLE) == -CYCLE * k
            && 0 <= z - CYCLE * k < CYCLE && Plus(z, Times(k, -CYCLE)) == z - CYCLE * k
  {
    hide Wrap64, Quotient;
    var q := -(z + 1) / CYCLE;
    NegatedFloor(z + 1);
    Small(z + 1); Small(-q); Small(-q - 1);
    var k := -q - 1;
    Small(k * 400); Small(k * -CYCLE); Small(z - CYCLE * k);
  }

  lemma NegatedFloor(a: int)
    requires a <= 0
    ensures Quotient(a, CYCLE) == -(-a / CYCLE)
  {}

  /** The year estimate, corrected by one where the day falls before its March. */
  lemma MarchYear(z: int)
    requires 0 <= z <= 2 * DAYS
    ensures var i0 := Over(Plus(Times(z, 400), 591), CYCLE);
            var o0 := DayOfMarchYear(z, i0);
            var i := if o0 < 0 then Minus(i0, 1) else i0;
            var o := if o0 < 0 then DayOfMarchYear(z, i) else o0;
            0 <= i <= YEARS && 0 <= o < 365 + LeapDay(i + 1) && z == MarchStart(i) + o
  {
    hide Wrap64, Quotient, MarchStart, LeapDay, DayOfMarchYear;
    var i0 := (400 * z + 591) / CYCLE;
    Small(z * 400); Small(z * 400 + 591);
    Floor(z * 400 + 591, CYCLE);
    Small(i0);
    YearEstimate(z, i0);
    DayOfMarchYearExact(z, i0);
    MarchStartBounds(0);
    MarchStartZero();
    MarchLength(i0);
    MarchLength(i0 - 1);
    if z < MarchStart(i0) {
      Small(i0 - 1);
      DayOfMarchYearExact(z, i0 - 1);
    }
  }

  lemma MarchStartZero()
    ensures MarchStart(0) == 0
  {}

  /** The date computed from a day count exists and has that day count. */
  lemma EpochDayToDateExact(e: int)
    requires -DAYS <= e <= DAYS
    ensures Exists(EpochDayToDate(e)) && EpochDay(EpochDayToDate(e)) == e
  {
    hide Wrap64, Over, Times, Remainder, DayOfMarchYear, MarchStart, LeapDay, FromMarch, EpochDay, Exists, IsLeap;
    Small(e + DAYS_TO_1970);
    var z0 := e + DAYS_TO_1970 - 60;
    Small(z0);
    var k := if z0 < 0 then Minus(Over(Plus(z0, 1), CYCLE), 1) else 0;
    if z0 < 0 {
      NegativeCycles(z0);
    }
    var z := z0 - CYCLE * k;
    MarchYear(z);
    var i0 := Over(Plus(Times(z, 400), 591), CYCLE);
    var o0 := DayOfMarchYear(z, i0);
    var i := if o0 < 0 then Minus(i0, 1) else i0;
    var o := if o0 < 0 then DayOfMarchYear(z, i) else o0;
    var y := i + 400 * k;
    Small(y);
    LeapBound(i + 1);
    FromMarchExact(o, y);
    LeapCycles(i + 1, k);
    MarchCycles(i, k);
    FromMarchCorrect(y, o);
  }

  lemma LeapCycles(y: int, k: int)
    ensures LeapDay(y + 400 * k) == LeapDay(y)
  {
    hide LeapDay, MarchStart;
    MarchCycles(y - 1, k);
    MarchCycles(y, k);
    MarchLength(y - 1);
    MarchLength(y - 1 + 400 * k);
  }

  /** The two conversions undo each other: on every date to the year one billion, and on every count. */
  lemma DatesAndDays(d: Date, e: int)
    requires Exists(d) && -999_999_999 <= d.year <= 999_999_999
    requires -DAYS <= e <= DAYS
    ensures EpochDayToDate(DateToEpochDay(d.year, d.month, d.day)) == d
    ensures var f := EpochDayToDate(e); Exists(f) && DateToEpochDay(f.year, f.month, f.day) == e
  {
    hide EpochDayToDate, DateToEpochDay, EpochDay, Exists;
    DateToEpochDayExact(d);
    EpochDayBounds(d);
    EpochDayToDateExact(EpochDay(d));
    EpochDayInjective(EpochDayToDate(EpochDay(d)), d);
    EpochDayToDateExact(e);
    YearBounds(EpochDayToDate(e));
    DateToEpochDayExact(EpochDayToDate(e));
  }

  lemma YearBounds(d: Date)
    requires Exists(d) && -DAYS <= EpochDay(d) <= DAYS
    ensures -YEARS <= d.year <= YEARS
  {}

  lemma EpochDayBounds(d: Date)
    requires Exists(d) && -999_999_999 <= d.year <= 999_999_999
    ensures -DAYS <= EpochDay(d) <= DAYS
  {}

  // ---------------------------------------------------------------- times of day

  const SECOND := 1_000_000_000
  const MINUTE := 60_000_000_000
  const HOUR := 3_600_000_000_000
  const DAY_SECONDS := 86_400

  datatype Time = Time(hour: int, minute: int, second: int, nano: int)

  predicate IsTime(t: Time)
  {
    0 <= t.hour < 24 && 0 <= t.minute < 60 && 0 <= t.second < 60 && 0 <= t.nano < SECOND
  }

  function LocalTimeToNanoOfDay(t: Time): (n: int)
  {
    Plus(Plus(Plus(Times(t.hour, HOUR), Times(t.minute, MINUTE)), Times(t.second, SECOND)), t.nano)
  }

  function NanoOfDayToLocalTime(n: int): (t: Time)
  {
    var hour := Over(n, HOUR);
    var n1 := Minus(n, Times(hour, HOUR));
    var minute := Over(n1, MINUTE);
    var n2 := Minus(n1, Times(minute, MINUTE));
    var second := Over(n2, SECOND);
    Time(hour, minute, second, Minus(n2, Times(second, SECOND)))
  }

  lemma NanoOfDayExact(t: Time)
    requires IsTime(t)
    ensures LocalTimeToNanoOfDay(t) == t.hour * HOUR + t.minute * MINUTE + t.second * SECOND + t.nano
  {
    hide Wrap64;
    Small(t.hour * HOUR); Small(t.minute * MINUTE); Small(t.second * SECOND);
    Small(t.hour * HOUR + t.minute * MINUTE);
    Small(t.hour * HOUR + t.minute * MINUTE + t.second * SECOND);
    Small(t.hour * HOUR + t.minute * MINUTE + t.second * SECOND + t.nano);
  }

  /** Splitting off the largest unit: quotient and rest of a number given as units and rest. */
  lemma SplitUnit(n: int, unit: int, q: int, rest: int)
    requires unit > 0 && n == q * unit + rest && 0 <= rest < unit && 0 <= q && 0 <= n <= 1_000_000_000_000_000
    ensures Over(n, unit) == q && Minus(n, Times(q, unit)) == rest
  {
    DivUnique(n, unit, q, rest);
    SmallOver(n, unit);
    Small(q * unit);
    Small(rest);
  }

  lemma LocalTimeOf(t: Time)
    requires IsTime(t)
    ensures NanoOfDayToLocalTime(t.hour * HOUR + t.minute * MINUTE + t.second * SECOND + t.nano) == t
  {
    hide Over, Minus, Times;
    var n2 := t.second * SECOND + t.nano;
    var n1 := t.minute * MINUTE + n2;
    SplitUnit(t.hour * HOUR + n1, HOUR, t.hour, n1);
    SplitUnit(n1, MINUTE, t.minute, n2);
    SplitUnit(n2, SECOND, t.second, t.nano);
  }

  function TimeOf(n: int): (t: Time)
  {
    Time(n / HOUR, n % HOUR / MINUTE, n % MINUTE / SECOND, n % SECOND)
  }

  lemma TimeOfCorrect(n: int)
    requires 0 <= n < DAY_SECONDS * SECOND
    ensures var t := TimeOf(n);
            IsTime(t) && n == t.hour * HOUR + t.minute * MINUTE + t.second * SECOND + t.nano
  {}

  /** Nanoseconds of the day and times of the day correspond one to one. */
  lemma TimesAndNanos(t: Time, n: int)
    requires IsTime(t) && 0 <= n < DAY_SECONDS * SECOND
    ensures NanoOfDayToLocalTime(LocalTimeToNanoOfDay(t)) == t
    ensures IsTime(NanoOfDayToLocalTime(n)) && LocalTimeToNanoOfDay(NanoOfDayToLocalTime(n)) == n
  {
    hide NanoOfDayToLocalTime, LocalTimeToNanoOfDay, TimeOf;
    NanoOfDayExact(t);
    LocalTimeOf(t);
    TimeOfCorrect(n);
    LocalTimeOf(TimeOf(n));
    NanoOfDayExact(TimeOf(n));
  }

  // ---------------------------------------------------------------- floor division and durations

  function FloorDiv(a: int, b: int): (q: int)
    requires b != 0
  {
    var n := Over(a, b);
    if (a >= 0) != (b >= 0) && Times(n, b) != a then Minus(n, 1) else n
  }

  function FloorMod(a: int, b: int): (r: int)
    requires b != 0
  {
    Minus(a, Times(FloorDiv(a, b), b))
  }

  lemma FloorDivNegative(a: int, b: int)
    requires InRange(a) && a < 0 && b > 0
    ensures FloorDiv(a, b) == a / b
  {
    hide Wrap64;
    var (n, m) := (-a / b, -a % b);
    assert -a == n * b + m;
    DivBounds(-a, b);
    assert Quotient(a, b) == -n && -n * b == a + m;
    NonNegative(n, b);
    WrapId(-n);
    WrapId(-n * b);
    if m == 0 {
      DivUnique(a, b, -n, 0);
    } else {
      assert (-n - 1) * b == a + m - b;
      DivUnique(a, b, -n - 1, b - m);
      NonNegative(n, b - 1);
      RoomBelow(a, b, n, m);
      WrapId(-n - 1);
    }
  }

  lemma RoomBelow(a: int, b: int, n: nat, m: int)
    requires InRange(a) && b > 0 && -a == n * b + m && 0 < m < b
    ensures InRange(0 - n - 1)
  {
    NonNegative(n, b - 2);
  }

  /** For a positive divisor these are the rounded-down quotient and the matching remainder. */
  lemma FloorExact(a: int, b: int)
    requires InRange(a) && InRange(b) && b > 0
    ensures FloorDiv(a, b) == a / b && FloorMod(a, b) == a % b
  {
    hide Wrap64, FloorDiv;
    if a >= 0 {
      FloorDivPositive(a, b);
    } else {
      FloorDivNegative(a, b);
    }
    var k := WrapSplit(a / b * b);
    assert a == a / b * b + a % b;
    WrapCongruent(a - Wrap64(a / b * b), a % b, k);
    WrapId(a % b);
  }

  lemma FloorDivPositive(a: int, b: int)
    requires InRange(a) && a >= 0 && b > 0
    ensures FloorDiv(a, b) == a / b
  {
    DivBounds(a, b);
    Floor(a, b);
    WrapId(a / b);
  }

  function NormalizeSeconds(seconds: int, nanos: int): (s: int)
  {
    Plus(seconds, FloorDiv(nanos, SECOND))
  }

  function NormalizeNanos(nanos: int): (n: int)
  {
    FloorMod(nanos, SECOND)
  }

  /**
    * Normalising a duration keeps its length and leaves less than a second of nanoseconds, exactly
    * when the carried seconds fit.
    */
  lemma NormalizeConserves(seconds: int, nanos: int)
    requires InRange(seconds) && InRange(nanos)
    ensures 0 <= NormalizeNanos(nanos) < SECOND
    ensures NormalizeSeconds(seconds, nanos) * SECOND + NormalizeNanos(nanos) == seconds * SECOND + nanos
        <==> InRange(seconds + nanos / SECOND)
  {
    hide Wrap64, FloorDiv, FloorMod;
    FloorExact(nanos, SECOND);
    if InRange(seconds + nanos / SECOND) {
      WrapId(seconds + nanos / SECOND);
    }
  }

  /** The longest duration of whole seconds, with one more second of nanoseconds, becomes another. */
  lemma NormalizationOverflows()
    ensures var (s, n) := (TWO_63 - 1, SECOND);
      NormalizeSeconds(s, n) * SECOND + NormalizeNanos(n) != s * SECOND + n
  {
    NormalizeConserves(TWO_63 - 1, SECOND);
  }

  // ---------------------------------------------------------------- local date-times

  function LocalDateTimeToEpochSecond(d: Date, t: Time): (s: int)
  {
    var time := Plus(Plus(Times(t.hour, 3600), Times(t.minute, 60)), t.second);
    Plus(Times(DateToEpochDay(d.year, d.month, d.day), DAY_SECONDS), time)
  }

  function EpochSecondAndNanoToLocalDateTime(s: int, nano: int): (r: (Date, Time))
  {
    var day := FloorDiv(s, DAY_SECONDS);
    var nanoOfDay := Plus(Times(FloorMod(s, DAY_SECONDS), SECOND), nano);
    (EpochDayToDate(day), NanoOfDayToLocalTime(nanoOfDay))
  }

  lemma EpochSecondExact(d: Date, t: Time)
    requires Exists(d) && -YEARS <= d.year <= YEARS && IsTime(t)
    requires -DAYS <= EpochDay(d) <= DAYS
    ensures LocalDateTimeToEpochSecond(d, t)
         == EpochDay(d) * DAY_SECONDS + t.hour * 3600 + t.minute * 60 + t.second
  {
    hide Wrap64, EpochDay, DateToEpochDay, Exists;
    DateToEpochDayExact(d);
    Small(t.hour * 3600); Small(t.minute * 60);
    Small(t.hour * 3600 + t.minute * 60);
    Small(t.hour * 3600 + t.minute * 60 + t.second);
    Small(EpochDay(d) * 86400);
    Small(EpochDay(d) * 86400 + (t.hour * 3600 + t.minute * 60 + t.second));
  }

  lemma SplitSeconds(s: int, nano: int, day: int, second: int)
    requires s == day * DAY_SECONDS + second && 0 <= second < DAY_SECONDS && 0 <= nano < SECOND
    requires -DAYS <= day <= DAYS
    ensures EpochSecondAndNanoToLocalDateTime(s, nano)
         == (EpochDayToDate(day), NanoOfDayToLocalTime(second * SECOND + nano))
  {
    hide Wrap64, FloorDiv, FloorMod, EpochDayToDate, NanoOfDayToLocalTime;
    FloorExact(s, DAY_SECONDS);
    DivUnique(s, DAY_SECONDS, day, second);
    Small(second * 1_000_000_000);
    Small(second * SECOND + nano);
  }

  /** Local date-times and epoch seconds undo each other, before 1970 too. */
  lemma LocalDateTimesAndSeconds(d: Date, t: Time, s: int, nano: int)
    requires Exists(d) && -999_999_999 <= d.year <= 999_999_999 && IsTime(t)
    requires -DAYS * DAY_SECONDS <= s <= DAYS * DAY_SECONDS && 0 <= nano < SECOND
    ensures EpochSecondAndNanoToLocalDateTime(LocalDateTimeToEpochSecond(d, t), t.nano) == (d, t)
    ensures var (d', t') := EpochSecondAndNanoToLocalDateTime(s, nano);
            Exists(d') && IsTime(t') && t'.nano == nano && LocalDateTimeToEpochSecond(d', t') == s
  {
    hide EpochSecondAndNanoToLocalDateTime, LocalDateTimeToEpochSecond, EpochDayToDate, DateToEpochDay,
         NanoOfDayToLocalTime, EpochDay, TimeOf, Exists;
    EpochDayBounds(d);
    EpochSecondExact(d, t);
    var second := t.hour * 3600 + t.minute * 60 + t.second;
    SplitSeconds(LocalDateTimeToEpochSecond(d, t), t.nano, EpochDay(d), second);
    EpochDayToDateExact(EpochDay(d));
    EpochDayInjective(EpochDayToDate(EpochDay(d)), d);
    LocalTimeOf(t);
    BackFromSeconds(s, nano);
  }

  lemma BackFromSeconds(s: int, nano: int)
    requires -DAYS * DAY_SECONDS <= s <= DAYS * DAY_SECONDS && 0 <= nano < SECOND
    ensures var (d, t) := EpochSecondAndNanoToLocalDateTime(s, nano);
            Exists(d) && IsTime(t) && t.nano == nano && LocalDateTimeToEpochSecond(d, t) == s
  {
    hide EpochSecondAndNanoToLocalDateTime, LocalDateTimeToEpochSecond, EpochDayToDate,
         NanoOfDayToLocalTime, EpochDay, TimeOf, Exists;
    var (day, n) := (s / DAY_SECONDS, s % DAY_SECONDS * SECOND + nano);
    SplitSeconds(s, nano, day, s % DAY_SECONDS);
    EpochDayToDateExact(day);
    TimeOfCorrect(n);
    LocalTimeOf(TimeOf(n));
    NanoPart(s % DAY_SECONDS, nano, TimeOf(n));
    YearBounds(EpochDayToDate(day));
    EpochSecondExact(EpochDayToDate(day), TimeOf(n));
  }

  lemma NanoPart(second: int, nano: int, t: Time)
    requires IsTime(t) && 0 <= nano < SECOND
    requires second * SECOND + nano == t.hour * HOUR + t.minute * MINUTE + t.second * SECOND + t.nano
    ensures t.nano == nano && second == t.hour * 3600 + t.minute * 60 + t.second
  {
    DivUnique(second * SECOND + nano, SECOND, second, nano);
    DivUnique(second * SECOND + nano, SECOND, t.hour * 3600 + t.minute * 60 + t.second, t.nano);
  }
}
