/**
  * The date conversions in unbounded integers, step by step: every intermediate value, in the order in
  * which the driver computes it. All of them stay within 64 bits, so that no operation wraps.
  */
module TemporalSteps {
  import opened JsNumber
  import opened Integer64
  import opened Calendar
  import opened Temporal

  ghost predicate AllInRange(s: seq<int>) { forall k :: 0 <= k < |s| ==> InRange(s[k]) }

  function Last(s: seq<int>): (n: int)
    requires s != []
  {
    s[|s| - 1]
  }

  function LeapSteps(y: int): (s: seq<int>)
    ensures s != []
  {
    if y >= 0 then
      var (a, b, c) := (Quotient(y + 3, 4), Quotient(y + 99, 100), Quotient(y + 399, 400));
      [y + 3, a, y + 99, b, a - b, y + 399, c, a - b + c]
    else
      var (a, b, c) := (Quotient(y, -4), Quotient(y, -100), Quotient(y, -400));
      [a, b, a - b, c, a - b + c]
  }

  /** Everything `dateToEpochDay` computes on the way; the last value is its result. */
  function DateSteps(year: int, month: int, day: int): (s: seq<int>)
    ensures s != []
  {
    var l := Last(LeapSteps(year));
    var r0 := year * 365;
    var r1 := if year >= 0 then r0 + l else r0 - l;
    var m := month * 367 - 362;
    var r2 := r1 + Quotient(m, 12);
    var r3 := r2 + (day - 1);
    var leap := Remainder(year, 4) == 0 && (Remainder(year, 100) != 0 || Remainder(year, 400) == 0);
    var r4 := if month > 2 then (if leap then [r3 - 1] else [r3 - 1, r3 - 1 - 1]) else [r3];
    [r0] + LeapSteps(year) + [r1, month * 367, m, Quotient(m, 12), r2, day - 1, r3] + r4 + [Last(r4) - DAYS_TO_1970]
  }

  function MarchSteps(z: int, i: int): (s: seq<int>)
    ensures s != []
  {
    var (a, b, c) := (Quotient(i, 4), Quotient(i, 100), Quotient(i, 400));
    [i * 365, a, i * 365 + a, b, i * 365 + a - b, c, i * 365 + a - b + c, z - (i * 365 + a - b + c)]
  }

  lemma WrapNone()
    ensures forall n {:trigger Wrap64(n)} :: InRange(n) ==> Wrap64(n) == n
  {
    forall n | InRange(n) ensures Wrap64(n) == n { WrapId(n); }
  }

  lemma SmallQuotient(a: int, b: int)
    requires b != 0
    ensures -(if a >= 0 then a else -a) <= Quotient(a, b) <= if a >= 0 then a else -a
  {
    var x: nat := if a >= 0 then a else -a;
    DivBounds(x, if b > 0 then b else -b);
  }

  lemma LeapStepsStay(y: int)
    requires -YEARS <= y <= YEARS
    ensures AllInRange(LeapSteps(y)) && LeapYears(y) == Last(LeapSteps(y))
    ensures -3 * YEARS - 600 <= Last(LeapSteps(y)) <= 3 * YEARS + 600
  {
    hide Wrap64, Quotient;
    WrapNone();
    SmallQuotient(y + 3, 4);
    SmallQuotient(y + 99, 100);
    SmallQuotient(y + 399, 400);
    SmallQuotient(y, -4);
    SmallQuotient(y, -100);
    SmallQuotient(y, -400);
  }

  /** No value on the way to a day count leaves the 64 bits. */
  lemma DateStepsStay(d: Date)
    requires Exists(d) && -YEARS <= d.year <= YEARS
    ensures AllInRange(DateSteps(d.year, d.month, d.day))
    ensures Last(DateSteps(d.year, d.month, d.day)) == DateToEpochDay(d.year, d.month, d.day)
  {
    hide *;
    DateStepsInRange(d);
    DateStepsResult(d);
  }

  lemma DateStepsInRange(d: Date)
    requires Exists(d) && -YEARS <= d.year <= YEARS
    ensures AllInRange(DateSteps(d.year, d.month, d.day))
  {
    hide Quotient, Remainder, LeapSteps;
    LeapStepsStay(d.year);
    SmallQuotient(d.month * 367 - 362, 12);
  }

  lemma DateStepsResult(d: Date)
    requires Exists(d) && -YEARS <= d.year <= YEARS
    ensures Last(DateSteps(d.year, d.month, d.day)) == DateToEpochDay(d.year, d.month, d.day)
  {
    hide Wrap64, Quotient, Remainder, LeapSteps, LeapYears;
    WrapNone();
    LeapStepsStay(d.year);
    SmallQuotient(d.month * 367 - 362, 12);
  }

  // ---------------------------------------------------------------- from a day count

  /** The 400-year cycles of a day count before March of year 0: their number, and the steps to it. */
  function CycleSteps(z0: int): (r: (int, seq<int>))
  {
    if z0 >= 0 then (0, [])
    else
      var q := Quotient(z0 + 1, CYCLE);
      (q - 1, [z0 + 1, q, q - 1, (q - 1) * -CYCLE, z0 + (q - 1) * -CYCLE, (q - 1) * 400])
  }

  /** The year that begins in March, the day of that year, and the steps to them. */
  function YearSteps(z: int): (r: (int, int, seq<int>))
  {
    var i0 := Quotient(z * 400 + 591, CYCLE);
    var first := MarchSteps(z, i0);
    var steps := [z * 400, z * 400 + 591, i0] + first;
    if Last(first) >= 0 then (i0, Last(first), steps)
    else (i0 - 1, Last(MarchSteps(z, i0 - 1)), steps + [i0 - 1] + MarchSteps(z, i0 - 1))
  }

  /** Month and day of day `o` of the year `y` that begins in March, and the steps to them. */
  function MonthSteps(o: int, y: int): (r: (Date, seq<int>))
  {
    var c := Quotient(o * 5 + 2, 153);
    var month := Remainder(c + 2, 12);
    var before := Quotient(c * 306 + 5, 10);
    var tenth := Quotient(c, 10);
    (Date(y + tenth, month + 1, o - before + 1),
     [o * 5, o * 5 + 2, c, c + 2, month, month + 1,
      c * 306, c * 306 + 5, before, o - before, o - before + 1, tenth, y + tenth])
  }

  /** Everything `epochDayToDate` computes on the way, and its result. */
  function DaySteps(e: int): (r: (Date, seq<int>))
  {
    var z0 := e + DAYS_TO_1970 - 60;
    var (k, cycles) := CycleSteps(z0);
    var (i, o, years) := YearSteps(z0 - CYCLE * k);
    var (d, months) := MonthSteps(o, i + k * 400);
    (d, [e + DAYS_TO_1970, z0] + cycles + years + [i + k * 400] + months)
  }

  lemma MarchStepsStay(z: int, i: int)
    requires -2 * DAYS <= z <= 2 * DAYS && -1000 * DAYS <= i <= 1000 * DAYS
    ensures AllInRange(MarchSteps(z, i)) && DayOfMarchYear(z, i) == Last(MarchSteps(z, i))
  {
    hide Wrap64, Quotient;
    WrapNone();
    SmallQuotient(i, 4);
    SmallQuotient(i, 100);
    SmallQuotient(i, 400);
  }

  lemma CycleStepsStay(z0: int)
    requires -2 * DAYS <= z0 <= 2 * DAYS
    ensures var (k, s) := CycleSteps(z0);
      && AllInRange(s) && -YEARS / 400 <= k <= 0 && 0 <= z0 - CYCLE * k <= 2 * DAYS && (z0 >= 0 ==> k == 0)
      && (z0 < 0 ==>
            k == Minus(Over(Plus(z0, 1), CYCLE), 1)
            && Plus(z0, Times(k, -CYCLE)) == z0 - CYCLE * k && Times(k, 400) == k * 400)
  {
    hide Wrap64, Quotient;
    WrapNone();
    if z0 < 0 {
      SmallQuotient(z0 + 1, CYCLE);
      NegativeCycles(z0);
    }
  }

  lemma YearStepsStay(z: int)
    requires 0 <= z <= 2 * DAYS
    ensures var (i, o, s) := YearSteps(z);
      var i0 := Over(Plus(Times(z, 400), 591), CYCLE);
      var o0 := DayOfMarchYear(z, i0);
      && AllInRange(s) && 0 <= i <= YEARS && 0 <= o <= 366
      && i == (if o0 < 0 then Minus(i0, 1) else i0) && o == (if o0 < 0 then DayOfMarchYear(z, i) else o0)
  {
    hide Wrap64, Quotient, DayOfMarchYear, MarchSteps;
    WrapNone();
    LeapBoundAll();
    var i0 := Quotient(z * 400 + 591, CYCLE);
    SmallQuotient(z * 400 + 591, CYCLE);
    MarchStepsStay(z, i0);
    MarchStepsStay(z, i0 - 1);
    MarchYear(z);
  }

  lemma LeapBoundAll()
    ensures forall y :: 0 <= LeapDay(y) <= 1
  {
    forall y ensures 0 <= LeapDay(y) <= 1 { LeapBound(y); }
  }

  lemma MonthStepsStay(o: int, y: int)
    requires 0 <= o <= 366 && -2 * YEARS <= y <= 2 * YEARS
    ensures AllInRange(MonthSteps(o, y).1)
  {
    hide Quotient, Remainder;
    MonthBounds(o);
  }

  lemma MonthBounds(o: int)
    requires 0 <= o <= 366
    ensures var c := Quotient(o * 5 + 2, 153);
      -2000 <= c <= 2000 && -700_000 <= Quotient(c * 306 + 5, 10) <= 700_000 && -2000 <= Quotient(c, 10) <= 2000
      && -12 < Remainder(c + 2, 12) < 12
  {
    hide Quotient, Remainder;
    var c := Quotient(o * 5 + 2, 153);
    SmallQuotient(o * 5 + 2, 153);
    SmallQuotient(c * 306 + 5, 10);
    SmallQuotient(c, 10);
    SmallRemainder(c + 2, 12);
  }

  lemma MonthStepsResult(o: int, y: int)
    requires 0 <= o <= 366 && -2 * YEARS <= y <= 2 * YEARS
    ensures var c := Over(Plus(Times(o, 5), 2), 153);
      MonthSteps(o, y).0 == Date(Plus(y, Over(c, 10)), Plus(Remainder(Plus(c, 2), 12), 1),
                                 Plus(Minus(o, Over(Plus(Times(c, 306), 5), 10)), 1))
  {
    hide Wrap64, Quotient, Remainder;
    WrapNone();
    MonthBounds(o);
  }

  lemma SmallRemainder(a: int, b: int)
    requires b > 0
    ensures -b < Remainder(a, b) < b
  {
    var x: nat := if a >= 0 then a else -a;
    DivBounds(x, b);
  }

  /** No value on the way to a date leaves the 64 bits. */
  lemma DayStepsStay(e: int)
    requires -DAYS <= e <= DAYS
    ensures var (d, s) := DaySteps(e); AllInRange(s) && d == EpochDayToDate(e)
  {
    hide Wrap64, Quotient, Remainder, DayOfMarchYear, YearSteps, CycleSteps, MonthSteps, Over, Times;
    WrapNone();
    var z0 := e + DAYS_TO_1970 - 60;
    CycleStepsStay(z0);
    var (k, cycles) := CycleSteps(z0);
    YearStepsStay(z0 - CYCLE * k);
    var (i, o, years) := YearSteps(z0 - CYCLE * k);
    MonthStepsStay(o, i + k * 400);
    MonthStepsResult(o, i + k * 400);
  }
}
