/**
  * The proleptic Gregorian calendar: which dates exist, which day follows which, and how the days
  * since 0000-01-01 are counted. Division rounds down throughout, for negative years too.
  */
module Calendar {
  datatype Date = Date(year: int, month: int, day: int)

  predicate IsLeap(y: int) { y % 4 == 0 && (y % 100 != 0 || y % 400 == 0) }

  function DaysInMonth(y: int, m: int): (n: int)
  {
    if m == 2 then (if IsLeap(y) then 29 else 28)
    else if m == 4 || m == 6 || m == 9 || m == 11 then 30 else 31
  }

  predicate Exists(d: Date)
  {
    1 <= d.month <= 12 && 1 <= d.day <= DaysInMonth(d.year, d.month)
  }

  function NextDay(d: Date): (n: Date)
  {
    if d.day < DaysInMonth(d.year, d.month) then d.(day := d.day + 1)
    else if d.month < 12 then Date(d.year, d.month + 1, 1)
    else Date(d.year + 1, 1, 1)
  }

  /** Days before 1 January of a year, counted from year 0. */
  function YearStart(y: int): (n: int)
  {
    365 * y + (y + 3) / 4 - (y + 99) / 100 + (y + 399) / 400
  }

  /** Days before the first of a month within its year. */
  function MonthStart(y: int, m: int): (n: int)
  {
    (367 * m - 362) / 12 - if m <= 2 then 0 else if IsLeap(y) then 1 else 2
  }

  const DAYS_TO_1970 := 719528

  function EpochDay(d: Date): (n: int)
  {
    YearStart(d.year) + MonthStart(d.year, d.month) + d.day - 1 - DAYS_TO_1970
  }

  function LeapDay(y: int): (n: int) { if IsLeap(y) then 1 else 0 }

  lemma YearLength(y: int)
    ensures YearStart(y + 1) == YearStart(y) + 365 + LeapDay(y)
  {
    assert (y + 4) / 4 == (y + 3) / 4 + if y % 4 == 0 then 1 else 0;
    assert (y + 100) / 100 == (y + 99) / 100 + if y % 100 == 0 then 1 else 0;
    assert (y + 400) / 400 == (y + 399) / 400 + if y % 400 == 0 then 1 else 0;
    assert y % 400 == 0 ==> y % 100 == 0;
    assert y % 100 == 0 ==> y % 4 == 0;
  }

  lemma MonthLength(y: int, m: int)
    requires 1 <= m <= 12
    ensures 0 <= MonthStart(y, m)
    ensures MonthStart(y, m) + DaysInMonth(y, m) == if m < 12 then MonthStart(y, m + 1) else 365 + LeapDay(y)
  {
    assert m == 1 || m == 2 || m == 3 || m == 4 || m == 5 || m == 6 || m == 7 || m == 8 || m == 9 || m == 10
        || m == 11 || m == 12;
  }

  /** The count is the number of days: it grows by one from each date to the next, from 1970-01-01. */
  lemma EpochDayCounts(d: Date)
    requires Exists(d)
    ensures Exists(NextDay(d)) && EpochDay(NextDay(d)) == EpochDay(d) + 1
    ensures EpochDay(Date(1970, 1, 1)) == 0
  {
    hide YearStart, MonthStart;
    MonthLength(d.year, d.month);
    YearLength(d.year);
    FirstOfMonth();
  }

  lemma FirstOfMonth()
    ensures YearStart(1970) == DAYS_TO_1970
    ensures forall y :: MonthStart(y, 1) == 0
  {}

  lemma YearStartIncreases(y: int, y': int)
    requires y < y'
    ensures YearStart(y) + 365 + LeapDay(y) <= YearStart(y')
    decreases y' - y
  {
    hide YearStart;
    YearLength(y);
    if y + 1 < y' {
      YearStartIncreases(y + 1, y');
    }
  }

  lemma MonthStartIncreases(y: int, m: int, m': int)
    requires 1 <= m < m' <= 12
    ensures MonthStart(y, m) + DaysInMonth(y, m) <= MonthStart(y, m')
    decreases m' - m
  {
    hide MonthStart, DaysInMonth;
    MonthLength(y, m);
    if m + 1 < m' {
      MonthStartIncreases(y, m + 1, m');
      LongMonth(y, m + 1);
    }
  }

  lemma LongMonth(y: int, m: int)
    ensures 28 <= DaysInMonth(y, m) <= 31
  {}

  /** A date lies in its own year: between 0 and 364 or 365 days after the first of January. */
  lemma DayOfYear(d: Date)
    requires Exists(d)
    ensures 0 <= MonthStart(d.year, d.month) + d.day - 1 < 365 + LeapDay(d.year)
  {
    hide MonthStart, DaysInMonth;
    MonthLength(d.year, d.month);
    if d.month < 12 {
      MonthStartIncreases(d.year, d.month, 12);
      MonthLength(d.year, 12);
      LongMonth(d.year, 12);
    }
  }

  /** No two dates have the same count. */
  lemma EpochDayInjective(d: Date, d': Date)
    requires Exists(d) && Exists(d') && EpochDay(d) == EpochDay(d')
    ensures d == d'
  {
    hide YearStart, MonthStart, DaysInMonth;
    DayOfYear(d);
    DayOfYear(d');
    if d.year != d'.year {
      var (a, b) := if d.year < d'.year then (d.year, d'.year) else (d'.year, d.year);
      YearStartIncreases(a, b);
    } else if d.month != d'.month {
      var (a, b) := if d.month < d'.month then (d.month, d'.month) else (d'.month, d.month);
      MonthStartIncreases(d.year, a, b);
    }
  }

  // ---------------------------------------------------------------- years that begin in March

  /** Days from 1 March of year 0 to 1 March of year `y`. */
  function MarchStart(y: int): (n: int)
  {
    365 * y + y / 4 - y / 100 + y / 400
  }

  lemma MarchLength(y: int)
    ensures MarchStart(y + 1) == MarchStart(y) + 365 + LeapDay(y + 1)
    ensures MarchStart(y) + 60 == YearStart(y) + 59 + LeapDay(y)
  {
    assert (y + 1) / 4 == y / 4 + if (y + 1) % 4 == 0 then 1 else 0;
    assert (y + 1) / 100 == y / 100 + if (y + 1) % 100 == 0 then 1 else 0;
    assert (y + 1) / 400 == y / 400 + if (y + 1) % 400 == 0 then 1 else 0;
    assert (y + 3) / 4 == y / 4 + if y % 4 == 0 then 0 else 1;
    assert (y + 99) / 100 == y / 100 + if y % 100 == 0 then 0 else 1;
    assert (y + 399) / 400 == y / 400 + if y % 400 == 0 then 0 else 1;
    LeapRules(y);
    LeapRules(y + 1);
  }

  lemma LeapRules(y: int)
    ensures LeapDay(y) == (if y % 4 == 0 then 1 else 0)
                  - (if y % 100 == 0 then 1 else 0) + if y % 400 == 0 then 1 else 0
  {
    assert y % 400 == 0 ==> y % 100 == 0;
    assert y % 100 == 0 ==> y % 4 == 0;
  }

  const CYCLE := 146097

  /** Four hundred times the day count stays within one year's worth of the linear estimate. */
  lemma MarchEstimate(y: int)
    ensures 400 * MarchStart(y) - 288 <= CYCLE * y <= 400 * MarchStart(y) + 591
  {
    hide MarchStart;
    var h, g, f := Centuries(y);
    assert MarchStart(y) == 365 * y + y / 4 - y / 100 + y / 400 by { MarchStartIs(y); }
  }

  lemma MarchStartIs(y: int)
    ensures MarchStart(y) == 365 * y + y / 4 - y / 100 + y / 400
  {}

  lemma Centuries(y: int) returns (h: int, g: int, f: int)
    ensures 0 <= h < 4 && 0 <= g < 25 && 0 <= f < 4
    ensures y == 400 * (y / 400) + 100 * h + 4 * g + f
    ensures y / 100 == 4 * (y / 400) + h && y / 4 == 100 * (y / 400) + 25 * h + g
  {
    h, g, f := y / 100 % 4, y / 4 % 25, y % 4;
    NestedQuotient(y, 100, 4);
    NestedQuotient(y, 4, 25);
  }

  lemma NestedQuotient(y: int, m: int, n: int)
    requires (m == 100 && n == 4) || (m == 4 && n == 25)
    ensures y / m / n == y / (m * n)
  {}

  lemma MarchCycles(y: int, k: int)
    ensures MarchStart(y + 400 * k) == MarchStart(y) + CYCLE * k
  {
    assert (y + 400 * k) / 4 == y / 4 + 100 * k;
    assert (y + 400 * k) / 100 == y / 100 + 4 * k;
    assert (y + 400 * k) / 400 == y / 400 + k;
  }

  /** The estimate from the day count is the year or the one after it. */
  lemma YearEstimate(z: int, i: int)
    requires i == (400 * z + 591) / CYCLE
    ensures MarchStart(i - 1) <= z < MarchStart(i + 1)
  {
    hide MarchStart, LeapDay;
    MarchEstimate(i);
    MarchEstimate(i + 1);
    MarchLength(i - 1);
    LeapBound(i);
  }

  lemma LeapBound(y: int)
    ensures 0 <= LeapDay(y) <= 1
  {}

  /** Month (0 for March) and day of the month from the day of a year that begins in March. */
  lemma MarchMonth(doy: int, c: int)
    requires 0 <= doy <= 365 && c == (5 * doy + 2) / 153
    ensures 0 <= c <= 11
    ensures var f := doy - (306 * c + 5) / 10;
            && 0 <= f && (c < 11 ==> f < DaysInMonth(0, (c + 2) % 12 + 1)) && (c == 11 ==> f == doy - 337)
  {
    assert c == 0 || c == 1 || c == 2 || c == 3 || c == 4 || c == 5 || c == 6 || c == 7 || c == 8 || c == 9
        || c == 10 || c == 11;
  }

  /** The date that is `doy` days after 1 March of year `y`. */
  function FromMarch(y: int, doy: int): (d: Date)
  {
    var c := (5 * doy + 2) / 153;
    Date(y + c / 10, (c + 2) % 12 + 1, doy - (306 * c + 5) / 10 + 1)
  }

  lemma FromMarchCorrect(y: int, doy: int)
    requires 0 <= doy < 365 + LeapDay(y + 1)
    ensures Exists(FromMarch(y, doy))
    ensures EpochDay(FromMarch(y, doy)) == MarchStart(y) + 60 + doy - DAYS_TO_1970
  {
    hide YearStart, MarchStart, IsLeap;
    var c := (5 * doy + 2) / 153;
    MarchMonth(doy, c);
    MonthOffset(c);
    MarchLength(y);
    YearLength(y);
  }

  lemma MonthOffset(c: int)
    requires 0 <= c <= 11
    ensures var m := (c + 2) % 12 + 1;
            && m == (if c < 10 then c + 3 else c - 9) && c / 10 == (if c < 10 then 0 else 1)
            && (c < 10 ==> (367 * m - 362) / 12 == (306 * c + 5) / 10 + 61)
            && (c >= 10 ==> (367 * m - 362) / 12 == (306 * c + 5) / 10 - 306)
  {
    assert c == 0 || c == 1 || c == 2 || c == 3 || c == 4 || c == 5 || c == 6 || c == 7 || c == 8 || c == 9
        || c == 10 || c == 11;
  }
}
