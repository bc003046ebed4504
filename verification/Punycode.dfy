/**
  * Punycode (RFC 3492) as URI.js bundles it. The encoder walks the input once per distinct code
  * point and writes the distance to the next insertion as a variable-length integer; the decoder
  * replays the insertions. Both adapt a bias after every insertion and must stay in lockstep.
  */
module Punycode {
  import opened Wrappers
  import opened JsNumber
  import opened JsText

  const MAX_INT := 0x7FFF_FFFF
  const INITIAL_BIAS := 72
  const INITIAL_N := 128
  /** No delta of an input of this length or less comes near a guard. */
  const SHORT := 1926
  /** Beyond every bias that deltas within the integer range lead to. */
  const BIAS_LIMIT := 216
  const DELIMITER: Unit := 0x2D

  datatype Error = Overflow | NotBasic | InvalidInput | BadCodePoint

  // ---------------------------------------------------------------- bias adaptation

  /**
    * The last step of the adaptation. The original divides floating-point numbers; a zero divisor
    * gives minus infinity, which a bias may be: it is only compared with positions from 36 up,
    * and there every bias up to 10 acts alike.
    */
  function Slope(t: int): (s: int)
  {
    if t + 38 > 0 then 36 * t / (t + 38)
    else if t + 38 < 0 then -36 * t / -(t + 38)
    else -1
  }

  function Shrink(t: int, k: nat): (bias: int)
  {
    if t > 455 then Shrink(t / 35, k + 36) else k + Slope(t)
  }

  function Adapt(delta: int, points: nat, first: bool): (bias: int)
    requires points > 0
  {
    var d := if first then delta / 700 else ToInt32(delta) / 2;
    Shrink(d + d / points, 0)
  }

  method ComputeAdapt(delta: int, points: nat, first: bool) returns (bias: int)
    requires points > 0
    ensures bias == Adapt(delta, points, first)
  {
    var r := 0;
    var t := if first then delta / 700 else ToInt32(delta) / 2;
    t := t + t / points;
    while t > 455
      invariant r >= 0
      invariant Shrink(t, r) == Adapt(delta, points, first)
    {
      t := t / 35;
      r := r + 36;
    }
    return r + Slope(t);
  }

  /** A divisor larger than half the delta plays no part, so a stale smaller one does no harm. */
  lemma AdaptIgnoresLargeDivisors(delta: nat, points: nat, points': nat)
    requires delta <= MAX_INT
    requires delta < points <= points'
    ensures Adapt(delta, points, false) == Adapt(delta, points', false)
  {
    ToInt32Id(delta);
    DivUnique(delta / 2, points, 0, delta / 2);
    DivUnique(delta / 2, points', 0, delta / 2);
  }

  function Threshold(k: nat, bias: int): (t: nat)
    ensures 1 <= t <= 26
  {
    if k <= bias then 1 else if k >= bias + 26 then 26 else k - bias
  }

  /** All biases up to 10 act alike, whatever stands for the one that a zero divisor gives. */
  lemma LowBiasesAlike(k: nat, bias: int)
    requires k >= 36
    ensures bias <= 10 ==> Threshold(k, bias) == 26
  {}

  /** Five divisions by 35 bring any delta to the last step. */
  lemma AdaptBounded(delta: nat, points: nat, first: bool)
    requires delta <= MAX_INT && points > 0
    ensures 0 <= Adapt(delta, points, first) < BIAS_LIMIT
  {
    hide Shrink;
    ToInt32Id(delta);
    var d := if first then delta / 700 else delta / 2;
    DivBounds(d, points);
    assert d + d / points <= MAX_INT;
    assert ShrinkRoom(2) >= 500_000;
    assert ShrinkRoom(4) >= 500_000_000;
    assert ShrinkRoom(5) >= MAX_INT;
    ShrinkBounded(d + d / points, 0, 5);
  }

  /** A bound on what `j` divisions by 35 bring down to 455 or less. */
  function ShrinkRoom(j: nat): (m: nat) { if j == 0 then 455 else ShrinkRoom(j - 1) * 35 + 34 }

  lemma {:induction false} ShrinkBounded(t: nat, k: nat, j: nat)
    requires j <= 5 && k == 36 * (5 - j) && t <= ShrinkRoom(j) && t <= MAX_INT
    ensures 0 <= Shrink(t, k) < BIAS_LIMIT
    decreases j
  {
    if t > 455 {
      assert t / 35 <= ShrinkRoom(j - 1);
      ShrinkBounded(t / 35, k + 36, j - 1);
    } else {
      SlopeBounded(t);
    }
  }

  lemma SlopeBounded(t: nat)
    requires t <= 455
    ensures 0 <= Slope(t) < 36
  {
    var q := 36 * t / (t + 38);
    DivBounds(36 * t, t + 38);
    if q >= 36 {
      Monotone(36, q, t + 38);
    }
  }

  // ---------------------------------------------------------------- variable-length integers

  function DigitUnit(d: nat): (u: Unit)
    requires d < 36
  {
    if d < 26 then d + 97 else d + 22
  }

  /** Some punctuation marks read as a negative digit: the original tests upper bounds only. */
  function DigitValue(u: Unit): (d: int)
  {
    if u < 58 then u - 22 else if u < 91 then u - 65 else if u < 123 then u - 97 else 36
  }

  function LowDigit(q: nat, t: nat): (d: nat)
    requires 1 <= t <= 26 && t <= q
    ensures t <= d < 36 && d <= q
  {
    DivBounds(q - t, 36 - t);
    t + (q - t) % (36 - t)
  }

  function HighPart(q: nat, t: nat): (h: nat)
    requires 1 <= t <= 26 && t <= q
    ensures h < q && q == LowDigit(q, t) + h * (36 - t)
  {
    DivBounds(q - t, 36 - t);
    (q - t) / (36 - t)
  }

  function WriteDelta(q: nat, k: nat, bias: int): (s: Str)
    decreases q
  {
    var t := Threshold(k, bias);
    if q < t then [DigitUnit(q)] else [DigitUnit(LowDigit(q, t))] + WriteDelta(HighPart(q, t), k + 36, bias)
  }

  /** Adds one variable-length integer, with first digit weight `w`, to `i`; also returns the rest. */
  function ReadDelta(s: Str, i: int, w: nat, k: nat, bias: int): (r: Result<(int, Str), Error>)
    requires w > 0
    ensures r.Ok? ==> r.value.0 <= MAX_INT && |r.value.1| < |s|
    decreases |s|
  {
    if s == [] then Err(InvalidInput)
    else
      var d := DigitValue(s[0]);
      if d >= 36 || d > (MAX_INT - i) / w then Err(Overflow)
      else
        FitsIff(d, MAX_INT - i, w);
        var t := Threshold(k, bias);
        if d < t then Ok((i + d * w, s[1..]))
        else if w > MAX_INT / (36 - t) then Err(Overflow)
        else ReadDelta(s[1..], i + d * w, w * (36 - t), k + 36, bias)
  }

  /** Reading a non-final digit that passes both guards. */
  lemma ReadDigit(s: Str, i: int, w: nat, k: nat, bias: int, d: nat)
    requires w > 0 && d < 36
    requires s != [] && s[0] == DigitUnit(d) && d >= Threshold(k, bias)
    ensures var r := ReadDelta(s, i, w, k, bias);
            var b := 36 - Threshold(k, bias);
            if i + d * w <= MAX_INT && w * b <= MAX_INT
            then r == ReadDelta(s[1..], i + d * w, w * b, k + 36, bias)
            else r == Err(Overflow)
  {
    FitsIff(d, MAX_INT - i, w);
    FitsIff(w, MAX_INT, 36 - Threshold(k, bias));
  }

  lemma ReadLastDigit(s: Str, i: int, w: nat, k: nat, bias: int, d: nat)
    requires w > 0 && d < 36
    requires s != [] && s[0] == DigitUnit(d) && d < Threshold(k, bias)
    ensures ReadDelta(s, i, w, k, bias) == if i + d * w <= MAX_INT then Ok((i + d * w, s[1..])) else Err(Overflow)
  {
    FitsIff(d, MAX_INT - i, w);
  }

  /** Regrouping a number written as low digit and higher part. */
  lemma Regroup(q: nat, d: nat, h: nat, b: nat, w: nat)
    requires q == d + h * b
    ensures d * w + h * (w * b) == q * w
  {
    assert h * (w * b) == h * b * w;
  }

  lemma Products(q: nat, d: nat, h: nat, b: nat, w: nat)
    requires q > 0 && b <= 35
    ensures 0 <= d * w && 0 <= h * (w * b)
    ensures w * b <= 35 * (q * w)
  {
    assert w * b <= w * 35;
    assert 0 <= (q - 1) * w;
  }

  lemma Heavier(w: nat, b: nat)
    requires w > 0 && b > 0
    ensures w * b > 0
  {}

  /** The weight of every digit of `q` but the first is within the guard. */
  predicate WeightsFit(q: nat, k: nat, bias: int, w: nat)
    decreases q
  {
    var t := Threshold(k, bias);
    q < t || (w * (36 - t) <= MAX_INT && WeightsFit(HighPart(q, t), k + 36, bias, w * (36 - t)))
  }

  /** Reading back a written delta yields it if and only if the sum and the weights of its digits fit. */
  lemma {:induction false} DeltaRoundTrip(q: nat, k: nat, bias: int, i: nat, w: nat, rest: Str)
    requires w > 0
    ensures ReadDelta(WriteDelta(q, k, bias) + rest, i, w, k, bias)
         == if i + q * w <= MAX_INT && WeightsFit(q, k, bias, w) then Ok((i + q * w, rest)) else Err(Overflow)
    decreases q
  {
    hide ReadDelta, LowDigit, HighPart, Threshold, DigitUnit;
    var t := Threshold(k, bias);
    var s := WriteDelta(q, k, bias) + rest;
    if q < t {
      assert s[1..] == rest;
      ReadLastDigit(s, i, w, k, bias, q);
    } else {
      var d, h, b := LowDigit(q, t), HighPart(q, t), 36 - t;
      assert s[1..] == WriteDelta(h, k + 36, bias) + rest;
      ReadDigit(s, i, w, k, bias, d);
      Heavier(w, b);
      Regroup(q, d, h, b, w);
      NonNegative(h, w * b);
      if i + d * w <= MAX_INT && w * b <= MAX_INT {
        DeltaRoundTrip(h, k + 36, bias, i + d * w, w * b, rest);
      }
    }
  }

  lemma NonNegative(a: nat, b: nat)
    ensures 0 <= a * b
  {}

  /** Powers of 35: the weights while every threshold is 1. */
  function Pow35(e: nat): (p: nat)
    ensures p > 0
  {
    if e == 0 then 1 else Pow35(e - 1) * 35
  }

  /**
    * The encoder's own digits never make the weight guard fire: up to position 216 the weight is below
    * 35^6, and from then on every threshold is 26.
    */
  lemma {:induction false} WeightsAlwaysFit(q: nat, e: nat, bias: int, w: nat)
    requires w > 0 && q * w <= MAX_INT && bias < BIAS_LIMIT && (e <= 5 ==> w <= Pow35(e))
    ensures WeightsFit(q, 36 * (e + 1), bias, w)
    decreases q
  {
    hide LowDigit, HighPart;
    var k := 36 * (e + 1);
    var t := Threshold(k, bias);
    if q >= t {
      var d, h, b := LowDigit(q, t), HighPart(q, t), 36 - t;
      Regroup(q, d, h, b, w);
      Products(q, d, h, b, w);
      Heavier(w, b);
      NextWeight(q, e, t, w);
      WeightsAlwaysFit(h, e + 1, bias, w * b);
    }
  }

  lemma NextWeight(q: nat, e: nat, t: nat, w: nat)
    requires 1 <= t <= 26 && t <= q && q * w <= MAX_INT && (e <= 5 ==> w <= Pow35(e)) && (e > 5 ==> t == 26)
    ensures w * (36 - t) <= MAX_INT && (e + 1 <= 5 ==> w * (36 - t) <= Pow35(e + 1))
  {
    assert Pow35(2) == 1225 && Pow35(4) == 1_500_625 && Pow35(5) == 52_521_875;
    if e <= 5 {
      Monotone(36 - t, 35, w);
    } else {
      Monotone(26, q, w);
    }
  }

  // ---------------------------------------------------------------- the decoder

  /** `splice(at, 0, c)`: a negative index counts from the end. */
  function Splice(out: seq<int>, at: int, c: int): (r: seq<int>)
    requires at <= |out|
  {
    var p := if at >= 0 then at else if |out| + at >= 0 then |out| + at else 0;
    out[..p] + [c] + out[p..]
  }

  /** Replays the insertions that the rest `s` of the input describes. */
  function Insertions(s: Str, n: int, i: int, bias: int, out: seq<int>): (r: Result<seq<int>, Error>)
    decreases |s|
  {
    if s == [] then Ok(out)
    else
      match ReadDelta(s, i, 1, 36, bias)
      case Err(e) => Err(e)
      case Ok((j, rest)) =>
        var m := |out| + 1;
        if j / m > MAX_INT - n then Err(Overflow)
        else
          var at := Remainder(j, m);
          RemainderBelow(j, m);
          Insertions(rest, n + j / m, at + 1, Adapt(j - i, m, i == 0), Splice(out, at, n + j / m))
  }

  lemma RemainderBelow(j: int, m: nat)
    requires m > 0
    ensures -(m as int) < Remainder(j, m) < m
    ensures j >= 0 ==> Remainder(j, m) == j % m
  {
    var a := if j >= 0 then j else -j;
    assert a == (a / m) * m + a % m;
  }

  function LastDelimiter(s: Str): (p: nat)
    ensures p < |s| || s == []
  {
    if s == [] then 0
    else if s[|s| - 1] == DELIMITER then |s| - 1
    else if |s| == 1 then 0 else LastDelimiter(s[..|s| - 1])
  }

  predicate AllBasic(s: seq<int>) { forall k :: 0 <= k < |s| ==> s[k] < 128 }

  predicate AllCodePoints(cps: seq<int>) { forall k :: 0 <= k < |cps| ==> 0 <= cps[k] < 0x110000 }

  function Decode(s: Str): (r: Result<seq<CodePoint>, Error>)
  {
    var b := LastDelimiter(s);
    if !AllBasic(s[..b]) then Err(NotBasic)
    else
      match Insertions(s[if b > 0 then b + 1 else 0..], INITIAL_N, 0, INITIAL_BIAS, s[..b])
      case Err(e) => Err(e)
      case Ok(out) => if AllCodePoints(out) then Ok(out) else Err(BadCodePoint)
  }

  // ---------------------------------------------------------------- the encoder

  /** The elements below `r`, in order. */
  function Below(a: seq<int>, r: int): (b: seq<int>)
    ensures |b| <= |a|
  {
    if a == [] then []
    else (if a[0] < r then [a[0]] else []) + Below(a[1..], r)
  }

  /** The least element from `r` up, or `MAX_INT` when there is none. */
  function LeastFrom(t: seq<CodePoint>, r: int): (w: int)
    ensures forall k :: 0 <= k < |t| && t[k] >= r ==> w <= t[k]
    ensures w == MAX_INT || (w in t && w >= r)
  {
    if t == [] then MAX_INT
    else
      var w := LeastFrom(t[1..], r);
      assert t == [t[0]] + t[1..];
      if r <= t[0] < w then t[0] else w
  }

  function Prepend(s: Str, r: Result<Str, Error>): (q: Result<Str, Error>)
  {
    if r.Ok? then Ok(s + r.value) else r
  }

  /** What the decoder has built when the pass for `r` has reached position `p`. */
  function Built(t: seq<CodePoint>, p: nat, r: int): (out: seq<int>)
    requires p <= |t|
  {
    Below(t[..p], r + 1) + Below(t[p..], r)
  }

  /**
    * The output still to come when `y` code points (those below `r`) are handled; `i` is the
    * distance gathered so far and `basic` the number of basic code points.
    */
  function Passes(t: seq<CodePoint>, r: nat, i: nat, bias: int, y: nat, basic: nat): (s: Result<Str, Error>)
    requires r <= 0x110000 && y == |Below(t, r)|
    decreases 0x110000 - r, 1, 0
  {
    if y >= |t| then Ok([])
    else
      var w := LeastFrom(t, r);
      BelowNext(t, r);
      Advance(w - r, y);
      if w - r > (MAX_INT - i) / (y + 1) then Err(Overflow)
      else Scan(t, 0, w, y + 1, i + (w - r) * (y + 1), bias, y, basic)
  }

  /** The same in the middle of the pass for `r`, which started with `points - 1` handled. */
  function Scan(t: seq<CodePoint>, p: nat, r: CodePoint, points: nat, i: nat, bias: int, y: nat, basic: nat)
    : (s: Result<Str, Error>)
    requires p <= |t| && points > 0
    requires y == |Built(t, p, r)|
    decreases 0x110000 - r, 0, |t| - p
  {
    BuiltNext(t, p, r);
    if p == |t| then Passes(t, r + 1, i + 1, bias, y, basic)
    else if t[p] < r then
      if i + 1 > MAX_INT then Err(Overflow) else Scan(t, p + 1, r, points, i + 1, bias, y, basic)
    else if t[p] == r then
      Prepend(WriteDelta(i, 36, bias),
              Scan(t, p + 1, r, points, 0, Adapt(i, points, y == basic), y + 1, basic))
    else Scan(t, p + 1, r, points, i, bias, y, basic)
  }

  lemma {:induction false} BelowConcat(a: seq<int>, b: seq<int>, r: int)
    ensures Below(a + b, r) == Below(a, r) + Below(b, r)
  {
    if a == [] {
      assert a + b == b;
    } else {
      assert (a + b)[1..] == a[1..] + b;
      BelowConcat(a[1..], b, r);
    }
  }

  /** No code point lies between `r` and the least one from `r` up. */
  lemma {:induction false} BelowSkip(a: seq<int>, r: int, w: int)
    requires r <= w && forall k :: 0 <= k < |a| && a[k] >= r ==> w <= a[k]
    ensures Below(a, r) == Below(a, w)
  {
    if a != [] {
      assert a == [a[0]] + a[1..];
      BelowSkip(a[1..], r, w);
    }
  }

  lemma {:induction false} AllBelow(a: seq<int>, r: int)
    ensures |Below(a, r)| == |a| <==> (forall k :: 0 <= k < |a| ==> a[k] < r)
    ensures |Below(a, r)| == |a| ==> Below(a, r) == a
  {
    if a != [] {
      assert a == [a[0]] + a[1..];
      AllBelow(a[1..], r);
    }
  }

  lemma Advance(steps: nat, y: nat)
    ensures steps * (y + 1) >= 0
  {}

  lemma BelowNext(t: seq<CodePoint>, r: int)
    requires |Below(t, r)| < |t|
    ensures var w := LeastFrom(t, r); r <= w < 0x110000 && Built(t, 0, w) == Below(t, r)
  {
    hide LeastFrom;
    AllBelow(t, r);
    var w := LeastFrom(t, r);
    BelowSkip(t, r, w);
    assert t[..0] == [] && t[0..] == t;
  }

  lemma BuiltNext(t: seq<CodePoint>, p: nat, r: CodePoint)
    requires p <= |t|
    ensures p == |t| ==> Built(t, p, r) == Below(t, r + 1)
    ensures p < |t| ==> var j := |Below(t[..p], r + 1)|;
              |Below(t[..p + 1], r + 1)| == (if t[p] <= r then j + 1 else j)
    ensures p < |t| && t[p] != r ==> Built(t, p + 1, r) == Built(t, p, r)
    ensures p < |t| && t[p] == r ==> Built(t, p + 1, r) == Splice(Built(t, p, r), |Below(t[..p], r + 1)|, r)
  {
    if p == |t| {
      assert t[..p] == t && t[p..] == [];
    } else {
      assert t[..p + 1] == t[..p] + [t[p]];
      BelowConcat(t[..p], [t[p]], r + 1);
      assert Below([t[p]], r + 1) == if t[p] <= r then [t[p]] else [];
      assert t[p..][1..] == t[p + 1..];
      assert Below(t[p..], r) == (if t[p] < r then [t[p]] else []) + Below(t[p + 1..], r);
    }
  }

  function Encode(t: seq<CodePoint>): (r: Result<Str, Error>)
  {
    var basics := Below(t, INITIAL_N);
    BelowAreBasic(t);
    var head := if basics == [] then [] else basics + [DELIMITER];
    Prepend(head, Passes(t, INITIAL_N, 0, INITIAL_BIAS, |basics|, |basics|))
  }

  lemma {:induction false} BelowAreBasic(t: seq<CodePoint>)
    ensures forall k :: 0 <= k < |Below(t, INITIAL_N)| ==> 0 <= Below(t, INITIAL_N)[k] < INITIAL_N
  {
    if t != [] {
      BelowAreBasic(t[1..]);
    }
  }

  // ---------------------------------------------------------------- lockstep

  /**
    * The decoder (at code point `n` and index `i0`, with `out` built) against the encoder in the
    * pass for `r` at position `p`: the gathered distance is how far the decoder has to walk.
    */
  ghost predicate InStep(t: seq<CodePoint>, p: nat, r: CodePoint, i: nat, y: nat, basic: nat,
                         n: nat, i0: nat, out: seq<int>)
    requires p <= |t|
  {
    && n == (if r in t[..p] then r else GreatestBelow(t, r)) && INITIAL_N <= n <= r
    && out == Built(t, p, r) && |out| == y
    && i == (r - n) * (y + 1) + |Below(t[..p], r + 1)| - i0
    && basic <= y && (y == basic <==> i0 == 0)
  }

  /** The divisor is stale only after a hit in this pass, when the distance is below it. */
  ghost predicate DivisorHarmless(t: seq<CodePoint>, p: nat, r: CodePoint, points: nat, i: nat, y: nat,
                                  basic: nat, n: nat)
    requires p <= |t|
  {
    && basic < points && |Below(t, r)| == points - 1 <= y
    && (y + 1 != points ==> n == r && i <= MAX_INT && i <= |Below(t[..p], r)|)
  }

  /** The greatest code point below `r` that is inserted, or where the decoder begins. */
  function GreatestBelow(t: seq<CodePoint>, r: int): (n: nat)
    ensures INITIAL_N <= n
    ensures n == INITIAL_N || (n in t && n < r)
    ensures forall k :: 0 <= k < |t| && t[k] < r ==> t[k] <= n
  {
    if t == [] then INITIAL_N
    else
      var n := GreatestBelow(t[1..], r);
      assert t == [t[0]] + t[1..];
      if n < t[0] < r then t[0] else n
  }

  /** The code point inserted just before the one at `p`. */
  function InsertedBefore(t: seq<CodePoint>, p: nat): (n: nat)
    requires p < |t|
  {
    if t[p] in t[..p] then t[p] else GreatestBelow(t, t[p])
  }

  /**
    * What the decoder counts up to for the insertion of the code point at `p`: rounds over everything
    * inserted before, and the place where it goes.
    */
  function Walked(t: seq<CodePoint>, p: nat): (i: int)
    requires p < |t|
  {
    var r: int := t[p];
    (r - InsertedBefore(t, p)) * (|Built(t, p, r)| + 1) + |Below(t[..p], r + 1)|
  }

  /** The walk to every insertion stays within the integer range. */
  predicate DecoderFits(t: seq<CodePoint>)
  {
    forall p :: 0 <= p < |t| && t[p] >= INITIAL_N ==> Walked(t, p) <= MAX_INT
  }

  /** The walks of the pass for `r` from position `p` on, and of the passes after it. */
  ghost predicate ScanFits(t: seq<CodePoint>, p: nat, r: int)
  {
    forall q :: 0 <= q < |t| && (t[q] > r || (t[q] == r && q >= p)) ==> Walked(t, q) <= MAX_INT
  }

  ghost predicate Replays(r: Result<seq<int>, Error>, t: seq<int>, fits: bool)
  {
    r == if fits then Ok(t) else Err(Overflow)
  }

  /** What the encoder still writes makes the decoder complete `t`, if that fits; and then the encoder succeeds. */
  ghost predicate InLockstep(s: Result<Str, Error>, t: seq<int>, fits: bool, bias: int, n: nat, i0: nat, out: seq<int>)
  {
    && (fits && |t| <= MAX_INT ==> s.Ok?)
    && (s.Ok? ==> Replays(Insertions(s.value, n, i0, bias, out), t, fits))
  }

  lemma Distribute(a: int, b: int, m: int)
    ensures a * m + b * m == (a + b) * m
  {}

  lemma InsertionsDone(n: int, i: int, bias: int, out: seq<int>)
    ensures Insertions([], n, i, bias, out) == Ok(out)
  {}

  lemma {:induction false} PassesReplay(t: seq<CodePoint>, r: nat, i: nat, bias: int, y: nat, basic: nat,
                                        n: nat, i0: nat, out: seq<int>)
    requires r <= 0x110000 && y == |Below(t, r)| && out == Below(t, r)
    requires n == GreatestBelow(t, r) <= r && i == (r - n) * (y + 1) - i0 && bias < BIAS_LIMIT
    requires basic <= y && (y == basic <==> i0 == 0)
    ensures var s := Passes(t, r, i, bias, y, basic);
            var fits := ScanFits(t, 0, r);
            InLockstep(s, t, fits, bias, n, i0, out)
    decreases 0x110000 - r, 1, 0
  {
    hide Adapt, Insertions, LeastFrom, Walked, GreatestBelow;
    var s := Passes(t, r, i, bias, y, basic);
    AllBelow(t, r);
    if y >= |t| {
      InsertionsDone(n, i0, bias, out);
    } else {
      var w := LeastFrom(t, r);
      BelowNext(t, r);
      Advance(w - r, y);
      Distribute(r - n, w - r, y + 1);
      FitsIff(w - r, MAX_INT - i, y + 1);
      assert t[..0] == [] && t[0..] == t;
      NothingBetween(t, r, w);
      if ScanFits(t, 0, w) {
        FirstWalk(t, 0, w, y, n);
      }
      if i + (w - r) * (y + 1) <= MAX_INT {
        ScanReplays(t, 0, w, y + 1, i + (w - r) * (y + 1), bias, y, basic, n, i0, out);
      }
    }
  }

  lemma NothingBetween(t: seq<CodePoint>, r: int, w: int)
    requires INITIAL_N <= r <= w && forall k :: 0 <= k < |t| && t[k] >= r ==> w <= t[k]
    ensures GreatestBelow(t, w) == GreatestBelow(t, r) && ScanFits(t, 0, w) == ScanFits(t, 0, r)
  {
    hide Walked;
  }

  /** Where the next `r` is, the decoder has as much built as now, and at least as much to pass in it. */
  lemma {:induction false} NextHit(t: seq<CodePoint>, p: nat, r: CodePoint) returns (q: nat)
    requires p <= |t| && r in t[p..]
    ensures p <= q < |t| && t[q] == r && (r !in t[..p] ==> r !in t[..q])
    ensures Built(t, q, r) == Built(t, p, r)
    ensures |Below(t[..q], r + 1)| >= |Below(t[..p], r + 1)| + if t[p] < r then 1 else 0
    decreases |t| - p
  {
    hide Below, Built;
    if t[p] == r {
      q := p;
    } else {
      assert t[p..] == [t[p]] + t[p + 1..] && t[..p + 1] == t[..p] + [t[p]];
      q := NextHit(t, p + 1, r);
      BuiltNext(t, p, r);
    }
  }

  /** As long as `r` is still to come, its walk bounds the distance. */
  lemma FirstWalk(t: seq<CodePoint>, p: nat, r: CodePoint, y: nat, n: nat)
    requires p <= |t| && r in t && r !in t[..p] && ScanFits(t, p, r)
    requires y == |Built(t, p, r)| && n == GreatestBelow(t, r)
    ensures p < |t|
    ensures (r - n) * (y + 1) + |Below(t[..p], r + 1)| + (if t[p] < r then 1 else 0) <= MAX_INT
  {
    hide Below, Built, GreatestBelow, Walked;
    assert t == t[..p] + t[p..];
    var q := NextHit(t, p, r);
    WalkedIs(t, q, n);
  }

  lemma OneMoreFits(t: seq<CodePoint>, p: nat, r: CodePoint, i: nat, y: nat, basic: nat, n: nat, i0: nat, out: seq<int>)
    requires p < |t| <= MAX_INT && t[p] < r && r in t
    requires InStep(t, p, r, i, y, basic, n, i0, out) && ScanFits(t, p, r)
    ensures i + 1 <= MAX_INT
  {
    hide Below, Built, GreatestBelow, ScanFits;
    if r in t[..p] {
      BelowUpTo(t, p, r + 1);
      Distribute(0, 0, y + 1);
    } else {
      FirstWalk(t, p, r, y, n);
    }
  }

  lemma EncoderStops(t: seq<int>, fits: bool, bias: int, n: nat, i0: nat, out: seq<int>)
    requires fits ==> |t| > MAX_INT
    ensures InLockstep(Err(Overflow), t, fits, bias, n, i0, out)
  {}

  lemma {:induction false} ScanReplays(t: seq<CodePoint>, p: nat, r: CodePoint, points: nat, i: nat, bias: int,
                                       y: nat, basic: nat, n: nat, i0: nat, out: seq<int>)
    requires p <= |t| && points > 0 && r in t
    requires InStep(t, p, r, i, y, basic, n, i0, out) && DivisorHarmless(t, p, r, points, i, y, basic, n)
    requires i <= MAX_INT && bias < BIAS_LIMIT
    ensures var s := Scan(t, p, r, points, i, bias, y, basic);
            var fits := ScanFits(t, p, r);
            InLockstep(s, t, fits, bias, n, i0, out)
    decreases 0x110000 - r, 0, |t| - p
  {
    hide Adapt, Below, Walked, GreatestBelow, ScanFits, InLockstep;
    BuiltNext(t, p, r);
    ScanFitsNext(t, p, r);
    if p == |t| {
      Distribute(r - n, 1, y + 1);
      assert t[..p] == t;
      GreatestBelowNext(t, r);
      PassesReplay(t, r + 1, i + 1, bias, y, basic, n, i0, out);
    } else {
      BelowUpTo(t, p, r);
      if t[p] < r {
        if ScanFits(t, p, r) && |t| <= MAX_INT {
          OneMoreFits(t, p, r, i, y, basic, n, i0, out);
        }
        if i + 1 <= MAX_INT {
          ScanReplays(t, p + 1, r, points, i + 1, bias, y, basic, n, i0, out);
        } else {
          EncoderStops(t, ScanFits(t, p, r), bias, n, i0, out);
        }
      } else if t[p] > r {
        ScanReplays(t, p + 1, r, points, i, bias, y, basic, n, i0, out);
      } else {
        HitReplays(t, p, r, points, i, bias, y, basic, n, i0, out);
      }
    }
  }

  lemma BelowUpTo(t: seq<CodePoint>, p: nat, r: int)
    requires p < |t|
    ensures |Below(t[..p + 1], r)| == |Below(t[..p], r)| + if t[p] < r then 1 else 0
    ensures |Below(t[..p + 1], r)| <= |Below(t, r)|
  {
    assert t[..p + 1] == t[..p] + [t[p]];
    BelowConcat(t[..p], [t[p]], r);
    assert Below([t[p]], r) == if t[p] < r then [t[p]] else [];
    assert t == t[..p + 1] + t[p + 1..];
    BelowConcat(t[..p + 1], t[p + 1..], r);
  }

  /** One insertion of `r` at index `j`, given that its delta has been read. */
  lemma InsertionStep(s: Str, rest: Str, n: nat, r: CodePoint, i: nat, i0: nat, j: nat, bias: int, out: seq<int>)
    requires ReadDelta(s, i0, 1, 36, bias) == Ok((i0 + i, rest))
    requires n <= r && j <= |out| && i0 + i == (r - n) * (|out| + 1) + j
    ensures Insertions(s, n, i0, bias, out)
         == Insertions(rest, r, j + 1, Adapt(i, |out| + 1, i0 == 0), Splice(out, j, r))
  {
    hide ReadDelta, Adapt, Splice, Remainder;
    DivUnique(i0 + i, |out| + 1, r - n, j);
    RemainderBelow(i0 + i, |out| + 1);
  }

  lemma InStepAfterHit(t: seq<CodePoint>, p: nat, r: CodePoint, points: nat, i: nat, y: nat, basic: nat,
                       n: nat, i0: nat, out: seq<int>)
    requires p < |t| && t[p] == r
    requires InStep(t, p, r, i, y, basic, n, i0, out) && DivisorHarmless(t, p, r, points, i, y, basic, n)
    ensures var j := |Below(t[..p], r + 1)|;
            && j <= y < |t|
            && InStep(t, p + 1, r, 0, y + 1, basic, r, j + 1, Splice(out, j, r))
            && DivisorHarmless(t, p + 1, r, points, 0, y + 1, basic, r)
  {
    BuiltNext(t, p, r);
    assert t[p..][1..] == t[p + 1..];
    Distribute(0, 0, y + 2);
  }

  /** The step that writes a delta and the step that reads it arrive at the same place. */
  lemma {:induction false} HitReplays(t: seq<CodePoint>, p: nat, r: CodePoint, points: nat, i: nat, bias: int,
                                      y: nat, basic: nat, n: nat, i0: nat, out: seq<int>)
    requires p < |t| && t[p] == r && points > 0
    requires InStep(t, p, r, i, y, basic, n, i0, out) && DivisorHarmless(t, p, r, points, i, y, basic, n)
    requires i <= MAX_INT && bias < BIAS_LIMIT
    ensures var s := Scan(t, p, r, points, i, bias, y, basic);
            var fits := ScanFits(t, p, r);
            InLockstep(s, t, fits, bias, n, i0, out)
    decreases 0x110000 - r, 0, |t| - p, 0
  {
    hide Adapt, Insertions, Below, WriteDelta, Splice, Walked, GreatestBelow, ScanFits;
    var j := |Below(t[..p], r + 1)|;
    var bias' := Adapt(i, points, y == basic);
    InStepAfterHit(t, p, r, points, i, y, basic, n, i0, out);
    AdaptAgrees(t, p, r, points, i, y, basic, n);
    AdaptBounded(i, points, y == basic);
    ScanFitsNext(t, p, r);
    assert Walked(t, p) == i0 + i by { WalkedIs(t, p, n); }
    var s := Scan(t, p + 1, r, points, 0, bias', y + 1, basic);
    assert Scan(t, p, r, points, i, bias, y, basic) == Prepend(WriteDelta(i, 36, bias), s);
    ScanReplays(t, p + 1, r, points, 0, bias', y + 1, basic, r, j + 1, Splice(out, j, r));
    if s.Ok? {
      HitInserts(s.value, n, r, i, i0, j, bias, bias', out, t, y == basic, ScanFits(t, p + 1, r));
    }
  }

  lemma GreatestBelowNext(t: seq<CodePoint>, r: CodePoint)
    requires r >= INITIAL_N
    ensures GreatestBelow(t, r + 1) == if r in t then r else GreatestBelow(t, r)
  {}

  lemma WalkedIs(t: seq<CodePoint>, p: nat, n: nat)
    requires p < |t| && n == InsertedBefore(t, p)
    ensures var r: int := t[p]; Walked(t, p) == (r - n) * (|Built(t, p, r)| + 1) + |Below(t[..p], r + 1)|
  {}

  lemma ScanFitsNext(t: seq<CodePoint>, p: nat, r: CodePoint)
    requires p <= |t|
    ensures p == |t| ==> (ScanFits(t, p, r) <==> ScanFits(t, 0, r + 1))
    ensures p < |t| && t[p] != r ==> (ScanFits(t, p, r) <==> ScanFits(t, p + 1, r))
    ensures p < |t| && t[p] == r ==> (ScanFits(t, p, r) <==> Walked(t, p) <= MAX_INT && ScanFits(t, p + 1, r))
  {
    hide Walked;
  }

  lemma HitInserts(rest: Str, n: nat, r: CodePoint, i: nat, i0: nat, j: nat, bias: int, bias': int,
                   out: seq<int>, t: seq<CodePoint>, first: bool, fits: bool)
    requires n <= r && j <= |out| < |t| && i0 + i == (r - n) * (|out| + 1) + j
    requires i <= MAX_INT && bias < BIAS_LIMIT
    requires first == (i0 == 0) && bias' == Adapt(i, |out| + 1, first)
    requires Replays(Insertions(rest, r, j + 1, bias', Splice(out, j, r)), t, fits)
    ensures Replays(Insertions(WriteDelta(i, 36, bias) + rest, n, i0, bias, out), t, i0 + i <= MAX_INT && fits)
  {
    hide Adapt, Splice, ReadDelta, WeightsFit;
    var s := WriteDelta(i, 36, bias) + rest;
    WeightsAlwaysFit(i, 0, bias, 1);
    DeltaRoundTrip(i, 36, bias, i0, 1, rest);
    assert s != [];
    if i0 + i <= MAX_INT {
      InsertionStep(s, rest, n, r, i, i0, j, bias, out);
    }
  }

  lemma AdaptAgrees(t: seq<CodePoint>, p: nat, r: CodePoint, points: nat, i: nat, y: nat, basic: nat, n: nat)
    requires p < |t| && points > 0
    requires DivisorHarmless(t, p, r, points, i, y, basic, n)
    ensures Adapt(i, points, y == basic) == Adapt(i, y + 1, y == basic)
  {
    if y + 1 != points {
      BelowUpTo(t, p, r);
      AdaptIgnoresLargeDivisors(i, points, y + 1);
    }
  }

  // ---------------------------------------------------------------- the whole codec

  predicate HasDelimiter(s: Str) { DELIMITER in s }

  lemma {:induction false} DeltaHasNoDelimiter(q: nat, k: nat, bias: int)
    ensures !HasDelimiter(WriteDelta(q, k, bias))
    decreases q
  {
    var t := Threshold(k, bias);
    if q >= t {
      DeltaHasNoDelimiter(HighPart(q, t), k + 36, bias);
    }
  }

  /** What the passes write has no delimiter in it, and only an overflow stops them. */
  lemma {:induction false} PassesHaveNoDelimiter(t: seq<CodePoint>, r: nat, i: nat, bias: int, y: nat, basic: nat)
    requires r <= 0x110000 && y == |Below(t, r)|
    ensures var s := Passes(t, r, i, bias, y, basic);
            if s.Ok? then !HasDelimiter(s.value) else s.error == Overflow
    decreases 0x110000 - r, 1, 0
  {
    if y < |t| {
      var w := LeastFrom(t, r);
      BelowNext(t, r);
      Advance(w - r, y);
      ScanHasNoDelimiter(t, 0, w, y + 1, i + (w - r) * (y + 1), bias, y, basic);
    }
  }

  lemma {:induction false} ScanHasNoDelimiter(t: seq<CodePoint>, p: nat, r: CodePoint, points: nat, i: nat,
                                              bias: int, y: nat, basic: nat)
    requires p <= |t| && points > 0 && y == |Built(t, p, r)|
    ensures var s := Scan(t, p, r, points, i, bias, y, basic);
            if s.Ok? then !HasDelimiter(s.value) else s.error == Overflow
    decreases 0x110000 - r, 0, |t| - p
  {
    hide Adapt, Below, WriteDelta;
    BuiltNext(t, p, r);
    if p == |t| {
      PassesHaveNoDelimiter(t, r + 1, i + 1, bias, y, basic);
    } else if t[p] < r {
      ScanHasNoDelimiter(t, p + 1, r, points, i + 1, bias, y, basic);
    } else if t[p] == r {
      DeltaHasNoDelimiter(i, 36, bias);
      ScanHasNoDelimiter(t, p + 1, r, points, 0, Adapt(i, points, y == basic), y + 1, basic);
    } else {
      ScanHasNoDelimiter(t, p + 1, r, points, i, bias, y, basic);
    }
  }

  lemma {:induction false} DelimiterFound(head: Str, tail: Str)
    requires !HasDelimiter(tail)
    ensures LastDelimiter(tail) == 0
    ensures LastDelimiter(head + [DELIMITER] + tail) == |head|
    decreases |tail|
  {
    var s := head + [DELIMITER] + tail;
    if tail == [] {
    } else {
      var tail' := tail[..|tail| - 1];
      assert s[..|s| - 1] == head + [DELIMITER] + tail';
      assert tail[|tail| - 1] in tail;
      DelimiterFound(head, tail');
    }
  }

  /**
    * Encoding succeeds and decoding undoes it, if and only if the walk to every insertion stays within the
    * integer range. Otherwise one of the two reports an overflow.
    */
  lemma DecodeInvertsEncode(t: seq<CodePoint>)
    ensures |t| <= MAX_INT ==> ((Encode(t).Ok? && Decode(Encode(t).value) == Ok(t)) <==> DecoderFits(t))
    ensures !DecoderFits(t) ==>
      Encode(t) == Err(Overflow) || (Encode(t).Ok? && Decode(Encode(t).value) == Err(Overflow))
  {
    hide Insertions, Passes, Below, ScanFits, Walked, Decode;
    var basics := Below(t, INITIAL_N);
    var y := |basics|;
    BelowAreBasic(t);
    var tail := Passes(t, INITIAL_N, 0, INITIAL_BIAS, y, y);
    Distribute(0, 0, y + 1);
    PassesReplay(t, INITIAL_N, 0, INITIAL_BIAS, y, y, INITIAL_N, 0, basics);
    PassesHaveNoDelimiter(t, INITIAL_N, 0, INITIAL_BIAS, y, y);
    AllWalks(t);
    if tail.Ok? {
      DecodeParts(basics, tail.value);
    }
  }

  lemma AllWalks(t: seq<CodePoint>)
    ensures ScanFits(t, 0, INITIAL_N) <==> DecoderFits(t)
  {
    hide Walked;
  }

  /** A head of basic code points with its delimiter, and a tail without one. */
  lemma DecodeParts(basics: Str, tail: Str)
    requires AllBasic(basics) && !HasDelimiter(tail)
    ensures Decode((if basics == [] then [] else basics + [DELIMITER]) + tail)
         == match Insertions(tail, INITIAL_N, 0, INITIAL_BIAS, basics)
            case Err(e) => Err(e)
            case Ok(out) => if AllCodePoints(out) then Ok(out) else Err(BadCodePoint)
  {
    hide Insertions, LastDelimiter;
    DelimiterFound(basics, tail);
    var s := (if basics == [] then [] else basics + [DELIMITER]) + tail;
    if basics == [] {
      assert s == tail && s[..0] == [] && s[0..] == s;
    } else {
      assert s == basics + [DELIMITER] + tail;
      assert s[..|basics|] == basics && s[|basics| + 1..] == tail;
    }
  }

  /** An input whose encoding succeeds and whose decoding overflows: two code points far apart and 2046 letters. */
  function FarApart(): (t: seq<CodePoint>) { [0x10_0080, 0x80] + seq(2046, _ => 97) }

  lemma DecoderOverflows()
    ensures var t := FarApart(); Encode(t).Ok? && Decode(Encode(t).value) == Err(Overflow)
  {
    hide Encode, Decode, Walked, FarApart;
    FarApartEncodes();
    FarApartWalks();
    DecodeInvertsEncode(FarApart());
  }

  lemma FarApartBelow(r: CodePoint)
    requires 97 < r
    ensures var t := FarApart(); var below := Below(t, r);
      && |below| == (if r > 0x10_0080 then 1 else 0) + (if r > 0x80 then 1 else 0) + 2046
      && (r == 0x10_0080 ==> |Below(t[0..], r)| == 2047 && t[..0] == [])
  {
    var t := FarApart();
    var a := seq(2046, _ => 97);
    LettersBelow(a, r);
    assert t == [0x10_0080] + ([0x80] + a) && t[1..] == [0x80] + a && ([0x80] + a)[1..] == a;
    assert t[0..] == t;
  }

  lemma {:induction false} LettersBelow(a: seq<int>, r: int)
    requires 97 < r && forall k :: 0 <= k < |a| ==> a[k] == 97
    ensures |Below(a, r)| == |a|
  {
    if a != [] {
      LettersBelow(a[1..], r);
    }
  }

  lemma FarApartWalks()
    ensures var t := FarApart(); |t| > 0 && t[0] == 0x10_0080 && Walked(t, 0) > MAX_INT
  {
    hide Below;
    var t := FarApart();
    FarApartBelow(0x10_0080);
    assert t[1] == 0x80;
    assert t[0] !in t[..0];
    assert forall k :: 0 <= k < |t| ==> t[k] == 0x10_0080 || t[k] <= 0x80;
    assert InsertedBefore(t, 0) == 0x80;
  }

  /** A run of letters at the end of a pass only adds to the distance. */
  lemma {:induction false} LettersScanned(t: seq<CodePoint>, p: nat, r: CodePoint, points: nat, i: nat,
                                         bias: int, y: nat, basic: nat)
    requires p <= |t| && points > 0 && y == |Built(t, p, r)|
    requires (forall k :: p <= k < |t| ==> t[k] < r) && i + |t| - p <= MAX_INT
    ensures y == |Below(t, r + 1)|
    ensures Scan(t, p, r, points, i, bias, y, basic) == Passes(t, r + 1, i + |t| - p + 1, bias, y, basic)
    decreases |t| - p
  {
    hide Below, Adapt;
    BuiltNext(t, p, r);
    if p < |t| {
      LettersScanned(t, p + 1, r, points, i + 1, bias, y, basic);
    }
  }

  lemma FarApartEncodes()
    ensures Encode(FarApart()).Ok?
  {
    hide Below, Adapt, FarApart, LeastFrom;
    var t := FarApart();
    FarApartBelow(INITIAL_N);
    FarApartShape();
    BelowAreBasic(t);
    FarApartFirstPass(INITIAL_BIAS);
  }

  lemma FarApartShape()
    ensures var t := FarApart();
      && |t| == 2048 && t[0] == 0x10_0080 && t[1] == 0x80 && (forall k :: 2 <= k < 2048 ==> t[k] == 97)
      && LeastFrom(t, 0x80) == 0x80 && LeastFrom(t, 0x81) == 0x10_0080
  {
    hide LeastFrom;
    var t := FarApart();
    assert t[0] in t && t[1] in t;
    assert LeastFrom(t, 0x80) <= t[1];
    assert LeastFrom(t, 0x81) <= t[0];
  }

  lemma FarApartFirstPass(bias: int)
    requires |Below(FarApart(), 0x80)| == 2046
    ensures Passes(FarApart(), 0x80, 0, bias, 2046, 2046).Ok?
  {
    hide Below, Adapt, FarApart, LeastFrom, WriteDelta;
    var t := FarApart();
    FarApartShape();
    BelowNext(t, 0x80);
    assert t[..0] == [] && t[0..] == t;
    BuiltNext(t, 0, 0x80);
    BuiltNext(t, 1, 0x80);
    var bias' := Adapt(0, 2047, true);
    LettersScanned(t, 2, 0x80, 2047, 0, bias', 2047, 2046);
    FarApartSecondPass(bias');
  }

  lemma FarApartSecondPass(bias: int)
    requires |Below(FarApart(), 0x81)| == 2047
    ensures Passes(FarApart(), 0x81, 2047, bias, 2047, 2046).Ok?
  {
    hide Below, Adapt, FarApart, LeastFrom, WriteDelta;
    var t := FarApart();
    FarApartShape();
    BelowNext(t, 0x81);
    assert t[..0] == [] && t[0..] == t;
    BuiltNext(t, 0, 0x10_0080);
    BuiltNext(t, 1, 0x10_0080);
    var bias' := Adapt(MAX_INT, 2048, false);
    assert 2047 + (0x10_0080 - 0x81) * 2048 == MAX_INT;
    LettersScanned(t, 2, 0x10_0080, 2048, 1, bias', 2048, 2046);
    assert Passes(t, 0x10_0081, 2048, bias', 2048, 2046) == Ok([]);
  }

  /** Up to 1926 code points every walk stays within the range. */
  lemma ShortInputsFit(t: seq<CodePoint>)
    requires |t| <= SHORT
    ensures DecoderFits(t) && Encode(t).Ok? && Decode(Encode(t).value) == Ok(t)
  {
    hide Encode, Decode, Walked, Below;
    forall p | 0 <= p < |t| && t[p] >= INITIAL_N ensures Walked(t, p) <= MAX_INT {
      var r: int := t[p];
      var n := InsertedBefore(t, p);
      WalkedIs(t, p, n);
      BuiltShorter(t, p);
      ShortWalk(r - n, |Built(t, p, r)| + 1, |t|);
    }
    DecodeInvertsEncode(t);
  }

  lemma BuiltShorter(t: seq<CodePoint>, p: nat)
    requires p < |t|
    ensures var r: int := t[p]; |Built(t, p, r)| < |t| && |Below(t[..p], r + 1)| < |t|
  {
    assert t[p..][1..] == t[p + 1..];
  }

  lemma ShortWalk(a: int, m: nat, l: nat)
    requires a < 0x110000 && m <= l <= SHORT
    ensures a * m <= 0x10FFFF * l
  {
    Monotone(a, 0x10FFFF, m);
  }

  /** The same for the text functions, whose input is any string, unpaired surrogates included. */
  lemma DecodeTextInvertsEncode(s: Str)
    ensures var t := CodePoints(s);
            && (|t| <= MAX_INT && DecoderFits(t) ==>
                  && Encode(t).Ok? && Decode(Encode(t).value).Ok?
                  && FromCodePoints(Decode(Encode(t).value).value) == s)
            && (!DecoderFits(t) ==>
                  Encode(t) == Err(Overflow) || (Encode(t).Ok? && Decode(Encode(t).value) == Err(Overflow)))
  {
    hide DecoderFits, Encode, Decode;
    DecodeInvertsEncode(CodePoints(s));
    FromCodePointsInverse(s);
  }
}