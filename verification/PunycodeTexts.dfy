/**
  * Which texts Punycode writes: the closed form for one insertion, the adaptation in closed form, and a
  * text with several insertions. The numbers here are those of section 5 of RFC 3492, written out.
  */
module PunycodeTexts {
  import opened Wrappers
  import opened JsNumber
  import opened JsText
  import opened Punycode

  // ---------------------------------------------------------------- passes with one insertion

  /** A stretch of a pass without an insertion only adds to the distance. */
  lemma {:induction false} Unhit(t: seq<CodePoint>, a: nat, p: nat, r: CodePoint, points: nat, i: nat, bias: int,
                                 y: nat, basic: nat)
    requires a <= p <= |t| && points > 0 && y == |Built(t, a, r)|
    requires (forall k :: a <= k < p ==> t[k] != r) && i + |Below(t[a..p], r)| <= MAX_INT
    ensures y == |Built(t, p, r)|
    ensures Scan(t, a, r, points, i, bias, y, basic)
         == Scan(t, p, r, points, i + |Below(t[a..p], r)|, bias, y, basic)
    decreases p - a
  {
    hide Adapt, Built;
    if a == p {
      assert t[a..p] == [];
    } else {
      BuiltNext(t, a, r);
      assert t[a..p] == [t[a]] + t[a + 1..p];
      BelowConcat([t[a]], t[a + 1..p], r);
      BelowOne(t[a], r);
      Unhit(t, a + 1, p, r, points, if t[a] < r then i + 1 else i, bias, y, basic);
    }
  }

  lemma BelowOne(c: CodePoint, r: int)
    ensures |Below([c], r)| == if c < r then 1 else 0
  {
    assert Below([], r) == [];
  }

  /** The pass for a code point that occurs once: its delta, and what is left for the passes after it. */
  lemma OneHit(t: seq<CodePoint>, p: nat, r: nat, i: nat, bias: int, y: nat, basic: nat)
    requires p < |t| <= MAX_INT && r <= t[p] && y == |Below(t, r)|
    requires forall k :: 0 <= k < |t| && k != p ==> t[k] < r || t[k] > t[p]
    requires i + (t[p] - r) * (y + 1) + |Below(t[..p], t[p])| <= MAX_INT
    ensures var w: int := t[p];
      var q := i + (w - r) * (y + 1) + |Below(t[..p], w)|;
      && q >= 0 && |Below(t, w + 1)| == y + 1
      && Passes(t, r, i, bias, y, basic)
      == Prepend(WriteDelta(q, 36, bias),
                 Passes(t, w + 1, |Below(t[p + 1..], w)| + 1, Adapt(q, y + 1, y == basic), y + 1, basic))
  {
    hide Adapt, Below, Scan, Passes, WriteDelta, Built, LeastFrom;
    var w: CodePoint := t[p];
    AllBelow(t, r);
    LeastIs(t, r, p);
    BelowNext(t, r);
    Advance(w - r, y);
    var start := i + (w - r) * (y + 1);
    PassStarts(t, r, w, i, bias, y, basic);
    assert t[0..p] == t[..p];
    Unhit(t, 0, p, w, y + 1, start, bias, y, basic);
    var q := start + |Below(t[..p], w)|;
    var bias' := Adapt(q, y + 1, y == basic);
    AtHit(t, p, w, y + 1, q, bias, y, basic);
    assert t[p + 1..|t|] == t[p + 1..];
    Unhit(t, p + 1, |t|, w, y + 1, 0, bias', y + 1, basic);
    AtEnd(t, w, y + 1, |Below(t[p + 1..], w)|, bias', y + 1, basic);
  }

  lemma PassStarts(t: seq<CodePoint>, r: nat, w: CodePoint, i: nat, bias: int, y: nat, basic: nat)
    requires r <= w && y == |Below(t, r)| < |t| && w == LeastFrom(t, r)
    requires i + (w - r) * (y + 1) <= MAX_INT
    ensures y == |Built(t, 0, w)| && (w - r) * (y + 1) >= 0
    ensures Passes(t, r, i, bias, y, basic) == Scan(t, 0, w, y + 1, i + (w - r) * (y + 1), bias, y, basic)
  {
    hide Scan, Below, Built, LeastFrom;
    BelowNext(t, r);
    Advance(w - r, y);
    FitsIff(w - r, MAX_INT - i, y + 1);
  }

  lemma LeastIs(t: seq<CodePoint>, r: nat, p: nat)
    requires p < |t| && r <= t[p] && forall k :: 0 <= k < |t| && k != p ==> t[k] < r || t[k] > t[p]
    ensures LeastFrom(t, r) == t[p]
  {
    hide LeastFrom;
  }

  lemma AtHit(t: seq<CodePoint>, p: nat, r: CodePoint, points: nat, i: nat, bias: int, y: nat, basic: nat)
    requires p < |t| && t[p] == r && points > 0 && y == |Built(t, p, r)|
    ensures y + 1 == |Built(t, p + 1, r)|
    ensures Scan(t, p, r, points, i, bias, y, basic)
         == Prepend(WriteDelta(i, 36, bias),
                    Scan(t, p + 1, r, points, 0, Adapt(i, points, y == basic), y + 1, basic))
  {
    hide Adapt, WriteDelta, Below;
    BuiltNext(t, p, r);
  }

  lemma AtEnd(t: seq<CodePoint>, r: CodePoint, points: nat, i: nat, bias: int, y: nat, basic: nat)
    requires points > 0 && y == |Built(t, |t|, r)|
    ensures y == |Below(t, r + 1)|
    ensures Scan(t, |t|, r, points, i, bias, y, basic) == Passes(t, r + 1, i + 1, bias, y, basic)
  {
    hide Built, Passes;
    BuiltNext(t, |t|, r);
  }

  // ---------------------------------------------------------------- one insertion

  /** Letters for 0 to 25, then digits. */
  function Letter(d: nat): (u: Unit)
    requires d < 36
  {
    if d < 26 then 97 + d else 48 + (d - 26)
  }

  /** The first number of a text: thresholds 1, 1, and from then on 26. */
  function FirstDigits(q: nat, place: nat): (s: Str)
    decreases q
  {
    var t := if place < 2 then 1 else 26;
    if q < t then [Letter(q)]
    else
      DivBounds(q - t, 36 - t);
      [Letter(t + (q - t) % (36 - t))] + FirstDigits((q - t) / (36 - t), place + 1)
  }

  lemma {:induction false} FirstDigitsWritten(q: nat, place: nat)
    ensures WriteDelta(q, 36 * (place + 1), 72) == FirstDigits(q, place)
    decreases q
  {
    var t := if place < 2 then 1 else 26;
    assert Threshold(36 * (place + 1), 72) == t;
    if q >= t {
      DivBounds(q - t, 36 - t);
      FirstDigitsWritten((q - t) / (36 - t), place + 1);
    }
  }

  /**
    * A text with exactly one code point outside ASCII, at `p`: the others, a hyphen if there are any, and
    * the digits of the code point's distance from 128 times the length, plus `p`.
    */
  lemma OneInsertion(t: seq<CodePoint>, p: nat, q: nat)
    requires p < |t| <= 0x7FFF_FFFF && t[p] >= 128 && forall k :: 0 <= k < |t| && k != p ==> t[k] < 128
    requires q == (t[p] - 128) * |t| + p <= 0x7FFF_FFFF
    ensures var others := t[..p] + t[p + 1..];
      var text := (if others == [] then [] else others + [45]) + FirstDigits(q, 0);
      Encode(t) == Ok(text) && Decode(text) == Ok(t)
  {
    hide Passes, Decode, Encode, DecoderFits, FirstDigits;
    OneInsertionEncodes(t, p, q);
    OneInsertionFits(t, p, q);
    DecodeInvertsEncode(t);
  }

  lemma OneInsertionFits(t: seq<CodePoint>, p: nat, q: nat)
    requires p < |t| && t[p] >= 128 && forall k :: 0 <= k < |t| && k != p ==> t[k] < 128
    requires q == (t[p] - 128) * |t| + p <= 0x7FFF_FFFF
    ensures DecoderFits(t)
  {
    hide Walked;
    WalkIs(t, p);
  }

  lemma OneInsertionEncodes(t: seq<CodePoint>, p: nat, q: nat)
    requires p < |t| <= 0x7FFF_FFFF && t[p] >= 128 && forall k :: 0 <= k < |t| && k != p ==> t[k] < 128
    requires q == (t[p] - 128) * |t| + p <= 0x7FFF_FFFF
    ensures var others := t[..p] + t[p + 1..];
      Encode(t) == Ok((if others == [] then [] else others + [45]) + FirstDigits(q, 0))
  {
    hide Passes, WriteDelta, Adapt, FirstDigits, Below;
    var c: int := t[p];
    var y := |t| - 1;
    OthersBelow(t, p);
    BelowAreBasic(t);
    OneHit(t, p, 128, 0, 72, y, y);
    FirstDigitsWritten(q, 0);
    NothingLeft(t, c + 1, |Below(t[p + 1..], c)| + 1, Adapt(q, y + 1, true), y + 1, y);
    assert FirstDigits(q, 0) + [] == FirstDigits(q, 0);
  }

  lemma OthersBelow(t: seq<CodePoint>, p: nat)
    requires p < |t| && t[p] >= 128 && forall k :: 0 <= k < |t| && k != p ==> t[k] < 128
    ensures Below(t, 128) == t[..p] + t[p + 1..] && |Below(t[..p], t[p])| == p
  {
    hide Below;
    assert t == t[..p] + [t[p]] + t[p + 1..];
    AllBelow(t[..p], 128);
    AllBelow(t[..p], t[p]);
    Drops(t[..p], [t[p]], 128);
    Keeps(t[..p] + [t[p]], t[p + 1..], 128);
  }

  lemma NothingLeft(t: seq<CodePoint>, r: nat, i: nat, bias: int, y: nat, basic: nat)
    requires r <= 0x110000 && y == |Below(t, r)| >= |t|
    ensures Passes(t, r, i, bias, y, basic) == Ok([])
  {}

  lemma WalkIs(t: seq<CodePoint>, p: nat)
    requires p < |t| && t[p] >= 128 && forall k :: 0 <= k < |t| && k != p ==> t[k] < 128
    ensures Walked(t, p) == (t[p] - 128) * |t| + p
  {
    hide Below;
    var c: int := t[p];
    assert t[p] !in t[..p];
    assert InsertedBefore(t, p) == 128;
    WalkedIs(t, p, 128);
    assert t[p..] == [t[p]] + t[p + 1..];
    BelowConcat([t[p]], t[p + 1..], c);
    BelowOne(t[p], c);
    AllBelow(t[..p], c + 1);
    AllBelow(t[p + 1..], c);
  }

  // ---------------------------------------------------------------- the adaptation

  lemma NestedDivision(t: nat, a: nat, b: nat)
    requires a > 0 && b > 0
    ensures a * b > 0 && t / (a * b) == t / a / b
  {
    NonZero(a, b);
    DivBounds(t, a);
    DivBounds(t / a, b);
    var q := t / a / b;
    var r := (t / a % b) * a + t % a;
    Regrouped(t, a, b, q);
    Monotone(t / a % b, b - 1, a);
    DivUnique(t, a * b, q, r);
  }

  lemma NonZero(a: nat, b: nat)
    requires a > 0 && b > 0
    ensures a * b > 0
  {}

  lemma Regrouped(t: nat, a: nat, b: nat, q: int)
    requires a > 0 && b > 0 && t == (t / a) * a + t % a && t / a == q * b + t / a % b
    ensures t == q * (a * b) + ((t / a % b) * a + t % a)
  {
    var m := t / a % b;
    assert (q * b + m) * a == q * (a * b) + m * a;
  }

  lemma PlainSlope(t: nat)
    ensures Slope(t) == 36 * t / (t + 38)
  {}

  lemma {:induction false} ShrinkIs(t: nat, k: nat, e: nat)
    requires t / Pow35(e) <= 455 && (e > 0 ==> t / Pow35(e - 1) > 455)
    ensures var x := t / Pow35(e); Shrink(t, k) == k + 36 * e + 36 * x / (x + 38)
    decreases e
  {
    hide Slope;
    if e == 0 {
      assert Slope(t) == 36 * t / (t + 38) by { PlainSlope(t); }
    } else {
      DivBounds(t, Pow35(e - 1));
      NestedDivision(t, 35, Pow35(e - 1));
      if e > 1 {
        NestedDivision(t, 35, Pow35(e - 2));
      }
      ShrinkIs(t / 35, k + 36, e - 1);
    }
  }

  /**
    * The bias after a number: a 700th or half of it, and of that a share for every code point in place, is
    * divided by 35 just as often as it takes to come down to 455; each time counts 36, and the rest up to 35.
    */
  lemma AdaptIs(delta: nat, points: nat, first: bool, e: nat, d: nat)
    requires delta <= 0x7FFF_FFFF && points > 0
    requires var half := if first then delta / 700 else delta / 2; d == half + half / points
    requires d / Pow35(e) <= 455 && (e > 0 ==> d / Pow35(e - 1) > 455)
    ensures var x := d / Pow35(e); Adapt(delta, points, first) == 36 * e + 36 * x / (x + 38)
  {
    hide Shrink;
    ToInt32Id(delta);
    ShrinkIs(d, 0, e);
  }

  // ---------------------------------------------------------------- several insertions

  /** "uebergroessentraeger", written with three umlauts and a sharp s. */
  const CARRIER: seq<CodePoint> := [252, 98, 101, 114, 103, 114, 246, 223, 101, 110, 116, 114, 228, 103, 101, 114]

  /** "bergrentrger-p9a8e4n8c" */
  const CARRIER_TEXT: Str :=
    [98, 101, 114, 103, 114, 101, 110, 116, 114, 103, 101, 114, 45, 112, 57, 97, 56, 101, 52, 110, 56, 99]

  /** How many elements of a stretch are below `r`. */
  lemma CountStep(t: seq<CodePoint>, a: nat, b: nat, r: int)
    requires a < b <= |t|
    ensures |Below(t[a..b], r)| == (if t[a] < r then 1 else 0) + |Below(t[a + 1..b], r)|
  {
    assert t[a..b][1..] == t[a + 1..b] && t[a..b][0] == t[a];
  }

  lemma CountAll(t: seq<CodePoint>, b: nat, r: int)
    requires b <= |t|
    ensures forall a {:trigger t[a..b]} :: 0 <= a < b ==>
      |Below(t[a..b], r)| == (if t[a] < r then 1 else 0) + |Below(t[a + 1..b], r)|
    ensures |Below(t[b..b], r)| == 0
  {
    hide Below;
    forall a | 0 <= a < b
      ensures |Below(t[a..b], r)| == (if t[a] < r then 1 else 0) + |Below(t[a + 1..b], r)|
    {
      CountStep(t, a, b, r);
    }
    assert t[b..b] == [];
  }

  lemma Counted(t: seq<CodePoint>)
    requires t == CARRIER
    ensures |Below(t[..7], 223)| == 5 && |Below(t[8..], 223)| == 7
    ensures |Below(t[..12], 228)| == 10 && |Below(t[13..], 228)| == 3
    ensures |Below(t[..6], 246)| == 5 && |Below(t[7..], 246)| == 9
    ensures |Below(t[..0], 252)| == 0 && |Below(t[1..], 252)| == 15
  {
    hide Below;
    CountSharp(t);
    CountAt(t);
    CountOt(t);
    CountUt(t);
  }

  lemma CountSharp(t: seq<CodePoint>)
    requires t == CARRIER
    ensures |Below(t[..7], 223)| == 5 && |Below(t[8..], 223)| == 7
  {
    hide Below;
    CountAll(t, 7, 223);
    CountAll(t, 16, 223);
    assert t[0..7] == t[..7] && t[8..16] == t[8..];
  }

  lemma CountAt(t: seq<CodePoint>)
    requires t == CARRIER
    ensures |Below(t[..12], 228)| == 10 && |Below(t[13..], 228)| == 3
  {
    hide Below;
    CountAll(t, 12, 228);
    CountAll(t, 16, 228);
    assert t[0..12] == t[..12] && t[13..16] == t[13..];
  }

  lemma CountOt(t: seq<CodePoint>)
    requires t == CARRIER
    ensures |Below(t[..6], 246)| == 5 && |Below(t[7..], 246)| == 9
  {
    hide Below;
    CountAll(t, 6, 246);
    CountAll(t, 16, 246);
    assert t[0..6] == t[..6] && t[7..16] == t[7..];
  }

  lemma CountUt(t: seq<CodePoint>)
    requires t == CARRIER
    ensures |Below(t[..0], 252)| == 0 && |Below(t[1..], 252)| == 15
  {
    hide Below;
    CountAll(t, 0, 252);
    CountAll(t, 16, 252);
    assert t[0..0] == t[..0] && t[1..16] == t[1..];
  }

  lemma CarrierBasics(t: seq<CodePoint>)
    requires t == CARRIER
    ensures Below(t, 128) == [98, 101, 114, 103, 114, 101, 110, 116, 114, 103, 101, 114]
  {
    hide Below;
    var (a, b, c) := ([98, 101, 114, 103, 114], [101, 110, 116, 114], [103, 101, 114]);
    Drops([], [252], 128);
    Keeps([252], a, 128);
    Drops([252] + a, [246, 223], 128);
    Keeps([252] + a + [246, 223], b, 128);
    Drops([252] + a + [246, 223] + b, [228], 128);
    Keeps([252] + a + [246, 223] + b + [228], c, 128);
    Split16(t);
    NoneBelow([], 128);
  }

  lemma Split16(t: seq<CodePoint>)
    requires t == CARRIER
    ensures t == [252] + [98, 101, 114, 103, 114] + [246, 223] + [101, 110, 116, 114] + [228] + [103, 101, 114]
    ensures [] + [252] == [252]
  {}

  lemma Keeps(s: seq<int>, a: seq<int>, r: int)
    requires forall k :: 0 <= k < |a| ==> a[k] < r
    ensures Below(s + a, r) == Below(s, r) + a
  {
    hide Below;
    BelowConcat(s, a, r);
    AllBelow(a, r);
  }

  lemma Drops(s: seq<int>, a: seq<int>, r: int)
    requires forall k :: 0 <= k < |a| ==> a[k] >= r
    ensures Below(s + a, r) == Below(s, r)
  {
    hide Below;
    BelowConcat(s, a, r);
    NoneBelow(a, r);
  }

  lemma {:induction false} NoneBelow(a: seq<int>, r: int)
    requires forall k :: 0 <= k < |a| ==> a[k] >= r
    ensures Below(a, r) == []
  {
    if a != [] {
      NoneBelow(a[1..], r);
    }
  }

  lemma Biases()
    ensures Adapt(1240, 13, true) == 0 && Adapt(74, 14, false) == 18 && Adapt(264, 15, false) == 28
  {
    hide Adapt, Pow35;
    assert Pow35(0) == 1 by { NoShrinking(); }
    AdaptIs(1240, 13, true, 0, 1);
    AdaptIs(74, 14, false, 0, 39);
    AdaptIs(264, 15, false, 0, 140);
  }

  lemma NoShrinking()
    ensures Pow35(0) == 1
  {}

  lemma Numbers()
    ensures WriteDelta(1240, 36, 72) == [112, 57, 97] && WriteDelta(74, 36, 0) == [56, 101]
    ensures WriteDelta(264, 36, 18) == [52, 110] && WriteDelta(90, 36, 28) == [56, 99]
  {}

  /** Four insertions, each with the bias that the one before leaves. */
  lemma SeveralInsertions()
    ensures Encode(CARRIER) == Ok(CARRIER_TEXT) && Decode(CARRIER_TEXT) == Ok(CARRIER)
  {
    hide Encode, Decode, CARRIER, CARRIER_TEXT;
    CarrierEncodes(CARRIER);
    CarrierLength();
    ShortInputsFit(CARRIER);
  }

  lemma CarrierLength()
    ensures |CARRIER| == 16
  {}

  lemma CarrierEncodes(t: seq<CodePoint>)
    requires t == CARRIER
    ensures Encode(t) == Ok(CARRIER_TEXT)
  {
    hide Passes, WriteDelta, Adapt, Below;
    CarrierBasics(t);
    BelowAreBasic(t);
    CarrierPasses(t);
    assert CARRIER_TEXT == Below(t, 128) + [45] + ([112, 57, 97] + ([56, 101] + ([52, 110] + ([56, 99] + []))));
  }

  lemma CarrierPasses(t: seq<CodePoint>)
    requires t == CARRIER && |Below(t, 128)| == 12
    ensures Passes(t, 128, 0, 72, 12, 12) == Ok([112, 57, 97] + ([56, 101] + ([52, 110] + ([56, 99] + []))))
  {
    hide Passes, WriteDelta, Adapt, Below;
    Counted(t);
    Biases();
    Numbers();
    OneHit(t, 7, 128, 0, 72, 12, 12);
    OneHit(t, 12, 224, 8, 0, 13, 12);
    OneHit(t, 6, 229, 4, 18, 14, 12);
    OneHit(t, 0, 247, 10, 28, 15, 12);
    NothingLeft(t, 253, 16, Adapt(90, 16, false), 16, 12);
  }

  /** "buecher", written with an umlaut. */
  lemma Buecher()
    ensures Encode([98, 252, 99, 104, 101, 114]) == Ok([98, 99, 104, 101, 114, 45, 107, 118, 97])
    ensures Decode([98, 99, 104, 101, 114, 45, 107, 118, 97]) == Ok([98, 252, 99, 104, 101, 114])
  {
    hide Encode, Decode;
    var t := [98, 252, 99, 104, 101, 114];
    OneInsertion(t, 1, 745);
    assert FirstDigits(745, 0) == [107, 118, 97] by { UmlautDigits(); }
    assert t[..1] + t[2..] + [45] + [107, 118, 97] == [98, 99, 104, 101, 114, 45, 107, 118, 97];
  }

  lemma UmlautDigits()
    ensures FirstDigits(745, 0) == [107, 118, 97]
  {}

  // ---------------------------------------------------------------- case

  /** Small letters become capital ones. */
  function Upper(s: Str): (u: Str)
    ensures |u| == |s|
  {
    if s == [] then [] else [if 97 <= s[0] <= 122 then s[0] - 32 else s[0]] + Upper(s[1..])
  }

  lemma {:induction false} ReadDeltaUpper(s: Str, i: int, w: nat, k: nat, bias: int)
    requires w > 0
    ensures ReadDelta(Upper(s), i, w, k, bias)
         == match ReadDelta(s, i, w, k, bias)
            case Err(e) => Err(e)
            case Ok((j, rest)) => Ok((j, Upper(rest)))
    decreases |s|
  {
    hide Threshold;
    if s != [] {
      var d := DigitValue(s[0]);
      assert Upper(s)[1..] == Upper(s[1..]) && DigitValue(Upper(s)[0]) == d;
      if !(d >= 36 || d > (MAX_INT - i) / w) {
        FitsIff(d, MAX_INT - i, w);
        var t := Threshold(k, bias);
        if d >= t && w <= MAX_INT / (36 - t) {
          ReadDeltaUpper(s[1..], i + d * w, w * (36 - t), k + 36, bias);
        }
      }
    }
  }

  /** The numbers of a text read the same in capital and in small letters. */
  lemma {:induction false} CaseIgnored(s: Str, n: int, i: int, bias: int, out: seq<int>)
    ensures Insertions(Upper(s), n, i, bias, out) == Insertions(s, n, i, bias, out)
    decreases |s|
  {
    hide ReadDelta, Adapt, Splice, Remainder;
    ReadDeltaUpper(s, i, 1, 36, bias);
    if s != [] && ReadDelta(s, i, 1, 36, bias).Ok? {
      var (j, rest) := ReadDelta(s, i, 1, 36, bias).value;
      var m := |out| + 1;
      if j / m <= MAX_INT - n {
        var at := Remainder(j, m);
        RemainderBelow(j, m);
        CaseIgnored(rest, n + j / m, at + 1, Adapt(j - i, m, i == 0), Splice(out, at, n + j / m));
      }
    }
  }

  // ---------------------------------------------------------------- malformed texts

  /** What every unit counts as: the original only tests upper bounds, so some punctuation is negative. */
  lemma DigitTable(u: Unit)
    ensures 97 <= u <= 122 ==> DigitValue(u) == u - 97
    ensures 65 <= u <= 90 ==> DigitValue(u) == u - 65
    ensures 48 <= u <= 57 ==> DigitValue(u) == 26 + (u - 48)
    ensures 58 <= u <= 64 || 91 <= u <= 96 || u < 22 ==> DigitValue(u) < 0
    ensures 22 <= u <= 47 ==> DigitValue(u) == u - 22
    ensures u >= 123 ==> DigitValue(u) == 36
  {}

  /** Anything but ASCII in front of the last hyphen is refused. */
  lemma HeadNotBasic(head: Str, tail: Str)
    requires !HasDelimiter(tail) && exists k :: 0 <= k < |head| && head[k] >= 128
    ensures Decode(head + [45] + tail) == Err(NotBasic)
  {
    hide LastDelimiter, Insertions;
    DelimiterFound(head, tail);
    var s := head + [45] + tail;
    assert s[..|head|] == head;
  }

  /** A text that ends before a last digit of its first number: the letter z is never one. */
  lemma NumberCutShort(n: nat)
    requires 0 < n <= 2
    ensures Decode(seq(n, _ => 122)) == Err(InvalidInput)
  {
    hide Insertions;
    var s := seq(n, _ => 122);
    assert LastDelimiter(s) == 0 by { DelimiterFound([], s); }
    assert s[..0] == [] && s[0..] == s;
    CutShort(s);
  }

  lemma CutShort(s: Str)
    requires (s == [122] || s == [122, 122])
    ensures Insertions(s, 128, 0, 72, []) == Err(InvalidInput)
  {
    assert DigitValue(122) == 25 && Threshold(36, 72) == 1 && Threshold(72, 72) == 1;
    assert ReadDelta([], 25 + 25 * 35, 35 * 35, 108, 72) == Err(InvalidInput);
    assert ReadDelta([], 25, 35, 72, 72) == Err(InvalidInput);
    assert [122, 122][1..] == [122];
    var none: Str := [];
    assert [122][1..] == none;
    assert ReadDelta([122], 25, 35, 72, 72) == Err(InvalidInput);
  }
}
