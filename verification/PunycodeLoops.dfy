/** The loops of the Punycode functions, each proved to compute its specification function. */
module PunycodeLoops {
  import opened Wrappers
  import opened JsNumber
  import opened JsText
  import opened Punycode

  /** One round of reading: a surrogate pair takes two units, anything else one. */
  lemma CodePointsFrom(s: Str, n: nat)
    requires n < |s|
    ensures var paired := IsLead(s[n]) && n + 1 < |s| && IsTrail(s[n + 1]);
            CodePoints(s[n..]) == if paired then [Pair(s[n], s[n + 1])] + CodePoints(s[n + 2..])
                                  else [s[n]] + CodePoints(s[n + 1..])
  {
    assert s[n..][1..] == s[n + 1..];
    assert n + 1 < |s| ==> s[n..][2..] == s[n + 2..];
  }

  method ReadCodePoints(s: Str) returns (cps: seq<CodePoint>)
    ensures cps == CodePoints(s)
  {
    cps := [];
    var n := 0;
    assert s[0..] == s;
    while n < |s|
      invariant n <= |s|
      invariant cps + CodePoints(s[n..]) == CodePoints(s)
    {
      CodePointsFrom(s, n);
      var u := s[n];
      var c: CodePoint := u;
      n := n + 1;
      if IsLead(u) && n < |s| {
        var v := s[n];
        n := n + 1;
        if IsTrail(v) {
          c := Pair(u, v);
        } else {
          n := n - 1;
        }
      }
      cps := cps + [c];
    }
  }

  method WriteDigits(q: nat, bias: int) returns (s: Str)
    ensures s == WriteDelta(q, 36, bias)
  {
    s := [];
    var j, k := q, 36;
    while true
      invariant j >= 0 && k >= 36
      invariant s + WriteDelta(j, k, bias) == WriteDelta(q, 36, bias)
      decreases j
    {
      var t := Threshold(k, bias);
      if j < t {
        break;
      }
      s := s + [DigitUnit(LowDigit(j, t))];
      j := HighPart(j, t);
      k := k + 36;
    }
    s := s + [DigitUnit(j)];
  }

  method FindLeast(t: seq<CodePoint>, r: nat) returns (w: int)
    requires r <= 0x110000
    ensures w == LeastFrom(t, r)
  {
    w := MAX_INT;
    for p := 0 to |t|
      invariant w == MAX_INT || (w in t && w >= r)
      invariant forall k :: 0 <= k < p && t[k] >= r ==> w <= t[k]
    {
      if r <= t[p] < w {
        w := t[p];
      }
    }
  }

  method CopyBasics(t: seq<CodePoint>) returns (e: Str)
    ensures e == Below(t, INITIAL_N)
  {
    e := [];
    for p := 0 to |t|
      invariant e == Below(t[..p], INITIAL_N)
    {
      assert t[..p + 1] == t[..p] + [t[p]];
      BelowConcat(t[..p], [t[p]], INITIAL_N);
      if t[p] < INITIAL_N {
        e := e + [t[p]];
      }
    }
    assert t[..|t|] == t;
  }

  datatype State = State(i: nat, bias: int, y: nat)

  /** One pass over the input; `before` and the result are the loop's variables before and after it. */
  method RunPass(t: seq<CodePoint>, r: CodePoint, points: nat, before: State, basic: nat)
    returns (result: Result<(Str, State), Error>)
    requires points > 0 && before.y == |Built(t, 0, r)|
    ensures result.Err? ==> Scan(t, 0, r, points, before.i, before.bias, before.y, basic) == Err(result.error)
    ensures result.Ok? ==>
      var (digits, after) := result.value;
      && after.y == |Below(t, r + 1)|
      && Scan(t, 0, r, points, before.i, before.bias, before.y, basic)
         == Prepend(digits, Passes(t, r + 1, after.i + 1, after.bias, after.y, basic))
  {
    var e: Str := [];
    var i, bias, y := before.i, before.bias, before.y;
    ghost var whole := Scan(t, 0, r, points, i, bias, y, basic);
    PrependNothing(whole);
    for p := 0 to |t|
      invariant i >= 0 && y == |Built(t, p, r)|
      invariant whole == Prepend(e, Scan(t, p, r, points, i, bias, y, basic))
    {
      BuiltNext(t, p, r);
      if t[p] < r {
        i := i + 1;
        if i > MAX_INT {
          return Err(Overflow);
        }
      }
      if t[p] == r {
        var digits := WriteDigits(i, bias);
        PrependTwice(e, digits, Scan(t, p + 1, r, points, 0, Adapt(i, points, y == basic), y + 1, basic));
        e := e + digits;
        bias := ComputeAdapt(i, points, y == basic);
        i := 0;
        y := y + 1;
      }
    }
    BuiltNext(t, |t|, r);
    return Ok((e, State(i, bias, y)));
  }

  lemma PrependNothing(r: Result<Str, Error>)
    ensures Prepend([], r) == r
  {
    if r.Ok? {
      assert [] + r.value == r.value;
    }
  }

  lemma PrependTwice(a: Str, b: Str, r: Result<Str, Error>)
    ensures Prepend(a, Prepend(b, r)) == Prepend(a + b, r)
  {
    if r.Ok? {
      assert a + (b + r.value) == a + b + r.value;
    }
  }

  /** Advances to the least unhandled code point and makes the pass for it. */
  method NextPass(t: seq<CodePoint>, r: nat, before: State, basic: nat)
    returns (result: Result<(Str, nat, State), Error>)
    requires r <= 0x110000 && before.y == |Below(t, r)| < |t|
    ensures result.Err? ==> Passes(t, r, before.i, before.bias, before.y, basic) == Err(result.error)
    ensures result.Ok? ==>
      var (digits, r', after) := result.value;
      && r < r' <= 0x110000 && after.y == |Below(t, r')|
      && Passes(t, r, before.i, before.bias, before.y, basic)
         == Prepend(digits, Passes(t, r', after.i, after.bias, after.y, basic))
  {
    hide Below, LeastFrom, Scan, Built;
    var w := FindLeast(t, r);
    BelowNext(t, r);
    Advance(w - r, before.y);
    var points := before.y + 1;
    if w - r > (MAX_INT - before.i) / points {
      return Err(Overflow);
    }
    var pass := RunPass(t, w, points, before.(i := before.i + (w - r) * points), basic);
    if pass.Err? {
      return Err(pass.error);
    }
    var (digits, after) := pass.value;
    return Ok((digits, w + 1, after.(i := after.i + 1)));
  }

  method RunEncode(text: Str) returns (result: Result<Str, Error>)
    ensures result == Encode(CodePoints(text))
  {
    var t := ReadCodePoints(text);
    BelowAreBasic(t);
    var e := CopyBasics(t);
    var basic := |e|;
    var s, r := State(0, INITIAL_BIAS, basic), INITIAL_N;
    if basic > 0 {
      e := e + [DELIMITER];
    }
    while s.y < |t|
      invariant 0 <= r <= 0x110000 && s.y == |Below(t, r)|
      invariant Encode(t) == Prepend(e, Passes(t, r, s.i, s.bias, s.y, basic))
      decreases 0x110000 - r
    {
      var pass := NextPass(t, r, s, basic);
      if pass.Err? {
        return Err(pass.error);
      }
      ghost var e' := e;
      var digits := pass.value.0;
      r, s := pass.value.1, pass.value.2;
      e := e + digits;
      PrependTwice(e', digits, Passes(t, r, s.i, s.bias, s.y, basic));
    }
    assert e + [] == e;
    return Ok(e);
  }

  method FindLastDelimiter(s: Str) returns (p: nat)
    ensures p == LastDelimiter(s)
  {
    p := |s|;
    assert s[..p] == s;
    while p > 0
      invariant p <= |s|
      invariant LastDelimiter(s[..p]) == LastDelimiter(s)
    {
      assert s[..p][..p - 1] == s[..p - 1];
      p := p - 1;
      if s[p] == DELIMITER {
        return;
      }
    }
    assert s[..0] == [];
  }

  method ReadDigits(s: Str, start: nat, i0: int, bias: int) returns (r: Result<(int, nat), Error>)
    requires start < |s|
    ensures r.Err? ==> ReadDelta(s[start..], i0, 1, 36, bias) == Err(r.error)
    ensures r.Ok? ==> start < r.value.1 <= |s|
    ensures r.Ok? ==> ReadDelta(s[start..], i0, 1, 36, bias) == Ok((r.value.0, s[r.value.1..]))
  {
    hide Threshold, DigitValue;
    var f: nat, i, w, k := start, i0, 1, 36;
    while true
      invariant start <= f <= |s| && w > 0 && k >= 36
      invariant ReadDelta(s[start..], i0, 1, 36, bias) == ReadDelta(s[f..], i, w, k, bias)
      decreases |s| - f
    {
      if f >= |s| {
        return Err(InvalidInput);
      }
      var d := DigitValue(s[f]);
      assert s[f..][1..] == s[f + 1..];
      f := f + 1;
      if d >= 36 || d > (MAX_INT - i) / w {
        return Err(Overflow);
      }
      i := i + d * w;
      var t := Threshold(k, bias);
      if d < t {
        return Ok((i, f));
      }
      if w > MAX_INT / (36 - t) {
        return Err(Overflow);
      }
      Heavier(w, 36 - t);
      w := w * (36 - t);
      k := k + 36;
    }
  }

  datatype Output = Output(n: int, i: int, bias: int, out: seq<int>)

  lemma InsertionsOnce(s: Str, rest: Str, j: int, o: Output)
    requires s != [] && ReadDelta(s, o.i, 1, 36, o.bias) == Ok((j, rest))
    ensures var m := |o.out| + 1; var at := Remainder(j, m);
            && at < m
            && Insertions(s, o.n, o.i, o.bias, o.out)
               == if j / m > MAX_INT - o.n then Err(Overflow)
                  else Insertions(rest, o.n + j / m, at + 1, Adapt(j - o.i, m, o.i == 0),
                                    Splice(o.out, at, o.n + j / m))
  {
    hide ReadDelta, Adapt, Splice, Remainder;
    RemainderBelow(j, |o.out| + 1);
  }

  lemma InsertionsFail(s: Str, e: Error, o: Output)
    requires s != [] && ReadDelta(s, o.i, 1, 36, o.bias) == Err(e)
    ensures Insertions(s, o.n, o.i, o.bias, o.out) == Err(e)
  {}

  /** Reads one delta at `f` and makes the insertion it stands for. */
  method NextInsertion(s: Str, f: nat, before: Output) returns (result: Result<(nat, Output), Error>)
    requires f < |s|
    ensures var whole := Insertions(s[f..], before.n, before.i, before.bias, before.out);
      match result
      case Err(e) => whole == Err(e)
      case Ok((f', o)) => f < f' <= |s| && whole == Insertions(s[f'..], o.n, o.i, o.bias, o.out)
  {
    hide ReadDelta, Insertions, Adapt, Splice, Remainder;
    var read := ReadDigits(s, f, before.i, before.bias);
    if read.Err? {
      InsertionsFail(s[f..], read.error, before);
      return Err(read.error);
    }
    var (i, f') := read.value;
    InsertionsOnce(s[f..], s[f'..], i, before);
    var m := |before.out| + 1;
    var bias := ComputeAdapt(i - before.i, m, before.i == 0);
    if i / m > MAX_INT - before.n {
      return Err(Overflow);
    }
    var n := before.n + i / m;
    var at := Remainder(i, m);
    return Ok((f', Output(n, at + 1, bias, Splice(before.out, at, n))));
  }

  method RunDecode(s: Str) returns (result: Result<Str, Error>)
    ensures result == match Decode(s) { case Ok(cps) => Ok(FromCodePoints(cps)) case Err(e) => Err(e) }
  {
    var b := FindLastDelimiter(s);
    var out: seq<int> := [];
    for p := 0 to b
      invariant out == s[..p] && AllBasic(s[..p])
    {
      if s[p] >= 128 {
        assert !AllBasic(s[..b]) by { assert s[..b][p] == s[p]; }
        return Err(NotBasic);
      }
      out := out + [s[p]];
    }
    var f, o := if b > 0 then b + 1 else 0, Output(INITIAL_N, 0, INITIAL_BIAS, out);
    ghost var whole := Insertions(s[f..], o.n, o.i, o.bias, o.out);
    while f < |s|
      invariant f <= |s|
      invariant whole == Insertions(s[f..], o.n, o.i, o.bias, o.out)
    {
      var next := NextInsertion(s, f, o);
      if next.Err? {
        return Err(next.error);
      }
      f, o := next.value.0, next.value.1;
    }
    if !AllCodePoints(o.out) {
      return Err(BadCodePoint);
    }
    return Ok(FromCodePoints(o.out));
  }
}
