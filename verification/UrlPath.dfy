/** Removal of dot segments from the path of a URL, on UTF-16 strings. */
module UrlPath {
  import opened Wrappers
  import opened JsText

  const DOT: Unit := 46
  const SLASH: Unit := 47

  /** Carriage return and the two Unicode separators: the only units the segment pattern does not match. */
  predicate IsTerminator(u: Unit) { u == 13 || u == 0x2028 || u == 0x2029 }

  ghost predicate NoTerminator(t: Str) { forall i :: 0 <= i < |t| ==> !IsTerminator(t[i]) }

  datatype Failure = Throws | NeverReturns

  function Pop(e: seq<Str>): (r: seq<Str>) { if e == [] then [] else e[..|e| - 1] }

  function Join(e: seq<Str>): (r: Str) { if e == [] then [] else Join(e[..|e| - 1]) + e[|e| - 1] }

  /** One or two dots at `k`, and a slash behind them. */
  predicate DotAt(t: Str, k: nat) { k + 1 < |t| && t[k] == DOT && t[k + 1] == SLASH }

  predicate DotDotAt(t: Str, k: nat) { k + 2 < |t| && t[k] == DOT && t[k + 1] == DOT && t[k + 2] == SLASH }

  /** The end of a segment at or after `k`, unless a terminator comes first. */
  function Extend(t: Str, k: nat): (r: Option<nat>)
    requires k <= |t|
    decreases |t| - k
  {
    if k == |t| || t[k] == SLASH then Some(k) else if IsTerminator(t[k]) then None else Extend(t, k + 1)
  }

  /**
    * How much the segment pattern matches: a slash, if there is one, and everything up to the next. When a
    * terminator is in the way, the pattern gives the slash back and matches nothing before it.
    */
  function MatchSegment(t: Str): (r: Option<nat>)
    requires t != []
  {
    if t[0] == SLASH then (if Extend(t, 1).Some? then Extend(t, 1) else Some(0)) else Extend(t, 0)
  }

  /** One turn of the loop: the path still to do and the segments so far. */
  function Turn(t: Str, e: seq<Str>): (r: Result<(Str, seq<Str>), Failure>)
    requires t != []
  {
    if DotAt(t, 0) then Ok((t[2..], e))
    else if DotDotAt(t, 0) then Ok((t[3..], e))
    else if t[0] == SLASH && DotAt(t, 1) then Ok((t[2..], e))
    else if t == [SLASH, DOT] then Ok(([SLASH], e))
    else if t[0] == SLASH && DotDotAt(t, 1) then Ok((t[3..], Pop(e)))
    else if t == [SLASH, DOT, DOT] then Ok(([SLASH], Pop(e)))
    else if t == [DOT] || t == [DOT, DOT] then Ok(([], e))
    else
      match MatchSegment(t)
      case None => Err(Throws)
      case Some(n) => if n == 0 then Err(NeverReturns) else Ok((ExtendBounds(t, n); t[n..], e + [t[..n]]))
  }

  lemma ExtendBounds(t: Str, n: nat)
    requires t != [] && MatchSegment(t) == Some(n)
    ensures n <= |t|
  {
    ExtendEnds(t, 0);
    ExtendEnds(t, 1);
  }

  lemma {:induction false} ExtendEnds(t: Str, k: nat)
    requires k <= |t|
    ensures Extend(t, k).Some? ==> k <= Extend(t, k).value <= |t|
    decreases |t| - k
  {
    if k < |t| {
      ExtendEnds(t, k + 1);
    }
  }

  /** Each turn shortens the path. */
  lemma TurnShortens(t: Str, e: seq<Str>)
    requires t != []
    ensures Turn(t, e).Ok? ==> |Turn(t, e).value.0| < |t|
  {
    ExtendEnds(t, 0);
    ExtendEnds(t, 1);
  }

  /** The whole loop. A turn that takes nothing leaves everything as it was, for ever. */
  function Loop(t: Str, e: seq<Str>): (r: Result<Str, Failure>)
    decreases |t|
  {
    if t == [] then Ok(Join(e))
    else
      TurnShortens(t, e);
      match Turn(t, e)
      case Err(f) => Err(f)
      case Ok(n) => Loop(n.0, n.1)
  }

  function RemoveDotSegments(t: Str): (r: Result<Str, Failure>) { Loop(t, []) }

  // ---------------------------------------------------------------- the same on segments

  ghost predicate IsSegment(x: Str) { forall i :: 0 <= i < |x| ==> x[i] != SLASH }

  ghost predicate AreSegments(xs: seq<Str>) { forall i :: 0 <= i < |xs| ==> IsSegment(xs[i]) }

  ghost predicate Clear(xs: seq<Str>) { forall i :: 0 <= i < |xs| ==> NoTerminator(xs[i]) }

  predicate IsDots(x: Str) { x == [DOT] || x == [DOT, DOT] }

  ghost predicate NoDots(xs: seq<Str>) { forall i :: 0 <= i < |xs| ==> !IsDots(xs[i]) }

  /** The parts between slashes; one, the empty one, for an empty path. */
  function Segments(t: Str): (xs: seq<Str>)
    ensures |xs| > 0
  {
    if t == [] then [[]]
    else
      var rest := Segments(t[1..]);
      if t[0] == SLASH then [[]] + rest else [[t[0]] + rest[0]] + rest[1..]
  }

  /** Every segment with a slash before it. */
  function Slashed(xs: seq<Str>): (t: Str)
  {
    if xs == [] then [] else [SLASH] + xs[0] + Slashed(xs[1..])
  }

  /** Segment by segment: a dot is skipped, two dots remove the one before; at the end, either leaves a slash. */
  function Walk(xs: seq<Str>, e: seq<Str>): (r: seq<Str>)
  {
    if xs == [] then e
    else
      var kept := if xs[0] == [DOT] then e else if xs[0] == [DOT, DOT] then Pop(e) else e + [[SLASH] + xs[0]];
      if IsDots(xs[0]) && |xs| == 1 then kept + [[SLASH]] else Walk(xs[1..], kept)
  }

  /** Without the dot segments at the beginning of a relative path; nothing when there is nothing else. */
  function StripDots(xs: seq<Str>): (r: seq<Str>)
    requires xs != []
    ensures r != []
  {
    if !IsDots(xs[0]) then xs else if |xs| == 1 then [[]] else StripDots(xs[1..])
  }

  function First(x: Str): (e: seq<Str>) { if x == [] then [] else [x] }

  /** What is left of a path when its dot segments are resolved. */
  function Resolved(t: Str): (r: Str)
  {
    var xs := StripDots(Segments(t));
    Join(Walk(xs[1..], First(xs[0])))
  }

  lemma {:induction false} ExtendTo(t: Str, k: nat, end: nat)
    requires k <= end <= |t| && (end == |t| || t[end] == SLASH)
    requires forall i :: k <= i < end ==> t[i] != SLASH
    ensures (forall i :: k <= i < end ==> !IsTerminator(t[i])) ==> Extend(t, k) == Some(end)
    ensures (exists i :: k <= i < end && IsTerminator(t[i])) ==> Extend(t, k) == None
    decreases end - k
  {
    if k < end {
      ExtendTo(t, k + 1, end);
    }
  }

  /** A segment at the head of the path, with or without its slash, that is not dots. */
  lemma TakeSegment(lead: Str, x: Str, rest: Str, e: seq<Str>)
    requires lead == [] || lead == [SLASH]
    requires IsSegment(x) && !IsDots(x) && (lead == [] ==> x != []) && (rest == [] || rest[0] == SLASH)
    ensures var t := lead + x + rest;
      && t != []
      && (NoTerminator(x) ==> Turn(t, e) == Ok((rest, e + [lead + x])))
      && (!NoTerminator(x) ==> Turn(t, e) == Err(if lead == [] then Throws else NeverReturns))
  {
    var t := lead + x + rest;
    var n := |lead + x|;
    assert forall i :: 0 <= i < |x| ==> t[|lead| + i] == x[i];
    assert rest != [] ==> t[n] == SLASH;
    ExtendTo(t, |lead|, n);
    assert t[..n] == lead + x && t[n..] == rest;
    NotDotsAhead(lead, x, rest);
    if !NoTerminator(x) {
      var i :| 0 <= i < |x| && IsTerminator(x[i]);
      assert IsTerminator(t[|lead| + i]);
    } else {
      assert forall i :: |lead| <= i < n ==> t[i] == x[i - |lead|];
    }
  }

  /** None of the dot patterns matches. */
  lemma NotDotsAhead(lead: Str, x: Str, rest: Str)
    requires lead == [] || lead == [SLASH]
    requires IsSegment(x) && !IsDots(x) && (lead == [] ==> x != []) && (rest == [] || rest[0] == SLASH)
    ensures var t := lead + x + rest;
      && t != [] && !DotAt(t, 0) && !DotDotAt(t, 0) && t != [DOT] && t != [DOT, DOT]
      && !(t[0] == SLASH && DotAt(t, 1)) && !(t[0] == SLASH && DotDotAt(t, 1))
      && t != [SLASH, DOT] && t != [SLASH, DOT, DOT]
  {
    var t := lead + x + rest;
    assert forall i :: 0 <= i < |x| ==> t[|lead| + i] == x[i];
    assert forall i :: 0 <= i < |rest| ==> t[|lead| + |x| + i] == rest[i];
    assert |x| == 1 ==> x == [x[0]];
    assert |x| == 2 ==> x == [x[0], x[1]];
    assert |t| == |lead| + |x| + |rest|;
    assert lead != [] ==> t[0] == SLASH;
  }

  /** Dots behind a slash: skipped, or with two the last segment removed; at the end a slash remains. */
  lemma SkipDots(x: Str, xs: seq<Str>, e: seq<Str>)
    requires IsDots(x)
    ensures Turn(Slashed([x] + xs), e)
         == Ok((if xs == [] then [SLASH] else Slashed(xs), if x == [DOT] then e else Pop(e)))
  {
    var t := Slashed([x] + xs);
    assert ([x] + xs)[1..] == xs;
    assert t == [SLASH] + x + Slashed(xs);
    if xs == [] {
      assert t == [SLASH] + x;
    } else {
      assert t[1 + |x|..] == Slashed(xs);
    }
  }

  /** The loop on a path that begins with a slash is the walk over its segments. */
  lemma {:induction false} LoopWalks(xs: seq<Str>, e: seq<Str>)
    requires AreSegments(xs)
    ensures Loop(Slashed(xs), e) == if Clear(xs) then Ok(Join(Walk(xs, e))) else Err(NeverReturns)
    decreases |xs|
  {
    hide Turn, IsSegment, NoTerminator, Join;
    if xs != [] {
      var x := xs[0];
      var rest := xs[1..];
      assert xs == [x] + rest;
      ClearCons(x, rest);
      if IsDots(x) {
        SkipDots(x, rest, e);
        DotsClear(x);
        var e' := if x == [DOT] then e else Pop(e);
        if rest == [] {
          LastSlash(e');
        } else {
          LoopWalks(rest, e');
        }
      } else {
        assert Slashed(xs) == [SLASH] + x + Slashed(rest);
        TakeSegment([SLASH], x, Slashed(rest), e);
        if NoTerminator(x) {
          LoopWalks(rest, e + [[SLASH] + x]);
        }
      }
    }
  }

  lemma ClearCons(x: Str, xs: seq<Str>)
    ensures Clear([x] + xs) <==> NoTerminator(x) && Clear(xs)
  {
    hide NoTerminator;
    var all := [x] + xs;
    assert all[0] == x;
    assert forall i :: 0 <= i < |xs| ==> all[i + 1] == xs[i];
  }

  lemma DotsClear(x: Str)
    requires IsDots(x)
    ensures NoTerminator(x)
  {}

  lemma LastSlash(e: seq<Str>)
    ensures Loop([SLASH], e) == Ok(Join(e + [[SLASH]]))
  {
    TakeSegment([SLASH], [], [], e);
    assert [SLASH] + [] + [] == [SLASH] && [SLASH] + [] == [SLASH];
    assert Turn([SLASH], e) == Ok(([], e + [[SLASH]]));
    assert Loop([], e + [[SLASH]]) == Ok(Join(e + [[SLASH]]));
  }

  lemma {:induction false} SegmentsSplit(t: Str)
    ensures var xs := Segments(t); AreSegments(xs) && t == xs[0] + Slashed(xs[1..])
  {
    if t != [] {
      SegmentsSplit(t[1..]);
      var rest := Segments(t[1..]);
      assert t == [t[0]] + t[1..];
      if t[0] == SLASH {
        assert ([[]] + rest)[1..] == rest;
        assert [] + Slashed(rest) == [SLASH] + rest[0] + Slashed(rest[1..]);
      } else {
        assert ([[t[0]] + rest[0]] + rest[1..])[1..] == rest[1..];
      }
    }
  }

  lemma {:induction false} SegmentsClear(t: Str)
    ensures Clear(Segments(t)) <==> NoTerminator(t)
  {
    hide Clear, NoTerminator;
    if t == [] {
      ClearNothing();
    } else {
      SegmentsClear(t[1..]);
      var rest := Segments(t[1..]);
      assert t == [t[0]] + t[1..];
      assert rest == [rest[0]] + rest[1..];
      NoTerminatorCons(t[0], t[1..]);
      ClearCons(rest[0], rest[1..]);
      if t[0] == SLASH {
        ClearCons([], rest);
        ClearNothing();
      } else {
        NoTerminatorCons(t[0], rest[0]);
        ClearCons([t[0]] + rest[0], rest[1..]);
      }
    }
  }

  lemma ClearNothing()
    ensures Clear([[]]) && NoTerminator([])
  {}

  lemma NoTerminatorCons(u: Unit, t: Str)
    ensures NoTerminator([u] + t) <==> !IsTerminator(u) && NoTerminator(t)
  {
    var all := [u] + t;
    assert all[0] == u;
    assert forall i :: 0 <= i < |t| ==> all[i + 1] == t[i];
  }

  /** Whatever the segments are, the loop does what the walk over them says. */
  lemma {:induction false} LoopResolves(xs: seq<Str>)
    requires xs != [] && AreSegments(xs)
    ensures var ys := StripDots(xs);
      Loop(xs[0] + Slashed(xs[1..]), [])
        == if Clear(xs) then Ok(Join(Walk(ys[1..], First(ys[0]))))
           else Err(if NoTerminator(ys[0]) then NeverReturns else Throws)
    decreases |xs|
  {
    hide Turn, NoTerminator, IsSegment;
    var x := xs[0];
    var rest := xs[1..];
    assert xs == [x] + rest;
    ClearCons(x, rest);
    if IsDots(x) {
      DotsClear(x);
      StripTurn(x, rest);
      if rest != [] {
        LoopResolves(rest);
      } else {
        ClearNothing();
      }
    } else if x == [] {
      ClearNothing();
      assert [] + Slashed(rest) == Slashed(rest);
      LoopWalks(rest, []);
    } else {
      assert [] + x + Slashed(rest) == x + Slashed(rest) && [] + x == x && [] + [x] == [x];
      TakeSegment([], x, Slashed(rest), []);
      LoopWalks(rest, [x]);
    }
  }

  lemma StripTurn(x: Str, rest: seq<Str>)
    requires IsDots(x)
    ensures Turn(x + Slashed(rest), []) == Ok((if rest == [] then [] else rest[0] + Slashed(rest[1..]), []))
  {
    var t := x + Slashed(rest);
    if rest == [] {
      assert t == x;
    } else {
      assert Slashed(rest) == [SLASH] + (rest[0] + Slashed(rest[1..]));
      assert t == (x + [SLASH]) + (rest[0] + Slashed(rest[1..]));
      assert t[|x| + 1..] == rest[0] + Slashed(rest[1..]);
    }
  }

  /**
    * Dot segments are removed, and what comes back is the resolved path, if and only if the path has no
    * line terminator; otherwise the loop throws or, behind a slash, never ends.
    */
  lemma RemovesDotSegments(t: Str)
    ensures NoTerminator(t) ==> RemoveDotSegments(t) == Ok(Resolved(t))
    ensures !NoTerminator(t) ==>
      RemoveDotSegments(t) == Err(if NoTerminator(StripDots(Segments(t))[0]) then NeverReturns else Throws)
  {
    hide Loop, NoTerminator;
    SegmentsSplit(t);
    SegmentsClear(t);
    LoopResolves(Segments(t));
  }

  /** The shortest paths for which the loop does not return, and throws: a carriage return with and without a slash. */
  lemma TerminatorsFail()
    ensures RemoveDotSegments([SLASH, 13]) == Err(NeverReturns) && RemoveDotSegments([13]) == Err(Throws)
  {
    assert Extend([SLASH, 13], 1) == None && Extend([13], 0) == None;
    assert Turn([SLASH, 13], []) == Err(NeverReturns) && Turn([13], []) == Err(Throws);
  }

  // ---------------------------------------------------------------- what the result looks like

  /** What can be on the stack: a segment behind a slash, or at the bottom without one. */
  ghost predicate IsItem(i: nat, x: Str)
  {
    && x != [] && NoTerminator(x)
    && if x[0] == SLASH then IsSegment(x[1..]) && !IsDots(x[1..]) else i == 0 && IsSegment(x) && !IsDots(x)
  }

  ghost predicate AreItems(e: seq<Str>) { forall i :: 0 <= i < |e| ==> IsItem(i, e[i]) }

  lemma {:induction false} WalkItems(xs: seq<Str>, e: seq<Str>)
    requires AreSegments(xs) && Clear(xs) && AreItems(e)
    ensures AreItems(Walk(xs, e))
    decreases |xs|
  {
    hide IsItem, IsSegment, NoTerminator;
    if xs != [] {
      if IsDots(xs[0]) {
        SlashItem(|Pop(e)|, []);
        SlashItem(|e|, []);
        EmptySegment();
      } else {
        SlashItem(|e|, xs[0]);
      }
      if |xs| > 1 {
        WalkItems(xs[1..], if xs[0] == [DOT] then e else if xs[0] == [DOT, DOT] then Pop(e) else e + [[SLASH] + xs[0]]);
      }
    }
  }

  lemma EmptySegment()
    ensures IsSegment([]) && NoTerminator([]) && [SLASH] + [] == [SLASH]
  {}

  lemma SlashItem(i: nat, x: Str)
    ensures IsSegment(x) && NoTerminator(x) && !IsDots(x) ==> IsItem(i, [SLASH] + x)
  {
    assert ([SLASH] + x)[1..] == x;
    NoTerminatorCons(SLASH, x);
  }

  lemma {:induction false} SegmentsSnoc(t: Str, x: Str)
    requires IsSegment(x)
    ensures Segments(t + [SLASH] + x) == Segments(t) + [x]
  {
    hide IsSegment;
    if t == [] {
      OneSegment(x);
      assert [] + [SLASH] + x == [SLASH] + x && ([SLASH] + x)[1..] == x;
    } else {
      SegmentsSnoc(t[1..], x);
      var all := t + [SLASH] + x;
      assert all[0] == t[0] && all[1..] == t[1..] + [SLASH] + x;
    }
  }

  lemma {:induction false} OneSegment(x: Str)
    requires IsSegment(x)
    ensures Segments(x) == [x]
  {
    if x != [] {
      OneSegment(x[1..]);
      assert x == [x[0]] + x[1..] && [x[1..]][1..] == [];
      assert [x] + [] == [x];
    }
  }

  lemma {:induction false} JoinItems(e: seq<Str>)
    requires AreItems(e)
    ensures NoDots(Segments(Join(e))) && NoTerminator(Join(e))
  {
    if e != [] {
      var init := e[..|e| - 1];
      var x := e[|e| - 1];
      JoinItems(init);
      assert IsItem(|e| - 1, x);
      if x[0] == SLASH {
        assert x == [SLASH] + x[1..];
        assert Join(e) == Join(init) + [SLASH] + x[1..];
        SegmentsSnoc(Join(init), x[1..]);
      } else {
        assert Join(e) == [] + x == x;
        OneSegment(x);
      }
    }
  }

  /** What comes back has no dot segment, and no line terminator. */
  lemma NoDotsLeft(t: Str)
    requires NoTerminator(t)
    ensures NoDots(Segments(Resolved(t))) && NoTerminator(Resolved(t))
  {
    hide NoDots, AreItems, NoTerminator, Walk, Join;
    SegmentsSplit(t);
    SegmentsClear(t);
    StripKeeps(Segments(t));
    var xs := StripDots(Segments(t));
    FirstItem(xs[0]);
    WalkItems(xs[1..], First(xs[0]));
    JoinItems(Walk(xs[1..], First(xs[0])));
  }

  lemma FirstItem(x: Str)
    requires IsSegment(x) && NoTerminator(x) && !IsDots(x)
    ensures AreItems(First(x))
  {}

  lemma {:induction false} StripKeeps(xs: seq<Str>)
    requires xs != [] && AreSegments(xs) && Clear(xs)
    ensures var ys := StripDots(xs);
      !IsDots(ys[0]) && AreSegments(ys) && Clear(ys) && NoTerminator(ys[0]) && IsSegment(ys[0])
  {
    if IsDots(xs[0]) && |xs| > 1 {
      StripKeeps(xs[1..]);
    }
  }

  lemma {:induction false} WalkPlain(xs: seq<Str>, e: seq<Str>)
    requires NoDots(xs)
    ensures Join(Walk(xs, e)) == Join(e) + Slashed(xs)
    decreases |xs|
  {
    if xs == [] {
      assert Join(e) + [] == Join(e);
    } else {
      var x := [SLASH] + xs[0];
      WalkPlain(xs[1..], e + [x]);
      assert (e + [x])[..|e|] == e;
      assert Join(e) + x + Slashed(xs[1..]) == Join(e) + (x + Slashed(xs[1..]));
    }
  }

  /** The paths that are left as they are: exactly those without a dot segment and without a line terminator. */
  lemma FixedPoints(t: Str)
    ensures RemoveDotSegments(t) == Ok(t) <==> NoDots(Segments(t)) && NoTerminator(t)
  {
    hide NoDots, NoTerminator, RemoveDotSegments, Walk, Slashed;
    RemovesDotSegments(t);
    if NoTerminator(t) {
      NoDotsLeft(t);
      if NoDots(Segments(t)) {
        PlainResolved(t);
      }
    }
  }

  lemma PlainResolved(t: Str)
    requires NoDots(Segments(t))
    ensures Resolved(t) == t
  {
    var xs := Segments(t);
    SegmentsSplit(t);
    assert NoDots(xs[1..]) && !IsDots(xs[0]);
    WalkPlain(xs[1..], First(xs[0]));
    assert Join(First(xs[0])) == xs[0] by { JoinFirst(xs[0]); }
  }

  lemma JoinFirst(x: Str)
    ensures Join(First(x)) == x
  {
    assert [] + x == x;
  }

  /** Removing dot segments twice is removing them once. */
  lemma Idempotent(t: Str)
    ensures var r := RemoveDotSegments(t); r.Ok? ==> RemoveDotSegments(r.value) == r
  {
    hide NoDots, NoTerminator, RemoveDotSegments, Resolved;
    RemovesDotSegments(t);
    if NoTerminator(t) {
      NoDotsLeft(t);
      FixedPoints(Resolved(t));
    }
  }

  // ---------------------------------------------------------------- the loop

  /** `removeDotSegments`, with its path getting shorter and its stack of segments. */
  method RunRemoveDotSegments(path: Str) returns (r: Result<Str, Failure>)
    ensures r == RemoveDotSegments(path)
    ensures r.Ok? <==> NoTerminator(path)
    ensures r.Ok? ==> NoDots(Segments(r.value)) && NoTerminator(r.value)
  {
    hide NoDots, NoTerminator, Resolved, Turn, Segments, Join;
    RemovesDotSegments(path);
    if NoTerminator(path) {
      NoDotsLeft(path);
    }
    var t, e: seq<Str> := path, [];
    while t != []
      invariant Loop(t, e) == RemoveDotSegments(path)
      decreases |t|
    {
      TurnShortens(t, e);
      match Turn(t, e)
      case Err(f) => return Err(f);
      case Ok(n) => t, e := n.0, n.1;
    }
    r := Ok(Join(e));
  }
}
