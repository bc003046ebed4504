/**
  * What each kind of dot segment does to the rest of a path, as laws between paths. Together with the
  * paths that are left as they are, they fix the result for every path.
  */
module UrlPathLaws {
  import opened Wrappers
  import opened JsText
  import opened UrlPath

  /** Empty, or beginning with a slash. */
  predicate IsRooted(p: Str) { p == [] || p[0] == SLASH }

  /** The stack after some segments that are not the last. */
  function Stacked(xs: seq<Str>, e: seq<Str>): (r: seq<Str>)
  {
    if xs == [] then e
    else
      Stacked(xs[1..], if xs[0] == [DOT] then e else if xs[0] == [DOT, DOT] then Pop(e) else e + [[SLASH] + xs[0]])
  }

  lemma {:induction false} WalkFrom(xs: seq<Str>, ys: seq<Str>, e: seq<Str>)
    requires ys != []
    ensures Walk(xs + ys, e) == Walk(ys, Stacked(xs, e))
    decreases |xs|
  {
    if xs == [] {
      assert [] + ys == ys;
    } else {
      assert (xs + ys)[0] == xs[0] && (xs + ys)[1..] == xs[1..] + ys;
      WalkFrom(xs[1..], ys,
               if xs[0] == [DOT] then e else if xs[0] == [DOT, DOT] then Pop(e) else e + [[SLASH] + xs[0]]);
    }
  }

  /** A segment and two dots behind it leave the stack as it was. */
  lemma WalkBack(x: Str, ys: seq<Str>, e: seq<Str>)
    requires !IsDots(x) && ys != []
    ensures Walk([x, [DOT, DOT]] + ys, e) == Walk(ys, e)
  {
    var xs := [x, [DOT, DOT]];
    WalkFrom(xs, ys, e);
    var none: seq<Str> := [];
    assert xs[1..] == [[DOT, DOT]] && xs[1..][1..] == none;
    var item := [SLASH] + x;
    assert (e + [item])[..|e|] == e;
    assert Stacked(xs, e) == Stacked(xs[1..], e + [item]) == Stacked([], Pop(e + [item]));
  }

  lemma WalkOver(ys: seq<Str>, e: seq<Str>)
    requires ys != []
    ensures Walk([[DOT]] + ys, e) == Walk(ys, e)
    ensures Walk([[DOT, DOT]] + ys, []) == Walk(ys, [])
  {
    WalkFrom([[DOT]], ys, e);
    WalkFrom([[DOT, DOT]], ys, []);
    assert [[DOT]][1..] == [] && [[DOT, DOT]][1..] == [];
    assert Stacked([[DOT, DOT]], []) == Stacked([], Pop([]));
    assert Stacked([[DOT]], e) == Stacked([], e);
  }

  // ---------------------------------------------------------------- paths and segments

  lemma {:induction false} SlashedJoins(xs: seq<Str>, ys: seq<Str>)
    ensures Slashed(xs + ys) == Slashed(xs) + Slashed(ys)
  {
    if xs == [] {
      assert xs + ys == ys;
    } else {
      assert (xs + ys)[0] == xs[0] && (xs + ys)[1..] == xs[1..] + ys;
      SlashedJoins(xs[1..], ys);
    }
  }

  /** The segments of a rooted path. */
  lemma RootedSegments(p: Str) returns (xs: seq<Str>)
    requires IsRooted(p)
    ensures p == Slashed(xs) && AreSegments(xs) && (Clear(xs) <==> NoTerminator(p))
  {
    hide NoTerminator;
    var all := Segments(p);
    SegmentsSplit(p);
    SegmentsClear(p);
    xs := all[1..];
    assert all == [all[0]] + xs;
    FirstOfRooted(p);
    ClearCons([], xs);
    ClearNothing();
    assert [] + Slashed(xs) == Slashed(xs);
    EmptyClear();
  }

  lemma EmptyClear()
    ensures NoTerminator([])
  {}

  lemma FirstOfRooted(p: Str)
    requires IsRooted(p)
    ensures Segments(p)[0] == []
  {}

  /** What a slash and any text behind it are made of. */
  lemma SegmentsAfter(q: Str) returns (ys: seq<Str>)
    ensures ys != [] && [SLASH] + q == Slashed(ys) && AreSegments(ys) && (Clear(ys) <==> NoTerminator(q))
  {
    ys := Segments(q);
    SegmentsSplit(q);
    SegmentsClear(q);
    assert Slashed(ys) == [SLASH] + ys[0] + Slashed(ys[1..]);
  }

  /** A rooted path without terminators is resolved by the walk over its segments. */
  lemma RootedResolved(xs: seq<Str>)
    requires AreSegments(xs) && Clear(xs)
    ensures RemoveDotSegments(Slashed(xs)) == Ok(Join(Walk(xs, [])))
  {
    hide Loop;
    LoopWalks(xs, []);
  }

  lemma SegmentsConcat(xs: seq<Str>, ys: seq<Str>)
    requires AreSegments(xs) && AreSegments(ys) && Clear(xs) && Clear(ys)
    ensures AreSegments(xs + ys) && Clear(xs + ys)
  {
    hide IsSegment, NoTerminator;
  }

  lemma OneSegmentClear(x: Str)
    requires IsSegment(x) && NoTerminator(x)
    ensures AreSegments([x]) && Clear([x]) && AreSegments([x, [DOT, DOT]]) && Clear([x, [DOT, DOT]])
  {}

  lemma DotsAreSegments()
    ensures AreSegments([[DOT]]) && Clear([[DOT]]) && AreSegments([[DOT, DOT]]) && Clear([[DOT, DOT]])
  {}

  // ---------------------------------------------------------------- the laws

  /** Segments in the middle that the walk does not notice can be left out. */
  lemma LeaveOut(xs: seq<Str>, middle: seq<Str>, ys: seq<Str>)
    requires AreSegments(xs) && AreSegments(middle) && AreSegments(ys) && ys != []
    requires Clear(xs) && Clear(middle) && Clear(ys)
    requires Walk(middle + ys, Stacked(xs, [])) == Walk(ys, Stacked(xs, []))
    ensures RemoveDotSegments(Slashed(xs) + (Slashed(middle) + Slashed(ys)))
         == RemoveDotSegments(Slashed(xs) + Slashed(ys))
  {
    hide RemoveDotSegments, Walk, AreSegments, Clear, Stacked, Slashed;
    SegmentsConcat(middle, ys);
    SegmentsConcat(xs, middle + ys);
    SegmentsConcat(xs, ys);
    RootedResolved(xs + (middle + ys));
    RootedResolved(xs + ys);
    WalkFrom(xs, middle + ys, []);
    WalkFrom(xs, ys, []);
    SlashedJoins(xs, middle + ys);
    SlashedJoins(middle, ys);
    SlashedJoins(xs, ys);
  }

  /** `p/x/../q` is `p/q`. */
  lemma TwoDotsCancel(p: Str, x: Str, q: Str)
    requires IsRooted(p) && IsSegment(x) && !IsDots(x) && NoTerminator(p) && NoTerminator(x) && NoTerminator(q)
    ensures RemoveDotSegments(p + [SLASH] + x + [SLASH, DOT, DOT, SLASH] + q) == RemoveDotSegments(p + [SLASH] + q)
  {
    hide RemoveDotSegments, Walk, IsSegment, NoTerminator, Stacked, Slashed;
    var xs := RootedSegments(p);
    var ys := SegmentsAfter(q);
    OneSegmentClear(x);
    WalkBack(x, ys, Stacked(xs, []));
    LeaveOut(xs, [x, [DOT, DOT]], ys);
    SlashedBack(x);
    assert p + [SLASH] + x + [SLASH, DOT, DOT, SLASH] + q == p + ([SLASH] + x + [SLASH, DOT, DOT] + ([SLASH] + q));
    assert p + [SLASH] + q == p + ([SLASH] + q);
  }

  lemma SlashedBack(x: Str)
    ensures Slashed([x, [DOT, DOT]]) == [SLASH] + x + [SLASH, DOT, DOT]
    ensures Slashed([[DOT]]) == [SLASH, DOT] && Slashed([[DOT, DOT]]) == [SLASH, DOT, DOT]
  {
    assert Slashed([]) == [];
    assert [x, [DOT, DOT]][1..] == [[DOT, DOT]] && [[DOT, DOT]][1..] == [] && [[DOT]][1..] == [];
    assert Slashed([[DOT, DOT]]) == [SLASH] + [DOT, DOT] + [];
    assert Slashed([[DOT]]) == [SLASH] + [DOT] + [];
  }

  /** `p/./q` is `p/q`. */
  lemma DotVanishes(p: Str, q: Str)
    requires IsRooted(p) && NoTerminator(p) && NoTerminator(q)
    ensures RemoveDotSegments(p + [SLASH, DOT, SLASH] + q) == RemoveDotSegments(p + [SLASH] + q)
  {
    hide RemoveDotSegments, Walk, IsSegment, NoTerminator, Stacked, Slashed;
    var xs := RootedSegments(p);
    var ys := SegmentsAfter(q);
    DotsAreSegments();
    WalkOver(ys, Stacked(xs, []));
    LeaveOut(xs, [[DOT]], ys);
    SlashedBack([]);
    assert p + [SLASH, DOT, SLASH] + q == p + ([SLASH, DOT] + ([SLASH] + q));
    assert p + [SLASH] + q == p + ([SLASH] + q);
  }

  /** `/../q` is `/q`: there is nothing above the root. */
  lemma NothingAboveRoot(q: Str)
    requires NoTerminator(q)
    ensures RemoveDotSegments([SLASH, DOT, DOT, SLASH] + q) == RemoveDotSegments([SLASH] + q)
  {
    hide RemoveDotSegments, Walk, IsSegment, NoTerminator;
    var ys := SegmentsAfter(q);
    DotsAreSegments();
    SegmentsConcat([[DOT, DOT]], ys);
    RootedResolved([[DOT, DOT]] + ys);
    RootedResolved(ys);
    WalkOver(ys, []);
    SlashedJoins([[DOT, DOT]], ys);
    SlashedBack([]);
    assert [SLASH, DOT, DOT, SLASH] + q == [SLASH, DOT, DOT] + ([SLASH] + q);
  }

  /** Dots at the end leave a slash: `p/.` is `p/`, and `p/x/..` too. */
  lemma DotsAtEnd(p: Str, x: Str)
    requires IsRooted(p) && IsSegment(x) && !IsDots(x) && NoTerminator(p) && NoTerminator(x)
    ensures RemoveDotSegments(p + [SLASH, DOT]) == RemoveDotSegments(p + [SLASH])
    ensures RemoveDotSegments(p + [SLASH] + x + [SLASH, DOT, DOT]) == RemoveDotSegments(p + [SLASH])
  {
    hide RemoveDotSegments, Walk, IsSegment, NoTerminator, Stacked;
    var xs := RootedSegments(p);
    var back := [x, [DOT, DOT]];
    var empty: Str := [];
    DotsAreSegments();
    OneSegmentClear(x);
    EmptySegment();
    OneSegmentClear(empty);
    SegmentsConcat(xs, [[DOT]]);
    SegmentsConcat(xs, back);
    SegmentsConcat(xs, [empty]);
    RootedResolved(xs + [[DOT]]);
    RootedResolved(xs + back);
    RootedResolved(xs + [empty]);
    WalkFrom(xs, [[DOT]], []);
    WalkFrom(xs, back, []);
    WalkFrom(xs, [empty], []);
    WalkEnds(x, Stacked(xs, []));
    SlashedJoins(xs, [[DOT]]);
    SlashedJoins(xs, back);
    SlashedJoins(xs, [empty]);
    SlashedBack(x);
    SlashedEmpty();
    assert p + [SLASH] + x + [SLASH, DOT, DOT] == p + ([SLASH] + x + [SLASH, DOT, DOT]);
  }

  lemma SlashedEmpty()
    ensures Slashed([[]]) == [SLASH]
  {
    var one: seq<Str> := [[]];
    assert Slashed([]) == [] && one[1..] == [];
    assert Slashed([[]]) == [SLASH] + [] + [];
  }

  lemma WalkEnds(x: Str, e: seq<Str>)
    requires !IsDots(x)
    ensures Walk([[DOT]], e) == Walk([[]], e) == Walk([x, [DOT, DOT]], e) == e + [[SLASH]]
  {
    var xs := [x, [DOT, DOT]];
    var item := [SLASH] + x;
    assert xs[1..] == [[DOT, DOT]] && (e + [item])[..|e|] == e;
    assert Walk(xs, e) == Walk([[DOT, DOT]], e + [item]) == Pop(e + [item]) + [[SLASH]];
    var one: seq<Str> := [[]];
    assert [SLASH] + [] == [SLASH] && one[1..] == [];
    assert Walk([[]], e) == Walk([], e + [[SLASH] + []]);
  }

  /** `./q` and `../q` are `q`. */
  lemma LeadingDotsVanish(q: Str)
    ensures RemoveDotSegments([DOT, SLASH] + q) == RemoveDotSegments(q)
    ensures RemoveDotSegments([DOT, DOT, SLASH] + q) == RemoveDotSegments(q)
  {
    hide Loop;
    LeadingTurn(q);
  }

  lemma LeadingTurn(q: Str)
    ensures Loop([DOT, SLASH] + q, []) == Loop(q, []) && Loop([DOT, DOT, SLASH] + q, []) == Loop(q, [])
  {
    assert ([DOT, SLASH] + q)[2..] == q && ([DOT, DOT, SLASH] + q)[3..] == q;
  }

  // ---------------------------------------------------------------- in letters

  /** Carriage return, line separator and paragraph separator. */
  lemma Terminators(t: Str)
    ensures NoTerminator(t) <==> 13 !in t && 0x2028 !in t && 0x2029 !in t
  {}

  /** "/a/b/../c" is "/a/c". */
  lemma Example()
    ensures RemoveDotSegments([47, 97, 47, 98, 47, 46, 46, 47, 99]) == Ok([47, 97, 47, 99])
  {
    hide RemoveDotSegments;
    TwoDotsCancel([47, 97], [98], [99]);
    assert [47, 97] + [SLASH] + [98] + [SLASH, DOT, DOT, SLASH] + [99] == [47, 97, 47, 98, 47, 46, 46, 47, 99];
    assert [47, 97] + [SLASH] + [99] == [47, 97, 47, 99];
    FixedPoints([47, 97, 47, 99]);
    ExampleSegments();
  }

  lemma ExampleSegments()
    ensures NoDots(Segments([47, 97, 47, 99])) && NoTerminator([47, 97, 47, 99])
  {
    var t: Str := [47, 97, 47, 99];
    assert t[1..] == [97, 47, 99] && t[1..][1..] == [47, 99] && t[1..][1..][1..] == [99];
    OneSegment([99]);
    SegmentsSnoc([97], [99]);
    OneSegment([97]);
    assert [97] + [SLASH] + [99] == [97, 47, 99];
    assert Segments(t) == [[]] + Segments([97, 47, 99]);
  }
}
