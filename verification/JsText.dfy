/**
  * Text as the browser engine sees it: a string is a sequence of 16-bit code units, and a
  * code point outside the basic plane takes a pair of surrogate units.
  */
module JsText {
  type Unit = u: int | 0 <= u < 0x10000
  type Str = seq<Unit>
  type CodePoint = c: int | 0 <= c < 0x110000

  predicate IsLead(u: int) { 0xD800 <= u < 0xDC00 }

  predicate IsTrail(u: int) { 0xDC00 <= u < 0xE000 }

  predicate IsSurrogate(u: int) { 0xD800 <= u < 0xE000 }

  function Pair(lead: Unit, trail: Unit): (c: CodePoint)
    requires IsLead(lead) && IsTrail(trail)
    ensures c >= 0x10000
  {
    (lead - 0xD800) * 0x400 + (trail - 0xDC00) + 0x10000
  }

  /** The code points of a string; an unpaired surrogate stands for itself. */
  function CodePoints(s: Str): (cps: seq<CodePoint>)
  {
    if s == [] then []
    else if IsLead(s[0]) && |s| > 1 && IsTrail(s[1]) then [Pair(s[0], s[1])] + CodePoints(s[2..])
    else [s[0]] + CodePoints(s[1..])
  }

  function Units(c: CodePoint): (s: Str)
  {
    if c < 0x10000 then [c] else [0xD800 + (c - 0x10000) / 0x400, 0xDC00 + (c - 0x10000) % 0x400]
  }

  /** What `String.fromCodePoint` builds from a list of code points. */
  function FromCodePoints(cps: seq<CodePoint>): (s: Str)
  {
    if cps == [] then [] else Units(cps[0]) + FromCodePoints(cps[1..])
  }

  /** Reading a string as code points loses nothing, not even for unpaired surrogates. */
  lemma {:induction false} FromCodePointsInverse(s: Str)
    ensures FromCodePoints(CodePoints(s)) == s
  {
    if s == [] {
    } else if IsLead(s[0]) && |s| > 1 && IsTrail(s[1]) {
      FromCodePointsInverse(s[2..]);
      assert Units(Pair(s[0], s[1])) == s[..2];
      assert s == s[..2] + s[2..];
    } else {
      FromCodePointsInverse(s[1..]);
      assert s == [s[0]] + s[1..];
    }
  }
}
