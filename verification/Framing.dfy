/**
  * The chunked framing of Bolt messages as a byte-at-a-time machine: chunks of a two-byte length and
  * that many bytes, and a zero length at the end of each message. It knows nothing of buffers, so it
  * says what any split of a byte stream has to mean.
  */
module Framing {
  import opened ByteReading

  /** `current` holds the bytes of the unfinished message. */
  datatype Phase =
    | Awaiting(current: Bytes)
    | InHeader(high: Byte, current: Bytes)
    | InChunk(left: nat, current: Bytes)

  function Step(p: Phase, b: Byte): (r: (Phase, seq<Bytes>))
  {
    match p
    case Awaiting(cur) => (InHeader(b, cur), [])
    case InHeader(high, cur) => AfterHeader(high * 0x100 + b, cur)
    case InChunk(left, cur) => (if left <= 1 then Awaiting(cur + [b]) else InChunk(left - 1, cur + [b]), [])
  }

  function AfterHeader(size: nat, cur: Bytes): (r: (Phase, seq<Bytes>))
  {
    if size == 0 then (Awaiting([]), [cur]) else (InChunk(size, cur), [])
  }

  /** The phase after some bytes and the messages finished on the way. */
  function Feed(p: Phase, bs: Bytes): (r: (Phase, seq<Bytes>))
    decreases |bs|
  {
    if bs == [] then (p, [])
    else
      var (p1, m1) := Step(p, bs[0]);
      var (p2, m2) := Feed(p1, bs[1..]);
      (p2, m1 + m2)
  }

  function FeedAll(p: Phase, parts: seq<Bytes>): (r: (Phase, seq<Bytes>))
    decreases |parts|
  {
    if parts == [] then (p, [])
    else
      var (p1, m1) := Feed(p, parts[0]);
      var (p2, m2) := FeedAll(p1, parts[1..]);
      (p2, m1 + m2)
  }

  function Flatten(parts: seq<Bytes>): (bs: Bytes)
  {
    if parts == [] then [] else parts[0] + Flatten(parts[1..])
  }

  lemma {:induction false} FeedConcat(p: Phase, a: Bytes, b: Bytes)
    ensures var (p1, m1) := Feed(p, a);
            Feed(p, a + b) == (Feed(p1, b).0, m1 + Feed(p1, b).1)
    decreases |a|
  {
    var (p1, m1) := Feed(p, a);
    if a == [] {
      assert a + b == b;
      assert [] + Feed(p, b).1 == Feed(p, b).1;
    } else {
      var (q, n) := Step(p, a[0]);
      assert (a + b)[1..] == a[1..] + b;
      FeedConcat(q, a[1..], b);
      assert n + Feed(q, a[1..]).1 + Feed(p1, b).1 == n + (Feed(q, a[1..]).1 + Feed(p1, b).1);
    }
  }

  /** How a stream is cut into pieces makes no difference, whether it is well formed or not. */
  lemma {:induction false} FragmentationIrrelevant(p: Phase, parts: seq<Bytes>)
    ensures FeedAll(p, parts) == Feed(p, Flatten(parts))
    decreases |parts|
  {
    if parts != [] {
      var (q, _) := Feed(p, parts[0]);
      FragmentationIrrelevant(q, parts[1..]);
      FeedConcat(p, parts[0], Flatten(parts[1..]));
    }
  }

  /** Bytes within a chunk go to the message. */
  lemma {:induction false} FeedWithin(left: nat, cur: Bytes, bs: Bytes)
    requires |bs| <= left && left > 0
    ensures Feed(InChunk(left, cur), bs)
         == (if |bs| == left then Awaiting(cur + bs) else InChunk(left - |bs|, cur + bs), [])
    decreases |bs|
  {
    if bs == [] {
      assert cur + bs == cur;
    } else {
      var cur' := cur + [bs[0]];
      assert bs == [bs[0]] + bs[1..];
      FeedByte(InChunk(left, cur), bs[0], bs[1..]);
      assert cur + bs == cur' + bs[1..];
      if left == 1 {
        assert bs[1..] == [] && cur' + [] == cur';
      } else {
        FeedWithin(left - 1, cur', bs[1..]);
      }
    }
  }

  function Header(n: nat): (h: Bytes)
    requires n < 0x1_0000
  {
    [n / 0x100, n % 0x100]
  }

  lemma FeedHeader(cur: Bytes, n: nat)
    requires n < 0x1_0000
    ensures Feed(Awaiting(cur), Header(n)) == AfterHeader(n, cur)
  {
    var (hi, lo) := (n / 0x100, n % 0x100);
    FeedByte(Awaiting(cur), hi, [lo]);
    FeedByte(InHeader(hi, cur), lo, []);
    assert Header(n) == [hi] + [lo];
    assert [] + AfterHeader(n, cur).1 == AfterHeader(n, cur).1;
  }

  lemma FeedByte(p: Phase, b: Byte, rest: Bytes)
    ensures var (q, m) := Step(p, b); Feed(p, [b] + rest) == (Feed(q, rest).0, m + Feed(q, rest).1)
    ensures rest == [] ==> Feed(p, [b]) == Step(p, b)
  {
    assert ([b] + rest)[1..] == rest;
    if rest == [] {
      assert [b] + rest == [b];
      assert Step(p, b).1 + [] == Step(p, b).1;
    }
  }

  /** A whole chunk, and an end-of-message marker, fed to a machine that awaits one. */
  lemma FeedChunk(cur: Bytes, content: Bytes)
    requires 0 < |content| < 0x1_0000
    ensures Feed(Awaiting(cur), Header(|content|) + content) == (Awaiting(cur + content), [])
    ensures Feed(Awaiting(cur), Header(0)) == (Awaiting([]), [cur])
  {
    FeedHeader(cur, |content|);
    FeedHeader(cur, 0);
    FeedConcat(Awaiting(cur), Header(|content|), content);
    FeedWithin(|content|, cur, content);
  }
}
