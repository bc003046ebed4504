/**
  * What malformed bytes decode to: one replacement character for every longest stretch that could still
  * have become a scalar value, and the byte that ends it is read again. ASCII bytes are never lost.
  */
module Utf8Errors {
  import opened Wrappers
  import opened JsText
  import opened ByteReading
  import opened Utf8

  // ---------------------------------------------------------------- longest stretches

  ghost predicate BeginsWith(bs: Bytes, head: Bytes) { head <= bs }

  /** Some scalar value's encoding begins like this. */
  ghost predicate Promising(head: Bytes) { exists c: Scalar :: BeginsWith(EncodeScalar(c), head) }

  /** The least scalar value that a state can still lead to. */
  function Completion(st: State): (c: int)
  {
    if st.seen > 0 || st.bits > 0 then st.bits else if st.needed == 2 then 0x800 else 0x1_0000
  }

  lemma CompletionBegins(st: State)
    requires Reachable(st) && st.needed > 0
    ensures Promising(Consumed(st))
  {
    CompletionIsScalar(st);
    var c: Scalar := Completion(st);
    CompletionEncodes(st, c);
    assert BeginsWith(EncodeScalar(c), Consumed(st));
  }

  lemma CompletionIsScalar(st: State)
    requires Reachable(st) && st.needed > 0
    ensures var c := Completion(st); 0 <= c < 0xD800 || 0xE000 <= c < 0x11_0000
  {}

  lemma CompletionEncodes(st: State, c: Scalar)
    requires Reachable(st) && st.needed > 0 && c == Completion(st)
    ensures Consumed(st) <= EncodeScalar(c)
  {
    EncodedBytes(c);
    hide EncodeScalar;
    var (d, e) := (st.bits, EncodeScalar(c));
    if st.needed == 1 {
      assert e[..1] == Consumed(st);
    } else if st.needed == 2 {
      if st.seen == 0 {
        assert e[..1] == Consumed(st);
      } else {
        assert e[..2] == Consumed(st);
      }
    } else if st.seen == 0 {
      assert e[..1] == Consumed(st);
    } else if st.seen == 1 {
      assert e[..2] == Consumed(st);
    } else {
      assert e[..3] == Consumed(st);
    }
  }

  /** The machine takes a byte if and only if some scalar value's encoding begins with what it has read. */
  lemma TakesIfPromising(st: State, b: Byte)
    requires Reachable(st)
    ensures var a := Handle(st, b); (a.Wait? || a.Emit?) ==> Promising(Consumed(st) + [b])
    ensures var a := Handle(st, b); st.needed > 0 && !a.Wait? && !a.Emit? ==> a == RejectAgain(START)
    ensures var a := Handle(st, b); st.needed == 0 && !a.Wait? && !a.Emit? ==> a == Reject(START)
  {
    hide Consumed, EncodeScalar, Reachable;
    AgainAtStart(st, b);
    HandleTracks(st, b);
    NothingConsumed();
    var a := Handle(st, b);
    if a.Wait? {
      WaitNeeds(st, b);
      CompletionBegins(a.next);
    } else if a.Emit? {
      assert BeginsWith(EncodeScalar(a.c), Consumed(st) + [b]);
    }
  }

  lemma WaitNeeds(st: State, b: Byte)
    requires Reachable(st) && Handle(st, b).Wait?
    ensures Handle(st, b).next.needed > 0
  {}

  /**
    * A byte with which no scalar value's encoding goes on: what was read before becomes one replacement
    * character, and the byte is read from the start.
    */
  lemma UnexpectedByte(st: State, b: Byte, rest: Bytes)
    requires Reachable(st) && st.needed > 0 && !Promising(Consumed(st) + [b])
    ensures DecodeScalars(st, [b] + rest, false)
         == Join([0xFFFD], DecodeScalars(START, [b] + rest, false))
    ensures DecodeScalars(st, [b] + rest, true) == Err(Malformed)
  {
    hide Handle, Consumed, Reachable, Promising;
    AgainAtStart(st, b);
    TakesIfPromising(st, b);
    HandleSound(st, b);
  }

  /** A byte with which no encoding begins becomes one replacement character, and so does an end too early. */
  lemma UnexpectedStart(b: Byte, rest: Bytes)
    requires !Promising([b])
    ensures Reachable(START)
    ensures DecodeScalars(START, [b] + rest, false) == Join([0xFFFD], DecodeScalars(START, rest, false))
    ensures DecodeScalars(START, [b] + rest, true) == Err(Malformed)
  {
    hide Handle, Promising;
    NothingConsumed();
    assert [] + [b] == [b];
    TakesIfPromising(START, b);
    HandleSound(START, b);
    assert ([b] + rest)[1..] == rest;
  }

  lemma UnexpectedEnd(st: State)
    requires Reachable(st) && st.needed > 0
    ensures DecodeScalars(st, [], false) == Ok([0xFFFD]) && DecodeScalars(st, [], true) == Err(Malformed)
  {
    assert [0xFFFD] + [] == [0xFFFD];
  }

  // ---------------------------------------------------------------- ASCII

  /** The elements below 128, in order. */
  function Ascii(s: seq<int>): (r: seq<int>)
  {
    if s == [] then [] else (if s[0] < 0x80 then [s[0]] else []) + Ascii(s[1..])
  }

  lemma {:induction false} AsciiJoins(a: seq<int>, b: seq<int>)
    ensures Ascii(a + b) == Ascii(a) + Ascii(b)
  {
    if a == [] {
      assert a + b == b;
    } else {
      assert (a + b)[1..] == a[1..] + b;
      AsciiJoins(a[1..], b);
    }
  }

  lemma AsciiOne(c: int)
    ensures Ascii([c]) == if c < 0x80 then [c] else []
  {
    assert Ascii([]) == [];
  }

  /** An ASCII byte is emitted at once at the start, and never taken within a sequence. */
  lemma AsciiHandledAlone(st: State, b: Byte)
    requires Reachable(st)
    ensures match Handle(st, b)
            case Emit(c, _) => if st.needed == 0 then c == b < 0x80 else c >= 0x80 && b >= 0x80
            case Wait(_) => b >= 0x80
            case Reject(_) => b >= 0x80
            case RejectAgain(_) => true
  {
    hide EncodeScalar, Consumed;
    HandleTracks(st, b);
    var a := Handle(st, b);
    if a.Emit? && st.needed > 0 {
      EncodedBytes(a.c);
      SomeConsumed(st);
    }
  }

  lemma SomeConsumed(st: State)
    requires Reachable(st) && st.needed > 0
    ensures |Consumed(st)| > 0
  {}

  /** The ASCII bytes, in order, are the ASCII scalar values, whatever surrounds them. */
  lemma {:induction false} AsciiKept(st: State, bs: Bytes)
    requires Reachable(st)
    ensures Ascii(DecodeScalars(st, bs, false).value) == Ascii(bs)
    decreases |bs|, st.needed
  {
    hide Handle, Reachable, Ascii;
    AsciiOne(0xFFFD);
    if bs == [] {
      NoAscii();
      if st.needed > 0 {
        UnexpectedEnd(st);
      }
    } else {
      AgainAtStart(st, bs[0]);
      HandleSound(st, bs[0]);
      AsciiHandledAlone(st, bs[0]);
      assert bs == [bs[0]] + bs[1..];
      AsciiJoins([bs[0]], bs[1..]);
      AsciiOne(bs[0]);
      assert [] + Ascii(bs[1..]) == Ascii(bs[1..]) && [] + Ascii(bs) == Ascii(bs);
      match Handle(st, bs[0])
      case Emit(c, next) =>
        AsciiKept(next, bs[1..]);
        AsciiJoins([c], DecodeScalars(next, bs[1..], false).value);
        AsciiOne(c);
      case Wait(next) => AsciiKept(next, bs[1..]);
      case Reject(next) =>
        AsciiKept(next, bs[1..]);
        AsciiJoins([0xFFFD], DecodeScalars(next, bs[1..], false).value);
      case RejectAgain(next) =>
        AsciiKept(next, bs);
        AsciiJoins([0xFFFD], DecodeScalars(next, bs, false).value);
    }
  }

  lemma NoAscii()
    ensures Ascii([]) == []
  {}

  /** The same for the string: its ASCII units are the ASCII bytes. */
  lemma AsciiUnitsKept(bs: Bytes)
    ensures Ascii(Decode(bs, false).value) == Ascii(bs)
  {
    hide Ascii;
    NothingConsumed();
    AsciiKept(START, bs);
    var cps := DecodeScalars(START, bs, false).value;
    if cps != [] && cps[0] == 0xFEFF {
      assert cps == [cps[0]] + cps[1..];
      AsciiJoins([cps[0]], cps[1..]);
      AsciiOne(0xFEFF);
    }
    AsciiUnits(StripBom(cps));
  }

  lemma {:induction false} AsciiUnits(cps: seq<Scalar>)
    ensures Ascii(FromCodePoints(cps)) == Ascii(cps)
  {
    if cps != [] {
      AsciiUnits(cps[1..]);
      AsciiJoins(Units(cps[0]), FromCodePoints(cps[1..]));
      assert Ascii(Units(cps[0])) == Ascii([cps[0]]) by { AsciiOfUnits(cps[0]); }
    }
  }

  lemma AsciiOfUnits(c: Scalar)
    ensures Ascii(Units(c)) == Ascii([c])
  {
    var u := Units(c);
    if c >= 0x1_0000 {
      assert u == [u[0]] + [u[1]];
      AsciiJoins([u[0]], [u[1]]);
      AsciiOne(u[0]);
      AsciiOne(u[1]);
      AsciiOne(c);
    }
  }
}
