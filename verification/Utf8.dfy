/**
  * The UTF-8 encoder and decoder of the bundled text-encoding polyfill. The decoder is a state
  * machine that narrows the range of the second byte for four lead bytes and, on an unexpected
  * byte, reports an error and reads that byte again.
  */
module Utf8 {
  import opened Wrappers
  import opened JsNumber
  import opened JsText
  import opened ByteReading

  const REPLACEMENT := 0xFFFD
  const BOM := 0xFEFF

  type Scalar = c: int | 0 <= c < 0xD800 || 0xE000 <= c < 0x110000

  // ---------------------------------------------------------------- encoding

  /** The scalar values of a string; every unpaired surrogate becomes U+FFFD. */
  function Scalars(s: Str): (cps: seq<Scalar>)
  {
    if s == [] then []
    else if !IsSurrogate(s[0]) then [s[0]] + Scalars(s[1..])
    else if IsTrail(s[0]) || |s| == 1 || !IsTrail(s[1]) then [REPLACEMENT] + Scalars(s[1..])
    else [Pair(s[0], s[1])] + Scalars(s[2..])
  }

  /** `v >> 6 * n` for n up to 3 */
  function Shift(v: nat, n: nat): (r: nat)
    requires n <= 3
  {
    if n == 0 then v else if n == 1 then v / 0x40 else if n == 2 then v / 0x1000 else v / 0x4_0000
  }

  /** `v << 6 * n` */
  function Lift(v: nat, n: nat): (r: nat)
    requires n <= 3
  {
    if n == 0 then v else if n == 1 then v * 0x40 else if n == 2 then v * 0x1000 else v * 0x4_0000
  }

  function Tail(c: nat, n: nat): (bs: Bytes)
    requires n <= 3
  {
    if n == 0 then [] else [0x80 + Shift(c, n - 1) % 0x40] + Tail(c, n - 1)
  }

  function TailLength(c: Scalar): (n: nat)
    ensures n <= 3
  {
    if c < 0x80 then 0 else if c < 0x800 then 1 else if c < 0x1_0000 then 2 else 3
  }

  function LeadMark(n: nat): (m: nat)
  {
    if n == 0 then 0 else if n == 1 then 192 else if n == 2 then 224 else 240
  }

  function EncodeScalar(c: Scalar): (bs: Bytes)
  {
    var n := TailLength(c);
    [Shift(c, n) + LeadMark(n)] + Tail(c, n)
  }

  function EncodeScalars(cps: seq<Scalar>): (bs: Bytes)
  {
    if cps == [] then [] else EncodeScalar(cps[0]) + EncodeScalars(cps[1..])
  }

  function Encode(s: Str): (bs: Bytes)
  {
    EncodeScalars(Scalars(s))
  }

  // ---------------------------------------------------------------- decoding

  datatype DecodeError = Malformed

  /** Bits gathered, bytes needed and seen, and the range of the next byte. */
  datatype State = State(bits: nat, needed: nat, seen: nat, lower: nat, upper: nat)

  const START := State(0, 0, 0, 0x80, 0xBF)

  /** What the state machine does with one byte. */
  datatype Action = Emit(c: int, next: State) | Wait(next: State) | Reject(next: State) | RejectAgain(next: State)

  predicate Between(b: int, lo: int, hi: int) { lo <= b <= hi }

  function Handle(st: State, b: Byte): (a: Action)
    requires st.seen < st.needed <= 3 || st.needed == 0
    requires st.lower >= 0x80
  {
    if st.needed == 0 then
      if Between(b, 0, 0x7F) then Emit(b, st)
      else if Between(b, 0xC2, 0xDF) then Wait(st.(needed := 1, bits := Lift(b - 192, 1)))
      else if Between(b, 0xE0, 0xEF) then
        Wait(State(Lift(b - 224, 2), 2, st.seen,
                   if b == 0xE0 then 0xA0 else st.lower, if b == 0xED then 0x9F else st.upper))
      else if Between(b, 0xF0, 0xF4) then
        Wait(State(Lift(b - 240, 3), 3, st.seen,
                   if b == 0xF0 then 0x90 else st.lower, if b == 0xF4 then 0x8F else st.upper))
      else Reject(st)
    else if !Between(b, st.lower, st.upper) then RejectAgain(START)
    else
      var seen := st.seen + 1;
      var bits := st.bits + Lift(b - 128, st.needed - seen);
      if seen != st.needed then Wait(State(bits, st.needed, seen, 0x80, 0xBF)) else Emit(bits, START)
  }

  /** The shape of every state the machine can be in. */
  predicate Reachable(st: State)
  {
    if st.needed == 0 then st == START
    else if st.needed == 1 then
      st.seen == 0 && st.lower == 0x80 && st.upper == 0xBF && st.bits % 0x40 == 0 && 0x80 <= st.bits < 0x800
    else if st.needed == 2 then
      if st.seen == 0 then
        && st.bits % 0x1000 == 0 && st.bits < 0x1_0000
        && st.lower == (if st.bits == 0 then 0xA0 else 0x80) && st.upper == (if st.bits == 0xD000 then 0x9F else 0xBF)
      else
        && st.seen == 1 && st.bits % 0x40 == 0 && st.lower == 0x80 && st.upper == 0xBF
        && (0x800 <= st.bits < 0xD800 || 0xE000 <= st.bits < 0x1_0000)
    else
      && st.needed == 3
      && if st.seen == 0 then
        && st.bits % 0x4_0000 == 0 && st.bits <= 0x10_0000
        && st.lower == (if st.bits == 0 then 0x90 else 0x80)
      && st.upper == (if st.bits == 0x10_0000 then 0x8F else 0xBF)
      else
        && st.seen < 3 && st.bits % (if st.seen == 1 then 0x1000 else 0x40) == 0
        && 0x1_0000 <= st.bits < 0x11_0000 && st.lower == 0x80 && st.upper == 0xBF
  }

  function Next(a: Action): (st: State) { a.next }

  predicate Sound(a: Action)
  {
    Reachable(Next(a)) && (a.Emit? ==> 0 <= a.c < 0xD800 || 0xE000 <= a.c < 0x11_0000)
  }

  lemma HandleLead(st: State, b: Byte)
    requires Reachable(st) && st.needed == 0
    ensures Sound(Handle(st, b))
  {}

  lemma HandleTwo(st: State, b: Byte)
    requires Reachable(st) && 1 <= st.needed <= 2
    ensures Sound(Handle(st, b))
  {}

  lemma HandleThreeFirst(st: State, b: Byte)
    requires Reachable(st) && st.needed == 3 && st.seen == 0
    ensures Sound(Handle(st, b))
  {
    assert st.bits == st.bits / 0x4_0000 * 0x4_0000;
  }

  lemma HandleThreeNext(st: State, b: Byte)
    requires Reachable(st) && st.needed == 3 && st.seen > 0
    ensures Sound(Handle(st, b))
  {
    assert st.bits == st.bits / 0x40 * 0x40;
    assert st.seen == 1 ==> st.bits == st.bits / 0x1000 * 0x1000;
  }

  /** The machine stays within its states and only ever emits scalar values. */
  lemma HandleSound(st: State, b: Byte)
    requires Reachable(st)
    ensures Sound(Handle(st, b))
  {
    hide Handle, Sound;
    if st.needed == 0 {
      HandleLead(st, b);
    } else if st.needed <= 2 {
      HandleTwo(st, b);
    } else {
      if st.seen == 0 {
        HandleThreeFirst(st, b);
      } else {
        HandleThreeNext(st, b);
      }
    }
  }

  function Join(head: seq<Scalar>, r: Result<seq<Scalar>, DecodeError>): (q: Result<seq<Scalar>, DecodeError>)
  {
    if r.Ok? then Ok(head + r.value) else r
  }

  function Trouble(fatal: bool, rest: Result<seq<Scalar>, DecodeError>): (r: Result<seq<Scalar>, DecodeError>)
  {
    if fatal then Err(Malformed) else Join([REPLACEMENT], rest)
  }

  /**
    * The scalar values decoded from a state on. A rejected continuation byte is read again, so the
    * input does not always get shorter; the machine is then back at its start.
    */
  function DecodeScalars(st: State, bs: Bytes, fatal: bool): (r: Result<seq<Scalar>, DecodeError>)
    requires Reachable(st)
    ensures !fatal ==> r.Ok?
    decreases |bs|, st.needed
  {
    if bs == [] then if st.needed != 0 then Trouble(fatal, Ok([])) else Ok([])
    else
      HandleSound(st, bs[0]);
      match Handle(st, bs[0])
      case Emit(c, next) => Join([c], DecodeScalars(next, bs[1..], fatal))
      case Wait(next) => DecodeScalars(next, bs[1..], fatal)
      case Reject(next) => Trouble(fatal, DecodeScalars(next, bs[1..], fatal))
      case RejectAgain(next) => Trouble(fatal, DecodeScalars(next, bs, fatal))
  }

  /** Removes a leading byte order mark. */
  function StripBom(cps: seq<Scalar>): (r: seq<Scalar>)
  {
    if cps != [] && cps[0] == BOM then cps[1..] else cps
  }

  function Decode(bs: Bytes, fatal: bool): (r: Result<Str, DecodeError>)
  {
    match DecodeScalars(START, bs, fatal)
    case Ok(cps) => Ok(FromCodePoints(StripBom(cps)))
    case Err(e) => Err(e)
  }

  // ---------------------------------------------------------------- decoding what was encoded

  lemma WaitStep(st: State, b: Byte, rest: Bytes, next: State, fatal: bool)
    requires Reachable(st) && Handle(st, b) == Wait(next)
    ensures Reachable(next)
    ensures DecodeScalars(st, [b] + rest, fatal) == DecodeScalars(next, rest, fatal)
  {
    HandleSound(st, b);
    assert ([b] + rest)[1..] == rest;
  }

  lemma EmitStep(st: State, b: Byte, rest: Bytes, c: Scalar, fatal: bool)
    requires Reachable(st) && Handle(st, b) == Emit(c, START)
    ensures DecodeScalars(st, [b] + rest, fatal) == Join([c], DecodeScalars(START, rest, fatal))
  {
    HandleSound(st, b);
    assert ([b] + rest)[1..] == rest;
  }

  lemma DecodeTwo(c: Scalar, rest: Bytes, fatal: bool)
    requires 0x80 <= c < 0x800
    ensures DecodeScalars(START, [c / 0x40 + 192] + ([0x80 + c % 0x40] + rest), fatal)
         == Join([c], DecodeScalars(START, rest, fatal))
  {
    hide DecodeScalars;
    var st := State(c / 0x40 * 0x40, 1, 0, 0x80, 0xBF);
    WaitStep(START, c / 0x40 + 192, [0x80 + c % 0x40] + rest, st, fatal);
    EmitStep(st, 0x80 + c % 0x40, rest, c, fatal);
  }

  /** The state after the lead byte of a sequence of three, and of four. */
  function LeadThree(c: nat): (st: State)
  {
    State(c / 0x1000 * 0x1000, 2, 0, if c < 0x1000 then 0xA0 else 0x80, if c / 0x1000 == 0xD then 0x9F else 0xBF)
  }

  function LeadFour(c: nat): (st: State)
  {
    State(c / 0x4_0000 * 0x4_0000, 3, 0, if c < 0x4_0000 then 0x90 else 0x80, if c >= 0x10_0000 then 0x8F else 0xBF)
  }

  lemma DecodeThree(c: Scalar, rest: Bytes, fatal: bool)
    requires 0x800 <= c < 0x1_0000
    ensures DecodeScalars(START, [c / 0x1000 + 224] + ([0x80 + c / 0x40 % 0x40] + ([0x80 + c % 0x40] + rest)), fatal)
         == Join([c], DecodeScalars(START, rest, fatal))
  {
    hide DecodeScalars, Handle;
    var st := State(c / 0x40 * 0x40, 2, 1, 0x80, 0xBF);
    var (b1, b2) := (0x80 + c / 0x40 % 0x40, 0x80 + c % 0x40);
    ThreeHandled(c);
    WaitStep(START, c / 0x1000 + 224, [b1] + ([b2] + rest), LeadThree(c), fatal);
    WaitStep(LeadThree(c), b1, [b2] + rest, st, fatal);
    EmitStep(st, b2, rest, c, fatal);
  }

  lemma ThreeHandled(c: Scalar)
    requires 0x800 <= c < 0x1_0000
    ensures var st := State(c / 0x40 * 0x40, 2, 1, 0x80, 0xBF);
            && Reachable(LeadThree(c)) && Reachable(st)
            && Handle(START, c / 0x1000 + 224) == Wait(LeadThree(c))
            && Handle(LeadThree(c), 0x80 + c / 0x40 % 0x40) == Wait(st)
            && Handle(st, 0x80 + c % 0x40) == Emit(c, START)
  {
    assert c / 0x40 == c / 0x1000 * 0x40 + c / 0x40 % 0x40;
    assert c == c / 0x40 * 0x40 + c % 0x40;
  }

  lemma DecodeFour(c: Scalar, rest: Bytes, fatal: bool)
    requires 0x1_0000 <= c
    ensures DecodeScalars(START, [c / 0x4_0000 + 240] + ([0x80 + c / 0x1000 % 0x40]
                                 + ([0x80 + c / 0x40 % 0x40] + ([0x80 + c % 0x40] + rest))), fatal)
         == Join([c], DecodeScalars(START, rest, fatal))
  {
    hide DecodeScalars, Handle;
    var st1 := State(c / 0x1000 * 0x1000, 3, 1, 0x80, 0xBF);
    var st2 := State(c / 0x40 * 0x40, 3, 2, 0x80, 0xBF);
    var (b1, b2, b3) := (0x80 + c / 0x1000 % 0x40, 0x80 + c / 0x40 % 0x40, 0x80 + c % 0x40);
    FourHandled(c);
    FourHandledRest(c);
    WaitStep(START, c / 0x4_0000 + 240, [b1] + ([b2] + ([b3] + rest)), LeadFour(c), fatal);
    WaitStep(LeadFour(c), b1, [b2] + ([b3] + rest), st1, fatal);
    WaitStep(st1, b2, [b3] + rest, st2, fatal);
    EmitStep(st2, b3, rest, c, fatal);
  }

  lemma FourHandled(c: Scalar)
    requires 0x1_0000 <= c
    ensures var st1 := State(c / 0x1000 * 0x1000, 3, 1, 0x80, 0xBF);
            && Reachable(LeadFour(c)) && Reachable(st1)
            && Handle(START, c / 0x4_0000 + 240) == Wait(LeadFour(c))
            && Handle(LeadFour(c), 0x80 + c / 0x1000 % 0x40) == Wait(st1)
  {
    assert c / 0x1000 == c / 0x4_0000 * 0x40 + c / 0x1000 % 0x40;
  }

  lemma FourHandledRest(c: Scalar)
    requires 0x1_0000 <= c
    ensures var st1 := State(c / 0x1000 * 0x1000, 3, 1, 0x80, 0xBF);
            var st2 := State(c / 0x40 * 0x40, 3, 2, 0x80, 0xBF);
            && Reachable(st1) && Reachable(st2)
            && Handle(st1, 0x80 + c / 0x40 % 0x40) == Wait(st2)
            && Handle(st2, 0x80 + c % 0x40) == Emit(c, START)
  {
    assert c / 0x40 == c / 0x1000 * 0x40 + c / 0x40 % 0x40;
    assert c == c / 0x40 * 0x40 + c % 0x40;
  }

  lemma DecodeOne(c: Scalar, rest: Bytes, fatal: bool)
    ensures DecodeScalars(START, EncodeScalar(c) + rest, fatal) == Join([c], DecodeScalars(START, rest, fatal))
  {
    hide DecodeScalars, Handle, Reachable;
    EncodedBytes(c);
    var bs := EncodeScalar(c);
    if c < 0x80 {
      AsciiHandled(c);
      EmitStep(START, c, rest, c, fatal);
    } else if c < 0x800 {
      DecodeTwo(c, rest, fatal);
      assert bs + rest == [bs[0]] + ([bs[1]] + rest);
    } else if c < 0x1_0000 {
      DecodeThree(c, rest, fatal);
      assert bs + rest == [bs[0]] + ([bs[1]] + ([bs[2]] + rest));
    } else {
      DecodeFour(c, rest, fatal);
      assert bs + rest == [bs[0]] + ([bs[1]] + ([bs[2]] + ([bs[3]] + rest)));
    }
  }

  lemma AsciiHandled(c: Scalar)
    requires c < 0x80
    ensures Reachable(START) && Handle(START, c) == Emit(c, START)
  {}

  lemma EncodedBytes(c: Scalar)
    ensures EncodeScalar(c) == if c < 0x80 then [c]
      else if c < 0x800 then [c / 0x40 + 192, 0x80 + c % 0x40]
      else if c < 0x1_0000 then [c / 0x1000 + 224, 0x80 + c / 0x40 % 0x40, 0x80 + c % 0x40]
      else [c / 0x4_0000 + 240, 0x80 + c / 0x1000 % 0x40, 0x80 + c / 0x40 % 0x40, 0x80 + c % 0x40]
  {
    assert Tail(c, 0) == [];
    assert Tail(c, 1) == [0x80 + c % 0x40] + Tail(c, 0);
    assert Tail(c, 2) == [0x80 + c / 0x40 % 0x40] + Tail(c, 1);
    assert Tail(c, 3) == [0x80 + c / 0x1000 % 0x40] + Tail(c, 2);
  }

  /** Decoding undoes encoding on scalar values, without a single error. */
  lemma {:induction false} DecodeInvertsEncode(cps: seq<Scalar>, fatal: bool)
    ensures DecodeScalars(START, EncodeScalars(cps), fatal) == Ok(cps)
  {
    hide EncodeScalar, Handle;
    if cps != [] {
      DecodeInvertsEncode(cps[1..], fatal);
      DecodeOne(cps[0], EncodeScalars(cps[1..]), fatal);
      assert [cps[0]] + cps[1..] == cps;
    }
  }

  // ---------------------------------------------------------------- only encodings are accepted

  /** The bytes that lead to a state: they can be told from the bits gathered. */
  function Consumed(st: State): (bs: Bytes)
    requires Reachable(st)
  {
    var d := st.bits;
    if st.needed == 0 then []
    else if st.needed == 1 then [d / 0x40 + 192]
    else if st.needed == 2 then
      if st.seen == 0 then [d / 0x1000 + 224] else [d / 0x1000 + 224, 0x80 + d / 0x40 % 0x40]
    else if st.seen == 0 then [d / 0x4_0000 + 240]
    else if st.seen == 1 then [d / 0x4_0000 + 240, 0x80 + d / 0x1000 % 0x40]
    else [d / 0x4_0000 + 240, 0x80 + d / 0x1000 % 0x40, 0x80 + d / 0x40 % 0x40]
  }

  ghost predicate Tracks(st: State, b: Byte)
    requires Reachable(st)
  {
    var a := Handle(st, b);
    && Sound(a)
    && (a.Wait? ==> Consumed(a.next) == Consumed(st) + [b])
    && (a.Emit? ==> a.next == START && EncodeScalar(a.c) == Consumed(st) + [b])
  }

  /** Six bits put below, in the middle of and above what is there already. */
  lemma SixLow(d: nat, x: nat)
    requires d % 0x40 == 0 && x < 0x40
    ensures var c := d + x;
            && c / 0x40 == d / 0x40 && c % 0x40 == x && c / 0x1000 == d / 0x1000 && c / 0x4_0000 == d / 0x4_0000
  {
    assert d == d / 0x40 * 0x40;
  }

  lemma SixMiddle(d: nat, x: nat)
    requires d % 0x1000 == 0 && x < 0x40
    ensures var c := d + x * 0x40;
            && c / 0x40 % 0x40 == x && c / 0x1000 == d / 0x1000 && c / 0x4_0000 == d / 0x4_0000
  {
    var q := d / 0x1000;
    DivUnique(d + x * 0x40, 0x40, q * 0x40 + x, 0);
    DivUnique(q * 0x40 + x, 0x40, q, x);
    DivUnique(d + x * 0x40, 0x1000, q, x * 0x40);
    DivUnique(d + x * 0x40, 0x4_0000, q / 0x40, q % 0x40 * 0x1000 + x * 0x40);
    DivUnique(d, 0x4_0000, q / 0x40, q % 0x40 * 0x1000);
  }

  lemma SixHigh(d: nat, x: nat)
    requires d % 0x4_0000 == 0 && x < 0x40
    ensures var c := d + x * 0x1000; c / 0x1000 % 0x40 == x && c / 0x4_0000 == d / 0x4_0000
  {
    var q := d / 0x4_0000;
    DivUnique(d + x * 0x1000, 0x1000, q * 0x40 + x, 0);
    DivUnique(q * 0x40 + x, 0x40, q, x);
    DivUnique(d + x * 0x1000, 0x4_0000, q, x * 0x1000);
  }

  lemma TracksLead(st: State, b: Byte)
    requires Reachable(st) && st.needed == 0
    ensures Tracks(st, b)
  {
    HandleLead(st, b);
    if b < 0x80 {
      EncodedBytes(b);
    }
  }

  lemma Aligned(st: State)
    requires Reachable(st) && st.needed > 0
    ensures st.seen < st.needed <= 3 && st.lower >= 0x80 && st.upper <= 0xBF
    ensures st.needed == 1 ==> st.seen == 0 && st.bits < 0x800
    ensures st.bits % (if st.needed - st.seen == 1 then 0x40 else if st.needed - st.seen == 2 then 0x1000 else 0x4_0000)
      == 0
    ensures st.needed == 1 ==> 0x80 <= st.bits
    ensures st.needed == 2 && st.seen == 1 ==> 0x800 <= st.bits < 0x1_0000
    ensures st.needed == 3 && st.seen == 2 ==> 0x1_0000 <= st.bits
  {}

  lemma TracksTwo(st: State, b: Byte)
    requires Reachable(st) && st.needed == 1
    ensures Tracks(st, b)
  {
    hide EncodeScalar, Reachable;
    HandleSound(st, b);
    Aligned(st);
    if Between(b, st.lower, st.upper) {
      SixLow(st.bits, b - 0x80);
      EncodedBytes(st.bits + (b - 0x80));
    }
  }

  lemma TracksThreeFirst(st: State, b: Byte)
    requires Reachable(st) && st.needed == 2 && st.seen == 0
    ensures Tracks(st, b)
  {
    hide EncodeScalar, Reachable;
    HandleSound(st, b);
    Aligned(st);
    if Between(b, st.lower, st.upper) {
      SixMiddle(st.bits, b - 0x80);
    }
  }

  lemma TracksThreeLast(st: State, b: Byte)
    requires Reachable(st) && st.needed == 2 && st.seen == 1
    ensures Tracks(st, b)
  {
    hide EncodeScalar, Reachable;
    HandleSound(st, b);
    Aligned(st);
    if Between(b, st.lower, st.upper) {
      SixLow(st.bits, b - 0x80);
      EncodedBytes(st.bits + (b - 0x80));
    }
  }

  lemma TracksFourFirst(st: State, b: Byte)
    requires Reachable(st) && st.needed == 3 && st.seen == 0
    ensures Tracks(st, b)
  {
    hide EncodeScalar, Reachable;
    HandleSound(st, b);
    Aligned(st);
    if Between(b, st.lower, st.upper) {
      SixHigh(st.bits, b - 0x80);
    }
  }

  lemma TracksFourNext(st: State, b: Byte)
    requires Reachable(st) && st.needed == 3 && st.seen == 1
    ensures Tracks(st, b)
  {
    hide EncodeScalar, Reachable;
    HandleSound(st, b);
    Aligned(st);
    if Between(b, st.lower, st.upper) {
      SixMiddle(st.bits, b - 0x80);
    }
  }

  lemma TracksFourLast(st: State, b: Byte)
    requires Reachable(st) && st.needed == 3 && st.seen == 2
    ensures Tracks(st, b)
  {
    hide EncodeScalar, Reachable;
    HandleSound(st, b);
    Aligned(st);
    if Between(b, st.lower, st.upper) {
      SixLow(st.bits, b - 0x80);
      EncodedBytes(st.bits + (b - 0x80));
    }
  }

  lemma HandleTracks(st: State, b: Byte)
    requires Reachable(st)
    ensures Tracks(st, b)
  {
    hide Tracks, Handle;
    if st.needed == 0 {
      TracksLead(st, b);
    } else if st.needed == 1 {
      TracksTwo(st, b);
    } else if st.needed == 2 {
      if st.seen == 0 {
        TracksThreeFirst(st, b);
      } else {
        TracksThreeLast(st, b);
      }
    } else if st.seen == 0 {
      TracksFourFirst(st, b);
    } else if st.seen == 1 {
      TracksFourNext(st, b);
    } else {
      TracksFourLast(st, b);
    }
  }

  lemma {:induction false} AcceptedIsEncoded(st: State, bs: Bytes)
    requires Reachable(st)
    ensures var r := DecodeScalars(st, bs, true); r.Ok? ==> EncodeScalars(r.value) == Consumed(st) + bs
    decreases |bs|
  {
    hide Consumed, EncodeScalar, Handle;
    NothingConsumed();
    if bs == [] {
      if st.needed == 0 {
        assert [] + bs == bs;
      }
    } else {
      HandleTracks(st, bs[0]);
      assert bs == [bs[0]] + bs[1..];
      match Handle(st, bs[0])
      case Emit(c, next) =>
        AcceptedIsEncoded(next, bs[1..]);
        var r := DecodeScalars(next, bs[1..], true);
        if r.Ok? {
          assert ([c] + r.value)[1..] == r.value;
          assert [] + bs[1..] == bs[1..];
        }
        assert Consumed(st) + bs == Consumed(st) + [bs[0]] + bs[1..];
      case Wait(next) =>
        AcceptedIsEncoded(next, bs[1..]);
        assert Consumed(st) + bs == Consumed(st) + [bs[0]] + bs[1..];
      case Reject(_) =>
      case RejectAgain(_) =>
    }
  }

  lemma NothingConsumed()
    ensures Reachable(START) && Consumed(START) == []
    ensures forall st | Reachable(st) && st.needed == 0 :: st == START
  {}

  /**
    * In fatal mode the decoder accepts exactly the encodings of scalar values: nothing overlong, no
    * surrogates, nothing cut short.
    */
  lemma FatalAcceptsEncodings(bs: Bytes)
    ensures DecodeScalars(START, bs, true).Ok? <==> exists cps: seq<Scalar> :: EncodeScalars(cps) == bs
  {
    AcceptedIsEncoded(START, bs);
    NothingConsumed();
    assert [] + bs == bs;
    forall cps: seq<Scalar> | EncodeScalars(cps) == bs
      ensures DecodeScalars(START, bs, true).Ok?
    {
      DecodeInvertsEncode(cps, true);
    }
  }

  // ---------------------------------------------------------------- strings

  /** Every lead surrogate is followed by a trail surrogate and the other way round. */
  predicate Paired(s: Str)
  {
    s == []
    || (!IsSurrogate(s[0]) && Paired(s[1..]))
    || (|s| > 1 && IsLead(s[0]) && IsTrail(s[1]) && Paired(s[2..]))
  }

  lemma {:induction false} ScalarsOfPaired(s: Str)
    ensures |FromCodePoints(Scalars(s))| == |s|
    ensures Paired(s) ==> FromCodePoints(Scalars(s)) == s
  {
    if s == [] {
    } else if |s| > 1 && IsLead(s[0]) && IsTrail(s[1]) {
      ScalarsOfPaired(s[2..]);
      assert Scalars(s) == [Pair(s[0], s[1])] + Scalars(s[2..]);
      assert Units(Pair(s[0], s[1])) == s[..2];
      assert s == s[..2] + s[2..];
    } else {
      ScalarsOfPaired(s[1..]);
      assert Scalars(s)[1..] == Scalars(s[1..]);
      assert s == [s[0]] + s[1..];
    }
  }

  lemma {:induction false} ScalarsArePaired(cps: seq<Scalar>)
    ensures Paired(FromCodePoints(cps))
  {
    if cps != [] {
      ScalarsArePaired(cps[1..]);
      var (u, rest) := (Units(cps[0]), FromCodePoints(cps[1..]));
      assert (u + rest)[|u|..] == rest;
    }
  }

  /**
    * A string comes back from a round trip exactly when its surrogates are paired and it does not
    * begin with a byte order mark.
    */
  lemma TextRoundTrip(s: Str)
    ensures Decode(Encode(s), false) == Ok(s) <==> Paired(s) && !(s != [] && s[0] == BOM)
  {
    hide FromCodePoints, Paired;
    var cps := Scalars(s);
    DecodeInvertsEncode(cps, false);
    ScalarsOfPaired(s);
    ScalarsArePaired(cps);
    if cps != [] && cps[0] == BOM {
      FirstUnit(cps);
    }
  }

  /** A byte order mark in front, and only one, is dropped. */
  lemma MarkDropped(cps: seq<Scalar>, fatal: bool)
    ensures Decode(EncodeScalars([0xFEFF] + cps), fatal) == Ok(FromCodePoints(cps))
  {
    DecodeInvertsEncode([0xFEFF] + cps, fatal);
    assert ([0xFEFF] + cps)[1..] == cps;
  }

  lemma FirstUnit(cps: seq<Scalar>)
    requires cps != [] && cps[0] == BOM
    ensures |FromCodePoints(cps)| == 1 + |FromCodePoints(cps[1..])|
  {}

  /** Whatever the bytes, the decoded string is well formed. */
  lemma DecodedIsPaired(bs: Bytes)
    ensures Decode(bs, false).Ok? && Paired(Decode(bs, false).value)
  {
    ScalarsArePaired(StripBom(DecodeScalars(START, bs, false).value));
  }

  // ---------------------------------------------------------------- the loops

  /** Reads the code units of a string by index. */
  method ReadScalars(s: Str) returns (cps: seq<Scalar>)
    ensures cps == Scalars(s)
  {
    hide Scalars, Pair;
    NoScalars();
    cps := [];
    var r := 0;
    assert s[0..] == s;
    while r < |s|
      invariant r <= |s|
      invariant cps + Scalars(s[r..]) == Scalars(s)
    {
      ScalarsFrom(s, r);
      var o := s[r];
      var c: Scalar := REPLACEMENT;
      if o < 0xD800 || o > 0xDFFF {
        c := o;
      } else if 0xD800 <= o <= 0xDBFF && r != |s| - 1 {
        var a := s[r + 1];
        if 0xDC00 <= a <= 0xDFFF {
          c := Pair(o, a);
          r := r + 1;
        }
      }
      Grouped(cps, c, Scalars(s[r + 1..]));
      cps := cps + [c];
      r := r + 1;
    }
    assert s[r..] == [];
  }

  lemma Grouped(cps: seq<Scalar>, c: Scalar, more: seq<Scalar>)
    ensures cps + ([c] + more) == cps + [c] + more
  {}

  lemma NoScalars()
    ensures Scalars([]) == []
  {}

  lemma ScalarsFrom(s: Str, r: nat)
    requires r < |s|
    ensures var paired := IsLead(s[r]) && r + 1 < |s| && IsTrail(s[r + 1]);
            Scalars(s[r..]) == if paired then [Pair(s[r], s[r + 1])] + Scalars(s[r + 2..])
                               else [if IsSurrogate(s[r]) then REPLACEMENT else s[r]] + Scalars(s[r + 1..])
  {
    assert s[r..][1..] == s[r + 1..];
    assert r + 1 < |s| ==> s[r..][2..] == s[r + 2..];
  }

  /** The handler of the encoder: the lead byte, then six bits at a time. */
  method EncodeBytes(c: Scalar) returns (a: Bytes)
    ensures a == EncodeScalar(c)
  {
    hide Shift;
    if c <= 0x7F {
      EncodedBytes(c);
      return [c];
    }
    LeadByte(c);
    var n, mark := 3, 240;
    if c <= 0x7FF {
      n, mark := 1, 192;
    } else if c <= 0xFFFF {
      n, mark := 2, 224;
    }
    a := [Shift(c, n) + mark];
    assert a + Tail(c, n) == EncodeScalar(c);
    while n > 0
      invariant n <= 3
      invariant a + Tail(c, n) == EncodeScalar(c)
    {
      a := a + [0x80 + Shift(c, n - 1) % 0x40];
      n := n - 1;
    }
    assert a + [] == a;
  }

  lemma LeadByte(c: Scalar)
    ensures Shift(c, TailLength(c)) + LeadMark(TailLength(c)) < 0x100
  {}

  method RunEncode(s: Str) returns (bs: Bytes)
    ensures bs == Encode(s)
  {
    var tokens := ReadScalars(s);
    bs := [];
    while tokens != []
      invariant bs + EncodeScalars(tokens) == Encode(s)
      decreases |tokens|
    {
      var a := EncodeBytes(tokens[0]);
      bs := bs + a;
      tokens := tokens[1..];
    }
  }

  lemma JoinTwice(a: seq<Scalar>, b: seq<Scalar>, r: Result<seq<Scalar>, DecodeError>)
    ensures Join(a, Join(b, r)) == Join(a + b, r)
  {
    if r.Ok? {
      assert a + (b + r.value) == a + b + r.value;
    }
  }

  /** The token loop: a rejected continuation byte is put back in front of the stream. */
  method RunDecode(bs: Bytes, fatal: bool) returns (result: Result<Str, DecodeError>)
    ensures result == Decode(bs, fatal)
  {
    hide Handle, Reachable;
    NothingConsumed();
    var st, tokens := START, bs;
    var out: seq<Scalar> := [];
    ghost var whole := DecodeScalars(START, bs, fatal);
    assert Join([], whole) == whole by { if whole.Ok? { assert [] + whole.value == whole.value; } }
    while tokens != []
      invariant Reachable(st)
      invariant whole == Join(out, DecodeScalars(st, tokens, fatal))
      decreases |tokens|, st.needed
    {
      var b := tokens[0];
      AgainAtStart(st, b);
      HandleSound(st, b);
      match Handle(st, b)
      case Emit(c, next) =>
        JoinTwice(out, [c], DecodeScalars(next, tokens[1..], fatal));
        out, st, tokens := out + [c], next, tokens[1..];
      case Wait(next) =>
        st, tokens := next, tokens[1..];
      case Reject(next) =>
        if fatal {
          return Err(Malformed);
        }
        JoinTwice(out, [REPLACEMENT], DecodeScalars(next, tokens[1..], fatal));
        out, st, tokens := out + [REPLACEMENT], next, tokens[1..];
      case RejectAgain(next) =>
        if fatal {
          return Err(Malformed);
        }
        JoinTwice(out, [REPLACEMENT], DecodeScalars(next, tokens, fatal));
        out, st := out + [REPLACEMENT], next;
    }
    if st.needed != 0 {
      if fatal {
        return Err(Malformed);
      }
      assert out + ([REPLACEMENT] + []) == out + [REPLACEMENT];
      out := out + [REPLACEMENT];
    }
    assert out + [] == out;
    return Ok(FromCodePoints(StripBom(out)));
  }

  lemma AgainAtStart(st: State, b: Byte)
    requires Reachable(st)
    ensures st.seen < st.needed <= 3 || st.needed == 0
    ensures st.lower >= 0x80
    ensures Handle(st, b).RejectAgain? ==> Handle(st, b).next.needed < st.needed
  {}
}
