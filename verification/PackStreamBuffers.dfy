/**
  * The packer writing to a chunker and the unpacker reading from a buffer by position, proved against
  * the PackStream functions, and the whole way of a value from one end of a connection to the other.
  */
module PackStreamBuffers {
  import opened Wrappers
  import opened JsNumber
  import opened JsText
  import opened Integer64
  import opened ByteReading
  import opened Utf8
  import opened Framing
  import opened Chunking
  import opened PackStream

  // ---------------------------------------------------------------- packing into chunks

  /** Single bytes, each of which may start a new chunk. */
  method PutEach(bs: Bytes, ch: Chunker)
    requires ch.Valid()
    modifies ch, ch.buffer
    ensures ch.Valid() && (ch.buffer == old(ch.buffer) || fresh(ch.buffer))
    ensures ch.messages == old(ch.messages) && ch.pending == old(ch.pending) + bs
  {
    hide *;
    for k := 0 to |bs|
      invariant ch.Valid() && (ch.buffer == old(ch.buffer) || fresh(ch.buffer))
      invariant ch.messages == old(ch.messages) && ch.pending == old(ch.pending) + bs[..k]
    {
      assert bs[..k + 1] == bs[..k] + [bs[k]];
      ch.PutUInt8(bs[k]);
    }
    assert bs[..|bs|] == bs;
  }

  method PackText(s: Str, ch: Chunker)
    requires ch.Valid()
    modifies ch, ch.buffer
    ensures ch.Valid() && (ch.buffer == old(ch.buffer) || fresh(ch.buffer))
    ensures ch.messages == old(ch.messages) && ch.pending == old(ch.pending) + EncodeText(s)
  {
    hide *;
    var bytes := RunEncode(s);
    TextParts(s);
    PutEach(WriteHead(TextHead(|bytes|)), ch);
    ch.PutBytes(bytes);
  }

  lemma TextParts(s: Str)
    ensures EncodeText(s) == WriteHead(TextHead(|Utf8.Encode(s)|)) + Utf8.Encode(s)
  {}

  /** What each kind of value consists of: its head and the bytes `body`. */
  lemma Parts(v: Value, body: Bytes)
    requires Accepted(v) && !v.Text?
    requires match v
      case Float(bits) => body == bits
      case Binary(bytes) => body == ToBytes(bytes)
      case List(items) => body == EncodeMany(items)
      case Map(entries) => body == EncodeEntries(entries)
      case Struct(signature, fields) => body == (if |fields| < 0x100 then [signature] else []) + EncodeMany(fields)
      case _ => body == []
    ensures PackStream.Encode(v) == WriteHead(HeadOf(v)) + body
  {
    hide WriteHead, HeadOf, EncodeMany, EncodeEntries, ToBytes;
  }

  method Pack(v: Value, ch: Chunker)
    requires Accepted(v) && ch.Valid()
    modifies ch, ch.buffer
    ensures ch.Valid() && (ch.buffer == old(ch.buffer) || fresh(ch.buffer))
    ensures ch.messages == old(ch.messages) && ch.pending == old(ch.pending) + PackStream.Encode(v)
    decreases v, 0
  {
    hide *;
    PartsAccepted(v);
    if v.Text? {
      TextIsEncoded(v);
      PackText(v.s, ch);
      return;
    }
    PutEach(WriteHead(HeadOf(v)), ch);
    ghost var soFar := ch.pending;
    match v
    case Float(bits) =>
      ch.PutFloat64(bits);
      Parts(v, bits);
    case Binary(bytes) =>
      PutEach(ToBytes(bytes), ch);
      Parts(v, ToBytes(bytes));
    case List(items) =>
      PackMany(items, ch);
      Parts(v, EncodeMany(items));
    case Map(entries) =>
      PackEntries(entries, ch);
      Parts(v, EncodeEntries(entries));
    case Struct(signature, fields) =>
      if |fields| < 0x100 {
        ch.PutUInt8(signature);
      }
      PackMany(fields, ch);
      Parts(v, (if |fields| < 0x100 then [signature] else []) + EncodeMany(fields));
    case _ =>
      Parts(v, []);
  }

  lemma TextIsEncoded(v: Value)
    requires Accepted(v) && v.Text?
    ensures PackStream.Encode(v) == EncodeText(v.s)
  {}

  lemma PartsAccepted(v: Value)
    requires Accepted(v)
    ensures !v.Graph? && (v.Float? ==> |v.bits| == 8)
    ensures v.List? ==> forall x | x in v.items :: Accepted(x)
    ensures v.Map? ==> forall e | e in v.entries :: |Utf8.Encode(e.key)| < TWO_32 && Accepted(e.value)
    ensures v.Struct? ==> forall x | x in v.fields :: Accepted(x)
    ensures !v.Text? ==> (HeadOf(v).TextHead? || HeadOf(v).BinaryHead? || HeadOf(v).ListHead? || HeadOf(v).MapHead?
                          || HeadOf(v).StructHead?) ==> HeadOf(v).size >= 0
  {}

  method PackMany(vs: seq<Value>, ch: Chunker)
    requires (forall x | x in vs :: Accepted(x)) && ch.Valid()
    modifies ch, ch.buffer
    ensures ch.Valid() && (ch.buffer == old(ch.buffer) || fresh(ch.buffer))
    ensures ch.messages == old(ch.messages) && ch.pending == old(ch.pending) + EncodeMany(vs)
    decreases vs, 1
  {
    hide *;
    NoItems(vs);
    for r := 0 to |vs|
      invariant ch.Valid() && (ch.buffer == old(ch.buffer) || fresh(ch.buffer))
      invariant ch.messages == old(ch.messages)
      invariant ch.pending + EncodeMany(vs[r..]) == old(ch.pending) + EncodeMany(vs)
    {
      ghost var p := ch.pending;
      NextItem(vs, r);
      Pack(vs[r], ch);
      assert p + EncodeMany(vs[r..]) == ch.pending + EncodeMany(vs[r + 1..]);
    }
  }

  lemma NextItem(vs: seq<Value>, r: nat)
    requires r < |vs| && forall x | x in vs :: Accepted(x)
    ensures vs[r] in vs && forall x | x in vs[r..] :: x in vs
    ensures EncodeMany(vs[r..]) == PackStream.Encode(vs[r]) + EncodeMany(vs[r + 1..])
  {
    assert vs[r..][1..] == vs[r + 1..];
  }

  lemma NoItems(vs: seq<Value>)
    requires forall x | x in vs :: Accepted(x)
    ensures vs[0..] == vs && EncodeMany(vs[|vs|..]) == []
  {}

  method PackEntries(es: seq<Entry>, ch: Chunker)
    requires (forall e | e in es :: |Utf8.Encode(e.key)| < TWO_32 && Accepted(e.value)) && ch.Valid()
    modifies ch, ch.buffer
    ensures ch.Valid() && (ch.buffer == old(ch.buffer) || fresh(ch.buffer))
    ensures ch.messages == old(ch.messages) && ch.pending == old(ch.pending) + EncodeEntries(es)
    decreases es, 1
  {
    hide *;
    NoEntries(es);
    for a := 0 to |es|
      invariant ch.Valid() && (ch.buffer == old(ch.buffer) || fresh(ch.buffer))
      invariant ch.messages == old(ch.messages)
      invariant ch.pending + EncodeEntries(es[a..]) == old(ch.pending) + EncodeEntries(es)
    {
      ghost var p := ch.pending;
      NextEntry(es, a);
      PackText(es[a].key, ch);
      Pack(es[a].value, ch);
      assert p + EncodeEntries(es[a..]) == ch.pending + EncodeEntries(es[a + 1..]);
    }
  }

  lemma NextEntry(es: seq<Entry>, a: nat)
    requires a < |es| && forall e | e in es :: |Utf8.Encode(e.key)| < TWO_32 && Accepted(e.value)
    ensures es[a] in es && forall e | e in es[a..] :: e in es
    ensures EncodeEntries(es[a..])
         == EncodeText(es[a].key) + (PackStream.Encode(es[a].value) + EncodeEntries(es[a + 1..]))
  {
    assert es[a..][1..] == es[a + 1..];
  }

  lemma NoEntries(es: seq<Entry>)
    requires forall e | e in es :: |Utf8.Encode(e.key)| < TWO_32 && Accepted(e.value)
    ensures es[0..] == es && EncodeEntries(es[|es|..]) == []
  {}

  // ---------------------------------------------------------------- unpacking from a buffer

  class Reader {
    const bytes: Bytes
    var position: nat

    ghost predicate Valid()
      reads this
    {
      position <= |bytes|
    }

    function Rest(): (bs: Bytes)
      reads this
      requires Valid()
    {
      bytes[position..]
    }

    constructor (bytes: Bytes)
      ensures Valid() && Rest() == bytes && this.bytes == bytes
    {
      this.bytes, position := bytes, 0;
    }

    /** `readUInt8` */
    method ReadUInt8() returns (r: Result<Byte, Error>)
      requires Valid()
      modifies this
      ensures Valid() && old(position) <= position
      ensures old(Rest()) == [] ==> r == Err(OutOfBounds)
      ensures old(Rest()) != [] ==>
        r == Ok(old(Rest())[0]) && Rest() == old(Rest())[1..] && position == old(position) + 1
    {
      if position == |bytes| {
        return Err(OutOfBounds);
      }
      r := Ok(bytes[position]);
      position := position + 1;
    }

    /** A size behind its marker: one or two bytes, or four with a sign. */
    method ReadSize(width: nat) returns (r: Result<int, Error>)
      requires Valid()
      modifies this
      ensures Valid() && old(position) <= position
      ensures match Take(old(Rest()), width)
              case Err(e) => r == Err(e)
              case Ok((a, rest)) => r == Ok(if width == 4 then Size4(a) else UInt(a)) && Rest() == rest
    {
      hide UInt, Size4, Take;
      var bs := Slice(width);
      match bs
      case Err(e) => r := Err(e);
      case Ok(a) => r := Ok(if width == 4 then Size4(a) else UInt(a));
    }

    /** The integer behind its marker. */
    method NextInt(m: Byte) returns (r: Result<Head, Error>)
      requires Valid()
      modifies this
      ensures Valid() && old(position) <= position
      ensures Matches(ReadInt(m, old(Rest())), r, Rest())
    {
      hide SInt, FromNumber, FromBits, Take;
      if m < 128 {
        return Ok(IntHead(FromNumber(m)));
      }
      if m >= 240 {
        return Ok(IntHead(FromNumber(m - 256)));
      }
      if m < 200 || m > 203 {
        return Err(UnknownMarker);
      }
      var width := if m == 200 then 1 else if m == 201 then 2 else if m == 202 then 4 else 8;
      var bs := Slice(width);
      match bs
      case Err(e) => r := Err(e);
      case Ok(a) =>
        r := Ok(IntHead(
          if m == 200 then FromNumber(SInt(a, 128))
          else if m == 201 then FromNumber(SInt(a, 0x8000))
          else if m == 202 then FromNumber(SInt(a, TWO_31))
          else FromBits(SInt(a[4..], TWO_31), SInt(a[..4], TWO_31))));
    }

    /** The marker, and the size after it where the marker does not hold it. */
    method NextHead() returns (r: Result<Head, Error>)
      requires Valid()
      modifies this
      ensures Valid() && old(position) <= position && (r.Ok? ==> old(position) < position)
      ensures Matches(ReadHead(old(Rest())), r, Rest())
    {
      hide ReadInt, UInt, Size4, Take;
      var marker := ReadUInt8();
      if marker.Err? {
        return Err(marker.error);
      }
      var m := marker.value;
      var high, low := m / 16 * 16, m % 16;
      if m == 192 {
        return Ok(NullHead);
      }
      if m == 195 || m == 194 {
        return Ok(BoolHead(m == 195));
      }
      if m == 193 {
        return Ok(FloatHead);
      }
      if m < 128 || m >= 240 || 200 <= m <= 203 {
        r := NextInt(m);
        return;
      }
      if high == 128 {
        return Ok(TextHead(low));
      }
      if high == 144 {
        return Ok(ListHead(low));
      }
      if high == 160 {
        return Ok(MapHead(low));
      }
      if high == 176 {
        return Ok(StructHead(low));
      }
      if 208 <= m <= 210 {
        var size := ReadSize(SizeWidth(m - 208));
        return if size.Ok? then Ok(TextHead(size.value)) else Err(size.error);
      }
      if 212 <= m <= 214 {
        var size := ReadSize(SizeWidth(m - 212));
        return if size.Ok? then Ok(ListHead(size.value)) else Err(size.error);
      }
      if 204 <= m <= 206 {
        var size := ReadSize(SizeWidth(m - 204));
        return if size.Ok? then Ok(BinaryHead(size.value)) else Err(size.error);
      }
      if 216 <= m <= 218 {
        var size := ReadSize(SizeWidth(m - 216));
        return if size.Ok? then Ok(MapHead(size.value)) else Err(size.error);
      }
      if 220 <= m <= 221 {
        var size := ReadSize(SizeWidth(m - 220));
        return if size.Ok? then Ok(StructHead(size.value)) else Err(size.error);
      }
      r := Err(UnknownMarker);
    }

    /** The next `n` bytes, or as many as there are. */
    method ReadView(n: nat) returns (bs: Bytes)
      requires Valid()
      modifies this
      ensures Valid() && old(position) <= position
      ensures var rest := old(Rest()); var m := if n < |rest| then n else |rest|;
              bs == rest[..m] && Rest() == rest[m..]
    {
      var m := if n < |bytes| - position then n else |bytes| - position;
      bs := bytes[position..position + m];
      assert bytes[position..][..m] == bs && bytes[position..][m..] == bytes[position + m..];
      position := position + m;
    }

    /** The next `n` bytes. */
    method Slice(n: nat) returns (r: Result<Bytes, Error>)
      requires Valid()
      modifies this
      ensures Valid() && old(position) <= position
      ensures match Take(old(Rest()), n)
              case Err(e) => r == Err(e)
              case Ok((a, rest)) => r == Ok(a) && Rest() == rest
    {
      if n > |bytes| - position {
        return Err(OutOfBounds);
      }
      r := Ok(bytes[position..position + n]);
      assert bytes[position..][..n] == bytes[position..position + n];
      assert bytes[position..][n..] == bytes[position + n..];
      position := position + n;
    }
  }

  /** One, two or four bytes. */
  function SizeWidth(step: nat): (w: nat) { if step == 0 then 1 else if step == 1 then 2 else 4 }

  method UnpackValue(r: Reader) returns (res: Result<PackStream.Value, Error>)
    requires r.Valid()
    modifies r
    ensures r.Valid() && old(r.position) <= r.position
    ensures res.Ok? ==> old(r.position) < r.position
    ensures Matches(Unpack(old(r.Rest())), res, r.Rest())
    decreases |r.bytes| - r.position, 0, 0
  {
    hide ReadHead, UnpackMany, UnpackEntries, Take, FromBytes;
    var head := r.NextHead();
    if head.Err? {
      return Err(head.error);
    }
    match head.value
    case NullHead => res := Ok(Null);
    case BoolHead(b) => res := Ok(Bool(b));
    case IntHead(i) => res := Ok(Int(i));
    case FloatHead =>
      var bits := r.Slice(8);
      res := if bits.Ok? then Ok(Float(bits.value)) else Err(bits.error);
    case TextHead(n) =>
      if n < 0 {
        return Err(NegativeSize);
      }
      var bytes := r.ReadView(n);
      var text := RunDecode(bytes, false);
      res := Ok(Text(text.value));
    case BinaryHead(n) =>
      if n < 0 {
        return Err(NegativeSize);
      }
      var bytes := r.Slice(n);
      res := if bytes.Ok? then Ok(Binary(FromBytes(bytes.value))) else Err(bytes.error);
    case ListHead(n) =>
      var vs := UnpackValues(n, r);
      res := if vs.Ok? then Ok(List(vs.value)) else Err(vs.error);
    case MapHead(n) =>
      var es := UnpackKeyedValues(n, r);
      res := if es.Ok? then Ok(Map(es.value)) else Err(es.error);
    case StructHead(n) =>
      OneByteTaken(r.Rest());
      var signature := r.Slice(1);
      if signature.Err? {
        return Err(OutOfBounds);
      }
      var s := signature.value[0];
      if GraphSize(s) >= 0 && GraphSize(s) != n {
        return Err(WrongStructSize);
      }
      var vs := UnpackValues(n, r);
      res :=
        if vs.Ok? then Ok(if GraphSize(s) >= 0 then Graph(s, vs.value) else Struct(s, vs.value))
        else Err(vs.error);
  }

  lemma OneByteTaken(bs: Bytes)
    ensures Take(bs, 1) == if bs == [] then Err(OutOfBounds) else Ok(([bs[0]], bs[1..]))
  {
    assert bs != [] ==> bs[..1] == [bs[0]];
  }

  lemma AfterOne(done: seq<PackStream.Value>, n: int, bs: Bytes)
    ensures n > 0 ==> match Unpack(bs)
      case Err(e) => After(done, UnpackMany(n, bs)) == Err(e)
      case Ok((v, rest)) => After(done, UnpackMany(n, bs)) == After(done + [v], UnpackMany(n - 1, rest))
    ensures n <= 0 ==> After(done, UnpackMany(n, bs)) == Ok((done, bs))
  {
    hide Unpack;
    if n <= 0 {
      assert done + [] == done;
    } else if Unpack(bs).Ok? {
      var (v, rest) := Unpack(bs).value;
      var more := UnpackMany(n - 1, rest);
      if more.Ok? {
        assert done + ([v] + more.value.0) == done + [v] + more.value.0;
      }
    }
  }

  method UnpackValues(n: int, r: Reader) returns (res: Result<seq<PackStream.Value>, Error>)
    requires r.Valid()
    modifies r
    ensures r.Valid() && old(r.position) <= r.position
    ensures Matches(UnpackMany(n, old(r.Rest())), res, r.Rest())
    decreases |r.bytes| - r.position, 1, n
  {
    hide UnpackMany, Unpack;
    var vs: seq<PackStream.Value>, i := [], 0;
    ghost var whole := UnpackMany(n, r.Rest());
    AfterNothing([], whole);
    while i < n
      invariant r.Valid() && old(r.position) <= r.position && 0 <= i && (n >= 0 ==> i <= n)
      invariant whole == After(vs, UnpackMany(n - i, r.Rest()))
      decreases n - i
    {
      AfterOne(vs, n - i, r.Rest());
      var v := UnpackValue(r);
      if v.Err? {
        return Err(v.error);
      }
      vs := vs + [v.value];
      i := i + 1;
    }
    AfterOne(vs, n - i, r.Rest());
    return Ok(vs);
  }

  method UnpackKeyedValues(n: int, r: Reader) returns (res: Result<seq<Entry>, Error>)
    requires r.Valid()
    modifies r
    ensures r.Valid() && old(r.position) <= r.position
    ensures Matches(UnpackEntries(n, old(r.Rest()), []), res, r.Rest())
    decreases |r.bytes| - r.position, 1, n
  {
    hide Unpack, SetKey;
    var es: seq<Entry>, i := [], 0;
    while i < n
      invariant r.Valid() && old(r.position) <= r.position && 0 <= i && (n >= 0 ==> i <= n)
      invariant UnpackEntries(n, old(r.Rest()), []) == UnpackEntries(n - i, r.Rest(), es)
      decreases n - i
    {
      var k := UnpackValue(r);
      if k.Err? {
        return Err(k.error);
      }
      var v := UnpackValue(r);
      if v.Err? {
        return Err(v.error);
      }
      if !k.value.Text? {
        return Err(KeyNotText);
      }
      es := SetKey(es, k.value.s, v.value);
      i := i + 1;
    }
    return Ok(es);
  }

  // ---------------------------------------------------------------- end to end

  /** Packs each value as a message of its own, flushing where `flush` says so and at the end. */
  method SendAll(vs: seq<PackStream.Value>, flush: seq<bool>, bufferSize: nat) returns (sent: seq<Bytes>)
    requires |flush| == |vs| && (bufferSize == 0 || 10 <= bufferSize <= 65537)
    requires forall v | v in vs :: Accepted(v)
    ensures Feed(Awaiting([]), Flatten(sent)) == (Awaiting([]), Encodings(vs))
  {
    hide *;
    var ch := new Chunker(bufferSize);
    EncodingsUpTo(vs, 0);
    for k := 0 to |vs|
      invariant ch.Valid() && fresh(ch) && fresh(ch.buffer)
      invariant ch.pending == [] && ch.messages == Encodings(vs[..k])
    {
      EncodingsUpTo(vs, k);
      Pack(vs[k], ch);
      ch.MessageBoundary();
      if flush[k] {
        ch.Flush();
      }
    }
    EncodingsUpTo(vs, |vs|);
    ch.Flush();
    sent := ch.sent;
  }

  function Encodings(vs: seq<PackStream.Value>): (bs: seq<Bytes>)
    requires forall v | v in vs :: Accepted(v)
    ensures |bs| == |vs|
  {
    if vs == [] then [] else Encodings(vs[..|vs| - 1]) + [PackStream.Encode(vs[|vs| - 1])]
  }

  lemma EncodingsUpTo(vs: seq<PackStream.Value>, k: nat)
    requires k <= |vs| && forall v | v in vs :: Accepted(v)
    ensures forall v | v in vs[..k] :: v in vs
    ensures k == 0 ==> Encodings(vs[..k]) == []
    ensures k == |vs| ==> vs[..k] == vs
    ensures k < |vs| ==> vs[k] in vs && (forall v | v in vs[..k + 1] :: v in vs)
    ensures k < |vs| ==> Encodings(vs[..k + 1]) == Encodings(vs[..k]) + [[] + PackStream.Encode(vs[k])]
  {
    if k < |vs| {
      assert vs[..k + 1][..k] == vs[..k];
      assert [] + PackStream.Encode(vs[k]) == PackStream.Encode(vs[k]);
    }
  }

  /** Unpacks every delivered message. */
  method ReceiveAll(parts: seq<Bytes>) returns (received: seq<Result<PackStream.Value, Error>>)
    ensures var ms := Feed(Awaiting([]), Flatten(parts)).1;
            && |received| == |ms|
            && forall k :: 0 <= k < |ms| ==> received[k] == ValueOf(Unpack(ms[k]))
  {
    hide *;
    var delivered := RunDechunker(parts);
    ghost var ms := Feed(Awaiting([]), Flatten(parts)).1;
    received := [];
    ContentsAt(delivered, 0);
    for k := 0 to |delivered|
      invariant |received| == k
      invariant |ms| == |delivered|
      invariant forall j :: 0 <= j < k ==> received[j] == ValueOf(Unpack(ms[j]))
    {
      ContentsAt(delivered, k);
      var r := new Reader(Content(delivered[k]));
      var v := UnpackValue(r);
      MatchesValue(Unpack(ms[k]), v, r.Rest());
      received := received + [v];
    }
  }

  function ValueOf(r: Result<(PackStream.Value, Bytes), Error>): (q: Result<PackStream.Value, Error>)
  {
    match r
    case Err(e) => Err(e)
    case Ok((v, _)) => Ok(v)
  }

  lemma MatchesValue(spec: Result<(PackStream.Value, Bytes), Error>, res: Result<PackStream.Value, Error>, rest: Bytes)
    requires Matches(spec, res, rest)
    ensures res == ValueOf(spec)
  {}

  lemma {:induction false} ContentsAt(ms: seq<Message>, k: nat)
    ensures |Contents(ms)| == |ms|
    ensures k < |ms| ==> Contents(ms)[k] == Content(ms[k])
  {
    if ms != [] {
      ContentsAt(ms[..|ms| - 1], k);
    }
  }

  /**
    * Values packed at one end come out at the other, for every buffer size, every choice of flushes
    * and every way the network cuts the stream into pieces.
    */
  method Transmit(vs: seq<PackStream.Value>, flush: seq<bool>, bufferSize: nat, cut: seq<Bytes> -> seq<Bytes>)
    returns (received: seq<Result<PackStream.Value, Error>>)
    requires |flush| == |vs| && (bufferSize == 0 || 10 <= bufferSize <= 65537)
    requires forall v | v in vs :: Faithful(v)
    requires forall sent :: Flatten(cut(sent)) == Flatten(sent)
    ensures |received| == |vs|
    ensures forall k :: 0 <= k < |vs| ==> received[k] == Ok(vs[k])
  {
    hide *;
    forall v | v in vs ensures Accepted(v) { FaithfulIsAccepted(v); }
    var sent := SendAll(vs, flush, bufferSize);
    received := ReceiveAll(cut(sent));
    forall k | 0 <= k < |vs| ensures received[k] == Ok(vs[k]) {
      EncodingAt(vs, k);
      UnpackWhole(vs[k]);
    }
  }

  lemma {:induction false} EncodingAt(vs: seq<PackStream.Value>, k: nat)
    requires k < |vs| && forall v | v in vs :: Accepted(v)
    ensures vs[k] in vs && Encodings(vs)[k] == PackStream.Encode(vs[k])
  {
    if k < |vs| - 1 {
      EncodingAt(vs[..|vs| - 1], k);
    }
  }

  lemma UnpackWhole(v: PackStream.Value)
    requires Faithful(v) && Accepted(v)
    ensures ValueOf(Unpack(PackStream.Encode(v))) == Ok(v)
  {
    hide Unpack, PackStream.Encode;
    UnpackInvertsEncode(v, []);
    assert PackStream.Encode(v) + [] == PackStream.Encode(v);
  }
}
