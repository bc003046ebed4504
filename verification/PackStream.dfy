/**
  * PackStream, the binary form of Bolt values: a marker with a size, then the contents, nested to any
  * depth. Packing appends to a byte stream and unpacking reads from one, so what must hold is that a
  * packed value followed by anything reads back as that value, leaving exactly what followed.
  */
module PackStream {
  import opened Wrappers
  import opened JsNumber
  import opened JsText
  import opened Integer64
  import opened ByteReading
  import opened Utf8

  type Int8 = i: int | -128 <= i < 128

  /**
    * A map is its entries in key order of the object; `Graph` is a structure with the signature of a
    * node, relationship, unbound relationship or path, which the unpacker turns into such an object.
    */
  datatype Value =
    | Null
    | Bool(b: bool)
    | Int(i: Integer)
    | Float(bits: Bytes)
    | Text(s: Str)
    | Binary(bytes: seq<Int8>)
    | List(items: seq<Value>)
    | Map(entries: seq<Entry>)
    | Struct(signature: Byte, fields: seq<Value>)
    | Graph(signature: Byte, fields: seq<Value>)

  datatype Entry = Entry(key: Str, value: Value)

  datatype Error = OutOfBounds | UnknownMarker | WrongStructSize | NegativeSize | KeyNotText

  /** `__proto__`, which an assignment does not make a property of an object. */
  const PROTO: Str := [95, 95, 112, 114, 111, 116, 111, 95, 95]

  /** `__isInteger__`, by which the driver knows its integers. */
  const IS_INTEGER: Str := [95, 95, 105, 115, 73, 110, 116, 101, 103, 101, 114, 95, 95]

  // ---------------------------------------------------------------- fixed-width numbers

  function Be2(n: int): (bs: Bytes)
  {
    [n / 0x100 % 0x100, n % 0x100]
  }

  function Be4(n: int): (bs: Bytes)
  {
    [n / 0x100_0000 % 0x100, n / 0x1_0000 % 0x100, n / 0x100 % 0x100, n % 0x100]
  }

  /** The signed number of `8 * |bs|` bits. */
  function SInt(bs: Bytes, half: nat): (n: int)
  {
    var n := UInt(bs);
    if n >= half then n - 2 * half else n
  }

  lemma UInt2(a: Byte, b: Byte)
    ensures UInt([a, b]) == a as int * 0x100 + b
  {
    assert [a][..0] == [] && UInt([a]) == a;
    assert [a, b][..1] == [a];
  }

  lemma UInt4(a: Byte, b: Byte, c: Byte, d: Byte)
    ensures UInt([a, b, c, d]) == a as int * 0x100_0000 + b as int * 0x1_0000 + c as int * 0x100 + d
  {
    UInt2(a, b);
    assert [a, b, c][..2] == [a, b];
    assert UInt([a, b, c]) == UInt([a, b]) * 0x100 + c;
    assert [a, b, c, d][..3] == [a, b, c];
  }

  lemma ReadBe2(n: int)
    ensures 0 <= n < 0x1_0000 ==> UInt(Be2(n)) == n
    ensures -0x8000 <= n < 0x8000 ==> SInt(Be2(n), 0x8000) == n
  {
    UInt2(n / 0x100 % 0x100, n % 0x100);
    assert n == n / 0x1_0000 * 0x1_0000 + n / 0x100 % 0x100 * 0x100 + n % 0x100;
  }

  lemma ReadBe4(n: int)
    ensures 0 <= n < TWO_32 ==> UInt(Be4(n)) == n
    ensures -TWO_31 <= n < TWO_31 ==> SInt(Be4(n), TWO_31) == n
    ensures 0 <= n < TWO_31 ==> SInt(Be4(n), TWO_31) == n
  {
    hide UInt;
    UInt4(n / 0x100_0000 % 0x100, n / 0x1_0000 % 0x100, n / 0x100 % 0x100, n % 0x100);
    FourBytes(n);
  }

  lemma FourBytes(n: int)
    ensures n == n / TWO_32 * TWO_32 + n / 0x100_0000 % 0x100 * 0x100_0000 + n / 0x1_0000 % 0x100 * 0x1_0000
                 + n / 0x100 % 0x100 * 0x100 + n % 0x100
  {
    Nested(n, n / 0x100, 0x100);
    Nested(n, n / 0x1_0000, 0x1_0000);
    Nested(n, n / 0x100_0000, 0x100_0000);
  }

  lemma Nested(n: int, p: int, m: int)
    requires (m == 0x100 || m == 0x1_0000 || m == 0x100_0000) && p == n / m
    ensures p == n / (m * 0x100) * 0x100 + p % 0x100
  {}

  // ---------------------------------------------------------------- heads

  /** What a marker and the size after it say. */
  datatype Head =
    | NullHead
    | BoolHead(b: bool)
    | FloatHead
    | IntHead(i: Integer)
    | TextHead(size: int)
    | BinaryHead(size: int)
    | ListHead(size: int)
    | MapHead(size: int)
    | StructHead(size: int)

  /** Sizes up to 15 go into the marker, larger ones take one, two or four bytes after it. */
  function WriteSize(tiny: Byte, marker: Byte, n: nat): (bs: Bytes)
    requires tiny <= 0xF0 && marker <= 0xF0
  {
    if n < 16 && tiny > 0 then [tiny + n]
    else if n < 0x100 then [marker, n]
    else if n < 0x1_0000 then [marker + 1] + Be2(n)
    else [marker + 2] + Be4(n)
  }

  function WriteInt(x: Integer): (bs: Bytes)
  {
    var i := Integer64.Value(x);
    if -16 <= i < 128 then [x.low % 0x100]
    else if -128 <= i < -16 then [200, x.low % 0x100]
    else if -32768 <= i < 32768 then [201] + Be2(x.low)
    else if -TWO_31 <= i < TWO_31 then [202] + Be4(x.low)
    else [203] + (Be4(x.high) + Be4(x.low))
  }

  function WriteHead(h: Head): (bs: Bytes)
    requires (h.TextHead? || h.BinaryHead? || h.ListHead? || h.MapHead? || h.StructHead?) ==> h.size >= 0
  {
    match h
    case NullHead => [192]
    case BoolHead(b) => [if b then 195 else 194]
    case FloatHead => [193]
    case IntHead(i) => WriteInt(i)
    case TextHead(n) => WriteSize(128, 208, n)
    case BinaryHead(n) => WriteSize(0, 204, n)
    case ListHead(n) => WriteSize(144, 212, n)
    case MapHead(n) => WriteSize(160, 216, n)
    case StructHead(n) => WriteSize(176, 220, n)
  }

  /** The next `n` bytes and what follows them. */
  function Take(bs: Bytes, n: nat): (r: Result<(Bytes, Bytes), Error>)
    ensures r.Ok? ==> r.value.0 + r.value.1 == bs && |r.value.0| == n
  {
    if n > |bs| then Err(OutOfBounds) else Ok((bs[..n], bs[n..]))
  }

  function WithSize(r: Result<(Bytes, Bytes), Error>, make: Bytes -> Head): (h: Result<(Head, Bytes), Error>)
    ensures h.Ok? ==> r.Ok? && h.value.1 == r.value.1
  {
    if r.Ok? then Ok((make(r.value.0), r.value.1)) else Err(r.error)
  }

  /** A four-byte size is read with its sign. */
  function Size4(bs: Bytes): (n: int) { SInt(bs, TWO_31) }

  function ReadInt(m: Byte, rest: Bytes): (h: Result<(Head, Bytes), Error>)
    ensures h.Ok? ==> |h.value.1| <= |rest|
  {
    if m < 128 then Ok((IntHead(FromNumber(m)), rest))
    else if m >= 240 then Ok((IntHead(FromNumber(m - 256)), rest))
    else if m == 200 then WithSize(Take(rest, 1), b => IntHead(FromNumber(SInt(b, 128))))
    else if m == 201 then WithSize(Take(rest, 2), b => IntHead(FromNumber(SInt(b, 0x8000))))
    else if m == 202 then WithSize(Take(rest, 4), b => IntHead(FromNumber(SInt(b, TWO_31))))
    else if m == 203 then
      WithSize(Take(rest, 8), (b: Bytes) =>
        if |b| == 8 then IntHead(FromBits(SInt(b[4..], TWO_31), SInt(b[..4], TWO_31))) else NullHead)
    else Err(UnknownMarker)
  }

  function ReadHead(bs: Bytes): (h: Result<(Head, Bytes), Error>)
    ensures h.Ok? ==> |h.value.1| < |bs|
  {
    if bs == [] then Err(OutOfBounds)
    else
      var (m, rest) := (bs[0], bs[1..]);
      var (high, low) := (m / 16 * 16, m % 16);
      if m == 192 then Ok((NullHead, rest))
      else if m == 195 || m == 194 then Ok((BoolHead(m == 195), rest))
      else if m == 193 then Ok((FloatHead, rest))
      else if m < 128 || m >= 240 || 200 <= m <= 203 then ReadInt(m, rest)
      else if high == 128 then Ok((TextHead(low), rest))
      else if m == 208 then WithSize(Take(rest, 1), b => TextHead(UInt(b)))
      else if m == 209 then WithSize(Take(rest, 2), b => TextHead(UInt(b)))
      else if m == 210 then WithSize(Take(rest, 4), b => TextHead(Size4(b)))
      else if high == 144 then Ok((ListHead(low), rest))
      else if m == 212 then WithSize(Take(rest, 1), b => ListHead(UInt(b)))
      else if m == 213 then WithSize(Take(rest, 2), b => ListHead(UInt(b)))
      else if m == 214 then WithSize(Take(rest, 4), b => ListHead(Size4(b)))
      else if m == 204 then WithSize(Take(rest, 1), b => BinaryHead(UInt(b)))
      else if m == 205 then WithSize(Take(rest, 2), b => BinaryHead(UInt(b)))
      else if m == 206 then WithSize(Take(rest, 4), b => BinaryHead(Size4(b)))
      else if high == 160 then Ok((MapHead(low), rest))
      else if m == 216 then WithSize(Take(rest, 1), b => MapHead(UInt(b)))
      else if m == 217 then WithSize(Take(rest, 2), b => MapHead(UInt(b)))
      else if m == 218 then WithSize(Take(rest, 4), b => MapHead(Size4(b)))
      else if high == 176 then Ok((StructHead(low), rest))
      else if m == 220 then WithSize(Take(rest, 1), b => StructHead(UInt(b)))
      else if m == 221 then WithSize(Take(rest, 2), b => StructHead(UInt(b)))
      else Err(UnknownMarker)
  }

  // ---------------------------------------------------------------- heads read back

  lemma TakeExactly(a: Bytes, rest: Bytes)
    ensures Take(a + rest, |a|) == Ok((a, rest))
  {
    assert (a + rest)[..|a|] == a && (a + rest)[|a|..] == rest;
  }

  predicate Packable(h: Head)
  {
    ((h.TextHead? || h.BinaryHead? || h.ListHead? || h.MapHead?) ==> 0 <= h.size < TWO_31)
    && (h.StructHead? ==> 0 <= h.size < 0x1_0000)
  }

  /** A marker followed by the bytes `a` of a size and the rest. */
  lemma Marked(m: Byte, a: Bytes, rest: Bytes)
    ensures var bs := [m] + a + rest; bs != [] && bs[0] == m && bs[1..] == a + rest
    ensures Take(([m] + a + rest)[1..], |a|) == Ok((a, rest))
  {
    assert ([m] + a + rest)[1..] == a + rest;
    TakeExactly(a, rest);
  }

  lemma SizeBytes(n: nat)
    ensures n < 0x100 ==> UInt([n]) == n
    ensures n < 0x1_0000 ==> UInt(Be2(n)) == n
    ensures n < TWO_31 ==> Size4(Be4(n)) == n
  {
    ReadBe2(n);
    ReadBe4(n);
    if n < 0x100 {
      assert [n][..0] == [];
    }
  }

  lemma ReadTextHead(n: nat, rest: Bytes)
    requires n < TWO_31
    ensures ReadHead(WriteSize(128, 208, n) + rest) == Ok((TextHead(n), rest))
  {
    hide UInt, SInt, Be2, Be4, ReadInt, Take, Size4;
    SizeBytes(n);
    if n < 16 {
      assert ([128 + n] + rest)[1..] == rest;
    } else if n < 0x100 {
      assert [208, n] == [208] + [n];
      Marked(208, [n], rest);
    } else if n < 0x1_0000 {
      Lengths(n);
      Marked(209, Be2(n), rest);
    } else {
      Lengths(n);
      Marked(210, Be4(n), rest);
    }
  }

  lemma ReadBinaryHead(n: nat, rest: Bytes)
    requires n < TWO_31
    ensures ReadHead(WriteSize(0, 204, n) + rest) == Ok((BinaryHead(n), rest))
  {
    hide UInt, SInt, Be2, Be4, ReadInt, Take, Size4;
    SizeBytes(n);
    if n < 0x100 {
      assert [204, n] == [204] + [n];
      Marked(204, [n], rest);
    } else if n < 0x1_0000 {
      Lengths(n);
      Marked(205, Be2(n), rest);
    } else {
      Lengths(n);
      Marked(206, Be4(n), rest);
    }
  }

  lemma ReadListHead(n: nat, rest: Bytes)
    requires n < TWO_31
    ensures ReadHead(WriteSize(144, 212, n) + rest) == Ok((ListHead(n), rest))
  {
    hide UInt, SInt, Be2, Be4, ReadInt, Take, Size4;
    SizeBytes(n);
    if n < 16 {
      assert ([144 + n] + rest)[1..] == rest;
    } else if n < 0x100 {
      assert [212, n] == [212] + [n];
      Marked(212, [n], rest);
    } else if n < 0x1_0000 {
      Lengths(n);
      Marked(213, Be2(n), rest);
    } else {
      Lengths(n);
      Marked(214, Be4(n), rest);
    }
  }

  lemma ReadMapHead(n: nat, rest: Bytes)
    requires n < TWO_31
    ensures ReadHead(WriteSize(160, 216, n) + rest) == Ok((MapHead(n), rest))
  {
    hide UInt, SInt, Be2, Be4, ReadInt, Take, Size4;
    SizeBytes(n);
    if n < 16 {
      assert ([160 + n] + rest)[1..] == rest;
    } else if n < 0x100 {
      assert [216, n] == [216] + [n];
      Marked(216, [n], rest);
    } else if n < 0x1_0000 {
      Lengths(n);
      Marked(217, Be2(n), rest);
    } else {
      Lengths(n);
      Marked(218, Be4(n), rest);
    }
  }

  lemma ReadStructHead(n: nat, rest: Bytes)
    requires n < 0x1_0000
    ensures ReadHead(WriteSize(176, 220, n) + rest) == Ok((StructHead(n), rest))
  {
    hide UInt, SInt, Be2, Be4, ReadInt, Take, Size4;
    SizeBytes(n);
    if n < 16 {
      assert ([176 + n] + rest)[1..] == rest;
    } else if n < 0x100 {
      assert [220, n] == [220] + [n];
      Marked(220, [n], rest);
    } else {
      Lengths(n);
      Marked(221, Be2(n), rest);
    }
  }

  lemma Lengths(n: int)
    ensures |Be2(n)| == 2 && |Be4(n)| == 4
  {}

  lemma LowHalf(x: Integer)
    requires -TWO_31 <= Integer64.Value(x) < TWO_31
    ensures x.low == Integer64.Value(x)
  {
    ToInt32Unsigned(x.low);
  }

  lemma OneByte(n: int)
    ensures -128 <= n < 128 ==> SInt([n % 0x100], 128) == n
  {
    var b: Byte := n % 0x100;
    assert [b][..0] == [];
    assert UInt([b]) == UInt([]) * 0x100 + b;
  }

  lemma IntBytes(x: Integer)
    ensures SInt(Be4(x.low), TWO_31) == x.low && SInt(Be4(x.high), TWO_31) == x.high
    ensures FromBits(x.low, x.high) == x
    ensures -0x8000 <= x.low < 0x8000 ==> SInt(Be2(x.low), 0x8000) == x.low
    ensures -128 <= x.low < 128 ==> SInt([x.low % 0x100], 128) == x.low
  {
    hide UInt, SInt, Be2, Be4, ToInt32;
    ReadBe4(x.low);
    ReadBe4(x.high);
    ReadBe2(x.low);
    ToInt32Id(x.low);
    ToInt32Id(x.high);
    OneByte(x.low);
  }

  lemma ReadIntHead(x: Integer, rest: Bytes)
    ensures ReadHead(WriteInt(x) + rest) == Ok((IntHead(x), rest))
  {
    hide UInt, SInt, Be2, Be4, Take, FromNumber, FromBits, ToInt32;
    var i := Integer64.Value(x);
    FromValueInverse(x);
    IntBytes(x);
    Lengths(x.low);
    Lengths(x.high);
    if -TWO_31 <= i < TWO_31 {
      LowHalf(x);
    }
    if -16 <= i < 128 {
      assert ([x.low % 0x100] + rest)[1..] == rest;
    } else if -128 <= i < -16 {
      assert [200, x.low % 0x100] == [200] + [x.low % 0x100];
      Marked(200, [x.low % 0x100], rest);
    } else if -32768 <= i < 32768 {
      Marked(201, Be2(x.low), rest);
    } else if -TWO_31 <= i < TWO_31 {
      Marked(202, Be4(x.low), rest);
    } else {
      var a := Be4(x.high) + Be4(x.low);
      Marked(203, a, rest);
      assert a[..4] == Be4(x.high) && a[4..] == Be4(x.low);
    }
  }

  /** Every head that can be written reads back, leaving what follows it. */
  lemma HeadRoundTrip(h: Head, rest: Bytes)
    requires Packable(h)
    ensures ReadHead(WriteHead(h) + rest) == Ok((h, rest))
  {
    hide ReadHead, WriteSize, WriteInt;
    match h
    case NullHead => SimpleHead(192, rest);
    case BoolHead(b) => SimpleHead(if b then 195 else 194, rest);
    case FloatHead => SimpleHead(193, rest);
    case IntHead(i) => ReadIntHead(i, rest);
    case TextHead(n) => ReadTextHead(n, rest);
    case BinaryHead(n) => ReadBinaryHead(n, rest);
    case ListHead(n) => ReadListHead(n, rest);
    case MapHead(n) => ReadMapHead(n, rest);
    case StructHead(n) => ReadStructHead(n, rest);
  }

  lemma SimpleHead(m: Byte, rest: Bytes)
    requires 192 <= m <= 195
    ensures ReadHead([m] + rest)
         == Ok((if m == 192 then NullHead else if m == 193 then FloatHead else BoolHead(m == 195), rest))
  {
    assert ([m] + rest)[1..] == rest;
  }

  // ---------------------------------------------------------------- packing

  function HeadOf(v: Value): (h: Head)
    requires !v.Graph?
  {
    match v
    case Null => NullHead
    case Bool(b) => BoolHead(b)
    case Int(i) => IntHead(i)
    case Float(_) => FloatHead
    case Text(s) => TextHead(|Utf8.Encode(s)|)
    case Binary(bytes) => BinaryHead(|bytes|)
    case List(items) => ListHead(|items|)
    case Map(entries) => MapHead(|entries|)
    case Struct(_, fields) => StructHead(|fields|)
  }

  /** `isInt`, which is asked before the object case: an integer, or an object that says it is one. */
  predicate IsInt(v: Value)
  {
    v.Int? || (v.Map? && Entry(IS_INTEGER, Bool(true)) in v.entries)
  }

  /**
    * What the packer takes: no graph objects, no objects that pass for integers, floats of eight bytes, and
    * sizes it has markers for.
    */
  predicate Accepted(v: Value)
  {
    match v
    case Float(bits) => |bits| == 8
    case Text(s) => |Utf8.Encode(s)| < TWO_32
    case Binary(bytes) => |bytes| < TWO_32
    case List(items) => |items| < TWO_32 && forall x | x in items :: Accepted(x)
    case Map(entries) =>
      && !IsInt(v) && |entries| < TWO_32
      && forall e | e in entries :: |Utf8.Encode(e.key)| < TWO_32 && Accepted(e.value)
    case Struct(_, fields) => |fields| < 0x1_0000 && forall x | x in fields :: Accepted(x)
    case Graph(_, _) => false
    case _ => true
  }

  function ToBytes(bytes: seq<Int8>): (bs: Bytes)
    ensures |bs| == |bytes|
  {
    if bytes == [] then [] else [bytes[0] as int % 0x100] + ToBytes(bytes[1..])
  }

  function EncodeText(s: Str): (bs: Bytes)
  {
    WriteHead(TextHead(|Utf8.Encode(s)|)) + Utf8.Encode(s)
  }

  function Encode(v: Value): (bs: Bytes)
    requires Accepted(v)
    decreases v, 0
  {
    var head := WriteHead(HeadOf(v));
    match v
    case Float(bits) => head + bits
    case Text(s) => EncodeText(s)
    case Binary(bytes) => head + ToBytes(bytes)
    case List(items) => head + EncodeMany(items)
    case Map(entries) => head + EncodeEntries(entries)
    case Struct(signature, fields) =>
      head + ((if |fields| < 0x100 then [signature] else []) + EncodeMany(fields))
    case _ => head
  }

  function EncodeMany(vs: seq<Value>): (bs: Bytes)
    requires forall x | x in vs :: Accepted(x)
    decreases vs, 1
  {
    if vs == [] then [] else Encode(vs[0]) + EncodeMany(vs[1..])
  }

  function EncodeEntries(es: seq<Entry>): (bs: Bytes)
    requires forall e | e in es :: |Utf8.Encode(e.key)| < TWO_32 && Accepted(e.value)
    decreases es, 1
  {
    if es == [] then [] else EncodeText(es[0].key) + (Encode(es[0].value) + EncodeEntries(es[1..]))
  }

  // ---------------------------------------------------------------- unpacking

  function FromBytes(bs: Bytes): (bytes: seq<Int8>)
    ensures |bytes| == |bs|
  {
    if bs == [] then [] else [if bs[0] >= 128 then bs[0] as int - 256 else bs[0]] + FromBytes(bs[1..])
  }

  /** Number of fields the driver demands of the structures it turns into graph objects. */
  function GraphSize(signature: Byte): (n: int)
  {
    if signature == 0x4E || signature == 0x72 || signature == 0x50 then 3 else if signature == 0x52 then 5 else -1
  }

  /** Sets a key of an object: a new key goes to the end, `__proto__` nowhere. */
  function SetKey(es: seq<Entry>, key: Str, v: Value): (r: seq<Entry>)
  {
    if key == PROTO then es
    else if es == [] then [Entry(key, v)]
    else if es[0].key == key then [Entry(key, v)] + es[1..]
    else [es[0]] + SetKey(es[1..], key, v)
  }

  /** A text that is longer than what is left of the buffer is cut short; anything else fails. */
  function Unpack(bs: Bytes): (r: Result<(Value, Bytes), Error>)
    ensures r.Ok? ==> |r.value.1| < |bs|
    decreases |bs|, 0, 0
  {
    match ReadHead(bs)
    case Err(e) => Err(e)
    case Ok((head, rest)) =>
      match head
      case NullHead => Ok((Null, rest))
      case BoolHead(b) => Ok((Bool(b), rest))
      case IntHead(i) => Ok((Int(i), rest))
      case FloatHead =>
        (match Take(rest, 8) case Err(e) => Err(e) case Ok((bits, rest')) => Ok((Float(bits), rest')))
      case TextHead(n) =>
        if n < 0 then Err(NegativeSize)
        else
          var m := if n < |rest| then n else |rest|;
          Ok((Text(Utf8.Decode(rest[..m], false).value), rest[m..]))
      case BinaryHead(n) =>
        if n < 0 then Err(NegativeSize)
        else (match Take(rest, n)
              case Err(e) => Err(e)
              case Ok((bytes, rest')) => Ok((Binary(FromBytes(bytes)), rest')))
      case ListHead(n) =>
        (match UnpackMany(n, rest) case Err(e) => Err(e) case Ok((vs, rest')) => Ok((List(vs), rest')))
      case MapHead(n) =>
        (match UnpackEntries(n, rest, []) case Err(e) => Err(e) case Ok((es, rest')) => Ok((Map(es), rest')))
      case StructHead(n) =>
        if rest == [] then Err(OutOfBounds)
        else if GraphSize(rest[0]) >= 0 && GraphSize(rest[0]) != n then Err(WrongStructSize)
        else (match UnpackMany(n, rest[1..])
              case Err(e) => Err(e)
              case Ok((vs, rest')) =>
                Ok((if GraphSize(rest[0]) >= 0 then Graph(rest[0], vs) else Struct(rest[0], vs), rest')))
  }

  function UnpackMany(n: int, bs: Bytes): (r: Result<(seq<Value>, Bytes), Error>)
    ensures r.Ok? ==> |r.value.1| <= |bs|
    decreases |bs|, 1, n
  {
    if n <= 0 then Ok(([], bs))
    else
      match Unpack(bs)
      case Err(e) => Err(e)
      case Ok((v, rest)) =>
        match UnpackMany(n - 1, rest)
        case Err(e) => Err(e)
        case Ok((vs, rest')) => Ok(([v] + vs, rest'))
  }

  function UnpackEntries(n: int, bs: Bytes, es: seq<Entry>): (r: Result<(seq<Entry>, Bytes), Error>)
    ensures r.Ok? ==> |r.value.1| <= |bs|
    decreases |bs|, 1, n
  {
    if n <= 0 then Ok((es, bs))
    else
      match Unpack(bs)
      case Err(e) => Err(e)
      case Ok((k, rest)) =>
        match Unpack(rest)
        case Err(e) => Err(e)
        case Ok((v, rest')) =>
          if !k.Text? then Err(KeyNotText) else UnpackEntries(n - 1, rest', SetKey(es, k.s, v))
  }

  // ---------------------------------------------------------------- the round trip

  predicate PlainText(s: Str)
  {
    Paired(s) && !(s != [] && s[0] == BOM) && |Utf8.Encode(s)| < TWO_31
  }

  predicate DistinctKeys(es: seq<Entry>)
  {
    forall i, j :: 0 <= i < j < |es| ==> es[i].key != es[j].key
  }

  /**
    * The values that come back: sizes that read as positive numbers, texts that UTF-8 keeps, maps whose
    * keys can be set, and structures with fewer than 256 fields that are not graph objects.
    */
  predicate Faithful(v: Value)
  {
    match v
    case Float(bits) => |bits| == 8
    case Text(s) => PlainText(s)
    case Binary(bytes) => |bytes| < TWO_31
    case List(items) => |items| < TWO_31 && forall x | x in items :: Faithful(x)
    case Map(entries) =>
      && !IsInt(v) && |entries| < TWO_31 && DistinctKeys(entries)
      && forall e | e in entries :: PlainText(e.key) && e.key != PROTO && Faithful(e.value)
    case Struct(signature, fields) =>
      |fields| < 0x100 && GraphSize(signature) < 0 && forall x | x in fields :: Faithful(x)
    case Graph(_, _) => false
    case _ => true
  }

  lemma FaithfulIsAccepted(v: Value)
    requires Faithful(v)
    ensures Accepted(v)
  {}

  lemma {:induction false} ToFromBytes(bytes: seq<Int8>)
    ensures FromBytes(ToBytes(bytes)) == bytes
  {
    if bytes != [] {
      ToFromBytes(bytes[1..]);
      var b := bytes[0] as int % 0x100;
      assert (if b >= 128 then b - 256 else b) == bytes[0];
    }
  }

  lemma UnpackText(s: Str, rest: Bytes)
    requires PlainText(s)
    ensures Unpack(EncodeText(s) + rest) == Ok((Text(s), rest))
  {
    hide ReadHead, WriteHead, Take, Paired;
    var u := Utf8.Encode(s);
    HeadRoundTrip(TextHead(|u|), u + rest);
    assert EncodeText(s) + rest == WriteHead(TextHead(|u|)) + (u + rest);
    TakeExactly(u, rest);
    TextRoundTrip(s);
  }

  lemma {:induction false} UnpackInvertsEncode(v: Value, rest: Bytes)
    requires Faithful(v)
    ensures Accepted(v) && Unpack(Encode(v) + rest) == Ok((v, rest))
    decreases v, 0
  {
    hide ReadHead, WriteHead, Unpack, Accepted, Paired, EncodeText, HeadOf;
    FaithfulIsAccepted(v);
    match v
    case Null => UnpackPlain(v, rest);
    case Bool(_) => UnpackPlain(v, rest);
    case Int(_) => UnpackPlain(v, rest);
    case Float(bits) => UnpackFloat(bits, rest);
    case Text(s) => UnpackText(s, rest);
    case Binary(bytes) => UnpackBinary(bytes, rest);
    case List(items) =>
      ItemsAccepted(v, items);
      UnpackItems(items, rest);
      UnpackList(items, EncodeMany(items), rest);
    case Map(entries) =>
      EntriesAccepted(entries);
      assert [] + entries == entries;
      UnpackInvertsEntries(entries, rest, []);
      UnpackMap(entries, EncodeEntries(entries), rest);
    case Struct(signature, fields) =>
      ItemsAccepted(v, fields);
      UnpackItems(fields, rest);
      UnpackStruct(signature, fields, EncodeMany(fields), rest);
  }

  lemma UnpackPlain(v: Value, rest: Bytes)
    requires v.Null? || v.Bool? || v.Int?
    ensures Unpack(WriteHead(HeadOf(v)) + rest) == Ok((v, rest))
  {
    hide ReadHead, WriteHead;
    HeadRoundTrip(HeadOf(v), rest);
  }

  lemma ItemsAccepted(v: Value, items: seq<Value>)
    requires forall x | x in items :: Faithful(x)
    ensures forall x | x in items :: Accepted(x)
  {
    forall x | x in items ensures Accepted(x) { FaithfulIsAccepted(x); }
  }

  lemma EntriesAccepted(es: seq<Entry>)
    requires forall e | e in es :: PlainText(e.key) && e.key != PROTO && Faithful(e.value)
    ensures forall e | e in es :: |Utf8.Encode(e.key)| < TWO_32 && Accepted(e.value)
  {
    forall e | e in es ensures Accepted(e.value) { FaithfulIsAccepted(e.value); }
  }

  lemma UnpackFloat(bits: Bytes, rest: Bytes)
    requires |bits| == 8
    ensures HeadOf(Float(bits)) == FloatHead
    ensures Unpack(WriteHead(FloatHead) + bits + rest) == Ok((Float(bits), rest))
  {
    hide ReadHead, WriteHead, Take;
    HeadRoundTrip(FloatHead, bits + rest);
    assert WriteHead(FloatHead) + bits + rest == WriteHead(FloatHead) + (bits + rest);
    TakeExactly(bits, rest);
  }

  lemma UnpackBinary(bytes: seq<Int8>, rest: Bytes)
    requires |bytes| < TWO_31
    ensures HeadOf(Binary(bytes)) == BinaryHead(|bytes|)
    ensures Unpack(WriteHead(BinaryHead(|bytes|)) + ToBytes(bytes) + rest) == Ok((Binary(bytes), rest))
  {
    hide ReadHead, WriteHead, Take;
    var (h, b) := (BinaryHead(|bytes|), ToBytes(bytes));
    HeadRoundTrip(h, b + rest);
    assert WriteHead(h) + b + rest == WriteHead(h) + (b + rest);
    TakeExactly(b, rest);
    ToFromBytes(bytes);
  }

  lemma UnpackList(items: seq<Value>, body: Bytes, rest: Bytes)
    requires |items| < TWO_31 && UnpackMany(|items|, body + rest) == Ok((items, rest))
    ensures HeadOf(List(items)) == ListHead(|items|)
    ensures Unpack(WriteHead(ListHead(|items|)) + body + rest) == Ok((List(items), rest))
  {
    hide ReadHead, WriteHead, UnpackMany;
    var h := ListHead(|items|);
    HeadRoundTrip(h, body + rest);
    assert WriteHead(h) + body + rest == WriteHead(h) + (body + rest);
  }

  lemma UnpackMap(entries: seq<Entry>, body: Bytes, rest: Bytes)
    requires |entries| < TWO_31 && UnpackEntries(|entries|, body + rest, []) == Ok((entries, rest))
    ensures HeadOf(Map(entries)) == MapHead(|entries|)
    ensures Unpack(WriteHead(MapHead(|entries|)) + body + rest) == Ok((Map(entries), rest))
  {
    hide ReadHead, WriteHead, UnpackEntries;
    var h := MapHead(|entries|);
    HeadRoundTrip(h, body + rest);
    assert WriteHead(h) + body + rest == WriteHead(h) + (body + rest);
  }

  lemma UnpackStruct(signature: Byte, fields: seq<Value>, body: Bytes, rest: Bytes)
    requires |fields| < 0x100 && GraphSize(signature) < 0
    requires UnpackMany(|fields|, body + rest) == Ok((fields, rest))
    ensures HeadOf(Struct(signature, fields)) == StructHead(|fields|)
    ensures Unpack(WriteHead(StructHead(|fields|)) + ([signature] + body) + rest)
         == Ok((Struct(signature, fields), rest))
  {
    hide ReadHead, WriteHead, UnpackMany;
    var h := StructHead(|fields|);
    var tail := [signature] + (body + rest);
    HeadRoundTrip(h, tail);
    assert WriteHead(h) + ([signature] + body) + rest == WriteHead(h) + tail;
    assert tail[1..] == body + rest;
  }

  lemma {:induction false} UnpackItems(vs: seq<Value>, rest: Bytes)
    requires forall x | x in vs :: Faithful(x)
    requires forall x | x in vs :: Accepted(x)
    ensures UnpackMany(|vs|, EncodeMany(vs) + rest) == Ok((vs, rest))
    decreases vs, 1
  {
    hide Accepted, Faithful, Encode, Unpack;
    if vs == [] {
      assert [] + rest == rest;
    } else {
      var tail := EncodeMany(vs[1..]) + rest;
      UnpackInvertsEncode(vs[0], tail);
      UnpackItems(vs[1..], rest);
      assert EncodeMany(vs) + rest == Encode(vs[0]) + tail;
      assert vs == [vs[0]] + vs[1..];
    }
  }

  lemma {:induction false} UnpackInvertsEntries(es: seq<Entry>, rest: Bytes, before: seq<Entry>)
    requires forall e | e in es :: PlainText(e.key) && e.key != PROTO && Faithful(e.value)
    requires forall e | e in es :: |Utf8.Encode(e.key)| < TWO_32 && Accepted(e.value)
    requires DistinctKeys(before + es)
    ensures UnpackEntries(|es|, EncodeEntries(es) + rest, before) == Ok((before + es, rest))
    decreases es, 1
  {
    hide Accepted, Faithful, Encode, Unpack, EncodeText, PlainText, DistinctKeys, Utf8.Encode;
    if es == [] {
      assert [] + rest == rest && before + [] == before;
    } else {
      var e, tail := es[0], EncodeEntries(es[1..]) + rest;
      UnpackText(e.key, Encode(e.value) + tail);
      UnpackInvertsEncode(e.value, tail);
      assert EncodeEntries(es) + rest == EncodeText(e.key) + (Encode(e.value) + tail);
      assert before + es == before + [e] + es[1..];
      UnpackOneEntry(|es|, EncodeText(e.key), Encode(e.value), tail, e, before, es[1..]);
      UnpackInvertsEntries(es[1..], rest, before + [e]);
      assert before + [e] + es[1..] == before + es;
    }
  }

  lemma UnpackOneEntry(n: nat, key: Bytes, value: Bytes, tail: Bytes, e: Entry, before: seq<Entry>, after: seq<Entry>)
    requires n > 0 && DistinctKeys(before + [e] + after) && e.key != PROTO
    requires Unpack(key + (value + tail)) == Ok((Text(e.key), value + tail))
    requires Unpack(value + tail) == Ok((e.value, tail))
    ensures UnpackEntries(n, key + (value + tail), before) == UnpackEntries(n - 1, tail, before + [e])
  {
    hide Unpack;
    var all := before + [e] + after;
    assert all[|before|] == e;
    assert forall k :: 0 <= k < |before| ==> all[k] == before[k];
    SetNewKey(before, e.key, e.value);
  }

  lemma {:induction false} SetNewKey(es: seq<Entry>, key: Str, v: Value)
    requires key != PROTO && forall k :: 0 <= k < |es| ==> es[k].key != key
    ensures SetKey(es, key, v) == es + [Entry(key, v)]
  {
    if es != [] {
      SetNewKey(es[1..], key, v);
    }
  }
}
