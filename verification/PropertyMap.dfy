/**
  * The tagged binary format of property maps: a count, then for every entry its key and a value, where
  * the sign of the value's tag tells arrays from scalars. Numbers are big-endian.
  */
module PropertyMap {
  import opened Wrappers
  import opened JsNumber
  import opened ByteReading

  /** What the element type of a scalar or an array can be, besides text. */
  datatype Kind = IntKind | LongKind | DoubleKind | FloatKind | BooleanKind

  /** `n` is the number itself, for floating point the bits that stand for it, for booleans zero or one. */
  datatype Value =
    | Null
    | Scalar(kind: Kind, n: int)
    | Text(s: string)
    | Numbers(kind: Kind, items: seq<int>)
    | Texts(strings: seq<string>)
    | Unsupported

  datatype Error = NullPointer | IndexOutOfBounds | NegativeSize

  /** The platform's charset. */
  datatype Charset = Charset(encode: string -> Bytes, decode: Bytes -> string)

  const STRING_ID: Byte := 1

  function Tag(k: Kind): (t: Byte)
    ensures 2 <= t <= 6
  {
    match k
    case IntKind => 2
    case LongKind => 3
    case DoubleKind => 4
    case FloatKind => 5
    case BooleanKind => 6
  }

  function KindOf(tag: int): (k: Option<Kind>)
  {
    if tag == 2 then Some(IntKind)
    else if tag == 3 then Some(LongKind)
    else if tag == 4 then Some(DoubleKind)
    else if tag == 5 then Some(FloatKind)
    else if tag == 6 then Some(BooleanKind)
    else None
  }

  /** The tag of an array is the negated tag of its elements, as a byte. */
  function ArrayTag(t: Byte): (b: Byte)
    requires t > 0
  {
    256 - t
  }

  function Signed(b: Byte): (n: int) { if b < 128 then b else b - 256 }

  function Width(k: Kind): (w: nat)
  {
    match k
    case IntKind => 4
    case LongKind => 8
    case DoubleKind => 8
    case FloatKind => 4
    case BooleanKind => 1
  }

  /** The numbers a kind has. */
  predicate InRange(k: Kind, n: int)
  {
    match k
    case IntKind => -TWO_31 <= n < TWO_31
    case LongKind => -TWO_63 <= n < TWO_63
    case DoubleKind => 0 <= n < TWO_64
    case FloatKind => 0 <= n < TWO_32
    case BooleanKind => 0 <= n < 2
  }

  // ---------------------------------------------------------------- numbers

  function BigEndian(n: nat, w: nat): (bs: Bytes)
    ensures |bs| == w
    decreases w
  {
    if w == 0 then [] else BigEndian(n / 256, w - 1) + [n % 256]
  }

  function Bound(w: nat): (n: nat) { if w == 0 then 1 else Bound(w - 1) * 256 }

  lemma {:induction false} BigEndianInverse(n: nat, w: nat)
    requires n < Bound(w)
    ensures UInt(BigEndian(n, w)) == n
    decreases w
  {
    if w > 0 {
      var q := n / 256;
      assert q < Bound(w - 1);
      BigEndianInverse(q, w - 1);
      var bs := BigEndian(n, w);
      assert bs[..w - 1] == BigEndian(q, w - 1);
    }
  }

  lemma Bounds()
    ensures Bound(1) == 256 && Bound(4) == TWO_32 && Bound(8) == TWO_64
  {
    assert Bound(2) == 65536 && Bound(3) == 0x1_00_0000;
    assert Bound(5) == 0x100_0000_0000 && Bound(6) == 0x1_0000_0000_0000 && Bound(7) == 0x100_0000_0000_0000;
  }

  /** Negative numbers as two's complement. */
  function Unsigned(k: Kind, n: int): (u: nat)
    requires InRange(k, n)
  {
    if n >= 0 then n else if k == IntKind then n + TWO_32 else n + TWO_64
  }

  function Interpret(k: Kind, u: nat): (n: int)
  {
    match k
    case IntKind => if u >= TWO_31 then u - TWO_32 else u
    case LongKind => if u >= TWO_63 then u - TWO_64 else u
    case DoubleKind => u
    case FloatKind => u
    case BooleanKind => if u != 0 then 1 else 0
  }

  function Field(k: Kind, n: int): (bs: Bytes)
    requires InRange(k, n)
    ensures |bs| == Width(k)
  {
    BigEndian(Unsigned(k, n), Width(k))
  }

  /** What a field of `Width(k)` bytes says. */
  function FieldValue(k: Kind, bs: Bytes): (n: int) { Interpret(k, UInt(bs)) }

  lemma FieldRoundTrip(k: Kind, n: int)
    requires InRange(k, n)
    ensures FieldValue(k, Field(k, n)) == n
  {
    Bounds();
    BigEndianInverse(Unsigned(k, n), Width(k));
  }

  // ---------------------------------------------------------------- the writer

  function Fields(k: Kind, items: seq<int>): (bs: Bytes)
    requires forall i :: 0 <= i < |items| ==> InRange(k, items[i])
    ensures |bs| == Width(k) * |items|
  {
    if items == [] then [] else
      var r := Field(k, items[0]) + Fields(k, items[1..]);
      assert Width(k) * |items| == Width(k) + Width(k) * (|items| - 1);
      r
  }

  function Size(n: nat): (bs: Bytes)
    requires n < TWO_31
  {
    Field(IntKind, n)
  }

  /** `_writeStringEx` */
  function WriteString(s: string, cs: Charset): (bs: Bytes)
    requires |cs.encode(s)| < TWO_31
  {
    [STRING_ID] + Size(|cs.encode(s)|) + cs.encode(s)
  }

  function WriteStrings(ss: seq<string>, cs: Charset): (bs: Bytes)
    requires forall i :: 0 <= i < |ss| ==> |cs.encode(ss[i])| < TWO_31
  {
    if ss == [] then [] else WriteString(ss[0], cs) + WriteStrings(ss[1..], cs)
  }

  /** What a Java object can be: arrays and byte strings have fewer than 2^31 elements. */
  ghost predicate IsObject(v: Value, cs: Charset)
  {
    match v
    case Null => true
    case Scalar(k, n) => InRange(k, n)
    case Text(s) => |cs.encode(s)| < TWO_31
    case Numbers(k, items) => |items| < TWO_31 && forall i :: 0 <= i < |items| ==> InRange(k, items[i])
    case Texts(ss) => |ss| < TWO_31 && forall i :: 0 <= i < |ss| ==> |cs.encode(ss[i])| < TWO_31
    case Unsupported => true
  }

  /** `writeAny`. Strings in an array keep their tags, under the tag of a boolean array. */
  ghost function WriteAny(v: Value, cs: Charset): (r: Result<Bytes, Error>)
    requires IsObject(v, cs)
  {
    match v
    case Null => Err(NullPointer)
    case Scalar(k, n) => Ok([Tag(k)] + Field(k, n))
    case Text(s) => Ok(WriteString(s, cs))
    case Numbers(k, items) =>
      if items == [] then Err(IndexOutOfBounds) else Ok([ArrayTag(Tag(k))] + Size(|items|) + Fields(k, items))
    case Texts(ss) =>
      if ss == [] then Err(IndexOutOfBounds) else Ok([ArrayTag(Tag(BooleanKind))] + Size(|ss|) + WriteStrings(ss, cs))
    case Unsupported => Ok([])
  }

  datatype Entry = Entry(key: int, value: Value)

  ghost predicate AreEntries(es: seq<Entry>, cs: Charset)
  {
    |es| < TWO_31 && forall i :: 0 <= i < |es| ==> InRange(IntKind, es[i].key) && IsObject(es[i].value, cs)
  }

  ghost function WriteEntries(es: seq<Entry>, cs: Charset): (r: Result<Bytes, Error>)
    requires AreEntries(es, cs)
  {
    if es == [] then Ok([])
    else
      match WriteAny(es[0].value, cs)
      case Err(e) => Err(e)
      case Ok(v) =>
        match WriteEntries(es[1..], cs)
        case Err(e) => Err(e)
        case Ok(tail) => Ok(Field(IntKind, es[0].key) + v + tail)
  }

  /** `writeMap`, the entries being those of the map in the order in which it is visited. */
  ghost function WriteMap(es: seq<Entry>, cs: Charset): (r: Result<Bytes, Error>)
    requires AreEntries(es, cs)
  {
    match WriteEntries(es, cs)
    case Err(e) => Err(e)
    case Ok(bs) => Ok(Size(|es|) + bs)
  }

  // ---------------------------------------------------------------- the reader

  function ReadNumber(k: Kind, bs: Bytes): (r: Result<(int, Bytes), Error>)
  {
    if |bs| < Width(k) then Err(IndexOutOfBounds) else Ok((FieldValue(k, bs[..Width(k)]), bs[Width(k)..]))
  }

  function ReadNumbers(k: Kind, n: nat, bs: Bytes): (r: Result<(seq<int>, Bytes), Error>)
    decreases n
  {
    if n == 0 then Ok(([], bs))
    else
      match ReadNumber(k, bs)
      case Err(e) => Err(e)
      case Ok(first) =>
        match ReadNumbers(k, n - 1, first.1)
        case Err(e) => Err(e)
        case Ok(more) => Ok(([first.0] + more.0, more.1))
  }

  /** `_readStringEx`, which expects no tag. */
  function ReadString(cs: Charset, bs: Bytes): (r: Result<(string, Bytes), Error>)
  {
    match ReadNumber(IntKind, bs)
    case Err(e) => Err(e)
    case Ok(size) =>
      if size.0 < 0 then Err(NegativeSize)
      else if |size.1| < size.0 then Err(IndexOutOfBounds)
      else Ok((cs.decode(size.1[..size.0]), size.1[size.0..]))
  }

  function ReadStrings(cs: Charset, n: nat, bs: Bytes): (r: Result<(seq<string>, Bytes), Error>)
    decreases n
  {
    if n == 0 then Ok(([], bs))
    else
      match ReadString(cs, bs)
      case Err(e) => Err(e)
      case Ok(first) =>
        match ReadStrings(cs, n - 1, first.1)
        case Err(e) => Err(e)
        case Ok(more) => Ok(([first.0] + more.0, more.1))
  }

  /** `readAnyArray` */
  function ReadAnyArray(cs: Charset, tag: int, bs: Bytes): (r: Result<(Value, Bytes), Error>)
  {
    if tag != -1 && KindOf(0 - tag).None? then Ok((Null, bs))
    else
      match ReadNumber(IntKind, bs)
      case Err(e) => Err(e)
      case Ok(size) =>
        if size.0 < 0 then Err(NegativeSize)
        else if tag == -1 then
          match ReadStrings(cs, size.0, size.1)
          case Err(e) => Err(e)
          case Ok(r) => Ok((Texts(r.0), r.1))
        else
          var k := KindOf(0 - tag).value;
          match ReadNumbers(k, size.0, size.1)
          case Err(e) => Err(e)
          case Ok(r) => Ok((Numbers(k, r.0), r.1))
  }

  /** `readAny`: a tag that is not known reads as null. */
  function ReadAny(cs: Charset, bs: Bytes): (r: Result<(Value, Bytes), Error>)
  {
    if bs == [] then Err(IndexOutOfBounds)
    else
      var tag := Signed(bs[0]);
      if tag < 0 then ReadAnyArray(cs, tag, bs[1..])
      else if tag == 1 then
        match ReadString(cs, bs[1..])
        case Err(e) => Err(e)
        case Ok(r) => Ok((Text(r.0), r.1))
      else if KindOf(tag).None? then Ok((Null, bs[1..]))
      else
        match ReadNumber(KindOf(tag).value, bs[1..])
        case Err(e) => Err(e)
        case Ok(r) => Ok((Scalar(KindOf(tag).value, r.0), r.1))
  }

  /** Each entry is put into the map; a key that comes again replaces. */
  function ReadEntries(cs: Charset, n: nat, bs: Bytes, m: map<int, Value>): (r: Result<(map<int, Value>, Bytes), Error>)
    decreases n
  {
    if n == 0 then Ok((m, bs))
    else
      match ReadNumber(IntKind, bs)
      case Err(e) => Err(e)
      case Ok(key) =>
        match ReadAny(cs, key.1)
        case Err(e) => Err(e)
        case Ok(v) => ReadEntries(cs, n - 1, v.1, m[key.0 := v.0])
  }

  /** `readMap`: a negative count is an empty map. */
  function ReadMap(cs: Charset, bs: Bytes): (r: Result<(map<int, Value>, Bytes), Error>)
  {
    match ReadNumber(IntKind, bs)
    case Err(e) => Err(e)
    case Ok(size) => ReadEntries(cs, if size.0 < 0 then 0 else size.0, size.1, map[])
  }

  // ---------------------------------------------------------------- round trips

  ghost predicate Inverts(cs: Charset) { forall s :: cs.decode(cs.encode(s)) == s }

  lemma ReadField(k: Kind, n: int, rest: Bytes)
    requires InRange(k, n)
    ensures ReadNumber(k, Field(k, n) + rest) == Ok((n, rest))
  {
    FieldRoundTrip(k, n);
    var bs := Field(k, n) + rest;
    assert bs[..Width(k)] == Field(k, n) && bs[Width(k)..] == rest;
  }

  lemma {:induction false} ReadFields(k: Kind, items: seq<int>, rest: Bytes)
    requires forall i :: 0 <= i < |items| ==> InRange(k, items[i])
    ensures ReadNumbers(k, |items|, Fields(k, items) + rest) == Ok((items, rest))
  {
    hide ReadNumber, Field;
    if items == [] {
      assert [] + rest == rest;
    } else {
      var first := Field(k, items[0]);
      var more := Fields(k, items[1..]);
      ReadFields(k, items[1..], rest);
      ReadField(k, items[0], more + rest);
      assert first + more + rest == first + (more + rest);
      assert [items[0]] + items[1..] == items;
    }
  }

  lemma ReadWritten(s: string, cs: Charset, rest: Bytes)
    requires Inverts(cs) && |cs.encode(s)| < TWO_31
    ensures ReadString(cs, WriteString(s, cs)[1..] + rest) == Ok((s, rest))
  {
    hide ReadNumber, Field;
    var bytes := cs.encode(s);
    ReadField(IntKind, |bytes|, bytes + rest);
    assert WriteString(s, cs)[1..] + rest == Size(|bytes|) + (bytes + rest);
    assert (bytes + rest)[..|bytes|] == bytes && (bytes + rest)[|bytes|..] == rest;
  }

  lemma KindOfTag(k: Kind)
    ensures KindOf(Tag(k)) == Some(k) && Signed(Tag(k)) == Tag(k) && Signed(ArrayTag(Tag(k))) == 0 - Tag(k)
  {}

  /** The values that can be stored: scalars, and arrays of numbers or booleans that are not empty. */
  predicate Storable(v: Value)
  {
    v.Scalar? || v.Text? || (v.Numbers? && v.items != [])
  }

  /** Reading what was written gives the value back, and leaves exactly what follows. */
  lemma ReadInvertsWrite(v: Value, cs: Charset, rest: Bytes)
    requires Inverts(cs) && IsObject(v, cs) && Storable(v)
    ensures WriteAny(v, cs).Ok? && ReadAny(cs, WriteAny(v, cs).value + rest) == Ok((v, rest))
  {
    hide ReadNumber, Field, Fields, Tag, ReadString, ReadNumbers, KindOf;
    var bs := WriteAny(v, cs).value;
    var all := bs + rest;
    match v
    case Scalar(k, n) =>
      KindOfTag(k);
      assert all[1..] == Field(k, n) + rest;
      ReadField(k, n, rest);
    case Text(s) =>
      assert all[1..] == WriteString(s, cs)[1..] + rest;
      ReadWritten(s, cs, rest);
    case Numbers(k, items) =>
      KindOfTag(k);
      assert all[1..] == Size(|items|) + (Fields(k, items) + rest);
      ReadField(IntKind, |items|, Fields(k, items) + rest);
      ReadFields(k, items, rest);
  }

  /**
    * Nothing else comes back: an empty array or null is refused, an array of strings is read as booleans,
    * and a value of another type leaves no trace.
    */
  lemma ReadInvertsWriteIff(v: Value, cs: Charset)
    requires Inverts(cs) && IsObject(v, cs)
    ensures (WriteAny(v, cs).Ok? && forall rest :: ReadAny(cs, WriteAny(v, cs).value + rest) == Ok((v, rest)))
      <==> Storable(v)
  {
    hide ReadNumber, Field, Fields, WriteStrings, ReadNumbers;
    if Storable(v) {
      forall rest: Bytes ensures ReadAny(cs, WriteAny(v, cs).value + rest) == Ok((v, rest)) {
        ReadInvertsWrite(v, cs, rest);
      }
    } else if v.Texts? && v.strings != [] {
      var bs := WriteAny(v, cs).value;
      assert (bs + [])[0] == ArrayTag(Tag(BooleanKind));
      assert ReadAny(cs, bs + []) != Ok((v, []));
    } else if v.Unsupported? {
      assert ReadAny(cs, [] + []) != Ok((v, []));
    }
  }

  /** The entries of a map, in any order. */
  ghost predicate Visits(es: seq<Entry>, m: map<int, Value>)
  {
    && (forall i, j :: 0 <= i < j < |es| ==> es[i].key != es[j].key)
    && (forall i :: 0 <= i < |es| ==> es[i].key in m && m[es[i].key] == es[i].value)
    && (forall k :: k in m ==> exists i :: 0 <= i < |es| && es[i].key == k)
  }

  ghost predicate AllStorable(es: seq<Entry>) { forall i :: 0 <= i < |es| ==> Storable(es[i].value) }

  /** The map after some more entries are put into it. */
  function PutAll(m: map<int, Value>, es: seq<Entry>): (r: map<int, Value>)
    decreases |es|
  {
    if es == [] then m else PutAll(m[es[0].key := es[0].value], es[1..])
  }

  lemma {:induction false} PutAllMeans(m: map<int, Value>, es: seq<Entry>)
    requires forall i, j :: 0 <= i < j < |es| ==> es[i].key != es[j].key
    ensures forall i :: 0 <= i < |es| ==> es[i].key in PutAll(m, es) && PutAll(m, es)[es[i].key] == es[i].value
    ensures forall k :: k in PutAll(m, es) <==> k in m || exists i :: 0 <= i < |es| && es[i].key == k
    ensures forall k :: k in m && (forall i :: 0 <= i < |es| ==> es[i].key != k) ==> PutAll(m, es)[k] == m[k]
    decreases |es|
  {
    if es != [] {
      PutAllMeans(m[es[0].key := es[0].value], es[1..]);
    }
  }

  lemma {:induction false} ReadInvertsEntries(es: seq<Entry>, cs: Charset, rest: Bytes, m: map<int, Value>)
    requires Inverts(cs) && AreEntries(es, cs) && AllStorable(es)
    ensures WriteEntries(es, cs).Ok?
    ensures ReadEntries(cs, |es|, WriteEntries(es, cs).value + rest, m) == Ok((PutAll(m, es), rest))
    decreases |es|
  {
    hide ReadNumber, Field, ReadAny, WriteAny, Storable;
    if es == [] {
      assert [] + rest == rest;
    } else {
      var e := es[0];
      assert Storable(e.value);
      ReadInvertsWrite(e.value, cs, rest);
      ReadInvertsEntries(es[1..], cs, rest, m[e.key := e.value]);
      var key := Field(IntKind, e.key);
      var v := WriteAny(e.value, cs).value;
      var tail := WriteEntries(es[1..], cs).value;
      ReadInvertsWrite(e.value, cs, tail + rest);
      ReadField(IntKind, e.key, v + (tail + rest));
      assert key + v + tail + rest == key + (v + (tail + rest));
    }
  }

  /**
    * Reading inverts writing for every map and every order in which its entries are visited, and takes
    * exactly the bytes written.
    */
  lemma ReadMapInvertsWriteMap(m: map<int, Value>, es: seq<Entry>, cs: Charset, rest: Bytes)
    requires Inverts(cs) && Visits(es, m) && AreEntries(es, cs) && AllStorable(es)
    ensures WriteMap(es, cs).Ok? && ReadMap(cs, WriteMap(es, cs).value + rest) == Ok((m, rest))
  {
    hide ReadNumber, Field, ReadEntries, WriteEntries, AllStorable, AreEntries;
    ReadInvertsEntries(es, cs, rest, map[]);
    var body := WriteEntries(es, cs).value;
    assert |es| < TWO_31 by { EntriesFit(es, cs); }
    ReadField(IntKind, |es|, body + rest);
    assert Size(|es|) + body + rest == Size(|es|) + (body + rest);
    PutAllVisited(m, es);
  }

  lemma PutAllVisited(m: map<int, Value>, es: seq<Entry>)
    requires Visits(es, m)
    ensures PutAll(map[], es) == m
  {
    PutAllMeans(map[], es);
    var p := PutAll(map[], es);
    forall k | k in p || k in m ensures k in p && k in m && p[k] == m[k] {
      var i :| 0 <= i < |es| && es[i].key == k;
    }
  }

  lemma EntriesFit(es: seq<Entry>, cs: Charset)
    requires AreEntries(es, cs)
    ensures |es| < TWO_31
  {}

  // ---------------------------------------------------------------- what a map loses

  /** The reader never makes a value of another type. */
  lemma ReadIsSupported(cs: Charset, bs: Bytes)
    ensures ReadAny(cs, bs).Ok? ==> !ReadAny(cs, bs).value.0.Unsupported?
  {
    hide ReadNumber, ReadString, ReadStrings, ReadNumbers, KindOf;
  }

  /** What an array of strings is read as, whatever follows it. */
  lemma TextsReadOtherwise(ss: seq<string>, cs: Charset, rest: Bytes)
    requires IsObject(Texts(ss), cs) && ss != []
    ensures var r := ReadAny(cs, WriteAny(Texts(ss), cs).value + rest);
      r.Ok? ==> !r.value.0.Texts?
  {
    hide ReadNumber, ReadNumbers, WriteStrings, Field;
    var bs := WriteAny(Texts(ss), cs).value + rest;
    assert bs[0] == ArrayTag(Tag(BooleanKind));
  }

  /** Reading adds at most one key an entry; as many as entries only if none came twice, and then all stay. */
  lemma {:induction false} ReadEntriesGrow(cs: Charset, n: nat, bs: Bytes, m: map<int, Value>)
    requires forall k :: k in m ==> !m[k].Unsupported?
    ensures var r := ReadEntries(cs, n, bs, m);
      r.Ok? ==>
        && |r.value.0| <= |m| + n
        && (forall k :: k in r.value.0 ==> !r.value.0[k].Unsupported?)
        && (|r.value.0| == |m| + n ==> forall k :: k in m ==> k in r.value.0 && r.value.0[k] == m[k])
    decreases n
  {
    hide ReadNumber, ReadAny;
    if n > 0 && ReadNumber(IntKind, bs).Ok? && ReadAny(cs, ReadNumber(IntKind, bs).value.1).Ok? {
      var (key, rest) := ReadNumber(IntKind, bs).value;
      var (v, rest') := ReadAny(cs, rest).value;
      ReadIsSupported(cs, rest);
      OneKeyMore(m, key, v);
      ReadEntriesGrow(cs, n - 1, rest', m[key := v]);
    }
  }

  lemma OneKeyMore(m: map<int, Value>, key: int, v: Value)
    ensures |m[key := v]| == if key in m then |m| else |m| + 1
  {
    assert m[key := v].Keys == m.Keys + {key};
    assert |m| == |m.Keys| && |m[key := v]| == |m[key := v].Keys|;
  }

  lemma {:induction false} PutAllSize(m: map<int, Value>, es: seq<Entry>)
    requires forall i, j :: 0 <= i < j < |es| ==> es[i].key != es[j].key
    requires forall i :: 0 <= i < |es| ==> es[i].key !in m
    ensures |PutAll(m, es)| == |m| + |es|
    decreases |es|
  {
    if es != [] {
      OneKeyMore(m, es[0].key, es[0].value);
      PutAllSize(m[es[0].key := es[0].value], es[1..]);
    }
  }

  /** A map whose reading starts like `m` and does not give `whole` back. */
  lemma {:induction false} EntriesLost(es: seq<Entry>, cs: Charset, rest: Bytes,
                                      m: map<int, Value>, whole: map<int, Value>)
    requires Inverts(cs) && AreEntries(es, cs) && !AllStorable(es) && WriteEntries(es, cs).Ok?
    requires forall k :: k in m ==> !m[k].Unsupported?
    requires |whole| == |m| + |es|
    requires forall i :: 0 <= i < |es| ==> es[i].key in whole && whole[es[i].key] == es[i].value
    ensures var r := ReadEntries(cs, |es|, WriteEntries(es, cs).value + rest, m); r.Ok? ==> r.value.0 != whole
    decreases |es|
  {
    hide ReadNumber, Field, ReadAny, WriteAny, Storable, IsObject, Inverts;
    var e := es[0];
    var key := Field(IntKind, e.key);
    var v := WriteAny(e.value, cs).value;
    var tail := WriteEntries(es[1..], cs).value + rest;
    assert WriteEntries(es, cs).value + rest == key + (v + tail);
    ReadField(IntKind, e.key, v + tail);
    FirstEntry(es, cs);
    if e.value.Unsupported? {
      ReadEntriesGrow(cs, |es|, key + (v + tail), m);
    } else if Storable(e.value) {
      ReadInvertsWrite(e.value, cs, tail);
      StorableIsSupported(e.value);
      OneKeyMore(m, e.key, e.value);
      if e.key in m {
        ReadEntriesGrow(cs, |es| - 1, tail, m[e.key := e.value]);
      } else {
        EntriesLost(es[1..], cs, rest, m[e.key := e.value], whole);
      }
    } else {
      ValueLost(e.value, cs, tail);
      ReadIsSupported(cs, v + tail);
      if ReadAny(cs, v + tail).Ok? {
        var (read, rest') := ReadAny(cs, v + tail).value;
        OneKeyMore(m, e.key, read);
        ReadEntriesGrow(cs, |es| - 1, rest', m[e.key := read]);
      }
    }
  }

  lemma FirstEntry(es: seq<Entry>, cs: Charset)
    requires es != [] && AreEntries(es, cs) && WriteEntries(es, cs).Ok?
    ensures IsObject(es[0].value, cs) && WriteAny(es[0].value, cs).Ok?
    ensures !AllStorable(es) <==> !Storable(es[0].value) || !AllStorable(es[1..])
  {
    hide WriteAny, IsObject, Storable;
  }

  lemma StorableIsSupported(v: Value)
    requires Storable(v)
    ensures !v.Unsupported?
  {}

  lemma ValueLost(v: Value, cs: Charset, rest: Bytes)
    requires IsObject(v, cs) && !Storable(v) && !v.Unsupported? && WriteAny(v, cs).Ok?
    ensures ReadAny(cs, WriteAny(v, cs).value + rest).Ok? ==> ReadAny(cs, WriteAny(v, cs).value + rest).value.0 != v
  {
    hide ReadAny;
    TextsReadOtherwise(v.strings, cs, rest);
  }

  /**
    * A map comes back, whatever bytes follow it, if and only if every value in it can be stored: a single
    * array of strings or value of another type spoils it.
    */
  lemma ReadMapInvertsWriteMapIff(m: map<int, Value>, es: seq<Entry>, cs: Charset, rest: Bytes)
    requires Inverts(cs) && Visits(es, m) && AreEntries(es, cs)
    ensures (WriteMap(es, cs).Ok? && ReadMap(cs, WriteMap(es, cs).value + rest) == Ok((m, rest))) <==> AllStorable(es)
  {
    hide ReadNumber, Field, ReadEntries, WriteEntries, AllStorable, AreEntries, Inverts;
    if AllStorable(es) {
      ReadMapInvertsWriteMap(m, es, cs, rest);
    } else if WriteMap(es, cs).Ok? {
      var body := WriteEntries(es, cs).value;
      EntriesFit(es, cs);
      ReadField(IntKind, |es|, body + rest);
      assert Size(|es|) + body + rest == Size(|es|) + (body + rest);
      PutAllVisited(m, es);
      PutAllSize(map[], es);
      EntriesLost(es, cs, rest, map[], m);
    }
  }

  /** A map with one array of one string is read as one with an array of one boolean, which is true. */
  lemma StringArrayLost(s: string, cs: Charset, rest: Bytes)
    requires |cs.encode(s)| < TWO_31
    ensures var es := [Entry(1, Texts([s]))];
      && AreEntries(es, cs) && Visits(es, map[1 := Texts([s])]) && WriteMap(es, cs).Ok?
      && ReadMap(cs, WriteMap(es, cs).value + rest)
      == Ok((map[1 := Numbers(BooleanKind, [1])], Size(|cs.encode(s)|) + cs.encode(s) + rest))
  {
    hide Field, ReadNumber, ReadNumbers;
    var es := [Entry(1, Texts([s]))];
    var tail := Size(|cs.encode(s)|) + cs.encode(s) + rest;
    var item := [STRING_ID] + tail;
    OneBoolean(tail);
    assert WriteStrings([s], cs) == WriteString(s, cs) by { assert WriteString(s, cs) + [] == WriteString(s, cs); }
    var value := [ArrayTag(Tag(BooleanKind))] + (Size(1) + item);
    assert WriteAny(es[0].value, cs).value + rest == value;
    assert value[1..] == Size(1) + item;
    ReadField(IntKind, 1, item);
    ReadField(IntKind, 1, value);
    OneEntry(es[0], cs);
    var all := WriteMap(es, cs).value + rest;
    assert all == Size(1) + (Field(IntKind, 1) + value);
    ReadField(IntKind, 1, Field(IntKind, 1) + value);
    assert ReadAny(cs, value) == Ok((Numbers(BooleanKind, [1]), tail));
  }

  lemma OneEntry(e: Entry, cs: Charset)
    requires InRange(IntKind, e.key) && IsObject(e.value, cs) && WriteAny(e.value, cs).Ok?
    ensures AreEntries([e], cs)
    ensures WriteEntries([e], cs) == Ok(Field(IntKind, e.key) + WriteAny(e.value, cs).value)
  {
    hide WriteAny, Field, IsObject;
    assert WriteEntries([], cs) == Ok([]);
    assert Field(IntKind, e.key) + WriteAny(e.value, cs).value + []
         == Field(IntKind, e.key) + WriteAny(e.value, cs).value;
  }

  /** The tag of the string stands where a boolean is expected, and reads as true. */
  lemma OneBoolean(tail: Bytes)
    ensures ReadNumbers(BooleanKind, 1, [STRING_ID] + tail) == Ok(([1], tail))
  {
    var bs := [STRING_ID] + tail;
    assert bs[..1] == [STRING_ID] && bs[1..] == tail;
    assert [STRING_ID][..0] == [] && UInt([]) == 0;
    assert UInt([STRING_ID]) == UInt([STRING_ID][..0]) * 0x100 + STRING_ID;
    assert ReadNumber(BooleanKind, bs) == Ok((1, tail));
    assert ReadNumbers(BooleanKind, 0, tail) == Ok(([], tail));
    assert [1] + [] == [1];
  }

  // ---------------------------------------------------------------- maps from long to long

  datatype Pair = Pair(key: int, value: int)

  ghost predicate ArePairs(ps: seq<Pair>)
  {
    |ps| < TWO_31 && forall i :: 0 <= i < |ps| ==> InRange(LongKind, ps[i].key) && InRange(LongKind, ps[i].value)
  }

  ghost function PairFields(ps: seq<Pair>): (bs: Bytes)
    requires ArePairs(ps)
    ensures |bs| == 16 * |ps|
  {
    if ps == [] then [] else Field(LongKind, ps[0].key) + Field(LongKind, ps[0].value) + PairFields(ps[1..])
  }

  /** `writeMapToByteArray`, the pairs being those of the map in the order in which it is visited. */
  ghost function WriteLongs(ps: seq<Pair>): (bs: Bytes)
    requires ArePairs(ps)
    ensures |bs| == 4 + 16 * |ps|
  {
    Size(|ps|) + PairFields(ps)
  }

  function ReadPairs(n: nat, bs: Bytes, m: map<int, int>): (r: Result<(map<int, int>, Bytes), Error>)
    decreases n
  {
    if n == 0 then Ok((m, bs))
    else
      match ReadNumber(LongKind, bs)
      case Err(e) => Err(e)
      case Ok(key) =>
        match ReadNumber(LongKind, key.1)
        case Err(e) => Err(e)
        case Ok(value) => ReadPairs(n - 1, value.1, m[key.0 := value.0])
  }

  /** `readMapFromByteArray` */
  function ReadLongs(bs: Bytes): (r: Result<map<int, int>, Error>)
  {
    match ReadNumber(IntKind, bs)
    case Err(e) => Err(e)
    case Ok(size) =>
      match ReadPairs(if size.0 < 0 then 0 else size.0, size.1, map[])
      case Err(e) => Err(e)
      case Ok(r) => Ok(r.0)
  }

  function PutPairs(m: map<int, int>, ps: seq<Pair>): (r: map<int, int>)
    decreases |ps|
  {
    if ps == [] then m else PutPairs(m[ps[0].key := ps[0].value], ps[1..])
  }

  ghost predicate VisitsLongs(ps: seq<Pair>, m: map<int, int>)
  {
    && (forall i, j :: 0 <= i < j < |ps| ==> ps[i].key != ps[j].key)
    && (forall i :: 0 <= i < |ps| ==> ps[i].key in m && m[ps[i].key] == ps[i].value)
    && (forall k :: k in m ==> exists i :: 0 <= i < |ps| && ps[i].key == k)
  }

  lemma {:induction false} PutPairsMeans(m: map<int, int>, ps: seq<Pair>)
    requires forall i, j :: 0 <= i < j < |ps| ==> ps[i].key != ps[j].key
    ensures forall i :: 0 <= i < |ps| ==> ps[i].key in PutPairs(m, ps) && PutPairs(m, ps)[ps[i].key] == ps[i].value
    ensures forall k :: k in PutPairs(m, ps) <==> k in m || exists i :: 0 <= i < |ps| && ps[i].key == k
    ensures forall k :: k in m && (forall i :: 0 <= i < |ps| ==> ps[i].key != k) ==> PutPairs(m, ps)[k] == m[k]
    decreases |ps|
  {
    if ps != [] {
      PutPairsMeans(m[ps[0].key := ps[0].value], ps[1..]);
    }
  }

  lemma {:induction false} ReadInvertsPairs(ps: seq<Pair>, rest: Bytes, m: map<int, int>)
    requires ArePairs(ps)
    ensures ReadPairs(|ps|, PairFields(ps) + rest, m) == Ok((PutPairs(m, ps), rest))
    decreases |ps|
  {
    hide ReadNumber, Field;
    if ps == [] {
      assert [] + rest == rest;
    } else {
      var key := Field(LongKind, ps[0].key);
      var value := Field(LongKind, ps[0].value);
      var tail := PairFields(ps[1..]) + rest;
      ReadField(LongKind, ps[0].key, value + tail);
      ReadField(LongKind, ps[0].value, tail);
      ReadInvertsPairs(ps[1..], rest, m[ps[0].key := ps[0].value]);
      assert key + value + PairFields(ps[1..]) + rest == key + (value + tail);
    }
  }

  /** Reading inverts writing for every map and every order of its pairs. */
  lemma ReadLongsInvertsWriteLongs(m: map<int, int>, ps: seq<Pair>)
    requires VisitsLongs(ps, m) && ArePairs(ps)
    ensures ReadLongs(WriteLongs(ps)) == Ok(m)
  {
    hide ReadNumber, Field, ReadPairs, PairFields;
    ReadField(IntKind, |ps|, PairFields(ps));
    ReadInvertsPairs(ps, [], map[]);
    assert PairFields(ps) + [] == PairFields(ps);
    PutPairsVisited(m, ps);
  }

  lemma PutPairsVisited(m: map<int, int>, ps: seq<Pair>)
    requires VisitsLongs(ps, m)
    ensures PutPairs(map[], ps) == m
  {
    PutPairsMeans(map[], ps);
    var p := PutPairs(map[], ps);
    forall k | k in p || k in m ensures k in p && k in m && p[k] == m[k] {
      var i :| 0 <= i < |ps| && ps[i].key == k;
    }
  }
}
