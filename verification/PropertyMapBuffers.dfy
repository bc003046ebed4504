/** Writers and readers of property maps over a shared buffer with a reader and a writer position. */
module PropertyMapBuffers {
  import opened Wrappers
  import opened JsNumber
  import opened ByteReading
  import opened PropertyMap

  /** `written` ends at the writer position. */
  class ByteBuf {
    var written: Bytes
    var readerIndex: nat

    ghost predicate Valid()
      reads this
    {
      readerIndex <= |written|
    }

    function Rest(): (bs: Bytes)
      reads this
      requires Valid()
    {
      written[readerIndex..]
    }

    constructor (bs: Bytes)
      ensures Valid() && written == bs && readerIndex == 0
    {
      written, readerIndex := bs, 0;
    }

    method WriteByte(b: Byte)
      requires Valid()
      modifies this`written
      ensures Valid() && written == old(written) + [b]
    {
      written := written + [b];
    }

    method WriteBytes(bs: Bytes)
      requires Valid()
      modifies this`written
      ensures Valid() && written == old(written) + bs
    {
      written := written + bs;
    }

    /** `writeInt`, `writeLong`, `writeDouble`, `writeFloat` and `writeBoolean`. */
    method WriteNumber(k: Kind, n: int)
      requires Valid() && InRange(k, n)
      modifies this`written
      ensures Valid() && written == old(written) + Field(k, n)
    {
      written := written + Field(k, n);
    }

    method NextByte() returns (r: Result<Byte, Error>)
      requires Valid()
      modifies this`readerIndex
      ensures Valid() && (r.Ok? <==> old(Rest()) != [])
      ensures r.Ok? ==> r.value == old(Rest())[0] && Rest() == old(Rest())[1..]
      ensures r.Err? ==> r.error == IndexOutOfBounds && Rest() == old(Rest())
    {
      if readerIndex == |written| {
        return Err(IndexOutOfBounds);
      }
      r := Ok(written[readerIndex]);
      readerIndex := readerIndex + 1;
    }

    method NextBytes(n: nat) returns (r: Result<Bytes, Error>)
      requires Valid()
      modifies this`readerIndex
      ensures Valid() && (r.Ok? <==> n <= |old(Rest())|)
      ensures r.Ok? ==> r.value == old(Rest())[..n] && Rest() == old(Rest())[n..]
      ensures r.Err? ==> r.error == IndexOutOfBounds
    {
      if |written| - readerIndex < n {
        return Err(IndexOutOfBounds);
      }
      assert Rest()[..n] == written[readerIndex..readerIndex + n] && Rest()[n..] == written[readerIndex + n..];
      r := Ok(written[readerIndex..readerIndex + n]);
      readerIndex := readerIndex + n;
    }

    /** `readInt`, `readLong`, `readDouble`, `readFloat` and `readBoolean`. */
    method NextNumber(k: Kind) returns (r: Result<int, Error>)
      requires Valid()
      modifies this`readerIndex
      ensures Valid() && Matches(ReadNumber(k, old(Rest())), r, Rest())
    {
      hide FieldValue;
      var bytes := NextBytes(Width(k));
      match bytes
      case Err(e) => r := Err(e);
      case Ok(bs) => r := Ok(FieldValue(k, bs));
    }
  }

  // ---------------------------------------------------------------- writing

  method WriteStringEx(s: string, cs: Charset, buf: ByteBuf)
    requires buf.Valid() && |cs.encode(s)| < TWO_31
    modifies buf`written
    ensures buf.Valid() && buf.written == old(buf.written) + WriteString(s, cs)
  {
    hide Field;
    buf.WriteByte(STRING_ID);
    var data := cs.encode(s);
    buf.WriteNumber(IntKind, |data|);
    buf.WriteBytes(data);
    assert buf.written == old(buf.written) + WriteString(s, cs);
  }

  /** `writeLongArray` and its like. */
  method WriteNumberArray(k: Kind, items: seq<int>, buf: ByteBuf)
    requires buf.Valid() && |items| < TWO_31 && forall i :: 0 <= i < |items| ==> InRange(k, items[i])
    modifies buf`written
    ensures buf.Valid()
    ensures buf.written == old(buf.written) + ([ArrayTag(Tag(k))] + Size(|items|) + Fields(k, items))
  {
    hide Field, Tag;
    buf.WriteByte(ArrayTag(Tag(k)));
    buf.WriteNumber(IntKind, |items|);
    var i := 0;
    ghost var start := buf.written;
    assert items[0..] == items;
    assert Fields(k, []) == [];
    hide Fields, InRange;
    while i < |items|
      invariant 0 <= i <= |items| && buf.Valid()
      invariant buf.written + Fields(k, items[i..]) == start + Fields(k, items)
    {
      ghost var before := buf.written;
      buf.WriteNumber(k, items[i]);
      NextField(before, k, items, i);
      i := i + 1;
    }
    assert buf.written + [] == buf.written;
  }

  lemma NextField(before: Bytes, k: Kind, items: seq<int>, i: nat)
    requires i < |items| && forall i :: 0 <= i < |items| ==> InRange(k, items[i])
    ensures before + Fields(k, items[i..]) == before + Field(k, items[i]) + Fields(k, items[i + 1..])
  {
    assert items[i..][0] == items[i] && items[i..][1..] == items[i + 1..];
    assert before + (Field(k, items[i]) + Fields(k, items[i + 1..]))
         == before + Field(k, items[i]) + Fields(k, items[i + 1..]);
  }

  method WriteStringArray(ss: seq<string>, cs: Charset, buf: ByteBuf)
    requires buf.Valid() && |ss| < TWO_31 && forall i :: 0 <= i < |ss| ==> |cs.encode(ss[i])| < TWO_31
    modifies buf`written
    ensures buf.Valid()
    ensures buf.written == old(buf.written) + ([ArrayTag(Tag(BooleanKind))] + Size(|ss|) + WriteStrings(ss, cs))
  {
    hide Field, WriteString;
    buf.WriteByte(ArrayTag(Tag(BooleanKind)));
    buf.WriteNumber(IntKind, |ss|);
    var i := 0;
    ghost var start := buf.written;
    assert ss[0..] == ss;
    while i < |ss|
      invariant 0 <= i <= |ss| && buf.Valid()
      invariant buf.written + WriteStrings(ss[i..], cs) == start + WriteStrings(ss, cs)
    {
      ghost var before := buf.written;
      WriteStringEx(ss[i], cs, buf);
      assert ss[i..][0] == ss[i] && ss[i..][1..] == ss[i + 1..];
      assert before + (WriteString(ss[i], cs) + WriteStrings(ss[i + 1..], cs))
          == buf.written + WriteStrings(ss[i + 1..], cs);
      i := i + 1;
    }
    assert buf.written + [] == buf.written;
  }

  /** `writeAny`; nothing is written when it throws. */
  method WriteAnyTo(v: Value, cs: Charset, buf: ByteBuf) returns (failure: Option<Error>)
    requires buf.Valid() && IsObject(v, cs)
    modifies buf`written
    ensures buf.Valid()
    ensures failure.Some? ==> WriteAny(v, cs) == Err(failure.value) && buf.written == old(buf.written)
    ensures failure.None? ==> WriteAny(v, cs).Ok? && buf.written == old(buf.written) + WriteAny(v, cs).value
  {
    hide Field, WriteString, Fields, WriteStrings;
    failure := None;
    match v
    case Null => failure := Some(NullPointer);
    case Scalar(k, n) =>
      buf.WriteByte(Tag(k));
      buf.WriteNumber(k, n);
      assert buf.written == old(buf.written) + ([Tag(k)] + Field(k, n));
    case Text(s) => WriteStringEx(s, cs, buf);
    case Numbers(k, items) =>
      if items == [] {
        return Some(IndexOutOfBounds);
      }
      WriteNumberArray(k, items, buf);
    case Texts(ss) =>
      if ss == [] {
        return Some(IndexOutOfBounds);
      }
      WriteStringArray(ss, cs, buf);
    case Unsupported =>
      assert buf.written + [] == buf.written;
  }

  /** `writeMap` */
  method WriteMapTo(es: seq<Entry>, cs: Charset, buf: ByteBuf) returns (failure: Option<Error>)
    requires buf.Valid() && AreEntries(es, cs)
    modifies buf`written
    ensures buf.Valid() && old(buf.written) <= buf.written
    ensures failure.Some? ==> WriteMap(es, cs) == Err(failure.value)
    ensures failure.None? ==> WriteMap(es, cs).Ok? && buf.written == old(buf.written) + WriteMap(es, cs).value
  {
    hide Field, WriteAny, IsObject;
    buf.WriteNumber(IntKind, |es|);
    ghost var start := buf.written;
    var i := 0;
    assert es[0..] == es;
    assert WriteEntries(es, cs).Ok? ==> start + WriteEntries(es, cs).value == start + WriteEntries(es[0..], cs).value;
    while i < |es|
      invariant 0 <= i <= |es| && buf.Valid() && old(buf.written) <= buf.written
      invariant Continues(start, WriteEntries(es, cs), buf.written, WriteEntries(es[i..], cs))
    {
      ghost var before := buf.written;
      assert es[i..][0] == es[i] && es[i..][1..] == es[i + 1..];
      buf.WriteNumber(IntKind, es[i].key);
      failure := WriteAnyTo(es[i].value, cs, buf);
      if failure.Some? {
        return;
      }
      Together(before, Field(IntKind, es[i].key), WriteAny(es[i].value, cs).value, WriteEntries(es[i + 1..], cs));
      i := i + 1;
    }
    failure := None;
    assert buf.written + [] == buf.written;
    assert start + WriteEntries(es, cs).value == old(buf.written) + (Size(|es|) + WriteEntries(es, cs).value);
  }

  /** What is still to be written onto `now` gives the whole behind `start`, or the same error. */
  ghost predicate Continues(start: Bytes, whole: Result<Bytes, Error>, now: Bytes, tail: Result<Bytes, Error>)
  {
    match whole
    case Err(e) => tail == Err(e)
    case Ok(bs) => tail.Ok? && now + tail.value == start + bs
  }

  lemma Together(before: Bytes, a: Bytes, b: Bytes, tail: Result<Bytes, Error>)
    ensures tail.Ok? ==> before + (a + b + tail.value) == before + a + b + tail.value
  {}

  // ---------------------------------------------------------------- reading

  method ReadStringEx(cs: Charset, buf: ByteBuf) returns (r: Result<string, Error>)
    requires buf.Valid()
    modifies buf`readerIndex
    ensures buf.Valid() && Matches(ReadString(cs, old(buf.Rest())), r, buf.Rest())
  {
    hide ReadNumber;
    var length := buf.NextNumber(IntKind);
    if length.Err? {
      return Err(length.error);
    }
    if length.value < 0 {
      return Err(NegativeSize);
    }
    var data := buf.NextBytes(length.value);
    match data
    case Err(e) => r := Err(e);
    case Ok(bs) => r := Ok(cs.decode(bs));
  }

  /** `readLongArray` and its like, behind the size. */
  method ReadNumberArray(k: Kind, size: nat, buf: ByteBuf) returns (r: Result<seq<int>, Error>)
    requires buf.Valid()
    modifies buf`readerIndex
    ensures buf.Valid() && Matches(ReadNumbers(k, size, old(buf.Rest())), r, buf.Rest())
  {
    hide ReadNumber;
    var data := new int[size];
    var i := 0;
    ghost var bs := buf.Rest();
    AfterNothing(data[..0], ReadNumbers(k, size, bs));
    while i < size
      invariant 0 <= i <= size && buf.Valid()
      invariant ReadNumbers(k, size, bs) == After(data[..i], ReadNumbers(k, size - i, buf.Rest()))
    {
      ghost var done, rest := data[..i], buf.Rest();
      var item := buf.NextNumber(k);
      if item.Err? {
        return Err(item.error);
      }
      data[i] := item.value;
      assert data[..i + 1] == done + [item.value];
      AfterOne(done, item.value, ReadNumbers(k, size - i - 1, buf.Rest()));
      i := i + 1;
    }
    assert data[..size] + [] == data[..size];
    r := Ok(data[..size]);
  }

  method ReadStringArray(cs: Charset, size: nat, buf: ByteBuf) returns (r: Result<seq<string>, Error>)
    requires buf.Valid()
    modifies buf`readerIndex
    ensures buf.Valid() && Matches(ReadStrings(cs, size, old(buf.Rest())), r, buf.Rest())
  {
    hide ReadString;
    var data := new string[size](_ => "");
    var i := 0;
    ghost var bs := buf.Rest();
    AfterNothing(data[..0], ReadStrings(cs, size, bs));
    while i < size
      invariant 0 <= i <= size && buf.Valid()
      invariant ReadStrings(cs, size, bs) == After(data[..i], ReadStrings(cs, size - i, buf.Rest()))
    {
      ghost var done := data[..i];
      var item := ReadStringEx(cs, buf);
      if item.Err? {
        return Err(item.error);
      }
      data[i] := item.value;
      assert data[..i + 1] == done + [item.value];
      AfterOne(done, item.value, ReadStrings(cs, size - i - 1, buf.Rest()));
      i := i + 1;
    }
    assert data[..size] + [] == data[..size];
    r := Ok(data[..size]);
  }

  lemma AfterOne<T>(done: seq<T>, item: T, more: Result<(seq<T>, Bytes), Error>)
    ensures After(done, After([item], more)) == After(done + [item], more)
  {
    if more.Ok? {
      assert done + ([item] + more.value.0) == done + [item] + more.value.0;
    }
  }

  /** `readAny` and `readAnyArray` */
  method ReadAnyFrom(cs: Charset, buf: ByteBuf) returns (r: Result<Value, Error>)
    requires buf.Valid()
    modifies buf`readerIndex
    ensures buf.Valid() && Matches(ReadAny(cs, old(buf.Rest())), r, buf.Rest())
  {
    hide ReadNumber, ReadNumbers, ReadString, ReadStrings;
    var first := buf.NextByte();
    if first.Err? {
      return Err(first.error);
    }
    var tag := Signed(first.value);
    if tag < 0 {
      if tag != -1 && KindOf(0 - tag).None? {
        return Ok(Null);
      }
      var size := buf.NextNumber(IntKind);
      if size.Err? {
        return Err(size.error);
      }
      if size.value < 0 {
        return Err(NegativeSize);
      }
      if tag == -1 {
        var ss := ReadStringArray(cs, size.value, buf);
        match ss
        case Err(e) => return Err(e);
        case Ok(v) => return Ok(Texts(v));
      }
      var items := ReadNumberArray(KindOf(0 - tag).value, size.value, buf);
      match items
      case Err(e) => return Err(e);
      case Ok(v) => return Ok(Numbers(KindOf(0 - tag).value, v));
    }
    if tag == 1 {
      var s := ReadStringEx(cs, buf);
      match s
      case Err(e) => return Err(e);
      case Ok(v) => return Ok(Text(v));
    }
    if KindOf(tag).None? {
      return Ok(Null);
    }
    var n := buf.NextNumber(KindOf(tag).value);
    match n
    case Err(e) => r := Err(e);
    case Ok(v) => r := Ok(Scalar(KindOf(tag).value, v));
  }

  /** `readMap` */
  method ReadMapFrom(cs: Charset, buf: ByteBuf) returns (r: Result<map<int, Value>, Error>)
    requires buf.Valid()
    modifies buf`readerIndex
    ensures buf.Valid() && Matches(ReadMap(cs, old(buf.Rest())), r, buf.Rest())
  {
    hide ReadNumber, ReadAny;
    var size := buf.NextNumber(IntKind);
    if size.Err? {
      return Err(size.error);
    }
    var data: map<int, Value> := map[];
    var i := 0;
    ghost var n := if size.value < 0 then 0 else size.value;
    ghost var bs := buf.Rest();
    while i < size.value
      invariant 0 <= i <= n && buf.Valid()
      invariant ReadEntries(cs, n, bs, map[]) == ReadEntries(cs, n - i, buf.Rest(), data)
    {
      var key := buf.NextNumber(IntKind);
      if key.Err? {
        return Err(key.error);
      }
      var value := ReadAnyFrom(cs, buf);
      if value.Err? {
        return Err(value.error);
      }
      data := data[key.value := value.value];
      i := i + 1;
    }
    r := Ok(data);
  }

  // ---------------------------------------------------------------- byte arrays

  /** `writeMapToByteArray` for typed maps: the buffer's bytes, copied out. */
  method WriteMapToByteArray(es: seq<Entry>, cs: Charset) returns (r: Result<array<Byte>, Error>)
    requires AreEntries(es, cs)
    ensures match r
      case Ok(data) => WriteMap(es, cs) == Ok(data[..]) && fresh(data)
      case Err(e) => WriteMap(es, cs) == Err(e)
  {
    hide WriteMap, AreEntries;
    var buf := new ByteBuf([]);
    var failure := WriteMapTo(es, cs, buf);
    if failure.Some? {
      return Err(failure.value);
    }
    var bytes := buf.written;
    assert [] + WriteMap(es, cs).value == WriteMap(es, cs).value;
    var data := new Byte[|bytes|](i requires 0 <= i < |bytes| => bytes[i]);
    assert data[..] == bytes;
    r := Ok(data);
  }

  /** `readJMapFromByteArray` */
  method ReadMapFromByteArray(data: array<Byte>, cs: Charset) returns (r: Result<map<int, Value>, Error>)
    ensures match ReadMap(cs, data[..]) case Ok(v) => r == Ok(v.0) case Err(e) => r == Err(e)
  {
    hide ReadMap;
    var buf := new ByteBuf(data[..]);
    assert buf.Rest() == data[..];
    r := ReadMapFrom(cs, buf);
  }

  /** A map that is stored and read again is the same map, in whatever order it was visited. */
  method StoreAndLoad(ghost m: map<int, Value>, es: seq<Entry>, cs: Charset) returns (r: Result<map<int, Value>, Error>)
    requires Inverts(cs) && AreEntries(es, cs) && AllStorable(es) && Visits(es, m)
    ensures r == Ok(m)
  {
    hide ReadMap, WriteMap, AreEntries, AllStorable, Visits, Inverts;
    var stored := WriteMapToByteArray(es, cs);
    ReadMapInvertsWriteMap(m, es, cs, []);
    assert WriteMap(es, cs).value + [] == WriteMap(es, cs).value;
    match stored
    case Err(e) => r := Err(e);
    case Ok(data) => r := ReadMapFromByteArray(data, cs);
  }

  lemma NextPair(before: Bytes, ps: seq<Pair>, i: nat)
    requires i < |ps| && ArePairs(ps)
    ensures before + PairFields(ps[i..])
         == before + Field(LongKind, ps[i].key) + Field(LongKind, ps[i].value) + PairFields(ps[i + 1..])
  {
    hide Field;
    assert ps[i..][0] == ps[i] && ps[i..][1..] == ps[i + 1..];
    var a := Field(LongKind, ps[i].key);
    var b := Field(LongKind, ps[i].value);
    var c := PairFields(ps[i + 1..]);
    assert before + (a + b + c) == before + a + b + c;
  }

  /** `writeMapToByteArray` for maps from long to long. */
  method WriteLongsToByteArray(ps: seq<Pair>) returns (data: array<Byte>)
    requires ArePairs(ps)
    ensures fresh(data) && data[..] == WriteLongs(ps) && data.Length == 4 + 16 * |ps|
  {
    hide Field;
    var buf := new ByteBuf([]);
    buf.WriteNumber(IntKind, |ps|);
    var i := 0;
    ghost var start := buf.written;
    assert ps[0..] == ps && start == Size(|ps|);
    assert PairFields([]) == [];
    hide PairFields;
    while i < |ps|
      invariant 0 <= i <= |ps| && buf.Valid()
      invariant buf.written + PairFields(ps[i..]) == start + PairFields(ps)
    {
      ghost var before := buf.written;
      buf.WriteNumber(LongKind, ps[i].key);
      buf.WriteNumber(LongKind, ps[i].value);
      NextPair(before, ps, i);
      i := i + 1;
    }
    assert buf.written + [] == buf.written;
    var bytes := buf.written;
    data := new Byte[|bytes|](i requires 0 <= i < |bytes| => bytes[i]);
    assert data[..] == bytes;
  }

  /** `readMapFromByteArray` for maps from long to long. */
  method ReadLongsFromByteArray(data: array<Byte>) returns (r: Result<map<int, int>, Error>)
    ensures r == ReadLongs(data[..])
  {
    hide ReadNumber;
    var buf := new ByteBuf(data[..]);
    assert buf.Rest() == data[..];
    var size := buf.NextNumber(IntKind);
    if size.Err? {
      return Err(size.error);
    }
    var m: map<int, int> := map[];
    var i := 0;
    ghost var n := if size.value < 0 then 0 else size.value;
    ghost var bs := buf.Rest();
    while i < size.value
      invariant 0 <= i <= n && buf.Valid()
      invariant ReadPairs(n, bs, map[]) == ReadPairs(n - i, buf.Rest(), m)
    {
      var key := buf.NextNumber(LongKind);
      if key.Err? {
        return Err(key.error);
      }
      var value := buf.NextNumber(LongKind);
      if value.Err? {
        return Err(value.error);
      }
      m := m[key.value := value.value];
      i := i + 1;
    }
    r := Ok(m);
  }
}
