/**
  * What the packer takes and the unpacker does not give back: which values are lost, exactly. Structures
  * of 256 fields and more are packed without their signature; everything else is read to its end, and the
  * first part that is not faithful shows in the result.
  */
module PackStreamLosses {
  import opened Wrappers
  import opened JsNumber
  import opened JsText
  import opened Integer64
  import opened ByteReading
  import opened Utf8
  import opened PackStream

  // ---------------------------------------------------------------- signatures

  /** A structure with other signature is packed otherwise, if and only if there are fewer than 256 fields. */
  lemma SignatureKept(a: Byte, fields: seq<Value>)
    requires |fields| < 0x1_0000 && forall x | x in fields :: Accepted(x)
    ensures (forall b: Byte :: PackStream.Encode(Struct(a, fields)) == PackStream.Encode(Struct(b, fields)) ==> a == b)
      <==> |fields| < 0x100
  {
    hide WriteHead, EncodeMany;
    var head := WriteHead(StructHead(|fields|));
    if |fields| < 0x100 {
      forall b: Byte | PackStream.Encode(Struct(a, fields)) == PackStream.Encode(Struct(b, fields)) ensures a == b {
        assert PackStream.Encode(Struct(a, fields))[|head|] == a;
        assert PackStream.Encode(Struct(b, fields))[|head|] == b;
      }
    } else {
      var b: Byte := if a == 0 then 1 else 0;
      assert PackStream.Encode(Struct(a, fields)) == PackStream.Encode(Struct(b, fields));
    }
  }

  /** For example, a structure of nulls takes one of them for its signature, and then misses it at the end. */
  lemma NullsFallShort(signature: Byte, n: nat)
    requires 0x100 <= n < 0x1_0000
    ensures var v := Struct(signature, seq(n, _ => Null));
      Accepted(v) && Unpack(PackStream.Encode(v)) == Err(OutOfBounds)
  {
    hide ReadHead, WriteHead, UnpackMany;
    var nulls := seq(n, _ => Null);
    var bytes := seq(n, _ => 192);
    NullsEncoded(n);
    HeadRoundTrip(StructHead(n), bytes);
    assert PackStream.Encode(Struct(signature, nulls)) == WriteHead(StructHead(n)) + bytes;
    assert bytes[1..] == seq(n - 1, _ => 192);
    TooFewNulls(n, n - 1);
  }

  lemma {:induction false} NullsEncoded(n: nat)
    ensures EncodeMany(seq(n, _ => Null)) == seq(n, _ => 192)
    decreases n
  {
    if n > 0 {
      NullsEncoded(n - 1);
      assert seq(n, _ => Null)[1..] == seq(n - 1, _ => Null);
      assert [192] + seq(n - 1, _ => 192) == seq(n, _ => 192);
    }
  }

  lemma {:induction false} TooFewNulls(n: nat, m: nat)
    requires m < n
    ensures UnpackMany(n, seq(m, _ => 192)) == Err(OutOfBounds)
    decreases m
  {
    hide ReadHead;
    var bytes := seq(m, _ => 192);
    if m == 0 {
      assert ReadHead([]) == Err(OutOfBounds) by { NothingToRead(); }
    } else {
      TooFewNulls(n - 1, m - 1);
      assert bytes == [192] + seq(m - 1, _ => 192);
      SimpleHead(192, seq(m - 1, _ => 192));
    }
  }

  lemma NothingToRead()
    ensures ReadHead([]) == Err(OutOfBounds)
  {}

  // ---------------------------------------------------------------- graph structures

  /** The signatures of node, unbound relationship, path and relationship. */
  predicate IsGraphSignature(s: Byte) { s == 0x4E || s == 0x72 || s == 0x50 || s == 0x52 }

  /**
    * A structure as a server sends it becomes a graph object if and only if it is a node, an unbound
    * relationship or a path of three fields or a relationship of five; with another number of fields, these
    * are refused.
    */
  lemma GraphUnpacks(s: Byte, fields: seq<Value>, rest: Bytes)
    requires |fields| < 16
    requires (forall x | x in fields :: Faithful(x)) && forall x | x in fields :: Accepted(x)
    ensures var n := |fields|;
      var r := Unpack([0xB0 + n, s] + EncodeMany(fields) + rest);
      && (r == Ok((Graph(s, fields), rest))
          <==> ((s == 0x4E || s == 0x72 || s == 0x50) && n == 3) || (s == 0x52 && n == 5))
      && (IsGraphSignature(s) && n != (if s == 0x52 then 5 else 3) ==> r == Err(WrongStructSize))
  {
    hide ReadHead, WriteHead, UnpackMany, EncodeMany, Accepted, Faithful;
    var body := EncodeMany(fields);
    UnpackItems(fields, rest);
    SmallStructHead(|fields|, [s] + body + rest);
    var all := [0xB0 + |fields|, s] + body + rest;
    assert all == [0xB0 + |fields|] + ([s] + body + rest);
    assert ([s] + body + rest)[1..] == body + rest;
  }

  lemma SmallStructHead(n: nat, rest: Bytes)
    requires n < 16
    ensures ReadHead([0xB0 + n] + rest) == Ok((StructHead(n), rest))
  {
    hide ReadHead;
    HeadRoundTrip(StructHead(n), rest);
  }

  // ---------------------------------------------------------------- what comes back otherwise

  /** No structure in the value has so many fields that its signature is left out. */
  predicate SignaturesWritten(v: Value)
  {
    match v
    case List(items) => forall x | x in items :: SignaturesWritten(x)
    case Map(entries) => forall e | e in entries :: SignaturesWritten(e.value)
    case Struct(_, fields) => |fields| < 0x100 && forall x | x in fields :: SignaturesWritten(x)
    case _ => true
  }

  /** The reader does not come back with `v`: it fails, or comes back with something else. */
  ghost predicate Differs<T>(r: Result<(T, Bytes), Error>, v: T) { r.Ok? ==> r.value.0 != v }

  /** Sizes from 2^31 on are read as negative. */
  lemma ReadLargeHead(h: Head, rest: Bytes)
    requires h.TextHead? || h.BinaryHead? || h.ListHead? || h.MapHead?
    requires TWO_31 <= h.size < TWO_32
    ensures ReadHead(WriteHead(h) + rest) == Ok((h.(size := h.size - TWO_32), rest))
  {
    hide UInt, SInt, Be2, Be4, ReadInt, Take, Size4;
    LargeSize(h.size);
    Lengths(h.size);
    var m: Byte := if h.TextHead? then 210 else if h.BinaryHead? then 206 else if h.ListHead? then 214 else 218;
    Marked(m, Be4(h.size), rest);
    assert WriteHead(h) + rest == [m] + Be4(h.size) + rest;
  }

  lemma LargeSize(n: int)
    requires TWO_31 <= n < TWO_32
    ensures Size4(Be4(n)) == n - TWO_32
  {
    hide UInt, Be4;
    ReadBe4(n);
  }

  lemma TextDiffers(s: Str, rest: Bytes)
    requires |Utf8.Encode(s)| < TWO_32 && !PlainText(s)
    ensures Differs(Unpack(EncodeText(s) + rest), Text(s))
  {
    hide ReadHead, WriteHead, Utf8.Encode, Utf8.Decode, Paired;
    var u := Utf8.Encode(s);
    assert EncodeText(s) + rest == WriteHead(TextHead(|u|)) + (u + rest);
    if |u| < TWO_31 {
      HeadRoundTrip(TextHead(|u|), u + rest);
      TextRoundTrip(s);
      assert (u + rest)[..|u|] == u;
      DecodedIsPaired(u);
    } else {
      ReadLargeHead(TextHead(|u|), u + rest);
    }
  }

  lemma {:induction false} ItemsDiffer(vs: seq<Value>, rest: Bytes)
    requires forall x | x in vs :: Accepted(x)
    requires forall x | x in vs :: SignaturesWritten(x)
    requires exists x | x in vs :: !Faithful(x)
    ensures Differs(UnpackMany(|vs|, EncodeMany(vs) + rest), vs)
    decreases vs, 1
  {
    hide Accepted, Faithful, SignaturesWritten, PackStream.Encode, Unpack;
    var tail := EncodeMany(vs[1..]) + rest;
    assert EncodeMany(vs) + rest == PackStream.Encode(vs[0]) + tail;
    assert vs == [vs[0]] + vs[1..];
    if Faithful(vs[0]) {
      UnpackInvertsEncode(vs[0], tail);
      ItemsDiffer(vs[1..], rest);
    } else {
      UnfaithfulDiffers(vs[0], tail);
    }
  }

  /** Entries only ever get more; as many as were read only if every key was new, and then those before stay. */
  lemma {:induction false} EntriesGrow(n: nat, bs: Bytes, es: seq<Entry>)
    ensures var r := UnpackEntries(n, bs, es);
      r.Ok? ==> |r.value.0| <= |es| + n && (|r.value.0| == |es| + n ==> es <= r.value.0)
    decreases n
  {
    hide Unpack;
    if n > 0 && Unpack(bs).Ok? && Unpack(Unpack(bs).value.1).Ok? {
      var (k, rest) := Unpack(bs).value;
      var (v, rest') := Unpack(rest).value;
      if k.Text? {
        SetKeyGrows(es, k.s, v);
        EntriesGrow(n - 1, rest', SetKey(es, k.s, v));
      }
    }
  }

  lemma {:induction false} SetKeyGrows(es: seq<Entry>, key: Str, v: Value)
    ensures var n := SetKey(es, key, v);
      || (|n| == |es| && (key == PROTO || exists k :: 0 <= k < |es| && es[k].key == key))
      || (n == es + [Entry(key, v)] && key != PROTO && forall k :: 0 <= k < |es| ==> es[k].key != key)
  {
    if key != PROTO && es != [] && es[0].key != key {
      SetKeyGrows(es[1..], key, v);
      assert es == [es[0]] + es[1..];
      assert forall k :: 0 <= k < |es| - 1 ==> es[1..][k] == es[k + 1];
    }
  }

  /** An entry that is read as another, or whose key is there already or cannot be set, is missed at the end. */
  lemma WrongEntry(n: nat, bs: Bytes, before: seq<Entry>, key: Str, v: Value, e: Entry, after: seq<Entry>)
    requires |after| == n
    requires Entry(key, v) != e || key == PROTO || exists k :: 0 <= k < |before| && before[k].key == key
    ensures Differs(UnpackEntries(n, bs, SetKey(before, key, v)), before + [e] + after)
  {
    var es := SetKey(before, key, v);
    SetKeyGrows(before, key, v);
    EntriesGrow(n, bs, es);
    assert (before + [e] + after)[|before|] == e;
  }

  /** One entry read, unless the key or the value cannot be read or the key is not a text. */
  lemma StepOfEntries(n: nat, bs: Bytes, before: seq<Entry>)
    ensures n > 0 ==>
      if Unpack(bs).Ok? && Unpack(bs).value.0.Text? && Unpack(Unpack(bs).value.1).Ok?
      then
        var (key, rest) := Unpack(bs).value;
        var (v, rest') := Unpack(rest).value;
        UnpackEntries(n, bs, before) == UnpackEntries(n - 1, rest', SetKey(before, key.s, v))
      else UnpackEntries(n, bs, before).Err?
  {
    hide Unpack, SetKey;
  }

  lemma {:induction false} EntriesDiffer(es: seq<Entry>, rest: Bytes, before: seq<Entry>)
    requires forall e | e in es :: |Utf8.Encode(e.key)| < TWO_32 && Accepted(e.value)
    requires forall e | e in es :: SignaturesWritten(e.value)
    requires DistinctKeys(before)
    requires !(DistinctKeys(before + es)
               && forall e | e in es :: PlainText(e.key) && e.key != PROTO && Faithful(e.value))
    ensures Differs(UnpackEntries(|es|, EncodeEntries(es) + rest, before), before + es)
    decreases es, 1
  {
    hide SetKey, UnpackEntries, Accepted, Faithful, SignaturesWritten, PackStream.Encode, Unpack, EncodeText,
         PlainText, Utf8.Encode, DistinctKeys;
    assert before + [] == before;
    StepOfEntries(|es|, EncodeEntries(es) + rest, before);
    if es != [] {
      var e, after := es[0], es[1..];
      var tail := EncodeEntries(after) + rest;
      var value := PackStream.Encode(e.value) + tail;
      assert EncodeEntries(es) + rest == EncodeText(e.key) + value;
      assert before + es == before + [e] + after;
      KeyReads(e.key, value);
      if Faithful(e.value) {
        UnpackInvertsEncode(e.value, tail);
      } else {
        UnfaithfulDiffers(e.value, tail);
      }
      var read := Unpack(EncodeText(e.key) + value);
      if read.Ok? && read.value.0.Text? && Unpack(read.value.1).Ok? {
        var key := read.value.0.s;
        var (v, rest') := Unpack(read.value.1).value;
        if Entry(key, v) != e || key == PROTO || exists k :: 0 <= k < |before| && before[k].key == key {
          WrongEntry(|after|, rest', before, key, v, e, after);
        } else {
          Appended(before, e, after);
          EntriesDiffer(after, rest, before + [e]);
          SetNewKey(before, key, v);
        }
      }
    }
  }

  lemma KeyReads(key: Str, rest: Bytes)
    requires |Utf8.Encode(key)| < TWO_32
    ensures if PlainText(key) then Unpack(EncodeText(key) + rest) == Ok((Text(key), rest))
            else Differs(Unpack(EncodeText(key) + rest), Text(key))
  {
    hide Unpack, EncodeText, PlainText;
    if PlainText(key) {
      UnpackText(key, rest);
    } else {
      TextDiffers(key, rest);
    }
  }

  lemma Appended(before: seq<Entry>, e: Entry, after: seq<Entry>)
    requires DistinctKeys(before) && forall k :: 0 <= k < |before| ==> before[k].key != e.key
    ensures DistinctKeys(before + [e])
  {}

  lemma {:induction false} UnfaithfulDiffers(v: Value, rest: Bytes)
    requires Accepted(v) && SignaturesWritten(v) && !Faithful(v)
    ensures Differs(Unpack(PackStream.Encode(v) + rest), v)
    decreases v, 0
  {
    hide Unpack, UnpackMany, UnpackEntries, PlainText, EncodeMany,
         EncodeEntries, ToBytes, EncodeText, WriteHead, Differs;
    match v
    case Text(s) => TextDiffers(s, rest);
    case Binary(bytes) => LargeDiffers(BinaryHead(|bytes|), ToBytes(bytes), rest, v);
    case List(items) =>
      if |items| < TWO_31 {
        ItemsDiffer(items, rest);
        ListDiffers(items, EncodeMany(items), rest);
      } else {
        LargeDiffers(ListHead(|items|), EncodeMany(items), rest, v);
      }
    case Map(entries) =>
      if |entries| < TWO_31 {
        assert [] + entries == entries;
        EntriesDiffer(entries, rest, []);
        MapDiffers(entries, EncodeEntries(entries), rest);
      } else {
        LargeDiffers(MapHead(|entries|), EncodeEntries(entries), rest, v);
      }
    case Struct(signature, fields) =>
      if GraphSize(signature) < 0 {
        ItemsDiffer(fields, rest);
      }
      StructDiffers(signature, fields, EncodeMany(fields), rest);
  }

  lemma ListDiffers(items: seq<Value>, body: Bytes, rest: Bytes)
    requires |items| < TWO_31 && Differs(UnpackMany(|items|, body + rest), items)
    ensures Differs(Unpack(WriteHead(ListHead(|items|)) + body + rest), List(items))
  {
    hide ReadHead, WriteHead, UnpackMany;
    HeadFirst(ListHead(|items|), body, rest);
  }

  lemma MapDiffers(entries: seq<Entry>, body: Bytes, rest: Bytes)
    requires |entries| < TWO_31 && Differs(UnpackEntries(|entries|, body + rest, []), entries)
    ensures Differs(Unpack(WriteHead(MapHead(|entries|)) + body + rest), Map(entries))
  {
    hide ReadHead, WriteHead, UnpackEntries;
    HeadFirst(MapHead(|entries|), body, rest);
  }

  /** Graph structures come back as graph objects, or not at all. */
  lemma StructDiffers(signature: Byte, fields: seq<Value>, body: Bytes, rest: Bytes)
    requires |fields| < 0x100
    requires GraphSize(signature) < 0 ==> Differs(UnpackMany(|fields|, body + rest), fields)
    ensures Differs(Unpack(WriteHead(StructHead(|fields|)) + ([signature] + body) + rest), Struct(signature, fields))
  {
    hide ReadHead, WriteHead, UnpackMany;
    HeadFirst(StructHead(|fields|), [signature] + body, rest);
    var tail := [signature] + body + rest;
    assert tail[0] == signature && tail[1..] == body + rest;
  }

  lemma HeadFirst(h: Head, body: Bytes, rest: Bytes)
    requires Packable(h)
    ensures ReadHead(WriteHead(h) + body + rest) == Ok((h, body + rest))
  {
    hide ReadHead, WriteHead;
    HeadRoundTrip(h, body + rest);
    assert WriteHead(h) + body + rest == WriteHead(h) + (body + rest);
  }

  lemma LargeDiffers(h: Head, body: Bytes, rest: Bytes, v: Value)
    requires h.BinaryHead? || h.ListHead? || h.MapHead?
    requires TWO_31 <= h.size < TWO_32
    requires v.Binary? || (v.List? && v.items != []) || (v.Map? && v.entries != [])
    ensures Differs(Unpack(WriteHead(h) + body + rest), v)
  {
    hide ReadHead, WriteHead;
    ReadLargeHead(h, body + rest);
    assert WriteHead(h) + body + rest == WriteHead(h) + (body + rest);
  }

  /**
    * Among the values whose signatures are all written, those that come back, leaving exactly what
    * follows, are the faithful ones and no others.
    */
  lemma UnpackInvertsEncodeIff(v: Value, rest: Bytes)
    requires Accepted(v) && SignaturesWritten(v)
    ensures Unpack(PackStream.Encode(v) + rest) == Ok((v, rest)) <==> Faithful(v)
  {
    hide Unpack, PackStream.Encode, Accepted, Faithful, SignaturesWritten;
    if Faithful(v) {
      UnpackInvertsEncode(v, rest);
    } else {
      UnfaithfulDiffers(v, rest);
    }
  }

  lemma {:induction false} AsciiText(s: Str)
    requires forall k :: 0 <= k < |s| ==> s[k] < 0x80
    ensures |Utf8.Encode(s)| == |s| && Paired(s)
  {
    hide EncodeScalar;
    if s != [] {
      AsciiText(s[1..]);
      EncodedBytes(s[0]);
      assert Scalars(s) == [s[0]] + Scalars(s[1..]);
      assert ([s[0]] + Scalars(s[1..]))[1..] == Scalars(s[1..]);
    }
  }

  lemma PlainKey(s: Str)
    requires |s| < 100 && forall k :: 0 <= k < |s| ==> s[k] < 0x80
    ensures PlainText(s) && |Utf8.Encode(s)| < TWO_32
  {
    hide Utf8.Encode, Paired;
    AsciiText(s);
  }

  lemma KeyNames()
    ensures |PROTO| == 9 && forall k :: 0 <= k < |PROTO| ==> PROTO[k] < 0x80
    ensures |IS_INTEGER| == 13 && forall k :: 0 <= k < |IS_INTEGER| ==> IS_INTEGER[k] < 0x80
  {}

  /** The two names, letter by letter. */
  lemma KeysSpelled()
    ensures |PROTO| == |"__proto__"| && forall k :: 0 <= k < |PROTO| ==> PROTO[k] == "__proto__"[k] as int
    ensures |IS_INTEGER| == |"__isInteger__"|
    ensures forall k :: 0 <= k < |IS_INTEGER| ==> IS_INTEGER[k] == "__isInteger__"[k] as int
  {}

  /** What the packer has no marker for. */
  lemma TooLarge(v: Value)
    requires Accepted(v)
    ensures v.Struct? ==> |v.fields| < 0x1_0000
    ensures v.List? ==> |v.items| < 0x1_0000_0000
    ensures v.Map? ==> |v.entries| < 0x1_0000_0000
    ensures v.Binary? ==> |v.bytes| < 0x1_0000_0000
    ensures v.Text? ==> |Utf8.Encode(v.s)| < 0x1_0000_0000
  {
    hide Utf8.Encode;
  }

  /** An entry with the key `__proto__` is packed, and comes back as nothing. */
  lemma ProtoLost(v: Value, rest: Bytes)
    requires Faithful(v)
    ensures var m := Map([Entry(PROTO, v)]);
      Accepted(m) && Unpack(PackStream.Encode(m) + rest) == Ok((Map([]), rest))
  {
    hide *;
    KeyNames();
    PlainKey(PROTO);
    FaithfulIsAccepted(v);
    ProtoEntry(PROTO, v, rest);
    OneEntryAccepted(PROTO, v);
    OneEntry([Entry(PROTO, v)], rest);
  }

  lemma OneEntryAccepted(key: Str, v: Value)
    requires |Utf8.Encode(key)| < TWO_32 && Accepted(v) && Entry(key, v) != Entry(IS_INTEGER, Bool(true))
    ensures Accepted(Map([Entry(key, v)]))
  {
    hide Utf8.Encode;
  }

  lemma OneEntry(entries: seq<Entry>, rest: Bytes)
    requires |entries| == 1 && Accepted(Map(entries))
    ensures forall e | e in entries :: |Utf8.Encode(e.key)| < TWO_32 && Accepted(e.value)
    ensures UnpackEntries(1, EncodeEntries(entries) + rest, []) == Ok(([], rest)) ==>
              Unpack(PackStream.Encode(Map(entries)) + rest) == Ok((Map([]), rest))
  {
    hide EncodeEntries, WriteHead, ReadHead, Utf8.Encode, UnpackEntries;
    HeadFirst(MapHead(1), EncodeEntries(entries), rest);
  }

  lemma ProtoEntry(key: Str, v: Value, rest: Bytes)
    requires key == PROTO && Faithful(v) && Accepted(v) && PlainText(key) && |Utf8.Encode(key)| < TWO_32
    ensures UnpackEntries(1, EncodeEntries([Entry(key, v)]) + rest, []) == Ok(([], rest))
  {
    hide Unpack, EncodeText, Faithful, Accepted, PlainText, PackStream.Encode, Utf8.Encode;
    var value := PackStream.Encode(v) + rest;
    UnpackText(key, value);
    UnpackInvertsEncode(v, rest);
    assert EncodeEntries([]) == [];
    assert EncodeEntries([Entry(key, v)]) + rest == EncodeText(key) + value;
  }

  /** An object that says it is an integer is not packed; saying that it is none does no harm. */
  lemma IntegerLookalike(rest: Bytes)
    ensures !Accepted(Map([Entry(IS_INTEGER, Bool(true))]))
    ensures var m := Map([Entry(IS_INTEGER, Bool(false))]);
      Accepted(m) && Unpack(PackStream.Encode(m) + rest) == Ok((m, rest))
  {
    hide *;
    KeyNames();
    PlainKey(IS_INTEGER);
    LookalikeRefused(IS_INTEGER);
    HonestFaithful(IS_INTEGER);
    UnpackInvertsEncode(Map([Entry(IS_INTEGER, Bool(false))]), rest);
  }

  lemma LookalikeRefused(key: Str)
    requires key == IS_INTEGER
    ensures !Accepted(Map([Entry(key, Bool(true))]))
  {
    hide Utf8.Encode;
    assert Entry(key, Bool(true)) in [Entry(key, Bool(true))];
  }

  lemma HonestFaithful(key: Str)
    requires key == IS_INTEGER && PlainText(key)
    ensures Faithful(Map([Entry(key, Bool(false))]))
  {
    hide PlainText;
    assert |PROTO| != |key|;
  }
}
