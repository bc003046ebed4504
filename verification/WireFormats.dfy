/**
  * The bytes on the wire, written out: one example of every marker and size of PackStream, a chunked
  * message, and every tag of the property maps. Round trips alone would allow any others that agree.
  */
module WireFormats {
  import opened Wrappers
  import opened JsNumber
  import opened JsText
  import opened ByteReading
  import Framing
  import Integer64
  import PackStream
  import PropertyMap

  // ---------------------------------------------------------------- PackStream

  function Whole(low: Int32, high: Int32): (v: PackStream.Value)
  {
    PackStream.Int(Integer64.Integer(low, high))
  }

  lemma SimpleValues()
    ensures PackStream.Encode(PackStream.Null) == [0xC0]
    ensures PackStream.Encode(PackStream.Bool(true)) == [0xC3] && PackStream.Encode(PackStream.Bool(false)) == [0xC2]
    ensures PackStream.Encode(PackStream.Float([0x3F, 0xF0, 0, 0, 0, 0, 0, 0])) == [0xC1, 0x3F, 0xF0, 0, 0, 0, 0, 0, 0]
  {}

  /** Whole numbers, given by their halves, in one, two, three, five and nine bytes. */
  lemma WholeNumbers()
    ensures PackStream.Encode(Whole(1, 0)) == [1] && PackStream.Encode(Whole(-16, -1)) == [0xF0]
    ensures PackStream.Encode(Whole(-17, -1)) == [0xC8, 0xEF] && PackStream.Encode(Whole(128, 0)) == [0xC9, 0, 0x80]
    ensures PackStream.Encode(Whole(-129, -1)) == [0xC9, 0xFF, 0x7F]
    ensures PackStream.Encode(Whole(0x1_0203, 0)) == [0xCA, 0, 1, 2, 3]
    ensures PackStream.Encode(Whole(0x203_0405, 1)) == [0xCB, 0, 0, 0, 1, 2, 3, 4, 5]
  {}

  /** The markers of texts, byte strings, lists, maps and structures, by size. */
  lemma Sizes(n: nat)
    ensures n < 16 ==> PackStream.WriteHead(PackStream.TextHead(n)) == [0x80 + n]
    ensures n < 16 ==> PackStream.WriteHead(PackStream.ListHead(n)) == [0x90 + n]
    ensures n < 16 ==> PackStream.WriteHead(PackStream.MapHead(n)) == [0xA0 + n]
    ensures n < 16 ==> PackStream.WriteHead(PackStream.StructHead(n)) == [0xB0 + n]
    ensures n < 0x100 ==> PackStream.WriteHead(PackStream.BinaryHead(n)) == [0xCC, n]
  {}

  lemma LongSizes()
    ensures PackStream.WriteHead(PackStream.TextHead(16)) == [0xD0, 16]
    ensures PackStream.WriteHead(PackStream.TextHead(0x102)) == [0xD1, 1, 2]
    ensures PackStream.WriteHead(PackStream.TextHead(0x102_0304)) == [0xD2, 1, 2, 3, 4]
    ensures PackStream.WriteHead(PackStream.ListHead(16)) == [0xD4, 16]
    ensures PackStream.WriteHead(PackStream.ListHead(0x102)) == [0xD5, 1, 2]
    ensures PackStream.WriteHead(PackStream.ListHead(0x102_0304)) == [0xD6, 1, 2, 3, 4]
    ensures PackStream.WriteHead(PackStream.MapHead(16)) == [0xD8, 16]
    ensures PackStream.WriteHead(PackStream.MapHead(0x102)) == [0xD9, 1, 2]
    ensures PackStream.WriteHead(PackStream.MapHead(0x102_0304)) == [0xDA, 1, 2, 3, 4]
    ensures PackStream.WriteHead(PackStream.BinaryHead(0x102)) == [0xCD, 1, 2]
    ensures PackStream.WriteHead(PackStream.BinaryHead(0x102_0304)) == [0xCE, 1, 2, 3, 4]
    ensures PackStream.WriteHead(PackStream.StructHead(16)) == [0xDC, 16]
    ensures PackStream.WriteHead(PackStream.StructHead(0x102)) == [0xDD, 1, 2]
  {}

  /** A structure with signature 0x71 of a list of one and the byte string of -1. */
  lemma Composite()
    ensures var v := PackStream.Struct(0x71, [PackStream.List([PackStream.Null]), PackStream.Binary([-1])]);
      PackStream.Accepted(v) && PackStream.Encode(v) == [0xB2, 0x71, 0x91, 0xC0, 0xCC, 1, 0xFF]
  {
    var list := PackStream.List([PackStream.Null]);
    var bytes := PackStream.Binary([-1]);
    OneNull();
    OneByteString();
    hide PackStream.Encode, PackStream.Accepted;
    assert [list, bytes][1..] == [bytes] && [bytes][1..] == [];
    assert PackStream.EncodeMany([bytes]) == PackStream.Encode(bytes) + [];
    assert PackStream.EncodeMany([list, bytes]) == PackStream.Encode(list) + PackStream.EncodeMany([bytes]);
    StructBytes(list, bytes);
  }

  lemma OneNull()
    ensures var list := PackStream.List([PackStream.Null]);
      PackStream.Accepted(list) && PackStream.Encode(list) == [0x91, 0xC0]
  {
    assert PackStream.EncodeMany([PackStream.Null]) == [0xC0] + PackStream.EncodeMany([PackStream.Null][1..]) == [0xC0];
  }

  lemma OneByteString()
    ensures var bytes := PackStream.Binary([-1]);
      PackStream.Accepted(bytes) && PackStream.Encode(bytes) == [0xCC, 1, 0xFF]
  {
    assert PackStream.ToBytes([-1]) == [0xFF] + PackStream.ToBytes([-1][1..]) == [0xFF];
  }

  lemma StructBytes(a: PackStream.Value, b: PackStream.Value)
    requires PackStream.Accepted(a) && PackStream.Accepted(b)
    ensures var v := PackStream.Struct(0x71, [a, b]);
      && PackStream.Accepted(v) && (forall x | x in [a, b] :: PackStream.Accepted(x))
      && PackStream.Encode(v) == [0xB2, 0x71] + PackStream.EncodeMany([a, b])
  {
    hide PackStream.EncodeMany;
    assert PackStream.WriteHead(PackStream.StructHead(2)) == [0xB2];
  }

  // ---------------------------------------------------------------- chunks

  /** A message of 258 bytes in one chunk, and a message of two bytes in two chunks. */
  lemma Chunks(content: Bytes)
    requires |content| == 258
    ensures Framing.Feed(Framing.Awaiting([]), [1, 2] + content + [0, 0]) == (Framing.Awaiting([]), [content])
    ensures Framing.Feed(Framing.Awaiting([]), [0, 1, 5, 0, 1, 6, 0, 0]) == (Framing.Awaiting([]), [[5, 6]])
  {
    LongChunk(content);
    ShortChunks();
  }

  lemma LongChunk(content: Bytes)
    requires |content| == 258
    ensures Framing.Feed(Framing.Awaiting([]), [1, 2] + content + [0, 0]) == (Framing.Awaiting([]), [content])
  {
    hide Framing.Feed;
    assert Framing.Header(258) == [1, 2] && Framing.Header(0) == [0, 0];
    Framing.FeedChunk([], content);
    Framing.FeedChunk(content, content);
    Framing.FeedConcat(Framing.Awaiting([]), [1, 2] + content, [0, 0]);
    assert [] + content == content;
    assert [] + [content] == [content];
  }

  lemma ShortChunks()
    ensures Framing.Feed(Framing.Awaiting([]), [0, 1, 5, 0, 1, 6, 0, 0]) == (Framing.Awaiting([]), [[5, 6]])
  {
    hide Framing.Feed;
    assert Framing.Header(1) == [0, 1] && Framing.Header(0) == [0, 0];
    Framing.FeedChunk([], [5]);
    Framing.FeedChunk([5], [6]);
    Framing.FeedChunk([5, 6], [6]);
    var first: Bytes := [0, 1] + [5];
    var second: Bytes := [0, 1] + [6];
    var none: seq<Bytes> := [];
    assert [] + [5] == [5] && [5] + [6] == [5, 6];
    assert Framing.Feed(Framing.Awaiting([]), first) == (Framing.Awaiting([5]), none);
    assert Framing.Feed(Framing.Awaiting([5]), second) == (Framing.Awaiting([5, 6]), none);
    Framing.FeedConcat(Framing.Awaiting([5]), second, [0, 0]);
    Framing.FeedConcat(Framing.Awaiting([]), first, second + [0, 0]);
    assert none + (none + [[5, 6]]) == [[5, 6]];
    assert first + (second + [0, 0]) == [0, 1, 5, 0, 1, 6, 0, 0];
  }

  // ---------------------------------------------------------------- property maps

  lemma FourBytes(n: nat, a: Byte, b: Byte, c: Byte, d: Byte)
    requires n == ((a * 0x100 + b) * 0x100 + c) * 0x100 + d
    ensures PropertyMap.BigEndian(n, 4) == [a, b, c, d]
  {
    var (x, y, z) := (a as int, a * 0x100 + b, (a * 0x100 + b) * 0x100 + c);
    assert n / 0x100 == z && z / 0x100 == y && y / 0x100 == x && x / 0x100 == 0;
    assert PropertyMap.BigEndian(0, 0) == [];
    assert PropertyMap.BigEndian(x, 1) == [a];
    assert PropertyMap.BigEndian(y, 2) == [a, b];
    assert PropertyMap.BigEndian(z, 3) == [a, b, c];
  }

  /** Four more bytes in front. */
  lemma {:induction false} HighBytes(high: nat, low: nat, k: nat, w: nat)
    requires low < PropertyMap.Bound(w)
    ensures PropertyMap.BigEndian(high * PropertyMap.Bound(w) + low, k + w)
         == PropertyMap.BigEndian(high, k) + PropertyMap.BigEndian(low, w)
    decreases w
  {
    if w == 0 {
      assert PropertyMap.BigEndian(high, k) + [] == PropertyMap.BigEndian(high, k);
    } else {
      var n := high * PropertyMap.Bound(w) + low;
      var rest := high * PropertyMap.Bound(w - 1) + low / 0x100;
      assert n == rest * 0x100 + low % 0x100;
      HighBytes(high, low / 0x100, k, w - 1);
    }
  }

  /** Tags 1 to 6, sizes and numbers big-endian. */
  lemma ScalarBytes(cs: PropertyMap.Charset)
    ensures PropertyMap.WriteAny(PropertyMap.Scalar(PropertyMap.IntKind, 0x1_0203), cs) == Ok([2, 0, 1, 2, 3])
    ensures PropertyMap.WriteAny(PropertyMap.Scalar(PropertyMap.IntKind, -2), cs) == Ok([2, 0xFF, 0xFF, 0xFF, 0xFE])
    ensures PropertyMap.WriteAny(PropertyMap.Scalar(PropertyMap.FloatKind, 0x1_0203), cs) == Ok([5, 0, 1, 2, 3])
    ensures PropertyMap.WriteAny(PropertyMap.Scalar(PropertyMap.BooleanKind, 1), cs) == Ok([6, 1])
  {
    FourBytes(0x1_0203, 0, 1, 2, 3);
    FourBytes(0xFFFF_FFFE, 0xFF, 0xFF, 0xFF, 0xFE);
    assert PropertyMap.BigEndian(1, 1) == PropertyMap.BigEndian(0, 0) + [1] == [1];
    hide PropertyMap.BigEndian;
    assert PropertyMap.Field(PropertyMap.IntKind, 0x1_0203) == [0, 1, 2, 3];
    assert PropertyMap.Field(PropertyMap.IntKind, -2) == [0xFF, 0xFF, 0xFF, 0xFE];
    assert PropertyMap.Field(PropertyMap.FloatKind, 0x1_0203) == [0, 1, 2, 3];
    assert PropertyMap.Field(PropertyMap.BooleanKind, 1) == [1];
    assert [2] + [0, 1, 2, 3] == [2, 0, 1, 2, 3] && [5] + [0, 1, 2, 3] == [5, 0, 1, 2, 3] && [6] + [1] == [6, 1];
    assert [2] + [0xFF, 0xFF, 0xFF, 0xFE] == [2, 0xFF, 0xFF, 0xFF, 0xFE];
  }

  /** The least and the greatest numbers of both widths. */
  lemma EndsOfRange(cs: PropertyMap.Charset)
    ensures PropertyMap.InRange(PropertyMap.IntKind, -0x8000_0000)
    ensures PropertyMap.InRange(PropertyMap.IntKind, 0x7FFF_FFFF)
    ensures PropertyMap.InRange(PropertyMap.LongKind, -0x8000_0000_0000_0000)
    ensures PropertyMap.InRange(PropertyMap.LongKind, 0x7FFF_FFFF_FFFF_FFFF)
    ensures PropertyMap.InRange(PropertyMap.DoubleKind, 0) && PropertyMap.InRange(PropertyMap.FloatKind, 0)
    ensures PropertyMap.InRange(PropertyMap.DoubleKind, 0xFFFF_FFFF_FFFF_FFFF)
    ensures PropertyMap.InRange(PropertyMap.FloatKind, 0xFFFF_FFFF) && PropertyMap.InRange(PropertyMap.BooleanKind, 0)
    ensures PropertyMap.WriteAny(PropertyMap.Scalar(PropertyMap.IntKind, -0x8000_0000), cs) == Ok([2, 0x80, 0, 0, 0])
  {
    FourBytes(0x8000_0000, 0x80, 0, 0, 0);
    hide PropertyMap.BigEndian;
    assert PropertyMap.Field(PropertyMap.IntKind, -0x8000_0000) == [0x80, 0, 0, 0];
    assert [2] + [0x80, 0, 0, 0] == [2, 0x80, 0, 0, 0];
  }

  lemma LongBytes(cs: PropertyMap.Charset)
    ensures PropertyMap.WriteAny(PropertyMap.Scalar(PropertyMap.LongKind, 0x1_0203_0405), cs)
         == Ok([3, 0, 0, 0, 1, 2, 3, 4, 5])
    ensures PropertyMap.WriteAny(PropertyMap.Scalar(PropertyMap.DoubleKind, 0x1_0203_0405), cs)
         == Ok([4, 0, 0, 0, 1, 2, 3, 4, 5])
  {
    hide PropertyMap.BigEndian;
    PropertyMap.Bounds();
    FourBytes(1, 0, 0, 0, 1);
    FourBytes(0x203_0405, 2, 3, 4, 5);
    HighBytes(1, 0x203_0405, 4, 4);
    var eight: Bytes := [0, 0, 0, 1, 2, 3, 4, 5];
    assert PropertyMap.BigEndian(0x1_0203_0405, 8) == [0, 0, 0, 1] + [2, 3, 4, 5] == eight;
    assert PropertyMap.Field(PropertyMap.LongKind, 0x1_0203_0405) == eight;
    assert PropertyMap.Field(PropertyMap.DoubleKind, 0x1_0203_0405) == eight;
    assert [3] + eight == [3, 0, 0, 0, 1, 2, 3, 4, 5] && [4] + eight == [4, 0, 0, 0, 1, 2, 3, 4, 5];
  }

  /** Arrays under the negated tags, texts with their length in bytes. */
  lemma ArrayBytes(cs: PropertyMap.Charset)
    requires cs.encode("x") == [0x78]
    ensures PropertyMap.WriteAny(PropertyMap.Text("x"), cs) == Ok([1, 0, 0, 0, 1, 0x78])
    ensures PropertyMap.WriteAny(PropertyMap.Numbers(PropertyMap.IntKind, [7]), cs)
         == Ok([0xFE, 0, 0, 0, 1, 0, 0, 0, 7])
  {
    hide PropertyMap.BigEndian;
    FourBytes(1, 0, 0, 0, 1);
    FourBytes(7, 0, 0, 0, 7);
    var none: seq<int> := [];
    assert [7][1..] == none && PropertyMap.Fields(PropertyMap.IntKind, none) == [];
    assert PropertyMap.Field(PropertyMap.IntKind, 7) == [0, 0, 0, 7];
    assert PropertyMap.Fields(PropertyMap.IntKind, [7]) == [0, 0, 0, 7] + [];
    assert PropertyMap.Size(1) == [0, 0, 0, 1];
    assert PropertyMap.WriteString("x", cs) == [1] + [0, 0, 0, 1] + [0x78] == [1, 0, 0, 0, 1, 0x78];
    assert [0xFE] + [0, 0, 0, 1] + ([0, 0, 0, 7] + []) == [0xFE, 0, 0, 0, 1, 0, 0, 0, 7];
  }

  /** An array of no elements reads as such, though none is written; one of a negative number is refused. */
  lemma EmptyAndNegative(cs: PropertyMap.Charset, rest: Bytes)
    ensures PropertyMap.ReadAny(cs, [0xFE, 0, 0, 0, 0] + rest)
         == Ok((PropertyMap.Numbers(PropertyMap.IntKind, []), rest))
    ensures PropertyMap.ReadAny(cs, [0xFE, 0xFF, 0xFF, 0xFF, 0xFF] + rest) == Err(PropertyMap.NegativeSize)
    ensures PropertyMap.ReadAny(cs, [1, 0xFF, 0xFF, 0xFF, 0xFF] + rest) == Err(PropertyMap.NegativeSize)
    ensures PropertyMap.ReadMap(cs, [0xFF, 0xFF, 0xFF, 0xFF] + rest) == Ok((map[], rest))
  {
    hide *;
    SizeBytes(rest);
    EmptyArray(cs, rest);
    NegativeSizes(cs, rest);
  }

  /** What a size of zero and a size of minus one are read as. */
  lemma SizeBytes(rest: Bytes)
    ensures PropertyMap.ReadNumber(PropertyMap.IntKind, [0, 0, 0, 0] + rest) == Ok((0, rest))
    ensures PropertyMap.ReadNumber(PropertyMap.IntKind, [0xFF, 0xFF, 0xFF, 0xFF] + rest) == Ok((-1, rest))
  {
    FourBytes(0, 0, 0, 0, 0);
    FourBytes(0xFFFF_FFFF, 0xFF, 0xFF, 0xFF, 0xFF);
    hide PropertyMap.BigEndian, PropertyMap.ReadNumber;
    PropertyMap.ReadField(PropertyMap.IntKind, 0, rest);
    PropertyMap.ReadField(PropertyMap.IntKind, -1, rest);
    assert PropertyMap.Field(PropertyMap.IntKind, 0) == [0, 0, 0, 0];
    assert PropertyMap.Field(PropertyMap.IntKind, -1) == [0xFF, 0xFF, 0xFF, 0xFF];
  }

  lemma EmptyArray(cs: PropertyMap.Charset, rest: Bytes)
    requires PropertyMap.ReadNumber(PropertyMap.IntKind, [0, 0, 0, 0] + rest) == Ok((0, rest))
    ensures PropertyMap.ReadAny(cs, [0xFE, 0, 0, 0, 0] + rest)
         == Ok((PropertyMap.Numbers(PropertyMap.IntKind, []), rest))
    ensures PropertyMap.ReadAny(cs, [0xFF, 0, 0, 0, 0] + rest) == Ok((PropertyMap.Texts([]), rest))
  {
    hide PropertyMap.ReadNumber;
    assert ([0xFE, 0, 0, 0, 0] + rest)[1..] == [0, 0, 0, 0] + rest;
    assert ([0xFF, 0, 0, 0, 0] + rest)[1..] == [0, 0, 0, 0] + rest;
  }

  lemma NegativeSizes(cs: PropertyMap.Charset, rest: Bytes)
    requires PropertyMap.ReadNumber(PropertyMap.IntKind, [0xFF, 0xFF, 0xFF, 0xFF] + rest) == Ok((-1, rest))
    ensures PropertyMap.ReadAny(cs, [0xFE, 0xFF, 0xFF, 0xFF, 0xFF] + rest) == Err(PropertyMap.NegativeSize)
    ensures PropertyMap.ReadAny(cs, [1, 0xFF, 0xFF, 0xFF, 0xFF] + rest) == Err(PropertyMap.NegativeSize)
    ensures PropertyMap.ReadMap(cs, [0xFF, 0xFF, 0xFF, 0xFF] + rest) == Ok((map[], rest))
  {
    hide PropertyMap.ReadNumber;
    assert ([0xFE, 0xFF, 0xFF, 0xFF, 0xFF] + rest)[1..] == [0xFF, 0xFF, 0xFF, 0xFF] + rest;
    assert ([1, 0xFF, 0xFF, 0xFF, 0xFF] + rest)[1..] == [0xFF, 0xFF, 0xFF, 0xFF] + rest;
  }

  /** What the reader makes of tags that the writer never writes: arrays of texts, and null for the unknown. */
  lemma OtherTags(cs: PropertyMap.Charset, rest: Bytes)
    ensures PropertyMap.ReadAny(cs, [0xFF, 0, 0, 0, 0] + rest) == Ok((PropertyMap.Texts([]), rest))
    ensures PropertyMap.ReadAny(cs, [0xF9] + rest) == Ok((PropertyMap.Null, rest))
    ensures PropertyMap.ReadAny(cs, [7] + rest) == PropertyMap.ReadAny(cs, [0] + rest) == Ok((PropertyMap.Null, rest))
  {
    SizeBytes(rest);
    EmptyArray(cs, rest);
    hide PropertyMap.ReadNumber;
    assert ([0xF9] + rest)[1..] == rest && ([7] + rest)[1..] == rest && ([0] + rest)[1..] == rest;
  }

  /** The tags of all arrays: minus two to minus six. */
  lemma ArrayTags()
    ensures PropertyMap.ArrayTag(PropertyMap.Tag(PropertyMap.IntKind)) == 0xFE
    ensures PropertyMap.ArrayTag(PropertyMap.Tag(PropertyMap.LongKind)) == 0xFD
    ensures PropertyMap.ArrayTag(PropertyMap.Tag(PropertyMap.DoubleKind)) == 0xFC
    ensures PropertyMap.ArrayTag(PropertyMap.Tag(PropertyMap.FloatKind)) == 0xFB
    ensures PropertyMap.ArrayTag(PropertyMap.Tag(PropertyMap.BooleanKind)) == 0xFA
  {}
}
