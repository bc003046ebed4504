/**
  * The buffers that cut outgoing bytes into chunks and put incoming chunks together again. Both are
  * proved against the byte-at-a-time machine: the chunker's output, whatever the buffer size and
  * wherever it flushes, means exactly what was written to it, and the dechunker computes the machine.
  */
module Chunking {
  import opened Wrappers
  import opened ByteReading
  import opened Framing

  const DEFAULT_BUFFER_SIZE := 1400

  lemma {:induction false} FlattenAppend(parts: seq<Bytes>, last: Bytes)
    ensures Flatten(parts + [last]) == Flatten(parts) + last
  {
    if parts == [] {
      assert Flatten([last]) == last + [];
    } else {
      assert (parts + [last])[1..] == parts[1..] + [last];
      FlattenAppend(parts[1..], last);
      assert parts[0] + (Flatten(parts[1..]) + last) == parts[0] + Flatten(parts[1..]) + last;
    }
  }

  lemma PatchHeader(before: Bytes, after: Bytes, start: nat, end: nat, size: nat)
    requires start + 2 <= end <= |before| && size == end - (start + 2) < 0x1_0000
    requires after == before[start := size / 0x100][start + 1 := size % 0x100]
    ensures after[..end] == before[..start] + (Header(size) + before[start + 2..end])
  {}

  /** A stream that stands for `messages` and `p`, with one more chunk. */
  lemma FeedMore(stream: Bytes, p: Bytes, messages: seq<Bytes>, content: Bytes)
    requires Feed(Awaiting([]), stream) == (Awaiting(p), messages)
    requires 0 < |content| < 0x1_0000
    ensures Feed(Awaiting([]), stream + (Header(|content|) + content)) == (Awaiting(p + content), messages)
  {
    FeedChunk(p, content);
    FeedConcat(Awaiting([]), stream, Header(|content|) + content);
    assert messages + [] == messages;
  }

  lemma FeedBoundary(stream: Bytes, p: Bytes, messages: seq<Bytes>)
    requires Feed(Awaiting([]), stream) == (Awaiting(p), messages)
    ensures Feed(Awaiting([]), stream + Header(0)) == (Awaiting([]), messages + [p])
  {
    FeedChunk(p, [0]);
    FeedConcat(Awaiting([]), stream, Header(0));
  }

  /**
    * `sent` is what the channel has been given. The ghost fields are the messages completed, the bytes
    * written since, and those of them before the open chunk; the invariant says that the stream, read
    * back, is exactly those.
    */
  class Chunker {
    const bufferSize: nat
    var buffer: array<Byte>
    var position: nat
    var currentChunkStart: nat
    var chunkOpen: bool
    var sent: seq<Bytes>
    ghost var messages: seq<Bytes>
    ghost var pending: Bytes
    ghost var before: Bytes

    /** The stream up to the chunk still open. */
    ghost function Closed(): (bs: Bytes)
      reads this, buffer
      requires currentChunkStart <= buffer.Length && position <= buffer.Length
    {
      Flatten(sent) + buffer[..if chunkOpen then currentChunkStart else position]
    }

    ghost function OpenContent(): (bs: Bytes)
      reads this, buffer
      requires currentChunkStart + 2 <= position <= buffer.Length
    {
      buffer[currentChunkStart + 2..position]
    }

    ghost predicate Sized()
      reads this, buffer
    {
      && buffer.Length == bufferSize && 10 <= bufferSize <= 65537
      && position <= bufferSize && currentChunkStart <= bufferSize
      && (chunkOpen ==> currentChunkStart + 2 <= position)
    }

    /** The invariant in the middle of a write, when a chunk may just have been opened. */
    ghost predicate Consistent()
      reads this, buffer
    {
      && Sized()
      && Reads(if chunkOpen then before else pending)
      && (chunkOpen ==> pending == before + OpenContent())
    }

    /** The stream up to the open chunk stands for the messages and the bytes `p` after them. */
    ghost predicate Reads(p: Bytes)
      reads this, buffer
      requires Sized()
    {
      Feed(Awaiting([]), Closed()) == (Awaiting(p), messages)
    }

    /** Between calls an open chunk is never empty. */
    ghost predicate Valid()
      reads this, buffer
    {
      Consistent() && (chunkOpen ==> currentChunkStart + 2 < position)
    }

    constructor (size: nat)
      requires size == 0 || 10 <= size <= 65537
      ensures Valid() && fresh(buffer)
      ensures messages == [] && pending == [] && sent == []
      ensures bufferSize == if size == 0 then DEFAULT_BUFFER_SIZE else size
    {
      bufferSize := if size == 0 then DEFAULT_BUFFER_SIZE else size;
      buffer := new Byte[if size == 0 then DEFAULT_BUFFER_SIZE else size](_ => 0);
      position, currentChunkStart, chunkOpen := 0, 0, false;
      sent, messages, pending, before := [], [], [], [];
    }

    /** Writes the length in front of the open chunk, which is never empty. */
    method CloseChunkIfOpen()
      requires Valid()
      modifies this`chunkOpen, buffer
      ensures Valid() && !chunkOpen
    {
      hide Feed, Flatten;
      if chunkOpen {
        var size := position - (currentChunkStart + 2);
        ghost var stream, content, bytes := Closed(), OpenContent(), buffer[..];
        buffer[currentChunkStart] := size / 0x100;
        buffer[currentChunkStart + 1] := size % 0x100;
        chunkOpen := false;
        PatchHeader(bytes, buffer[..], currentChunkStart, position, size);
        assert Closed() == stream + (Header(size) + content);
        FeedMore(stream, before, messages, content);
      }
    }

    method Flush()
      requires Valid()
      modifies this`buffer, this`position, this`chunkOpen, this`sent, buffer
      ensures Valid() && !chunkOpen && position == 0
      ensures buffer == old(buffer) || fresh(buffer)
      ensures old(sent) <= sent
      ensures Feed(Awaiting([]), Flatten(sent)) == (Awaiting(pending), messages)
    {
      hide Feed;
      if position > 0 {
        CloseChunkIfOpen();
        ghost var stream := Closed();
        FlattenAppend(sent, buffer[..position]);
        sent := sent + [buffer[..position]];
        buffer := new Byte[bufferSize](_ => 0);
        position := 0;
        chunkOpen := false;
        assert Closed() == stream;
      }
      assert Closed() == Flatten(sent);
    }

    method MessageBoundary()
      requires Valid()
      modifies this, buffer
      ensures Valid() && (buffer == old(buffer) || fresh(buffer))
      ensures old(sent) <= sent
      ensures messages == old(messages) + [old(pending)] && pending == []
    {
      hide Feed, Flatten;
      CloseChunkIfOpen();
      if buffer.Length - position < 2 {
        Flush();
      }
      WriteBoundary();
    }

    method WriteBoundary()
      requires Valid() && !chunkOpen && position + 2 <= buffer.Length
      modifies this`position, this`messages, this`pending, buffer
      ensures Valid()
      ensures messages == old(messages) + [old(pending)] && pending == []
    {
      hide Feed, Flatten;
      ghost var stream := Closed();
      FeedBoundary(stream, pending, messages);
      buffer[position] := 0;
      buffer[position + 1] := 0;
      position := position + 2;
      assert buffer[..position] == old(buffer[..position]) + Header(0);
      assert Closed() == stream + Header(0);
      messages, pending := messages + [pending], [];
    }

    /** Makes room for `size` bytes in an open chunk. */
    method Ensure(size: nat)
      requires Valid() && 0 < size <= 8
      modifies this`buffer, this`position, this`chunkOpen, this`sent, this`currentChunkStart, this`before, buffer
      ensures Consistent() && chunkOpen && position + size <= buffer.Length
      ensures buffer == old(buffer) || fresh(buffer)
      ensures old(sent) <= sent
    {
      hide Feed, Flatten;
      var toWrite := if chunkOpen then size else size + 2;
      if buffer.Length - position < toWrite {
        Flush();
      }
      if !chunkOpen {
        currentChunkStart := position;
        position := position + 2;
        chunkOpen := true;
        before := pending;
        assert OpenContent() == [] && pending == before + [];
      }
    }

    /** Copies bytes into the open chunk. */
    method Append(bs: Bytes)
      requires Consistent() && chunkOpen && position + |bs| <= buffer.Length && bs != []
      modifies this`position, this`pending, buffer
      ensures Valid() && chunkOpen && position == old(position) + |bs|
      ensures pending == old(pending) + bs
    {
      hide Feed, Flatten;
      ghost var bytes := buffer[..];
      forall i | 0 <= i < |bs| {
        buffer[position + i] := bs[i];
      }
      position := position + |bs|;
      pending := pending + bs;
      assert buffer[..currentChunkStart] == bytes[..currentChunkStart];
      assert OpenContent() == bytes[currentChunkStart + 2..old(position)] + bs;
    }

    method PutUInt8(b: Byte)
      requires Valid()
      modifies this, buffer
      ensures Valid() && (buffer == old(buffer) || fresh(buffer))
      ensures old(sent) <= sent
      ensures messages == old(messages) && pending == old(pending) + [b]
    {
      Ensure(1);
      Append([b]);
    }

    /** Eight bytes that are never split over two chunks. */
    method PutFloat64(bits: Bytes)
      requires Valid() && |bits| == 8
      modifies this, buffer
      ensures Valid() && (buffer == old(buffer) || fresh(buffer))
      ensures old(sent) <= sent
      ensures messages == old(messages) && pending == old(pending) + bits
    {
      Ensure(8);
      Append(bits);
    }

    /** Any number of bytes, filling one buffer after another. */
    method PutBytes(bs: Bytes)
      requires Valid()
      modifies this, buffer
      ensures Valid() && (buffer == old(buffer) || fresh(buffer))
      ensures old(sent) <= sent
      ensures messages == old(messages) && pending == old(pending) + bs
    {
      hide Consistent;
      var rest := bs;
      assert bs == bs[..0] + rest;
      while rest != []
        invariant Valid() && (buffer == old(buffer) || fresh(buffer)) && old(sent) <= sent
        invariant messages == old(messages) && pending + rest == old(pending) + bs
        decreases |rest|
      {
        Ensure(1);
        var room := buffer.Length - position;
        if room > |rest| {
          Append(rest);
          rest := [];
        } else {
          ghost var p := pending;
          assert p + rest == p + rest[..room] + rest[room..];
          Append(rest[..room]);
          rest := rest[room..];
        }
      }
      assert pending + [] == pending;
    }
  }

  // ---------------------------------------------------------------- reading

  /** What the dechunker hands on: a single slice as it is, several as one combined buffer. */
  datatype Message = Single(slice: Bytes) | Combined(buffers: seq<Bytes>)

  function Content(m: Message): (bs: Bytes)
  {
    match m
    case Single(slice) => slice
    case Combined(buffers) => Flatten(buffers)
  }

  function Contents(ms: seq<Message>): (bs: seq<Bytes>)
  {
    if ms == [] then [] else Contents(ms[..|ms| - 1]) + [Content(ms[|ms| - 1])]
  }

  datatype DechunkerState = AWAITING_CHUNK | IN_HEADER | IN_CHUNK

  class Dechunker {
    var currentMessage: seq<Bytes>
    var partialChunkHeader: nat
    var chunkSize: nat
    var state: DechunkerState
    var delivered: seq<Message>

    ghost predicate Valid()
      reads this
    {
      && (state.IN_HEADER? ==> partialChunkHeader % 0x100 == 0 && partialChunkHeader < 0x1_0000)
      && (state.IN_CHUNK? ==> 0 < chunkSize)
    }

    /** The phase of the byte-at-a-time machine this state stands for. */
    ghost function Phase(): (p: Framing.Phase)
      reads this
      requires Valid()
    {
      match state
      case AWAITING_CHUNK => Awaiting(Flatten(currentMessage))
      case IN_HEADER => InHeader(partialChunkHeader / 0x100, Flatten(currentMessage))
      case IN_CHUNK => InChunk(chunkSize, Flatten(currentMessage))
    }

    constructor ()
      ensures Valid() && Phase() == Awaiting([]) && delivered == []
    {
      currentMessage, partialChunkHeader, chunkSize, state, delivered := [], 0, 0, AWAITING_CHUNK, [];
    }

    method OnHeader(size: nat)
      requires Valid() && size < 0x1_0000
      modifies this
      ensures Valid()
      ensures var (p, m) := AfterHeader(size, Flatten(old(currentMessage)));
              Phase() == p && Contents(delivered) == Contents(old(delivered)) + m
    {
      if size == 0 {
        FlattenSingle(currentMessage);
        var message := if |currentMessage| == 1 then Single(currentMessage[0]) else Combined(currentMessage);
        currentMessage := [];
        delivered := delivered + [message];
        assert delivered[..|delivered| - 1] == old(delivered);
        state := AWAITING_CHUNK;
      } else {
        chunkSize := size;
        state := IN_CHUNK;
        assert Contents(delivered) == Contents(delivered) + [];
      }
    }

    /** Handles as much of the input from `at` on as the current state takes in one go. */
    method Advance(bs: Bytes, at: nat) returns (next: nat)
      requires Valid() && at < |bs|
      modifies this
      ensures Valid() && at < next <= |bs|
      ensures var (p, m) := Feed(old(Phase()), bs[at..next]);
              Phase() == p && Contents(delivered) == Contents(old(delivered)) + m
    {
      hide Feed, Contents, Flatten;
      var b: nat := bs[at];
      match state
      case AWAITING_CHUNK =>
        if |bs| - at >= 2 {
          FeedTwo(Phase().current, bs[at], bs[at + 1]);
          assert bs[at..at + 2] == [bs[at], bs[at + 1]];
          OnHeader(b * 0x100 + bs[at + 1]);
          next := at + 2;
        } else {
          FeedByte(Phase(), bs[at], []);
          assert bs[at..at + 1] == [bs[at]];
          partialChunkHeader := b * 0x100;
          state := IN_HEADER;
          next := at + 1;
        }
      case IN_HEADER =>
        FeedByte(Phase(), bs[at], []);
        assert bs[at..at + 1] == [bs[at]];
        OnHeader((partialChunkHeader + b) % 0x1_0000);
        next := at + 1;
      case IN_CHUNK =>
        var remaining := |bs| - at;
        next := if chunkSize <= remaining then at + chunkSize else |bs|;
        FeedWithin(chunkSize, Flatten(currentMessage), bs[at..next]);
        FlattenAppend(currentMessage, bs[at..next]);
        currentMessage := currentMessage + [bs[at..next]];
        if chunkSize <= remaining {
          state := AWAITING_CHUNK;
        } else {
          chunkSize := chunkSize - remaining;
        }
    }

    /** Feeds the machine, whatever was read before and wherever the input was cut. */
    method Write(bs: Bytes)
      requires Valid()
      modifies this
      ensures Valid()
      ensures var (p, m) := Feed(old(Phase()), bs);
              Phase() == p && Contents(delivered) == Contents(old(delivered)) + m
    {
      hide Flatten, Contents;
      var at := 0;
      assert bs[..0] == [];
      while at < |bs|
        invariant Valid() && at <= |bs|
        invariant var (p, m) := Feed(old(Phase()), bs[..at]);
                  Phase() == p && Contents(delivered) == Contents(old(delivered)) + m
        decreases |bs| - at
      {
        ghost var done, soFar := bs[..at], Contents(delivered);
        ghost var p := Phase();
        var next := Advance(bs, at);
        FeedConcat(old(Phase()), done, bs[at..next]);
        assert bs[..next] == done + bs[at..next];
        at := next;
      }
      assert bs[..at] == bs;
    }
  }

  lemma FlattenSingle(parts: seq<Bytes>)
    ensures |parts| == 1 ==> parts[0] == Flatten(parts)
    ensures Flatten([]) == []
  {
    if |parts| == 1 {
      assert parts[1..] == [];
    }
  }

  lemma FeedTwo(cur: Bytes, hi: Byte, lo: Byte)
    ensures Feed(Awaiting(cur), [hi, lo]) == AfterHeader(hi * 0x100 + lo, cur)
  {
    var n: int := hi * 0x100 + lo;
    assert n / 0x100 == hi && n % 0x100 == lo;
    FeedHeader(cur, n);
  }

  /** A byte of a combined buffer is the byte of the concatenation at that index. */
  method GetUInt8(buffers: seq<Bytes>, position: nat) returns (b: Option<Byte>)
    ensures b == if position < |Flatten(buffers)| then Some(Flatten(buffers)[position]) else None
  {
    var e := position;
    assert buffers[0..] == buffers;
    for t := 0 to |buffers|
      invariant e >= 0
      invariant (position < |Flatten(buffers)|) == (e < |Flatten(buffers[t..])|)
      invariant e < |Flatten(buffers[t..])| ==> Flatten(buffers)[position] == Flatten(buffers[t..])[e]
    {
      var n := buffers[t];
      assert buffers[t..][1..] == buffers[t + 1..];
      if e < |n| {
        return Some(n[e]);
      }
      e := e - |n|;
    }
    return None;
  }

  // ---------------------------------------------------------------- both ends together

  datatype Operation = Put(bytes: Bytes) | PutDouble(bits: Bytes) | Boundary | FlushNow

  predicate WellFormed(op: Operation) { op.PutDouble? ==> |op.bits| == 8 }

  /** The messages that a run of operations completes, and what follows the last of them. */
  function Meaning(ops: seq<Operation>): (r: (seq<Bytes>, Bytes))
  {
    if ops == [] then ([], [])
    else
      var (ms, rest) := Meaning(ops[..|ops| - 1]);
      match ops[|ops| - 1]
      case Put(bytes) => (ms, rest + bytes)
      case PutDouble(bits) => (ms, rest + bits)
      case Boundary => (ms + [rest], [])
      case FlushNow => (ms, rest)
  }

  /** Runs the operations on a new chunker and returns what the channel got. */
  method RunChunker(bufferSize: nat, ops: seq<Operation>) returns (sent: seq<Bytes>)
    requires bufferSize == 0 || 10 <= bufferSize <= 65537
    requires forall k :: 0 <= k < |ops| ==> WellFormed(ops[k])
    ensures Feed(Awaiting([]), Flatten(sent)) == (Awaiting(Meaning(ops).1), Meaning(ops).0)
  {
    hide Feed, Flatten;
    var chunker := new Chunker(bufferSize);
    for k := 0 to |ops|
      invariant chunker.Valid() && fresh(chunker) && fresh(chunker.buffer)
      invariant (chunker.messages, chunker.pending) == Meaning(ops[..k])
    {
      assert ops[..k + 1][..k] == ops[..k];
      match ops[k]
      case Put(bytes) => chunker.PutBytes(bytes);
      case PutDouble(bits) => chunker.PutFloat64(bits);
      case Boundary => chunker.MessageBoundary();
      case FlushNow => chunker.Flush();
    }
    assert ops[..|ops|] == ops;
    chunker.Flush();
    sent := chunker.sent;
  }

  /** Feeds the pieces of a stream to a new dechunker, one after another. */
  method RunDechunker(parts: seq<Bytes>) returns (delivered: seq<Message>)
    ensures Contents(delivered) == Feed(Awaiting([]), Flatten(parts)).1
  {
    hide Feed, Contents;
    var dechunker := new Dechunker();
    FragmentationIrrelevant(Awaiting([]), []);
    NoContents();
    for k := 0 to |parts|
      invariant dechunker.Valid() && fresh(dechunker)
      invariant Feed(Awaiting([]), Flatten(parts[..k])) == (dechunker.Phase(), Contents(dechunker.delivered))
    {
      assert parts[..k + 1] == parts[..k] + [parts[k]];
      FlattenAppend(parts[..k], parts[k]);
      FeedConcat(Awaiting([]), Flatten(parts[..k]), parts[k]);
      dechunker.Write(parts[k]);
    }
    assert parts[..|parts|] == parts;
    delivered := dechunker.delivered;
  }

  lemma NoContents()
    ensures Contents([]) == [] && Feed(Awaiting([]), Flatten([])) == (Awaiting([]), [])
  {}

  /**
    * Whatever is written, with whatever buffer size, and however the network cuts the stream up, the
    * other side receives exactly the completed messages, in order.
    */
  method SendAndReceive(bufferSize: nat, ops: seq<Operation>, cut: seq<Bytes> -> seq<Bytes>)
    returns (delivered: seq<Message>)
    requires bufferSize == 0 || 10 <= bufferSize <= 65537
    requires forall k :: 0 <= k < |ops| ==> WellFormed(ops[k])
    requires forall sent :: Flatten(cut(sent)) == Flatten(sent)
    ensures Contents(delivered) == Meaning(ops).0
  {
    var sent := RunChunker(bufferSize, ops);
    delivered := RunDechunker(cut(sent));
  }
}

