/** Bytes, and what it means that a reader moving over a buffer computes a function on the bytes left. */
module ByteReading {
  import opened Wrappers

  type Byte = b: int | 0 <= b < 0x100
  type Bytes = seq<Byte>

  /** Big-endian, without a sign. */
  function UInt(bs: Bytes): (n: nat)
  {
    if bs == [] then 0 else UInt(bs[..|bs| - 1]) * 0x100 + bs[|bs| - 1]
  }

  /** The reader's result and what it leaves are as the function says; after an error only the error counts. */
  ghost predicate Matches<T, E>(spec: Result<(T, Bytes), E>, res: Result<T, E>, rest: Bytes)
  {
    match spec
    case Err(e) => res == Err(e)
    case Ok((v, tail)) => res == Ok(v) && rest == tail
  }

  /** Puts the items already read in front of those still to come. */
  function After<T, E>(done: seq<T>, r: Result<(seq<T>, Bytes), E>): (q: Result<(seq<T>, Bytes), E>)
  {
    match r
    case Err(e) => Err(e)
    case Ok((items, rest)) => Ok((done + items, rest))
  }

  lemma AfterNothing<T, E>(done: seq<T>, r: Result<(seq<T>, Bytes), E>)
    requires done == []
    ensures After(done, r) == r
  {
    if r.Ok? {
      assert done + r.value.0 == r.value.0;
    }
  }
}
