/** The routing driver's objects: the routing table, the load balancer, and the strategies that choose a server. */
module LoadBalancing {
  import opened Wrappers
  import opened Rediscovery
  import opened JsNumber
  import PoolLedger
  import opened ConnectionPool

  /** Largest integer up to which doubles are exact: 2^53 - 1. */
  const MAX_SAFE_INTEGER: nat := 9007199254740991

  // ---------------------------------------------------------------- the routing table

  class RoutingTable {
    var routers: seq<Address>
    var readers: seq<Address>
    var writers: seq<Address>
    var expires: int

    ghost function State(): (t: Table)
      reads this
    {
      Table(routers, readers, writers, expires)
    }

    constructor (t: Table)
      ensures State() == t
    {
      routers, readers, writers, expires := t.routers, t.readers, t.writers, t.expires;
    }

    /** A server is gone as a reader and as a writer; as a router it is kept. */
    method Forget(key: string)
      modifies this
      ensures State() == old(State()).(readers := WithoutKey(old(readers), key),
                                              writers := WithoutKey(old(writers), key))
    {
      readers, writers := WithoutKey(readers, key), WithoutKey(writers, key);
    }

    method ForgetRouter(key: string)
      modifies this`routers
      ensures State() == old(State()).(routers := WithoutKey(old(routers), key))
    {
      routers := WithoutKey(routers, key);
    }

    method ForgetWriter(key: string)
      modifies this`writers
      ensures State() == old(State()).(writers := WithoutKey(old(writers), key))
    {
      writers := WithoutKey(writers, key);
    }
  }

  /** Exactly the addresses with another key are kept, in order. */
  lemma {:induction false} WithoutKeyKeeps(s: seq<Address>, key: string)
    ensures forall a :: a in WithoutKey(s, key) <==> a in s && a.key != key
    ensures WithoutKey(WithoutKey(s, key), key) == WithoutKey(s, key)
  {
    if s != [] {
      WithoutKeyKeeps(s[1..], key);
      var rest := WithoutKey(s[1..], key);
      assert s == [s[0]] + s[1..];
      assert [] + rest == rest && ([s[0]] + rest)[1..] == rest;
      assert forall a :: a in s <==> a == s[0] || a in s[1..];
    }
  }

  // ---------------------------------------------------------------- choosing a server

  function NextOffset(offset: nat): (r: nat) { if offset + 1 == MAX_SAFE_INTEGER then 0 else offset + 1 }

  class RoundRobinArrayIndex {
    var offset: nat

    ghost predicate Valid()
      reads this
    {
      offset < MAX_SAFE_INTEGER
    }

    constructor ()
      ensures Valid() && offset == 0
    {
      offset := 0;
    }

    /** The next index into an array of `n` elements; -1 for an empty one, which does not count. */
    method Next(n: nat) returns (i: int)
      requires Valid()
      modifies this
      ensures Valid()
      ensures n == 0 ==> i == -1 && offset == old(offset)
      ensures n > 0 ==> i == old(offset) % n && offset == NextOffset(old(offset))
    {
      if n == 0 {
        return -1;
      }
      i := offset;
      offset := offset + 1;
      if offset == MAX_SAFE_INTEGER {
        offset := 0;
      }
      i := i % n;
    }
  }

  /** The offset `k` calls later. */
  function OffsetAfter(offset: nat, k: nat): (r: nat)
    decreases k
  {
    if k == 0 then offset else OffsetAfter(NextOffset(offset), k - 1)
  }

  lemma {:induction false} OffsetAfterIs(offset: nat, k: nat)
    requires offset < MAX_SAFE_INTEGER && k <= MAX_SAFE_INTEGER
    ensures OffsetAfter(offset, k)
         == if offset + k < MAX_SAFE_INTEGER then offset + k else offset + k - MAX_SAFE_INTEGER
    decreases k
  {
    if k > 0 {
      OffsetAfterIs(NextOffset(offset), k - 1);
    }
  }

  /** The index given `k` calls later. */
  function IndexAfter(offset: nat, n: nat, k: nat): (i: nat)
    requires n > 0
  {
    OffsetAfter(offset, k) % n
  }

  ghost predicate Given(offset: nat, n: nat, i: nat)
    requires n > 0
  {
    exists k: nat :: k < n && IndexAfter(offset, n, k) == i
  }

  /** `n` calls in a row give every index of an array of `n` elements. */
  ghost predicate Fair(offset: nat, n: nat)
    requires n > 0
  {
    forall i: nat :: i < n ==> Given(offset, n, i)
  }

  lemma Reaches(a: nat, n: nat, i: nat) returns (k: nat)
    requires 0 < n && i < n
    ensures k < n && (a + k) % n == i
  {
    var r := a % n;
    k := if r <= i then i - r else i - r + n;
    var q := a / n + if r <= i then 0 else 1;
    assert a + k == q * n + i;
    DivUnique(a + k, n, q, i);
  }

  /**
    * Round robin is fair from every offset, except where the offset is reset to zero among the `n` calls
    * although `n` does not divide the number of offsets.
    */
  lemma FairUnlessReset(offset: nat, n: nat)
    requires 0 < n <= 9007199254740991 && offset < 9007199254740991
    ensures Fair(offset, n) <==> offset + n <= 9007199254740991 || 9007199254740991 % n == 0
  {
    if offset + n <= MAX_SAFE_INTEGER || MAX_SAFE_INTEGER % n == 0 {
      forall i: nat | i < n ensures Given(offset, n, i) {
        Reached(offset, n, i);
      }
    } else {
      UnfairAcrossReset(offset, n);
    }
  }

  /** Of two servers, one gets two calls in a row where the offset is reset. */
  lemma ServerSkipped()
    ensures !Fair(MAX_SAFE_INTEGER - 1, 2)
  {
    FairUnlessReset(MAX_SAFE_INTEGER - 1, 2);
  }

  lemma Reached(offset: nat, n: nat, i: nat)
    requires 0 < n <= MAX_SAFE_INTEGER && offset < MAX_SAFE_INTEGER && i < n
    requires offset + n <= MAX_SAFE_INTEGER || MAX_SAFE_INTEGER % n == 0
    ensures Given(offset, n, i)
  {
    hide OffsetAfter;
    var k := Reaches(offset, n, i);
    OffsetAfterIs(offset, k);
    var x := OffsetAfter(offset, k);
    if x != offset + k {
      SameRemainder(x, n, MAX_SAFE_INTEGER);
    }
    assert IndexAfter(offset, n, k) == i;
  }

  lemma SameRemainder(x: nat, n: nat, m: nat)
    requires n > 0 && m % n == 0
    ensures (x + m) % n == x % n
  {
    assert x + m == (x / n + m / n) * n + x % n;
    DivUnique(x + m, n, x / n + m / n, x % n);
  }

  /** The index that is missed: the remainder itself, or the one `before` calls from the end. */
  lemma UnfairAcrossReset(offset: nat, n: nat)
    requires 0 < n <= MAX_SAFE_INTEGER && offset < MAX_SAFE_INTEGER < offset + n && MAX_SAFE_INTEGER % n != 0
    ensures !Fair(offset, n)
  {
    hide OffsetAfter;
    var r := MAX_SAFE_INTEGER % n;
    var before := MAX_SAFE_INTEGER - offset;
    var missed: nat := if r >= n - before then r else n - before;
    forall k: nat | k < n ensures IndexAfter(offset, n, k) != missed {
      OffsetAfterIs(offset, k);
      if k < before {
        NotMissed(MAX_SAFE_INTEGER, n, before - k, missed);
      } else {
        DivUnique(k - before, n, 0, k - before);
      }
    }
    assert !Given(offset, n, missed);
  }

  /** `back` calls before the reset. */
  lemma NotMissed(m: nat, n: nat, back: nat, missed: nat)
    requires 0 < n && 0 < back < n && back <= m && m % n != 0
    requires missed == m % n || (missed > m % n && m % n + n - missed > back)
    ensures (m - back) % n != missed
  {
    var r := m % n;
    var q := m / n;
    assert m == q * n + r;
    if back <= r {
      DivUnique(m - back, n, q, r - back);
    } else {
      assert m - back == (q - 1) * n + (r + n - back);
      DivUnique(m - back, n, q - 1, r + n - back);
    }
  }

  /** The `m`-th place of an array of `n`, going round from `start`. */
  function Slot(start: nat, n: nat, m: nat): (i: nat)
    requires start < n && m <= n
  {
    if start + m < n then start + m else start + m - n
  }

  /** The first, going round from `start`, among those with the fewest connections in use. */
  ghost predicate IsLeast(counts: seq<nat>, start: nat, chosen: Option<nat>)
    requires start < |counts|
  {
    match chosen
    case None => forall i :: 0 <= i < |counts| ==> counts[i] >= MAX_SAFE_INTEGER
    case Some(c) =>
      && c < |counts| && counts[c] < MAX_SAFE_INTEGER
      && (forall i :: 0 <= i < |counts| ==> counts[c] <= counts[i])
      && exists k: nat :: k < |counts| && c == Slot(start, |counts|, k) && Passed(counts, start, k, counts[c])
  }

  /** The first `k` places have more than `least`. */
  ghost predicate Passed(counts: seq<nat>, start: nat, k: nat, least: nat)
    requires start < |counts| && k <= |counts|
  {
    forall m: nat :: m < k ==> counts[Slot(start, |counts|, m)] > least
  }

  lemma EverySlot(start: nat, n: nat, i: nat)
    requires start < n && i < n
    ensures exists m: nat :: m < n && Slot(start, n, m) == i
  {
    var m := if i >= start then i - start else i + n - start;
    assert Slot(start, n, m) == i;
  }

  /** There is exactly one such choice. */
  lemma LeastIsUnique(counts: seq<nat>, start: nat, a: Option<nat>, b: Option<nat>)
    requires start < |counts| && IsLeast(counts, start, a) && IsLeast(counts, start, b)
    ensures a == b
  {
    if a.Some? && b.Some? {
      var n := |counts|;
      assert counts[a.value] == counts[b.value];
      var k: nat :| k < n && a.value == Slot(start, n, k) && Passed(counts, start, k, counts[a.value]);
      var l: nat :| l < n && b.value == Slot(start, n, l) && Passed(counts, start, l, counts[b.value]);
      assert !(k < l) && !(l < k);
    }
  }

  /** Servers equally loaded are chosen in turn. */
  lemma LeastOfEquals(counts: seq<nat>, start: nat, chosen: Option<nat>)
    requires start < |counts| && IsLeast(counts, start, chosen)
    requires counts[start] < MAX_SAFE_INTEGER && forall i :: 0 <= i < |counts| ==> counts[i] == counts[start]
    ensures chosen == Some(start)
  {
    if chosen.Some? {
      var k: nat :|
        k < |counts| && chosen.value == Slot(start, |counts|, k) && Passed(counts, start, k, counts[chosen.value]);
      NothingPassed(counts, start, k, counts[chosen.value]);
    }
  }

  lemma NothingPassed(counts: seq<nat>, start: nat, k: nat, least: nat)
    requires start < |counts| && k <= |counts| && Passed(counts, start, k, least) && counts[start] <= least
    ensures k == 0
  {
    assert Slot(start, |counts|, 0) == start;
  }

  class LeastConnectedStrategy {
    const readersIndex: RoundRobinArrayIndex
    const writersIndex: RoundRobinArrayIndex
    const pool: Pool

    constructor (pool: Pool)
      ensures this.pool == pool && fresh(readersIndex) && fresh(writersIndex) && readersIndex != writersIndex
      ensures readersIndex.Valid() && writersIndex.Valid()
    {
      this.pool := pool;
      readersIndex := new RoundRobinArrayIndex();
      writersIndex := new RoundRobinArrayIndex();
    }

    function Counts(addresses: seq<Address>): (counts: seq<nat>)
      reads pool
      ensures |counts| == |addresses|
    {
      seq(|addresses|, i requires 0 <= i < |addresses| reads pool => pool.ActiveResourceCount(addresses[i].key))
    }

    lemma NoneAmong(addresses: seq<Address>, start: nat)
      requires addresses != [] ==> start < |addresses| && IsLeast(Counts(addresses), start, None)
      ensures forall a :: a in addresses ==> pool.ActiveResourceCount(a.key) >= MAX_SAFE_INTEGER
    {
      forall a | a in addresses ensures pool.ActiveResourceCount(a.key) >= MAX_SAFE_INTEGER {
        var j :| 0 <= j < |addresses| && addresses[j] == a;
        assert Counts(addresses)[j] >= MAX_SAFE_INTEGER;
      }
    }

    lemma LeastAmong(addresses: seq<Address>, start: nat, chosen: nat)
      requires start < |addresses| && IsLeast(Counts(addresses), start, Some(chosen))
      ensures chosen < |addresses|
      ensures forall a :: a in addresses ==>
        pool.ActiveResourceCount(addresses[chosen].key) <= pool.ActiveResourceCount(a.key)
    {
      var counts := Counts(addresses);
      forall a | a in addresses
        ensures pool.ActiveResourceCount(addresses[chosen].key) <= pool.ActiveResourceCount(a.key)
      {
        var j :| 0 <= j < |addresses| && addresses[j] == a;
        assert counts[chosen] <= counts[j];
      }
    }

    /** `_select`: nothing to choose from leaves the index as it is. */
    method Select(addresses: seq<Address>, index: RoundRobinArrayIndex) returns (chosen: Option<nat>)
      requires index.Valid()
      modifies index
      ensures index.Valid()
      ensures addresses == [] ==> chosen == None && index.offset == old(index.offset)
      ensures addresses != [] ==>
        IsLeast(Counts(addresses), old(index.offset) % |addresses|, chosen)
        && index.offset == NextOffset(old(index.offset))
    {
      var n := |addresses|;
      if n == 0 {
        return None;
      }
      var start: nat := index.Next(n);
      ghost var counts := Counts(addresses);
      var i: nat, least: nat := start, MAX_SAFE_INTEGER;
      chosen := None;
      var again := true;
      ghost var m: nat, best: nat := 0, 0;
      while again
        invariant m <= n && (if again then m < n && i == Slot(start, n, m) else m == n)
        invariant chosen.None? ==> least == MAX_SAFE_INTEGER
        invariant chosen.Some? ==>
          best < m && chosen.value == Slot(start, n, best) && Passed(counts, start, best, least)
        invariant chosen.Some? ==> least < MAX_SAFE_INTEGER && counts[chosen.value] == least
        invariant forall l: nat :: l < m ==> counts[Slot(start, n, l)] >= least
        decreases n - m
      {
        var count := pool.ActiveResourceCount(addresses[i].key);
        assert count == counts[i];
        if count < least {
          assert Passed(counts, start, m, count);
          chosen, least, best := Some(i), count, m;
        }
        i := if i == n - 1 then 0 else i + 1;
        m := m + 1;
        again := i != start;
      }
      forall j: nat | j < n ensures counts[j] >= least {
        EverySlot(start, n, j);
      }
    }

    method SelectReader(readers: seq<Address>) returns (chosen: Option<nat>)
      requires readersIndex.Valid()
      modifies readersIndex
      ensures readersIndex.Valid()
      ensures readers == [] ==> chosen == None && readersIndex.offset == old(readersIndex.offset)
      ensures readers != [] ==>
        IsLeast(Counts(readers), old(readersIndex.offset) % |readers|, chosen)
        && readersIndex.offset == NextOffset(old(readersIndex.offset))
    {
      chosen := Select(readers, readersIndex);
    }

    method SelectWriter(writers: seq<Address>) returns (chosen: Option<nat>)
      requires writersIndex.Valid()
      modifies writersIndex
      ensures writersIndex.Valid()
      ensures writers == [] ==> chosen == None && writersIndex.offset == old(writersIndex.offset)
      ensures writers != [] ==>
        IsLeast(Counts(writers), old(writersIndex.offset) % |writers|, chosen)
        && writersIndex.offset == NextOffset(old(writersIndex.offset))
    {
      chosen := Select(writers, writersIndex);
    }
  }

  // ---------------------------------------------------------------- the load balancer

  function Keys(s: seq<Address>): (keys: seq<string>)
    ensures |keys| == |s| && forall i :: 0 <= i < |s| ==> keys[i] == s[i].key
  {
    seq(|s|, i requires 0 <= i < |s| => s[i].key)
  }

  function ServersFor(t: Table, mode: Mode): (r: seq<Address>) { if mode == Read then t.readers else t.writers }

  class LoadBalancer {
    var routingTable: RoutingTable
    var useSeedRouter: bool
    const pool: Pool

    ghost function State(): (b: Balancer)
      reads this, routingTable
    {
      Balancer(routingTable.State(), useSeedRouter)
    }

    constructor (pool: Pool)
      ensures this.pool == pool && State() == Balancer(NO_TABLE, true) && fresh(routingTable)
    {
      this.pool := pool;
      useSeedRouter := true;
      routingTable := new RoutingTable(NO_TABLE);
    }

    /** `forget`: the server is no reader or writer any more, and its idle connections are destroyed. */
    method Forget(key: string)
      modifies routingTable, pool
      ensures State().table == old(State()).table.(readers := WithoutKey(old(routingTable.readers), key),
                                                   writers := WithoutKey(old(routingTable.writers), key))
      ensures pool.At(key) == PoolLedger.Purge(old(pool.At(key)))
      ensures forall k :: k != key ==> pool.At(k) == old(pool.At(k))
    {
      routingTable.Forget(key);
      pool.PurgeKey(key);
    }

    /** `forgetWriter`: the server is no writer any more; what it reads and its connections stay. */
    method ForgetWriter(key: string)
      modifies routingTable
      ensures State().table == old(State()).table.(writers := WithoutKey(old(routingTable.writers), key))
      ensures useSeedRouter == old(useSeedRouter) && forall k :: pool.At(k) == old(pool.At(k))
    {
      routingTable.ForgetWriter(key);
    }

    /** `_fetchRoutingTable`, on the routers of a table or, without one, on seeds. */
    method FetchRoutingTable(known: RoutingTable?, rs: seq<Address>, asked: seq<Address>, answers: nat -> Answer)
      returns (answer: Answer, log: seq<Address>)
      modifies known
      ensures Fetched(answer, TableOf(known), log) == Fetch(old(TableOf(known)), rs, 0, asked, answers)
    {
      log := asked;
      var i := 0;
      while i < |rs|
        invariant 0 <= i <= |rs|
        invariant Fetch(TableOf(known), rs, i, log, answers) == Fetch(old(TableOf(known)), rs, 0, asked, answers)
      {
        ForgetRouter(known, rs, i - 1);
        answer := answers(|log|);
        log := log + [rs[i]];
        if !answer.NoAnswer? {
          return;
        }
        i := i + 1;
      }
      answer := NoAnswer;
    }

    /** `_fetchRoutingTableUsingKnownRouters` */
    method FetchUsingKnownRouters(rs: seq<Address>, asked: seq<Address>, answers: nat -> Answer)
      returns (answer: Answer, log: seq<Address>)
      modifies routingTable
      ensures Fetched(answer, Some(routingTable.State()), log)
           == FetchKnown(old(routingTable.State()), rs, asked, answers)
    {
      hide Fetch;
      answer, log := FetchRoutingTable(routingTable, rs, asked, answers);
      if answer.NoAnswer? {
        ForgetRouter(routingTable, rs, |rs| - 1);
      }
    }

    /** `_applyRoutingTableIfPossible`: only servers of the new table keep their idle connections. */
    method ApplyRoutingTableIfPossible(answer: Answer, ghost f: Fetched) returns (outcome: Result<Table, Failure>)
      requires f.answer == answer
      modifies this, pool
      ensures Refreshed(State(), f.asked, outcome) == Apply(old(State()), f)
      ensures routingTable == old(routingTable) || fresh(routingTable)
      ensures answer.Answers? ==> forall k :: k in Keys(AllServers(answer.t)) ==> pool.At(k) == old(pool.At(k))
      ensures answer.Answers? ==>
        forall k :: k !in Keys(AllServers(answer.t)) ==> pool.At(k) == PoolLedger.Purge(old(pool.At(k)))
      ensures !answer.Answers? ==> forall k :: pool.At(k) == old(pool.At(k))
    {
      match answer
      case NoAnswer => outcome := Err(ServiceUnavailable);
      case Unauthorized => outcome := Err(NotAuthorized);
      case Answers(t) =>
        if |t.writers| == 0 {
          useSeedRouter := true;
        }
        pool.KeepAll(Keys(AllServers(t)));
        routingTable := new RoutingTable(t);
        outcome := Ok(t);
    }

    /** `_refreshRoutingTable` */
    method RefreshRoutingTable(seeds: seq<Address>, answers: nat -> Answer)
      returns (outcome: Result<Table, Failure>, log: seq<Address>)
      modifies this, routingTable, pool
      ensures Refreshed(State(), log, outcome) == Refresh(old(State()), seeds, answers)
      ensures routingTable == old(routingTable) || fresh(routingTable)
      ensures outcome.Ok? ==> forall k :: k in Keys(AllServers(outcome.value)) ==> pool.At(k) == old(pool.At(k))
      ensures outcome.Ok? ==>
        forall k :: k !in Keys(AllServers(outcome.value)) ==> pool.At(k) == PoolLedger.Purge(old(pool.At(k)))
      ensures outcome.Err? ==> forall k :: pool.At(k) == old(pool.At(k))
    {
      hide Fetch, Unlisted, PoolLedger.Purge;
      var rs := routingTable.routers;
      var answer;
      ghost var f: Fetched;
      if useSeedRouter {
        answer, log := FetchRoutingTable(null, Unlisted(seeds, []), [], answers);
        if answer.Answers? {
          useSeedRouter := false;
        } else if answer.NoAnswer? {
          answer, log := FetchUsingKnownRouters(rs, log, answers);
        }
      } else {
        answer, log := FetchUsingKnownRouters(rs, [], answers);
        if answer.NoAnswer? {
          answer, log := FetchRoutingTable(null, Unlisted(seeds, rs), log, answers);
        }
      }
      outcome := ApplyRoutingTableIfPossible(answer, Fetched(answer, None, log));
    }

    /** Too old, without routers, or without a server of the kind asked for. */
    ghost predicate NeedsRefresh(t: RoutingTable, mode: Mode, now: int)
      reads t
    {
      t.expires < now || t.routers == [] || (mode == Read && t.readers == []) || (mode == Write && t.writers == [])
    }

    /** `acquireConnection` up to the choice of a server: a table that is not stale is used as it is. */
    method ChooseServer(mode: Mode, now: int, strategy: LeastConnectedStrategy,
                        seeds: seq<Address>, answers: nat -> Answer)
      returns (server: Result<Option<Address>, Failure>, log: seq<Address>)
      requires strategy.readersIndex.Valid() && strategy.writersIndex.Valid() && strategy.pool == pool
      modifies this, routingTable, pool, strategy.readersIndex, strategy.writersIndex
      ensures old(NeedsRefresh(routingTable, mode, now)) ==>
        Refresh(old(State()), seeds, answers).b == State() && Refresh(old(State()), seeds, answers).asked == log
      ensures !old(NeedsRefresh(routingTable, mode, now)) ==> State() == old(State()) && log == [] && server.Ok?
      ensures old(NeedsRefresh(routingTable, mode, now)) ==>
        match Refresh(old(State()), seeds, answers).outcome
        case Ok(_) => server.Ok?
        case Err(e) => server == Err(e)
      ensures server.Ok? && server.value.Some? ==>
        server.value.value in if mode == Read then State().table.readers else State().table.writers
      ensures server.Ok? && server.value.Some? ==>
        forall a :: a in ServersFor(State().table, mode) ==>
          pool.ActiveResourceCount(server.value.value.key) <= pool.ActiveResourceCount(a.key)
    {
      log := [];
      var t := routingTable;
      if IsStaleFor(Table(t.routers, t.readers, t.writers, t.expires), mode, now) {
        var outcome;
        outcome, log := RefreshRoutingTable(seeds, answers);
        if outcome.Err? {
          return Err(outcome.error), log;
        }
      }
      hide IsStaleFor, Refresh;
      var chosen := SelectServer(mode, strategy);
      server := Ok(chosen);
    }

    method SelectServer(mode: Mode, strategy: LeastConnectedStrategy) returns (server: Option<Address>)
      requires strategy.readersIndex.Valid() && strategy.writersIndex.Valid() && strategy.pool == pool
      modifies strategy.readersIndex, strategy.writersIndex
      ensures server.Some? ==> server.value in ServersFor(State().table, mode)
      ensures server.Some? ==>
        forall a :: a in ServersFor(State().table, mode) ==>
          pool.ActiveResourceCount(server.value.key) <= pool.ActiveResourceCount(a.key)
      ensures server.None? ==>
        forall a :: a in ServersFor(State().table, mode) ==> pool.ActiveResourceCount(a.key) >= MAX_SAFE_INTEGER
    {
      hide IsLeast;
      var chosen;
      var servers := if mode == Read then routingTable.readers else routingTable.writers;
      ghost var start := if servers == [] then 0 else
        (if mode == Read then strategy.readersIndex else strategy.writersIndex).offset % |servers|;
      if mode == Read {
        chosen := strategy.SelectReader(servers);
      } else {
        chosen := strategy.SelectWriter(servers);
      }
      if chosen.None? {
        strategy.NoneAmong(servers, start);
        return None;
      }
      strategy.LeastAmong(servers, start, chosen.value);
      server := Some(servers[chosen.value]);
    }
  }

  ghost function TableOf(known: RoutingTable?): (t: Option<Table>)
    reads known
  {
    if known == null then None else Some(known.State())
  }

  /** `_forgetRouter` */
  method ForgetRouter(known: RoutingTable?, rs: seq<Address>, i: int)
    modifies known
    ensures TableOf(known) == Forget(old(TableOf(known)), rs, i)
  {
    if known != null && 0 <= i < |rs| {
      known.ForgetRouter(rs[i].key);
    }
  }
}
