/** The connection pool: idle connections, counters and request queues by key, updated in place. */
module ConnectionPool {
  import opened Wrappers
  import opened PoolLedger

  /** What became of the connections and requests of one key. */
  datatype Trace = Trace(
    made: nat, out: set<nat>, destroyed: set<nat>, asked: nat, granted: map<nat, nat>, refused: set<nat>)

  class Pool {
    const maxSize: nat
    var pools: map<Key, seq<nat>>
    var activeResourceCounts: map<Key, nat>
    var acquireRequests: map<Key, seq<nat>>
    var traces: map<Key, Trace>

    function TraceOf(k: Key): (t: Trace)
      reads this
    {
      if k in traces then traces[k] else Trace(0, {}, {}, 0, map[], {})
    }

    /** `activeResourceCount` */
    function ActiveResourceCount(k: Key): (n: nat)
      reads this
    {
      if k in activeResourceCounts then activeResourceCounts[k] else 0
    }

    function At(k: Key): (s: Shelf)
      reads this
    {
      var t := TraceOf(k);
      Shelf(if k in pools then Some(pools[k]) else None, ActiveResourceCount(k),
            if k in acquireRequests then Some(acquireRequests[k]) else None,
            t.made, t.out, t.destroyed, t.asked, t.granted, t.refused)
    }

    /** The ledger of every key. */
    ghost predicate Balanced()
      reads this
    {
      forall k :: Ledger(maxSize, At(k))
    }

    constructor (maxSize: nat)
      ensures this.maxSize == maxSize && (forall k :: At(k) == EMPTY) && Balanced()
    {
      this.maxSize := maxSize;
      pools, activeResourceCounts, acquireRequests, traces := map[], map[], map[], map[];
    }

    method SetPool(k: Key, idle: Option<seq<nat>>)
      modifies this`pools
      ensures At(k) == old(At(k)).(idle := idle)
      ensures forall j :: j != k ==> At(j) == old(At(j))
      ensures pools.Keys == if idle.Some? then old(pools.Keys) + {k} else old(pools.Keys) - {k}
    {
      pools := if idle.Some? then pools[k := idle.value] else pools - {k};
    }

    /** Counters that reach zero are removed. */
    method SetCount(k: Key, n: nat)
      modifies this`activeResourceCounts
      ensures At(k) == old(At(k)).(active := n)
      ensures forall j :: j != k ==> At(j) == old(At(j))
    {
      activeResourceCounts := if n > 0 then activeResourceCounts[k := n] else activeResourceCounts - {k};
    }

    method SetRequests(k: Key, queue: Option<seq<nat>>)
      modifies this`acquireRequests
      ensures At(k) == old(At(k)).(queue := queue)
      ensures forall j :: j != k ==> At(j) == old(At(j))
    {
      acquireRequests := if queue.Some? then acquireRequests[k := queue.value] else acquireRequests - {k};
    }

    method SetTrace(k: Key, t: Trace)
      modifies this`traces
      ensures At(k) == old(At(k)).(made := t.made, out := t.out, destroyed := t.destroyed,
                                   asked := t.asked, granted := t.granted, refused := t.refused)
      ensures forall j :: j != k ==> At(j) == old(At(j))
    {
      traces := traces[k := t];
    }

    method Destroy(k: Key, c: nat)
      modifies this`traces
      ensures At(k) == old(At(k)).(destroyed := old(At(k)).destroyed + {c})
      ensures forall j :: j != k ==> At(j) == old(At(j))
    {
      traces := traces[k := TraceOf(k).(destroyed := TraceOf(k).destroyed + {c})];
    }

    method Refuse(k: Key, request: nat)
      modifies this`traces
      ensures At(k) == old(At(k)).(refused := old(At(k)).refused + {request})
      ensures forall j :: j != k ==> At(j) == old(At(j))
    {
      traces := traces[k := TraceOf(k).(refused := TraceOf(k).refused + {request})];
    }

    method Grant(k: Key, c: nat, request: nat)
      modifies this
      ensures At(k) == HandOut(old(At(k)), c, request)
      ensures forall j :: j != k ==> At(j) == old(At(j))
    {
      SetCount(k, ActiveResourceCount(k) + 1);
      var t := TraceOf(k);
      SetTrace(k, t.(out := t.out + {c}, granted := t.granted[request := c]));
    }

    /** `_acquire` */
    method TryAcquire(k: Key, valid: nat -> bool, creates: bool) returns (outcome: Outcome)
      modifies this
      ensures (At(k), outcome) == Obtain(maxSize, old(At(k)), valid, creates)
      ensures forall j :: j != k ==> At(j) == old(At(j))
    {
      hide At;
      ghost var s := At(k);
      var idle := OrNone(At(k).idle);
      SetPool(k, Some(idle));
      while idle != []
        invariant At(k) == s.(idle := Some(idle), destroyed := At(k).destroyed)
        invariant var (found, rest, dropped) := PopValid(OrNone(s.idle), valid);
          var (now, rest', dropped') := PopValid(idle, valid);
          now == found && rest' == rest && At(k).destroyed + dropped' == s.destroyed + dropped
        invariant forall j :: j != k ==> At(j) == old(At(j))
        decreases |idle|
      {
        var last := idle[|idle| - 1];
        idle := idle[..|idle| - 1];
        SetPool(k, Some(idle));
        if valid(last) {
          assert At(k).destroyed + {} == At(k).destroyed;
          return Got(last);
        }
        Destroy(k, last);
      }
      assert At(k).destroyed + {} == At(k).destroyed;
      if maxSize != 0 && At(k).active >= maxSize {
        return Full;
      }
      if !creates {
        return NotCreated;
      }
      outcome := Got(At(k).made);
      Create(k);
    }

    method Create(k: Key)
      modifies this`traces
      ensures At(k) == old(At(k)).(made := old(At(k)).made + 1)
      ensures forall j :: j != k ==> At(j) == old(At(j))
    {
      traces := traces[k := TraceOf(k).(made := TraceOf(k).made + 1)];
    }

    method Ask(k: Key) returns (request: nat)
      modifies this`traces
      ensures request == old(At(k)).asked && At(k) == old(At(k)).(asked := request + 1)
      ensures forall j :: j != k ==> At(j) == old(At(j))
    {
      request := TraceOf(k).asked;
      traces := traces[k := TraceOf(k).(asked := request + 1)];
    }

    /** `acquire` */
    method AcquireConnection(k: Key, valid: nat -> bool, creates: bool) returns (outcome: Outcome)
      modifies this
      ensures At(k) == Acquire(maxSize, old(At(k)), valid, creates)
      ensures forall j :: j != k ==> At(j) == old(At(j))
      ensures old(Balanced()) ==> Balanced()
    {
      hide At, Obtain, Ledger, HandOut;
      if Ledger(maxSize, At(k)) {
        AcquireKeeps(maxSize, At(k), valid, creates);
      }
      outcome := TryAcquire(k, valid, creates);
      ObtainFrame(maxSize, old(At(k)), valid, creates);
      var request := Ask(k);
      match outcome
      case Got(c) => Grant(k, c, request);
      case Full => SetRequests(k, Some(OrNone(At(k).queue) + [request]));
      case NotCreated => Refuse(k, request);
    }

    /** `_processPendingAcquireRequests` */
    method ProcessPendingAcquireRequests(k: Key, valid: nat -> bool, creates: bool)
      modifies this
      ensures At(k) == ServeNext(maxSize, old(At(k)), valid, creates)
      ensures forall j :: j != k ==> At(j) == old(At(j))
    {
      hide At, Obtain, HandOut;
      var queue := At(k).queue;
      if queue.None? {
        return;
      }
      if queue.value == [] {
        SetRequests(k, None);
        return;
      }
      ObtainFrame(maxSize, At(k), valid, creates);
      var outcome := TryAcquire(k, valid, creates);
      SetRequests(k, Some(queue.value[1..]));
      match outcome
      case Got(c) => Grant(k, c, queue.value[0]);
      case Full =>
      case NotCreated => Refuse(k, queue.value[0]);
    }

    method GiveUp(k: Key, c: nat)
      modifies this
      ensures At(k) == old(At(k)).(out := old(At(k)).out - {c},
                                   active := if old(At(k)).active > 1 then old(At(k)).active - 1 else 0)
      ensures forall j :: j != k ==> At(j) == old(At(j))
    {
      var n := ActiveResourceCount(k) - 1;
      SetCount(k, if n > 0 then n else 0);
      SetTrace(k, TraceOf(k).(out := TraceOf(k).out - {c}));
    }

    /** `_release` */
    method ReleaseConnection(k: Key, c: nat, keep: bool, valid: nat -> bool, creates: bool)
      modifies this
      ensures At(k) == Release(maxSize, old(At(k)), c, keep, valid, creates)
      ensures forall j :: j != k ==> At(j) == old(At(j))
      ensures old(Balanced()) && old(c in At(k).out) ==> Balanced()
    {
      hide At, ServeNext, Ledger;
      if Ledger(maxSize, At(k)) && c in At(k).out {
        StepKeeps(maxSize, At(k), ReleaseStep(c, keep, valid, creates));
      }
      var idle := At(k).idle;
      if idle.Some? && keep {
        SetPool(k, Some(idle.value + [c]));
      } else {
        Destroy(k, c);
      }
      GiveUp(k, c);
      ProcessPendingAcquireRequests(k, valid, creates);
    }

    /** `_purgeKey` */
    method PurgeKey(k: Key)
      modifies this
      ensures At(k) == Purge(old(At(k)))
      ensures At(k).idle == None && forall c :: c in OrNone(old(At(k)).idle) ==> c in At(k).destroyed
      ensures forall j :: j != k ==> At(j) == old(At(j))
      ensures pools.Keys == old(pools.Keys) - {k}
      ensures old(Balanced()) ==> Balanced()
    {
      hide At, Ledger, Elements;
      ghost var s := At(k);
      if Ledger(maxSize, At(k)) {
        PurgeKeeps(maxSize, At(k));
      }
      NoElements();
      InElements(OrNone(At(k).idle));
      var idle := OrNone(At(k).idle);
      while idle != []
        invariant At(k) == s.(idle := At(k).idle, destroyed := At(k).destroyed)
        invariant At(k).destroyed + Elements(idle) == s.destroyed + Elements(OrNone(s.idle))
        invariant forall j :: j != k ==> At(j) == old(At(j))
        invariant pools.Keys - {k} == old(pools.Keys) - {k}
        decreases |idle|
      {
        var last := idle[|idle| - 1];
        OneMore(idle[..|idle| - 1], last);
        assert idle == idle[..|idle| - 1] + [last];
        idle := idle[..|idle| - 1];
        SetPool(k, Some(idle));
        Destroy(k, last);
      }
      SetPool(k, None);
    }

    /** `keepAll`: every pool but those of the given keys is purged. */
    method KeepAll(keep: seq<Key>)
      modifies this
      ensures forall k :: At(k) == if k in keep then old(At(k)) else Purge(old(At(k)))
      ensures old(Balanced()) ==> Balanced()
    {
      hide Ledger, Elements;
      NoElements();
      var todo := set k | k in pools && k !in keep;
      assert forall k :: k !in todo && k !in keep ==> At(k) == Purge(old(At(k)));
      hide *;
      while todo != {}
        invariant forall k :: k in todo ==> k !in keep
        invariant forall k :: k in keep || k in todo ==> At(k) == old(At(k))
        invariant forall k :: k !in keep && k !in todo ==> At(k) == Purge(old(At(k)))
        invariant old(Balanced()) ==> Balanced()
        decreases |todo|
      {
        var k :| k in todo;
        PurgeKey(k);
        todo := todo - {k};
      }
    }

    /** An idle connection's observer reports an error. */
    method OnIdleError(k: Key, c: nat)
      modifies this
      ensures At(k) == IdleError(old(At(k)), c)
      ensures c !in OrNone(At(k).idle) && c in At(k).destroyed
      ensures forall j :: j != k ==> At(j) == old(At(j))
      ensures old(Balanced()) && old(c < At(k).made && c !in At(k).out) ==> Balanced()
    {
      hide At, Ledger;
      if Ledger(maxSize, At(k)) && c < At(k).made && c !in At(k).out {
        IdleErrorKeeps(maxSize, At(k), c);
      }
      WithoutLacks(OrNone(At(k).idle), c);
      if At(k).idle.Some? {
        SetPool(k, Some(Without(At(k).idle.value, c)));
      }
      Destroy(k, c);
    }

    /** The acquisition timer of a queued request runs out. */
    method OnTimeout(k: Key, request: nat)
      modifies this
      ensures At(k) == Timeout(old(At(k)), request)
      ensures request !in OrNone(At(k).queue) && (request in At(k).granted || request in At(k).refused)
      ensures forall j :: j != k ==> At(j) == old(At(j))
      ensures old(Balanced()) && old(request < At(k).asked) ==> Balanced()
    {
      hide At, Ledger;
      if Ledger(maxSize, At(k)) && request < At(k).asked {
        TimeoutKeeps(maxSize, At(k), request);
      }
      WithoutLacks(OrNone(At(k).queue), request);
      if At(k).queue.Some? {
        SetRequests(k, Some(Without(At(k).queue.value, request)));
      }
      if request !in At(k).granted {
        Refuse(k, request);
      }
    }

    method Take(k: Key, step: Step)
      requires Enabled(At(k), step)
      modifies this
      ensures At(k) == Next(maxSize, old(At(k)), step)
      ensures forall j :: j != k ==> At(j) == old(At(j))
      ensures old(Balanced()) ==> Balanced()
    {
      hide At, Balanced, Acquire, Release, Purge, IdleError, Timeout;
      match step
      case AcquireStep(valid, creates) =>
        var _ := AcquireConnection(k, valid, creates);
      case ReleaseStep(c, keep, valid, creates) => ReleaseConnection(k, c, keep, valid, creates);
      case PurgeStep => PurgeKey(k);
      case IdleErrorStep(c) => OnIdleError(k, c);
      case TimeoutStep(request) => OnTimeout(k, request);
    }

    method Handle(e: Event)
      requires forall k :: StepOf(k, e).Some? ==> Enabled(At(k), StepOf(k, e).value)
      modifies this
      ensures forall k :: At(k) == Advance(maxSize, old(At(k)), StepOf(k, e))
      ensures old(Balanced()) ==> Balanced()
    {
      hide At, Balanced, Enabled, Acquire, Release, Purge, IdleError, Timeout;
      match e
      case For(key, step) =>
        assert StepOf(key, e) == Some(step);
        Take(key, step);
      case KeepOnly(keys) => KeepAll(keys);
    }

    /**
      * A whole run over all keys: each key sees exactly the steps meant for it, and every ledger stays
      * balanced.
      */
    method Serve(es: seq<Event>)
      requires Balanced() && forall k :: Runs(maxSize, At(k), StepsFor(k, es))
      modifies this
      ensures Balanced()
      ensures forall k :: At(k) == Run(maxSize, old(At(k)), StepsFor(k, es))
    {
      hide *;
      var i := 0;
      assert es[0..] == es;
      while i < |es|
        invariant i <= |es| && Balanced()
        invariant forall k :: Runs(maxSize, At(k), StepsFor(k, es[i..]))
        invariant forall k :: Run(maxSize, At(k), StepsFor(k, es[i..])) == Run(maxSize, old(At(k)), StepsFor(k, es))
      {
        forall k
          ensures StepOf(k, es[i]).Some? ==> Enabled(At(k), StepOf(k, es[i]).value)
          ensures Runs(maxSize, Advance(maxSize, At(k), StepOf(k, es[i])), StepsFor(k, es[i + 1..]))
          ensures Run(maxSize, Advance(maxSize, At(k), StepOf(k, es[i])), StepsFor(k, es[i + 1..]))
               == Run(maxSize, At(k), StepsFor(k, es[i..]))
        {
          NextStep(maxSize, At(k), k, es, i);
        }
        Handle(es[i]);
        i := i + 1;
      }
      assert es[i..] == [];
      forall k ensures At(k) == Run(maxSize, old(At(k)), StepsFor(k, es)) {
        NoSteps(maxSize, At(k), k);
      }
    }
  }
}
