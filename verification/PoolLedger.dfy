/**
  * One key of the connection pool: the idle connections, the count of those handed out and the queue
  * of requests, together with the history that says where every connection and every request went.
  * A step runs to its end before the next begins; whether a connection is still valid and whether a
  * new one can be created are decided outside.
  */
module PoolLedger {
  import opened Wrappers

  /**
    * `idle` and `queue` are absent until first needed. Connections are numbered as created, requests as
    * made; `out`, `destroyed`, `granted` and `refused` say what became of them.
    */
  datatype Shelf = Shelf(
    idle: Option<seq<nat>>, active: nat, queue: Option<seq<nat>>,
    made: nat, out: set<nat>, destroyed: set<nat>, asked: nat, granted: map<nat, nat>, refused: set<nat>)

  const EMPTY := Shelf(None, 0, None, 0, {}, {}, 0, map[], {})

  function OrNone(s: Option<seq<nat>>): (r: seq<nat>) { if s.Some? then s.value else [] }

  function Elements(s: seq<nat>): (r: set<nat>) { set x | x in s }

  function Without(s: seq<nat>, x: nat): (r: seq<nat>)
  {
    if s == [] then [] else Without(s[..|s| - 1], x) + if s[|s| - 1] == x then [] else [s[|s| - 1]]
  }

  // ---------------------------------------------------------------- the steps

  datatype Outcome = Got(c: nat) | Full | NotCreated

  /** The idle connections from the last on, up to the first valid one: which it is, what is left, what is destroyed. */
  function PopValid(idle: seq<nat>, valid: nat -> bool): (r: (Option<nat>, seq<nat>, set<nat>))
  {
    if idle == [] then (None, [], {})
    else
      var last := idle[|idle| - 1];
      var rest := idle[..|idle| - 1];
      if valid(last) then (Some(last), rest, {})
      else
        var r := PopValid(rest, valid);
        (r.0, r.1, {last} + r.2)
  }

  /** `_acquire`: the last valid idle connection, or a new one as long as the limit allows. Zero is no limit. */
  function Obtain(max: nat, s: Shelf, valid: nat -> bool, creates: bool): (r: (Shelf, Outcome))
  {
    var (found, rest, dropped) := PopValid(OrNone(s.idle), valid);
    var t := s.(idle := Some(rest), destroyed := s.destroyed + dropped);
    if found.Some? then (t, Got(found.value))
    else if max != 0 && s.active >= max then (t, Full)
    else if creates then (t.(made := s.made + 1), Got(s.made))
    else (t, NotCreated)
  }

  function HandOut(s: Shelf, c: nat, request: nat): (r: Shelf)
  {
    s.(active := s.active + 1, out := s.out + {c}, granted := s.granted[request := c])
  }

  function Acquire(max: nat, s: Shelf, valid: nat -> bool, creates: bool): (r: Shelf)
  {
    var (t, outcome) := Obtain(max, s, valid, creates);
    var a := t.(asked := s.asked + 1);
    match outcome
    case Got(c) => HandOut(a, c, s.asked)
    case Full => a.(queue := Some(OrNone(s.queue) + [s.asked]))
    case NotCreated => a.(refused := s.refused + {s.asked})
  }

  /** `_processPendingAcquireRequests`: the request at the head is taken off whatever comes of it. */
  function ServeNext(max: nat, s: Shelf, valid: nat -> bool, creates: bool): (r: Shelf)
  {
    if s.queue.None? then s
    else if s.queue.value == [] then s.(queue := None)
    else
      var (t, outcome) := Obtain(max, s, valid, creates);
      var request := s.queue.value[0];
      var q := t.(queue := Some(s.queue.value[1..]));
      match outcome
      case Got(c) => HandOut(q, c, request)
      case Full => q
      case NotCreated => q.(refused := q.refused + {request})
  }

  /** A connection comes back: kept if the pool still exists and it is functional, destroyed otherwise. */
  function TakeBack(s: Shelf, c: nat, keep: bool): (r: Shelf)
  {
    var t := s.(active := if s.active > 1 then s.active - 1 else 0, out := s.out - {c});
    if s.idle.Some? && keep then t.(idle := Some(s.idle.value + [c])) else t.(destroyed := t.destroyed + {c})
  }

  /** `_release` */
  function Release(max: nat, s: Shelf, c: nat, keep: bool, valid: nat -> bool, creates: bool): (r: Shelf)
  {
    ServeNext(max, TakeBack(s, c, keep), valid, creates)
  }

  /** `_purgeKey` */
  function Purge(s: Shelf): (r: Shelf)
  {
    s.(idle := None, destroyed := s.destroyed + Elements(OrNone(s.idle)))
  }

  /** The idle observer of `c` reports an error. It may still be installed on a connection destroyed before. */
  function IdleError(s: Shelf, c: nat): (r: Shelf)
  {
    s.(idle := if s.idle.Some? then Some(Without(s.idle.value, c)) else None, destroyed := s.destroyed + {c})
  }

  /** The timer of a request that was queued. */
  function Timeout(s: Shelf, request: nat): (r: Shelf)
  {
    s.(queue := if s.queue.Some? then Some(Without(s.queue.value, request)) else None,
       refused := if request in s.granted then s.refused else s.refused + {request})
  }

  datatype Step =
    | AcquireStep(valid: nat -> bool, creates: bool)
    | ReleaseStep(c: nat, keep: bool, valid: nat -> bool, creates: bool)
    | PurgeStep
    | IdleErrorStep(c: nat)
    | TimeoutStep(request: nat)

  /** A caller releases what it was handed out; idle observers sit on no connection in use; timers on past requests. */
  predicate Enabled(s: Shelf, e: Step)
  {
    match e
    case AcquireStep(_, _) => true
    case ReleaseStep(c, _, _, _) => c in s.out
    case PurgeStep => true
    case IdleErrorStep(c) => c < s.made && c !in s.out
    case TimeoutStep(request) => request < s.asked
  }

  function Next(max: nat, s: Shelf, e: Step): (r: Shelf)
  {
    match e
    case AcquireStep(valid, creates) => Acquire(max, s, valid, creates)
    case ReleaseStep(c, keep, valid, creates) => Release(max, s, c, keep, valid, creates)
    case PurgeStep => Purge(s)
    case IdleErrorStep(c) => IdleError(s, c)
    case TimeoutStep(request) => Timeout(s, request)
  }

  // ---------------------------------------------------------------- the ledger

  ghost predicate Distinct(s: seq<nat>) { forall i, j :: 0 <= i < j < |s| ==> s[i] != s[j] }

  ghost predicate Increasing(s: seq<nat>) { forall i, j :: 0 <= i < j < |s| ==> s[i] < s[j] }

  /** Every number below `n` is in exactly one of three sets, and nothing else is. */
  ghost predicate Partition(a: set<nat>, b: set<nat>, c: set<nat>, n: nat)
  {
    a !! b && a !! c && b !! c && forall x :: x in a || x in b || x in c <==> 0 <= x < n
  }

  /** Every connection ever created is in exactly one place: idle, handed out, or destroyed. */
  ghost predicate ConnectionsAccounted(s: Shelf)
  {
    Distinct(OrNone(s.idle)) && Partition(Elements(OrNone(s.idle)), s.out, s.destroyed, s.made)
  }

  /** Every request ever made is in exactly one place: waiting, granted, or refused. Those waiting are in order. */
  ghost predicate RequestsAccounted(s: Shelf)
  {
    Increasing(OrNone(s.queue)) && Partition(Elements(OrNone(s.queue)), s.granted.Keys, s.refused, s.asked)
  }

  /** The counter is right, the limit is kept, and nobody waits beside an idle connection. */
  ghost predicate Ledger(max: nat, s: Shelf)
  {
    && ConnectionsAccounted(s)
    && RequestsAccounted(s)
    && s.active == |s.out|
    && (max > 0 ==> |OrNone(s.idle)| + |s.out| <= max)
    && (OrNone(s.queue) != [] ==> max > 0 && OrNone(s.idle) == [])
  }

  lemma {:induction false} PopValidParts(idle: seq<nat>, valid: nat -> bool)
    requires Distinct(idle)
    ensures var (found, rest, dropped) := PopValid(idle, valid);
      && rest <= idle && Distinct(rest)
      && (found.Some? ==> |rest| < |idle| && found.value == idle[|rest|] && valid(found.value))
      && (found.None? ==> rest == [])
      && dropped == Elements(idle) - Elements(rest) - (if found.Some? then {found.value} else {})
      && forall x :: x in dropped ==> !valid(x)
  {
    if idle == [] {
      assert Elements([]) == {};
    } else {
      var last := idle[|idle| - 1];
      var init := idle[..|idle| - 1];
      LastApart(idle);
      if !valid(last) {
        PopValidParts(init, valid);
        var rest := PopValid(init, valid).1;
        Prefix(init, rest);
      }
    }
  }

  lemma LastApart(idle: seq<nat>)
    requires Distinct(idle) && idle != []
    ensures var init := idle[..|idle| - 1];
      && Distinct(init) && idle[|idle| - 1] !in Elements(init) && Elements(idle) == Elements(init) + {idle[|idle| - 1]}
  {
    OneMore(idle[..|idle| - 1], idle[|idle| - 1]);
    assert idle == idle[..|idle| - 1] + [idle[|idle| - 1]];
  }

  lemma Prefix(idle: seq<nat>, rest: seq<nat>)
    requires Distinct(idle) && rest <= idle
    ensures Elements(rest) <= Elements(idle)
    ensures |rest| < |idle| ==> idle[|rest|] in Elements(idle) - Elements(rest)
  {}

  /** Obtaining a connection keeps every other one accounted for, and finds the limit reached only when it is. */
  lemma ObtainKeeps(max: nat, s: Shelf, valid: nat -> bool, creates: bool)
    requires ConnectionsAccounted(s)
    ensures var (t, outcome) := Obtain(max, s, valid, creates);
      match outcome
      case Got(c) =>
        && ConnectionsAccounted(t.(out := t.out + {c})) && c !in s.out
        && (|OrNone(t.idle)| < |OrNone(s.idle)| || (OrNone(t.idle) == [] && !(max != 0 && s.active >= max)))
      case Full => ConnectionsAccounted(t) && OrNone(t.idle) == [] && max != 0 && s.active >= max
      case NotCreated => ConnectionsAccounted(t) && OrNone(t.idle) == [] && !(max != 0 && s.active >= max) && !creates
  {
    hide PopValid, Elements, Distinct;
    var idle := OrNone(s.idle);
    PopValidParts(idle, valid);
    var (found, rest, dropped) := PopValid(idle, valid);
    Prefix(idle, rest);
  }

  lemma ObtainFrame(max: nat, s: Shelf, valid: nat -> bool, creates: bool)
    ensures var (t, outcome) := Obtain(max, s, valid, creates);
      t == s.(idle := t.idle, destroyed := t.destroyed, made := t.made) && t.idle.Some?
  {}

  lemma HandOutKeeps(max: nat, s: Shelf, c: nat, request: nat)
    requires ConnectionsAccounted(s.(out := s.out + {c})) && c !in s.out
    requires s.active == |s.out| && (max > 0 ==> |OrNone(s.idle)| + |s.out| < max)
    requires OrNone(s.queue) != [] ==> max > 0 && OrNone(s.idle) == []
    requires RequestsAccounted(s.(refused := s.refused + {request})) && request !in s.refused
    ensures Ledger(max, HandOut(s, c, request))
  {
    hide Elements, Distinct, Increasing;
    assert HandOut(s, c, request).granted.Keys == s.granted.Keys + {request};
  }

  lemma Joins(queue: seq<nat>, n: nat)
    requires Increasing(queue) && forall x :: x in Elements(queue) ==> x < n
    ensures Increasing(queue + [n]) && Elements(queue + [n]) == Elements(queue) + {n}
  {
    var q := queue + [n];
    assert forall i :: 0 <= i < |queue| ==> q[i] == queue[i] && queue[i] in Elements(queue);
  }

  lemma Leaves(queue: seq<nat>)
    requires queue != [] && Increasing(queue)
    ensures Increasing(queue[1..]) && Elements(queue[1..]) == Elements(queue) - {queue[0]}
    ensures queue[0] in Elements(queue)
  {
    assert queue == [queue[0]] + queue[1..];
  }

  lemma AcquireKeeps(max: nat, s: Shelf, valid: nat -> bool, creates: bool)
    requires Ledger(max, s)
    ensures Ledger(max, Acquire(max, s, valid, creates))
  {
    hide Obtain, HandOut, ConnectionsAccounted, RequestsAccounted;
    var (t, outcome) := Obtain(max, s, valid, creates);
    ObtainKeeps(max, s, valid, creates);
    ObtainFrame(max, s, valid, creates);
    NewRequest(s, t);
    var a := t.(asked := s.asked + 1);
    match outcome
    case Got(c) =>
      SameConnections(t.(out := t.out + {c}), a.(out := a.out + {c}));
      HandOutKeeps(max, a, c, s.asked);
    case Full => SameConnections(t, Acquire(max, s, valid, creates));
    case NotCreated => SameConnections(t, Acquire(max, s, valid, creates));
  }

  /** A request just made is nowhere yet; it may be refused, or wait behind all others. */
  lemma NewRequest(s: Shelf, t: Shelf)
    requires RequestsAccounted(s)
    requires t.queue == s.queue && t.granted == s.granted && t.refused == s.refused
    ensures s.asked !in s.refused
    ensures RequestsAccounted(t.(asked := s.asked + 1, refused := s.refused + {s.asked}))
    ensures RequestsAccounted(t.(asked := s.asked + 1, queue := Some(OrNone(s.queue) + [s.asked])))
  {
    hide Elements, Increasing;
    Joins(OrNone(s.queue), s.asked);
  }

  lemma SameConnections(s: Shelf, t: Shelf)
    requires ConnectionsAccounted(s)
    requires t.idle == s.idle && t.out == s.out && t.destroyed == s.destroyed && t.made == s.made
    ensures ConnectionsAccounted(t)
  {}

  /** Between a connection's return and the next grant: room for one more, and at most the returned one idle. */
  ghost predicate Returned(max: nat, s: Shelf)
  {
    && ConnectionsAccounted(s)
    && RequestsAccounted(s)
    && s.active == |s.out|
    && (max > 0 ==> |OrNone(s.idle)| + |s.out| <= max && |s.out| < max)
    && (OrNone(s.queue) != [] ==> max > 0 && |OrNone(s.idle)| <= 1)
  }

  lemma Comes(idle: seq<nat>, c: nat)
    requires Distinct(idle) && c !in Elements(idle)
    ensures Distinct(idle + [c]) && Elements(idle + [c]) == Elements(idle) + {c}
  {}

  lemma TakeBackKeeps(max: nat, s: Shelf, c: nat, keep: bool)
    requires Ledger(max, s) && c in s.out
    ensures Returned(max, TakeBack(s, c, keep))
  {
    hide Elements, Distinct, Increasing;
    Comes(OrNone(s.idle), c);
    assert |s.out - {c}| == |s.out| - 1;
  }

  lemma ServeNextKeeps(max: nat, s: Shelf, valid: nat -> bool, creates: bool)
    requires Returned(max, s)
    ensures var n := ServeNext(max, s, valid, creates);
      && Ledger(max, n)
      && (OrNone(s.queue) != [] ==> s.queue.value[0] in n.granted || s.queue.value[0] in n.refused)
  {
    hide Obtain, Elements, Distinct, Increasing;
    if s.queue.Some? && s.queue.value != [] {
      var (t, outcome) := Obtain(max, s, valid, creates);
      ObtainKeeps(max, s, valid, creates);
      ObtainFrame(max, s, valid, creates);
      Leaves(s.queue.value);
      var request := s.queue.value[0];
      var q := t.(queue := Some(s.queue.value[1..]));
      if outcome.Got? {
        HandOutKeeps(max, q, outcome.c, request);
      }
    }
  }

  lemma {:induction false} WithoutPart(s: seq<nat>, x: nat)
    ensures Elements(Without(s, x)) == Elements(s) - {x} && |Without(s, x)| <= |s|
  {
    if s != [] {
      var last := s[|s| - 1];
      WithoutPart(s[..|s| - 1], x);
      assert s == s[..|s| - 1] + [last];
      OneMore(s[..|s| - 1], last);
      OneMore(Without(s[..|s| - 1], x), last);
    }
  }

  lemma InElements(s: seq<nat>)
    ensures forall x :: x in s <==> x in Elements(s)
  {}

  lemma WithoutLacks(s: seq<nat>, x: nat)
    ensures x !in Without(s, x)
  {
    hide Elements, Without;
    WithoutPart(s, x);
    InElements(Without(s, x));
  }

  lemma OneMore(s: seq<nat>, x: nat)
    ensures Elements(s + [x]) == Elements(s) + {x}
  {}

  lemma {:induction false} WithoutOrder(s: seq<nat>, x: nat)
    ensures Distinct(s) ==> Distinct(Without(s, x))
    ensures Increasing(s) ==> Increasing(Without(s, x))
  {
    if s != [] {
      var last := s[|s| - 1];
      WithoutOrder(s[..|s| - 1], x);
      WithoutPart(s[..|s| - 1], x);
      var w := Without(s[..|s| - 1], x);
      forall i | 0 <= i < |w| ensures exists j :: 0 <= j < |s| - 1 && s[j] == w[i] {
        assert w[i] in Elements(w);
      }
    }
  }

  lemma PurgeKeeps(max: nat, s: Shelf)
    requires Ledger(max, s)
    ensures Ledger(max, Purge(s))
  {
    hide Elements, Distinct, Increasing;
    assert Elements([]) == {} && Distinct([]) by { NoElements(); }
  }

  lemma IdleErrorKeeps(max: nat, s: Shelf, c: nat)
    requires Ledger(max, s) && c < s.made && c !in s.out
    ensures Ledger(max, IdleError(s, c))
  {
    hide Elements, Distinct, Increasing, Without;
    WithoutPart(OrNone(s.idle), c);
    WithoutOrder(OrNone(s.idle), c);
    NoElements();
  }

  lemma TimeoutKeeps(max: nat, s: Shelf, request: nat)
    requires Ledger(max, s) && request < s.asked
    ensures Ledger(max, Timeout(s, request))
  {
    hide Elements, Distinct, Increasing, Without;
    WithoutPart(OrNone(s.queue), request);
    WithoutOrder(OrNone(s.queue), request);
    NoElements();
  }

  lemma NoElements()
    ensures Elements([]) == {} && Distinct([])
  {}

  /** Every step keeps the ledger. */
  lemma StepKeeps(max: nat, s: Shelf, e: Step)
    requires Ledger(max, s) && Enabled(s, e)
    ensures Ledger(max, Next(max, s, e))
  {
    hide Ledger, Returned, Acquire, ServeNext, TakeBack, Purge, IdleError, Timeout;
    match e
    case AcquireStep(valid, creates) => AcquireKeeps(max, s, valid, creates);
    case ReleaseStep(c, keep, valid, creates) =>
      TakeBackKeeps(max, s, c, keep);
      ServeNextKeeps(max, TakeBack(s, c, keep), valid, creates);
    case PurgeStep => PurgeKeeps(max, s);
    case IdleErrorStep(c) => IdleErrorKeeps(max, s, c);
    case TimeoutStep(request) => TimeoutKeeps(max, s, request);
  }

  // ---------------------------------------------------------------- whole runs

  function Run(max: nat, s: Shelf, es: seq<Step>): (r: Shelf)
    decreases |es|
  {
    if es == [] then s else Run(max, Next(max, s, es[0]), es[1..])
  }

  ghost predicate Runs(max: nat, s: Shelf, es: seq<Step>)
    decreases |es|
  {
    es == [] || (Enabled(s, es[0]) && Runs(max, Next(max, s, es[0]), es[1..]))
  }

  lemma {:induction false} RunKeeps(max: nat, s: Shelf, es: seq<Step>)
    requires Ledger(max, s) && Runs(max, s, es)
    ensures Ledger(max, Run(max, s, es))
    decreases |es|
  {
    hide Ledger, Next, Enabled;
    if es != [] {
      StepKeeps(max, s, es[0]);
      RunKeeps(max, Next(max, s, es[0]), es[1..]);
    }
  }

  lemma {:induction false} DistinctSize(s: seq<nat>)
    requires Distinct(s)
    ensures |Elements(s)| == |s|
  {
    if s != [] {
      DistinctSize(s[..|s| - 1]);
      LastApart(s);
    }
  }

  lemma {:induction false} PartitionSize(a: set<nat>, b: set<nat>, c: set<nat>, n: nat)
    requires Partition(a, b, c, n)
    ensures |a| + |b| + |c| == n
  {
    if n == 0 {
      assert a == {} && b == {} && c == {};
    } else {
      var x := {n - 1};
      PartitionSize(a - x, b - x, c - x, n - 1);
    }
  }

  /**
    * Over every run from an empty pool: as many connections as were created are idle, handed out or
    * destroyed, and as many requests as were made are waiting, granted or refused; the counter counts
    * those handed out; idle and handed out together stay within the limit.
    */
  lemma RunsBalance(max: nat, es: seq<Step>)
    requires Runs(max, EMPTY, es)
    ensures var s := Run(max, EMPTY, es);
      && |OrNone(s.idle)| + |s.out| + |s.destroyed| == s.made
      && |OrNone(s.queue)| + |s.granted.Keys| + |s.refused| == s.asked
      && s.active == |s.out|
      && (max > 0 ==> |OrNone(s.idle)| + |s.out| <= max)
  {
    var s := Run(max, EMPTY, es);
    assert Ledger(max, s) by {
      hide Run, Runs;
      RunKeeps(max, EMPTY, es);
    }
    hide *;
    Balance(max, s);
  }

  lemma Balance(max: nat, s: Shelf)
    requires Ledger(max, s)
    ensures |OrNone(s.idle)| + |s.out| + |s.destroyed| == s.made
    ensures |OrNone(s.queue)| + |s.granted.Keys| + |s.refused| == s.asked
    ensures s.active == |s.out| && (max > 0 ==> |OrNone(s.idle)| + |s.out| <= max)
  {
    hide Elements;
    DistinctSize(OrNone(s.idle));
    DistinctSize(OrNone(s.queue));
    PartitionSize(Elements(OrNone(s.idle)), s.out, s.destroyed, s.made);
    PartitionSize(Elements(OrNone(s.queue)), s.granted.Keys, s.refused, s.asked);
  }

  // ---------------------------------------------------------------- whole runs over many keys

  type Key = string

  /** A step for one key, or `keepAll`, which purges every key but some. */
  datatype Event = For(key: Key, step: Step) | KeepOnly(keys: seq<Key>)

  function StepOf(k: Key, e: Event): (step: Option<Step>)
  {
    match e
    case For(key, step) => if key == k then Some(step) else None
    case KeepOnly(keys) => if k in keys then None else Some(PurgeStep)
  }

  function Advance(max: nat, s: Shelf, step: Option<Step>): (n: Shelf)
  {
    if step.Some? then Next(max, s, step.value) else s
  }

  /** What a run does to one key. */
  function StepsFor(k: Key, es: seq<Event>): (steps: seq<Step>)
    decreases |es|
  {
    if es == [] then []
    else (if StepOf(k, es[0]).Some? then [StepOf(k, es[0]).value] else []) + StepsFor(k, es[1..])
  }

  lemma NextStep(max: nat, s: Shelf, k: Key, es: seq<Event>, i: nat)
    requires i < |es| && Runs(max, s, StepsFor(k, es[i..]))
    ensures var step := StepOf(k, es[i]);
      && (step.Some? ==> Enabled(s, step.value))
      && Runs(max, Advance(max, s, step), StepsFor(k, es[i + 1..]))
      && Run(max, s, StepsFor(k, es[i..])) == Run(max, Advance(max, s, step), StepsFor(k, es[i + 1..]))
  {
    hide Next, Enabled;
    assert es[i..][0] == es[i] && es[i..][1..] == es[i + 1..];
    var rest := StepsFor(k, es[i + 1..]);
    var step := StepOf(k, es[i]);
    if step.Some? {
      assert ([step.value] + rest)[1..] == rest;
    } else {
      assert [] + rest == rest;
    }
  }

  lemma NoSteps(max: nat, s: Shelf, k: Key)
    ensures Run(max, s, StepsFor(k, [])) == s
  {}

  // ---------------------------------------------------------------- what an acquire gets

  predicate NoneValid(idle: seq<nat>, valid: nat -> bool) { forall i :: 0 <= i < |idle| ==> !valid(idle[i]) }

  /** The last valid one. */
  predicate IsLastValid(idle: seq<nat>, valid: nat -> bool, i: nat)
  {
    i < |idle| && valid(idle[i]) && NoneValid(idle[i + 1..], valid)
  }

  /**
    * An acquire gets the last valid idle connection if there is one. Otherwise it waits if and only if
    * the limit is used up, and below the limit it gets a new connection or is refused.
    */
  lemma AcquireGets(max: nat, s: Shelf, valid: nat -> bool, creates: bool)
    requires Ledger(max, s)
    ensures var n := Acquire(max, s, valid, creates);
      var idle := OrNone(s.idle);
      var full := max > 0 && s.active == max;
      && (forall i: nat :: IsLastValid(idle, valid, i) ==>
            n.granted == s.granted[s.asked := idle[i]] && n.made == s.made && n.idle == Some(idle[..i]))
      && (NoneValid(idle, valid) ==> n.idle == Some([]))
      && (NoneValid(idle, valid) && full ==> n.queue == Some(OrNone(s.queue) + [s.asked]))
      && (NoneValid(idle, valid) && !full && creates ==>
            n.granted == s.granted[s.asked := s.made] && n.made == s.made + 1)
      && (NoneValid(idle, valid) && !full && !creates ==> n.refused == s.refused + {s.asked})
  {
    hide Partition, Increasing, PopValid, NoneValid, IsLastValid, Distinct, Elements;
    PopTakesLast(OrNone(s.idle), valid);
    assert max > 0 ==> s.active <= max;
  }

  lemma {:induction false} PopTakesLast(idle: seq<nat>, valid: nat -> bool)
    ensures var (found, rest, dropped) := PopValid(idle, valid);
      && (NoneValid(idle, valid) ==> found == None && rest == [])
      && forall i: nat :: IsLastValid(idle, valid, i) ==> found == Some(idle[i]) && rest == idle[..i]
  {
    if idle != [] {
      var init := idle[..|idle| - 1];
      var last := idle[|idle| - 1];
      assert NoneValid(idle, valid) ==> !valid(last) && NoneValid(init, valid);
      if !valid(last) {
        PopTakesLast(init, valid);
      }
      forall i: nat | IsLastValid(idle, valid, i)
        ensures PopValid(idle, valid).0 == Some(idle[i]) && PopValid(idle, valid).1 == idle[..i]
      {
        LastValidEarlier(idle, valid, i);
        assert i < |init| ==> init[..i] == idle[..i];
      }
    }
  }

  lemma LastValidEarlier(idle: seq<nat>, valid: nat -> bool, i: nat)
    requires IsLastValid(idle, valid, i)
    ensures valid(idle[|idle| - 1]) <==> i == |idle| - 1
    ensures i < |idle| - 1 ==> IsLastValid(idle[..|idle| - 1], valid, i)
  {
    if i < |idle| - 1 {
      var init := idle[..|idle| - 1];
      var tail := idle[i + 1..];
      assert tail[|tail| - 1] == idle[|idle| - 1];
      var shorter := init[i + 1..];
      forall k | 0 <= k < |shorter| ensures !valid(shorter[k]) {
        assert shorter[k] == tail[k];
      }
    }
  }

  /** A connection released while nobody waits is the next one handed out, and nothing else changes. */
  lemma LastReleasedFirst(max: nat, s: Shelf, c: nat, valid: nat -> bool,
                          valid2: nat -> bool, creates: bool, creates2: bool)
    requires Ledger(max, s) && c in s.out && s.idle.Some? && OrNone(s.queue) == [] && valid2(c)
    ensures var n := Acquire(max, Release(max, s, c, true, valid, creates), valid2, creates2);
      && n.granted == s.granted[s.asked := c]
      && n == s.(queue := n.queue, asked := s.asked + 1, granted := n.granted) && OrNone(n.queue) == []
  {
    hide Distinct, Increasing, Elements, Partition;
    var t := TakeBack(s, c, true);
    var idle := s.idle.value;
    assert (idle + [c])[..|idle|] == idle;
    assert |s.out - {c}| == |s.out| - 1 && s.out - {c} + {c} == s.out;
    assert s.destroyed + {} == s.destroyed;
  }

  // ---------------------------------------------------------------- nobody waits for nothing

  /** Requests wait only while the limit is used up by connections in use. */
  ghost predicate Busy(max: nat, s: Shelf)
  {
    OrNone(s.queue) != [] ==> s.active == max
  }

  /**
    * A release serves the request at the head, and keeps the others waiting for connections in use, unless
    * a new connection was needed and could not be created while a second request is waiting.
    */
  lemma ReleaseKeepsBusy(max: nat, s: Shelf, c: nat, keep: bool, valid: nat -> bool, creates: bool)
    requires Ledger(max, s) && Busy(max, s) && c in s.out
    ensures Busy(max, Release(max, s, c, keep, valid, creates))
      <==> creates || |OrNone(s.queue)| < 2 || (s.idle.Some? && keep && valid(c))
  {
    hide Elements, Distinct, Increasing;
    if OrNone(s.queue) != [] {
      var t := TakeBack(s, c, keep);
      assert PopValid([c], valid) == if valid(c) then (Some(c), [], {}) else (None, [], {c}) by { PopOne(c, valid); }
      assert PopValid([], valid) == (None, [], {});
    }
  }

  lemma PopOne(c: nat, valid: nat -> bool)
    ensures PopValid([c], valid) == if valid(c) then (Some(c), [], {}) else (None, [], {c})
  {
    assert [c][..0] == [];
    assert PopValid([], valid) == (None, [], {});
    assert {c} + {} == {c};
  }

  /**
    * A release never drops a waiting request: the head is granted the connection that came back or a new
    * one, or refused if none can be created; the others keep their order.
    */
  lemma ReleaseServesHead(max: nat, s: Shelf, c: nat, keep: bool, valid: nat -> bool, creates: bool)
    requires Ledger(max, s) && c in s.out && OrNone(s.queue) != []
    ensures var n := Release(max, s, c, keep, valid, creates);
      var head := s.queue.value[0];
      var reused := s.idle.Some? && keep && valid(c);
      && (head in n.granted <==> creates || reused)
      && (head in n.granted ==> n.granted[head] == if reused then c else s.made)
      && (head in n.refused <==> head !in n.granted)
      && n.queue == Some(s.queue.value[1..])
  {
    hide Distinct, Increasing, Elements;
    PopOne(c, valid);
    PopNone(valid);
    Head(s.queue.value);
    assert |s.out - {c}| == |s.out| - 1;
    assert OrNone(s.idle) == [];
    var t := TakeBack(s, c, keep);
    assert OrNone(t.idle) == if s.idle.Some? && keep then [c] else [];
  }

  lemma Head(queue: seq<nat>)
    requires queue != []
    ensures queue[0] in Elements(queue)
  {}

  /** Three requests for one connection, which comes back broken when no other can be created. */
  function Stranding(): (es: seq<Step>)
  {
    [AcquireStep(_ => true, true), AcquireStep(_ => true, true), AcquireStep(_ => true, true),
     ReleaseStep(0, false, _ => true, false)]
  }

  /** The last request then waits although no connection is in use. */
  lemma RequestStranded()
    ensures Runs(1, EMPTY, Stranding())
    ensures var s := Run(1, EMPTY, Stranding()); s.queue == Some([2]) && s.active == 0 && !Busy(1, s)
  {
    hide Next, Enabled;
    var es := Stranding();
    StrandingSteps();
    assert es[1..][1..] == es[2..] && es[2..][1..] == es[3..] && es[3..][1..] == [];
  }

  lemma StrandingSteps()
    ensures var es := Stranding();
      var s1 := Next(1, EMPTY, es[0]);
      var s2 := Next(1, s1, es[1]);
      var s3 := Next(1, s2, es[2]);
      var s4 := Next(1, s3, es[3]);
      && Enabled(EMPTY, es[0]) && Enabled(s1, es[1]) && Enabled(s2, es[2]) && Enabled(s3, es[3])
      && s4.queue == Some([2]) && s4.active == 0
  {}

  /** The other steps leave nobody waiting while the limit is not used up. */
  lemma OthersKeepBusy(max: nat, s: Shelf, e: Step)
    requires Ledger(max, s) && Busy(max, s) && Enabled(s, e) && !e.ReleaseStep?
    ensures Busy(max, Next(max, s, e))
  {
    hide PopValid, Elements, Distinct, Increasing, Partition;
    if e.TimeoutStep? {
      WithoutPart(OrNone(s.queue), e.request);
    }
    if e.AcquireStep? && OrNone(s.queue) != [] {
      assert PopValid([], e.valid) == (None, [], {}) by { PopNone(e.valid); }
    }
  }

  lemma PopNone(valid: nat -> bool)
    ensures PopValid([], valid) == (None, [], {})
  {}
}
