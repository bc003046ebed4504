/**
  * The bookkeeping of a pipelined connection: requests are written ahead, their observers wait in a
  * queue, and responses arrive in order. Observers may write again from within a callback, and a
  * failure makes the connection queue a reset of its own.
  */
module Responses {
  import opened Wrappers

  /** A caller's observer, the reset sent after a failure, and a reset asked for by the caller. */
  datatype Observer = User(id: nat) | ResetOnFailure | ResetAndFlush(id: nat)

  datatype Failure = Reported(code: int) | IgnoredByServer | ProtocolError | ChannelError(code: int) | UnknownMessage

  datatype Call = OnNext(to: Observer, record: int) | OnCompleted(to: Observer) | OnError(to: Observer, why: Failure)

  datatype Response = Record(r: int) | Success | Failed(code: int) | Ignored | Unknown

  /** `queued`, `answered` and `calls` are history: who was queued, who got a last response, and every call. */
  datatype Conn = Conn(
    current: Option<Observer>, pending: seq<Observer>, failure: Option<Failure>, broken: bool, error: Failure,
    queued: seq<Observer>, answered: seq<Observer>, calls: seq<Call>)

  /** What an observer writes from within a callback. */
  type Reply = Observer -> seq<Observer>

  const FRESH := Conn(None, [], None, false, UnknownMessage, [], [], [])

  function Tell(c: Conn, call: Call): (r: Conn) { c.(calls := c.calls + [call]) }

  /** `_queueObserver` */
  function Queue(c: Conn, o: Observer): (r: Conn)
  {
    if c.broken then
      var t := Tell(c, OnError(o, c.error));
      if o.ResetOnFailure? then t.(failure := None) else t
    else if c.current.None? then c.(current := Some(o), queued := c.queued + [o])
    else c.(pending := c.pending + [o], queued := c.queued + [o])
  }

  function QueueAll(c: Conn, os: seq<Observer>): (r: Conn)
    decreases |os|
  {
    if os == [] then c else QueueAll(Queue(c, os[0]), os[1..])
  }

  /** `_updateCurrentObserver` */
  function Shift(c: Conn): (r: Conn)
  {
    if c.pending == [] then c.(current := None)
    else c.(current := Some(c.pending[0]), pending := c.pending[1..])
  }

  /** `onError` of an observer on a connection that is already broken. */
  function Notify(c: Conn, o: Observer, reply: Reply): (r: Conn)
  {
    var t := Tell(c, OnError(o, c.error));
    match o
    case User(_) => QueueAll(t, reply(o))
    case ResetOnFailure => t.(failure := None)
    case ResetAndFlush(_) => QueueAll(t, reply(o))
  }

  function NotifyPending(c: Conn, reply: Reply): (r: Conn)
    requires c.broken
    decreases |c.pending|
  {
    if c.pending == [] then c
    else
      var d := Notify(c.(pending := c.pending[1..]), c.pending[0], reply);
      NotifyKeeps(c.(pending := c.pending[1..]), c.pending[0], reply);
      NotifyPending(d, reply)
  }

  /** `_handleFatalError`: tells the current observer and empties the queue. */
  function Fatal(c: Conn, why: Failure, reply: Reply): (r: Conn)
  {
    var b := c.(broken := true, error := why);
    if b.current.Some? then
      NotifyKeeps(b, b.current.value, reply);
      NotifyPending(Notify(b, b.current.value, reply), reply)
    else NotifyPending(b, reply)
  }

  /** Once broken, calling observers back changes nothing but the calls. */
  predicate SameQueues(c: Conn, d: Conn)
  {
    d.broken == c.broken && d.error == c.error && d.current == c.current && d.pending == c.pending
    && d.queued == c.queued && d.answered == c.answered && c.calls <= d.calls
  }

  lemma {:induction false} QueueAllBroken(c: Conn, os: seq<Observer>)
    requires c.broken
    ensures SameQueues(c, QueueAll(c, os))
    decreases |os|
  {
    if os != [] {
      QueueAllBroken(Queue(c, os[0]), os[1..]);
    }
  }

  lemma NotifyKeeps(c: Conn, o: Observer, reply: Reply)
    requires c.broken
    ensures SameQueues(c, Notify(c, o, reply))
  {
    QueueAllBroken(Tell(c, OnError(o, c.error)), reply(o));
  }

  /** `_handleProtocolError` */
  function ProtocolFailure(c: Conn, reply: Reply): (r: Conn)
  {
    Fatal(Shift(c.(failure := None)), ProtocolError, reply)
  }

  /** The `onNext`, `onCompleted` and `onError` of the current observer on a working connection. */
  function Deliver(c: Conn, call: Call, reply: Reply): (r: Conn)
    requires !c.broken
  {
    var t := Tell(c, call);
    match call.to
    case User(_) => QueueAll(t, reply(call.to))
    case ResetOnFailure => if call.OnNext? then ProtocolFailure(t, reply) else t.(failure := None)
    case ResetAndFlush(_) => if call.OnCompleted? then QueueAll(t, reply(call.to)) else ProtocolFailure(t, reply)
  }

  /** The current observer has had its last response. */
  function Answered(c: Conn): (r: Conn)
  {
    var a := if c.current.Some? && !c.broken then c.(answered := c.answered + [c.current.value]) else c;
    Shift(a)
  }

  /** `_handleMessage`. Without a current observer the original throws after its clean-up. */
  function Handle(c: Conn, r: Response, reply: Reply): (n: Conn)
  {
    if c.broken then c
    else
      match r
      case Record(x) => if c.current.None? then c else Deliver(c, OnNext(c.current.value, x), reply)
      case Success =>
        Answered(if c.current.None? then c else Deliver(c, OnCompleted(c.current.value), reply))
      case Failed(code) =>
        var f := c.(failure := Some(Reported(code)));
        var d := if f.current.None? then f else Deliver(f, OnError(f.current.value, Reported(code)), reply);
        Queue(Answered(d), ResetOnFailure)
      case Ignored =>
        var why := if c.failure.Some? then c.failure.value else IgnoredByServer;
        Answered(if c.current.None? then c else Deliver(c, OnError(c.current.value, why), reply))
      case Unknown => Fatal(c, UnknownMessage, reply)
  }

  // ---------------------------------------------------------------- what every event keeps

  /** Those still waiting for a last response, in order. */
  function Waiting(c: Conn): (os: seq<Observer>)
  {
    (if c.current.Some? then [c.current.value] else []) + c.pending
  }

  /** Who got a last call, in order. */
  function Finished(calls: seq<Call>): (os: seq<Observer>)
  {
    if calls == [] then []
    else
      var call := calls[|calls| - 1];
      Finished(calls[..|calls| - 1]) + if call.OnNext? then [] else [call.to]
  }

  /**
    * Until it breaks, a connection has given a last response to exactly a prefix of those queued, in
    * the order they were queued, and the rest are waiting in that order.
    */
  ghost predicate InOrder(c: Conn)
  {
    !c.broken ==>
      && c.queued == c.answered + Waiting(c)
      && (c.current.None? ==> c.pending == [])
      && Finished(c.calls) == c.answered
  }

  lemma FinishedTell(calls: seq<Call>, call: Call)
    ensures Finished(calls + [call]) == Finished(calls) + if call.OnNext? then [] else [call.to]
  {
    assert (calls + [call])[..|calls + [call]| - 1] == calls;
  }

  lemma QueueWaits(c: Conn, o: Observer)
    requires !c.broken && (c.current.None? ==> c.pending == [])
    ensures var d := Queue(c, o);
            && Waiting(d) == Waiting(c) + [o]
            && d == c.(current := d.current, pending := d.pending, queued := c.queued + [o])
            && d.current.Some? && (c.current.Some? ==> d.current == c.current)
  {}

  /** Queueing on a working connection appends to the history and to those waiting. */
  lemma {:induction false} QueueAllWaits(c: Conn, os: seq<Observer>)
    requires !c.broken && (c.current.None? ==> c.pending == [])
    ensures var d := QueueAll(c, os);
            && Waiting(d) == Waiting(c) + os
            && d == c.(current := d.current, pending := d.pending, queued := c.queued + os)
            && (d.current.None? ==> d.pending == []) && (c.current.Some? ==> d.current == c.current)
    decreases |os|
  {
    hide Queue, Waiting;
    if os == [] {
      assert Waiting(c) + [] == Waiting(c) && c.queued + [] == c.queued;
    } else {
      var e := Queue(c, os[0]);
      QueueWaits(c, os[0]);
      QueueAllWaits(e, os[1..]);
      assert os == [os[0]] + os[1..];
      assert Waiting(c) + [os[0]] + os[1..] == Waiting(c) + os;
      assert c.queued + [os[0]] + os[1..] == c.queued + os;
    }
  }

  lemma {:induction false} NotifyPendingKeeps(c: Conn, reply: Reply)
    requires c.broken
    ensures var d := NotifyPending(c, reply);
            && SameQueues(c, d.(pending := c.pending)) && d.pending == []
    decreases |c.pending|
  {
    if c.pending != [] {
      var e := c.(pending := c.pending[1..]);
      NotifyKeeps(e, c.pending[0], reply);
      NotifyPendingKeeps(Notify(e, c.pending[0], reply), reply);
    }
  }

  /** A fatal error breaks the connection, empties the queue and forgets nothing else. */
  lemma FatalBreaks(c: Conn, why: Failure, reply: Reply)
    ensures var d := Fatal(c, why, reply);
            && d.broken && d.error == why && d.pending == [] && d.current == c.current
            && d.queued == c.queued && d.answered == c.answered && c.calls <= d.calls
  {
    hide Notify, NotifyPending;
    var b := c.(broken := true, error := why);
    if b.current.Some? {
      NotifyKeeps(b, b.current.value, reply);
      NotifyPendingKeeps(Notify(b, b.current.value, reply), reply);
    } else {
      NotifyPendingKeeps(b, reply);
    }
  }

  /** A call to the current observer: a working connection keeps it current, and only queues more. */
  lemma DeliverKeeps(c: Conn, call: Call, reply: Reply)
    requires !c.broken && c.current == Some(call.to)
    ensures var d := Deliver(c, call, reply);
      !d.broken ==>
        && d.current == c.current && d.answered == c.answered && d.calls == c.calls + [call]
        && exists more :: d.queued == c.queued + more && d.pending == c.pending + more
  {
    hide QueueAll, Fatal;
    var t := Tell(c, call);
    var more := reply(call.to);
    QueueAllWaits(t, more);
    FatalBreaks(Shift(t.(failure := None)), ProtocolError, reply);
    var q := QueueAll(t, more);
    assert q.pending == c.pending + more by {
      assert [call.to] + q.pending == ([call.to] + c.pending) + more;
      assert ([call.to] + q.pending)[1..] == q.pending && (([call.to] + c.pending) + more)[1..] == c.pending + more;
    }
    assert c.queued + [] == c.queued && c.pending + [] == c.pending;
  }

  lemma RecordKeeps(c: Conn, call: Call, reply: Reply)
    requires InOrder(c) && !c.broken && c.current == Some(call.to) && call.OnNext?
    ensures InOrder(Deliver(c, call, reply))
  {
    hide Deliver, Finished;
    DeliverKeeps(c, call, reply);
    var d := Deliver(c, call, reply);
    if !d.broken {
      var more :| d.queued == c.queued + more && d.pending == c.pending + more;
      FinishedTell(c.calls, call);
      assert Finished(c.calls) + [] == Finished(c.calls);
      assert c.answered + ([call.to] + c.pending) + more == c.answered + ([call.to] + (c.pending + more));
    }
  }

  /** The next one's turn, on a connection that kept working through the last call. */
  lemma TurnPasses(c: Conn, o: Observer, more: seq<Observer>, d: Conn)
    requires InOrder(c) && !c.broken && c.current == Some(o)
    requires !d.broken && d.current == c.current && d.answered == c.answered
    requires d.queued == c.queued + more && d.pending == c.pending + more
    requires Finished(d.calls) == c.answered + [o]
    ensures var n := Answered(d); InOrder(n) && n.answered == c.answered + [o] && c.queued <= n.queued
  {
    hide Finished;
    assert Waiting(Answered(d)) == d.pending;
    assert c.answered + ([o] + c.pending) + more == c.answered + [o] + (c.pending + more);
  }

  /** A last call to the current observer, then the next one's turn. */
  lemma AnswerKeeps(c: Conn, call: Call, reply: Reply)
    requires InOrder(c) && !c.broken && c.current == Some(call.to) && !call.OnNext?
    ensures var n := Answered(Deliver(c, call, reply));
            InOrder(n) && (!n.broken ==> n.answered == c.answered + [call.to] && c.queued <= n.queued)
  {
    hide Deliver, Finished, Waiting;
    DeliverKeeps(c, call, reply);
    var d := Deliver(c, call, reply);
    if !d.broken {
      var more :| d.queued == c.queued + more && d.pending == c.pending + more;
      FinishedTell(c.calls, call);
      TurnPasses(c, call.to, more, d);
    }
  }

  lemma QueueKeeps(c: Conn, o: Observer)
    requires InOrder(c)
    ensures InOrder(Queue(c, o))
    ensures c.broken ==> Queue(c, o).queued == c.queued && Queue(c, o).broken
    ensures !c.broken ==> Queue(c, o).queued == c.queued + [o] && !Queue(c, o).broken
    ensures Queue(c, o).answered == c.answered
  {
    hide Finished;
    if !c.broken {
      QueueWaits(c, o);
      assert c.answered + Waiting(c) + [o] == c.answered + (Waiting(c) + [o]);
    }
  }

  lemma NoCurrent(c: Conn)
    requires InOrder(c) && !c.broken && c.current.None?
    ensures InOrder(Answered(c)) && Answered(c) == c
  {
    hide Finished;
  }

  predicate IsLast(r: Response) { r.Success? || r.Failed? || r.Ignored? }

  /**
    * Every response keeps the order, and a last response reaches the observer queued in its turn: the
    * k-th of them the k-th observer. After a failure a reset is queued behind everything else.
    */
  lemma HandleKeeps(c: Conn, r: Response, reply: Reply)
    requires InOrder(c)
    ensures var n := Handle(c, r, reply);
      && InOrder(n)
      && (!n.broken ==>
            && c.queued <= n.queued
            && n.answered ==
              (if IsLast(r) && c.current.Some? then c.answered + [c.queued[|c.answered|]] else c.answered)
            && (r.Failed? ==> n.queued != [] && n.queued[|n.queued| - 1] == ResetOnFailure))
  {
    hide Deliver, Answered, Queue, Fatal, Finished;
    if !c.broken {
      if c.current.Some? {
        assert c.queued[|c.answered|] == c.current.value;
      }
      match r
      case Record(x) =>
        if c.current.Some? {
          DeliverKeeps(c, OnNext(c.current.value, x), reply);
          RecordKeeps(c, OnNext(c.current.value, x), reply);
        }
      case Success =>
        if c.current.Some? {
          AnswerKeeps(c, OnCompleted(c.current.value), reply);
        } else {
          NoCurrent(c);
        }
      case Failed(code) =>
        var f := c.(failure := Some(Reported(code)));
        if c.current.Some? {
          AnswerKeeps(f, OnError(c.current.value, Reported(code)), reply);
        } else {
          NoCurrent(f);
        }
        var d := if f.current.None? then f else Deliver(f, OnError(f.current.value, Reported(code)), reply);
        QueueKeeps(Answered(d), ResetOnFailure);
      case Ignored =>
        var why := if c.failure.Some? then c.failure.value else IgnoredByServer;
        if c.current.Some? {
          AnswerKeeps(c, OnError(c.current.value, why), reply);
        } else {
          NoCurrent(c);
        }
      case Unknown => FatalBreaks(c, UnknownMessage, reply);
    }
  }

  // ---------------------------------------------------------------- whole runs

  datatype Event = Write(o: Observer) | Arrive(r: Response, reply: Reply) | ChannelFails(code: int, reply: Reply)

  function Next(c: Conn, e: Event): (n: Conn)
  {
    match e
    case Write(o) => Queue(c, o)
    case Arrive(r, reply) => Handle(c, r, reply)
    case ChannelFails(code, reply) => Fatal(c, ChannelError(code), reply)
  }

  function Run(c: Conn, es: seq<Event>): (n: Conn)
    decreases |es|
  {
    if es == [] then c else Run(Next(c, es[0]), es[1..])
  }

  /** Over every run: as long as the connection works, responses and observers match one to one in order. */
  lemma {:induction false} RunsStayInOrder(c: Conn, es: seq<Event>)
    requires InOrder(c)
    ensures InOrder(Run(c, es))
    decreases |es|
  {
    hide Handle, Queue, Fatal, InOrder;
    if es != [] {
      NextKeeps(c, es[0]);
      RunsStayInOrder(Next(c, es[0]), es[1..]);
    }
  }

  lemma NextKeeps(c: Conn, e: Event)
    requires InOrder(c)
    ensures InOrder(Next(c, e))
  {
    hide Handle, Queue, Fatal;
    match e
    case Write(o) => QueueKeeps(c, o);
    case Arrive(r, reply) => HandleKeeps(c, r, reply);
    case ChannelFails(code, reply) => FatalBreaks(c, ChannelError(code), reply);
  }

  /** After a fatal error no message from the wire is delivered and nothing new is queued, ever. */
  lemma {:induction false} BrokenForGood(c: Conn, es: seq<Event>)
    requires c.broken && c.pending == []
    ensures var n := Run(c, es);
      && n.broken && n.queued == c.queued && n.answered == c.answered && c.calls <= n.calls
      && forall k :: |c.calls| <= k < |n.calls| ==> n.calls[k].OnError?
    decreases |es|
  {
    hide Queue, Fatal;
    if es != [] {
      BrokenStep(c, es[0]);
      BrokenForGood(Next(c, es[0]), es[1..]);
    }
  }

  ghost predicate OnlyErrorsAdded(c: Conn, n: Conn)
  {
    c.calls <= n.calls && forall k :: |c.calls| <= k < |n.calls| ==> n.calls[k].OnError?
  }

  lemma BrokenStep(c: Conn, e: Event)
    requires c.broken && c.pending == []
    ensures var n := Next(c, e);
      n.broken && n.pending == [] && n.queued == c.queued && n.answered == c.answered && OnlyErrorsAdded(c, n)
  {
    hide Notify, NotifyPending;
    match e
    case Write(_) =>
    case Arrive(_, _) =>
    case ChannelFails(code, reply) =>
      FatalBreaks(c, ChannelError(code), reply);
      var b := c.(error := ChannelError(code));
      if b.current.Some? {
        NotifyKeeps(b, b.current.value, reply);
        NotifyAddsErrors(b, b.current.value, reply);
        NothingPending(Notify(b, b.current.value, reply), reply);
      } else {
        NothingPending(b, reply);
      }
  }

  lemma NothingPending(c: Conn, reply: Reply)
    requires c.broken && c.pending == []
    ensures NotifyPending(c, reply) == c
  {}

  lemma {:induction false} QueueAllAddsErrors(c: Conn, os: seq<Observer>)
    requires c.broken
    ensures OnlyErrorsAdded(c, QueueAll(c, os))
    decreases |os|
  {
    if os != [] {
      QueueAllAddsErrors(Queue(c, os[0]), os[1..]);
    }
  }

  lemma NotifyAddsErrors(c: Conn, o: Observer, reply: Reply)
    requires c.broken
    ensures OnlyErrorsAdded(c, Notify(c, o, reply))
  {
    QueueAllAddsErrors(Tell(c, OnError(o, c.error)), reply(o));
  }

  // ---------------------------------------------------------------- what each response tells whom

  /** Records in a row, and then a success. */
  function Answer(xs: seq<int>, reply: Reply): (es: seq<Event>)
  {
    seq(|xs|, k requires 0 <= k < |xs| => Arrive(Record(xs[k]), reply)) + [Arrive(Success, reply)]
  }

  function Nexts(o: Observer, xs: seq<int>): (calls: seq<Call>)
  {
    seq(|xs|, k requires 0 <= k < |xs| => OnNext(o, xs[k]))
  }

  /**
    * A query that is answered: its observer is told every record and then of the success, nobody else is
    * told anything, and the next in the queue is current, whatever is written meanwhile.
    */
  lemma {:induction false} QueryAnswered(c: Conn, xs: seq<int>, reply: Reply)
    requires InOrder(c) && !c.broken && Waiting(c) != [] && Waiting(c)[0].User?
    ensures var o := Waiting(c)[0];
      var d := Run(c, Answer(xs, reply));
      && InOrder(d) && !d.broken && d.failure == c.failure && Waiting(c)[1..] <= Waiting(d)
      && d.calls == c.calls + Nexts(o, xs) + [OnCompleted(o)]
    decreases |xs|
  {
    hide InOrder, Handle, Waiting;
    var o := Waiting(c)[0];
    if xs == [] {
      SuccessTells(c, reply);
      assert c.calls + Nexts(o, []) == c.calls;
      assert Answer([], reply)[1..] == [];
    } else {
      RecordTells(c, xs[0], reply);
      var d := Handle(c, Record(xs[0]), reply);
      assert Answer(xs, reply)[1..] == Answer(xs[1..], reply);
      QueryAnswered(d, xs[1..], reply);
      assert Nexts(o, xs) == [OnNext(o, xs[0])] + Nexts(o, xs[1..]);
      assert c.calls + [OnNext(o, xs[0])] + Nexts(o, xs[1..]) == c.calls + Nexts(o, xs);
    }
  }

  /** What a user writes when told waits behind all others, and the next of them is current. */
  lemma PassOn(t: Conn, o: Observer, more: seq<Observer>)
    requires !t.broken && t.current == Some(o)
    ensures var n := Answered(QueueAll(t, more));
      && !n.broken && n.calls == t.calls && n.failure == t.failure && Waiting(n) == t.pending + more
      && n.queued == t.queued + more
  {
    hide QueueAll;
    QueueAllWaits(t, more);
    var q := QueueAll(t, more);
    assert Waiting(q) == Waiting(t) + more;
    assert Waiting(q)[1..] == Waiting(t)[1..] + more;
    assert Waiting(t)[1..] == t.pending && Waiting(q)[1..] == q.pending;
  }

  lemma RecordTells(c: Conn, x: int, reply: Reply)
    requires InOrder(c) && !c.broken && Waiting(c) != [] && Waiting(c)[0].User?
    ensures var d := Handle(c, Record(x), reply);
      && InOrder(d) && !d.broken && d.failure == c.failure
      && d.calls == c.calls + [OnNext(Waiting(c)[0], x)] && Waiting(c) <= Waiting(d)
  {
    hide QueueAll, Finished;
    var o := Waiting(c)[0];
    HandleKeeps(c, Record(x), reply);
    QueueAllWaits(Tell(c, OnNext(o, x)), reply(o));
  }

  lemma SuccessTells(c: Conn, reply: Reply)
    requires InOrder(c) && !c.broken && Waiting(c) != [] && Waiting(c)[0].User?
    ensures var d := Handle(c, Success, reply);
      && InOrder(d) && !d.broken && d.failure == c.failure
      && d.calls == c.calls + [OnCompleted(Waiting(c)[0])] && Waiting(c)[1..] <= Waiting(d)
  {
    hide QueueAll, Finished;
    var o := Waiting(c)[0];
    assert c.current == Some(o) && Waiting(c)[1..] == c.pending;
    HandleKeeps(c, Success, reply);
    hide Waiting, Answered, InOrder;
    PassOn(Tell(c, OnCompleted(o)), o, reply(o));
  }

  /**
    * The reset that the connection queues after a failure: however its request ends, the failure is over;
    * a record in response to it breaks the connection.
    */
  lemma ResetAnswered(c: Conn, r: Response, reply: Reply)
    requires InOrder(c) && !c.broken && Waiting(c) != [] && Waiting(c)[0] == ResetOnFailure
    ensures var d := Handle(c, r, reply);
      && (r.Success? || r.Ignored? || r.Failed? ==> !d.broken && d.failure == None && Waiting(c)[1..] <= Waiting(d))
      && (r.Success? ==> d.calls == c.calls + [OnCompleted(ResetOnFailure)] && d.queued == c.queued)
      && (r.Record? ==> d.broken && d.error == ProtocolError && d.failure == None)
  {
    hide Finished, Fatal, QueueAll;
    if r.Record? {
      ResetGetsRecord(c, r.r, reply);
    }
  }

  lemma ResetGetsRecord(c: Conn, x: int, reply: Reply)
    requires !c.broken && c.current == Some(ResetOnFailure)
    ensures var d := Handle(c, Record(x), reply); d.broken && d.error == ProtocolError && d.failure == None
  {
    hide Fatal;
    var s := Shift(Tell(c, OnNext(ResetOnFailure, x)).(failure := None));
    FatalBreaks(s, ProtocolError, reply);
    FatalForgets(s, ProtocolError, reply);
  }

  /** A fatal error leaves no failure behind that was not there. */
  lemma FatalForgets(c: Conn, why: Failure, reply: Reply)
    requires c.failure == None
    ensures Fatal(c, why, reply).failure == None
  {
    hide Notify, NotifyPending;
    var b := c.(broken := true, error := why);
    if b.current.Some? {
      NotifyKeeps(b, b.current.value, reply);
      NotifyForgets(b, b.current.value, reply);
      PendingForgets(Notify(b, b.current.value, reply), reply);
    } else {
      PendingForgets(b, reply);
    }
  }

  lemma {:induction false} PendingForgets(c: Conn, reply: Reply)
    requires c.broken && c.failure == None
    ensures NotifyPending(c, reply).failure == None
    decreases |c.pending|
  {
    hide Notify;
    if c.pending != [] {
      var e := c.(pending := c.pending[1..]);
      NotifyKeeps(e, c.pending[0], reply);
      NotifyForgets(e, c.pending[0], reply);
      PendingForgets(Notify(e, c.pending[0], reply), reply);
    }
  }

  lemma NotifyForgets(c: Conn, o: Observer, reply: Reply)
    requires c.broken && c.failure == None
    ensures Notify(c, o, reply).failure == None
  {
    QueueAllForgets(Tell(c, OnError(o, c.error)), reply(o));
  }

  lemma {:induction false} QueueAllForgets(c: Conn, os: seq<Observer>)
    requires c.broken && c.failure == None
    ensures QueueAll(c, os).failure == None
    decreases |os|
  {
    if os != [] {
      QueueAllForgets(Queue(c, os[0]), os[1..]);
    }
  }

  /** A reset that a caller asks for: a success completes it, and anything else breaks the connection. */
  lemma ResetAndFlushAnswered(c: Conn, r: Response, reply: Reply)
    requires InOrder(c) && !c.broken && Waiting(c) != [] && Waiting(c)[0].ResetAndFlush?
    ensures var d := Handle(c, r, reply);
      && (r.Success? ==> !d.broken && d.calls == c.calls + [OnCompleted(Waiting(c)[0])]
                         && Waiting(c)[1..] <= Waiting(d))
      && (r.Record? || r.Failed? || r.Ignored? ==> d.broken && d.error == ProtocolError)
      && (r.Unknown? ==> d.broken && d.error == UnknownMessage)
  {
    hide QueueAll, Finished, Fatal;
    var o := Waiting(c)[0];
    assert c.current == Some(o);
    FatalBreaks(c, UnknownMessage, reply);
    if r.Success? {
      var t := Tell(c, OnCompleted(o));
      QueueAllWaits(t, reply(o));
      var q := QueueAll(t, reply(o));
      assert Waiting(q) == Waiting(c) + reply(o);
      assert Waiting(q)[1..] == Waiting(c)[1..] + reply(o) == q.pending;
    } else if !r.Unknown? {
      var e := if r.Failed? then c.(failure := Some(Reported(r.code))) else c;
      var why := if r.Failed? then Reported(r.code)
                 else if c.failure.Some? then c.failure.value else IgnoredByServer;
      var t := Tell(e, if r.Record? then OnNext(o, r.r) else OnError(o, why));
      FatalBreaks(Shift(t.(failure := None)), ProtocolError, reply);
    }
  }

  /** A response ignored without a failure before it is told as such. */
  lemma IgnoredAlone(c: Conn, reply: Reply)
    requires InOrder(c) && !c.broken && c.failure == None && Waiting(c) != [] && Waiting(c)[0].User?
    ensures var d := Handle(c, Ignored, reply);
      && InOrder(d) && !d.broken && d.failure == None
      && d.calls == c.calls + [OnError(Waiting(c)[0], IgnoredByServer)]
  {
    hide QueueAll, Finished;
    var o := Waiting(c)[0];
    assert c.current == Some(o);
    HandleKeeps(c, Ignored, reply);
    hide Waiting, Answered, InOrder;
    PassOn(Tell(c, OnError(o, IgnoredByServer)), o, reply(o));
  }

  /** After the reset has been answered, the failure before it is told to nobody any more. */
  lemma ResetEndsFailure(c: Conn, reply: Reply)
    requires InOrder(c) && !c.broken && |Waiting(c)| > 1
    requires Waiting(c)[0] == ResetOnFailure && Waiting(c)[1].User?
    ensures var d := Run(c, [Arrive(Success, reply), Arrive(Ignored, reply)]);
      && !d.broken
      && d.calls == c.calls + [OnCompleted(ResetOnFailure), OnError(Waiting(c)[1], IgnoredByServer)]
  {
    hide Handle, InOrder, Waiting;
    ResetAnswered(c, Success, reply);
    HandleKeeps(c, Success, reply);
    var d := Handle(c, Success, reply);
    assert Waiting(d)[0] == Waiting(c)[1..][0];
    IgnoredAlone(d, reply);
    RunTwo(c, Arrive(Success, reply), Arrive(Ignored, reply));
    assert c.calls + [OnCompleted(ResetOnFailure)] + [OnError(Waiting(c)[1], IgnoredByServer)]
        == c.calls + [OnCompleted(ResetOnFailure), OnError(Waiting(c)[1], IgnoredByServer)];
  }

  lemma RunTwo(c: Conn, a: Event, b: Event)
    ensures Run(c, [a, b]) == Next(Next(c, a), b)
  {
    hide Next;
    assert [a, b][1..] == [b] && [b][1..] == [];
    assert Run(Next(c, a), [b]) == Run(Next(Next(c, a), b), []);
  }

  /** A reset that cannot be written any more ends the failure too. */
  lemma RefusedReset(c: Conn)
    requires c.broken
    ensures Queue(c, ResetOnFailure) == c.(calls := c.calls + [OnError(ResetOnFailure, c.error)], failure := None)
    ensures forall id :: Queue(c, User(id)) == c.(calls := c.calls + [OnError(User(id), c.error)])
  {}

  // ---------------------------------------------------------------- one failure for all that follow

  /** `n` responses in a row that say the request was ignored. */
  function Ignoreds(n: nat, reply: Reply): (es: seq<Event>) { seq(n, _ => Arrive(Ignored, reply)) }

  /** Telling each of `os` the same failure. */
  function Errors(os: seq<Observer>, why: Failure): (r: seq<Call>)
  {
    seq(|os|, i requires 0 <= i < |os| => OnError(os[i], why))
  }

  ghost predicate AllUsers(os: seq<Observer>) { forall i :: 0 <= i < |os| ==> os[i].User? }

  /** The users waiting first are told the failure that is current, whatever they write meanwhile. */
  lemma {:induction false} IgnoredShareFailure(c: Conn, n: nat, reply: Reply, why: Failure)
    requires InOrder(c) && !c.broken && c.failure == Some(why)
    requires n <= |Waiting(c)| && AllUsers(Waiting(c)[..n])
    ensures var d := Run(c, Ignoreds(n, reply));
      && InOrder(d) && !d.broken && d.failure == Some(why)
      && d.calls == c.calls + Errors(Waiting(c)[..n], why)
      && Waiting(c)[n..] <= Waiting(d)
    decreases n
  {
    hide InOrder, Handle, AllUsers;
    if n == 0 {
      assert c.calls + Errors(Waiting(c)[..0], why) == c.calls;
    } else {
      var w := Waiting(c);
      var d := Handle(c, Ignored, reply);
      assert w[0] == w[..n][0] && w[0].User? by { FirstUser(w, n); }
      IgnoredTells(c, reply, why);
      var v := Waiting(d);
      assert w[1..][..n - 1] == w[1..n] == v[..n - 1];
      assert AllUsers(v[..n - 1]) by { FirstUser(w, n); }
      assert Ignoreds(n, reply)[1..] == Ignoreds(n - 1, reply);
      IgnoredShareFailure(d, n - 1, reply, why);
      assert [OnError(w[0], why)] + Errors(w[1..n], why) == Errors(w[..n], why);
      assert w[n..] == w[1..][n - 1..] <= v[n - 1..];
    }
  }

  lemma FirstUser(w: seq<Observer>, n: nat)
    requires 0 < n <= |w| && AllUsers(w[..n])
    ensures w[0].User? && AllUsers(w[1..n])
  {
    assert w[0] == w[..n][0];
    assert forall i :: 0 <= i < n - 1 ==> w[1..n][i] == w[..n][i + 1];
  }

  lemma IgnoredTells(c: Conn, reply: Reply, why: Failure)
    requires InOrder(c) && !c.broken && c.failure == Some(why) && Waiting(c) != [] && Waiting(c)[0].User?
    ensures var d := Handle(c, Ignored, reply);
      && InOrder(d) && !d.broken && d.failure == Some(why)
      && d.calls == c.calls + [OnError(Waiting(c)[0], why)] && Waiting(c)[1..] <= Waiting(d)
  {
    hide QueueAll, Finished;
    var o := Waiting(c)[0];
    assert c.current == Some(o) && Waiting(c)[1..] == c.pending;
    HandleKeeps(c, Ignored, reply);
    hide Waiting, Answered, InOrder;
    PassOn(Tell(c, OnError(o, why)), o, reply(o));
  }

  /**
    * A failure reaches the user whose request failed and every user behind it whose request is ignored for
    * it: all of them see the failure that was reported, in order.
    */
  lemma FailureIsShared(c: Conn, code: int, n: nat, reply: Reply, reply2: Reply)
    requires InOrder(c) && !c.broken && n < |Waiting(c)| && AllUsers(Waiting(c)[..n + 1])
    ensures var d := Run(Handle(c, Failed(code), reply), Ignoreds(n, reply2));
      && InOrder(d) && !d.broken
      && d.calls == c.calls + Errors(Waiting(c)[..n + 1], Reported(code))
  {
    hide InOrder, AllUsers, Run, Handle;
    var w := Waiting(c);
    var why := Reported(code);
    FirstUser(w, n + 1);
    FailedTells(c, code, reply);
    var f := Handle(c, Failed(code), reply);
    var v := Waiting(f);
    assert w[1..] == v[..|w| - 1];
    assert v[..n] == w[1..n + 1];
    IgnoredShareFailure(f, n, reply2, why);
    assert [OnError(w[0], why)] + Errors(w[1..n + 1], why) == Errors(w[..n + 1], why);
  }

  lemma FailedTells(c: Conn, code: int, reply: Reply)
    requires InOrder(c) && !c.broken && Waiting(c) != [] && Waiting(c)[0].User?
    ensures var d := Handle(c, Failed(code), reply);
      && InOrder(d) && !d.broken && d.failure == Some(Reported(code))
      && d.calls == c.calls + [OnError(Waiting(c)[0], Reported(code))] && Waiting(c)[1..] <= Waiting(d)
  {
    hide QueueAll, Finished;
    var o := Waiting(c)[0];
    assert c.current == Some(o) && Waiting(c)[1..] == c.pending;
    HandleKeeps(c, Failed(code), reply);
    var t := Tell(c.(failure := Some(Reported(code))), OnError(o, Reported(code)));
    PassOn(t, o, reply(o));
    var n := Answered(QueueAll(t, reply(o)));
    assert n.current.None? ==> n.pending == [];
    hide Waiting, Answered, InOrder;
    QueueWaits(n, ResetOnFailure);
  }

  // ---------------------------------------------------------------- what a fatal error tells whom

  /** The observers told by telling `os` in order: each, and then what it writes in response. */
  function Told(os: seq<Observer>, reply: Reply): (r: seq<Observer>)
  {
    if os == [] then []
    else [os[0]] + (if os[0].ResetOnFailure? then [] else reply(os[0])) + Told(os[1..], reply)
  }

  lemma {:induction false} QueueAllFinishes(c: Conn, os: seq<Observer>)
    requires c.broken
    ensures Finished(QueueAll(c, os).calls) == Finished(c.calls) + os
    decreases |os|
  {
    if os == [] {
      assert Finished(c.calls) + [] == Finished(c.calls);
    } else {
      FinishedTell(c.calls, OnError(os[0], c.error));
      QueueAllFinishes(Queue(c, os[0]), os[1..]);
      assert Finished(c.calls) + [os[0]] + os[1..] == Finished(c.calls) + os;
    }
  }

  lemma NotifyFinishes(c: Conn, o: Observer, reply: Reply)
    requires c.broken
    ensures Finished(Notify(c, o, reply).calls)
         == Finished(c.calls) + ([o] + if o.ResetOnFailure? then [] else reply(o))
  {
    hide Finished;
    var t := Tell(c, OnError(o, c.error));
    FinishedTell(c.calls, OnError(o, c.error));
    QueueAllFinishes(t, reply(o));
    assert Finished(c.calls) + [o] + reply(o) == Finished(c.calls) + ([o] + reply(o));
    assert Finished(c.calls) + [o] == Finished(c.calls) + ([o] + []);
  }

  lemma {:induction false} NotifyPendingFinishes(c: Conn, reply: Reply)
    requires c.broken
    ensures Finished(NotifyPending(c, reply).calls) == Finished(c.calls) + Told(c.pending, reply)
    decreases |c.pending|
  {
    hide Finished, Notify;
    if c.pending == [] {
      assert Finished(c.calls) + [] == Finished(c.calls);
    } else {
      var e := c.(pending := c.pending[1..]);
      var o := c.pending[0];
      var d := Notify(e, o, reply);
      var first := [o] + if o.ResetOnFailure? then [] else reply(o);
      NotifyKeeps(e, o, reply);
      NotifyFinishes(e, o, reply);
      NotifyPendingFinishes(d, reply);
      assert Finished(d.calls) == Finished(c.calls) + first;
      assert Told(c.pending, reply) == first + Told(e.pending, reply);
      assert (Finished(c.calls) + first) + Told(e.pending, reply)
          == Finished(c.calls) + (first + Told(e.pending, reply));
    }
  }

  /** A fatal error tells every waiting observer exactly once, in order, and after each what it writes. */
  lemma FatalTellsEach(c: Conn, why: Failure, reply: Reply)
    ensures Finished(Fatal(c, why, reply).calls) == Finished(c.calls) + Told(Waiting(c), reply)
  {
    hide Finished, Notify, NotifyPending;
    var b := c.(broken := true, error := why);
    if b.current.Some? {
      var o := b.current.value;
      var d := Notify(b, o, reply);
      var first := [o] + if o.ResetOnFailure? then [] else reply(o);
      NotifyKeeps(b, o, reply);
      NotifyFinishes(b, o, reply);
      NotifyPendingFinishes(d, reply);
      assert Waiting(c)[0] == o && Waiting(c)[1..] == c.pending;
      assert Told(Waiting(c), reply) == first + Told(c.pending, reply);
      assert (Finished(c.calls) + first) + Told(c.pending, reply)
          == Finished(c.calls) + (first + Told(c.pending, reply));
    } else {
      assert Waiting(c) == c.pending;
      NotifyPendingFinishes(b, reply);
    }
  }

  lemma {:induction false} ToldSilent(os: seq<Observer>, reply: Reply)
    requires forall o :: reply(o) == []
    ensures Told(os, reply) == os
  {
    if os != [] {
      ToldSilent(os[1..], reply);
    }
  }

  /** Everything told from `c` on is this error. */
  ghost predicate ToldWhy(c: Conn, d: Conn, why: Failure)
  {
    c.calls <= d.calls && forall k :: |c.calls| <= k < |d.calls| ==> d.calls[k].OnError? && d.calls[k].why == why
  }

  lemma {:induction false} QueueAllTellsWhy(c: Conn, os: seq<Observer>)
    requires c.broken
    ensures ToldWhy(c, QueueAll(c, os), c.error)
    decreases |os|
  {
    if os != [] {
      QueueAllTellsWhy(Queue(c, os[0]), os[1..]);
    }
  }

  lemma NotifyTellsWhy(c: Conn, o: Observer, reply: Reply)
    requires c.broken
    ensures ToldWhy(c, Notify(c, o, reply), c.error)
  {
    QueueAllTellsWhy(Tell(c, OnError(o, c.error)), reply(o));
  }

  lemma {:induction false} PendingTellsWhy(c: Conn, reply: Reply)
    requires c.broken
    ensures ToldWhy(c, NotifyPending(c, reply), c.error)
    decreases |c.pending|
  {
    hide Notify;
    if c.pending != [] {
      var e := c.(pending := c.pending[1..]);
      NotifyKeeps(e, c.pending[0], reply);
      NotifyTellsWhy(e, c.pending[0], reply);
      PendingTellsWhy(Notify(e, c.pending[0], reply), reply);
    }
  }

  /** What a fatal error tells is that error, to everyone. */
  lemma FatalTellsWhy(c: Conn, why: Failure, reply: Reply)
    ensures ToldWhy(c, Fatal(c, why, reply), why)
  {
    hide Notify, NotifyPending;
    var b := c.(broken := true, error := why);
    if b.current.Some? {
      NotifyKeeps(b, b.current.value, reply);
      NotifyTellsWhy(b, b.current.value, reply);
      PendingTellsWhy(Notify(b, b.current.value, reply), reply);
    } else {
      PendingTellsWhy(b, reply);
    }
  }

  /** A response that is none breaks the connection, and everyone waiting is told so. */
  lemma UnknownResponse(c: Conn, reply: Reply)
    requires !c.broken
    ensures var d := Handle(c, Unknown, reply);
      && d.broken && d.error == UnknownMessage && d.pending == [] && ToldWhy(c, d, UnknownMessage)
      && Finished(d.calls) == Finished(c.calls) + Told(Waiting(c), reply)
  {
    hide Fatal, Finished;
    FatalBreaks(c, UnknownMessage, reply);
    FatalTellsWhy(c, UnknownMessage, reply);
    FatalTellsEach(c, UnknownMessage, reply);
  }

  /** If nobody writes while it is being told, a connection that breaks has told everyone ever queued once, in order. */
  lemma BreakTellsEveryoneOnce(c: Conn, why: Failure, reply: Reply)
    requires InOrder(c) && !c.broken && forall o :: reply(o) == []
    ensures Finished(Fatal(c, why, reply).calls) == c.queued
  {
    hide Finished, Fatal;
    FatalTellsEach(c, why, reply);
    ToldSilent(Waiting(c), reply);
  }

  /**
    * A second fatal error leaves the observers alone if and only if none was current at the first: the
    * current observer is kept, and told again.
    */
  lemma SecondFatalIsSilent(c: Conn, why: Failure, reply: Reply, again: Failure, reply2: Reply)
    ensures var d := Fatal(c, why, reply);
            Fatal(d, again, reply2).calls == d.calls <==> c.current.None?
  {
    hide Fatal, Notify, NotifyPending, Finished;
    var d := Fatal(c, why, reply);
    FatalBreaks(c, why, reply);
    FatalTellsEach(d, again, reply2);
    if c.current.None? {
      FatalNothingPending(d, again, reply2);
    } else {
      assert Told(Waiting(d), reply2) != [];
      assert |Finished(Fatal(d, again, reply2).calls)| > |Finished(d.calls)|;
    }
  }

  lemma FatalNothingPending(c: Conn, why: Failure, reply: Reply)
    requires c.pending == [] && c.current.None?
    ensures Fatal(c, why, reply).calls == c.calls
  {
    hide Notify;
  }

  /** One observer, two fatal errors: it is told both times. */
  lemma ToldTwice()
    ensures var silent: Reply := _ => [];
      var once := Fatal(Queue(FRESH, User(0)), ProtocolError, silent);
      Fatal(once, ChannelError(0), silent).calls == [OnError(User(0), ProtocolError), OnError(User(0), ChannelError(0))]
  {
    var silent: Reply := _ => [];
    var c := Queue(FRESH, User(0)).(broken := true, error := ProtocolError);
    assert Notify(c, User(0), silent).calls == [OnError(User(0), ProtocolError)];
  }
}
