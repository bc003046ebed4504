/** The connection object: a current observer, a queue, and the handlers that update them in place. */
module BoltConnection {
  import opened Wrappers
  import opened Responses

  class Connection {
    var current: Option<Observer>
    var pending: seq<Observer>
    var failure: Option<Failure>
    var broken: bool
    var error: Failure

    /** What observers were told, and in which order. */
    var calls: seq<Call>

    ghost var queued: seq<Observer>
    ghost var answered: seq<Observer>

    ghost function State(): (c: Conn)
      reads this
    {
      Conn(current, pending, failure, broken, error, queued, answered, calls)
    }

    constructor ()
      ensures State() == FRESH
    {
      current, pending, failure, broken, error := None, [], None, false, UnknownMessage;
      calls, queued, answered := [], [], [];
    }

    /** `_queueObserver` */
    method QueueObserver(o: Observer) returns (accepted: bool)
      modifies this
      ensures State() == Queue(old(State()), o) && accepted == !old(broken)
    {
      if broken {
        calls := calls + [OnError(o, error)];
        if o.ResetOnFailure? {
          failure := None;
        }
        return false;
      }
      if current.None? {
        current := Some(o);
      } else {
        pending := pending + [o];
      }
      queued := queued + [o];
      return true;
    }

    /** What an observer writes from within its callback. */
    method QueueEach(os: seq<Observer>)
      modifies this
      ensures State() == QueueAll(old(State()), os)
    {
      var i := 0;
      while i < |os|
        invariant i <= |os|
        invariant QueueAll(State(), os[i..]) == QueueAll(old(State()), os)
      {
        assert os[i..][0] == os[i] && os[i..][1..] == os[i + 1..];
        var _ := QueueObserver(os[i]);
        i := i + 1;
      }
    }

    /** `_updateCurrentObserver` */
    method UpdateCurrentObserver()
      modifies this
      ensures State() == Shift(old(State()))
    {
      if pending == [] {
        current := None;
      } else {
        current, pending := Some(pending[0]), pending[1..];
      }
    }

    method NotifyBroken(o: Observer, reply: Reply)
      requires broken
      modifies this
      ensures State() == Notify(old(State()), o, reply)
    {
      calls := calls + [OnError(o, error)];
      if o.ResetOnFailure? {
        failure := None;
      } else {
        QueueEach(reply(o));
      }
    }

    /** `_handleFatalError` */
    method HandleFatalError(why: Failure, reply: Reply)
      modifies this
      ensures State() == Fatal(old(State()), why, reply)
      ensures broken && pending == [] && current == old(current) && queued == old(queued)
      ensures Finished(calls) == Finished(old(calls)) + Told(Waiting(old(State())), reply)
    {
      hide Notify, Told, Finished, Waiting;
      FatalBreaks(State(), why, reply);
      FatalTellsEach(State(), why, reply);
      broken, error := true, why;
      if current.Some? {
        NotifyKeeps(State(), current.value, reply);
        NotifyBroken(current.value, reply);
      }
      while pending != []
        invariant broken
        invariant NotifyPending(State(), reply) == Fatal(old(State()), why, reply)
        decreases |pending|
      {
        var o := pending[0];
        NotifyKeeps(State().(pending := pending[1..]), o, reply);
        pending := pending[1..];
        NotifyBroken(o, reply);
      }
    }

    /** `_handleProtocolError` */
    method HandleProtocolError(reply: Reply)
      modifies this
      ensures State() == ProtocolFailure(old(State()), reply)
    {
      hide Fatal, Told, Finished, Waiting;
      failure := None;
      UpdateCurrentObserver();
      HandleFatalError(ProtocolError, reply);
    }

    /** Calls an observer on a working connection: a user's, the connection's own reset, or a caller's reset. */
    method CallBack(call: Call, reply: Reply)
      requires !broken
      modifies this
      ensures State() == Deliver(old(State()), call, reply)
    {
      hide QueueAll, ProtocolFailure;
      calls := calls + [call];
      match call.to
      case User(_) => QueueEach(reply(call.to));
      case ResetOnFailure =>
        if call.OnNext? {
          HandleProtocolError(reply);
        } else {
          failure := None;
        }
      case ResetAndFlush(_) =>
        if call.OnCompleted? {
          QueueEach(reply(call.to));
        } else {
          HandleProtocolError(reply);
        }
    }

    method NextTurn()
      modifies this
      ensures State() == Answered(old(State()))
    {
      if current.Some? && !broken {
        answered := answered + [current.value];
      }
      UpdateCurrentObserver();
    }

    /** `_handleMessage` */
    method HandleMessage(r: Response, reply: Reply)
      modifies this
      ensures State() == Handle(old(State()), r, reply)
      ensures old(InOrder(State())) ==> InOrder(State())
      ensures old(broken) ==> State() == old(State())
    {
      hide Deliver, Answered, Queue, Fatal, InOrder, Told, Finished, Waiting;
      if InOrder(State()) {
        HandleKeeps(State(), r, reply);
      }
      if broken {
        return;
      }
      match r
      case Record(x) =>
        if current.Some? {
          CallBack(OnNext(current.value, x), reply);
        }
      case Success =>
        if current.Some? {
          CallBack(OnCompleted(current.value), reply);
        }
        NextTurn();
      case Failed(code) =>
        failure := Some(Reported(code));
        if current.Some? {
          CallBack(OnError(current.value, Reported(code)), reply);
        }
        NextTurn();
        var _ := QueueObserver(ResetOnFailure);
      case Ignored =>
        if current.Some? {
          CallBack(OnError(current.value, if failure.Some? then failure.value else IgnoredByServer), reply);
        }
        NextTurn();
      case Unknown => HandleFatalError(UnknownMessage, reply);
    }

    /** Serves a whole run of writes, responses and channel failures. */
    method Serve(es: seq<Event>)
      modifies this
      ensures State() == Run(old(State()), es)
      ensures old(InOrder(State())) ==> InOrder(State())
    {
      hide Handle, Queue, Fatal, InOrder, Told, Finished, Waiting;
      if InOrder(State()) {
        RunsStayInOrder(State(), es);
      }
      var i := 0;
      while i < |es|
        invariant i <= |es|
        invariant Run(State(), es[i..]) == Run(old(State()), es)
      {
        assert es[i..][0] == es[i] && es[i..][1..] == es[i + 1..];
        match es[i] {
          case Write(o) =>
            var _ := QueueObserver(o);
          case Arrive(r, reply) => HandleMessage(r, reply);
          case ChannelFails(code, reply) => HandleFatalError(ChannelError(code), reply);
        }
        i := i + 1;
      }
    }
  }
}
