/** Routing tables and rediscovery: which routers are asked, in which order, and which are forgotten. */
module Rediscovery {
  import opened Wrappers

  /** Addresses are compared by key when a server is forgotten, and by identity when seeds are filtered. */
  datatype Address = Address(key: string, identity: nat)

  datatype Table = Table(routers: seq<Address>, readers: seq<Address>, writers: seq<Address>, expires: int)

  const NO_TABLE := Table([], [], [], 0)

  datatype Mode = Read | Write

  /** What comes of asking one router. Only a refused authorization is not swallowed. */
  datatype Answer = Answers(t: Table) | NoAnswer | Unauthorized

  datatype Failure = ServiceUnavailable | NotAuthorized

  function WithoutKey(s: seq<Address>, key: string): (r: seq<Address>)
  {
    if s == [] then []
    else (if s[0].key == key then [] else [s[0]]) + WithoutKey(s[1..], key)
  }

  /** Stale: expired, without routers, or without a server for the mode. */
  predicate IsStaleFor(t: Table, mode: Mode, now: int)
  {
    t.expires < now || |t.routers| < 1 || (mode == Read && |t.readers| == 0) || (mode == Write && |t.writers| == 0)
  }

  function AllServers(t: Table): (r: seq<Address>) { t.routers + t.readers + t.writers }

  lemma AllServersMeans(t: Table, a: Address)
    ensures a in AllServers(t) <==> a in t.routers || a in t.readers || a in t.writers
  {}

  // ---------------------------------------------------------------- asking one router after another

  /** The router before the `i`-th is forgotten; `known` is absent when seeds are asked. */
  function Forget(known: Option<Table>, rs: seq<Address>, i: int): (r: Option<Table>)
  {
    if known.Some? && 0 <= i < |rs|
    then Some(known.value.(routers := WithoutKey(known.value.routers, rs[i].key)))
    else known
  }

  datatype Fetched = Fetched(answer: Answer, known: Option<Table>, asked: seq<Address>)

  /** `_fetchRoutingTable` from the `i`-th router on, `answers` being what comes of the n-th question in all. */
  function Fetch(known: Option<Table>, rs: seq<Address>, i: nat, asked: seq<Address>,
                 answers: nat -> Answer): (r: Fetched)
    requires i <= |rs|
    decreases |rs| - i
  {
    if i == |rs| then Fetched(NoAnswer, known, asked)
    else
      var k := Forget(known, rs, i - 1);
      var a := answers(|asked|);
      if a.NoAnswer? then Fetch(k, rs, i + 1, asked + [rs[i]], answers)
      else Fetched(a, k, asked + [rs[i]])
  }

  /** `_fetchRoutingTableUsingKnownRouters`: when nobody answered, the last one is forgotten too. */
  function FetchKnown(known: Table, rs: seq<Address>, asked: seq<Address>, answers: nat -> Answer): (r: Fetched)
  {
    var f := Fetch(Some(known), rs, 0, asked, answers);
    if f.answer.NoAnswer? then f.(known := Forget(f.known, rs, |rs| - 1)) else f
  }

  function Unlisted(seeds: seq<Address>, rs: seq<Address>): (r: seq<Address>)
  {
    if seeds == [] then []
    else (if seeds[0] in rs then [] else [seeds[0]]) + Unlisted(seeds[1..], rs)
  }

  /** `_fetchRoutingTableUsingSeedRouter`; `seeds` is what the seed router resolves to. */
  function FetchSeeds(seeds: seq<Address>, rs: seq<Address>, asked: seq<Address>, answers: nat -> Answer): (r: Fetched)
  {
    Fetch(None, Unlisted(seeds, rs), 0, asked, answers)
  }

  /** `table` is the current routing table, updated in place while routers are asked. */
  datatype Balancer = Balancer(table: Table, useSeedRouter: bool)

  /** What a refresh ends with: the new state, the servers asked in order, and the outcome. */
  datatype Refreshed = Refreshed(b: Balancer, asked: seq<Address>, outcome: Result<Table, Failure>)

  /** `_applyRoutingTableIfPossible` */
  function Apply(b: Balancer, f: Fetched): (r: Refreshed)
  {
    match f.answer
    case Answers(t) => Refreshed(Balancer(t, b.useSeedRouter || |t.writers| == 0), f.asked, Ok(t))
    case NoAnswer => Refreshed(b, f.asked, Err(ServiceUnavailable))
    case Unauthorized => Refreshed(b, f.asked, Err(NotAuthorized))
  }

  function Kept(f: Fetched, t: Table): (r: Table) { if f.known.Some? then f.known.value else t }

  /** `_refreshRoutingTable` */
  function Refresh(b: Balancer, seeds: seq<Address>, answers: nat -> Answer): (r: Refreshed)
  {
    var rs := b.table.routers;
    if b.useSeedRouter then
      var f := FetchSeeds(seeds, [], [], answers);
      if f.answer.Answers? then Apply(b.(useSeedRouter := false), f)
      else if f.answer.Unauthorized? then Apply(b, f)
      else
        var g := FetchKnown(b.table, rs, f.asked, answers);
        Apply(b.(table := Kept(g, b.table)), g)
    else
      var f := FetchKnown(b.table, rs, [], answers);
      var c := b.(table := Kept(f, b.table));
      if f.answer.NoAnswer? then Apply(c, FetchSeeds(seeds, rs, f.asked, answers)) else Apply(c, f)
  }

  // ---------------------------------------------------------------- what a reader expects

  /** How many of `n` questions, from the `from`-th on, get no answer before the first that does. */
  function Unanswered(answers: nat -> Answer, from: nat, n: nat): (k: nat)
    ensures k <= n
    decreases n
  {
    if n == 0 || !answers(from).NoAnswer? then 0 else 1 + Unanswered(answers, from + 1, n - 1)
  }

  /** What is left of a table when several routers are forgotten. */
  function WithoutKeys(s: seq<Address>, gone: seq<Address>): (r: seq<Address>)
  {
    if s == [] then []
    else (if KeyIn(s[0].key, gone) then [] else [s[0]]) + WithoutKeys(s[1..], gone)
  }

  predicate KeyIn(key: string, s: seq<Address>) { exists i :: 0 <= i < |s| && s[i].key == key }

  lemma {:induction false} ForgetOneMore(s: seq<Address>, gone: seq<Address>, a: Address)
    ensures WithoutKey(WithoutKeys(s, gone), a.key) == WithoutKeys(s, gone + [a])
  {
    if s != [] {
      ForgetOneMore(s[1..], gone, a);
      KeyInSnoc(s[0].key, gone, a);
      var rest := WithoutKeys(s[1..], gone);
      if KeyIn(s[0].key, gone) {
        assert [] + rest == rest;
        assert [] + WithoutKeys(s[1..], gone + [a]) == WithoutKeys(s[1..], gone + [a]);
      } else {
        assert ([s[0]] + rest)[1..] == rest;
      }
    }
  }

  lemma KeyInSnoc(key: string, s: seq<Address>, a: Address)
    ensures KeyIn(key, s + [a]) <==> KeyIn(key, s) || a.key == key
  {
    var t := s + [a];
    assert t[|s|] == a;
    if KeyIn(key, s) {
      var i :| 0 <= i < |s| && s[i].key == key;
      assert t[i].key == key;
    }
  }

  lemma {:induction false} ForgetNobody(s: seq<Address>)
    ensures WithoutKeys(s, []) == s
  {
    if s != [] {
      ForgetNobody(s[1..]);
    }
  }

  /** Asking stops at the first router that answers or refuses. */
  lemma {:induction false} FetchAnswer(known: Option<Table>, rs: seq<Address>, i: nat,
                                      asked: seq<Address>, answers: nat -> Answer)
    requires i <= |rs|
    ensures var f := Fetch(known, rs, i, asked, answers);
      var j := i + Unanswered(answers, |asked|, |rs| - i);
      && (j < |rs| ==> f.answer == answers(|asked| + j - i) && f.asked == asked + rs[i..j + 1])
      && (j == |rs| ==> f.answer == NoAnswer && f.asked == asked + rs[i..])
    decreases |rs| - i
  {
    hide Forget;
    if i == |rs| {
      assert asked + rs[i..] == asked;
    } else if answers(|asked|).NoAnswer? {
      var next := asked + [rs[i]];
      FetchAnswer(Forget(known, rs, i - 1), rs, i + 1, next, answers);
      var j := i + Unanswered(answers, |asked|, |rs| - i);
      assert j < |rs| ==> next + rs[i + 1..j + 1] == asked + rs[i..j + 1];
      assert next + rs[i + 1..] == asked + rs[i..];
    } else {
      assert rs[i..i + 1] == [rs[i]];
    }
  }

  function Losing(t: Table, gone: seq<Address>): (r: Option<Table>)
  {
    Some(t.(routers := WithoutKeys(t.routers, gone)))
  }

  /** The routers asked before the last one, and only those, are forgotten on the way. */
  lemma {:induction false} FetchForgets(t: Table, rs: seq<Address>, i: nat, asked: seq<Address>, answers: nat -> Answer)
    requires 0 < i <= |rs|
    ensures var f := Fetch(Losing(t, rs[..i - 1]), rs, i, asked, answers);
      var j := i + Unanswered(answers, |asked|, |rs| - i);
      f.known == Losing(t, rs[..if j < |rs| then j else j - 1])
    decreases |rs| - i
  {
    hide Losing;
    if i < |rs| {
      LosingOneMore(t, rs, i);
      if answers(|asked|).NoAnswer? {
        FetchForgets(t, rs, i + 1, asked + [rs[i]], answers);
      }
    }
  }

  lemma LosingOneMore(t: Table, rs: seq<Address>, i: nat)
    requires 0 < i <= |rs|
    ensures Forget(Losing(t, rs[..i - 1]), rs, i - 1) == Losing(t, rs[..i])
  {
    hide WithoutKeys, WithoutKey;
    ForgetOneMore(t.routers, rs[..i - 1], rs[i - 1]);
    assert rs[..i - 1] + [rs[i - 1]] == rs[..i];
  }

  /** The known routers: those before the first to answer are forgotten, all of them when none does. */
  lemma FetchKnownForgets(t: Table, rs: seq<Address>, asked: seq<Address>, answers: nat -> Answer)
    ensures FetchKnown(t, rs, asked, answers).known == Losing(t, rs[..Unanswered(answers, |asked|, |rs|)])
  {
    hide *;
    if 0 < |rs| && answers(|asked|).NoAnswer? {
      LaterAnswers(t, rs, asked, answers);
    } else {
      FirstAnswers(t, rs, asked, answers);
    }
  }

  lemma LaterAnswers(t: Table, rs: seq<Address>, asked: seq<Address>, answers: nat -> Answer)
    requires 0 < |rs| && answers(|asked|).NoAnswer?
    ensures FetchKnown(t, rs, asked, answers).known == Losing(t, rs[..Unanswered(answers, |asked|, |rs|)])
  {
    hide Fetch, Unanswered, Losing, Forget;
    FirstPasses(t, rs, asked, answers);
    FetchNoAnswer(Some(t), rs, asked, answers);
    FetchForgets(t, rs, 1, asked + [rs[0]], answers);
    LosingOneMore(t, rs, |rs|);
  }

  lemma FirstAnswers(t: Table, rs: seq<Address>, asked: seq<Address>, answers: nat -> Answer)
    requires 0 == |rs| || !answers(|asked|).NoAnswer?
    ensures FetchKnown(t, rs, asked, answers).known == Losing(t, [])
    ensures rs[..Unanswered(answers, |asked|, |rs|)] == []
  {
    LosingNobody(t);
  }

  lemma FetchNoAnswer(known: Option<Table>, rs: seq<Address>, asked: seq<Address>, answers: nat -> Answer)
    ensures Fetch(known, rs, 0, asked, answers).answer.NoAnswer? <==> Unanswered(answers, |asked|, |rs|) == |rs|
  {
    hide Fetch;
    FetchAnswer(known, rs, 0, asked, answers);
    UnansweredStops(answers, |asked|, |rs|);
  }

  lemma FirstPasses(t: Table, rs: seq<Address>, asked: seq<Address>, answers: nat -> Answer)
    requires 0 < |rs| && answers(|asked|).NoAnswer?
    ensures Fetch(Some(t), rs, 0, asked, answers) == Fetch(Losing(t, rs[..0]), rs, 1, asked + [rs[0]], answers)
    ensures Unanswered(answers, |asked|, |rs|) == 1 + Unanswered(answers, |asked + [rs[0]]|, |rs| - 1)
  {
    LosingNobody(t);
    assert rs[..0] == [];
  }

  lemma LosingNobody(t: Table)
    ensures Losing(t, []) == Some(t)
  {
    ForgetNobody(t.routers);
  }

  lemma {:induction false} AllForgotten(s: seq<Address>, gone: seq<Address>)
    requires forall a :: a in s ==> KeyIn(a.key, gone)
    ensures WithoutKeys(s, gone) == []
  {
    if s != [] {
      AllForgotten(s[1..], gone);
    }
  }

  lemma {:induction false} NoneForgotten(s: seq<Address>, gone: seq<Address>)
    ensures WithoutKeys(s, gone) == s <==> forall a :: a in s ==> !KeyIn(a.key, gone)
    ensures |WithoutKeys(s, gone)| <= |s|
  {
    if s != [] {
      NoneForgotten(s[1..], gone);
      var rest := WithoutKeys(s[1..], gone);
      if KeyIn(s[0].key, gone) {
        assert s[0] in s && |WithoutKeys(s, gone)| == |rest| < |s|;
      } else {
        assert ([s[0]] + rest)[1..] == rest && ([s[0]] + s[1..])[1..] == s[1..];
        assert s == [s[0]] + s[1..];
        assert forall a :: a in s <==> a == s[0] || a in s[1..];
      }
    }
  }

  lemma {:induction false} WithoutKeysApart(a: seq<Address>, b: seq<Address>, gone: seq<Address>)
    ensures WithoutKeys(a + b, gone) == WithoutKeys(a, gone) + WithoutKeys(b, gone)
  {
    hide KeyIn;
    if a == [] {
      assert [] + b == b;
      assert [] + WithoutKeys(b, gone) == WithoutKeys(b, gone);
    } else {
      assert (a + b)[0] == a[0] && (a + b)[1..] == a[1..] + b;
      WithoutKeysApart(a[1..], b, gone);
      var first := if KeyIn(a[0].key, gone) then [] else [a[0]];
      assert first + (WithoutKeys(a[1..], gone) + WithoutKeys(b, gone))
          == (first + WithoutKeys(a[1..], gone)) + WithoutKeys(b, gone);
    }
  }

  /**
    * Rediscovery over the routers of a table keeps exactly those from the first that answers on, if and
    * only if none of these shares its key with one before.
    */
  lemma FetchKnownKeepsRest(t: Table, answers: nat -> Answer)
    ensures var rs := t.routers;
      var j := Unanswered(answers, 0, |rs|);
      var kept := FetchKnown(t, rs, [], answers).known;
      kept == Some(t.(routers := rs[j..])) <==> forall a :: a in rs[j..] ==> !KeyIn(a.key, rs[..j])
  {
    hide WithoutKeys, FetchKnown, Unanswered, KeyIn;
    var rs := t.routers;
    var j := Unanswered(answers, 0, |rs|);
    FetchKnownForgets(t, rs, [], answers);
    WithoutKeysApart(rs[..j], rs[j..], rs[..j]);
    assert rs == rs[..j] + rs[j..];
    forall a | a in rs[..j] ensures KeyIn(a.key, rs[..j]) {
      InItself(a, rs[..j]);
    }
    AllForgotten(rs[..j], rs[..j]);
    assert [] + WithoutKeys(rs[j..], rs[..j]) == WithoutKeys(rs[j..], rs[..j]);
    NoneForgotten(rs[j..], rs[..j]);
  }

  lemma InItself(a: Address, s: seq<Address>)
    requires a in s
    ensures KeyIn(a.key, s)
  {
    var i :| 0 <= i < |s| && s[i] == a;
    assert s[i].key == a.key;
  }

  // ---------------------------------------------------------------- a whole refresh

  /** The routers in the order in which a refresh asks them. */
  function Order(b: Balancer, seeds: seq<Address>): (r: seq<Address>)
  {
    if b.useSeedRouter then Unlisted(seeds, []) + b.table.routers
    else b.table.routers + Unlisted(seeds, b.table.routers)
  }

  lemma {:induction false} UnansweredApart(answers: nat -> Answer, from: nat, n: nat, m: nat)
    ensures var k := Unanswered(answers, from, n);
      Unanswered(answers, from, n + m) == if k < n then k else n + Unanswered(answers, from + n, m)
    decreases n
  {
    if n > 0 && answers(from).NoAnswer? {
      UnansweredApart(answers, from + 1, n - 1, m);
    }
  }

  function OutcomeOf(a: Answer): (r: Result<Table, Failure>)
  {
    match a
    case Answers(t) => Ok(t)
    case NoAnswer => Err(ServiceUnavailable)
    case Unauthorized => Err(NotAuthorized)
  }

  /** Asking `rs` after `before` had no answer. */
  lemma FetchStage(known: Option<Table>, before: seq<Address>, rs: seq<Address>, answers: nat -> Answer)
    requires Unanswered(answers, 0, |before|) == |before|
    ensures var f := Fetch(known, rs, 0, before, answers);
      var all := before + rs;
      var j := Unanswered(answers, 0, |all|);
      && (f.answer.NoAnswer? <==> j == |all|)
      && (j < |all| ==> f.answer == answers(j) && !answers(j).NoAnswer? && f.asked == all[..j + 1])
      && (j == |all| ==> f.asked == all)
  {
    hide Fetch, Unanswered;
    FetchAnswer(known, rs, 0, before, answers);
    UnansweredApart(answers, 0, |before|, |rs|);
    UnansweredStops(answers, |before|, |rs|);
    var k := Unanswered(answers, |before|, |rs|);
    assert rs[0..] == rs;
    assert k < |rs| ==> before + rs[0..k + 1] == (before + rs)[..|before| + k + 1];
  }

  /**
    * A refresh asks the routers in order up to the first that answers or refuses, and that answer is its
    * outcome; if there is none, the service is unavailable.
    */
  lemma RefreshOutcome(b: Balancer, seeds: seq<Address>, answers: nat -> Answer)
    ensures var r := Refresh(b, seeds, answers);
      var order := Order(b, seeds);
      var j := Unanswered(answers, 0, |order|);
      && (j == |order| ==> r.asked == order && r.outcome == Err(ServiceUnavailable))
      && (j < |order| ==> r.asked == order[..j + 1] && r.outcome == OutcomeOf(answers(j)))
  {
    var us := Unlisted(seeds, if b.useSeedRouter then [] else b.table.routers);
    if b.useSeedRouter {
      TwoStages(None, us, Some(b.table), b.table.routers, answers);
    } else {
      TwoStages(Some(b.table), b.table.routers, None, us, answers);
    }
    hide Fetch, WithoutKeys, Unlisted, Forget, Unanswered;
  }

  /** Asking one list, and then another if the first had no answer, is asking both in order. */
  lemma TwoStages(k1: Option<Table>, first: seq<Address>, k2: Option<Table>, second: seq<Address>,
                  answers: nat -> Answer)
    ensures var f := Fetch(k1, first, 0, [], answers);
      var g := if f.answer.NoAnswer? then Fetch(k2, second, 0, f.asked, answers) else f;
      var order := first + second;
      var j := Unanswered(answers, 0, |order|);
      && (j == |order| ==> g.asked == order && g.answer == NoAnswer)
      && (j < |order| ==> g.asked == order[..j + 1] && g.answer == answers(j) && !g.answer.NoAnswer?)
  {
    assert Unanswered(answers, 0, 0) == 0;
    hide Fetch, Unanswered;
    FetchStage(k1, [], first, answers);
    assert [] + first == first;
    UnansweredApart(answers, 0, |first|, |second|);
    var k := Unanswered(answers, 0, |first|);
    if k == |first| {
      FetchStage(k2, first, second, answers);
    } else {
      assert (first + second)[..k + 1] == first[..k + 1];
    }
  }

  lemma NobodyKnownAnswers(t: Table, asked: seq<Address>, answers: nat -> Answer)
    requires FetchKnown(t, t.routers, asked, answers).answer.NoAnswer?
    ensures FetchKnown(t, t.routers, asked, answers).known == Some(t.(routers := []))
  {
    hide Fetch, WithoutKeys, KeyIn, Unanswered;
    var rs := t.routers;
    FetchAnswer(Some(t), rs, 0, asked, answers);
    UnansweredStops(answers, |asked|, |rs|);
    FetchKnownForgets(t, rs, asked, answers);
    assert rs[..|rs|] == rs;
    forall a | a in rs ensures KeyIn(a.key, rs) {
      InItself(a, rs);
    }
    AllForgotten(rs, rs);
  }

  /** A refresh that finds nobody leaves a table without routers, stale for everything; the next goes to the seeds. */
  lemma FailedRefresh(b: Balancer, seeds: seq<Address>, answers: nat -> Answer)
    requires Refresh(b, seeds, answers).outcome == Err(ServiceUnavailable)
    ensures var n := Refresh(b, seeds, answers).b;
      && n == b.(table := b.table.(routers := []))
      && (forall mode, now :: IsStaleFor(n.table, mode, now))
      && forall seeds' :: Order(n, seeds') == Unlisted(seeds', [])
  {
    hide FetchSeeds, Unlisted, FetchKnown;
    if b.useSeedRouter {
      var f := FetchSeeds(seeds, [], [], answers);
      NobodyKnownAnswers(b.table, f.asked, answers);
    } else {
      NobodyKnownAnswers(b.table, [], answers);
    }
    assert forall s: seq<Address> {:trigger s + []} :: s + [] == s;
    assert forall s: seq<Address> {:trigger [] + s} :: [] + s == s;
  }

  /**
    * After a refresh that answers, the answer is the table, and the next one begins with the seeds if
    * nobody can write, or if this one did and had to fall back on a known router.
    */
  lemma AnsweredRefresh(b: Balancer, seeds: seq<Address>, answers: nat -> Answer)
    requires Refresh(b, seeds, answers).outcome.Ok?
    ensures var r := Refresh(b, seeds, answers);
      && r.b.table == r.outcome.value
      && (r.b.useSeedRouter <==>
            r.b.table.writers == [] || (b.useSeedRouter && |r.asked| > |Unlisted(seeds, [])|))
  {
    hide Fetch, WithoutKeys, Unlisted, Forget;
    if b.useSeedRouter {
      var us := Unlisted(seeds, []);
      FetchStage(None, [], us, answers);
      assert [] + us == us;
      if Unanswered(answers, 0, |us|) == |us| {
        FetchStage(Some(b.table), us, b.table.routers, answers);
        UnansweredApart(answers, 0, |us|, |b.table.routers|);
      }
    }
  }

  lemma {:induction false} UnansweredStops(answers: nat -> Answer, from: nat, n: nat)
    ensures var k := Unanswered(answers, from, n); k < n ==> !answers(from + k).NoAnswer?
    decreases n
  {
    if n > 0 && answers(from).NoAnswer? {
      UnansweredStops(answers, from + 1, n - 1);
    }
  }

  // ---------------------------------------------------------------- asking the same router twice

  /** The list a refresh begins with. */
  function Begins(b: Balancer, seeds: seq<Address>): (r: seq<Address>)
  {
    if b.useSeedRouter then seeds else b.table.routers
  }

  /** After the first list, one of its routers is asked again under the same key. */
  ghost predicate AsksAgain(first: seq<Address>, asked: seq<Address>)
  {
    exists i :: |first| <= i < |asked| && KeyIn(asked[i].key, first)
  }

  /** Every seed that names a known router by key is that very address. */
  ghost predicate SameAddresses(seeds: seq<Address>, rs: seq<Address>)
  {
    forall a :: a in seeds && KeyIn(a.key, rs) ==> a in rs
  }

  ghost predicate Apart(xs: seq<Address>, ys: seq<Address>) { forall a :: a in xs ==> !KeyIn(a.key, ys) }

  lemma {:induction false} UnlistedMeans(seeds: seq<Address>, rs: seq<Address>)
    ensures forall a :: a in Unlisted(seeds, rs) <==> a in seeds && a !in rs
    ensures rs == [] ==> Unlisted(seeds, rs) == seeds
  {
    if seeds != [] {
      UnlistedMeans(seeds[1..], rs);
      assert seeds == [seeds[0]] + seeds[1..];
      assert forall a :: a in seeds <==> a == seeds[0] || a in seeds[1..];
    }
  }

  /** The seeds asked after the known routers have keys of their own, if every seed with a known key is known itself. */
  lemma UnlistedApart(seeds: seq<Address>, rs: seq<Address>)
    ensures Apart(Unlisted(seeds, rs), rs) <==> SameAddresses(seeds, rs)
  {
    hide KeyIn;
    UnlistedMeans(seeds, rs);
    forall a | a in rs ensures KeyIn(a.key, rs) {
      InItself(a, rs);
    }
  }

  /**
    * Whatever the routers answer, a refresh that has asked the known routers asks none of them again under
    * the same key, if and only if every seed with the key of a known router is that very address. A refresh
    * that begins with the seeds does not compare: it asks none again if and only if no known router has the
    * key of a seed.
    */
  lemma NeverAsksAgain(b: Balancer, seeds: seq<Address>)
    ensures (forall answers :: !AsksAgain(Begins(b, seeds), Refresh(b, seeds, answers).asked))
      <==> if b.useSeedRouter then Apart(b.table.routers, seeds) else SameAddresses(seeds, b.table.routers)
  {
    hide Refresh, KeyIn, Unlisted;
    var first := Begins(b, seeds);
    var order := Order(b, seeds);
    UnlistedMeans(seeds, []);
    UnlistedApart(seeds, b.table.routers);
    var second := order[|first|..];
    assert order == first + second;
    if Apart(second, first) {
      forall answers ensures !AsksAgain(first, Refresh(b, seeds, answers).asked) {
        var asked := Refresh(b, seeds, answers).asked;
        RefreshOutcome(b, seeds, answers);
        assert forall i :: |first| <= i < |asked| ==> asked[i] == second[i - |first|];
      }
    } else {
      SilentAsksAgain(b, seeds, first, second);
    }
  }

  lemma SilentAsksAgain(b: Balancer, seeds: seq<Address>, first: seq<Address>, second: seq<Address>)
    requires Order(b, seeds) == first + second && !Apart(second, first)
    ensures AsksAgain(first, Refresh(b, seeds, _ => NoAnswer).asked)
  {
    hide Refresh, KeyIn, Order;
    var a :| a in second && KeyIn(a.key, first);
    var i :| 0 <= i < |second| && second[i] == a;
    var silent: nat -> Answer := _ => NoAnswer;
    RefreshOutcome(b, seeds, silent);
    UnansweredStops(silent, 0, |first + second|);
    assert (first + second)[|first| + i] == a;
  }

  /** A seed that resolves to the key of the router that has just failed, as a new address, is asked again. */
  lemma AskedAgain()
    ensures var b := Balancer(Table([Address("k", 0)], [], [], 0), false);
      var seeds := [Address("k", 1)];
      && Refresh(b, seeds, _ => NoAnswer).asked == [Address("k", 0), Address("k", 1)]
      && AsksAgain(Begins(b, seeds), Refresh(b, seeds, _ => NoAnswer).asked)
  {
    hide Refresh;
    var b := Balancer(Table([Address("k", 0)], [], [], 0), false);
    var seeds := [Address("k", 1)];
    var silent: nat -> Answer := _ => NoAnswer;
    RefreshOutcome(b, seeds, silent);
    UnansweredStops(silent, 0, 2);
    var order := [Address("k", 0), Address("k", 1)];
    assert Unlisted(seeds, b.table.routers) == seeds;
    assert Order(b, seeds) == order;
    assert Begins(b, seeds)[0].key == order[1].key;
    assert KeyIn(order[1].key, Begins(b, seeds));
  }
}
