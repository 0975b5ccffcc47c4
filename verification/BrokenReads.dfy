/**
 What the readers return on every finite DAG, broken or not. Each node's data,
 raw leaf or broken link is an event; the stream meets the events depth-first,
 the queue reader round by round and depth-first within a round, and both stop
 at the first broken link they meet.
 */
module BrokenReads {
  import opened Basics
  import opened Cids
  import opened Blocks
  import opened Dags
  import opened Readers
  import opened ReadingOrder

  /** Bytes, or the error of a missing or undecodable block, and the round of the queue reader. */
  datatype Event = Event(round: nat, outcome: Result<Bytes>)

  /** Depth-first; leaves and broken links come up with their parent, one round before a node of their depth. */
  function Events(dag: Dag, d: nat): seq<Event> {
    match dag
    case Raw(b) => [Event(d, Ok(b))]
    case Broken(e) => [Event(d, Err(e))]
    case Node(data, kids) => (if data.Some? then [Event(d + 1, Ok(data.value))] else []) + EventsAll(kids, d + 1)
  }

  function EventsAll(dags: seq<Dag>, d: nat): seq<Event> {
    if dags == [] then [] else Events(dags[0], d) + EventsAll(dags[1..], d)
  }

  /** Appending what the events bring, up to the first error. */
  function Play(es: seq<Event>, out: Bytes): Result<Bytes> {
    if es == [] then Ok(out)
    else match es[0].outcome
      case Err(e) => Err(e)
      case Ok(b) => Play(es[1..], out + b)
  }

  lemma {:induction false} PlayAppend(a: seq<Event>, b: seq<Event>, out: Bytes)
    ensures Play(a + b, out) == match Play(a, out) case Err(e) => Err(e) case Ok(o) => Play(b, o)
  {
    if a == [] {
      NilUnits(b);
    } else {
      assert (a + b)[1..] == a[1..] + b && (a + b)[0] == a[0];
      if a[0].outcome.Ok? {
        PlayAppend(a[1..], b, out + a[0].outcome.value);
      }
    }
  }

  /** The error of the first event that is one, or all bytes. */
  lemma {:induction false} PlayIs(es: seq<Event>, out: Bytes)
    ensures Play(es, out).Ok? <==> forall i :: 0 <= i < |es| ==> es[i].outcome.Ok?
    ensures forall i :: 0 <= i < |es| && es[i].outcome.Err? && (forall j :: 0 <= j < i ==> es[j].outcome.Ok?) ==>
              Play(es, out) == Err(es[i].outcome.error)
  {
    if es != [] && es[0].outcome.Ok? {
      PlayIs(es[1..], out + es[0].outcome.value);
      forall i | 0 < i < |es| ensures es[i] == es[1..][i - 1] {
      }
      forall i | 0 <= i < |es| && es[i].outcome.Err? && (forall j :: 0 <= j < i ==> es[j].outcome.Ok?)
        ensures Play(es, out) == Err(es[i].outcome.error)
      {
        assert es[1..][i - 1] == es[i];
        forall j | 0 <= j < i - 1 ensures es[1..][j].outcome.Ok? {
          assert es[1..][j] == es[j + 1];
        }
      }
    }
  }

  // ------------------------------------------------------------ depth-first

  lemma {:induction false} EventsAppend(a: seq<Dag>, b: seq<Dag>, d: nat)
    ensures EventsAll(a + b, d) == EventsAll(a, d) + EventsAll(b, d)
  {
    hide Events;
    if a == [] {
      NilUnits(b);
    } else {
      assert (a + b)[1..] == a[1..] + b;
      EventsAppend(a[1..], b, d);
    }
  }

  /** The outcomes, whatever the rounds. */
  function Outcomes(es: seq<Event>): seq<Result<Bytes>> {
    if es == [] then [] else [es[0].outcome] + Outcomes(es[1..])
  }

  lemma {:induction false} OutcomesAppend(a: seq<Event>, b: seq<Event>)
    ensures Outcomes(a + b) == Outcomes(a) + Outcomes(b)
  {
    if a == [] {
      NilUnits(b);
    } else {
      assert (a + b)[1..] == a[1..] + b;
      OutcomesAppend(a[1..], b);
    }
  }

  lemma {:induction false} OutcomesFixed(dags: seq<Dag>, d: nat, e: nat)
    ensures Outcomes(EventsAll(dags, d)) == Outcomes(EventsAll(dags, e))
    decreases dags, 1
  {
    hide Events;
    if dags != [] {
      OutcomesFixedOne(dags[0], d, e);
      OutcomesFixed(dags[1..], d, e);
      OutcomesAppend(Events(dags[0], d), EventsAll(dags[1..], d));
      OutcomesAppend(Events(dags[0], e), EventsAll(dags[1..], e));
    }
  }

  lemma {:induction false} OutcomesFixedOne(dag: Dag, d: nat, e: nat)
    ensures Outcomes(Events(dag, d)) == Outcomes(Events(dag, e))
    decreases dag, 0
  {
    if dag.Node? {
      OutcomesFixed(dag.kids, d + 1, e + 1);
      if dag.data.Some? {
        OutcomesAppend([Event(d + 1, Ok(dag.data.value))], EventsAll(dag.kids, d + 1));
        OutcomesAppend([Event(e + 1, Ok(dag.data.value))], EventsAll(dag.kids, e + 1));
      } else {
        NilUnits(EventsAll(dag.kids, d + 1));
        NilUnits(EventsAll(dag.kids, e + 1));
      }
    }
  }

  /** `next_chunk` returns exactly the next outcome, one at a time, and leaves the others pending. */
  ghost predicate TakesNext(pending: seq<Dag>) {
    var all := Outcomes(EventsAll(pending, 0));
    var (chunk, rest) := Next(pending);
    if all == [] then chunk == None && rest == []
    else chunk == Some(all[0]) && Outcomes(EventsAll(rest, 0)) == all[1..]
  }

  lemma {:induction false} NextTakesNext(pending: seq<Dag>)
    ensures TakesNext(pending)
    decreases SizeAll(pending)
  {
    hide Events, EventsAll, Outcomes, TakesNext;
    if pending == [] {
      NothingPending();
    } else {
      SizeUncons(pending);
      if pending[0].Node? && pending[0].data.None? {
        var released := pending[0].kids + pending[1..];
        SizeAllAppend(pending[0].kids, pending[1..]);
        NextTakesNext(released);
        NodeOpens(pending);
      } else {
        FirstTaken(pending);
      }
    }
  }

  lemma NothingPending()
    ensures TakesNext([])
  {
  }

  lemma PendingUncons(pending: seq<Dag>)
    requires pending != []
    ensures Outcomes(EventsAll(pending, 0)) == Outcomes(Events(pending[0], 0)) + Outcomes(EventsAll(pending[1..], 0))
  {
    hide Events, Outcomes;
    OutcomesAppend(Events(pending[0], 0), EventsAll(pending[1..], 0));
  }

  lemma OneOutcome(e: Event)
    ensures Outcomes([e]) == [e.outcome]
  {
    assert [e][1..] == [];
    assert Outcomes([]) == [];
  }

  lemma OpenedOutcomes(node: Inner, rest: seq<Dag>)
    ensures Outcomes(EventsAll(node.kids + rest, 0)) == Outcomes(EventsAll(node.kids, 1)) + Outcomes(EventsAll(rest, 0))
  {
    hide Events, EventsAll, Outcomes;
    EventsAppend(node.kids, rest, 0);
    OutcomesAppend(EventsAll(node.kids, 0), EventsAll(rest, 0));
    OutcomesFixed(node.kids, 0, 1);
  }

  /** A node without data only makes way for its children. */
  lemma NodeOpens(pending: seq<Dag>)
    requires pending != [] && pending[0].Node? && pending[0].data.None? && TakesNext(pending[0].kids + pending[1..])
    ensures TakesNext(pending)
  {
    hide EventsAll, Outcomes;
    PendingUncons(pending);
    OpenedOutcomes(pending[0], pending[1..]);
    NilUnits(EventsAll(pending[0].kids, 1));
    assert Next(pending) == Next(pending[0].kids + pending[1..]);
  }

  lemma FirstTaken(pending: seq<Dag>)
    requires pending != [] && !(pending[0].Node? && pending[0].data.None?)
    ensures TakesNext(pending)
  {
    hide EventsAll, Outcomes;
    PendingUncons(pending);
    var first, rest := pending[0], pending[1..];
    match first
    case Raw(b) => OneOutcome(Event(0, Ok(b)));
    case Broken(e) => OneOutcome(Event(0, Err(e)));
    case Node(data, kids) =>
      OpenedOutcomes(first, rest);
      var event := Event(1, Ok(data.value));
      OneOutcome(event);
      OutcomesAppend([event], EventsAll(kids, 1));
      Assoc([event.outcome], Outcomes(EventsAll(kids, 1)), Outcomes(EventsAll(rest, 0)));
  }

  /** Appending outcomes up to the first error. */
  function Collect(os: seq<Result<Bytes>>): Result<Bytes> {
    if os == [] then Ok([])
    else match os[0]
      case Err(e) => Err(e)
      case Ok(b) => Onto(b, Collect(os[1..]))
  }

  lemma {:induction false} DrainCollects(pending: seq<Dag>)
    ensures Drain(pending) == Collect(Outcomes(EventsAll(pending, 0)))
    decreases SizeAll(pending)
  {
    hide Outcomes, EventsAll, Next;
    NextTakesNext(pending);
    NextShrinks(pending);
    var (chunk, rest) := Next(pending);
    if chunk.Some? {
      DrainCollects(rest);
    }
  }

  lemma {:induction false} CollectIsPlay(es: seq<Event>, out: Bytes)
    ensures Onto(out, Collect(Outcomes(es))) == Play(es, out)
  {
    if es == [] {
      NilUnits(out);
    } else {
      assert Outcomes(es)[1..] == Outcomes(es[1..]);
      if es[0].outcome.Ok? {
        var b := es[0].outcome.value;
        CollectIsPlay(es[1..], out + b);
        OntoStep(out, b, Collect(Outcomes(es[1..])));
      }
    }
  }

  /** The stream stops at the depth-first first broken link, or returns everything. */
  lemma DrainPlays(pending: seq<Dag>)
    ensures Drain(pending) == Play(EventsAll(pending, 0), [])
  {
    hide Outcomes, EventsAll, Collect, Drain, Play;
    DrainCollects(pending);
    CollectIsPlay(EventsAll(pending, 0), []);
    var r := Collect(Outcomes(EventsAll(pending, 0)));
    if r.Ok? {
      NilUnits(r.value);
    }
  }

  // ---------------------------------------------------------- breadth-first

  /** The events of one round, in depth-first order. */
  function InRound(es: seq<Event>, r: nat): seq<Event> {
    if es == [] then [] else (if es[0].round == r then [es[0]] else []) + InRound(es[1..], r)
  }

  /** The events of `n` rounds from `from` on. */
  function ByRound(es: seq<Event>, from: nat, n: nat): seq<Event>
    decreases n
  {
    if n == 0 then [] else InRound(es, from) + ByRound(es, from + 1, n - 1)
  }

  lemma InRoundUncons(es: seq<Event>, r: nat)
    requires es != []
    ensures InRound(es, r) == (if es[0].round == r then [es[0]] else []) + InRound(es[1..], r)
  {
  }

  lemma {:induction false} InRoundAppend(a: seq<Event>, b: seq<Event>, r: nat)
    ensures InRound(a + b, r) == InRound(a, r) + InRound(b, r)
  {
    hide InRound;
    if a == [] {
      NilUnits(b);
      NothingInRound(r);
      NilUnits(InRound(b, r));
    } else {
      assert (a + b)[1..] == a[1..] + b && (a + b)[0] == a[0];
      InRoundUncons(a, r);
      InRoundUncons(a + b, r);
      InRoundAppend(a[1..], b, r);
      Assoc(if a[0].round == r then [a[0]] else [], InRound(a[1..], r), InRound(b, r));
    }
  }

  /** Events of the leaves and broken links among the children. */
  function LeafEvents(kids: seq<Dag>, d: nat): seq<Event> {
    if kids == [] then []
    else (if kids[0].Node? then [] else Events(kids[0], d)) + LeafEvents(kids[1..], d)
  }

  function OwnEvents(node: Inner, d: nat): seq<Event> {
    (if node.data.Some? then [Event(d + 1, Ok(node.data.value))] else []) + LeafEvents(node.kids, d + 1)
  }

  function OwnEventsAll(nodes: seq<Inner>, d: nat): seq<Event> {
    if nodes == [] then [] else OwnEvents(nodes[0], d) + OwnEventsAll(nodes[1..], d)
  }

  /** The rest of a reading, after some events. */
  function Then(r: Result<Bytes>, queue: seq<Inner>): Result<Bytes> {
    match r
    case Err(e) => Err(e)
    case Ok(out) => BfsRun(queue, out)
  }

  lemma {:induction false} VisitPlays(kids: seq<Dag>, queue: seq<Inner>, out: Bytes, d: nat)
    ensures Visit(kids, queue, out) == Then(Play(LeafEvents(kids, d), out), queue + InnerOf(kids))
  {
    hide BfsRun, InnerOf;
    KidsUnfold(kids);
    if kids == [] {
      NilUnits(queue);
    } else {
      match kids[0]
      case Raw(b) =>
        VisitPlays(kids[1..], queue, out + b, d);
        assert LeafEvents(kids, d)[1..] == LeafEvents(kids[1..], d);
      case Broken(e) =>
      case Node(_, _) =>
        VisitPlays(kids[1..], queue + [kids[0]], out, d);
        Assoc(queue, [kids[0]], InnerOf(kids[1..]));
        assert LeafEvents(kids, d) == LeafEvents(kids[1..], d);
    }
  }

  lemma NodePlays(queue: seq<Inner>, out: Bytes, d: nat)
    requires queue != []
    ensures BfsRun(queue, out) == Then(Play(OwnEvents(queue[0], d), out), queue[1..] + InnerOf(queue[0].kids))
  {
    hide BfsRun, Visit, InnerOf, LeafEvents;
    BfsStep(queue, out);
    var node := queue[0];
    if node.data.Some? {
      var own := [Event(d + 1, Ok(node.data.value))];
      PlayAppend(own, LeafEvents(node.kids, d + 1), out);
      assert own[1..] == [];
      assert Play(own, out) == Ok(out + node.data.value);
    } else {
      NilUnits(out);
      NilUnits(LeafEvents(node.kids, d + 1));
    }
    VisitPlays(node.kids, queue[1..], out + if node.data.Some? then node.data.value else [], d + 1);
  }

  /** Working off `a`: its own events, then what is left with the inner children at the end. */
  lemma {:induction false} LevelPlays(a: seq<Inner>, b: seq<Inner>, out: Bytes, d: nat)
    ensures BfsRun(a + b, out) == Then(Play(OwnEventsAll(a, d), out), b + Below(a))
    decreases |a|
  {
    hide BfsRun, InnerOf, OwnEvents, Play, Below;
    LevelUnfold(a);
    if a == [] {
      NilUnits(b);
      NothingPlayed(out);
    } else {
      var node, tail, inner := a[0], a[1..], InnerOf(a[0].kids);
      assert (a + b)[1..] == tail + b && (a + b)[0] == node;
      NodePlays(a + b, out, d);
      PlayAppend(OwnEvents(node, d), OwnEventsAll(tail, d), out);
      var own := Play(OwnEvents(node, d), out);
      if own.Ok? {
        Assoc(tail, b, inner);
        LevelPlays(tail, b + inner, own.value, d);
        Assoc(b, inner, Below(tail));
      }
    }
  }

  lemma NothingPlayed(out: Bytes)
    ensures Play([], out) == Ok(out)
  {
  }

  // ----- which events belong to which round

  lemma {:induction false} NoneEarlier(dag: Dag, d: nat, r: nat)
    requires r < d || (r == d && dag.Node?)
    ensures InRound(Events(dag, d), r) == []
    decreases dag, 0
  {
    if dag.Node? {
      NoneEarlierAll(dag.kids, d + 1, r);
      var own := if dag.data.Some? then [Event(d + 1, Ok(dag.data.value))] else [];
      InRoundAppend(own, EventsAll(dag.kids, d + 1), r);
    }
  }

  lemma {:induction false} NoneEarlierAll(dags: seq<Dag>, d: nat, r: nat)
    requires r < d
    ensures InRound(EventsAll(dags, d), r) == []
    decreases dags, 1
  {
    hide Events;
    if dags != [] {
      NoneEarlier(dags[0], d, r);
      NoneEarlierAll(dags[1..], d, r);
      InRoundAppend(Events(dags[0], d), EventsAll(dags[1..], d), r);
    }
  }

  lemma OneInRound(e: Event, r: nat)
    ensures InRound([e], r) == if e.round == r then [e] else []
  {
    assert [e][1..] == [];
    assert InRound([], r) == [];
  }

  lemma {:induction false} KidsInRound(kids: seq<Dag>, d: nat, r: nat)
    requires d <= r
    ensures InRound(EventsAll(kids, d), r)
         == if r == d then LeafEvents(kids, d) else InRound(EventsAll(InnerOf(kids), d), r)
  {
    hide InRound;
    if kids == [] {
      NothingInRound(r);
    } else {
      KidsInRound(kids[1..], d, r);
      InRoundAppend(Events(kids[0], d), EventsAll(kids[1..], d), r);
      if kids[0].Node? {
        var inner := [kids[0]] + InnerOf(kids[1..]);
        assert inner[1..] == InnerOf(kids[1..]);
        InRoundAppend(Events(kids[0], d), EventsAll(inner[1..], d), r);
        if r == d {
          NoneEarlier(kids[0], d, r);
        }
      } else {
        OneInRound(Events(kids[0], d)[0], r);
        assert Events(kids[0], d) == [Events(kids[0], d)[0]];
        assert InnerOf(kids) == InnerOf(kids[1..]);
      }
    }
  }

  lemma NothingInRound(r: nat)
    ensures InRound([], r) == []
  {
  }

  lemma NodeInRound(node: Inner, d: nat, r: nat)
    requires d < r
    ensures InRound(Events(node, d), r)
         == if r == d + 1 then OwnEvents(node, d) else InRound(EventsAll(InnerOf(node.kids), d + 1), r)
  {
    hide EventsAll, LeafEvents, InnerOf, InRound;
    KidsInRound(node.kids, d + 1, r);
    if node.data.Some? {
      var own := Event(d + 1, Ok(node.data.value));
      InRoundAppend([own], EventsAll(node.kids, d + 1), r);
      OneInRound(own, r);
    } else {
      NilUnits(EventsAll(node.kids, d + 1));
      NilUnits(LeafEvents(node.kids, d + 1));
    }
  }

  lemma {:induction false} LevelInRound(nodes: seq<Inner>, d: nat, r: nat)
    requires d < r
    ensures InRound(EventsAll(nodes, d), r)
         == if r == d + 1 then OwnEventsAll(nodes, d) else InRound(EventsAll(Below(nodes), d + 1), r)
  {
    hide Events, OwnEvents, InnerOf, InRound;
    if nodes == [] {
      NothingInRound(r);
    } else {
      NodeInRound(nodes[0], d, r);
      LevelInRound(nodes[1..], d, r);
      InRoundAppend(Events(nodes[0], d), EventsAll(nodes[1..], d), r);
      EventsAppend(InnerOf(nodes[0].kids), Below(nodes[1..]), d + 1);
      InRoundAppend(EventsAll(InnerOf(nodes[0].kids), d + 1), EventsAll(Below(nodes[1..]), d + 1), r);
    }
  }

  lemma ByRoundStep(es: seq<Event>, from: nat, n: nat)
    ensures ByRound(es, from, 0) == []
    ensures n > 0 ==> ByRound(es, from, n) == InRound(es, from) + ByRound(es, from + 1, n - 1)
  {
    hide InRound;
  }

  lemma {:induction false} RoundsBelow(nodes: seq<Inner>, d: nat, from: nat, n: nat)
    requires d + 2 <= from
    ensures ByRound(EventsAll(nodes, d), from, n) == ByRound(EventsAll(Below(nodes), d + 1), from, n)
    decreases n
  {
    hide EventsAll, Below, InRound, ByRound;
    ByRoundStep(EventsAll(nodes, d), from, n);
    ByRoundStep(EventsAll(Below(nodes), d + 1), from, n);
    if n > 0 {
      LevelInRound(nodes, d, from);
      RoundsBelow(nodes, d, from + 1, n - 1);
    }
  }

  lemma {:induction false} NoRounds(from: nat, n: nat)
    ensures ByRound([], from, n) == []
    decreases n
  {
    if n > 0 {
      NoRounds(from + 1, n - 1);
    }
  }

  lemma {:induction false} BelowSmaller(nodes: seq<Inner>)
    ensures SizeAll(Below(nodes)) + |nodes| <= SizeAll(nodes)
  {
    hide InnerOf, SizeAll, Size;
    NoSize();
    LevelUnfold(nodes);
    if nodes != [] {
      BelowSmaller(nodes[1..]);
      InnerSmaller(nodes[0].kids);
      SizeUncons(nodes);
      SizeAllAppend(InnerOf(nodes[0].kids), Below(nodes[1..]));
    }
  }

  lemma {:induction false} InnerSmaller(kids: seq<Dag>)
    ensures SizeAll(InnerOf(kids)) <= SizeAll(kids)
  {
    hide Size;
    if kids != [] {
      InnerSmaller(kids[1..]);
      NilUnits(InnerOf(kids[1..]));
      assert kids[0].Node? ==> ([kids[0]] + InnerOf(kids[1..]))[1..] == InnerOf(kids[1..]);
    }
  }

  lemma {:induction false} BfsPlays(nodes: seq<Inner>, d: nat, n: nat, out: Bytes)
    requires n >= SizeAll(nodes)
    ensures BfsRun(nodes, out) == Play(ByRound(EventsAll(nodes, d), d + 1, n), out)
    decreases n
  {
    hide BfsRun, Play, ByRound, InRound, EventsAll, OwnEventsAll, Below, SizeAll;
    if nodes == [] {
      BfsEnd(out);
      assert EventsAll(nodes, d) == [] by { NoEvents(d); }
      NoRounds(d + 1, n);
      NothingPlayed(out);
    } else {
      var down := Below(nodes);
      BelowSmaller(nodes);
      LevelPlays(nodes, [], out, d);
      NilUnits<Inner>(nodes);
      NilUnits<Inner>(down);
      LevelInRound(nodes, d, d + 1);
      RoundsBelow(nodes, d, d + 2, n - 1);
      ByRoundStep(EventsAll(nodes, d), d + 1, n);
      PlayAppend(OwnEventsAll(nodes, d), ByRound(EventsAll(down, d + 1), d + 2, n - 1), out);
      var own := Play(OwnEventsAll(nodes, d), out);
      if own.Ok? {
        BfsPlays(down, d + 1, n - 1, own.value);
      }
    }
  }

  lemma NoEvents(d: nat)
    ensures EventsAll([], d) == []
  {
  }

  /** The queue reader stops at the first broken link in the order of rounds, or returns everything. */
  lemma ReadPlays(dag: Dag)
    ensures ReadOf(dag) == Play(ByRound(Events(dag, 0), 0, Size(dag) + 1), [])
  {
    hide BfsRun, ByRound, InRound, EventsAll, Size, SizeAll, Play;
    OneEvents(dag);
    if dag.Node? {
      OneInQueue(dag);
      BfsPlays([dag], 0, Size(dag), []);
      NoneEarlier(dag, 0, 0);
      ByRoundStep(Events(dag, 0), 0, Size(dag) + 1);
      NilUnits(ByRound(Events(dag, 0), 1, Size(dag)));
    } else {
      LeafRounds(Events(dag, 0)[0], Size(dag));
      LeafPlays(dag);
    }
  }

  lemma OneEvents(dag: Dag)
    ensures EventsAll([dag], 0) == Events(dag, 0)
  {
    hide Events;
    assert [dag][1..] == [];
    NilUnits(Events(dag, 0));
  }

  lemma LeafRounds(e: Event, n: nat)
    requires e.round == 0
    ensures ByRound([e], 0, n + 1) == [e]
  {
    hide InRound;
    OneInRound(e, 0);
    LaterRounds(e, 1, n);
  }

  lemma {:induction false} LaterRounds(e: Event, from: nat, n: nat)
    requires e.round < from
    ensures ByRound([e], from, n) == []
    decreases n
  {
    hide InRound;
    if n > 0 {
      OneInRound(e, from);
      LaterRounds(e, from + 1, n - 1);
    }
  }

  lemma LeafPlays(dag: Dag)
    requires !dag.Node?
    ensures ReadOf(dag) == Play([Events(dag, 0)[0]], []) && Events(dag, 0) == [Events(dag, 0)[0]]
  {
    assert Events(dag, 0)[1..] == [];
    if dag.Raw? {
      NilUnits(dag.bytes);
    }
  }

  // --------------------------------------------------------- when all is well

  lemma {:induction false} EventsIntact(dag: Dag, d: nat)
    ensures Intact(dag) <==> AllOk(Events(dag, d))
    decreases dag, 0
  {
    if dag.Node? {
      EventsAllIntact(dag.kids, d + 1);
      var own, rest := if dag.data.Some? then [Event(d + 1, Ok(dag.data.value))] else [], EventsAll(dag.kids, d + 1);
      assert Events(dag, d) == own + rest;
      AllOkAppend(own, rest);
    } else {
      assert Events(dag, d)[0].outcome.Ok? <==> dag.Raw?;
    }
  }

  predicate AllOk(es: seq<Event>) {
    forall i :: 0 <= i < |es| ==> es[i].outcome.Ok?
  }

  lemma AllOkAppend(a: seq<Event>, b: seq<Event>)
    ensures AllOk(a + b) <==> AllOk(a) && AllOk(b)
  {
    if AllOk(a + b) {
      forall i | 0 <= i < |a| ensures a[i].outcome.Ok? {
        assert (a + b)[i] == a[i];
      }
      forall i | 0 <= i < |b| ensures b[i].outcome.Ok? {
        assert (a + b)[|a| + i] == b[i];
      }
    }
  }

  lemma {:induction false} EventsAllIntact(dags: seq<Dag>, d: nat)
    ensures AllIntact(dags) <==> AllOk(EventsAll(dags, d))
    decreases dags, 1
  {
    hide Events, Intact;
    if dags != [] {
      EventsIntact(dags[0], d);
      EventsAllIntact(dags[1..], d);
      AllOkAppend(Events(dags[0], d), EventsAll(dags[1..], d));
      assert AllIntact(dags) <==> Intact(dags[0]) && AllIntact(dags[1..]) by {
        if Intact(dags[0]) && AllIntact(dags[1..]) {
          forall i | 0 <= i < |dags| ensures Intact(dags[i]) {
            assert i > 0 ==> dags[i] == dags[1..][i - 1];
          }
        }
      }
    }
  }

  lemma {:induction false} RoundsPermute(es: seq<Event>, n: nat)
    requires forall e :: e in es ==> e.round < n
    ensures multiset(ByRound(es, 0, n)) == multiset(es)
    decreases |es|
  {
    if es == [] {
      NoRounds(0, n);
    } else {
      RoundsPermute(es[1..], n);
      AddToRounds(es, 0, n);
      assert es == [es[0]] + es[1..];
    }
  }

  lemma {:induction false} AddToRounds(es: seq<Event>, from: nat, n: nat)
    requires es != []
    ensures multiset(ByRound(es, from, n))
         == multiset(ByRound(es[1..], from, n)) + if from <= es[0].round < from + n then multiset{es[0]} else multiset{}
    decreases n
  {
    hide InRound, ByRound;
    ByRoundStep(es, from, n);
    ByRoundStep(es[1..], from, n);
    if n > 0 {
      AddToRounds(es, from + 1, n - 1);
      InRoundUncons(es, from);
      NilUnits(InRound(es[1..], from));
    }
  }

  lemma {:induction false} EventRounds(dag: Dag, d: nat)
    ensures forall e :: e in Events(dag, d) ==> d <= e.round <= d + Size(dag)
    decreases dag, 0
  {
    if dag.Node? {
      EventRoundsAll(dag.kids, d + 1);
    }
  }

  lemma {:induction false} EventRoundsAll(dags: seq<Dag>, d: nat)
    ensures forall e :: e in EventsAll(dags, d) ==> d <= e.round <= d + SizeAll(dags)
    decreases dags, 1
  {
    hide Events, Size;
    if dags != [] {
      EventRounds(dags[0], d);
      EventRoundsAll(dags[1..], d);
      forall e | e in EventsAll(dags, d) ensures d <= e.round <= d + SizeAll(dags) {
        assert e in Events(dags[0], d) || e in EventsAll(dags[1..], d);
      }
    }
  }

  lemma SameOk(es: seq<Event>, fs: seq<Event>)
    requires multiset(es) == multiset(fs)
    ensures AllOk(es) <==> AllOk(fs)
  {
    if AllOk(es) {
      forall i | 0 <= i < |fs| ensures fs[i].outcome.Ok? {
        assert fs[i] in multiset(fs);
        assert fs[i] in es;
      }
    }
    if AllOk(fs) {
      forall i | 0 <= i < |es| ensures es[i].outcome.Ok? {
        assert es[i] in multiset(es);
        assert es[i] in fs;
      }
    }
  }

  /** Each reader succeeds exactly on what has no missing or undecodable block. */
  lemma ReadsIffIntact(dag: Dag, pending: seq<Dag>)
    ensures ReadOf(dag).Ok? <==> Intact(dag)
    ensures Drain(pending).Ok? <==> AllIntact(pending)
  {
    hide Events, EventsAll, ByRound, Play, ReadOf, Drain, Intact, AllIntact, Size;
    var es := Events(dag, 0);
    ReadPlays(dag);
    EventRounds(dag, 0);
    RoundsPermute(es, Size(dag) + 1);
    SameOk(es, ByRound(es, 0, Size(dag) + 1));
    PlayIs(ByRound(es, 0, Size(dag) + 1), []);
    EventsIntact(dag, 0);
    DrainPlays(pending);
    PlayIs(EventsAll(pending, 0), []);
    EventsAllIntact(pending, 0);
  }

  /**
   Which error comes back. For the queue reader, that of a broken link before
   which, in the order of rounds and depth-first within one, there is none; for
   the stream, the same in depth-first order.
   */
  lemma FirstErrorReturned(dag: Dag, es: seq<Event>, i: nat)
    requires es == Events(dag, 0) && i < |es| && es[i].outcome.Err?
    ensures (forall j :: 0 <= j < i ==> es[j].outcome.Ok?) ==> Drain([dag]) == Err(es[i].outcome.error)
    ensures (forall j :: 0 <= j < |es| && (es[j].round < es[i].round || (es[j].round == es[i].round && j < i)) ==>
               es[j].outcome.Ok?)
            ==> ReadOf(dag) == Err(es[i].outcome.error)
  {
    hide Events, EventsAll, ByRound, Play, ReadOf, Drain, Size, InRound;
    OneEvents(dag);
    DrainPlays([dag]);
    PlayIs(es, []);
    if forall j :: 0 <= j < |es| && (es[j].round < es[i].round || (es[j].round == es[i].round && j < i)) ==> es[j].outcome.Ok? {
      ReadPlays(dag);
      EventRounds(dag, 0);
      assert es[i] in es;
      FirstInRounds(es, i, 0, Size(dag) + 1, []);
    }
  }

  /** Playing the rounds meets that event first. */
  lemma {:induction false} FirstInRounds(es: seq<Event>, i: nat, from: nat, n: nat, out: Bytes)
    requires i < |es| && es[i].outcome.Err? && from <= es[i].round < from + n
    requires forall j :: 0 <= j < |es| && (es[j].round < es[i].round || (es[j].round == es[i].round && j < i)) ==>
               es[j].outcome.Ok?
    ensures Play(ByRound(es, from, n), out) == Err(es[i].outcome.error)
    decreases n
  {
    hide ByRound, InRound, Play;
    ByRoundStep(es, from, n);
    PlayAppend(InRound(es, from), ByRound(es, from + 1, n - 1), out);
    if from == es[i].round {
      FirstInRound(es, i, out);
    } else {
      RoundIsOk(es, from);
      PlayIs(InRound(es, from), out);
      FirstInRounds(es, i, from + 1, n - 1, Play(InRound(es, from), out).value);
    }
  }

  lemma {:induction false} FirstInRound(es: seq<Event>, i: nat, out: Bytes)
    requires i < |es| && es[i].outcome.Err?
    requires forall j :: 0 <= j < i && es[j].round == es[i].round ==> es[j].outcome.Ok?
    ensures Play(InRound(es, es[i].round), out) == Err(es[i].outcome.error)
    decreases |es|
  {
    if i > 0 {
      var rest := es[1..];
      assert rest[i - 1] == es[i];
      forall j | 0 <= j < i - 1 && rest[j].round == es[i].round ensures rest[j].outcome.Ok? {
        assert rest[j] == es[j + 1];
      }
      if es[0].round == es[i].round {
        FirstInRound(rest, i - 1, out + es[0].outcome.value);
        assert InRound(es, es[i].round)[1..] == InRound(rest, es[i].round);
      } else {
        FirstInRound(rest, i - 1, out);
        NilUnits(InRound(rest, es[i].round));
      }
    }
  }

  lemma {:induction false} RoundIsOk(es: seq<Event>, r: nat)
    requires forall j :: 0 <= j < |es| && es[j].round == r ==> es[j].outcome.Ok?
    ensures AllOk(InRound(es, r))
  {
    if es != [] {
      RoundIsOk(es[1..], r);
    }
  }

  // --------------------------------------------------- a file with a leaf missing

  /** Two leaves of which the second is gone: both readers report it, and the stream the first leaf before that. */
  lemma SecondLeafMissing(a: Bytes, e: Error)
    ensures var dag := Node(None, [Raw(a), Broken(e)]);
            ReadOf(dag) == Err(e) && Drain([dag]) == Err(e)
            && Next([dag]) == (Some(Ok(a)), [Broken(e)]) && Next([Broken(e)]) == (Some(Err(e)), [])
  {
    var dag := Node(None, [Raw(a), Broken(e)]);
    assert [Raw(a), Broken(e)][1..] == [Broken(e)] && [Broken(e)][1..] == [] && [dag][1..] == [];
    assert EventsAll([Broken(e)], 1) == [Event(1, Err(e))] + EventsAll([], 1);
    assert EventsAll([Raw(a), Broken(e)], 1) == [Event(1, Ok(a))] + EventsAll([Broken(e)], 1);
    var es := [Event(1, Ok(a)), Event(1, Err(e))];
    assert Events(dag, 0) == es;
    FirstErrorReturned(dag, es, 1);
    assert dag.kids + [] == dag.kids;
  }
}
