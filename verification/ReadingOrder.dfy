/**
 The order in which the two readers return the contents of an intact DAG, of
 any shape: depth-first as they lie, breadth-first grouped by depth. The two
 orders are the same exactly when depths never decrease.
 */
module ReadingOrder {
  import opened Basics
  import opened Dags
  import opened Readers

  /** Bytes one node or leaf contributes, and the round of the queue reader that puts them out. */
  datatype Piece = Piece(round: nat, bytes: Bytes)

  /** The contents of a DAG at depth `d`, depth-first: a leaf comes out with its parent, one round before a node of its depth. */
  function Pieces(dag: Dag, d: nat): seq<Piece> {
    match dag
    case Raw(b) => [Piece(d, b)]
    case Node(data, kids) => (if data.Some? then [Piece(d + 1, data.value)] else []) + PiecesAll(kids, d + 1)
    case Broken(_) => []
  }

  function PiecesAll(dags: seq<Dag>, d: nat): seq<Piece> {
    if dags == [] then [] else Pieces(dags[0], d) + PiecesAll(dags[1..], d)
  }

  function Spell(ps: seq<Piece>): Bytes {
    if ps == [] then [] else ps[0].bytes + Spell(ps[1..])
  }

  /** What comes out in round `r`. */
  function Select(ps: seq<Piece>, r: nat): Bytes {
    if ps == [] then [] else (if ps[0].round == r then ps[0].bytes else []) + Select(ps[1..], r)
  }

  /** What comes out in `n` rounds from `from` on. */
  function Grouped(ps: seq<Piece>, from: nat, n: nat): Bytes
    decreases n
  {
    if n == 0 then [] else Select(ps, from) + Grouped(ps, from + 1, n - 1)
  }

  lemma GroupedStep(ps: seq<Piece>, from: nat, n: nat)
    requires n > 0
    ensures Grouped(ps, from, n) == Select(ps, from) + Grouped(ps, from + 1, n - 1)
  {
    hide Select;
  }

  lemma {:induction false} SpellAppend(a: seq<Piece>, b: seq<Piece>)
    ensures Spell(a + b) == Spell(a) + Spell(b)
  {
    if a == [] {
      assert a + b == b;
    } else {
      assert (a + b)[1..] == a[1..] + b;
      SpellAppend(a[1..], b);
    }
  }

  lemma {:induction false} SelectAppend(a: seq<Piece>, b: seq<Piece>, r: nat)
    ensures Select(a + b, r) == Select(a, r) + Select(b, r)
  {
    if a == [] {
      assert a + b == b;
    } else {
      assert (a + b)[1..] == a[1..] + b;
      SelectAppend(a[1..], b, r);
    }
  }

  /** The pieces spell the bytes of the DAG. */
  lemma {:induction false} PiecesSpell(dag: Dag, d: nat)
    ensures Spell(Pieces(dag, d)) == Flatten(dag)
    decreases dag, 0
  {
    match dag
    case Raw(b) => assert Spell([Piece(d, b)]) == b + Spell([]);
    case Node(data, kids) =>
      var own := if data.Some? then [Piece(d + 1, data.value)] else [];
      PiecesAllSpell(kids, d + 1);
      SpellAppend(own, PiecesAll(kids, d + 1));
      if data.Some? {
        assert Spell(own) == data.value + Spell([]);
      }
    case Broken(_) =>
  }

  lemma {:induction false} PiecesAllSpell(dags: seq<Dag>, d: nat)
    ensures Spell(PiecesAll(dags, d)) == FlattenAll(dags)
    decreases dags, 1
  {
    hide Pieces, Flatten;
    if dags != [] {
      PiecesSpell(dags[0], d);
      PiecesAllSpell(dags[1..], d);
      SpellAppend(Pieces(dags[0], d), PiecesAll(dags[1..], d));
    }
  }

  // -------------------------------------------------- breadth-first by rounds

  function RawOf(kids: seq<Dag>): Bytes {
    if kids == [] then [] else (if kids[0].Raw? then kids[0].bytes else []) + RawOf(kids[1..])
  }

  function InnerOf(kids: seq<Dag>): seq<Inner> {
    if kids == [] then [] else (if kids[0].Node? then [kids[0]] else []) + InnerOf(kids[1..])
  }

  /** A node's data and its raw children. */
  function Own(node: Inner): Bytes {
    (if node.data.Some? then node.data.value else []) + RawOf(node.kids)
  }

  function OwnAll(nodes: seq<Inner>): Bytes {
    if nodes == [] then [] else Own(nodes[0]) + OwnAll(nodes[1..])
  }

  function Below(nodes: seq<Inner>): seq<Inner> {
    if nodes == [] then [] else InnerOf(nodes[0].kids) + Below(nodes[1..])
  }

  lemma {:induction false} InnerFacts(kids: seq<Dag>)
    requires AllIntact(kids)
    ensures AllIntact(InnerOf(kids)) && SizeAll(InnerOf(kids)) <= SizeAll(kids)
  {
    hide Intact, Size;
    if kids != [] {
      assert AllIntact(kids[1..]);
      InnerFacts(kids[1..]);
      if kids[0].Node? {
        IntactSplit([kids[0]], InnerOf(kids[1..]));
        assert ([kids[0]] + InnerOf(kids[1..]))[1..] == InnerOf(kids[1..]);
      } else {
        assert InnerOf(kids) == InnerOf(kids[1..]);
      }
    }
  }

  lemma {:induction false} BelowFacts(nodes: seq<Inner>)
    requires AllIntact(nodes)
    ensures AllIntact(Below(nodes)) && SizeAll(Below(nodes)) + |nodes| <= SizeAll(nodes)
  {
    hide InnerOf, SizeAll, Size;
    NoSize();
    if nodes != [] {
      assert AllIntact(nodes[1..]);
      BelowFacts(nodes[1..]);
      assert Intact(nodes[0]);
      InnerFacts(nodes[0].kids);
      SizeUncons(nodes);
      SizeAllAppend(InnerOf(nodes[0].kids), Below(nodes[1..]));
      IntactSplit(InnerOf(nodes[0].kids), Below(nodes[1..]));
    }
  }

  lemma {:induction false} VisitIntact(kids: seq<Dag>, queue: seq<Inner>, out: Bytes)
    requires AllIntact(kids)
    ensures Visit(kids, queue, out) == BfsRun(queue + InnerOf(kids), out + RawOf(kids))
  {
    hide BfsRun, Visit, RawOf, InnerOf;
    KidsUnfold(kids);
    VisitUnfold(kids, queue, out);
    if kids == [] {
      NilUnits(queue);
      NilUnits(out);
    } else {
      assert Intact(kids[0]) && AllIntact(kids[1..]);
      if kids[0].Raw? {
        VisitIntact(kids[1..], queue, out + kids[0].bytes);
        Assoc(out, kids[0].bytes, RawOf(kids[1..]));
      } else {
        VisitIntact(kids[1..], queue + [kids[0]], out);
        Assoc(queue, [kids[0]], InnerOf(kids[1..]));
      }
    }
  }

  lemma KidsUnfold(kids: seq<Dag>)
    ensures kids == [] ==> RawOf(kids) == [] && InnerOf(kids) == []
    ensures kids != [] && kids[0].Raw? ==>
              RawOf(kids) == kids[0].bytes + RawOf(kids[1..]) && InnerOf(kids) == InnerOf(kids[1..])
    ensures kids != [] && kids[0].Node? ==>
              InnerOf(kids) == [kids[0]] + InnerOf(kids[1..]) && RawOf(kids) == RawOf(kids[1..])
  {
  }

  lemma VisitUnfold(kids: seq<Dag>, queue: seq<Inner>, out: Bytes)
    ensures kids == [] ==> Visit(kids, queue, out) == BfsRun(queue, out)
    ensures kids != [] && kids[0].Raw? ==> Visit(kids, queue, out) == Visit(kids[1..], queue, out + kids[0].bytes)
    ensures kids != [] && kids[0].Node? ==> Visit(kids, queue, out) == Visit(kids[1..], queue + [kids[0]], out)
  {
    hide BfsRun;
  }

  /** Working off `a` puts out what its nodes own and leaves their inner children at the end of the queue. */
  lemma {:induction false} BfsLevel(a: seq<Inner>, b: seq<Inner>, out: Bytes)
    requires AllIntact(a)
    ensures BfsRun(a + b, out) == BfsRun(b + Below(a), out + OwnAll(a))
    decreases |a|
  {
    hide Visit, InnerOf, RawOf, BfsRun, Below, OwnAll;
    LevelUnfold(a);
    if a == [] {
      NilUnits(b);
      NilUnits(out);
    } else {
      var node, tail := a[0], a[1..];
      var own := if node.data.Some? then node.data.value else [];
      var inner, raw := InnerOf(node.kids), RawOf(node.kids);
      assert Intact(node) && AllIntact(tail);
      assert (a + b)[1..] == tail + b && (a + b)[0] == node;
      BfsStep(a + b, out);
      VisitIntact(node.kids, tail + b, out + own);
      Assoc(tail, b, inner);
      BfsLevel(tail, b + inner, out + own + raw);
      Assoc(b, inner, Below(tail));
      Assoc(out, own, raw);
      Assoc(out, own + raw, OwnAll(tail));
    }
  }

  lemma LevelUnfold(a: seq<Inner>)
    ensures a == [] ==> Below(a) == [] && OwnAll(a) == []
    ensures a != [] ==> Below(a) == InnerOf(a[0].kids) + Below(a[1..]) && OwnAll(a) == Own(a[0]) + OwnAll(a[1..])
  {
    hide InnerOf, Own;
  }

  lemma BfsStep(queue: seq<Inner>, out: Bytes)
    requires queue != []
    ensures BfsRun(queue, out)
         == Visit(queue[0].kids, queue[1..], out + if queue[0].data.Some? then queue[0].data.value else [])
  {
    hide Visit;
  }

  /** Nothing at depth `d` comes out before round `d`, and nothing of a node before round `d + 1`. */
  lemma {:induction false} NothingEarlier(dag: Dag, d: nat, r: nat)
    requires r < d || (r == d && dag.Node?)
    ensures Select(Pieces(dag, d), r) == []
    decreases dag, 0
  {
    if dag.Node? {
      var own := if dag.data.Some? then [Piece(d + 1, dag.data.value)] else [];
      NothingEarlierAll(dag.kids, d + 1, r);
      SelectAppend(own, PiecesAll(dag.kids, d + 1), r);
    }
  }

  lemma {:induction false} NothingEarlierAll(dags: seq<Dag>, d: nat, r: nat)
    requires r < d
    ensures Select(PiecesAll(dags, d), r) == []
    decreases dags, 1
  {
    hide Pieces;
    if dags != [] {
      NothingEarlier(dags[0], d, r);
      NothingEarlierAll(dags[1..], d, r);
      SelectAppend(Pieces(dags[0], d), PiecesAll(dags[1..], d), r);
    }
  }

  /** Of the children at depth `d`, the raw ones come out in round `d` and the others later. */
  lemma {:induction false} SelectKids(kids: seq<Dag>, d: nat, r: nat)
    requires AllIntact(kids) && d <= r
    ensures Select(PiecesAll(kids, d), r) == if r == d then RawOf(kids) else Select(PiecesAll(InnerOf(kids), d), r)
  {
    if kids != [] {
      assert Intact(kids[0]) && AllIntact(kids[1..]);
      SelectKids(kids[1..], d, r);
      SelectAppend(Pieces(kids[0], d), PiecesAll(kids[1..], d), r);
      if kids[0].Raw? {
        assert Select([Piece(d, kids[0].bytes)], r) == if r == d then kids[0].bytes else [];
        assert InnerOf(kids) == InnerOf(kids[1..]);
      } else {
        var inner := [kids[0]] + InnerOf(kids[1..]);
        assert inner[1..] == InnerOf(kids[1..]);
        SelectAppend(Pieces(kids[0], d), PiecesAll(inner[1..], d), r);
        if r == d {
          NothingEarlier(kids[0], d, r);
        }
      }
    }
  }

  lemma SelectNode(node: Inner, d: nat, r: nat)
    requires Intact(node) && d < r
    ensures Select(Pieces(node, d), r)
         == if r == d + 1 then Own(node) else Select(PiecesAll(InnerOf(node.kids), d + 1), r)
  {
    hide PiecesAll, RawOf, InnerOf;
    var own := if node.data.Some? then [Piece(d + 1, node.data.value)] else [];
    SelectAppend(own, PiecesAll(node.kids, d + 1), r);
    SelectKids(node.kids, d + 1, r);
    if node.data.Some? {
      assert Select(own, r) == (if r == d + 1 then node.data.value else []) + Select([], r);
    }
  }

  lemma {:induction false} SelectLevel(nodes: seq<Inner>, d: nat, r: nat)
    requires AllIntact(nodes) && d < r
    ensures Select(PiecesAll(nodes, d), r)
         == if r == d + 1 then OwnAll(nodes) else Select(PiecesAll(Below(nodes), d + 1), r)
  {
    hide Pieces, Own, InnerOf;
    if nodes != [] {
      assert Intact(nodes[0]) && AllIntact(nodes[1..]);
      SelectNode(nodes[0], d, r);
      SelectLevel(nodes[1..], d, r);
      SelectAppend(Pieces(nodes[0], d), PiecesAll(nodes[1..], d), r);
      PiecesAppend(InnerOf(nodes[0].kids), Below(nodes[1..]), d + 1);
      SelectAppend(PiecesAll(InnerOf(nodes[0].kids), d + 1), PiecesAll(Below(nodes[1..]), d + 1), r);
    }
  }

  lemma {:induction false} PiecesAppend(a: seq<Dag>, b: seq<Dag>, d: nat)
    ensures PiecesAll(a + b, d) == PiecesAll(a, d) + PiecesAll(b, d)
  {
    hide Pieces;
    if a == [] {
      assert a + b == b;
    } else {
      assert (a + b)[1..] == a[1..] + b;
      PiecesAppend(a[1..], b, d);
    }
  }

  lemma {:induction false} GroupedBelow(nodes: seq<Inner>, d: nat, from: nat, n: nat)
    requires AllIntact(nodes) && d + 2 <= from
    ensures Grouped(PiecesAll(nodes, d), from, n) == Grouped(PiecesAll(Below(nodes), d + 1), from, n)
    decreases n
  {
    hide PiecesAll, Below, AllIntact, Grouped, Select;
    if n > 0 {
      SelectLevel(nodes, d, from);
      GroupedBelow(nodes, d, from + 1, n - 1);
      GroupedStep(PiecesAll(nodes, d), from, n);
      GroupedStep(PiecesAll(Below(nodes), d + 1), from, n);
    } else {
      assert Grouped(PiecesAll(nodes, d), from, 0) == Grouped(PiecesAll(Below(nodes), d + 1), from, 0) by {
        GroupedZero(PiecesAll(nodes, d), from);
        GroupedZero(PiecesAll(Below(nodes), d + 1), from);
      }
    }
  }

  lemma GroupedZero(ps: seq<Piece>, from: nat)
    ensures Grouped(ps, from, 0) == []
  {
  }

  lemma {:induction false} GroupedNothing(from: nat, n: nat)
    ensures Grouped([], from, n) == []
    decreases n
  {
    if n > 0 {
      GroupedNothing(from + 1, n - 1);
    }
  }

  /** A queue of nodes at depth `d` reads round by round. */
  lemma {:induction false} BfsIsGrouped(nodes: seq<Inner>, d: nat, n: nat, out: Bytes)
    requires AllIntact(nodes) && n >= SizeAll(nodes)
    ensures BfsRun(nodes, out) == Ok(out + Grouped(PiecesAll(nodes, d), d + 1, n))
    decreases n
  {
    hide Pieces, Own, SizeAll, Visit, AllIntact, Select, BfsRun, Grouped, PiecesAll, Below, OwnAll;
    if nodes == [] {
      BfsEnd(out);
      assert PiecesAll(nodes, d) == [] by { PiecesNothing(d); }
      GroupedNothing(d + 1, n);
      NilUnits(out);
    } else {
      var down := Below(nodes);
      BelowFacts(nodes);
      BfsLevel(nodes, [], out);
      NilUnits<Inner>(nodes);
      NilUnits<Inner>(down);
      BfsIsGrouped(down, d + 1, n - 1, out + OwnAll(nodes));
      SelectLevel(nodes, d, d + 1);
      GroupedBelow(nodes, d, d + 2, n - 1);
      GroupedStep(PiecesAll(nodes, d), d + 1, n);
      Assoc(out, OwnAll(nodes), Grouped(PiecesAll(down, d + 1), d + 2, n - 1));
    }
  }

  lemma PiecesNothing(d: nat)
    ensures PiecesAll([], d) == []
  {
  }

  lemma BfsEnd(out: Bytes)
    ensures BfsRun([], out) == Ok(out)
  {
  }

  /** No piece comes out after as many rounds as the DAG has blocks. */
  lemma {:induction false} RoundsBounded(dag: Dag, d: nat)
    ensures forall p :: p in Pieces(dag, d) ==> d <= p.round <= d + Size(dag)
    decreases dag, 0
  {
    if dag.Node? {
      RoundsBoundedAll(dag.kids, d + 1);
    }
  }

  lemma {:induction false} RoundsBoundedAll(dags: seq<Dag>, d: nat)
    ensures forall p :: p in PiecesAll(dags, d) ==> d <= p.round <= d + SizeAll(dags)
    decreases dags, 1
  {
    hide Pieces, Size;
    if dags != [] {
      RoundsBounded(dags[0], d);
      RoundsBoundedAll(dags[1..], d);
    }
  }

  /** On every intact DAG: the stream returns the pieces as they lie, the queue reader grouped by round. */
  lemma ReadingOrders(dag: Dag)
    requires Intact(dag)
    ensures Drain([dag]) == Ok(Spell(Pieces(dag, 0)))
    ensures ReadOf(dag) == Ok(Grouped(Pieces(dag, 0), 0, Size(dag) + 1))
    ensures forall p :: p in Pieces(dag, 0) ==> p.round < Size(dag) + 1
  {
    hide Pieces, Spell, Grouped, Select, Flatten, Drain, BfsRun, Size;
    RoundsBounded(dag, 0);
    PiecesSpell(dag, 0);
    DrainIsFlatten([dag]);
    FlattenOne(dag);
    QueueOrder(dag);
  }

  lemma FlattenOne(dag: Dag)
    ensures FlattenAll([dag]) == Flatten(dag)
  {
    hide Flatten;
    FlattenNothing();
    assert [dag][1..] == [];
  }

  lemma QueueOrder(dag: Dag)
    requires Intact(dag)
    ensures ReadOf(dag) == Ok(Grouped(Pieces(dag, 0), 0, Size(dag) + 1))
  {
    if dag.Raw? {
      GroupedOne(Piece(0, dag.bytes), Size(dag));
    } else {
      hide BfsRun, Pieces, Grouped, Select, Size, SizeAll, PiecesAll;
      OneInQueue(dag);
      BfsIsGrouped([dag], 0, Size(dag), []);
      NothingEarlier(dag, 0, 0);
      GroupedStep(Pieces(dag, 0), 0, Size(dag) + 1);
      NilUnits(Grouped(Pieces(dag, 0), 1, Size(dag)));
    }
  }

  lemma OneInQueue(dag: Dag)
    ensures SizeAll([dag]) == Size(dag) && PiecesAll([dag], 0) == Pieces(dag, 0)
  {
    hide Pieces, Size;
    assert [dag][1..] == [];
    NilUnits(Pieces(dag, 0));
  }

  lemma GroupedOne(p: Piece, n: nat)
    requires p.round == 0
    ensures Grouped([p], 0, n + 1) == p.bytes
  {
    assert Select([p], 0) == p.bytes + Select([], 0);
    NoneLater(p, 1, n);
  }

  lemma {:induction false} NoneLater(p: Piece, from: nat, n: nat)
    requires p.round < from
    ensures Grouped([p], from, n) == []
    decreases n
  {
    if n > 0 {
      assert Select([p], from) == [] + Select([], from);
      NoneLater(p, from + 1, n - 1);
    }
  }

  // ------------------------------------------------------ when the orders agree

  predicate Ordered(ps: seq<Piece>) {
    forall i, j :: 0 <= i < j < |ps| ==> ps[i].round <= ps[j].round
  }

  lemma {:induction false} SelectAbsent(ps: seq<Piece>, r: nat)
    requires forall i :: 0 <= i < |ps| ==> ps[i].round != r
    ensures Select(ps, r) == []
  {
    if ps != [] {
      SelectAbsent(ps[1..], r);
    }
  }

  /** The first piece stays first when no other has a lower round. */
  lemma {:induction false} GroupedCons(ps: seq<Piece>, from: nat, n: nat)
    requires ps != [] && Ordered(ps) && from <= ps[0].round < from + n
    ensures Grouped(ps, from, n) == ps[0].bytes + Grouped(ps[1..], from, n)
    decreases n
  {
    var rest := ps[1..];
    hide Grouped, Select, Ordered;
    GroupedStep(ps, from, n);
    GroupedStep(rest, from, n);
    if ps[0].round == from {
      GroupedLater(ps, from + 1, n - 1);
      SelectFirst(ps, from);
      Assoc(ps[0].bytes, Select(rest, from), Grouped(rest, from + 1, n - 1));
    } else {
      LaterThan(ps, from);
      GroupedCons(ps, from + 1, n - 1);
      NilUnits(Grouped(ps, from + 1, n - 1));
      NilUnits(Grouped(rest, from + 1, n - 1));
    }
  }

  lemma SelectFirst(ps: seq<Piece>, r: nat)
    requires ps != [] && ps[0].round == r
    ensures Select(ps, r) == ps[0].bytes + Select(ps[1..], r)
  {
  }

  lemma LaterThan(ps: seq<Piece>, r: nat)
    requires ps != [] && Ordered(ps) && r < ps[0].round
    ensures Select(ps, r) == [] && Select(ps[1..], r) == []
  {
    hide Select;
    forall i | 0 <= i < |ps| ensures ps[i].round != r {
      assert i > 0 ==> ps[0].round <= ps[i].round;
    }
    SelectAbsent(ps, r);
    SelectAbsent(ps[1..], r);
  }

  lemma {:induction false} GroupedLater(ps: seq<Piece>, from: nat, n: nat)
    requires ps != [] && ps[0].round < from
    ensures Grouped(ps, from, n) == Grouped(ps[1..], from, n)
    decreases n
  {
    if n > 0 {
      assert Select(ps, from) == [] + Select(ps[1..], from);
      GroupedLater(ps, from + 1, n - 1);
    }
  }

  lemma {:induction false} OrderedIsSpelled(ps: seq<Piece>, n: nat)
    requires Ordered(ps) && forall i :: 0 <= i < |ps| ==> ps[i].round < n
    ensures Grouped(ps, 0, n) == Spell(ps)
    decreases |ps|
  {
    if ps == [] {
      GroupedNothing(0, n);
    } else {
      GroupedCons(ps, 0, n);
      OrderedIsSpelled(ps[1..], n);
    }
  }

  /** Equal but for the bytes that leaves and nodes hold. */
  predicate SameShape(a: Dag, b: Dag) {
    (a.Raw? && b.Raw?)
    || (a.Node? && b.Node? && a.data.Some? == b.data.Some? && |a.kids| == |b.kids|
        && forall i :: 0 <= i < |a.kids| ==> SameShape(a.kids[i], b.kids[i]))
  }

  predicate AllSameShape(a: seq<Dag>, b: seq<Dag>) {
    |a| == |b| && forall i :: 0 <= i < |a| ==> SameShape(a[i], b[i])
  }

  predicate SameRounds(ps: seq<Piece>, qs: seq<Piece>) {
    |ps| == |qs| && forall i :: 0 <= i < |ps| ==> ps[i].round == qs[i].round
  }

  lemma {:induction false} ShapeFixesRounds(a: Dag, b: Dag, d: nat)
    requires SameShape(a, b)
    ensures SameRounds(Pieces(a, d), Pieces(b, d)) && Intact(a) && Intact(b)
    decreases a, 0
  {
    if a.Node? {
      AllShapesFixRounds(a.kids, b.kids, d + 1);
    }
  }

  lemma {:induction false} AllShapesFixRounds(a: seq<Dag>, b: seq<Dag>, d: nat)
    requires AllSameShape(a, b)
    ensures SameRounds(PiecesAll(a, d), PiecesAll(b, d))
    ensures forall i :: 0 <= i < |a| ==> Intact(a[i]) && Intact(b[i])
    decreases a, 1
  {
    hide Pieces, SameShape, Intact;
    if a != [] {
      ShapeFixesRounds(a[0], b[0], d);
      assert AllSameShape(a[1..], b[1..]) by {
        forall i | 0 <= i < |a[1..]| ensures SameShape(a[1..][i], b[1..][i]) {
          assert SameShape(a[i + 1], b[i + 1]);
        }
      }
      AllShapesFixRounds(a[1..], b[1..], d);
      forall i | 0 <= i < |a| ensures Intact(a[i]) && Intact(b[i]) {
        assert i > 0 ==> a[i] == a[1..][i - 1] && b[i] == b[1..][i - 1];
      }
    }
  }

  /** Depths that never decrease: the readers agree whatever the contents. */
  lemma OrderedReadersAgree(dag: Dag, other: Dag)
    requires SameShape(dag, other) && Ordered(Pieces(dag, 0))
    ensures ReadOf(other) == Drain([other])
  {
    hide Pieces, ReadOf, Drain, Grouped, Spell, Intact, SameShape;
    ShapeFixesRounds(dag, other, 0);
    ReadingOrders(other);
    OrderedIsSpelled(Pieces(other, 0), Size(other) + 1);
  }

  // ----------------------------------- contents that tell the orders apart

  /** The DAG with its contents replaced, in depth-first order. */
  function Fill(dag: Dag, cs: seq<Bytes>): Dag
    requires Intact(dag) && |cs| == |Pieces(dag, 0)|
    decreases dag, 0
  {
    match dag
    case Raw(_) => Raw(cs[0])
    case Node(data, kids) =>
      CountFixed(kids, 1, 0);
      if data.Some? then Node(Some(cs[0]), FillAll(kids, cs[1..])) else Node(None, FillAll(kids, cs))
  }

  function FillAll(dags: seq<Dag>, cs: seq<Bytes>): (r: seq<Dag>)
    requires AllIntact(dags) && |cs| == |PiecesAll(dags, 0)|
    ensures |r| == |dags|
    decreases dags, 1
  {
    if dags == [] then []
    else
      assert Intact(dags[0]);
      var n := |Pieces(dags[0], 0)|;
      [Fill(dags[0], cs[..n])] + FillAll(dags[1..], cs[n..])
  }

  /** The number of pieces does not depend on the depth. */
  lemma {:induction false} CountFixed(dags: seq<Dag>, d: nat, e: nat)
    ensures |PiecesAll(dags, d)| == |PiecesAll(dags, e)|
    decreases dags, 1
  {
    hide Pieces;
    if dags != [] {
      CountFixedOne(dags[0], d, e);
      CountFixed(dags[1..], d, e);
    }
  }

  lemma {:induction false} CountFixedOne(dag: Dag, d: nat, e: nat)
    ensures |Pieces(dag, d)| == |Pieces(dag, e)|
    decreases dag, 0
  {
    if dag.Node? {
      CountFixed(dag.kids, d + 1, e + 1);
    }
  }

  /** Filling keeps the shape and puts exactly these contents in place. */
  predicate Holds(ps: seq<Piece>, cs: seq<Bytes>) {
    |ps| == |cs| && forall i :: 0 <= i < |ps| ==> ps[i].bytes == cs[i]
  }

  lemma {:induction false} Filled(dag: Dag, cs: seq<Bytes>, d: nat)
    requires Intact(dag) && |cs| == |Pieces(dag, 0)|
    ensures SameShape(dag, Fill(dag, cs)) && Holds(Pieces(Fill(dag, cs), d), cs)
    decreases dag, 0
  {
    if dag.Node? {
      CountFixed(dag.kids, 1, 0);
      var rest := if dag.data.Some? then cs[1..] else cs;
      FilledAll(dag.kids, rest, d + 1);
    }
  }

  lemma {:induction false} FilledAll(dags: seq<Dag>, cs: seq<Bytes>, d: nat)
    requires AllIntact(dags) && |cs| == |PiecesAll(dags, 0)|
    ensures AllSameShape(dags, FillAll(dags, cs)) && Holds(PiecesAll(FillAll(dags, cs), d), cs)
    decreases dags, 1
  {
    hide Pieces, Fill, SameShape, Intact, PiecesAll, Holds, AllSameShape;
    if dags == [] {
      PiecesNothing(0);
      assert cs == [];
      NothingFilled(d);
    } else {
      assert Intact(dags[0]) && AllIntact(dags[1..]);
      PiecesUncons(dags, 0);
      var n := |Pieces(dags[0], 0)|;
      var first, others := Fill(dags[0], cs[..n]), FillAll(dags[1..], cs[n..]);
      Filled(dags[0], cs[..n], d);
      FilledAll(dags[1..], cs[n..], d);
      SameShapeCons(dags, first, others);
      PiecesUncons([first] + others, d);
      assert ([first] + others)[1..] == others;
      HoldsAppend(Pieces(first, d), PiecesAll(others, d), cs, n);
    }
  }

  lemma NothingFilled(d: nat)
    ensures AllSameShape([], []) && Holds(PiecesAll([], d), [])
  {
  }

  lemma PiecesUncons(dags: seq<Dag>, d: nat)
    requires dags != []
    ensures PiecesAll(dags, d) == Pieces(dags[0], d) + PiecesAll(dags[1..], d)
  {
    hide Pieces;
  }

  lemma SameShapeCons(dags: seq<Dag>, first: Dag, others: seq<Dag>)
    requires dags != [] && SameShape(dags[0], first) && AllSameShape(dags[1..], others)
    ensures AllSameShape(dags, [first] + others)
  {
    hide SameShape;
    forall i | 0 <= i < |dags| ensures SameShape(dags[i], ([first] + others)[i]) {
      assert i > 0 ==> dags[i] == dags[1..][i - 1];
    }
  }

  lemma HoldsAppend(ps: seq<Piece>, qs: seq<Piece>, cs: seq<Bytes>, n: nat)
    requires n <= |cs| && Holds(ps, cs[..n]) && Holds(qs, cs[n..])
    ensures Holds(ps + qs, cs)
  {
    forall i | 0 <= i < |cs| ensures (ps + qs)[i].bytes == cs[i] {
      assert cs[i] == if i < n then cs[..n][i] else cs[n..][i - n];
    }
  }

  lemma {:induction false} EmptySelect(ps: seq<Piece>, r: nat)
    requires forall i :: 0 <= i < |ps| ==> ps[i].bytes == []
    ensures Select(ps, r) == [] && Spell(ps) == []
  {
    if ps != [] {
      EmptySelect(ps[1..], r);
    }
  }

  /** All empty but a 1 at `i` and a 0 at `j`. */
  predicate TwoMarks(ps: seq<Piece>, i: nat, j: nat) {
    i < j < |ps| && ps[i].bytes == [1] && ps[j].bytes == [0]
    && forall k :: 0 <= k < |ps| && k != i && k != j ==> ps[k].bytes == []
  }

  lemma MarksSplit(ps: seq<Piece>, i: nat, j: nat, r: nat)
    requires TwoMarks(ps, i, j)
    ensures Select(ps, r) == (if ps[i].round == r then [1] else []) + (if ps[j].round == r then [0] else [])
    ensures Spell(ps) == [1, 0]
  {
    hide Select, Spell;
    var a, b, c := ps[..i], ps[i + 1..j], ps[j + 1..];
    var p, q := ps[i], ps[j];
    assert ps == a + ([p] + (b + ([q] + c)));
    EmptySelect(a, r);
    EmptySelect(b, r);
    EmptySelect(c, r);
    SelectAppend(a, [p] + (b + ([q] + c)), r);
    SelectAppend([p], b + ([q] + c), r);
    SelectAppend(b, [q] + c, r);
    SelectAppend([q], c, r);
    SpellAppend(a, [p] + (b + ([q] + c)));
    SpellAppend([p], b + ([q] + c));
    SpellAppend(b, [q] + c);
    SpellAppend([q], c);
    OnePiece(p, r);
    OnePiece(q, r);
  }

  lemma OnePiece(p: Piece, r: nat)
    ensures Select([p], r) == if p.round == r then p.bytes else []
    ensures Spell([p]) == p.bytes
  {
    assert Select([p], r) == (if p.round == r then p.bytes else []) + Select([], r);
    assert Spell([p]) == p.bytes + Spell([]);
  }

  lemma {:induction false} MarksGrouped(ps: seq<Piece>, i: nat, j: nat, from: nat, n: nat)
    requires TwoMarks(ps, i, j) && ps[j].round < ps[i].round < from + n
    ensures Grouped(ps, from, n)
         == if from <= ps[j].round then [0, 1] else if from <= ps[i].round then [1] else []
    decreases n
  {
    hide Select, TwoMarks, Grouped;
    if n == 0 {
      GroupedZero(ps, from);
    } else {
      MarksSplit(ps, i, j, from);
      MarksGrouped(ps, i, j, from + 1, n - 1);
      GroupedStep(ps, from, n);
    }
  }

  function Marks(n: nat, i: nat, j: nat): (cs: seq<Bytes>)
    ensures |cs| == n
  {
    seq(n, k => if k == i then [1] else if k == j then [0] else [])
  }

  lemma MarksPlaced(ps: seq<Piece>, n: nat, i: nat, j: nat)
    requires i < j < n && Holds(ps, Marks(n, i, j))
    ensures TwoMarks(ps, i, j)
  {
  }

  lemma MarkedReadersDiffer(dag: Dag, i: nat, j: nat)
    requires Intact(dag) && TwoMarks(Pieces(dag, 0), i, j) && Pieces(dag, 0)[j].round < Pieces(dag, 0)[i].round
    ensures ReadOf(dag) == Ok([0, 1]) && Drain([dag]) == Ok([1, 0])
  {
    hide Pieces, ReadOf, Drain, Grouped, Spell, Intact, Size;
    ReadingOrders(dag);
    var ps := Pieces(dag, 0);
    assert ps[i] in ps;
    hide TwoMarks;
    MarksGrouped(ps, i, j, 0, Size(dag) + 1);
    MarksSplit(ps, i, j, 0);
  }

  /** Where depths decrease, some contents are read in different orders. */
  lemma UnorderedReadersDiffer(dag: Dag) returns (other: Dag)
    requires Intact(dag) && !Ordered(Pieces(dag, 0))
    ensures SameShape(dag, other) && ReadOf(other) != Drain([other])
  {
    hide Pieces, ReadOf, Drain, SameShape, Intact, Fill, TwoMarks, Marks;
    var ps := Pieces(dag, 0);
    var i: nat, j: nat :| i < j < |ps| && ps[i].round > ps[j].round;
    var cs := Marks(|ps|, i, j);
    other := Fill(dag, cs);
    Filled(dag, cs, 0);
    ShapeFixesRounds(dag, other, 0);
    MarksPlaced(Pieces(other, 0), |ps|, i, j);
    assert Pieces(other, 0)[i].round == ps[i].round && Pieces(other, 0)[j].round == ps[j].round;
    MarkedReadersDiffer(other, i, j);
  }

  /**
   For every shape of an intact DAG: the readers return the same bytes whatever
   the contents exactly when, depth-first, rounds never decrease.
   */
  lemma ReadersAgreeIff(dag: Dag)
    requires Intact(dag)
    ensures (forall other :: SameShape(dag, other) ==> ReadOf(other) == Drain([other])) <==> Ordered(Pieces(dag, 0))
  {
    hide Pieces, ReadOf, Drain, Ordered, SameShape, Intact;
    if Ordered(Pieces(dag, 0)) {
      forall other | SameShape(dag, other) ensures ReadOf(other) == Drain([other]) {
        OrderedReadersAgree(dag, other);
      }
    } else {
      var other := UnorderedReadersDiffer(dag);
    }
  }
}
