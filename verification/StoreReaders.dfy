/**
 The two readers on a store. They need not see the same DAG: the stream follows
 a link only if it carries an integer size, `read_chunked_file` follows it
 without one. So the stream reads the DAG of the other reader with some
 children cut off, and the two agree whatever the contents exactly when no
 content is cut off and the depths never decrease.
 */
module StoreReaders {
  import opened Basics
  import opened Cids
  import opened Blocks
  import opened IpldModel
  import opened DagCbor
  import opened Dags
  import opened Readers
  import opened ReadingOrder

  /** Which children are followed, and what is followed below them. */
  datatype Mask = Mask(kids: seq<Option<Mask>>)

  /** The DAG with the children cut off that are not followed. */
  function Prune(dag: Dag, mask: Mask): Dag {
    match dag
    case Node(data, kids) => Node(data, PruneAll(kids, mask.kids))
    case _ => dag
  }

  function PruneAll(dags: seq<Dag>, masks: seq<Option<Mask>>): seq<Dag> {
    if dags == [] || masks == [] then []
    else match masks[0]
      case None => PruneAll(dags[1..], masks[1..])
      case Some(mask) => [Prune(dags[0], mask)] + PruneAll(dags[1..], masks[1..])
  }

  // ------------------------------------------------- what the stream sees

  /** The links of a node with a size are among its links: which ones, given what is followed below them. */
  lemma {:induction false} UnfoldsPruned(store: Store, cid: Cid, dag: Dag) returns (mask: Mask)
    requires Unfolds(store, false, cid, dag)
    ensures Unfolds(store, true, cid, Prune(dag, mask))
    decreases dag, 1
  {
    hide FromDagCbor, Targets, NodeData, LinkItems;
    mask := Mask([]);
    if dag.Node? {
      var v := FromDagCbor(store.pf, Fetch(store, cid).value.data).value;
      assert NodeUnfolds(store, false, v, dag);
      var masks := KidsPruned(store, LinkItems(v), dag.kids);
      mask := Mask(masks);
      assert NodeUnfolds(store, true, v, Prune(dag, mask));
    }
  }

  lemma {:induction false} KidsPruned(store: Store, items: seq<Ipld>, kids: seq<Dag>) returns (masks: seq<Option<Mask>>)
    requires AllUnfold(store, false, Targets(items, false), kids)
    ensures AllUnfold(store, true, Targets(items, true), PruneAll(kids, masks))
    decreases kids, 0, |items|
  {
    hide Unfolds, LinkTarget;
    if items == [] {
      masks := [];
      assert PruneAll(kids, masks) == [];
    } else {
      TargetsUncons(items);
      TargetKept(items[0]);
      if LinkTarget(items[0], false).None? {
        masks := KidsPruned(store, items[1..], kids);
      } else {
        AllUnfoldTail(store, false, Targets(items, false), kids);
        assert Targets(items, false)[1..] == Targets(items[1..], false);
        var rest := KidsPruned(store, items[1..], kids[1..]);
        if LinkTarget(items[0], true).None? {
          masks := [None] + rest;
          assert masks[1..] == rest;
        } else {
          assert Unfolds(store, false, Targets(items, false)[0], kids[0]);
          var first := UnfoldsPruned(store, LinkTarget(items[0], false).value, kids[0]);
          masks := [Some(first)] + rest;
          assert masks[1..] == rest;
          AllUnfoldCons(store, LinkTarget(items[0], true).value, Prune(kids[0], first),
                        Targets(items[1..], true), PruneAll(kids[1..], rest));
        }
      }
    }
  }

  lemma TargetsUncons(items: seq<Ipld>)
    requires items != []
    ensures forall sized ::
              Targets(items, sized)
              == (if LinkTarget(items[0], sized).Some? then [LinkTarget(items[0], sized).value] else [])
                 + Targets(items[1..], sized)
  {
    hide LinkTarget;
  }

  /** A link with a size leads where it leads without asking for one. */
  lemma TargetKept(item: Ipld)
    ensures LinkTarget(item, true).Some? ==> LinkTarget(item, false) == LinkTarget(item, true)
  {
    hide Lookup;
  }

  lemma AllUnfoldCons(store: Store, cid: Cid, dag: Dag, cids: seq<Cid>, dags: seq<Dag>)
    requires Unfolds(store, true, cid, dag) && AllUnfold(store, true, cids, dags)
    ensures AllUnfold(store, true, [cid] + cids, [dag] + dags)
  {
    hide Unfolds;
  }

  /** In every block that decodes, every link the queue reader follows carries an integer size. */
  ghost predicate LinksSized(store: Store) {
    forall c :: c in store.blocks && FromDagCbor(store.pf, store.blocks[c].data).Ok? ==>
      var items := LinkItems(FromDagCbor(store.pf, store.blocks[c].data).value);
      Targets(items, true) == Targets(items, false)
  }

  /** Then both readers see the same DAG. */
  lemma {:induction false} SizedSeeTheSame(store: Store, cid: Cid, dag: Dag)
    requires LinksSized(store) && Unfolds(store, false, cid, dag)
    ensures Unfolds(store, true, cid, dag)
    decreases dag
  {
    hide FromDagCbor, Targets, NodeData, LinkItems;
    if dag.Node? {
      var v := FromDagCbor(store.pf, Fetch(store, cid).value.data).value;
      assert NodeUnfolds(store, false, v, dag);
      var cids := Targets(LinkItems(v), false);
      assert AllUnfold(store, false, cids, dag.kids);
      assert cid in store.blocks && Targets(LinkItems(v), true) == cids;
      forall i | 0 <= i < |dag.kids| ensures Unfolds(store, true, cids[i], dag.kids[i]) {
        SizedSeeTheSame(store, cids[i], dag.kids[i]);
      }
      assert NodeUnfolds(store, true, v, dag);
    }
  }

  // ---------------------------------------------------- what is cut off

  /** Cutting off children drops pieces and moves none; as many pieces means the same pieces. */
  ghost predicate Subset(ps: seq<Piece>, qs: seq<Piece>) {
    |ps| <= |qs| && (|ps| == |qs| ==> ps == qs) && forall p :: p in ps ==> p in qs
  }

  lemma {:induction false} PrunePieces(dag: Dag, mask: Mask, d: nat)
    ensures Subset(Pieces(Prune(dag, mask), d), Pieces(dag, d))
    decreases dag, 0
  {
    if dag.Node? {
      PruneAllPieces(dag.kids, mask.kids, d + 1);
      var own := if dag.data.Some? then [Piece(d + 1, dag.data.value)] else [];
      SubsetAppend(own, PiecesAll(PruneAll(dag.kids, mask.kids), d + 1), own, PiecesAll(dag.kids, d + 1));
    }
  }

  lemma {:induction false} PruneAllPieces(dags: seq<Dag>, masks: seq<Option<Mask>>, d: nat)
    ensures Subset(PiecesAll(PruneAll(dags, masks), d), PiecesAll(dags, d))
    decreases dags, 1
  {
    hide Pieces, Prune, Subset;
    if dags == [] || masks == [] {
      PiecesNothing(d);
      NoneIsSubset(PiecesAll(dags, d));
    } else {
      PruneAllPieces(dags[1..], masks[1..], d);
      PiecesUncons(dags, d);
      var rest := PruneAll(dags[1..], masks[1..]);
      match masks[0]
      case None =>
        NoneIsSubset(Pieces(dags[0], d));
        SubsetAppend([], PiecesAll(rest, d), Pieces(dags[0], d), PiecesAll(dags[1..], d));
        NilUnits(PiecesAll(rest, d));
      case Some(mask) =>
        PrunePieces(dags[0], mask, d);
        var pruned := [Prune(dags[0], mask)] + rest;
        PiecesUncons(pruned, d);
        assert pruned[1..] == rest;
        SubsetAppend(Pieces(pruned[0], d), PiecesAll(rest, d), Pieces(dags[0], d), PiecesAll(dags[1..], d));
    }
  }

  lemma NoneIsSubset(qs: seq<Piece>)
    ensures Subset([], qs)
  {
  }

  lemma SubsetAppend(a: seq<Piece>, b: seq<Piece>, a': seq<Piece>, b': seq<Piece>)
    requires Subset(a, a') && Subset(b, b')
    ensures Subset(a + b, a' + b')
  {
  }

  // ------------------------------------------------ shapes under a mask

  lemma {:induction false} PruneKeepsShape(a: Dag, b: Dag, mask: Mask)
    requires SameShape(a, b)
    ensures SameShape(Prune(a, mask), Prune(b, mask))
    decreases a, 0
  {
    if a.Node? {
      PruneAllKeepsShape(a.kids, b.kids, mask.kids);
    }
  }

  lemma {:induction false} PruneAllKeepsShape(a: seq<Dag>, b: seq<Dag>, masks: seq<Option<Mask>>)
    requires AllSameShape(a, b)
    ensures AllSameShape(PruneAll(a, masks), PruneAll(b, masks))
    decreases a, 1
  {
    hide Prune, SameShape;
    if a != [] && masks != [] {
      assert SameShape(a[0], b[0]);
      assert AllSameShape(a[1..], b[1..]) by {
        forall i | 0 <= i < |a[1..]| ensures SameShape(a[1..][i], b[1..][i]) {
          assert SameShape(a[i + 1], b[i + 1]);
        }
      }
      PruneAllKeepsShape(a[1..], b[1..], masks[1..]);
      if masks[0].Some? {
        PruneKeepsShape(a[0], b[0], masks[0].value);
      }
    }
  }

  lemma {:induction false} ShapeReflexive(dag: Dag)
    requires Intact(dag)
    ensures SameShape(dag, dag)
  {
    if dag.Node? {
      forall i | 0 <= i < |dag.kids| ensures SameShape(dag.kids[i], dag.kids[i]) {
        ShapeReflexive(dag.kids[i]);
      }
    }
  }

  /** What both readers return on a DAG of a shape. */
  lemma BothRead(dag: Dag, other: Dag, mask: Mask)
    requires SameShape(dag, other)
    ensures SameRounds(Pieces(dag, 0), Pieces(other, 0))
    ensures |Pieces(Prune(dag, mask), 0)| == |Pieces(Prune(other, mask), 0)|
    ensures Subset(Pieces(Prune(other, mask), 0), Pieces(other, 0))
    ensures ReadOf(other) == Ok(Grouped(Pieces(other, 0), 0, Size(other) + 1))
    ensures Drain([Prune(other, mask)]) == Ok(Spell(Pieces(Prune(other, mask), 0)))
    ensures forall p :: p in Pieces(other, 0) ==> p.round < Size(other) + 1
  {
    hide Pieces, SameShape, Prune, ReadOf, Drain, Grouped, Spell, Subset, Intact, Size;
    ShapeFixesRounds(dag, other, 0);
    PruneKeepsShape(dag, other, mask);
    ShapeFixesRounds(Prune(dag, mask), Prune(other, mask), 0);
    PrunePieces(other, mask, 0);
    ReadingOrders(other);
    ReadingOrders(Prune(other, mask));
  }

  // ------------------------------------------------------------ agreement

  lemma AgreeWhenWhole(dag: Dag, mask: Mask, other: Dag)
    requires SameShape(dag, other) && Ordered(Pieces(dag, 0))
    requires |Pieces(dag, 0)| == |Pieces(Prune(dag, mask), 0)|
    ensures ReadOf(other) == Drain([Prune(other, mask)])
  {
    hide Pieces, SameShape, Prune, ReadOf, Drain, Grouped, Spell, Size;
    BothRead(dag, other, mask);
    OrderedIsSpelled(Pieces(other, 0), Size(other) + 1);
  }

  lemma {:induction false} GroupedLength(ps: seq<Piece>, n: nat)
    requires forall i :: 0 <= i < |ps| ==> ps[i].round < n && |ps[i].bytes| == 1
    ensures |Grouped(ps, 0, n)| == |ps|
    decreases |ps|
  {
    if ps == [] {
      GroupedNothing(0, n);
    } else {
      GroupedLength(ps[1..], n);
      FirstCounts(ps, 0, n);
    }
  }

  lemma {:induction false} FirstCounts(ps: seq<Piece>, from: nat, n: nat)
    requires ps != []
    ensures |Grouped(ps, from, n)|
         == |Grouped(ps[1..], from, n)| + if from <= ps[0].round < from + n then |ps[0].bytes| else 0
    decreases n
  {
    if n > 0 {
      FirstCounts(ps, from + 1, n - 1);
    }
  }

  lemma {:induction false} SpellLength(ps: seq<Piece>)
    requires forall i :: 0 <= i < |ps| ==> |ps[i].bytes| == 1
    ensures |Spell(ps)| == |ps|
  {
    if ps != [] {
      SpellLength(ps[1..]);
    }
  }

  /** Contents of one byte each show that something is cut off. */
  lemma CutOffShows(dag: Dag, mask: Mask) returns (other: Dag)
    requires Intact(dag) && |Pieces(dag, 0)| != |Pieces(Prune(dag, mask), 0)|
    ensures SameShape(dag, other) && ReadOf(other) != Drain([Prune(other, mask)])
  {
    hide Pieces, SameShape, Prune, ReadOf, Drain, Grouped, Spell, Size, Intact, Fill;
    var cs: seq<Bytes> := seq(|Pieces(dag, 0)|, _ => [0]);
    other := Fill(dag, cs);
    Filled(dag, cs, 0);
    BothRead(dag, other, mask);
    var ps, qs := Pieces(Prune(other, mask), 0), Pieces(other, 0);
    assert forall p :: p in qs ==> |p.bytes| == 1;
    forall i | 0 <= i < |ps| ensures |ps[i].bytes| == 1 {
      assert ps[i] in ps;
    }
    SpellLength(ps);
    GroupedLength(qs, Size(other) + 1);
  }

  /** Depths that decrease show as before, when nothing is cut off. */
  lemma DisorderShows(dag: Dag, mask: Mask) returns (other: Dag)
    requires Intact(dag) && !Ordered(Pieces(dag, 0)) && |Pieces(dag, 0)| == |Pieces(Prune(dag, mask), 0)|
    ensures SameShape(dag, other) && ReadOf(other) != Drain([Prune(other, mask)])
  {
    hide Pieces, SameShape, Prune, ReadOf, Drain, Grouped, Spell, Size, Intact, Ordered;
    other := UnorderedReadersDiffer(dag);
    ShapeFixesRounds(dag, other, 0);
    BothRead(dag, other, mask);
    ReadingOrders(other);
  }

  /**
   For every shape of an intact DAG and every choice of links to follow: the
   queue reader, which follows all, and the stream, which follows the chosen
   ones, return the same bytes whatever the contents exactly when rounds never
   decrease and nothing with contents is cut off.
   */
  lemma MaskedReadersAgreeIff(dag: Dag, mask: Mask)
    requires Intact(dag)
    ensures (forall other :: SameShape(dag, other) ==> ReadOf(other) == Drain([Prune(other, mask)]))
       <==> Ordered(Pieces(dag, 0)) && |Pieces(dag, 0)| == |Pieces(Prune(dag, mask), 0)|
  {
    hide Pieces, SameShape, Prune, ReadOf, Drain, Ordered, Intact;
    if |Pieces(dag, 0)| != |Pieces(Prune(dag, mask), 0)| {
      var other := CutOffShows(dag, mask);
    } else if !Ordered(Pieces(dag, 0)) {
      var other := DisorderShows(dag, mask);
    } else {
      forall other | SameShape(dag, other) ensures ReadOf(other) == Drain([Prune(other, mask)]) {
        AgreeWhenWhole(dag, mask, other);
      }
    }
  }

  /**
   On a store: what the stream sees is what the queue reader sees with the
   children cut off whose links have no size, and that settles, for all contents
   of those links, whether the two agree.
   */
  lemma StoreReadersAgreeIff(store: Store, root: Cid, a: Dag, b: Dag) returns (mask: Mask)
    requires Unfolds(store, false, root, a) && Unfolds(store, true, root, b) && Intact(a)
    ensures b == Prune(a, mask)
    ensures (forall other :: SameShape(a, other) ==> ReadOf(other) == Drain([Prune(other, mask)]))
       <==> Ordered(Pieces(a, 0)) && |Pieces(a, 0)| == |Pieces(b, 0)|
    ensures Ordered(Pieces(a, 0)) && |Pieces(a, 0)| == |Pieces(b, 0)| ==> ReadOf(a) == Drain([b])
    ensures LinksSized(store) ==> a == b
  {
    hide Unfolds, Pieces, SameShape, Prune, ReadOf, Drain, Ordered, Intact, LinksSized;
    mask := UnfoldsPruned(store, root, a);
    UnfoldingUnique(store, true, root, b, Prune(a, mask));
    MaskedReadersAgreeIff(a, mask);
    ShapeReflexive(a);
    if LinksSized(store) {
      SizedSeeTheSame(store, root, a);
      UnfoldingUnique(store, true, root, a, b);
    }
  }

  // ------------------------------------------------- a link without a size

  function UnsizedNode(leaf: Cid): Ipld {
    Map([Entry(KEY_LINKS, List([Map([Entry(KEY_CID, Link(leaf))])]))])
  }

  function LeafOf(sha: Sha256, b: Bytes): Block {
    Block(CidOf(sha, RAW, b), b)
  }

  function RootOf(sha: Sha256, b: Bytes): Block {
    var bytes := ToDagCbor(UnsizedNode(LeafOf(sha, b).cid));
    Block(CidOf(sha, DAG_CBOR, bytes), bytes)
  }

  function UnsizedStore(sha: Sha256, pf: Platform, b: Bytes): Store {
    Store(pf, map[RootOf(sha, b).cid := RootOf(sha, b), LeafOf(sha, b).cid := LeafOf(sha, b)])
  }

  /** A node whose only link has no size, above a leaf: one reader returns the leaf and the other nothing. */
  lemma UnsizedLink(sha: Sha256, pf: Platform, b: Bytes)
    ensures Unfolds(UnsizedStore(sha, pf, b), false, RootOf(sha, b).cid, Node(None, [Raw(b)]))
    ensures Unfolds(UnsizedStore(sha, pf, b), true, RootOf(sha, b).cid, Node(None, []))
    ensures Ordered(Pieces(Node(None, [Raw(b)]), 0))
    ensures ReadOf(Node(None, [Raw(b)])) == Ok(b) && Drain([Node(None, [])]) == Ok([])
  {
    hide Unfolds, ToDagCbor, UnsizedNode, ReadOf, Drain, Pieces, Grouped, Spell, Size, Ordered;
    var leaf, root, store := LeafOf(sha, b), RootOf(sha, b), UnsizedStore(sha, pf, b);
    var v := UnsizedNode(leaf.cid);
    UnsizedDecodes(pf, leaf.cid);
    assert Fetch(store, root.cid) == Ok(root) && Fetch(store, leaf.cid) == Ok(leaf);
    UnsizedUnfolds(store, root, v, leaf, b);
    ReadingOrders(Node(None, [Raw(b)]));
    ReadingOrders(Node(None, []));
    UnsizedPieces(b);
  }

  lemma UnsizedUnfolds(store: Store, root: Block, v: Ipld, leaf: Block, b: Bytes)
    requires Fetch(store, root.cid) == Ok(root) && Fetch(store, leaf.cid) == Ok(leaf)
    requires root.cid.Codec() == DAG_CBOR && leaf.cid.Codec() == RAW && leaf.data == b
    requires FromDagCbor(store.pf, root.data) == Ok(v) && NodeData(v) == None
    requires Targets(LinkItems(v), false) == [leaf.cid] && Targets(LinkItems(v), true) == []
    ensures Unfolds(store, false, root.cid, Node(None, [Raw(b)]))
    ensures Unfolds(store, true, root.cid, Node(None, []))
  {
    hide FromDagCbor, NodeData, Targets, LinkItems;
    assert Unfolds(store, false, leaf.cid, Raw(b));
    assert NodeUnfolds(store, false, v, Node(None, [Raw(b)]));
    assert NodeUnfolds(store, true, v, Node(None, []));
  }

  lemma UnsizedDecodes(pf: Platform, leaf: Cid)
    ensures var v := UnsizedNode(leaf);
            FromDagCbor(pf, ToDagCbor(v)) == Ok(v) && NodeData(v) == None
            && Targets(LinkItems(v), false) == [leaf] && Targets(LinkItems(v), true) == []
  {
    hide FromDagCbor, ToDagCbor, ValidUtf8, Representable, IntegersFit;
    var v := UnsizedNode(leaf);
    assert KEY_CID != KEY_SIZE && KEY_LINKS != KEY_DATA by {
      assert |KEY_CID| != |KEY_SIZE| && |KEY_LINKS| != |KEY_DATA|;
    }
    AsciiIsUtf8(KEY_CID);
    AsciiIsUtf8(KEY_LINKS);
    var item := Map([Entry(KEY_CID, Link(leaf))]);
    LinkRepresentable(pf, leaf);
    SingletonRepresentable(pf, KEY_CID, Link(leaf));
    pf.ListFitsMeans(1);
    ListRepresentable(pf, [item]);
    SingletonRepresentable(pf, KEY_LINKS, List([item]));
    RoundTripIff(pf, v);
    OneEntryLookup(KEY_CID, Link(leaf), KEY_SIZE);
    OneEntryLookup(KEY_LINKS, List([item]), KEY_DATA);
    assert [item][1..] == [];
  }

  lemma LinkRepresentable(pf: Platform, cid: Cid)
    ensures Representable(pf, Link(cid)) && IntegersFit(Link(cid))
  {
  }

  lemma SingletonRepresentable(pf: Platform, k: Bytes, v: Ipld)
    requires ValidText(k) && Representable(pf, v) && IntegersFit(v)
    ensures Representable(pf, Map([Entry(k, v)])) && IntegersFit(Map([Entry(k, v)]))
  {
    hide ValidText;
    var es := [Entry(k, v)];
    assert Sorted(es) && EntriesRepresentable(pf, es) && EntriesFit(es);
  }

  lemma OneEntryLookup(k: Bytes, v: Ipld, q: Bytes)
    requires q != k
    ensures Lookup([Entry(k, v)], k) == Some(v) && Lookup([Entry(k, v)], q) == None
  {
    assert [Entry(k, v)][1..] == [];
  }

  lemma UnsizedPieces(b: Bytes)
    ensures Ordered(Pieces(Node(None, [Raw(b)]), 0))
    ensures Grouped(Pieces(Node(None, [Raw(b)]), 0), 0, Size(Node(None, [Raw(b)])) + 1) == b
    ensures Spell(Pieces(Node(None, []), 0)) == []
  {
    var ps := Pieces(Node(None, [Raw(b)]), 0);
    assert [Raw(b)][1..] == [];
    assert PiecesAll([Raw(b)], 1) == [Piece(1, b)] + PiecesAll([], 1);
    assert ps == [Piece(1, b)];
    OrderedIsSpelled(ps, Size(Node(None, [Raw(b)])) + 1);
    OnePiece(Piece(1, b), 1);
  }
}
