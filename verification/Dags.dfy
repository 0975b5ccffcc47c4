/**
 What a reader can see of a block store: the finite tree obtained by following
 links from a root, with missing and undecodable blocks as broken leaves.
 */
module Dags {
  import opened Basics
  import opened Cids
  import opened Blocks
  import opened IpldModel
  import opened DagCbor

  /** A link as the chunker writes it and the chunk stream keeps it. */
  datatype DagLink = DagLink(cid: Cid, size: nat, name: Option<Bytes>)

  datatype Dag =
    | Raw(bytes: Bytes)
    | Node(data: Option<Bytes>, kids: seq<Dag>)
    | Broken(error: Error)

  /** A block fetcher over a map, and the float conversions of the codec. */
  datatype Store = Store(pf: Platform, blocks: map<Cid, Block>)

  function Fetch(store: Store, cid: Cid): Result<Block> {
    if cid in store.blocks then Ok(store.blocks[cid]) else Err(BlockNotFound)
  }

  const KEY_CID: Bytes := [0x63, 0x69, 0x64]
  const KEY_DATA: Bytes := [0x64, 0x61, 0x74, 0x61]
  const KEY_LINKS: Bytes := [0x6C, 0x69, 0x6E, 0x6B, 0x73]
  const KEY_NAME: Bytes := [0x6E, 0x61, 0x6D, 0x65]
  const KEY_SIZE: Bytes := [0x73, 0x69, 0x7A, 0x65]
  const KEY_TOTAL_SIZE: Bytes := [0x74, 0x6F, 0x74, 0x61, 0x6C, 0x53, 0x69, 0x7A, 0x65]

  /** The node's own data, if its map has byte string `data`. */
  function NodeData(v: Ipld): Option<Bytes> {
    if !v.Map? then None
    else match Lookup(v.entries, KEY_DATA)
      case Some(Binary(b)) => Some(b)
      case _ => None
  }

  /** The list under `links`, empty if there is none. */
  function LinkItems(v: Ipld): seq<Ipld> {
    if !v.Map? then []
    else match Lookup(v.entries, KEY_LINKS)
      case Some(List(items)) => items
      case _ => []
  }

  /** The link an item of that list holds. The streaming reader also wants an integer `size`. */
  function LinkTarget(item: Ipld, sized: bool): Option<Cid> {
    if !item.Map? then None
    else match Lookup(item.entries, KEY_CID)
      case Some(Link(cid)) =>
        (match Lookup(item.entries, KEY_SIZE)
         case Some(Integer(_)) => Some(cid)
         case _ => if sized then None else Some(cid))
      case _ => None
  }

  function Targets(items: seq<Ipld>, sized: bool): seq<Cid> {
    if items == [] then []
    else match LinkTarget(items[0], sized)
      case None => Targets(items[1..], sized)
      case Some(cid) => [cid] + Targets(items[1..], sized)
  }

  /** `dag` is what following the links from `cid` gives; every finite acyclic store has one. */
  ghost predicate Unfolds(store: Store, sized: bool, cid: Cid, dag: Dag)
    decreases dag, 1
  {
    match Fetch(store, cid)
    case Err(e) => dag == Broken(e)
    case Ok(block) =>
      if block.cid.Codec() == RAW then dag == Raw(block.data)
      else match FromDagCbor(store.pf, block.data)
        case Err(e) => dag == Broken(e)
        case Ok(v) => NodeUnfolds(store, sized, v, dag)
  }

  ghost predicate NodeUnfolds(store: Store, sized: bool, v: Ipld, dag: Dag)
    decreases dag, 0
  {
    dag.Node? && dag.data == NodeData(v) && AllUnfold(store, sized, Targets(LinkItems(v), sized), dag.kids)
  }

  ghost predicate AllUnfold(store: Store, sized: bool, cids: seq<Cid>, dags: seq<Dag>)
    decreases dags, 0
  {
    |cids| == |dags| && forall i :: 0 <= i < |dags| ==> Unfolds(store, sized, cids[i], dags[i])
  }

  function Size(dag: Dag): nat {
    match dag
    case Node(_, kids) => 1 + SizeAll(kids)
    case _ => 1
  }

  function SizeAll(dags: seq<Dag>): nat {
    if dags == [] then 0 else Size(dags[0]) + SizeAll(dags[1..])
  }

  lemma SizeUncons(dags: seq<Dag>)
    requires dags != []
    ensures SizeAll(dags) == Size(dags[0]) + SizeAll(dags[1..])
    ensures dags[0].Node? ==> Size(dags[0]) == 1 + SizeAll(dags[0].kids)
    ensures Size(dags[0]) >= 1
  {
  }

  lemma {:induction false} SizeAllAppend(a: seq<Dag>, b: seq<Dag>)
    ensures SizeAll(a + b) == SizeAll(a) + SizeAll(b)
  {
    if a == [] {
      assert a + b == b;
    } else {
      assert (a + b)[1..] == a[1..] + b;
      SizeAllAppend(a[1..], b);
    }
  }

  lemma SizeAllSnoc(a: seq<Dag>, d: Dag)
    ensures SizeAll(a + [d]) == SizeAll(a) + Size(d)
  {
    SizeAllAppend(a, [d]);
    assert SizeAll([d]) == Size(d) + SizeAll([]);
  }

  /** The bytes under a DAG, left to right, a node's own data before its children's. */
  function Flatten(dag: Dag): Bytes {
    match dag
    case Raw(b) => b
    case Node(data, kids) => (if data.Some? then data.value else []) + FlattenAll(kids)
    case Broken(_) => []
  }

  function FlattenAll(dags: seq<Dag>): Bytes {
    if dags == [] then [] else Flatten(dags[0]) + FlattenAll(dags[1..])
  }

  lemma {:induction false} FlattenAppend(a: seq<Dag>, b: seq<Dag>)
    ensures FlattenAll(a + b) == FlattenAll(a) + FlattenAll(b)
  {
    if a == [] {
      assert a + b == b;
    } else {
      assert (a + b)[1..] == a[1..] + b;
      FlattenAppend(a[1..], b);
    }
  }

  /** All leaves are raw blocks exactly `h` links below, and inner nodes hold no data of their own. */
  predicate Uniform(dag: Dag, h: nat) {
    if h == 0 then dag.Raw?
    else dag.Node? && dag.data.None? && forall i :: 0 <= i < |dag.kids| ==> Uniform(dag.kids[i], h - 1)
  }

  predicate AllUniform(dags: seq<Dag>, h: nat) {
    forall i :: 0 <= i < |dags| ==> Uniform(dags[i], h)
  }

  /** Raw leaves under nodes without data of their own, at whatever depths. */
  predicate Bare(dag: Dag) {
    match dag
    case Raw(_) => true
    case Node(data, kids) => data.None? && forall i :: 0 <= i < |kids| ==> Bare(kids[i])
    case Broken(_) => false
  }

  lemma {:induction false} UniformIsBare(dag: Dag, h: nat)
    requires Uniform(dag, h)
    ensures Bare(dag)
    decreases h
  {
    if h > 0 {
      forall i | 0 <= i < |dag.kids| ensures Bare(dag.kids[i]) {
        UniformIsBare(dag.kids[i], h - 1);
      }
    }
  }

  /** No missing or undecodable block anywhere. */
  predicate Intact(dag: Dag) {
    match dag
    case Raw(_) => true
    case Node(_, kids) => forall i :: 0 <= i < |kids| ==> Intact(kids[i])
    case Broken(_) => false
  }

  // ------------------------------------------------ which stores unfold

  /** The links a reader follows out of a stored block. */
  function LinksOut(store: Store, sized: bool, cid: Cid): seq<Cid> {
    match Fetch(store, cid)
    case Err(_) => []
    case Ok(block) =>
      if block.cid.Codec() == RAW then []
      else match FromDagCbor(store.pf, block.data)
        case Err(_) => []
        case Ok(v) => Targets(LinkItems(v), sized)
  }

  /** Links lead to smaller ranks, so there are no cycles. */
  ghost predicate Ranked(store: Store, sized: bool, rank: Cid -> nat) {
    forall c, i :: 0 <= i < |LinksOut(store, sized, c)| ==> rank(LinksOut(store, sized, c)[i]) < rank(c)
  }

  /** In a store without cycles every identifier unfolds to a finite DAG. */
  lemma {:induction false} AcyclicUnfolds(store: Store, sized: bool, rank: Cid -> nat, cid: Cid) returns (dag: Dag)
    requires Ranked(store, sized, rank)
    ensures Unfolds(store, sized, cid, dag)
    decreases rank(cid), 1
  {
    hide FromDagCbor, Targets, LinkItems, NodeData;
    match Fetch(store, cid)
    case Err(e) => dag := Broken(e);
    case Ok(block) =>
      if block.cid.Codec() == RAW {
        dag := Raw(block.data);
      } else {
        match FromDagCbor(store.pf, block.data)
        case Err(e) => dag := Broken(e);
        case Ok(v) =>
          var links := Targets(LinkItems(v), sized);
          assert links == LinksOut(store, sized, cid);
          var kids := AcyclicUnfoldsAll(store, sized, rank, links, rank(cid));
          dag := Node(NodeData(v), kids);
      }
  }

  lemma {:induction false} AcyclicUnfoldsAll(store: Store, sized: bool, rank: Cid -> nat, cids: seq<Cid>, bound: nat)
    returns (dags: seq<Dag>)
    requires Ranked(store, sized, rank) && forall i :: 0 <= i < |cids| ==> rank(cids[i]) < bound
    ensures AllUnfold(store, sized, cids, dags)
    decreases bound, 0, |cids|
  {
    hide Unfolds, Ranked;
    if cids == [] {
      dags := [];
    } else {
      var first := AcyclicUnfolds(store, sized, rank, cids[0]);
      var rest := AcyclicUnfoldsAll(store, sized, rank, cids[1..], bound);
      dags := [first] + rest;
      forall i | 0 <= i < |dags| ensures Unfolds(store, sized, cids[i], dags[i]) {
        assert i > 0 ==> cids[i] == cids[1..][i - 1] && dags[i] == rest[i - 1];
      }
    }
  }

  /** And to only one. */
  lemma {:induction false} UnfoldingUnique(store: Store, sized: bool, cid: Cid, a: Dag, b: Dag)
    requires Unfolds(store, sized, cid, a) && Unfolds(store, sized, cid, b)
    ensures a == b
    decreases a
  {
    hide FromDagCbor, Targets, LinkItems, NodeData;
    if a.Node? && b.Node? {
      var block := Fetch(store, cid).value;
      var v := FromDagCbor(store.pf, block.data).value;
      var links := Targets(LinkItems(v), sized);
      assert NodeUnfolds(store, sized, v, a) && NodeUnfolds(store, sized, v, b);
      assert AllUnfold(store, sized, links, a.kids) && AllUnfold(store, sized, links, b.kids);
      forall i | 0 <= i < |a.kids| ensures a.kids[i] == b.kids[i] {
        UnfoldingUnique(store, sized, links[i], a.kids[i], b.kids[i]);
      }
      assert a.kids == b.kids;
    }
  }
}
