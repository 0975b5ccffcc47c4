/**
 The two readers of a chunked file: `read_chunked_file`, breadth-first with a
 queue, and `DagChunkStream::next_chunk`, depth-first with a deque of links.
 */
module Readers {
  import opened Basics
  import opened Cids
  import opened IpldModel
  import opened DagCbor
  import opened Dags

  type Inner = d: Dag | d.Node? witness Node(None, [])

  // ---------------------------------------------------------- breadth-first

  /** The queue loop of `read_chunked_file`, seen on the DAG. */
  function BfsRun(queue: seq<Inner>, out: Bytes): Result<Bytes>
    decreases SizeAll(queue), 0
  {
    if queue == [] then Ok(out)
    else
      var own := queue[0].data;
      SizeUncons(queue);
      Visit(queue[0].kids, queue[1..], out + if own.Some? then own.value else [])
  }

  /** Raw children are output at once, nodes join the queue, a broken link ends the read. */
  function Visit(kids: seq<Dag>, queue: seq<Inner>, out: Bytes): Result<Bytes>
    decreases SizeAll(queue) + SizeAll(kids), 1 + |kids|
  {
    if kids == [] then BfsRun(queue, out)
    else
      SizeUncons(kids);
      match kids[0]
      case Raw(b) => Visit(kids[1..], queue, out + b)
      case Node(_, _) =>
        SizeAllSnoc(queue, kids[0]);
        Visit(kids[1..], queue + [kids[0]], out)
      case Broken(e) => Err(e)
  }

  function ReadOf(dag: Dag): Result<Bytes> {
    match dag
    case Raw(b) => Ok(b)
    case Node(_, _) => BfsRun([dag], [])
    case Broken(e) => Err(e)
  }

  ghost predicate QueueUnfolds(store: Store, queue: seq<Ipld>, dags: seq<Inner>) {
    |queue| == |dags| && forall i :: 0 <= i < |queue| ==> NodeUnfolds(store, false, queue[i], dags[i])
  }

  lemma TargetsStep(items: seq<Ipld>, j: nat, sized: bool)
    requires j < |items|
    ensures var t := LinkTarget(items[j], sized);
            Targets(items[j..], sized) == (if t.Some? then [t.value] else []) + Targets(items[j + 1..], sized)
  {
    hide LinkTarget;
    assert items[j..][1..] == items[j + 1..];
  }

  /** `read_chunked_file`. The DAG below the root must be finite: `dag` is its unfolding. */
  method ReadChunkedFile(store: Store, root: Cid, ghost dag: Dag) returns (r: Result<Bytes>)
    requires Unfolds(store, false, root, dag)
    ensures r == ReadOf(dag)
  {
    hide NodeUnfolds, FromDagCbor;
    var rootBlock := Fetch(store, root);
    if rootBlock.Err? {
      return Err(rootBlock.error);
    }
    if rootBlock.value.cid.Codec() == RAW {
      return Ok(rootBlock.value.data);
    }
    var rootIpld := FromDagCbor(store.pf, rootBlock.value.data);
    if rootIpld.Err? {
      return Err(rootIpld.error);
    }
    NodeUnfoldsMeans(store, false, rootIpld.value, dag);
    var result: Bytes := [];
    var queue := [rootIpld.value];
    ghost var dags: seq<Inner> := [dag];
    while queue != []
      invariant QueueUnfolds(store, queue, dags)
      invariant BfsRun(dags, result) == ReadOf(dag)
      decreases SizeAll(dags)
    {
      var ipld := queue[0];
      ghost var node := dags[0];
      NodeUnfoldsMeans(store, false, ipld, node);
      SizeUncons(dags);
      queue, dags := queue[1..], dags[1..];
      var data := NodeData(ipld);
      if data.Some? {
        result := result + data.value;
      } else {
        assert result + [] == result;
      }
      var ok;
      ok, result, queue, dags := FollowLinks(store, LinkItems(ipld), queue, result, dags, node.kids, ReadOf(dag));
      if ok.Err? {
        return Err(ok.error);
      }
    }
    r := Ok(result);
  }

  lemma NodeUnfoldsMeans(store: Store, sized: bool, v: Ipld, dag: Dag)
    requires NodeUnfolds(store, sized, v, dag)
    ensures dag.Node? && dag.data == NodeData(v)
    ensures AllUnfold(store, sized, Targets(LinkItems(v), sized), dag.kids)
  {
  }

  /** The loop over one node's links. */
  method FollowLinks(store: Store, items: seq<Ipld>, queue0: seq<Ipld>, result0: Bytes,
                     ghost dags0: seq<Inner>, ghost kids: seq<Dag>, ghost goal: Result<Bytes>)
    returns (ok: Result<()>, result: Bytes, queue: seq<Ipld>, ghost dags: seq<Inner>)
    requires QueueUnfolds(store, queue0, dags0)
    requires AllUnfold(store, false, Targets(items, false), kids)
    requires Visit(kids, dags0, result0) == goal
    ensures ok.Ok? ==> QueueUnfolds(store, queue, dags) && BfsRun(dags, result) == goal
                       && SizeAll(dags) <= SizeAll(dags0) + SizeAll(kids)
    ensures ok.Err? ==> goal == Err(ok.error)
  {
    hide NodeUnfolds, FromDagCbor, LinkTarget, BfsRun;
    result, queue, dags := result0, queue0, dags0;
    ghost var left := kids;
    assert items[0..] == items;
    for j := 0 to |items|
      invariant QueueUnfolds(store, queue, dags)
      invariant AllUnfold(store, false, Targets(items[j..], false), left)
      invariant Visit(left, dags, result) == goal
      invariant SizeAll(dags) + SizeAll(left) <= SizeAll(dags0) + SizeAll(kids)
    {
      TargetsStep(items, j, false);
      var cid := LinkTarget(items[j], false);
      if cid.Some? {
        assert Unfolds(store, false, cid.value, left[0]);
        var block := Fetch(store, cid.value);
        if block.Err? {
          return Err(block.error), result, queue, dags;
        }
        if block.value.cid.Codec() == RAW {
          result := result + block.value.data;
        } else {
          var child := FromDagCbor(store.pf, block.value.data);
          if child.Err? {
            return Err(child.error), result, queue, dags;
          }
          NodeUnfoldsMeans(store, false, child.value, left[0]);
          SizeAllSnoc(dags, left[0]);
          queue, dags := queue + [child.value], dags + [left[0]];
        }
        AllUnfoldTail(store, false, Targets(items[j..], false), left);
        SizeUncons(left);
        left := left[1..];
      } else {
        assert Targets(items[j..], false) == Targets(items[j + 1..], false);
      }
    }
    ok := Ok(());
  }

  lemma AllUnfoldTail(store: Store, sized: bool, cids: seq<Cid>, dags: seq<Dag>)
    requires AllUnfold(store, sized, cids, dags) && dags != []
    ensures AllUnfold(store, sized, cids[1..], dags[1..])
  {
    hide Unfolds;
    forall i | 0 <= i < |dags[1..]| ensures Unfolds(store, sized, cids[1..][i], dags[1..][i]) {
      assert Unfolds(store, sized, cids[i + 1], dags[i + 1]);
    }
  }

  // ------------------------------------------- breadth-first on even depths

  lemma {:induction false} VisitRaw(kids: seq<Dag>, queue: seq<Inner>, out: Bytes)
    requires AllUniform(kids, 0)
    ensures Visit(kids, queue, out) == BfsRun(queue, out + FlattenAll(kids))
  {
    hide BfsRun;
    if kids == [] {
      assert out + FlattenAll(kids) == out;
    } else {
      assert kids[0].Raw?;
      VisitRaw(kids[1..], queue, out + kids[0].bytes);
      assert out + kids[0].bytes + FlattenAll(kids[1..]) == out + FlattenAll(kids);
    }
  }

  lemma {:induction false} VisitNodes(kids: seq<Inner>, queue: seq<Inner>, out: Bytes)
    ensures Visit(kids, queue, out) == BfsRun(queue + kids, out)
  {
    hide BfsRun;
    if kids == [] {
      assert queue + kids == queue;
    } else {
      VisitNodes(kids[1..], queue + [kids[0]], out);
      assert queue + [kids[0]] + kids[1..] == queue + kids;
    }
  }

  /**
   A queue of nodes of one level followed by nodes of the next: the read
   continues with the bytes of the second group, then of the first.
   */
  lemma {:induction false} BfsTwoLevels(a: seq<Inner>, b: seq<Inner>, h: nat, out: Bytes)
    requires h > 0 && AllUniform(a, h) && AllUniform(b, h - 1) && (h == 1 ==> b == [])
    ensures BfsRun(a + b, out) == Ok(out + FlattenAll(b) + FlattenAll(a))
    decreases SizeAll(a) + SizeAll(b), h
  {
    hide Visit, FlattenAll, Uniform, SizeAll, Size;
    FlattenNothing();
    if a == [] {
      assert a + b == b;
      assert out + FlattenAll(b) + FlattenAll(a) == out + FlattenAll(b);
      if b == [] {
        assert out + FlattenAll(b) == out;
      } else {
        NoSize();
        BfsTwoLevels(b, [], h - 1, out);
        assert b + [] == b;
        assert out + FlattenAll([]) + FlattenAll(b) == out + FlattenAll(b);
      }
    } else {
      var kids, rest := a[0].kids, a[1..] + b;
      SizeUncons(a);
      UniformKids(a[0], h);
      assert (a + b)[1..] == rest && out + [] == out;
      assert BfsRun(a + b, out) == Visit(kids, rest, out);
      if h == 1 {
        VisitRaw(kids, rest, out);
        BfsTwoLevels(a[1..], b, h, out + FlattenAll(kids));
      } else {
        KidsAreInner(kids, h - 1);
        VisitNodes(kids, rest, out);
        assert rest + kids == a[1..] + (b + kids);
        SizeAllAppend(b, kids);
        BfsTwoLevels(a[1..], b + kids, h, out);
        FlattenAppend(b, kids);
      }
      FlattenUncons(a, h);
      Regroup(out, FlattenAll(b), FlattenAll(kids), FlattenAll(a[1..]));
    }
  }

  lemma UniformKids(dag: Dag, h: nat)
    requires h > 0 && Uniform(dag, h)
    ensures dag.Node? && dag.data.None? && AllUniform(dag.kids, h - 1)
  {
  }

  lemma NoSize()
    ensures SizeAll([]) == 0
  {
  }

  lemma FlattenNothing()
    ensures FlattenAll([]) == []
  {
  }

  lemma KidsAreInner(kids: seq<Dag>, h: nat)
    requires h > 0 && AllUniform(kids, h)
    ensures forall i :: 0 <= i < |kids| ==> kids[i].Node?
  {
    forall i | 0 <= i < |kids| ensures kids[i].Node? {
      assert Uniform(kids[i], h);
    }
  }

  lemma FlattenUncons(a: seq<Dag>, h: nat)
    requires a != [] && h > 0 && Uniform(a[0], h)
    ensures FlattenAll(a) == FlattenAll(a[0].kids) + FlattenAll(a[1..])
  {
    assert Flatten(a[0]) == FlattenAll(a[0].kids);
  }

  lemma Regroup(out: Bytes, b: Bytes, k: Bytes, t: Bytes)
    ensures out + (b + k) + t == out + b + (k + t)
    ensures b == [] ==> (out + k) + b + t == out + b + (k + t)
  {
  }

  /** Breadth-first reading of a DAG whose leaves all lie at one depth gives the leaves left to right. */
  lemma BfsReadsUniform(dag: Dag, h: nat)
    requires Uniform(dag, h)
    ensures ReadOf(dag) == Ok(Flatten(dag))
  {
    if h > 0 {
      BfsTwoLevels([dag], [], h, []);
      assert [dag] + [] == [dag];
      assert [] + FlattenAll([]) + FlattenAll([dag]) == Flatten(dag);
    }
  }

  // ------------------------------------------------------------ depth-first

  /** `next_chunk` on the pending sub-DAGs: the chunk it returns and what stays pending. */
  function Next(pending: seq<Dag>): (r: (Option<Result<Bytes>>, seq<Dag>))
    ensures r.0.Some? ==> SizeAll(r.1) < SizeAll(pending)
    ensures r.0.None? ==> r.1 == []
    decreases SizeAll(pending)
  {
    if pending == [] then (None, [])
    else
      SizeUncons(pending);
      match pending[0]
      case Raw(b) => (Some(Ok(b)), pending[1..])
      case Broken(e) => (Some(Err(e)), pending[1..])
      case Node(data, kids) =>
        SizeAllAppend(kids, pending[1..]);
        if data.Some? then (Some(Ok(data.value)), kids + pending[1..])
        else Next(kids + pending[1..])
  }

  function CidsOf(links: seq<DagLink>): (r: seq<Cid>)
    ensures |r| == |links|
  {
    if links == [] then [] else [links[0].cid] + CidsOf(links[1..])
  }

  lemma {:induction false} CidsOfAppend(a: seq<DagLink>, b: seq<DagLink>)
    ensures CidsOf(a + b) == CidsOf(a) + CidsOf(b)
  {
    if a == [] {
      assert a + b == b;
    } else {
      assert (a + b)[1..] == a[1..] + b;
      CidsOfAppend(a[1..], b);
    }
  }

  lemma AllUnfoldAppend(store: Store, sized: bool, a: seq<Cid>, x: seq<Dag>, b: seq<Cid>, y: seq<Dag>)
    requires AllUnfold(store, sized, a, x) && AllUnfold(store, sized, b, y)
    ensures AllUnfold(store, sized, a + b, x + y)
  {
    hide Unfolds;
    forall i | 0 <= i < |x + y| ensures Unfolds(store, sized, (a + b)[i], (x + y)[i]) {
      if i < |x| {
        assert Unfolds(store, sized, a[i], x[i]);
      } else {
        assert Unfolds(store, sized, b[i - |x|], y[i - |x|]);
      }
    }
  }

  lemma LinkTargetSized(item: Ipld)
    requires LinkTarget(item, true).Some?
    ensures item.Map? && Lookup(item.entries, KEY_SIZE).Some? && Lookup(item.entries, KEY_SIZE).value.Integer?
  {
  }

  /** The links in a node's list, with `*size as u64`. */
  function SizedLinks(items: seq<Ipld>): seq<DagLink> {
    if items == [] then []
    else match LinkTarget(items[0], true)
      case None => SizedLinks(items[1..])
      case Some(cid) =>
        LinkTargetSized(items[0]);
        [DagLink(cid, Lookup(items[0].entries, KEY_SIZE).value.i % TWO_64, None)] + SizedLinks(items[1..])
  }

  lemma {:induction false} SizedLinksTarget(items: seq<Ipld>)
    ensures CidsOf(SizedLinks(items)) == Targets(items, true)
  {
    hide LinkTarget, Lookup;
    if items != [] {
      SizedLinksTarget(items[1..]);
    }
  }

  class DagChunkStream {
    const store: Store
    var pendingLinks: seq<DagLink>
    ghost var forest: seq<Dag>

    /** The pending links unfold to `forest`; in particular what is left to read is finite. */
    ghost predicate Valid()
      reads this
    {
      AllUnfold(store, true, CidsOf(pendingLinks), forest)
    }

    constructor (store: Store, links: seq<DagLink>, ghost dags: seq<Dag>)
      requires AllUnfold(store, true, CidsOf(links), dags)
      ensures Valid() && this.store == store && pendingLinks == links && forest == dags
    {
      this.store := store;
      pendingLinks := links;
      forest := dags;
    }

    /** The links of a decoded node that the stream follows, in order, sizes cut to 64 bits. */
    method NewLinks(items: seq<Ipld>) returns (links: seq<DagLink>)
      ensures links == SizedLinks(items) && CidsOf(links) == Targets(items, true)
    {
      hide LinkTarget, CidsOf, Lookup;
      links := [];
      assert items[0..] == items;
      for j := 0 to |items|
        invariant links + SizedLinks(items[j..]) == SizedLinks(items)
      {
        assert items[j..][1..] == items[j + 1..];
        var cid := LinkTarget(items[j], true);
        if cid.Some? {
          LinkTargetSized(items[j]);
          var size := Lookup(items[j].entries, KEY_SIZE).value.i;
          links := links + [DagLink(cid.value, size % TWO_64, None)];
        }
      }
      assert items[|items|..] == [];
      assert links + [] == links;
      SizedLinksTarget(items);
    }

    /** `next_chunk`. */
    method NextChunk() returns (r: Option<Result<Bytes>>)
      requires Valid()
      modifies this
      ensures Valid()
      ensures (r, forest) == Next(old(forest))
    {
      hide FromDagCbor, NodeUnfolds;
      while true
        invariant Valid()
        invariant Next(forest) == Next(old(forest))
        decreases SizeAll(forest)
      {
        if pendingLinks == [] {
          return None;
        }
        var link := pendingLinks[0];
        ghost var dag := forest[0];
        SizeUncons(forest);
        assert Unfolds(store, true, link.cid, dag);
        AllUnfoldTail(store, true, CidsOf(pendingLinks), forest);
        assert CidsOf(pendingLinks)[1..] == CidsOf(pendingLinks[1..]);
        ghost var others := forest[1..];
        pendingLinks := pendingLinks[1..];
        var block := Fetch(store, link.cid);
        if block.Err? {
          forest := others;
          return Some(Err(block.error));
        }
        if block.value.cid.Codec() == RAW {
          forest := others;
          return Some(Ok(block.value.data));
        }
        var ipld := FromDagCbor(store.pf, block.value.data);
        if ipld.Err? {
          forest := others;
          return Some(Err(ipld.error));
        }
        NodeUnfoldsMeans(store, true, ipld.value, dag);
        var newLinks := NewLinks(LinkItems(ipld.value));
        CidsOfAppend(newLinks, pendingLinks);
        AllUnfoldAppend(store, true, CidsOf(newLinks), dag.kids, CidsOf(pendingLinks), others);
        SizeAllAppend(dag.kids, others);
        pendingLinks := newLinks + pendingLinks;
        forest := dag.kids + others;
        var data := NodeData(ipld.value);
        if data.Some? {
          return Some(Ok(data.value));
        }
      }
    }
  }

  lemma OneLink(store: Store, link: DagLink, dag: Dag)
    requires Unfolds(store, true, link.cid, dag)
    ensures AllUnfold(store, true, CidsOf([link]), [dag])
  {
    assert CidsOf([link]) == [link.cid];
  }

  /** Concatenation of successive chunks until the stream ends or fails. */
  function Drain(pending: seq<Dag>): Result<Bytes>
    decreases SizeAll(pending)
  {
    match Next(pending)
    case (None, _) => Ok([])
    case (Some(Err(e)), _) => Err(e)
    case (Some(Ok(b)), rest) =>
      Onto(b, Drain(rest))
  }

  /** Call `next_chunk` until it returns `None` or an error, as its users do. */
  method DrainStream(stream: DagChunkStream) returns (r: Result<Bytes>)
    requires stream.Valid()
    modifies stream
    ensures r == Drain(old(stream.forest))
  {
    hide Next;
    var bytes: Bytes := [];
    ghost var goal := Drain(stream.forest);
    assert goal.Ok? ==> [] + goal.value == goal.value;
    while true
      invariant stream.Valid()
      invariant Onto(bytes, Drain(stream.forest)) == goal
      decreases SizeAll(stream.forest)
    {
      ghost var pending := stream.forest;
      NextShrinks(pending);
      var chunk := stream.NextChunk();
      if chunk.None? {
        assert bytes + [] == bytes;
        return Ok(bytes);
      }
      if chunk.value.Err? {
        return Err(chunk.value.error);
      }
      OntoStep(bytes, chunk.value.value, Drain(stream.forest));
      bytes := bytes + chunk.value.value;
    }
  }

  /** What was read so far, in front of what is still to come. */
  function Onto(bytes: Bytes, more: Result<Bytes>): Result<Bytes> {
    if more.Ok? then Ok(bytes + more.value) else more
  }

  lemma OntoStep(bytes: Bytes, chunk: Bytes, more: Result<Bytes>)
    ensures Onto(bytes, Onto(chunk, more)) == Onto(bytes + chunk, more)
  {
    if more.Ok? {
      assert bytes + (chunk + more.value) == bytes + chunk + more.value;
    }
  }

  predicate AllIntact(dags: seq<Dag>) {
    forall i :: 0 <= i < |dags| ==> Intact(dags[i])
  }

  ghost predicate Splits(pending: seq<Dag>, chunk: Option<Result<Bytes>>, rest: seq<Dag>) {
    AllIntact(rest)
    && (chunk.None? ==> FlattenAll(pending) == [])
    && (chunk.Some? ==> chunk.value.Ok? && FlattenAll(pending) == chunk.value.value + FlattenAll(rest))
  }

  /** What `next_chunk` returns and leaves is the flattened forest, cut in two. */
  lemma {:induction false} NextSplits(pending: seq<Dag>)
    requires AllIntact(pending)
    ensures Splits(pending, Next(pending).0, Next(pending).1)
    decreases SizeAll(pending)
  {
    hide FlattenAll, SizeAll, Size;
    FlattenNothing();
    if pending != [] {
      SizeUncons(pending);
      FirstFlattened(pending);
      assert Intact(pending[0]);
      if pending[0].Node? {
        var kids, others := pending[0].kids, pending[1..];
        SizeAllAppend(kids, others);
        FlattenAppend(kids, others);
        IntactSplit(kids, others);
        if pending[0].data.None? {
          NextSplits(kids + others);
        }
      }
    }
  }

  lemma FirstFlattened(dags: seq<Dag>)
    requires dags != []
    ensures dags[0].Raw? ==> FlattenAll(dags) == dags[0].bytes + FlattenAll(dags[1..])
    ensures dags[0].Node? ==>
              var own := if dags[0].data.Some? then dags[0].data.value else [];
              FlattenAll(dags) == own + (FlattenAll(dags[0].kids) + FlattenAll(dags[1..]))
    ensures dags[0].Node? && dags[0].data.None? ==> FlattenAll(dags) == FlattenAll(dags[0].kids) + FlattenAll(dags[1..])
  {
    assert FlattenAll(dags) == Flatten(dags[0]) + FlattenAll(dags[1..]);
  }

  lemma IntactSplit(a: seq<Dag>, b: seq<Dag>)
    requires AllIntact(a) && AllIntact(b)
    ensures AllIntact(a + b)
  {
    hide Intact;
  }

  /** On every intact DAG, draining the stream gives the data in depth-first order. */
  lemma {:induction false} DrainIsFlatten(pending: seq<Dag>)
    requires AllIntact(pending)
    ensures Drain(pending) == Ok(FlattenAll(pending))
    decreases SizeAll(pending)
  {
    hide Next, FlattenAll, AllIntact;
    FlattenNothing();
    NextSplits(pending);
    var (chunk, rest) := Next(pending);
    if chunk.Some? {
      NextShrinks(pending);
      DrainIsFlatten(rest);
    }
  }

  lemma NextShrinks(pending: seq<Dag>)
    ensures Next(pending).0.Some? ==> SizeAll(Next(pending).1) < SizeAll(pending)
  {
  }

  lemma {:induction false} UniformIsIntact(dag: Dag, h: nat)
    requires Uniform(dag, h)
    ensures Intact(dag)
    decreases h
  {
    if h > 0 {
      forall i | 0 <= i < |dag.kids| ensures Intact(dag.kids[i]) {
        UniformIsIntact(dag.kids[i], h - 1);
      }
    }
  }

  /** The two readers agree on every DAG whose leaves all lie at one depth. */
  lemma ReadersAgree(dag: Dag, h: nat)
    requires Uniform(dag, h)
    ensures ReadOf(dag) == Drain([dag])
  {
    BfsReadsUniform(dag, h);
    UniformIsIntact(dag, h);
    DrainIsFlatten([dag]);
    assert FlattenAll([dag]) == Flatten(dag);
  }

  /** They need not agree otherwise: a node beside a raw leaf is read after that leaf. */
  lemma UnevenDepth(a: Bytes, b: Bytes)
    ensures var dag := Node(None, [Node(None, [Raw(a)]), Raw(b)]);
            ReadOf(dag) == Ok(b + a) && Drain([dag]) == Ok(a + b)
  {
    var inner := Node(None, [Raw(a)]);
    var dag := Node(None, [inner, Raw(b)]);
    UnevenBreadthFirst(a, b, inner, dag);
    UnevenDepthFirst(a, b, inner, dag);
  }

  lemma UnevenBreadthFirst(a: Bytes, b: Bytes, inner: Dag, dag: Dag)
    requires inner == Node(None, [Raw(a)]) && dag == Node(None, [inner, Raw(b)])
    ensures ReadOf(dag) == Ok(b + a)
  {
    hide Visit, FlattenAll;
    OneRaw(a);
    OneRaw(b);
    var none: Bytes := [];
    assert none + none == none;
    assert [dag][1..] == [] && [inner][1..] == [];
    assert BfsRun([dag], none) == Visit(dag.kids, [], none);
    VisitOne(dag.kids, [], none);
    assert dag.kids[1..] == [Raw(b)] && [] + [inner] == [inner];
    VisitRaw([Raw(b)], [inner], none);
    assert none + b == b && b + none == b;
    assert BfsRun([inner], b) == Visit(inner.kids, [], b);
    VisitRaw([Raw(a)], [], b);
    assert BfsRun([], b + a) == Ok(b + a);
    assert ReadOf(dag) == BfsRun([dag], []);
  }

  lemma OneRaw(b: Bytes)
    ensures FlattenAll([Raw(b)]) == b
  {
    assert FlattenAll([Raw(b)]) == b + FlattenAll([]);
  }

  lemma VisitOne(kids: seq<Dag>, queue: seq<Inner>, out: Bytes)
    requires kids != [] && kids[0].Node?
    ensures Visit(kids, queue, out) == Visit(kids[1..], queue + [kids[0]], out)
  {
  }

  lemma UnevenDepthFirst(a: Bytes, b: Bytes, inner: Dag, dag: Dag)
    requires inner == Node(None, [Raw(a)]) && dag == Node(None, [inner, Raw(b)])
    ensures Drain([dag]) == Ok(a + b)
  {
    hide Drain;
    assert Intact(inner);
    assert Intact(dag);
    DrainIsFlatten([dag]);
    OneRaw(a);
    OneRaw(b);
    assert Flatten(inner) == [] + a;
    assert [inner, Raw(b)][1..] == [Raw(b)];
    assert FlattenAll([inner, Raw(b)]) == Flatten(inner) + b;
    assert FlattenAll([dag]) == Flatten(dag) + FlattenAll([]);
    assert Flatten(dag) == [] + FlattenAll([inner, Raw(b)]);
    assert FlattenAll([dag]) == a + b;
  }
}
