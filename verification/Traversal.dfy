/**
 Traversals of an IPLD tree: breadth-first with a queue, depth-first, link
 collection, per-level counts, and the paths to a CID.
 */
module Traversal {
  import opened Basics
  import opened Cids
  import opened IpldModel

  function Values(es: seq<Entry>): (r: seq<Ipld>)
    ensures |r| == |es|
    ensures forall i :: 0 <= i < |r| ==> r[i] == es[i].value
  {
    seq(|es|, i requires 0 <= i < |es| => es[i].value)
  }

  /** List items or map values, in order. */
  function Children(v: Ipld): seq<Ipld> {
    match v
    case List(items) => items
    case Map(es) => Values(es)
    case _ => []
  }

  function Size(v: Ipld): nat {
    match v
    case List(items) => 1 + SizeItems(items)
    case Map(es) => 1 + SizeEntries(es)
    case _ => 1
  }

  function SizeItems(items: seq<Ipld>): nat {
    if items == [] then 0 else Size(items[0]) + SizeItems(items[1..])
  }

  function SizeEntries(es: seq<Entry>): nat {
    if es == [] then 0 else Size(es[0].value) + SizeEntries(es[1..])
  }

  lemma {:induction false} SizeOfValues(es: seq<Entry>)
    ensures SizeItems(Values(es)) == SizeEntries(es)
  {
    hide Size;
    if es != [] {
      SizeOfValues(es[1..]);
      assert Values(es)[1..] == Values(es[1..]);
    }
  }

  lemma SizeOfChildren(v: Ipld)
    ensures Size(v) == 1 + SizeItems(Children(v))
  {
    hide SizeItems, SizeEntries;
    if v.Map? {
      SizeOfValues(v.entries);
    } else if !v.List? {
      assert SizeItems([]) == 0 by { NoSize(); }
    }
  }

  lemma NoSize()
    ensures SizeItems([]) == 0
  {
  }

  lemma SizeUncons(items: seq<Ipld>)
    requires items != []
    ensures SizeItems(items) == 1 + SizeItems(Children(items[0])) + SizeItems(items[1..])
  {
    SizeOfChildren(items[0]);
    hide Children, Size;
  }

  lemma {:induction false} SizeAppend(a: seq<Ipld>, b: seq<Ipld>)
    ensures SizeItems(a + b) == SizeItems(a) + SizeItems(b)
  {
    hide Size;
    if a == [] {
      assert a + b == b;
    } else {
      assert (a + b)[1..] == a[1..] + b;
      SizeAppend(a[1..], b);
    }
  }

  // -------------------------------------------------------------- orderings

  /** `traverse_dfs`: each node before what is below it, left to right. */
  function Preorder(v: Ipld): seq<Ipld>
    decreases Size(v), 0
  {
    SizeOfChildren(v);
    [v] + PreorderAll(Children(v))
  }

  function PreorderAll(items: seq<Ipld>): seq<Ipld>
    decreases SizeItems(items), 1
  {
    if items == [] then []
    else
      SizeUncons(items);
      SizeOfChildren(items[0]);
      Preorder(items[0]) + PreorderAll(items[1..])
  }

  lemma {:induction false} PreorderSnoc(items: seq<Ipld>, i: nat)
    requires i < |items|
    ensures PreorderAll(items[..i + 1]) == PreorderAll(items[..i]) + Preorder(items[i])
  {
    hide Preorder;
    assert items[..i + 1] == items[..i] + [items[i]];
    PreorderAppend(items[..i], [items[i]]);
    assert PreorderAll([items[i]]) == Preorder(items[i]) + PreorderAll([]);
  }

  /** `traverse_dfs_recursive`. */
  method TraverseDfs(node: Ipld, acc: seq<Ipld>) returns (result: seq<Ipld>)
    ensures result == acc + Preorder(node)
    decreases Size(node)
  {
    hide Children, PreorderAll;
    result := acc + [node];
    var kids := Children(node);
    SizeOfChildren(node);
    NoPreorder();
    for i := 0 to |kids|
      invariant result == acc + [node] + PreorderAll(kids[..i])
    {
      SizeOfPart(kids, i);
      PreorderSnoc(kids, i);
      result := TraverseDfs(kids[i], result);
    }
    assert kids[..|kids|] == kids;
  }

  /** All children of a row of nodes. */
  function Below(items: seq<Ipld>): seq<Ipld> {
    if items == [] then [] else Children(items[0]) + Below(items[1..])
  }

  lemma {:induction false} BelowAppend(a: seq<Ipld>, b: seq<Ipld>)
    ensures Below(a + b) == Below(a) + Below(b)
  {
    hide Children;
    if a == [] {
      assert a + b == b;
    } else {
      assert (a + b)[1..] == a[1..] + b;
      BelowAppend(a[1..], b);
    }
  }

  lemma {:induction false} BelowShrinks(items: seq<Ipld>)
    ensures SizeItems(Below(items)) + |items| == SizeItems(items)
  {
    hide Children, Size;
    if items != [] {
      BelowShrinks(items[1..]);
      SizeAppend(Children(items[0]), Below(items[1..]));
      SizeUncons(items);
    }
  }

  /** The rows of a forest, top first. */
  function Rows(items: seq<Ipld>): (r: seq<seq<Ipld>>)
    decreases SizeItems(items)
  {
    if items == [] then []
    else
      BelowShrinks(items);
      [items] + Rows(Below(items))
  }

  /** The nodes at depth `d`, left to right. */
  function NodesAt(items: seq<Ipld>, d: nat): seq<Ipld>
    decreases d
  {
    if d == 0 then items else NodesAt(Below(items), d - 1)
  }

  lemma {:induction false} RowsAre(items: seq<Ipld>, d: nat)
    ensures d < |Rows(items)| ==> Rows(items)[d] == NodesAt(items, d) && NodesAt(items, d) != []
    ensures d >= |Rows(items)| ==> NodesAt(items, d) == []
    decreases d
  {
    hide Below;
    if items == [] {
      NothingBelow(d);
    } else if d > 0 {
      RowsAre(Below(items), d - 1);
    }
  }

  lemma {:induction false} NothingBelow(d: nat)
    ensures NodesAt([], d) == []
    decreases d
  {
    if d > 0 {
      assert Below([]) == [];
      NothingBelow(d - 1);
    }
  }

  /** The queue loop. */
  function Bfs(queue: seq<Ipld>): seq<Ipld>
    decreases SizeItems(queue)
  {
    if queue == [] then []
    else
      SizeUncons(queue);
      SizeAppend(queue[1..], Children(queue[0]));
      [queue[0]] + Bfs(queue[1..] + Children(queue[0]))
  }

  /** `traverse_bfs`. */
  method TraverseBfs(root: Ipld) returns (result: seq<Ipld>)
    ensures result == Concat(Rows([root]))
  {
    hide Children;
    result := [];
    var queue := [root];
    assert [] + Bfs([root]) == Bfs([root]);
    while queue != []
      invariant result + Bfs(queue) == Bfs([root])
      decreases SizeItems(queue)
    {
      var node := queue[0];
      SizeUncons(queue);
      SizeAppend(queue[1..], Children(node));
      result := result + [node];
      queue := queue[1..] + Children(node);
    }
    BfsIsRows([root], []);
    assert [root] + [] == [root];
    RowsUncons([root]);
    assert [] + Below([root]) == Below([root]);
  }

  lemma RowsUncons(items: seq<Ipld>)
    requires items != []
    ensures Concat(Rows(items)) == items + Concat(Rows(Below(items)))
  {
    hide Below;
  }

  lemma BfsUnfold(queue: seq<Ipld>)
    ensures queue == [] ==> Bfs(queue) == []
    ensures queue != [] ==> Bfs(queue) == [queue[0]] + Bfs(queue[1..] + Children(queue[0]))
  {
    hide Children;
  }

  lemma BelowUncons(a: seq<Ipld>)
    ensures a == [] ==> Below(a) == []
    ensures a != [] ==> Below(a) == Children(a[0]) + Below(a[1..])
  {
    hide Children;
  }

  /** A queue of the rest `a` of one row followed by what was below its beginning. */
  lemma {:induction false} BfsIsRows(a: seq<Ipld>, b: seq<Ipld>)
    ensures Bfs(a + b) == a + Concat(Rows(b + Below(a)))
    decreases SizeItems(a) + SizeItems(b), |b|
  {
    hide Children, Rows, Size, SizeItems, Bfs, Below, Concat;
    BfsUnfold(a + b);
    BelowUncons(a);
    if a == [] {
      assert a + b == b && b + [] == b;
      NoRows();
      NoSize();
      if b != [] {
        BfsIsRows(b, []);
        assert [] + Below(b) == Below(b);
        RowsUncons(b);
      }
    } else {
      var kids, rest := Children(a[0]), a[1..];
      assert (a + b)[0] == a[0] && (a + b)[1..] + kids == rest + (b + kids);
      SizeUncons(a);
      SizeAppend(b, kids);
      BfsIsRows(rest, b + kids);
      assert b + kids + Below(rest) == b + (kids + Below(rest));
    }
  }

  lemma NoRows()
    ensures Concat(Rows([])) == []
  {
  }

  lemma {:induction false} PreorderByRow(items: seq<Ipld>)
    ensures multiset(PreorderAll(items)) == multiset(items) + multiset(PreorderAll(Below(items)))
  {
    hide Children;
    if items != [] {
      hide Preorder, PreorderAll, Below;
      var kids, rest := Children(items[0]), items[1..];
      PreorderByRow(rest);
      PreorderAppend(kids, Below(rest));
      BelowUncons(items);
      PreorderUncons(items);
      assert items == [items[0]] + rest;
    }
  }

  lemma PreorderUncons(items: seq<Ipld>)
    requires items != []
    ensures PreorderAll(items) == [items[0]] + PreorderAll(Children(items[0])) + PreorderAll(items[1..])
  {
    hide Children;
  }

  lemma {:induction false} PreorderAppend(a: seq<Ipld>, b: seq<Ipld>)
    ensures PreorderAll(a + b) == PreorderAll(a) + PreorderAll(b)
  {
    hide Preorder;
    if a == [] {
      assert a + b == b;
    } else {
      assert (a + b)[1..] == a[1..] + b;
      PreorderAppend(a[1..], b);
    }
  }

  /** Row by row and depth-first visit the same nodes, equally often. */
  lemma {:induction false} RowsPermutePreorder(items: seq<Ipld>)
    ensures multiset(Concat(Rows(items))) == multiset(PreorderAll(items))
    decreases SizeItems(items)
  {
    hide Below;
    if items != [] {
      BelowShrinks(items);
      RowsPermutePreorder(Below(items));
      RowsUncons(items);
      PreorderByRow(items);
    }
  }

  /** The breadth-first order is the rows by depth, and a permutation of the depth-first order. */
  lemma BfsPermutesDfs(root: Ipld)
    ensures multiset(Concat(Rows([root]))) == multiset(Preorder(root))
    ensures forall d :: 0 <= d < |Rows([root])| ==> Rows([root])[d] == NodesAt([root], d) != []
    ensures forall d :: d >= |Rows([root])| ==> NodesAt([root], d) == []
  {
    hide Rows, NodesAt;
    RowsPermutePreorder([root]);
    assert PreorderAll([root]) == Preorder(root) + PreorderAll([]);
    forall d: nat ensures d < |Rows([root])| ==> Rows([root])[d] == NodesAt([root], d) && NodesAt([root], d) != []
                  ensures d >= |Rows([root])| ==> NodesAt([root], d) == []
    {
      RowsAre([root], d);
    }
  }

  // ----------------------------------------------------------------- links

  /** `collect_all_links`. */
  function LinksIn(v: Ipld): seq<Cid>
    decreases Size(v), 0
  {
    SizeOfChildren(v);
    if v.Link? then [v.cid] else LinksInAll(Children(v))
  }

  function LinksInAll(items: seq<Ipld>): seq<Cid>
    decreases SizeItems(items), 1
  {
    if items == [] then []
    else
      SizeUncons(items);
      SizeOfChildren(items[0]);
      LinksIn(items[0]) + LinksInAll(items[1..])
  }

  lemma {:induction false} LinksSnoc(items: seq<Ipld>, i: nat)
    requires i < |items|
    ensures LinksInAll(items[..i + 1]) == LinksInAll(items[..i]) + LinksIn(items[i])
    decreases i
  {
    hide LinksIn;
    if i == 0 {
      assert items[..1] == [items[0]];
      assert LinksInAll([items[0]]) == LinksIn(items[0]) + LinksInAll([]);
    } else {
      assert items[..i + 1][1..] == items[1..][..i] && items[..i][1..] == items[1..][..i - 1];
      LinksSnoc(items[1..], i - 1);
    }
  }

  /** `extract_links_recursive`, recursive mode. */
  method CollectAllLinks(v: Ipld, acc: seq<Cid>) returns (links: seq<Cid>)
    ensures links == acc + LinksIn(v)
    decreases Size(v)
  {
    hide Children, LinksInAll;
    links := acc;
    if v.Link? {
      links := links + [v.cid];
    } else {
      var kids := Children(v);
      SizeOfChildren(v);
      assert LinksInAll([]) == [] by { NoLinks(); }
      for i := 0 to |kids|
        invariant links == acc + LinksInAll(kids[..i])
      {
        SizeOfPart(kids, i);
        LinksSnoc(kids, i);
        links := CollectAllLinks(kids[i], links);
      }
      assert kids[..|kids|] == kids;
    }
  }

  lemma NoLinks()
    ensures LinksInAll([]) == []
  {
  }

  function OnlyLinks(vs: seq<Ipld>): seq<Cid> {
    if vs == [] then [] else (if vs[0].Link? then [vs[0].cid] else []) + OnlyLinks(vs[1..])
  }

  lemma {:induction false} OnlyLinksAppend(a: seq<Ipld>, b: seq<Ipld>)
    ensures OnlyLinks(a + b) == OnlyLinks(a) + OnlyLinks(b)
  {
    if a == [] {
      assert a + b == b;
    } else {
      hide OnlyLinks;
      assert (a + b)[0] == a[0] && (a + b)[1..] == a[1..] + b;
      OnlyLinksAppend(a[1..], b);
      OnlyLinksUncons(a);
      OnlyLinksUncons(a + b);
    }
  }

  lemma OnlyLinksUncons(vs: seq<Ipld>)
    requires vs != []
    ensures OnlyLinks(vs) == (if vs[0].Link? then [vs[0].cid] else []) + OnlyLinks(vs[1..])
  {
  }

  /** Link collection is depth-first traversal restricted to links. */
  lemma {:induction false} LinksAreDfsLinks(v: Ipld)
    ensures LinksIn(v) == OnlyLinks(Preorder(v))
    decreases Size(v), 0
  {
    SizeOfChildren(v);
    LinksAllAreDfsLinks(Children(v));
    hide Children, LinksInAll, PreorderAll;
    assert Preorder(v)[1..] == PreorderAll(Children(v));
    if v.Link? {
      LinkHasNoChildren(v);
    }
  }

  lemma LinkHasNoChildren(v: Ipld)
    requires v.Link?
    ensures OnlyLinks(PreorderAll(Children(v))) == []
  {
  }

  lemma {:induction false} LinksAllAreDfsLinks(items: seq<Ipld>)
    ensures LinksInAll(items) == OnlyLinks(PreorderAll(items))
    decreases SizeItems(items), 1
  {
    hide LinksIn, Preorder;
    if items != [] {
      SizeUncons(items);
      SizeOfChildren(items[0]);
      LinksAreDfsLinks(items[0]);
      LinksAllAreDfsLinks(items[1..]);
      OnlyLinksAppend(Preorder(items[0]), PreorderAll(items[1..]));
    }
  }

  // ----------------------------------------------------------------- fanout

  function PadTo(acc: seq<nat>, n: nat): (r: seq<nat>)
    ensures |r| == if |acc| < n then n else |acc|
    ensures forall k :: 0 <= k < |r| ==> r[k] == if k < |acc| then acc[k] else 0
  {
    if |acc| < n then acc + seq(n - |acc|, _ => 0) else acc
  }

  /** The children counted at distance `d` below the nodes of a row. */
  function FanoutOf(items: seq<Ipld>, d: nat): nat {
    |NodesAt(items, d + 1)|
  }

  lemma {:induction false} NodesAtAppend(a: seq<Ipld>, b: seq<Ipld>, d: nat)
    ensures NodesAt(a + b, d) == NodesAt(a, d) + NodesAt(b, d)
    decreases d
  {
    hide Below;
    if d > 0 {
      BelowAppend(a, b);
      NodesAtAppend(Below(a), Below(b), d - 1);
    }
  }

  /** `acc` with the fan-outs of a row of nodes at `depth` added in, and grown exactly as far as there are nodes. */
  ghost predicate Counted(acc: seq<nat>, acc': seq<nat>, items: seq<Ipld>, depth: nat) {
    |acc'| >= |acc|
    && (forall k :: 0 <= k < |acc'| ==>
          acc'[k] == (if k < |acc| then acc[k] else 0) + (if k < depth then 0 else FanoutOf(items, k - depth)))
    && (forall d :: depth + d >= |acc'| ==> NodesAt(items, d) == [])
    && (|acc'| > |acc| ==> |acc'| > depth && NodesAt(items, |acc'| - 1 - depth) != [])
  }

  /** `calculate_fanout`. */
  method CalculateFanout(v: Ipld, depth: nat, acc: seq<nat>) returns (r: seq<nat>)
    ensures Counted(acc, r, [v], depth)
    decreases Size(v), 0
  {
    hide Counted, Children;
    var kids := Children(v);
    r := PadTo(acc, depth + 1);
    r := r[depth := r[depth] + |kids|];
    ghost var base := r;
    SizeOfChildren(v);
    NothingCounted(base, depth + 1);
    for i := 0 to |kids|
      invariant Counted(base, r, kids[..i], depth + 1)
    {
      SizeOfPart(kids, i);
      ghost var before := r;
      r := CalculateFanout(kids[i], depth + 1, r);
      CountedCompose(base, before, r, kids[..i], [kids[i]], depth + 1);
      assert kids[..i] + [kids[i]] == kids[..i + 1];
    }
    assert kids[..|kids|] == kids;
    CountedNode(acc, base, r, v, depth);
  }

  lemma NothingCounted(acc: seq<nat>, depth: nat)
    ensures Counted(acc, acc, [], depth)
  {
    forall d: nat ensures NodesAt([], d) == [] {
      NothingBelow(d);
    }
  }

  lemma {:induction false} SizeOfPart(items: seq<Ipld>, i: nat)
    requires i < |items|
    ensures Size(items[i]) <= SizeItems(items)
    decreases |items|
  {
    hide Size;
    if i > 0 {
      SizeOfPart(items[1..], i - 1);
    }
  }

  lemma CountedCompose(a: seq<nat>, b: seq<nat>, c: seq<nat>, x: seq<Ipld>, y: seq<Ipld>, depth: nat)
    requires Counted(a, b, x, depth) && Counted(b, c, y, depth)
    ensures Counted(a, c, x + y, depth)
  {
    hide NodesAt;
    forall d: nat ensures NodesAt(x + y, d) == NodesAt(x, d) + NodesAt(y, d) {
      NodesAtAppend(x, y, d);
    }
    forall k | 0 <= k < |c|
      ensures c[k] == (if k < |a| then a[k] else 0) + (if k < depth then 0 else FanoutOf(x + y, k - depth))
    {
      if k >= |b| && k >= depth {
        assert NodesAt(x, k - depth + 1) == [];
      }
    }
    if |c| > |a| {
      assert NodesAt(x + y, |c| - 1 - depth) == NodesAt(x, |c| - 1 - depth) + NodesAt(y, |c| - 1 - depth);
    }
  }

  lemma CountedNode(acc: seq<nat>, base: seq<nat>, r: seq<nat>, v: Ipld, depth: nat)
    requires base == PadTo(acc, depth + 1)[depth := PadTo(acc, depth + 1)[depth] + |Children(v)|]
    requires Counted(base, r, Children(v), depth + 1)
    ensures Counted(acc, r, [v], depth)
  {
    hide Children, NodesAt;
    forall d: nat ensures NodesAt([v], d + 1) == NodesAt(Children(v), d) {
      OneBelow(v, d);
    }
    forall k | 0 <= k < |r|
      ensures r[k] == (if k < |acc| then acc[k] else 0) + (if k < depth then 0 else FanoutOf([v], k - depth))
    {
      if k == depth {
        OneBelow(v, 0);
        NodesAtZero(Children(v));
      } else if k > depth {
        OneBelow(v, k - depth);
      }
    }
    forall d | depth + d >= |r| ensures NodesAt([v], d) == [] {
      OneBelow(v, d - 1);
    }
    if |r| > |acc| {
      if |r| > |base| {
        OneBelow(v, |r| - 2 - depth);
      } else {
        NodesAtZero([v]);
      }
    }
  }

  lemma OneBelow(v: Ipld, d: nat)
    ensures NodesAt([v], d + 1) == NodesAt(Children(v), d)
  {
    hide Children;
    assert Below([v]) == Children(v) + Below([]);
    assert Children(v) + [] == Children(v);
  }

  lemma NodesAtZero(items: seq<Ipld>)
    ensures NodesAt(items, 0) == items
  {
  }

  /** `dag_fanout_by_level`: at level `d`, the number of nodes at depth `d + 1`. */
  method FanoutByLevel(root: Ipld) returns (fanout: seq<nat>)
    ensures forall d :: 0 <= d < |fanout| ==> fanout[d] == |NodesAt([root], d + 1)|
    ensures |fanout| == |Rows([root])|
  {
    hide NodesAt, Rows;
    fanout := CalculateFanout(root, 0, []);
    NodesAtZero([root]);
    assert NodesAt([root], 0) != [];
    assert 0 + |fanout| >= |fanout|;
    RowsAre([root], |fanout|);
    RowsAre([root], |fanout| - 1);
  }

  // ------------------------------------------------------------------ paths

  function Decimal(n: nat): (r: Bytes)
    ensures r != []
  {
    if n < 10 then [48 + n] else Decimal(n / 10) + [48 + n % 10]
  }

  function DecimalValue(s: Bytes): int {
    if s == [] then 0 else DecimalValue(s[..|s| - 1]) * 10 + (s[|s| - 1] as int) - 48
  }

  lemma {:induction false} DecimalReads(n: nat)
    ensures DecimalValue(Decimal(n)) == n
  {
    var s := Decimal(n);
    if n < 10 {
      assert s[..0] == [];
    } else {
      DecimalReads(n / 10);
      assert s[..|s| - 1] == Decimal(n / 10);
    }
  }

  /** The path element of a list index. */
  function IndexKey(i: nat): Bytes {
    [0x5B] + Decimal(i) + [0x5D]
  }

  lemma IndexKeyInjective(i: nat, j: nat)
    requires IndexKey(i) == IndexKey(j)
    ensures i == j
  {
    hide Decimal;
    var a, b := IndexKey(i), IndexKey(j);
    assert a[1..|a| - 1] == Decimal(i) && b[1..|b| - 1] == Decimal(j);
    DecimalReads(i);
    DecimalReads(j);
  }

  type Path = seq<Bytes>

  /** The path element of child `i`. */
  function KeyOf(v: Ipld, i: nat): Bytes
    requires i < |Children(v)|
  {
    if v.Map? then v.entries[i].key else IndexKey(i)
  }

  /** Following a path: a step takes the child with that path element. */
  ghost predicate ResolvesTo(v: Ipld, path: Path, w: Ipld)
    decreases |path|
  {
    if path == [] then w == v
    else exists i :: 0 <= i < |Children(v)| && KeyOf(v, i) == path[0] && ResolvesTo(Children(v)[i], path[1..], w)
  }

  /** No map holds a key twice: the `BTreeMap` invariant, at every level. */
  ghost predicate KeysDistinct(v: Ipld)
    decreases Size(v)
  {
    (forall i, j :: 0 <= i < j < |Children(v)| ==> KeyOf(v, i) != KeyOf(v, j))
    && forall i :: 0 <= i < |Children(v)| ==>
         (SizeOfChildren(v); SizeOfPart(Children(v), i); KeysDistinct(Children(v)[i]))
  }

  /** `find_paths_to_cid`, relative to the node. */
  function Paths(v: Ipld, target: Cid): seq<Path>
    decreases Size(v), 0
  {
    SizeOfChildren(v);
    if v == Link(target) then [[]] else PathsFrom(v, target, 0)
  }

  function PathsFrom(v: Ipld, target: Cid, i: nat): seq<Path>
    requires i <= |Children(v)|
    decreases SizeItems(Children(v)), 1 + |Children(v)| - i
  {
    if i == |Children(v)| then []
    else
      SizeOfPart(Children(v), i);
      Prefixed(KeyOf(v, i), Paths(Children(v)[i], target)) + PathsFrom(v, target, i + 1)
  }

  function Prefixed(key: Bytes, paths: seq<Path>): (r: seq<Path>)
    ensures |r| == |paths|
    ensures forall i :: 0 <= i < |r| ==> r[i] == [key] + paths[i]
  {
    seq(|paths|, i requires 0 <= i < |paths| => [key] + paths[i])
  }

  function Under(current: Path, paths: seq<Path>): (r: seq<Path>)
    ensures |r| == |paths|
    ensures forall i :: 0 <= i < |r| ==> r[i] == current + paths[i]
  {
    seq(|paths|, i requires 0 <= i < |paths| => current + paths[i])
  }

  /** `find_paths_recursive`: the accumulator gains the node's paths below the current one. */
  method FindPathsRecursive(v: Ipld, target: Cid, current: Path, acc: seq<Path>) returns (paths: seq<Path>)
    ensures paths == acc + Under(current, Paths(v, target))
    decreases Size(v)
  {
    hide Children, KeyOf, Under, PathsFrom;
    paths := acc;
    if v == Link(target) {
      paths := paths + [current];
      UnderHere(current);
    } else {
      SizeOfChildren(v);
      var kids := Children(v);
      for i := 0 to |kids|
        invariant paths + Under(current, PathsFrom(v, target, i)) == acc + Under(current, PathsFrom(v, target, 0))
      {
        SizeOfPart(kids, i);
        UnderStep(v, target, current, i);
        var below := FindPathsRecursive(kids[i], target, current + [KeyOf(v, i)], paths);
        Assoc(paths, Under(current + [KeyOf(v, i)], Paths(kids[i], target)), Under(current, PathsFrom(v, target, i + 1)));
        paths := below;
      }
      UnderEnd(v, target, current, paths);
    }
  }

  lemma UnderHere(current: Path)
    ensures Under(current, [[]]) == [current]
  {
    var none: Path := [];
    assert current + none == current;
  }

  lemma UnderEnd(v: Ipld, target: Cid, current: Path, paths: seq<Path>)
    ensures paths + Under(current, PathsFrom(v, target, |Children(v)|)) == paths
  {
  }

  lemma UnderStep(v: Ipld, target: Cid, current: Path, i: nat)
    requires i < |Children(v)|
    ensures Under(current, PathsFrom(v, target, i))
         == Under(current + [KeyOf(v, i)], Paths(Children(v)[i], target)) + Under(current, PathsFrom(v, target, i + 1))
  {
    hide Children, KeyOf, Paths;
    var k := KeyOf(v, i);
    var here := Paths(Children(v)[i], target);
    forall n | 0 <= n < |here| ensures Under(current, Prefixed(k, here))[n] == Under(current + [k], here)[n] {
      assert current + ([k] + here[n]) == current + [k] + here[n];
    }
    assert Under(current, Prefixed(k, here)) == Under(current + [k], here);
    var rest := PathsFrom(v, target, i + 1);
    assert Under(current, Prefixed(k, here) + rest) == Under(current, Prefixed(k, here)) + Under(current, rest);
  }

  /** Every path found leads to the target. */
  lemma {:induction false} PathsResolve(v: Ipld, target: Cid, n: nat)
    requires n < |Paths(v, target)|
    ensures ResolvesTo(v, Paths(v, target)[n], Link(target))
    decreases Size(v), 0
  {
    hide Children, KeyOf, PathsFrom;
    SizeOfChildren(v);
    if v != Link(target) {
      PathsFromResolve(v, target, 0, n);
    }
  }

  lemma {:induction false} PathsFromResolve(v: Ipld, target: Cid, i: nat, n: nat)
    requires i <= |Children(v)| && n < |PathsFrom(v, target, i)|
    ensures ResolvesTo(v, PathsFrom(v, target, i)[n], Link(target))
    decreases SizeItems(Children(v)), 1 + |Children(v)| - i
  {
    hide Children, KeyOf, Paths, PathsFrom, ResolvesTo;
    PathsFromAt(v, target, i, n);
    SizeOfPart(Children(v), i);
    var here := Paths(Children(v)[i], target);
    if n < |here| {
      PathsResolve(Children(v)[i], target, n);
      ResolvesStep(v, i, here[n], Link(target));
    } else {
      PathsFromResolve(v, target, i + 1, n - |here|);
    }
  }

  /** A path of the list comes from the child at hand or from a later one. */
  lemma PathsFromAt(v: Ipld, target: Cid, i: nat, n: nat)
    requires i <= |Children(v)| && n < |PathsFrom(v, target, i)|
    ensures i < |Children(v)|
    ensures var here := Paths(Children(v)[i], target);
            if n < |here| then PathsFrom(v, target, i)[n] == [KeyOf(v, i)] + here[n]
            else n - |here| < |PathsFrom(v, target, i + 1)|
                 && PathsFrom(v, target, i)[n] == PathsFrom(v, target, i + 1)[n - |here|]
  {
    hide Children, KeyOf, Paths;
  }

  lemma ResolvesStep(v: Ipld, i: nat, path: Path, w: Ipld)
    requires i < |Children(v)| && ResolvesTo(Children(v)[i], path, w)
    ensures ResolvesTo(v, [KeyOf(v, i)] + path, w)
  {
    hide Children, KeyOf;
    var p := [KeyOf(v, i)] + path;
    assert p[1..] == path;
  }

  /** How often the target occurs. */
  function Occurrences(vs: seq<Ipld>, target: Cid): nat {
    multiset(vs)[Link(target)]
  }

  /** One path for each occurrence of the target in the tree. */
  lemma {:induction false} PathsCount(v: Ipld, target: Cid)
    ensures |Paths(v, target)| == Occurrences(Preorder(v), target)
    decreases Size(v), 0
  {
    hide KeyOf, PathsFrom, PreorderAll;
    SizeOfChildren(v);
    if v == Link(target) {
      assert Children(v) == [];
      assert PreorderAll([]) == [] by { NoPreorder(); }
      assert multiset(Preorder(v)) == multiset{Link(target)};
    } else {
      PathsFromCount(v, target, 0);
      assert Children(v)[0..] == Children(v);
      assert multiset(Preorder(v)) == multiset{v} + multiset(PreorderAll(Children(v)));
    }
  }

  lemma NoPreorder()
    ensures PreorderAll([]) == []
  {
  }

  lemma {:induction false} PathsFromCount(v: Ipld, target: Cid, i: nat)
    requires i <= |Children(v)|
    ensures |PathsFrom(v, target, i)| == Occurrences(PreorderAll(Children(v)[i..]), target)
    decreases SizeItems(Children(v)), 1 + |Children(v)| - i
  {
    hide Children, KeyOf, Paths, Preorder;
    if i < |Children(v)| {
      var rest := Children(v)[i..];
      SizeOfPart(Children(v), i);
      PathsCount(Children(v)[i], target);
      PathsFromCount(v, target, i + 1);
      assert rest[0] == Children(v)[i] && rest[1..] == Children(v)[i + 1..];
      assert multiset(PreorderAll(rest)) == multiset(Preorder(rest[0])) + multiset(PreorderAll(rest[1..]));
    }
  }

  predicate AllDifferent(paths: seq<Path>) {
    forall m, n :: 0 <= m < n < |paths| ==> paths[m] != paths[n]
  }

  /** No two of the paths are the same. */
  lemma {:induction false} PathsDiffer(v: Ipld, target: Cid)
    requires KeysDistinct(v)
    ensures AllDifferent(Paths(v, target))
    decreases Size(v), 0
  {
    hide Children, KeyOf, PathsFrom, KeysDistinct;
    SizeOfChildren(v);
    if v != Link(target) {
      PathsFromDiffer(v, target, 0);
    }
  }

  /** Every path of the children from `i` on starts with the key of one of them. */
  lemma {:induction false} FirstKey(v: Ipld, target: Cid, i: nat, n: nat) returns (k: nat)
    requires i <= |Children(v)| && n < |PathsFrom(v, target, i)|
    ensures i <= k < |Children(v)| && PathsFrom(v, target, i)[n] != [] && PathsFrom(v, target, i)[n][0] == KeyOf(v, k)
    decreases |Children(v)| - i
  {
    hide Children, KeyOf, Paths;
    var here := Paths(Children(v)[i], target);
    if n < |here| {
      k := i;
    } else {
      k := FirstKey(v, target, i + 1, n - |here|);
    }
  }

  lemma {:induction false} PathsFromDiffer(v: Ipld, target: Cid, i: nat)
    requires KeysDistinct(v) && i <= |Children(v)|
    ensures AllDifferent(PathsFrom(v, target, i))
    decreases SizeItems(Children(v)), 1 + |Children(v)| - i
  {
    hide Children, KeyOf, Paths, Size;
    if i < |Children(v)| {
      SizeOfPart(Children(v), i);
      KeysDistinctMeans(v, i);
      PathsDiffer(Children(v)[i], target);
      PathsFromDiffer(v, target, i + 1);
      var here, rest := Paths(Children(v)[i], target), PathsFrom(v, target, i + 1);
      assert PathsFrom(v, target, i) == Prefixed(KeyOf(v, i), here) + rest;
      forall n | 0 <= n < |rest| ensures rest[n] != [] && rest[n][0] != KeyOf(v, i) {
        var k := FirstKey(v, target, i + 1, n);
        KeysDistinctPair(v, i, k);
      }
      hide PathsFrom, Prefixed, KeysDistinct;
      JoinedDiffer(KeyOf(v, i), here, rest);
    }
  }

  /** Paths under one key and paths that start otherwise. */
  lemma JoinedDiffer(key: Bytes, here: seq<Path>, rest: seq<Path>)
    requires AllDifferent(here) && AllDifferent(rest)
    requires forall n :: 0 <= n < |rest| ==> rest[n] != [] && rest[n][0] != key
    ensures AllDifferent(Prefixed(key, here) + rest)
  {
    var first := Prefixed(key, here);
    var all := first + rest;
    forall m, n | 0 <= m < n < |all| ensures all[m] != all[n] {
      if n < |here| {
        assert all[m] == [key] + here[m] && all[n] == [key] + here[n];
        assert all[m][1..] == here[m] && all[n][1..] == here[n];
      } else if m < |here| {
        assert all[m] == [key] + here[m] && all[n] == rest[n - |here|];
      } else {
        assert all[m] == rest[m - |here|] && all[n] == rest[n - |here|];
      }
    }
  }

  lemma KeysDistinctMeans(v: Ipld, i: nat)
    requires KeysDistinct(v) && i < |Children(v)|
    ensures KeysDistinct(Children(v)[i])
  {
  }

  lemma KeysDistinctPair(v: Ipld, i: nat, k: nat)
    requires KeysDistinct(v) && i < k < |Children(v)|
    ensures KeyOf(v, i) != KeyOf(v, k)
  {
  }

  /** Values the Rust type can hold have distinct keys. */
  lemma {:induction false} RepresentableKeysDistinct(pf: Platform, v: Ipld)
    requires Representable(pf, v)
    ensures KeysDistinct(v)
    decreases Size(v)
  {
    forall i, j | 0 <= i < j < |Children(v)| ensures KeyOf(v, i) != KeyOf(v, j) {
      if v.Map? {
        LessIrreflexive(v.entries[i].key);
      } else if IndexKey(i) == IndexKey(j) {
        IndexKeyInjective(i, j);
      }
    }
    SizeOfChildren(v);
    forall i | 0 <= i < |Children(v)| ensures KeysDistinct(Children(v)[i]) {
      SizeOfPart(Children(v), i);
      RepresentableKeysDistinct(pf, Children(v)[i]);
    }
  }

  /** `find_paths_to_cid` returns different paths, all leading to the target, one for each occurrence. */
  method FindPathsToCid(ghost pf: Platform, v: Ipld, target: Cid) returns (paths: seq<Path>)
    requires Representable(pf, v)
    ensures AllDifferent(paths)
    ensures forall n :: 0 <= n < |paths| ==> ResolvesTo(v, paths[n], Link(target))
    ensures |paths| == multiset(Preorder(v))[Link(target)]
  {
    hide Preorder, ResolvesTo, Paths, Representable;
    paths := FindPathsRecursive(v, target, [], []);
    forall p: Path ensures [] + p == p {
    }
    assert paths == Paths(v, target);
    RepresentableKeysDistinct(pf, v);
    PathsDiffer(v, target);
    PathsCount(v, target);
    forall n | 0 <= n < |paths| ensures ResolvesTo(v, paths[n], Link(target)) {
      PathsResolve(v, target, n);
    }
  }
}
