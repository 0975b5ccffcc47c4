/** The orders of the tree walks, by positions and on a worked example; what counts as a child, and under which key. */
module WalkOrders {
  import opened Basics
  import opened Cids
  import opened IpldModel
  import opened Traversal

  /** Every node appears once in the depth-first order. */
  lemma {:induction false} PreorderLength(v: Ipld)
    ensures |Preorder(v)| == Size(v)
    decreases Size(v), 0
  {
    hide Children, Size, PreorderAll;
    SizeOfChildren(v);
    PreorderAllLength(Children(v));
  }

  lemma {:induction false} PreorderAllLength(items: seq<Ipld>)
    ensures |PreorderAll(items)| == SizeItems(items)
    decreases SizeItems(items), 1
  {
    hide Children, Size, Preorder;
    if items != [] {
      SizeUncons(items);
      SizeOfChildren(items[0]);
      PreorderLength(items[0]);
      PreorderAllLength(items[1..]);
    }
  }

  /**
   The root comes first; then, child by child, each child's own depth-first
   order as one block, which starts after the root and all nodes of the
   children before it.
   */
  lemma PreorderPositions(v: Ipld, kids: seq<Ipld>, i: nat, start: nat, len: nat)
    requires kids == Children(v) && i < |kids|
    requires start == 1 + SizeItems(kids[..i]) && len == Size(kids[i])
    ensures Preorder(v) != [] && Preorder(v)[0] == v && |Preorder(v)| == Size(v)
    ensures start + len <= |Preorder(v)| && Preorder(v)[start..start + len] == Preorder(kids[i])
  {
    hide Children, Size, PreorderAll;
    PreorderLength(v);
    PreorderLength(kids[i]);
    PreorderAllLength(kids[..i]);
    var before, here, after := PreorderAll(kids[..i]), Preorder(kids[i]), PreorderAll(kids[i + 1..]);
    assert kids == kids[..i] + ([kids[i]] + kids[i + 1..]);
    PreorderAppend(kids[..i], [kids[i]] + kids[i + 1..]);
    PreorderUnconsAll(kids[i], kids[i + 1..]);
    assert Preorder(v) == ([v] + before) + (here + after) by {
      Assoc([v], before, here + after);
    }
    Cut([v] + before, here, after);
  }

  lemma PreorderUnconsAll(v: Ipld, rest: seq<Ipld>)
    ensures PreorderAll([v] + rest) == Preorder(v) + PreorderAll(rest)
  {
    hide Preorder;
    assert ([v] + rest)[1..] == rest;
  }

  lemma Cut(a: seq<Ipld>, b: seq<Ipld>, c: seq<Ipld>)
    ensures (a + (b + c))[|a|..|a| + |b|] == b
  {
  }

  /** Children are list items in order and map values in key order; nothing else has any. */
  lemma ChildrenAre(v: Ipld)
    ensures v.List? ==> Children(v) == v.items && forall i :: 0 <= i < |v.items| ==> KeyOf(v, i) == IndexKey(i)
    ensures v.Map? ==> |Children(v)| == |v.entries|
                       && forall i :: 0 <= i < |v.entries| ==>
                            Children(v)[i] == v.entries[i].value && KeyOf(v, i) == v.entries[i].key
    ensures !v.List? && !v.Map? ==> Children(v) == []
  {
  }

  /** Path segments of list positions: "[0]", "[12]". */
  lemma IndexKeys()
    ensures IndexKey(0) == [0x5B, 0x30, 0x5D] && IndexKey(12) == [0x5B, 0x31, 0x32, 0x5D]
  {
    assert Decimal(1) == [0x31];
    assert Decimal(12) == Decimal(1) + [0x32];
  }

  // ------------------------------------------------------------ an example

  lemma NumberAlone(n: int)
    ensures Children(Integer(n)) == [] && Preorder(Integer(n)) == [Integer(n)]
  {
    assert PreorderAll([]) == [];
  }

  /** `[a, [b], c]`: depth-first `a, [b], b, c`, breadth-first `a, [b], c, b`. */
  lemma Example(a: int, b: int, c: int)
    ensures var inner := List([Integer(b)]);
            var v := List([Integer(a), inner, Integer(c)]);
            Preorder(v) == [v, Integer(a), inner, Integer(b), Integer(c)]
            && Concat(Rows([v])) == [v, Integer(a), inner, Integer(c), Integer(b)]
  {
    var inner := List([Integer(b)]);
    var v := List([Integer(a), inner, Integer(c)]);
    NumberAlone(a);
    NumberAlone(b);
    NumberAlone(c);
    ExampleDepthFirst(a, inner, c, v, Integer(b));
    ExampleBreadthFirst(a, inner, c, v, Integer(b));
  }

  lemma ExampleDepthFirst(a: int, inner: Ipld, c: int, v: Ipld, leaf: Ipld)
    requires inner == List([leaf]) && v == List([Integer(a), inner, Integer(c)]) && Preorder(leaf) == [leaf]
    ensures Preorder(v) == [v, Integer(a), inner, leaf, Integer(c)]
  {
    hide Preorder, PreorderAll;
    NumberAlone(a);
    NumberAlone(c);
    NoPreorder();
    PreorderUnconsAll(leaf, []);
    assert [leaf] + [] == [leaf];
    PreorderIs(inner);
    PreorderIs(v);
    PreorderUnconsAll(Integer(c), []);
    PreorderUnconsAll(inner, [Integer(c)]);
    PreorderUnconsAll(Integer(a), [inner, Integer(c)]);
    assert [Integer(c)] + [] == [Integer(c)] && [inner] + [Integer(c)] == [inner, Integer(c)];
    assert [Integer(a)] + [inner, Integer(c)] == [Integer(a), inner, Integer(c)];
  }

  lemma PreorderIs(v: Ipld)
    ensures Preorder(v) == [v] + PreorderAll(Children(v))
  {
    hide PreorderAll, Children;
  }

  lemma ExampleBreadthFirst(a: int, inner: Ipld, c: int, v: Ipld, leaf: Ipld)
    requires inner == List([leaf]) && v == List([Integer(a), inner, Integer(c)]) && Children(leaf) == []
    ensures Concat(Rows([v])) == [v, Integer(a), inner, Integer(c), leaf]
  {
    hide Rows, Below, Concat;
    NumberAlone(a);
    NumberAlone(c);
    var row := [Integer(a), inner, Integer(c)];
    RowsUncons([v]);
    RowsUncons(row);
    RowsUncons([leaf]);
    BelowOne(v);
    BelowOne(leaf);
    BelowThree(Integer(a), inner, Integer(c));
    assert [] + [leaf] + [] == [leaf];
    NoRows();
  }

  lemma BelowOne(v: Ipld)
    ensures Below([v]) == Children(v)
  {
    hide Children;
    BelowUncons([v]);
    BelowUncons([]);
    assert [v][1..] == [];
    NilUnits(Children(v));
  }

  lemma BelowThree(u: Ipld, v: Ipld, w: Ipld)
    ensures Below([u, v, w]) == Children(u) + Children(v) + Children(w)
  {
    hide Children, Below;
    BelowUncons([u, v, w]);
    BelowUncons([v, w]);
    BelowOne(w);
    assert [u, v, w][1..] == [v, w] && [v, w][1..] == [w];
    Assoc(Children(u), Children(v), Children(w));
  }

  /** Paths come depth-first: in `[x, {k: x}]` first "[0]", then "[1]" and the key. */
  lemma PathsExample(x: Cid, k: Bytes)
    ensures Paths(List([Link(x), Map([Entry(k, Link(x))])]), x) == [[[0x5B, 0x30, 0x5D]], [[0x5B, 0x31, 0x5D], k]]
  {
    hide Paths, IndexKey;
    FirstIndexKeys();
    PathsOfPair(x, k, Map([Entry(k, Link(x))]));
  }

  lemma FirstIndexKeys()
    ensures IndexKey(0) == [0x5B, 0x30, 0x5D] && IndexKey(1) == [0x5B, 0x31, 0x5D]
  {
    hide Decimal;
    OneDigit(0);
    OneDigit(1);
  }

  lemma PathsOfPair(x: Cid, k: Bytes, inner: Ipld)
    requires inner == Map([Entry(k, Link(x))])
    ensures Paths(List([Link(x), inner]), x) == [[IndexKey(0)], [IndexKey(1), k]]
  {
    hide Paths, PathsFrom, IndexKey, Prefixed;
    var v := List([Link(x), inner]);
    PathHere(x);
    PathsOfEntry(x, k);
    PathsUnfold(v, x, 0);
    PathsUnfold(v, x, 1);
    PathsUnfold(v, x, 2);
    var first, second := [IndexKey(0)], [IndexKey(1), k];
    PrefixedOne(IndexKey(0), [], first);
    PrefixedOne(IndexKey(1), [k], second);
    NilUnits([second]);
    assert PathsFrom(v, x, 1) == [second];
    assert PathsFrom(v, x, 0) == [first] + [second];
  }

  lemma PathHere(x: Cid)
    ensures Paths(Link(x), x) == [[]]
  {
    hide PathsFrom;
  }

  lemma PathsOfEntry(x: Cid, k: Bytes)
    ensures Paths(Map([Entry(k, Link(x))]), x) == [[k]]
  {
    hide Paths, PathsFrom, Prefixed;
    var inner := Map([Entry(k, Link(x))]);
    PathHere(x);
    PathsUnfold(inner, x, 0);
    PathsUnfold(inner, x, 1);
    PrefixedOne(k, [], [k]);
    NilUnits([[k]]);
  }

  lemma PrefixedOne(key: Bytes, path: Path, whole: Path)
    requires whole == [key] + path
    ensures Prefixed(key, [path]) == [whole]
  {
    assert Prefixed(key, [path])[0] == [key] + [path][0];
  }

  lemma OneDigit(n: nat)
    requires n < 10
    ensures Decimal(n) == [48 + n]
  {
  }

  lemma PathsUnfold(v: Ipld, x: Cid, i: nat)
    requires i <= |Children(v)|
    ensures Paths(v, x) == if v == Link(x) then [[]] else PathsFrom(v, x, 0)
    ensures PathsFrom(v, x, i)
         == if i == |Children(v)| then [] else Prefixed(KeyOf(v, i), Paths(Children(v)[i], x)) + PathsFrom(v, x, i + 1)
  {
    hide Children, KeyOf, Prefixed;
  }
}
