/**
 Batch inclusion proofs over a power-of-two Merkle tree: the prover emits the
 missing siblings level by level, the verifier re-derives which positions they
 fill and rebuilds the root.
 */
module MerkleBatch {
  import opened Basics
  import Fnv

  type Hash = u64

  function LeafHash(data: Bytes): Hash {
    Fnv.Fnv1a(data)
  }

  function Combine(left: Hash, right: Hash): Hash {
    Fnv.Fnv1a(Fnv.LeBytes(left) + Fnv.LeBytes(right))
  }

  datatype MerkleError =
    | EmptyTree
    | LeafIndexOutOfBounds(index: nat, treeSize: nat)
    | InvalidProof
    | DuplicateLeaf(index: nat)

  datatype Outcome<+T> = Success(value: T) | Failure(error: MerkleError)

  datatype BatchProof = BatchProof(leafIndices: seq<nat>, siblingHashes: seq<(nat, Hash)>, root: Hash)

  // ------------------------------------------------------------------- tree

  /** Parents of consecutive pairs. */
  function Up(level: seq<Hash>): (r: seq<Hash>)
    ensures |r| == |level| / 2
    ensures forall i :: 0 <= i < |r| ==> r[i] == Combine(level[2 * i], level[2 * i + 1])
  {
    seq(|level| / 2, i requires 0 <= i < |level| / 2 => Combine(level[2 * i], level[2 * i + 1]))
  }

  function Ascend(base: seq<Hash>, l: nat): seq<Hash>
    decreases l
  {
    if l == 0 then base else Ascend(Up(base), l - 1)
  }

  function Padded(leaves: seq<Hash>, size: nat): (r: seq<Hash>)
    ensures |r| == size
  {
    seq(size, i requires 0 <= i < size => if i < |leaves| then leaves[i] else 0)
  }

  function Height(leaves: seq<Hash>): nat {
    CeilLog2(|leaves|)
  }

  function Base(leaves: seq<Hash>): (r: seq<Hash>)
    ensures |r| == Pow2(Height(leaves))
  {
    Padded(leaves, Pow2(Height(leaves)))
  }

  lemma {:induction false} AscendLength(base: seq<Hash>, h: nat, l: nat)
    requires |base| == Pow2(h) && l <= h
    ensures |Ascend(base, l)| == Pow2(h - l)
    decreases l
  {
    hide Up, Combine;
    if l > 0 {
      assert |Up(base)| == Pow2(h - 1);
      AscendLength(Up(base), h - 1, l - 1);
    }
  }

  /** The root of the tree over `base`. */
  function RootOf(base: seq<Hash>, h: nat): Hash
    requires |base| == Pow2(h)
  {
    AscendLength(base, h, h);
    Ascend(base, h)[0]
  }

  /** `next_power_of_two`. */
  method NextPowerOfTwo(n: nat) returns (p: nat)
    ensures p == Pow2(CeilLog2(n))
  {
    if n <= 1 {
      return 1;
    }
    p := 1;
    ghost var k := 0;
    CeilLog2Bounds(n);
    while p < n
      invariant p == Pow2(k) && k <= CeilLog2(n)
      decreases CeilLog2(n) - k
    {
      assert k < CeilLog2(n);
      p := 2 * p;
      k := k + 1;
    }
    if k < CeilLog2(n) {
      Pow2Monotone(k, CeilLog2(n) - 1);
    }
  }

  /** `MerkleBatchProver::new`. */
  method New(data: seq<Bytes>) returns (r: Outcome<seq<Hash>>)
    ensures data == [] ==> r == Failure(EmptyTree)
    ensures data != [] ==> r == Success(LeafHashes(data))
  {
    hide LeafHash;
    if data == [] {
      return Failure(EmptyTree);
    }
    var leaves: seq<Hash> := [];
    for i := 0 to |data|
      invariant leaves == LeafHashes(data)[..i]
    {
      leaves := leaves + [LeafHash(data[i])];
    }
    assert LeafHashes(data)[..|data|] == LeafHashes(data);
    r := Success(leaves);
  }

  function LeafHashes(data: seq<Bytes>): (r: seq<Hash>)
    ensures |r| == |data|
    ensures forall i :: 0 <= i < |r| ==> r[i] == LeafHash(data[i])
  {
    seq(|data|, i requires 0 <= i < |data| => LeafHash(data[i]))
  }

  /** One level from the one below: `level.chunks(2)` combined pairwise. */
  method NextLevel(level: seq<Hash>) returns (next: seq<Hash>)
    requires |level| % 2 == 0
    ensures next == Up(level)
  {
    hide Combine;
    next := [];
    var i := 0;
    while 2 * i < |level|
      invariant 2 * i <= |level|
      invariant next == Up(level)[..i]
    {
      next := next + [Combine(level[2 * i], level[2 * i + 1])];
      i := i + 1;
    }
  }

  /** `root`. */
  method Root(leaves: seq<Hash>) returns (root: Hash)
    ensures root == RootOf(Base(leaves), Height(leaves))
  {
    hide Up, Combine, Pow2, CeilLog2;
    var size := NextPowerOfTwo(|leaves|);
    var level := Padded(leaves, size);
    ghost var h, k := Height(leaves), 0;
    AscendLength(Base(leaves), h, h);
    while |level| > 1
      invariant k <= h && |level| == Pow2(h - k)
      invariant Ascend(level, h - k) == Ascend(Base(leaves), h)
      decreases h - k
    {
      Pow2Parity(h - k);
      level := NextLevel(level);
      k := k + 1;
    }
    Pow2Parity(h - k);
    root := level[0];
  }

  /** `build_tree`: all levels, leaves first. */
  method BuildTree(leaves: seq<Hash>) returns (tree: seq<seq<Hash>>)
    ensures |tree| == Height(leaves) + 1
    ensures forall l :: 0 <= l < |tree| ==> tree[l] == Ascend(Base(leaves), l)
  {
    hide Up, Combine, Pow2, CeilLog2;
    var size := NextPowerOfTwo(|leaves|);
    var level := Padded(leaves, size);
    ghost var h, k := Height(leaves), 0;
    tree := [level];
    while |level| > 1
      invariant k <= h && |level| == Pow2(h - k) && |tree| == k + 1
      invariant level == Ascend(Base(leaves), k)
      invariant forall l :: 0 <= l <= k ==> tree[l] == Ascend(Base(leaves), l)
      decreases h - k
    {
      Pow2Parity(h - k);
      level := NextLevel(level);
      tree := tree + [level];
      AscendSnoc(Base(leaves), k);
      k := k + 1;
    }
    Pow2Parity(h - k);
  }

  lemma {:induction false} AscendSnoc(base: seq<Hash>, l: nat)
    ensures Ascend(base, l + 1) == Up(Ascend(base, l))
    decreases l
  {
    hide Up, Combine;
    if l > 0 {
      AscendSnoc(Up(base), l - 1);
    }
  }

  // ---------------------------------------------------- positions of a batch

  /** A `BTreeSet<usize>` in iteration order. */
  predicate Increasing(c: seq<nat>) {
    forall i, j :: 0 <= i < j < |c| ==> c[i] < c[j]
  }

  /** `BTreeSet::insert`. */
  function SetInsert(c: seq<nat>, x: nat): seq<nat> {
    if c == [] || x < c[0] then [x] + c
    else if x == c[0] then c
    else [c[0]] + SetInsert(c[1..], x)
  }

  lemma {:induction false} SetInsertKeeps(c: seq<nat>, x: nat)
    requires Increasing(c)
    ensures Increasing(SetInsert(c, x))
    ensures forall y :: y in SetInsert(c, x) <==> y == x || y in c
  {
    if c != [] && x > c[0] {
      SetInsertKeeps(c[1..], x);
      var t := SetInsert(c[1..], x);
      forall i | 0 <= i < |t| ensures c[0] < t[i] {
        assert t[i] in t;
        if t[i] != x {
          assert t[i] in c[1..];
        }
      }
    }
  }

  /** Collecting indices into a `BTreeSet`. */
  function ToSet(indices: seq<nat>): seq<nat> {
    if indices == [] then [] else SetInsert(ToSet(indices[..|indices| - 1]), indices[|indices| - 1])
  }

  lemma {:induction false} ToSetKeeps(indices: seq<nat>)
    ensures Increasing(ToSet(indices))
    ensures forall y :: y in ToSet(indices) <==> y in indices
  {
    if indices != [] {
      var n := |indices| - 1;
      ToSetKeeps(indices[..n]);
      SetInsertKeeps(ToSet(indices[..n]), indices[n]);
      assert indices == indices[..n] + [indices[n]];
    }
  }

  lemma {:induction false} SetInsertLast(c: seq<nat>, x: nat)
    requires forall i :: 0 <= i < |c| ==> c[i] < x
    ensures SetInsert(c, x) == c + [x]
  {
    if c != [] {
      SetInsertLast(c[1..], x);
    }
  }

  /** Strictly increasing indices are their own set. */
  lemma {:induction false} ToSetOfIncreasing(c: seq<nat>)
    requires Increasing(c)
    ensures ToSet(c) == c
  {
    if c != [] {
      var n := |c| - 1;
      ToSetOfIncreasing(c[..n]);
      SetInsertLast(c[..n], c[n]);
    }
  }

  function Sibling(pos: nat): nat {
    if pos % 2 == 0 then pos + 1 else pos - 1
  }

  /** The covered positions of the next level. */
  function Parents(c: seq<nat>): seq<nat> {
    if c == [] then [] else SetInsert(Parents(c[..|c| - 1]), c[|c| - 1] / 2)
  }

  lemma {:induction false} ParentsKeep(c: seq<nat>)
    ensures Increasing(Parents(c))
    ensures forall p :: p in Parents(c) <==> 2 * p in c || 2 * p + 1 in c
  {
    if c != [] {
      var n := |c| - 1;
      ParentsKeep(c[..n]);
      SetInsertKeeps(Parents(c[..n]), c[n] / 2);
      assert c == c[..n] + [c[n]];
      forall p ensures p in Parents(c) <==> 2 * p in c || 2 * p + 1 in c {
        assert p == c[n] / 2 <==> 2 * p == c[n] || 2 * p + 1 == c[n];
      }
    }
  }

  /** Siblings of `c` that are not themselves covered, in order of the covered positions. */
  function Needed(c: seq<nat>, all: seq<nat>): seq<nat> {
    if c == [] then []
    else
      var n := |c| - 1;
      Needed(c[..n], all) + if Sibling(c[n]) in all then [] else [Sibling(c[n])]
  }

  lemma {:induction false} NeededKeeps(c: seq<nat>, all: seq<nat>)
    requires Increasing(c)
    ensures forall s :: s in Needed(c, all) <==> Sibling(s) in c && s !in all
    ensures forall i, j :: 0 <= i < j < |Needed(c, all)| ==> Needed(c, all)[i] != Needed(c, all)[j]
  {
    hide Increasing;
    if c != [] {
      var n := |c| - 1;
      IncreasingPrefix(c);
      NeededKeeps(c[..n], all);
      assert c == c[..n] + [c[n]];
      assert forall s: nat :: Sibling(Sibling(s)) == s;
      assert c[n] !in c[..n] by { LastIsNew(c); }
    }
  }

  lemma IncreasingPrefix(c: seq<nat>)
    requires Increasing(c) && c != []
    ensures Increasing(c[..|c| - 1])
  {
  }

  lemma LastIsNew(c: seq<nat>)
    requires Increasing(c) && c != []
    ensures c[|c| - 1] !in c[..|c| - 1]
  {
  }

  // ------------------------------------------------------------------ prover

  /** `level_nodes.get(pos).copied().unwrap_or(0)`. */
  function At(nodes: seq<Hash>, pos: nat): Hash {
    if pos < |nodes| then nodes[pos] else 0
  }

  /** Emit siblings of one level, never the same (level, hash) pair twice. */
  function EmitLevel(level: nat, nodes: seq<Hash>, need: seq<nat>, acc: seq<(nat, Hash)>): seq<(nat, Hash)> {
    if need == [] then acc
    else
      var before := EmitLevel(level, nodes, need[..|need| - 1], acc);
      var entry := (level, At(nodes, need[|need| - 1]));
      if entry in before then before else before + [entry]
  }

  /** Emit the `h` levels from `nodes` up. */
  function EmitAll(level: nat, nodes: seq<Hash>, h: nat, c: seq<nat>, acc: seq<(nat, Hash)>): seq<(nat, Hash)>
    decreases h
  {
    if h == 0 then acc
    else EmitAll(level + 1, Up(nodes), h - 1, Parents(c), EmitLevel(level, nodes, Needed(c, c), acc))
  }

  function SortInsert(s: seq<nat>, x: nat): seq<nat> {
    if s == [] || x <= s[0] then [x] + s else [s[0]] + SortInsert(s[1..], x)
  }

  /** `sort_unstable`. */
  function Sort(s: seq<nat>): seq<nat> {
    if s == [] then [] else SortInsert(Sort(s[1..]), s[0])
  }

  predicate NonDecreasing(s: seq<nat>) {
    forall i, j :: 0 <= i < j < |s| ==> s[i] <= s[j]
  }

  lemma {:induction false} SortInsertMultiset(s: seq<nat>, x: nat)
    ensures multiset(SortInsert(s, x)) == multiset(s) + multiset{x}
  {
    if s != [] && x > s[0] {
      SortInsertMultiset(s[1..], x);
      assert s == [s[0]] + s[1..];
    }
  }

  lemma {:induction false} SortInsertSorted(s: seq<nat>, x: nat)
    requires NonDecreasing(s)
    ensures NonDecreasing(SortInsert(s, x))
    ensures forall y :: y in SortInsert(s, x) ==> y == x || y in s
  {
    if s != [] && x > s[0] {
      SortInsertSorted(s[1..], x);
      var t := SortInsert(s[1..], x);
      forall i | 0 <= i < |t| ensures s[0] <= t[i] {
        assert t[i] in t;
      }
    }
  }

  lemma {:induction false} SortSorts(s: seq<nat>)
    ensures NonDecreasing(Sort(s))
    ensures multiset(Sort(s)) == multiset(s)
  {
    if s != [] {
      SortSorts(s[1..]);
      SortInsertMultiset(Sort(s[1..]), s[0]);
      SortInsertSorted(Sort(s[1..]), s[0]);
      assert s == [s[0]] + s[1..];
    }
  }

  function ProofFor(leaves: seq<Hash>, sorted: seq<nat>): BatchProof {
    BatchProof(sorted, EmitAll(0, Base(leaves), Height(leaves), sorted, []), RootOf(Base(leaves), Height(leaves)))
  }

  predicate Distinct(indices: seq<nat>) {
    forall i, j :: 0 <= i < j < |indices| ==> indices[i] != indices[j]
  }

  predicate InRange(indices: seq<nat>, n: nat) {
    forall i :: 0 <= i < |indices| ==> indices[i] < n
  }

  /** `prove_batch`: both error conditions exactly, then the proof over the sorted indices. */
  method ProveBatch(leaves: seq<Hash>, indices: seq<nat>) returns (r: Outcome<BatchProof>)
    requires leaves != []
    ensures !InRange(indices, |leaves|) ==>
              r.Failure? && r.error.LeafIndexOutOfBounds? && r.error.treeSize == |leaves|
              && r.error.index in indices && r.error.index >= |leaves|
              && forall x :: x in indices && x >= |leaves| ==> r.error.index <= x
    ensures InRange(indices, |leaves|) && !Distinct(indices) ==>
              r.Failure? && r.error.DuplicateLeaf? && multiset(indices)[r.error.index] >= 2
    ensures InRange(indices, |leaves|) && Distinct(indices) ==>
              Increasing(Sort(indices)) && r == Success(ProofFor(leaves, Sort(indices)))
  {
    hide Combine, Increasing, Distinct, Sort, Up, Parents, Needed, EmitLevel, Base, Height, RootOf;
    var sorted := Sort(indices);
    DistinctIffIncreasing(indices);
    var invalid := Validate(indices, sorted, |leaves|);
    if invalid.Some? {
      return Failure(invalid.value);
    }
    var tree := BuildTree(leaves);
    var height := |tree| - 1;
    var siblingHashes: seq<(nat, Hash)> := [];
    ToSetOfIncreasing(sorted);
    var covered := ToSet(sorted);
    for level := 0 to height
      invariant EmitAll(level, Ascend(Base(leaves), level), height - level, covered, siblingHashes)
             == EmitAll(0, Base(leaves), height, sorted, [])
    {
      siblingHashes, covered := EmitSiblings(level, tree[level], covered, siblingHashes);
      AscendSnoc(Base(leaves), level);
    }
    var root := Root(leaves);
    r := Success(BatchProof(sorted, siblingHashes, root));
  }

  /** The bounds check, then the duplicate check, over the sorted indices. */
  method Validate(indices: seq<nat>, sorted: seq<nat>, n: nat) returns (r: Option<MerkleError>)
    requires sorted == Sort(indices)
    ensures !InRange(indices, n) ==>
              r.Some? && r.value.LeafIndexOutOfBounds? && r.value.treeSize == n
              && r.value.index in indices && r.value.index >= n
              && forall x :: x in indices && x >= n ==> r.value.index <= x
    ensures InRange(indices, n) && !Increasing(sorted) ==>
              r.Some? && r.value.DuplicateLeaf? && multiset(indices)[r.value.index] >= 2
    ensures InRange(indices, n) && Increasing(sorted) ==> r.None?
  {
    hide Sort;
    SortSorts(indices);
    SameElements(indices, sorted);
    for k := 0 to |sorted|
      invariant forall i :: 0 <= i < k ==> sorted[i] < n
    {
      if sorted[k] >= n {
        assert sorted[k] in indices;
        assert !InRange(indices, n);
        return Some(LeafIndexOutOfBounds(sorted[k], n));
      }
    }
    assert InRange(indices, n) by {
      forall i | 0 <= i < |indices| ensures indices[i] < n {
        assert indices[i] in sorted;
      }
    }
    var k := 1;
    while k < |sorted|
      invariant 1 <= k && (sorted != [] ==> k <= |sorted|)
      invariant forall i :: 0 < i < k && i < |sorted| ==> sorted[i - 1] < sorted[i]
    {
      if sorted[k - 1] == sorted[k] {
        TwiceInMultiset(sorted, k);
        return Some(DuplicateLeaf(sorted[k]));
      }
      k := k + 1;
    }
    StepwiseIncreasing(sorted);
    r := None;
  }

  lemma {:induction false} DistinctCounts(s: seq<nat>)
    ensures Distinct(s) <==> forall x :: multiset(s)[x] <= 1
  {
    if s != [] {
      var tail := s[1..];
      DistinctCounts(tail);
      assert s == [s[0]] + tail;
      if Distinct(s) {
        assert Distinct(tail);
        assert s[0] !in tail by {
          forall j | 0 <= j < |tail| ensures tail[j] != s[0] {
            assert s[j + 1] == tail[j];
          }
        }
      } else {
        var i, j :| 0 <= i < j < |s| && s[i] == s[j];
        if i == 0 {
          assert tail[j - 1] == s[0] && s[0] in multiset(tail);
          assert multiset(s)[s[0]] >= 2;
        } else {
          assert tail[i - 1] == tail[j - 1];
          assert !Distinct(tail);
          var x :| multiset(tail)[x] > 1;
          assert multiset(s)[x] > 1;
        }
      }
    }
  }

  /** Indices are distinct exactly when their sorted order strictly increases. */
  lemma DistinctIffIncreasing(indices: seq<nat>)
    ensures Distinct(indices) <==> Increasing(Sort(indices))
  {
    hide Sort;
    SortSorts(indices);
    DistinctCounts(indices);
    DistinctCounts(Sort(indices));
    var sorted := Sort(indices);
    if Distinct(sorted) {
      forall i, j | 0 <= i < j < |sorted| ensures sorted[i] < sorted[j] {
      }
    } else {
      var i, j :| 0 <= i < j < |sorted| && sorted[i] == sorted[j];
      assert !Increasing(sorted);
    }
  }

  lemma StepwiseIncreasing(s: seq<nat>)
    requires forall i :: 0 < i < |s| ==> s[i - 1] < s[i]
    requires NonDecreasing(s)
    ensures Increasing(s)
  {
    forall i, j | 0 <= i < j < |s| ensures s[i] < s[j] {
      assert s[i] <= s[j - 1] < s[j];
    }
  }

  lemma SameElements(a: seq<nat>, b: seq<nat>)
    requires multiset(a) == multiset(b)
    ensures forall x :: x in a <==> x in b
  {
    forall x ensures x in a <==> x in b {
      assert x in multiset(a) <==> x in multiset(b);
    }
  }

  lemma TwiceInMultiset(s: seq<nat>, k: nat)
    requires 1 <= k < |s| && s[k - 1] == s[k]
    ensures multiset(s)[s[k]] >= 2
  {
    assert s == s[..k - 1] + [s[k - 1], s[k]] + s[k + 1..];
  }

  /** The loop over one level's covered positions. */
  method EmitSiblings(level: nat, nodes: seq<Hash>, covered: seq<nat>, acc: seq<(nat, Hash)>)
    returns (emitted: seq<(nat, Hash)>, nextCovered: seq<nat>)
    ensures emitted == EmitLevel(level, nodes, Needed(covered, covered), acc)
    ensures nextCovered == Parents(covered)
  {
    emitted, nextCovered := acc, [];
    for k := 0 to |covered|
      invariant emitted == EmitLevel(level, nodes, Needed(covered[..k], covered), acc)
      invariant nextCovered == Parents(covered[..k])
    {
      var pos := covered[k];
      var sibling := Sibling(pos);
      assert covered[..k + 1][..k] == covered[..k];
      nextCovered := SetInsert(nextCovered, pos / 2);
      ghost var need := Needed(covered[..k], covered);
      if sibling !in covered {
        var entry := (level, At(nodes, sibling));
        assert (need + [sibling])[..|need|] == need;
        if entry !in emitted {
          emitted := emitted + [entry];
        }
      } else {
        assert need + [] == need;
      }
    }
    assert covered[..|covered|] == covered;
  }

  // ---------------------------------------------------------------- verifier

  /** The siblings a level consumes, at the positions they fill. */
  function Fill(need: seq<nat>, sibs: seq<(nat, Hash)>): (m: map<nat, Hash>)
    requires |need| <= |sibs|
  {
    if need == [] then map[]
    else Fill(need[..|need| - 1], sibs)[need[|need| - 1] := sibs[|need| - 1].1]
  }

  /** Sibling maps of the `h` levels from covered set `c` up, if there are enough hashes. */
  function SiblingMaps(h: nat, c: seq<nat>, sibs: seq<(nat, Hash)>): (r: Option<seq<map<nat, Hash>>>)
    ensures r.Some? ==> |r.value| == h
    decreases h
  {
    if h == 0 then Some([])
    else
      var need := Needed(c, c);
      if |need| > |sibs| then None
      else match SiblingMaps(h - 1, Parents(c), sibs[|need|..])
        case None => None
        case Some(ms) => Some([Fill(need, sibs)] + ms)
  }

  function LeafMap(indices: seq<nat>, items: seq<Bytes>): (m: map<nat, Hash>)
    requires |indices| == |items|
  {
    if indices == [] then map[]
    else
      var n := |indices| - 1;
      LeafMap(indices[..n], items[..n])[indices[n] := LeafHash(items[n])]
  }

  /** Parent hashes of every pair of positions that are both known. */
  function UpMap(m: map<nat, Hash>): map<nat, Hash> {
    map p | p in (set k | k in m :: k / 2) && 2 * p in m && 2 * p + 1 in m :: Combine(m[2 * p], m[2 * p + 1])
  }

  lemma UpMapAt(m: map<nat, Hash>, p: nat)
    ensures p in UpMap(m) <==> 2 * p in m && 2 * p + 1 in m
    ensures p in UpMap(m) ==> UpMap(m)[p] == Combine(m[2 * p], m[2 * p + 1])
  {
    hide Combine;
    assert 2 * p in m ==> p in (set k | k in m :: k / 2) by { assert (2 * p) / 2 == p; }
  }

  function Propagated(ms: seq<map<nat, Hash>>, vals: map<nat, Hash>): map<nat, Hash>
    decreases |ms|
  {
    if ms == [] then vals else Propagated(ms[1..], UpMap(vals + ms[0]))
  }

  /** What `verify_batch` answers in a tree of height `h`, for any proof and any items. */
  function Verdict(h: nat, proof: BatchProof, items: seq<Bytes>): Outcome<bool> {
    if |items| != |proof.leafIndices| then Failure(InvalidProof)
    else match SiblingMaps(h, ToSet(proof.leafIndices), proof.siblingHashes)
      case None => Failure(InvalidProof)
      case Some(ms) =>
        var top := Propagated(ms, LeafMap(proof.leafIndices, items));
        if 0 in top then Success(top[0] == proof.root) else Failure(InvalidProof)
  }

  /** The entries of `known` at one level. */
  function LevelOf(known: map<(nat, nat), Hash>, level: nat): map<nat, Hash> {
    map k | k in known && k.0 == level :: k.1 := known[k]
  }

  lemma LevelOfInsert(known: map<(nat, nat), Hash>, level: nat, pos: nat, h: Hash)
    ensures LevelOf(known[(level, pos) := h], level) == LevelOf(known, level)[pos := h]
    ensures forall l :: l != level ==> LevelOf(known[(level, pos) := h], l) == LevelOf(known, l)
  {
    var k2 := known[(level, pos) := h];
    forall l ensures LevelOf(k2, l) == if l == level then LevelOf(known, l)[pos := h] else LevelOf(known, l) {
      var m := if l == level then LevelOf(known, l)[pos := h] else LevelOf(known, l);
      forall q ensures q in LevelOf(k2, l) <==> q in m {
        assert (l, q) in k2 <==> q in LevelOf(k2, l);
        assert (l, q) in known <==> q in LevelOf(known, l);
      }
      forall q | q in m ensures LevelOf(k2, l)[q] == m[q] {
        assert (l, q) in k2;
      }
    }
  }

  /** `verify_batch`, on any proof: first collect the known hashes, then propagate upwards. */
  method VerifyBatch(leaves: seq<Hash>, proof: BatchProof, items: seq<Bytes>) returns (r: Outcome<bool>)
    ensures r == Verdict(Height(leaves), proof, items)
  {
    hide Combine, LeafHash, Needed, Parents, ToSet, Fill, UpMap, SiblingMaps, Propagated;
    if |items| != |proof.leafIndices| {
      return Failure(InvalidProof);
    }
    var size := NextPowerOfTwo(|leaves|);
    var height := TrailingZeros(size, Height(leaves));
    var known: map<(nat, nat), Hash>, ok := CollectKnown(height, proof, items);
    if !ok {
      return Failure(InvalidProof);
    }
    var top := Propagate(height, known, SiblingMaps(height, ToSet(proof.leafIndices), proof.siblingHashes).value,
                         LeafMap(proof.leafIndices, items));
    r := if 0 in top then Success(top[0] == proof.root) else Failure(InvalidProof);
  }

  /** `trailing_zeros` of a power of two. */
  method TrailingZeros(size: nat, ghost h: nat) returns (zeros: nat)
    requires size == Pow2(h)
    ensures zeros == h
  {
    hide Pow2;
    zeros := 0;
    var rest := size;
    Pow2Parity(h);
    while rest % 2 == 0
      invariant zeros <= h && rest == Pow2(h - zeros)
      invariant rest % 2 == 0 <==> zeros < h
      decreases h - zeros
    {
      Pow2Parity(h - zeros);
      rest := rest / 2;
      zeros := zeros + 1;
      Pow2Parity(h - zeros);
    }
  }

  lemma Pow2Parity(k: nat)
    ensures Pow2(k) % 2 == 0 <==> k > 0
    ensures k > 0 ==> Pow2(k) / 2 == Pow2(k - 1)
    ensures k == 0 <==> Pow2(k) <= 1
  {
  }

  lemma LevelOfEmpty()
    ensures forall l :: LevelOf(map[], l) == map[]
  {
  }

  lemma NoLeaves()
    ensures LeafMap([], []) == map[]
  {
  }

  lemma LeafMapSnoc(indices: seq<nat>, items: seq<Bytes>, i: nat)
    requires i < |indices| == |items|
    ensures LeafMap(indices[..i + 1], items[..i + 1]) == LeafMap(indices[..i], items[..i])[indices[i] := LeafHash(items[i])]
  {
    hide LeafHash;
    assert indices[..i + 1][..i] == indices[..i] && items[..i + 1][..i] == items[..i];
  }

  method CollectLeaves(indices: seq<nat>, items: seq<Bytes>) returns (known: map<(nat, nat), Hash>)
    requires |items| == |indices|
    ensures LevelOf(known, 0) == LeafMap(indices, items)
    ensures forall l :: l > 0 ==> LevelOf(known, l) == map[]
  {
    hide LevelOf, LeafHash, LeafMap;
    known := map[];
    LevelOfEmpty();
    NoLeaves();
    for i := 0 to |indices|
      invariant LevelOf(known, 0) == LeafMap(indices[..i], items[..i])
      invariant forall l :: l > 0 ==> LevelOf(known, l) == map[]
    {
      LevelOfInsert(known, 0, indices[i], LeafHash(items[i]));
      ghost var before := known;
      known := known[(0, indices[i]) := LeafHash(items[i])];
      forall l | l > 0 ensures LevelOf(known, l) == map[] {
        assert LevelOf(known, l) == LevelOf(before, l);
      }
      LeafMapSnoc(indices, items, i);
    }
    assert indices[..|indices|] == indices && items[..|items|] == items;
  }

  /** The first pass: leaf hashes and siblings, keyed by level and position. */
  method CollectKnown(height: nat, proof: BatchProof, items: seq<Bytes>)
    returns (known: map<(nat, nat), Hash>, ok: bool)
    requires |items| == |proof.leafIndices|
    ensures var ms := SiblingMaps(height, ToSet(proof.leafIndices), proof.siblingHashes);
            ok == ms.Some?
            && (ok ==> (LevelOf(known, 0) == if height > 0 then LeafMap(proof.leafIndices, items) + ms.value[0]
                                             else LeafMap(proof.leafIndices, items))
                       && forall l :: 0 < l < height ==> LevelOf(known, l) == ms.value[l])
  {
    hide LevelOf, LeafMap, Needed, Parents, Fill, ToSet, SiblingMaps;
    known := CollectLeaves(proof.leafIndices, items);
    ghost var leafMap := LeafMap(proof.leafIndices, items);
    var covered := ToSet(proof.leafIndices);
    var rest := proof.siblingHashes;
    ghost var done: seq<map<nat, Hash>> := [];
    ghost var goal := SiblingMaps(height, covered, rest);
    assert goal == Prefixed([], goal) by {
      if goal.Some? {
        assert [] + goal.value == goal.value;
      }
    }
    for level := 0 to height
      invariant |done| == level
      invariant goal == Prefixed(done, SiblingMaps(height - level, covered, rest))
      invariant forall l :: 0 < l < level ==> LevelOf(known, l) == done[l]
      invariant forall l :: l >= level && l > 0 ==> LevelOf(known, l) == map[]
      invariant LevelOf(known, 0) == if level == 0 then leafMap else leafMap + done[0]
    {
      PrefixedStep(done, height - level, covered, rest);
      ghost var need, sibs := Needed(covered, covered), rest;
      var fits;
      known, rest, covered, fits := TakeSiblings(level, covered, rest, known);
      if !fits {
        ok := false;
        return;
      }
      assert map[] + Fill(need, sibs) == Fill(need, sibs);
      done := done + [Fill(need, sibs)];
    }
    NoMaps(covered, rest);
    assert done + [] == done;
    ok := true;
  }

  lemma NoMaps(c: seq<nat>, sibs: seq<(nat, Hash)>)
    ensures SiblingMaps(0, c, sibs) == Some([])
  {
  }

  ghost function Prefixed(done: seq<map<nat, Hash>>, r: Option<seq<map<nat, Hash>>>): Option<seq<map<nat, Hash>>> {
    match r
    case None => None
    case Some(ms) => Some(done + ms)
  }

  lemma PrefixedStep(done: seq<map<nat, Hash>>, h: nat, c: seq<nat>, sibs: seq<(nat, Hash)>)
    requires h > 0
    ensures var need := Needed(c, c);
            Prefixed(done, SiblingMaps(h, c, sibs))
            == if |need| > |sibs| then None
               else Prefixed(done + [Fill(need, sibs)], SiblingMaps(h - 1, Parents(c), sibs[|need|..]))
  {
    hide Needed, Parents, Fill;
    var need := Needed(c, c);
    if |need| <= |sibs| {
      var above := SiblingMaps(h - 1, Parents(c), sibs[|need|..]);
      if above.Some? {
        assert done + ([Fill(need, sibs)] + above.value) == done + [Fill(need, sibs)] + above.value;
      }
    }
  }

  /** One level of the first pass: pull a hash for every position whose sibling is not covered. */
  method TakeSiblings(level: nat, covered: seq<nat>, sibs: seq<(nat, Hash)>, known0: map<(nat, nat), Hash>)
    returns (known: map<(nat, nat), Hash>, rest: seq<(nat, Hash)>, nextCovered: seq<nat>, fits: bool)
    ensures var need := Needed(covered, covered);
            fits == (|need| <= |sibs|)
            && (fits ==> rest == sibs[|need|..] && nextCovered == Parents(covered)
                         && LevelOf(known, level) == LevelOf(known0, level) + Fill(need, sibs)
                         && forall l :: l != level ==> LevelOf(known, l) == LevelOf(known0, l))
  {
    hide LevelOf, SetInsert;
    known, rest, nextCovered := known0, sibs, [];
    ghost var need: seq<nat> := [];
    for k := 0 to |covered|
      invariant need == Needed(covered[..k], covered) && |need| <= |sibs|
      invariant rest == sibs[|need|..] && nextCovered == Parents(covered[..k])
      invariant LevelOf(known, level) == LevelOf(known0, level) + Fill(need, sibs)
      invariant forall l :: l != level ==> LevelOf(known, l) == LevelOf(known0, l)
    {
      var pos := covered[k];
      var sibling := Sibling(pos);
      assert covered[..k + 1][..k] == covered[..k];
      nextCovered := SetInsert(nextCovered, pos / 2);
      if sibling !in covered {
        NeededMonotone(covered, k + 1, covered);
        if rest == [] {
          fits := false;
          return;
        }
        LevelOfInsert(known, level, sibling, rest[0].1);
        known := known[(level, sibling) := rest[0].1];
        assert (need + [sibling])[..|need|] == need;
        assert (LevelOf(known0, level) + Fill(need, sibs))[sibling := rest[0].1]
            == LevelOf(known0, level) + Fill(need, sibs)[sibling := rest[0].1];
        need := need + [sibling];
        rest := rest[1..];
      } else {
        assert need + [] == need;
      }
    }
    assert covered[..|covered|] == covered;
    fits := true;
  }

  lemma {:induction false} NeededMonotone(c: seq<nat>, k: nat, all: seq<nat>)
    requires k <= |c|
    ensures |Needed(c[..k], all)| <= |Needed(c, all)|
    decreases |c|
  {
    if k < |c| {
      var n := |c| - 1;
      assert c[..n][..k] == c[..k];
      NeededMonotone(c[..n], k, all);
    } else {
      assert c[..k] == c;
    }
  }

  /** The second pass: combine known pairs upwards, adding each level's siblings. */
  method Propagate(height: nat, known: map<(nat, nat), Hash>, ghost ms: seq<map<nat, Hash>>, ghost leafMap: map<nat, Hash>)
    returns (current: map<nat, Hash>)
    requires |ms| == height
    requires LevelOf(known, 0) == if height > 0 then leafMap + ms[0] else leafMap
    requires forall l :: 0 < l < height ==> LevelOf(known, l) == ms[l]
    ensures current == Propagated(ms, leafMap)
  {
    hide LevelOf, UpMap;
    current := LevelOf(known, 0);
    ghost var vals := leafMap;
    assert ms[0..] == ms;
    for level := 0 to height
      invariant level > 0 ==> current == vals
      invariant level == 0 ==> vals == leafMap && current == LevelOf(known, 0)
      invariant Propagated(ms[level..], vals) == Propagated(ms, leafMap)
    {
      assert current + LevelOf(known, level) == vals + ms[level];
      assert ms[level..][1..] == ms[level + 1..];
      current := current + LevelOf(known, level);
      current := CombinePairs(current);
      vals := current;
    }
    assert ms[height..] == [];
  }

  /** One level of the second pass, over the known positions in any order. */
  method CombinePairs(current: map<nat, Hash>) returns (next: map<nat, Hash>)
    ensures next == UpMap(current)
  {
    hide Combine, UpMap;
    next := map[];
    var positions := current.Keys;
    forall p: nat ensures p in UpMap(current) ==> 2 * p in positions && 2 * p + 1 in positions {
      UpMapAt(current, p);
    }
    while positions != {}
      invariant positions <= current.Keys
      invariant forall p :: p in next ==> p in UpMap(current) && next[p] == UpMap(current)[p]
      invariant forall p :: p in UpMap(current) && p !in next ==> 2 * p in positions && 2 * p + 1 in positions
      decreases |positions|
    {
      var pos :| pos in positions;
      var parent := pos / 2;
      UpMapAt(current, parent);
      if parent !in next && 2 * parent in current && 2 * parent + 1 in current {
        next := next[parent := Combine(current[2 * parent], current[2 * parent + 1])];
      }
      positions := positions - {pos};
    }
  }
}
