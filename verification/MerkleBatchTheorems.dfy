/**
 Completeness and binding of batch proofs. Nothing here depends on the hash:
 `Combine` and `LeafHash` are never unfolded.
 */
module MerkleBatchTheorems {
  import opened Basics
  import opened MerkleBatch

  /** Hashes required from one level are pairwise different. */
  predicate DistinctAt(nodes: seq<Hash>, need: seq<nat>) {
    forall i, j :: 0 <= i < j < |need| ==> At(nodes, need[i]) != At(nodes, need[j])
  }

  predicate DistinctUp(nodes: seq<Hash>, h: nat, c: seq<nat>)
    decreases h
  {
    h == 0 || (DistinctAt(nodes, Needed(c, c)) && DistinctUp(Up(nodes), h - 1, Parents(c)))
  }

  /** On every level, the siblings a batch needs have pairwise different hashes. */
  predicate SiblingsDistinct(leaves: seq<Hash>, indices: seq<nat>) {
    DistinctUp(Base(leaves), Height(leaves), ToSet(indices))
  }

  // ------------------------------------------------------- counting siblings

  /** How many siblings the verifier will ask for. */
  function Demand(h: nat, c: seq<nat>): nat
    decreases h
  {
    if h == 0 then 0 else |Needed(c, c)| + Demand(h - 1, Parents(c))
  }

  lemma {:induction false} EnoughIff(h: nat, c: seq<nat>, sibs: seq<(nat, Hash)>)
    ensures SiblingMaps(h, c, sibs).Some? <==> |sibs| >= Demand(h, c)
    decreases h
  {
    hide Needed, Parents, Fill;
    if h > 0 && |Needed(c, c)| <= |sibs| {
      EnoughIff(h - 1, Parents(c), sibs[|Needed(c, c)|..]);
    }
  }

  predicate Below(acc: seq<(nat, Hash)>, level: nat) {
    forall i :: 0 <= i < |acc| ==> acc[i].0 < level
  }

  function IdealLevel(level: nat, nodes: seq<Hash>, need: seq<nat>): (r: seq<(nat, Hash)>)
    ensures |r| == |need|
    ensures forall k :: 0 <= k < |need| ==> r[k] == (level, At(nodes, need[k]))
  {
    seq(|need|, k requires 0 <= k < |need| => (level, At(nodes, need[k])))
  }

  /** The prover drops a hash exactly when two of a level's siblings have the same one. */
  lemma {:induction false} EmitLevelCounts(level: nat, nodes: seq<Hash>, need: seq<nat>, acc: seq<(nat, Hash)>)
    requires Below(acc, level)
    ensures var out := EmitLevel(level, nodes, need, acc);
            Below(out, level + 1) && |out| <= |acc| + |need|
            && (DistinctAt(nodes, need) ==> out == acc + IdealLevel(level, nodes, need))
            && (!DistinctAt(nodes, need) ==> |out| < |acc| + |need|)
  {
    hide At;
    if need == [] {
      assert acc + IdealLevel(level, nodes, need) == acc;
    } else {
      var n := |need| - 1;
      var prefix, last := need[..n], need[n];
      EmitLevelCounts(level, nodes, prefix, acc);
      var before := EmitLevel(level, nodes, prefix, acc);
      var entry := (level, At(nodes, last));
      if DistinctAt(nodes, prefix) {
        LastEntry(level, nodes, need, acc);
      }
    }
  }

  /** After distinct siblings, the next one is new exactly when it differs from all of them. */
  lemma LastEntry(level: nat, nodes: seq<Hash>, need: seq<nat>, acc: seq<(nat, Hash)>)
    requires need != [] && Below(acc, level) && DistinctAt(nodes, need[..|need| - 1])
    ensures var n := |need| - 1;
            var before := acc + IdealLevel(level, nodes, need[..n]);
            var entry := (level, At(nodes, need[n]));
            (entry in before <==> !DistinctAt(nodes, need))
            && before + [entry] == acc + IdealLevel(level, nodes, need)
  {
    hide At;
    var n := |need| - 1;
    var ideal := IdealLevel(level, nodes, need[..n]);
    var before := acc + ideal;
    var entry := (level, At(nodes, need[n]));
    if entry in before {
      var k :| 0 <= k < |before| && before[k] == entry;
      assert k >= |acc|;
      assert ideal[k - |acc|] == entry;
      assert At(nodes, need[k - |acc|]) == At(nodes, need[n]);
    } else {
      forall i, j | 0 <= i < j < |need| ensures At(nodes, need[i]) != At(nodes, need[j]) {
        assert j == n ==> before[|acc| + i] == (level, At(nodes, need[i]));
        if j < n {
          assert need[..n][i] == need[i] && need[..n][j] == need[j];
        }
      }
    }
  }

  function Ideal(level: nat, nodes: seq<Hash>, h: nat, c: seq<nat>): seq<(nat, Hash)>
    decreases h
  {
    if h == 0 then []
    else IdealLevel(level, nodes, Needed(c, c)) + Ideal(level + 1, Up(nodes), h - 1, Parents(c))
  }

  lemma {:induction false} EmitAllCounts(level: nat, nodes: seq<Hash>, h: nat, c: seq<nat>, acc: seq<(nat, Hash)>)
    requires Below(acc, level)
    ensures var out := EmitAll(level, nodes, h, c, acc);
            |out| <= |acc| + Demand(h, c)
            && (DistinctUp(nodes, h, c) ==> out == acc + Ideal(level, nodes, h, c))
            && (!DistinctUp(nodes, h, c) ==> |out| < |acc| + Demand(h, c))
    decreases h
  {
    hide Needed, Parents, Up, EmitLevel, DistinctAt, IdealLevel, Below;
    if h == 0 {
      assert acc + Ideal(level, nodes, h, c) == acc;
    } else {
      var need := Needed(c, c);
      var emitted := EmitLevel(level, nodes, need, acc);
      EmitLevelCounts(level, nodes, need, acc);
      EmitAllCounts(level + 1, Up(nodes), h - 1, Parents(c), emitted);
      Assoc(acc, IdealLevel(level, nodes, need), Ideal(level + 1, Up(nodes), h - 1, Parents(c)));
    }
  }

  // ---------------------------------------------------- rebuilding the tree

  /** The tree's own hashes at some positions. */
  function Trim(nodes: seq<Hash>, c: seq<nat>): map<nat, Hash> {
    map p | p in c :: At(nodes, p)
  }

  lemma {:induction false} FillHonest(level: nat, nodes: seq<Hash>, need: seq<nat>, sibs: seq<(nat, Hash)>)
    requires IdealLevel(level, nodes, need) <= sibs
    ensures Fill(need, sibs) == Trim(nodes, need)
  {
    hide At;
    if need != [] {
      var n := |need| - 1;
      assert need == need[..n] + [need[n]];
      assert sibs[n] == IdealLevel(level, nodes, need)[n];
      assert IdealLevel(level, nodes, need[..n]) == IdealLevel(level, nodes, need)[..n];
      FillHonest(level, nodes, need[..n], sibs);
    }
  }

  /** Covered positions and their missing siblings determine exactly the covered parents. */
  lemma UpHonest(nodes: seq<Hash>, c: seq<nat>)
    requires Increasing(c) && |nodes| % 2 == 0 && InRange(c, |nodes|)
    ensures UpMap(Trim(nodes, c) + Trim(nodes, Needed(c, c))) == Trim(Up(nodes), Parents(c))
    ensures InRange(Parents(c), |Up(nodes)|)
  {
    hide Combine, Needed, Parents, Up, UpMap, Increasing, Trim;
    forall p: nat ensures HonestAt(nodes, c, p) {
      UpHonestAt(nodes, c, p);
    }
    var got, want := UpMap(Trim(nodes, c) + Trim(nodes, Needed(c, c))), Trim(Up(nodes), Parents(c));
    assert forall p :: p in got <==> p in want by {
      forall p: nat ensures p in got <==> p in want {
        assert HonestAt(nodes, c, p);
      }
    }
    forall p | p in want ensures got[p] == want[p] {
      assert HonestAt(nodes, c, p);
    }
    forall i | 0 <= i < |Parents(c)| ensures Parents(c)[i] < |Up(nodes)| {
      assert HonestAt(nodes, c, Parents(c)[i]);
    }
  }

  /** `UpHonest` at one position. */
  ghost predicate HonestAt(nodes: seq<Hash>, c: seq<nat>, p: nat) {
    var got, want := UpMap(Trim(nodes, c) + Trim(nodes, Needed(c, c))), Trim(Up(nodes), Parents(c));
    (p in got <==> p in want) && (p in want ==> got[p] == want[p])
    && (p in Parents(c) ==> p < |Up(nodes)|)
  }

  lemma UpHonestAt(nodes: seq<Hash>, c: seq<nat>, p: nat)
    requires Increasing(c) && |nodes| % 2 == 0 && InRange(c, |nodes|)
    ensures HonestAt(nodes, c, p)
  {
    hide Combine, Needed, Parents, Up, UpMap, Increasing;
    ParentsKeep(c);
    var filled := Trim(nodes, c) + Trim(nodes, Needed(c, c));
    UpMapAt(filled, p);
    PairCovered(c, p);
    if p in Parents(c) {
      assert 2 * p in c ==> 2 * p < |nodes|;
      assert 2 * p + 1 in c ==> 2 * p + 1 < |nodes|;
      assert filled[2 * p] == At(nodes, 2 * p) && filled[2 * p + 1] == At(nodes, 2 * p + 1);
    }
  }

  /** A pair is fully known exactly when one of its two positions is covered. */
  lemma PairCovered(c: seq<nat>, p: nat)
    requires Increasing(c)
    ensures (2 * p in c || 2 * p in Needed(c, c)) && (2 * p + 1 in c || 2 * p + 1 in Needed(c, c))
       <==> p in Parents(c)
  {
    hide Needed, Parents, Increasing, Sibling;
    NeededKeeps(c, c);
    ParentsKeep(c);
    Siblings(p);
    var l, r := 2 * p, 2 * p + 1;
    assert l in Needed(c, c) <==> r in c && l !in c;
    assert r in Needed(c, c) <==> l in c && r !in c;
  }

  lemma Siblings(p: nat)
    ensures Sibling(2 * p) == 2 * p + 1 && Sibling(2 * p + 1) == 2 * p
  {
  }

  lemma {:induction false} RebuildHonest(level: nat, nodes: seq<Hash>, h: nat, c: seq<nat>, sibs: seq<(nat, Hash)>)
    requires Increasing(c) && |nodes| == Pow2(h) && InRange(c, |nodes|)
    requires sibs == Ideal(level, nodes, h, c)
    ensures |Ascend(nodes, h)| == 1
    ensures var ms := SiblingMaps(h, c, sibs);
            ms.Some? && Propagated(ms.value, Trim(nodes, c))
                        == (if c == [] then map[] else map[0 := Ascend(nodes, h)[0]])
    decreases h
  {
    hide Combine, Needed, Parents, Up, UpMap, Fill, Trim, IdealLevel;
    AscendLength(nodes, h, h);
    if h == 0 {
      TrimTop(nodes, c);
    } else {
      var need := Needed(c, c);
      var ideal := IdealLevel(level, nodes, need);
      assert sibs[|need|..] == Ideal(level + 1, Up(nodes), h - 1, Parents(c));
      FillHonest(level, nodes, need, sibs);
      UpHonest(nodes, c);
      ParentsKeep(c);
      ParentsEmptyIff(c);
      RebuildHonest(level + 1, Up(nodes), h - 1, Parents(c), sibs[|need|..]);
      var ms := SiblingMaps(h, c, sibs).value;
      assert ms[1..] == SiblingMaps(h - 1, Parents(c), sibs[|need|..]).value;
    }
  }

  lemma TrimTop(nodes: seq<Hash>, c: seq<nat>)
    requires |nodes| == 1 && InRange(c, 1)
    ensures Trim(nodes, c) == if c == [] then map[] else map[0 := nodes[0]]
  {
    if c != [] {
      assert c[0] == 0 && 0 in c;
    }
  }

  lemma ParentsEmptyIff(c: seq<nat>)
    ensures Parents(c) == [] <==> c == []
  {
    hide Parents;
    ParentsKeep(c);
    if c != [] {
      var p := c[0] / 2;
      assert c[0] in c && (2 * p == c[0] || 2 * p + 1 == c[0]);
      assert p in Parents(c);
    } else {
      assert Parents([]) == [] by { NoParents(); }
    }
  }

  lemma NoParents()
    ensures Parents([]) == []
  {
  }

  // ------------------------------------------------------------ completeness

  /** The data items the caller passes with a proof: those at the proof's indices, in its order. */
  function ItemsAt(data: seq<Bytes>, indices: seq<nat>): (r: seq<Bytes>)
    requires InRange(indices, |data|)
    ensures |r| == |indices|
    ensures forall i :: 0 <= i < |r| ==> r[i] == data[indices[i]]
  {
    seq(|indices|, i requires 0 <= i < |indices| => data[indices[i]])
  }

  lemma {:induction false} LeafMapHonest(data: seq<Bytes>, indices: seq<nat>, nodes: seq<Hash>)
    requires InRange(indices, |data|) && |data| <= |nodes|
    requires forall i :: 0 <= i < |data| ==> nodes[i] == LeafHash(data[i])
    ensures LeafMap(indices, ItemsAt(data, indices)) == Trim(nodes, indices)
  {
    hide LeafHash;
    if indices != [] {
      var n := |indices| - 1;
      LeafMapHonest(data, indices[..n], nodes);
      assert ItemsAt(data, indices)[..n] == ItemsAt(data, indices[..n]);
      assert indices == indices[..n] + [indices[n]];
    }
  }

  /**
   A proof made for in-range, distinct indices verifies with the matching data
   exactly when there is at least one index and the siblings it needs have
   pairwise different hashes on every level; otherwise verification is an error.
   */
  lemma BatchCompleteIff(data: seq<Bytes>, sorted: seq<nat>)
    requires data != [] && Increasing(sorted) && InRange(sorted, |data|)
    ensures var leaves := LeafHashes(data);
            var verdict := Verdict(Height(leaves), ProofFor(leaves, sorted), ItemsAt(data, sorted));
            (verdict == Success(true) <==> sorted != [] && SiblingsDistinct(leaves, sorted))
            && (verdict != Success(true) ==> verdict == Failure(InvalidProof))
  {
    hide Combine, LeafHash, Up, Needed, Parents, ToSet, Trim, LeafMap, SiblingMaps, Propagated, EmitAll, DistinctUp, Ideal, Demand, Ascend, CeilLog2, Increasing;
    var leaves := LeafHashes(data);
    var nodes, h := Base(leaves), Height(leaves);
    CeilLog2Bounds(|leaves|);
    ToSetOfIncreasing(sorted);
    EmitAllCounts(0, nodes, h, sorted, []);
    var sibs := ProofFor(leaves, sorted).siblingHashes;
    EnoughIff(h, sorted, sibs);
    if DistinctUp(nodes, h, sorted) {
      assert [] + Ideal(0, nodes, h, sorted) == Ideal(0, nodes, h, sorted);
      LeafMapHonest(data, sorted, nodes);
      RebuildHonest(0, nodes, h, sorted, sibs);
    }
  }

  lemma NeededOfEvens(c: seq<nat>)
    requires c == [0, 2]
    ensures Needed(c, c) == [1, 3]
  {
    var one := c[..1];
    assert one == [0] && one[..0] == [];
    assert Needed(one, c) == Needed(one[..0], c) + [1];
    assert Needed(c, c) == Needed(one, c) + [3];
  }

  /** Four leaves of which the second and the last are equal: no proof for the other two verifies. */
  lemma EqualSiblingsAreRejected(data: seq<Bytes>, c: seq<nat>)
    requires |data| == 4 && data[1] == data[3] && c == [0, 2]
    ensures var leaves := LeafHashes(data);
            Verdict(Height(leaves), ProofFor(leaves, c), ItemsAt(data, c)) == Failure(InvalidProof)
  {
    hide Combine, LeafHash, Verdict, ProofFor, Needed, Up, Parents, ToSet;
    var leaves := LeafHashes(data);
    CeilLog2Bounds(|leaves|);
    NeededOfEvens(c);
    var nodes := Base(leaves);
    assert At(nodes, 1) == At(nodes, 3);
    assert !DistinctAt(nodes, [1, 3]) by {
      assert At(nodes, [1, 3][0]) == At(nodes, [1, 3][1]);
    }
    ToSetOfIncreasing(c);
    BatchCompleteIff(data, c);
  }

  // ----------------------------------------------------------------- binding

  /** Keys the verifier's maps always have. */
  ghost predicate Shaped(h: nat, c: seq<nat>, ms: seq<map<nat, Hash>>)
    decreases h
  {
    |ms| == h
    && (h > 0 ==> (forall p :: p in ms[0] <==> p in Needed(c, c)) && Shaped(h - 1, Parents(c), ms[1..]))
  }

  lemma {:induction false} FillKeys(need: seq<nat>, sibs: seq<(nat, Hash)>)
    requires |need| <= |sibs|
    ensures forall p :: p in Fill(need, sibs) <==> p in need
  {
    if need != [] {
      var n := |need| - 1;
      FillKeys(need[..n], sibs);
      assert need == need[..n] + [need[n]];
    }
  }

  lemma {:induction false} SiblingMapsShaped(h: nat, c: seq<nat>, sibs: seq<(nat, Hash)>)
    requires SiblingMaps(h, c, sibs).Some?
    ensures Shaped(h, c, SiblingMaps(h, c, sibs).value)
    decreases h
  {
    hide Needed, Parents, Fill;
    if h > 0 {
      var need := Needed(c, c);
      FillKeys(need, sibs);
      SiblingMapsShaped(h - 1, Parents(c), sibs[|need|..]);
      var ms := SiblingMaps(h, c, sibs).value;
      assert ms[1..] == SiblingMaps(h - 1, Parents(c), sibs[|need|..]).value;
    }
  }

  /** The hashes known at level `k` of a run: computed ones and the siblings supplied. */
  function KnownAt(ms: seq<map<nat, Hash>>, vals: map<nat, Hash>, k: nat): map<nat, Hash>
    requires k < |ms|
    decreases k
  {
    if k == 0 then vals + ms[0] else KnownAt(ms[1..], UpMap(vals + ms[0]), k - 1)
  }

  /** Two runs hash two different pairs to the same value at parent `p` of level `k`. */
  predicate Collide(ms: seq<map<nat, Hash>>, vals: map<nat, Hash>, ns: seq<map<nat, Hash>>, vols: map<nat, Hash>, k: nat, p: nat) {
    k < |ms| && k < |ns|
    && PairCollides(KnownAt(ms, vals, k), KnownAt(ns, vols, k), p)
  }

  predicate PairCollides(a: map<nat, Hash>, b: map<nat, Hash>, p: nat) {
    2 * p in a && 2 * p + 1 in a && 2 * p in b && 2 * p + 1 in b
    && (a[2 * p], a[2 * p + 1]) != (b[2 * p], b[2 * p + 1])
    && Combine(a[2 * p], a[2 * p + 1]) == Combine(b[2 * p], b[2 * p + 1])
  }

  ghost predicate Keyed(m: map<nat, Hash>, c: seq<nat>) {
    forall p :: p in m <==> p in c
  }

  lemma UpKeyed(c: seq<nat>, vals: map<nat, Hash>, sibs: map<nat, Hash>)
    requires Increasing(c) && Keyed(vals, c) && Keyed(sibs, Needed(c, c))
    ensures Keyed(UpMap(vals + sibs), Parents(c))
  {
    hide Combine, Needed, Parents, UpMap, Increasing;
    forall p: nat ensures p in UpMap(vals + sibs) <==> p in Parents(c) {
      UpMapAt(vals + sibs, p);
      PairCovered(c, p);
    }
  }

  /**
   Two runs over the same covered positions that reach the same top either
   start from the same hashes within the tree or contain a collision of
   `Combine`.
   */
  lemma {:induction false} Bind(h: nat, c: seq<nat>, ms: seq<map<nat, Hash>>, vals: map<nat, Hash>,
                                ns: seq<map<nat, Hash>>, vols: map<nat, Hash>) returns (k: nat, p: nat)
    requires Increasing(c)
    requires Shaped(h, c, ms) && Shaped(h, c, ns) && Keyed(vals, c) && Keyed(vols, c)
    requires var a, b := Propagated(ms, vals), Propagated(ns, vols);
             0 in a && 0 in b && a[0] == b[0]
    ensures AgreeBelow(vals, vols, c, Pow2(h)) || Collide(ms, vals, ns, vols, k, p)
    decreases h
  {
    hide Combine, Needed, Parents, UpMap, Increasing, AgreeBelow, PairCollides, Keyed;
    k, p := 0, 0;
    if h == 0 {
      AgreeAtTop(vals, vols, c);
    } else {
      var f, g := vals + ms[0], vols + ns[0];
      ShapedKeyed(h, c, ms);
      ShapedKeyed(h, c, ns);
      UpKeyed(c, vals, ms[0]);
      UpKeyed(c, vols, ns[0]);
      ParentsKeep(c);
      k, p := Bind(h - 1, Parents(c), ms[1..], UpMap(f), ns[1..], UpMap(g));
      if AgreeBelow(UpMap(f), UpMap(g), Parents(c), Pow2(h - 1)) {
        p := BindLevel(c, ms[0], ns[0], vals, vols, Pow2(h - 1));
        k := 0;
      } else {
        k := k + 1;
      }
    }
  }

  lemma ShapedKeyed(h: nat, c: seq<nat>, ms: seq<map<nat, Hash>>)
    requires h > 0 && Shaped(h, c, ms)
    ensures Keyed(ms[0], Needed(c, c))
  {
  }

  /** Two maps have the same hash at every covered position below `n`. */
  ghost predicate AgreeBelow(vals: map<nat, Hash>, vols: map<nat, Hash>, c: seq<nat>, n: nat) {
    forall q :: q in c && q < n ==> q in vals && q in vols && vals[q] == vols[q]
  }

  lemma AgreeAtTop(vals: map<nat, Hash>, vols: map<nat, Hash>, c: seq<nat>)
    requires 0 in vals && 0 in vols && vals[0] == vols[0]
    ensures AgreeBelow(vals, vols, c, 1)
  {
  }

  /** Equal parents below `n` on a level: equal children below `2 * n`, or two different pairs with one hash. */
  lemma BindLevel(c: seq<nat>, sibs: map<nat, Hash>, sobs: map<nat, Hash>, vals: map<nat, Hash>, vols: map<nat, Hash>, n: nat)
    returns (p: nat)
    requires Increasing(c) && AgreeBelow(UpMap(vals + sibs), UpMap(vols + sobs), Parents(c), n)
    requires Keyed(vals, c) && Keyed(vols, c) && Keyed(sibs, Needed(c, c)) && Keyed(sobs, Needed(c, c))
    ensures AgreeBelow(vals, vols, c, 2 * n) || PairCollides(vals + sibs, vols + sobs, p)
  {
    hide Combine, Needed, Parents, UpMap, Increasing, Keyed, AgreeBelow, PairCollides;
    p := 0;
    if !AgreeBelow(vals, vols, c, 2 * n) {
      var q := Disagreement(vals, vols, c, 2 * n);
      p := q / 2;
      ParentOf(c, q);
      KnownPair(c, sibs, vals, p, q);
      KnownPair(c, sobs, vols, p, q);
      PairMustCollide(vals + sibs, vols + sobs, Parents(c), n, p, q);
    }
  }

  lemma Disagreement(vals: map<nat, Hash>, vols: map<nat, Hash>, c: seq<nat>, n: nat) returns (q: nat)
    requires Keyed(vals, c) && Keyed(vols, c) && !AgreeBelow(vals, vols, c, n)
    ensures q in c && q < n && q in vals && q in vols && vals[q] != vols[q]
  {
    q :| q in c && q < n && !(q in vals && q in vols && vals[q] == vols[q]);
  }

  lemma ParentOf(c: seq<nat>, q: nat)
    requires q in c
    ensures q / 2 in Parents(c)
  {
    hide Parents;
    ParentsKeep(c);
    assert q == 2 * (q / 2) || q == 2 * (q / 2) + 1;
  }

  lemma PairMustCollide(f: map<nat, Hash>, g: map<nat, Hash>, above: seq<nat>, n: nat, p: nat, q: nat)
    requires 2 * p in f && 2 * p + 1 in f && 2 * p in g && 2 * p + 1 in g && p == q / 2
    requires q in f && q in g && f[q] != g[q] && q < 2 * n
    requires p in above && AgreeBelow(UpMap(f), UpMap(g), above, n)
    ensures PairCollides(f, g, p)
  {
    hide Combine, UpMap;
    UpMapAt(f, p);
    UpMapAt(g, p);
    assert q == 2 * p || q == 2 * p + 1;
  }

  /** The pair above a covered position is known, and the position keeps its own hash. */
  lemma KnownPair(c: seq<nat>, sibs: map<nat, Hash>, vals: map<nat, Hash>, p: nat, q: nat)
    requires Increasing(c) && Keyed(vals, c) && Keyed(sibs, Needed(c, c)) && q in c && p in Parents(c)
    ensures var known := vals + sibs;
            2 * p in known && 2 * p + 1 in known && p in UpMap(known)
            && UpMap(known)[p] == Combine(known[2 * p], known[2 * p + 1])
            && q in known && known[q] == vals[q]
  {
    hide Combine, Needed, Parents, UpMap, Increasing;
    NeededKeeps(c, c);
    PairCovered(c, p);
    UpMapAt(vals + sibs, p);
    assert q !in Needed(c, c);
  }

  /** The item at `i` is the one that counts for its index: no later item has the same. */
  predicate LastOf(indices: seq<nat>, i: nat) {
    i < |indices| && forall j :: i < j < |indices| ==> indices[j] != indices[i]
  }

  /** Later items win: at each index lies the hash of the last item given for it. */
  lemma {:induction false} LeafMapIs(indices: seq<nat>, items: seq<Bytes>)
    requires |indices| == |items|
    ensures forall q :: q in LeafMap(indices, items) <==> q in indices
    ensures forall i: nat :: LastOf(indices, i) ==> LeafMap(indices, items)[indices[i]] == LeafHash(items[i])
  {
    hide LeafHash, LeafMap;
    if indices == [] {
      NoLeaves();
    } else {
      var n := |indices| - 1;
      var xs, ys := indices[..n], items[..n];
      LeafMapIs(xs, ys);
      assert indices[..n + 1] == indices && items[..n + 1] == items;
      LeafMapSnoc(indices, items, n);
      var m := LeafMap(xs, ys);
      assert indices == xs + [indices[n]];
      forall q ensures q in LeafMap(indices, items) <==> q in indices {
        assert q in m <==> q in xs;
      }
      forall i: nat | LastOf(indices, i) ensures LeafMap(indices, items)[indices[i]] == LeafHash(items[i]) {
        if i < n {
          assert indices[n] != indices[i];
          assert LastOf(xs, i) by {
            forall j | i < j < |xs| ensures xs[j] != xs[i] {
              assert indices[j] != indices[i];
            }
          }
        }
      }
    }
  }

  lemma LeafMapKeyed(indices: seq<nat>, items: seq<Bytes>)
    requires |indices| == |items|
    ensures Keyed(LeafMap(indices, items), ToSet(indices)) && Increasing(ToSet(indices))
  {
    hide LeafMap, ToSet, Increasing;
    LeafMapIs(indices, items);
    ToSetKeeps(indices);
  }

  /** The sibling maps and the leaf map of an accepted run. */
  function MapsOf(h: nat, proof: BatchProof): seq<map<nat, Hash>> {
    match SiblingMaps(h, ToSet(proof.leafIndices), proof.siblingHashes)
    case None => []
    case Some(ms) => ms
  }

  function StartOf(proof: BatchProof, items: seq<Bytes>): map<nat, Hash> {
    if |proof.leafIndices| == |items| then LeafMap(proof.leafIndices, items) else map[]
  }

  /** The positions whose items the root vouches for: within the tree, and the last of their index. */
  predicate Bound(h: nat, indices: seq<nat>, i: nat) {
    LastOf(indices, i) && indices[i] < Pow2(h)
  }

  /**
   Binding: two accepted proofs for the same indices, in any order, repeated or
   not, and the same root, whatever siblings they carry, vouch for the same leaf
   hash at every bound position, or the two reconstructions hash two different
   pairs to one value at an explicit place.
   */
  lemma BatchBinding(h: nat, proof: BatchProof, items: seq<Bytes>, other: BatchProof, items': seq<Bytes>)
    returns (k: nat, p: nat)
    requires other.leafIndices == proof.leafIndices && other.root == proof.root
    requires Verdict(h, proof, items) == Success(true)
    requires Verdict(h, other, items') == Success(true)
    ensures |items| == |items'| == |proof.leafIndices|
    ensures SameWhereBound(h, proof.leafIndices, items, items')
            || Collide(MapsOf(h, proof), StartOf(proof, items), MapsOf(h, other), StartOf(other, items'), k, p)
  {
    hide Combine, LeafHash, LeafMap, SiblingMaps, Propagated, Collide, ToSet, Increasing, Shaped, Keyed;
    var indices := proof.leafIndices;
    var c := ToSet(indices);
    SiblingMapsShaped(h, c, proof.siblingHashes);
    SiblingMapsShaped(h, c, other.siblingHashes);
    LeafMapKeyed(indices, items);
    LeafMapKeyed(indices, items');
    k, p := Bind(h, c, MapsOf(h, proof), LeafMap(indices, items), MapsOf(h, other), LeafMap(indices, items'));
    if AgreeBelow(LeafMap(indices, items), LeafMap(indices, items'), c, Pow2(h)) {
      SameAtBound(h, indices, items, items');
    }
  }

  /** The leaf hashes agree wherever they are bound. */
  ghost predicate SameWhereBound(h: nat, indices: seq<nat>, items: seq<Bytes>, items': seq<Bytes>) {
    |items| == |items'| == |indices|
    && forall i: nat :: Bound(h, indices, i) ==> LeafHash(items[i]) == LeafHash(items'[i])
  }

  lemma SameAtBound(h: nat, indices: seq<nat>, items: seq<Bytes>, items': seq<Bytes>)
    requires |items| == |items'| == |indices|
    requires AgreeBelow(LeafMap(indices, items), LeafMap(indices, items'), ToSet(indices), Pow2(h))
    ensures SameWhereBound(h, indices, items, items')
  {
    hide LeafHash, LeafMap, ToSet;
    LeafMapIs(indices, items);
    LeafMapIs(indices, items');
    ToSetKeeps(indices);
    forall i: nat | Bound(h, indices, i) ensures LeafHash(items[i]) == LeafHash(items'[i]) {
      assert indices[i] in indices;
    }
  }

  /** Distinct indices within the tree are all bound. */
  lemma DistinctAreBound(h: nat, indices: seq<nat>)
    requires Distinct(indices) && InRange(indices, Pow2(h))
    ensures forall i: nat :: i < |indices| ==> Bound(h, indices, i)
  {
  }

  // ------------------------------------------------------- what is not bound

  /** The reconstruction at the root looks at positions within the tree only. */
  ghost predicate SameBelow(f: map<nat, Hash>, g: map<nat, Hash>, n: nat) {
    forall q: nat :: q < n ==> (q in f <==> q in g) && (q in f ==> f[q] == g[q])
  }

  lemma {:induction false} TopLooksBelow(ms: seq<map<nat, Hash>>, f: map<nat, Hash>, g: map<nat, Hash>)
    requires SameBelow(f, g, Pow2(|ms|))
    ensures SameBelow(Propagated(ms, f), Propagated(ms, g), 1)
    decreases |ms|
  {
    hide UpMap, Combine;
    if ms != [] {
      var f', g' := f + ms[0], g + ms[0];
      forall q: nat | q < Pow2(|ms| - 1)
        ensures (q in UpMap(f') <==> q in UpMap(g')) && (q in UpMap(f') ==> UpMap(f')[q] == UpMap(g')[q])
      {
        UpMapAt(f', q);
        UpMapAt(g', q);
        assert 2 * q < Pow2(|ms|) && 2 * q + 1 < Pow2(|ms|);
      }
      TopLooksBelow(ms[1..], UpMap(f'), UpMap(g'));
    }
  }

  lemma LeafMapWithout(indices: seq<nat>, items: seq<Bytes>, i: nat, x: Bytes, n: nat)
    requires i < |indices| == |items| && (LastOf(indices, i) ==> indices[i] >= n)
    ensures SameBelow(LeafMap(indices, items), LeafMap(indices, items[i := x]), n)
  {
    hide LeafHash, LeafMap, LastOf;
    LeafMapIs(indices, items);
    LeafMapIs(indices, items[i := x]);
    var m, m' := LeafMap(indices, items), LeafMap(indices, items[i := x]);
    forall q: nat | q < n ensures (q in m <==> q in m') && (q in m ==> m[q] == m'[q]) {
      if q in indices {
        var j := LastIndexOf(indices, q);
        LastOfMeans(indices, j);
        assert j != i;
        assert m[indices[j]] == LeafHash(items[j]) && m'[indices[j]] == LeafHash(items[i := x][j]);
      }
    }
  }

  lemma LastOfMeans(indices: seq<nat>, i: nat)
    requires LastOf(indices, i)
    ensures i < |indices|
  {
  }

  lemma {:induction false} LastIndexOf(indices: seq<nat>, q: nat) returns (j: nat)
    requires q in indices
    ensures LastOf(indices, j) && indices[j] == q
  {
    var n := |indices| - 1;
    if indices[n] == q {
      j := n;
    } else {
      assert indices == indices[..n] + [indices[n]];
      j := LastIndexOf(indices[..n], q);
      forall k | j < k < |indices| ensures indices[k] != indices[j] {
        assert k < n ==> indices[k] == indices[..n][k];
      }
    }
  }

  /**
   And only those are: at a position that is not bound, with a repeated index
   that comes again later or one beyond the tree, any item gets the same verdict.
   */
  lemma UnboundItem(h: nat, proof: BatchProof, items: seq<Bytes>, i: nat, x: Bytes)
    requires i < |items| == |proof.leafIndices| && !Bound(h, proof.leafIndices, i)
    ensures Verdict(h, proof, items[i := x]) == Verdict(h, proof, items)
  {
    hide Combine, LeafHash, LeafMap, SiblingMaps, Propagated, ToSet;
    var indices := proof.leafIndices;
    var ms := SiblingMaps(h, ToSet(indices), proof.siblingHashes);
    LeafMapWithout(indices, items, i, x, Pow2(h));
    if ms.Some? {
      TopLooksBelow(ms.value, LeafMap(indices, items), LeafMap(indices, items[i := x]));
    }
  }

  /** In a tree of one leaf `y`: beside it, any `x` passes under the same index or the next one. */
  lemma AnythingPasses(x: Bytes, y: Bytes)
    ensures Verdict(0, BatchProof([0, 0], [], LeafHash(y)), [x, y]) == Success(true)
    ensures Verdict(0, BatchProof([0, 1], [], LeafHash(y)), [y, x]) == Success(true)
  {
    OneLeafVerdict([0, 0], [x, y], 1);
    OneLeafVerdict([0, 1], [y, x], 0);
  }

  lemma OneLeafVerdict(indices: seq<nat>, items: seq<Bytes>, i: nat)
    requires |indices| == |items| && LastOf(indices, i) && indices[i] == 0
    ensures Verdict(0, BatchProof(indices, [], LeafHash(items[i])), items) == Success(true)
  {
    hide LeafHash, ToSet, LeafMap;
    LeafMapIs(indices, items);
    assert indices[i] in indices;
  }

  // ----------------------------------------------- proofs against a known tree

  /** The siblings an honest prover would supply, at whatever positions are asked for. */
  function HonestMaps(h: nat, nodes: seq<Hash>, c: seq<nat>): (ms: seq<map<nat, Hash>>)
    ensures |ms| == h
    decreases h
  {
    if h == 0 then [] else [Trim(nodes, Needed(c, c))] + HonestMaps(h - 1, Up(nodes), Parents(c))
  }

  lemma {:induction false} HonestMapsShaped(h: nat, nodes: seq<Hash>, c: seq<nat>)
    ensures Shaped(h, c, HonestMaps(h, nodes, c))
    decreases h
  {
    hide Needed, Parents, Up;
    if h > 0 {
      HonestMapsShaped(h - 1, Up(nodes), Parents(c));
    }
  }

  /** A run that starts from the tree's hashes within the tree, with honest siblings, ends in the tree's root. */
  lemma {:induction false} HonestTop(h: nat, nodes: seq<Hash>, c: seq<nat>, vals: map<nat, Hash>, q: nat)
    requires |nodes| == Pow2(h) && Increasing(c) && Keyed(vals, c) && q in c && q < Pow2(h)
    requires AgreeBelow(vals, Trim(nodes, c), c, Pow2(h))
    ensures |Ascend(nodes, h)| == 1
    ensures var top := Propagated(HonestMaps(h, nodes, c), vals);
            0 in top && top[0] == Ascend(nodes, h)[0]
    decreases h
  {
    hide Combine, Needed, Parents, Up, UpMap, Increasing, Trim;
    AscendLength(nodes, h, h);
    if h == 0 {
      assert 0 in c && vals[0] == nodes[0] by { TrimIs(nodes, c, 0); }
    } else {
      var sibs := Trim(nodes, Needed(c, c));
      var up := UpMap(vals + sibs);
      assert Keyed(sibs, Needed(c, c)) by { TrimKeyed(nodes, Needed(c, c)); }
      UpKeyed(c, vals, sibs);
      ParentsKeep(c);
      assert 2 * (q / 2) == q || 2 * (q / 2) + 1 == q;
      forall p | p in Parents(c) && p < Pow2(h - 1)
        ensures p in up && p in Trim(Up(nodes), Parents(c)) && up[p] == Trim(Up(nodes), Parents(c))[p]
      {
        HonestStep(nodes, c, vals, p);
      }
      HonestTop(h - 1, Up(nodes), Parents(c), up, q / 2);
      assert HonestMaps(h, nodes, c)[1..] == HonestMaps(h - 1, Up(nodes), Parents(c));
    }
  }

  lemma TrimKeyed(nodes: seq<Hash>, c: seq<nat>)
    ensures Keyed(Trim(nodes, c), c)
  {
  }

  lemma TrimIs(nodes: seq<Hash>, c: seq<nat>, q: nat)
    requires q in c && q < |nodes|
    ensures q in Trim(nodes, c) && Trim(nodes, c)[q] == nodes[q]
  {
  }

  lemma HonestStep(nodes: seq<Hash>, c: seq<nat>, vals: map<nat, Hash>, p: nat)
    requires Increasing(c) && Keyed(vals, c) && AgreeBelow(vals, Trim(nodes, c), c, |nodes|)
    requires p in Parents(c) && 2 * p + 1 < |nodes|
    ensures var up := UpMap(vals + Trim(nodes, Needed(c, c)));
            p in up && p in Trim(Up(nodes), Parents(c)) && up[p] == Trim(Up(nodes), Parents(c))[p]
  {
    hide Combine, Needed, Parents, UpMap, Increasing, Up;
    var known := vals + Trim(nodes, Needed(c, c));
    UpMapAt(known, p);
    PairCovered(c, p);
    assert known[2 * p] == nodes[2 * p] && known[2 * p + 1] == nodes[2 * p + 1];
    assert Up(nodes)[p] == Combine(nodes[2 * p], nodes[2 * p + 1]);
  }

  /**
   A proof accepted against the root of a real tree, whatever siblings it
   carries, opens at every bound position to the leaf of that tree, or its
   reconstruction and the tree hash two different pairs to one value at an
   explicit place.
   */
  lemma ForeignItemCollides(leaves: seq<Hash>, proof: BatchProof, items: seq<Bytes>) returns (k: nat, p: nat)
    requires proof.root == RootOf(Base(leaves), Height(leaves))
    requires Verdict(Height(leaves), proof, items) == Success(true)
    ensures |items| == |proof.leafIndices|
    ensures var h, nodes, c := Height(leaves), Base(leaves), ToSet(proof.leafIndices);
            TrueWhereBound(h, proof.leafIndices, items, nodes)
            || Collide(MapsOf(h, proof), StartOf(proof, items), HonestMaps(h, nodes, c), Trim(nodes, c), k, p)
  {
    hide Combine, LeafHash, LeafMap, SiblingMaps, Propagated, Collide, ToSet, Increasing, Shaped, Keyed, HonestMaps, Trim, Height, Base, Ascend, AgreeBelow, TrueWhereBound;
    var h, nodes, indices := Height(leaves), Base(leaves), proof.leafIndices;
    var c := ToSet(indices);
    k, p := 0, 0;
    if q :| q in c && q < Pow2(h) {
      SiblingMapsShaped(h, c, proof.siblingHashes);
      HonestMapsShaped(h, nodes, c);
      LeafMapKeyed(indices, items);
      TrimKeyed(nodes, c);
      HonestAgrees(nodes, c, Pow2(h));
      HonestTop(h, nodes, c, Trim(nodes, c), q);
      k, p := Bind(h, c, MapsOf(h, proof), LeafMap(indices, items), HonestMaps(h, nodes, c), Trim(nodes, c));
    } else {
      NoneBelow(LeafMap(indices, items), Trim(nodes, c), c, Pow2(h));
    }
    if AgreeBelow(LeafMap(indices, items), Trim(nodes, c), c, Pow2(h)) {
      TrueAtBound(h, indices, items, nodes);
    }
  }

  lemma NoneBelow(vals: map<nat, Hash>, vols: map<nat, Hash>, c: seq<nat>, n: nat)
    requires forall q :: q in c ==> q >= n
    ensures AgreeBelow(vals, vols, c, n)
  {
  }

  /** The items hash to the leaves of the tree wherever they are bound. */
  ghost predicate TrueWhereBound(h: nat, indices: seq<nat>, items: seq<Bytes>, nodes: seq<Hash>) {
    |items| == |indices| && |nodes| == Pow2(h)
    && forall i: nat :: Bound(h, indices, i) ==> LeafHash(items[i]) == nodes[indices[i]]
  }

  lemma TrueAtBound(h: nat, indices: seq<nat>, items: seq<Bytes>, nodes: seq<Hash>)
    requires |items| == |indices| && |nodes| == Pow2(h)
    requires AgreeBelow(LeafMap(indices, items), Trim(nodes, ToSet(indices)), ToSet(indices), Pow2(h))
    ensures TrueWhereBound(h, indices, items, nodes)
  {
    hide LeafHash, LeafMap, ToSet, Trim;
    LeafMapIs(indices, items);
    ToSetKeeps(indices);
    forall i: nat | Bound(h, indices, i) ensures LeafHash(items[i]) == nodes[indices[i]] {
      assert indices[i] in indices;
      TrimIs(nodes, ToSet(indices), indices[i]);
    }
  }

  lemma HonestAgrees(nodes: seq<Hash>, c: seq<nat>, n: nat)
    ensures AgreeBelow(Trim(nodes, c), Trim(nodes, c), c, n)
  {
  }
}
