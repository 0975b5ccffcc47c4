/**
 Content manifests: a Merkle tree over CID strings, stored as one flat array
 of hexadecimal hashes, level after level, the last node of an odd level
 standing in for its missing sibling; and the completeness check of a path.
 */
module Manifests {
  import opened Basics
  import Fnv

  // ------------------------------------------------------------ hex hashes

  /** The lowercase hexadecimal digit of a nibble. */
  function Digit(n: nat): byte
    requires n < 16
  {
    if n < 10 then 48 + n else 87 + n
  }

  /** The `k` low hexadecimal digits, highest first. */
  function HexDigits(n: nat, k: nat): (r: Bytes)
    ensures |r| == k
  {
    if k == 0 then [] else HexDigits(n / 16, k - 1) + [Digit(n % 16)]
  }

  /** `format!("{:016x}")`. */
  function Hex(h: u64): (r: Bytes)
    ensures |r| == 16
  {
    HexDigits(h, 16)
  }

  function Pow16(k: nat): nat {
    if k == 0 then 1 else 16 * Pow16(k - 1)
  }

  lemma {:induction false} DigitsInjective(a: nat, b: nat, k: nat)
    requires a < Pow16(k) && b < Pow16(k) && HexDigits(a, k) == HexDigits(b, k)
    ensures a == b
    decreases k
  {
    if k > 0 {
      var x, y := HexDigits(a, k), HexDigits(b, k);
      assert x[k - 1] == y[k - 1];
      assert x[..k - 1] == HexDigits(a / 16, k - 1) && y[..k - 1] == HexDigits(b / 16, k - 1);
      DigitsInjective(a / 16, b / 16, k - 1);
    }
  }

  lemma HexInjective(a: u64, b: u64)
    requires Hex(a) == Hex(b)
    ensures a == b
  {
    assert Pow16(16) == TWO_64 by {
      assert Pow16(4) == 0x1_0000;
      assert Pow16(8) == 0x1_0000_0000;
      assert Pow16(12) == 0x1_0000_0000_0000;
    }
    DigitsInjective(a, b, 16);
  }

  /** `fnv1a_hex`. */
  function HashHex(data: Bytes): (r: Bytes)
    ensures |r| == 16
  {
    Hex(Fnv.Fnv1a(data))
  }

  /** `combine_hashes`. */
  function CombineHashes(left: Bytes, right: Bytes): (r: Bytes)
    ensures |r| == 16
  {
    HashHex(left + right)
  }

  // ------------------------------------------------------------------- tree

  function LeafHashes(cids: seq<Bytes>): (r: seq<Bytes>)
    ensures |r| == |cids|
    ensures forall i :: 0 <= i < |r| ==> r[i] == HashHex(cids[i])
  {
    seq(|cids|, i requires 0 <= i < |cids| => HashHex(cids[i]))
  }

  /** The node right of `2 * i`, or `2 * i` again at the end of an odd level. */
  function RightOf(level: seq<Bytes>, i: nat): Bytes
    requires 2 * i < |level|
  {
    if 2 * i + 1 < |level| then level[2 * i + 1] else level[2 * i]
  }

  function NextLevel(level: seq<Bytes>): (r: seq<Bytes>)
    ensures |r| == (|level| + 1) / 2
    ensures forall i :: 0 <= i < |r| ==> r[i] == CombineHashes(level[2 * i], RightOf(level, i))
  {
    seq((|level| + 1) / 2, i requires 0 <= i < (|level| + 1) / 2 => CombineHashes(level[2 * i], RightOf(level, i)))
  }

  /** A level and all levels above it, flattened. */
  function Flat(level: seq<Bytes>): (r: seq<Bytes>)
    requires level != []
    ensures |r| >= |level| && r[..|level|] == level
    decreases |level|
  {
    level + if |level| == 1 then [] else Flat(NextLevel(level))
  }

  datatype MerkleTree = MerkleTree(leaves: seq<Bytes>, nodes: seq<Bytes>)
  {
    /** `root`. */
    function Root(): Option<Bytes> {
      if nodes == [] then None else Some(nodes[|nodes| - 1])
    }
  }

  function TreeOf(cids: seq<Bytes>): MerkleTree {
    MerkleTree(cids, if cids == [] then [] else Flat(LeafHashes(cids)))
  }

  /** `MerkleTree::build`. */
  method Build(cids: seq<Bytes>) returns (tree: MerkleTree)
    ensures tree == TreeOf(cids)
  {
    hide CombineHashes, HashHex, NextLevel;
    if cids == [] {
      return MerkleTree([], []);
    }
    var leafHashes := LeafHashes(cids);
    var allNodes := leafHashes;
    var currentLevel := leafHashes;
    while |currentLevel| > 1
      invariant currentLevel != []
      invariant allNodes + (if |currentLevel| == 1 then [] else Flat(NextLevel(currentLevel))) == Flat(leafHashes)
      decreases |currentLevel|
    {
      var nextLevel := BuildLevel(currentLevel);
      allNodes := allNodes + nextLevel;
      currentLevel := nextLevel;
    }
    tree := MerkleTree(cids, allNodes);
  }

  /** The inner loop: pairs of nodes, an odd last one paired with itself. */
  method BuildLevel(level: seq<Bytes>) returns (next: seq<Bytes>)
    ensures next == NextLevel(level)
  {
    hide CombineHashes;
    next := [];
    var i := 0;
    while i < |level|
      invariant i % 2 == 0 && i <= |level| + 1 && |next| == i / 2
      invariant next == NextLevel(level)[..i / 2]
    {
      var left := level[i];
      var right := if i + 1 < |level| then level[i + 1] else level[i];
      assert NextLevel(level)[i / 2] == CombineHashes(left, right);
      next := next + [CombineHashes(left, right)];
      i := i + 2;
    }
  }

  // ----------------------------------------------------------------- proofs

  function SiblingIndex(i: nat, n: nat): nat
    requires i < n
  {
    if i % 2 == 0 then (if i + 1 < n then i + 1 else n - 1) else i - 1
  }

  /** The siblings from a level up to, not including, the root. */
  function Path(level: seq<Bytes>, i: nat): seq<Bytes>
    requires i < |level|
    decreases |level|
  {
    if |level| == 1 then [] else [level[SiblingIndex(i, |level|)]] + Path(NextLevel(level), i / 2)
  }

  /** `proof_for`, walking the flat array by level offsets. */
  method ProofFor(tree: MerkleTree, index: nat) returns (r: Option<seq<Bytes>>)
    requires tree == TreeOf(tree.leaves)
    ensures index >= |tree.leaves| ==> r == None
    ensures index < |tree.leaves| ==> r == Some(Path(LeafHashes(tree.leaves), index))
  {
    hide CombineHashes, HashHex, NextLevel, Flat, Path, LeafHashes;
    var n := |tree.leaves|;
    if n == 0 || index >= n {
      return None;
    }
    var proof: seq<Bytes> := [];
    var currentIndex, levelSize, levelStart := index, n, 0;
    ghost var level := LeafHashes(tree.leaves);
    assert tree.nodes[0..] == tree.nodes;
    while levelSize > 1
      invariant 0 <= currentIndex < levelSize == |level|
      invariant 0 <= levelStart <= |tree.nodes| && tree.nodes[levelStart..] == Flat(level)
      invariant proof + Path(level, currentIndex) == Path(LeafHashes(tree.leaves), index)
      decreases levelSize
    {
      var siblingIndex := SiblingIndex(currentIndex, levelSize);
      FlatPrefix(level, siblingIndex);
      PathStep(level, currentIndex, proof);
      assert tree.nodes[levelStart..][siblingIndex] == level[siblingIndex];
      proof := proof + [tree.nodes[levelStart + siblingIndex]];
      FlatDrop(level);
      assert tree.nodes[levelStart..][levelSize..] == tree.nodes[levelStart + levelSize..];
      levelStart := levelStart + levelSize;
      levelSize := (levelSize + 1) / 2;
      currentIndex := currentIndex / 2;
      level := NextLevel(level);
    }
    PathEnd(level, currentIndex, proof);
    r := Some(proof);
  }

  lemma PathStep(level: seq<Bytes>, i: nat, proof: seq<Bytes>)
    requires i < |level| && |level| > 1
    ensures proof + Path(level, i) == proof + [level[SiblingIndex(i, |level|)]] + Path(NextLevel(level), i / 2)
  {
    hide NextLevel;
  }

  lemma PathEnd(level: seq<Bytes>, i: nat, proof: seq<Bytes>)
    requires i < |level| == 1
    ensures proof + Path(level, i) == proof
  {
  }

  lemma FlatPrefix(level: seq<Bytes>, i: nat)
    requires i < |level|
    ensures |Flat(level)| >= |level| && Flat(level)[i] == level[i]
  {
    hide NextLevel;
    assert Flat(level)[..|level|][i] == level[i];
  }

  lemma FlatDrop(level: seq<Bytes>)
    requires |level| > 1
    ensures Flat(level)[|level|..] == Flat(NextLevel(level))
  {
    hide NextLevel;
  }

  /** The root recomputed from a hash, its position and a proof. */
  function Recompute(hash: Bytes, index: nat, proof: seq<Bytes>): Bytes
    decreases |proof|
  {
    if proof == [] then hash
    else Recompute(HashHex(StepInput(hash, index, proof[0])), index / 2, proof[1..])
  }

  /** The bytes hashed in one step of a verification. */
  function StepInput(hash: Bytes, index: nat, sibling: Bytes): Bytes {
    if index % 2 == 0 then hash + sibling else sibling + hash
  }

  predicate Accepts(leaf: Bytes, index: nat, proof: seq<Bytes>, root: Bytes) {
    Recompute(HashHex(leaf), index, proof) == root
  }

  /** `verify_proof`. */
  method VerifyProof(leaf: Bytes, index: nat, proof: seq<Bytes>, root: Bytes) returns (ok: bool)
    ensures ok == Accepts(leaf, index, proof, root)
  {
    hide HashHex;
    var currentHash := HashHex(leaf);
    var currentIndex := index;
    assert proof[0..] == proof;
    for k := 0 to |proof|
      invariant Recompute(currentHash, currentIndex, proof[k..]) == Recompute(HashHex(leaf), index, proof)
    {
      assert proof[k..][1..] == proof[k + 1..];
      currentHash := if currentIndex % 2 == 0 then CombineHashes(currentHash, proof[k])
                     else CombineHashes(proof[k], currentHash);
      currentIndex := currentIndex / 2;
    }
    ok := currentHash == root;
  }

  // ------------------------------------------------------------ completeness

  lemma {:induction false} PathRecomputes(level: seq<Bytes>, i: nat)
    requires i < |level|
    ensures Recompute(level[i], i, Path(level, i)) == Flat(level)[|Flat(level)| - 1]
    decreases |level|
  {
    hide HashHex, NextLevel, StepInput, CombineHashes, Flat, SiblingIndex;
    if |level| > 1 {
      var next, path := NextLevel(level), Path(level, i);
      assert path[1..] == Path(next, i / 2);
      StepUp(level, i);
      PathRecomputes(next, i / 2);
      RootAbove(level);
    } else {
      OnlyLevel(level);
    }
  }

  /** One step of verification with the right sibling gives the parent. */
  lemma StepUp(level: seq<Bytes>, i: nat)
    requires i < |level| && |level| > 1
    ensures HashHex(StepInput(level[i], i, level[SiblingIndex(i, |level|)])) == NextLevel(level)[i / 2]
  {
    hide HashHex, NextLevel;
    var j := i / 2;
    assert NextLevel(level)[j] == CombineHashes(level[2 * j], RightOf(level, j));
  }

  lemma OnlyLevel(level: seq<Bytes>)
    requires |level| == 1
    ensures Flat(level) == level
  {
  }

  /** Every leaf of every non-empty list has a proof that verifies against the root, of length the ceiling of log2 of the leaf count. */
  lemma ProofComplete(cids: seq<Bytes>, index: nat)
    requires index < |cids|
    ensures var path := Path(LeafHashes(cids), index);
            TreeOf(cids).Root().Some?
            && Accepts(cids[index], index, path, TreeOf(cids).Root().value)
            && |path| == CeilLog2(|cids|)
  {
    var leaves := LeafHashes(cids);
    hide HashHex, Flat, Path, Recompute, LeafHashes, CeilLog2;
    PathRecomputes(leaves, index);
    PathLength(leaves, index);
    FlatPrefix(leaves, index);
  }

  lemma {:induction false} PathLength(level: seq<Bytes>, i: nat)
    requires i < |level|
    ensures |Path(level, i)| == CeilLog2(|level|)
    decreases |level|
  {
    hide NextLevel;
    if |level| > 1 {
      PathLength(NextLevel(level), i / 2);
    }
  }

  // ----------------------------------------------------------------- binding

  /** The byte string hashed at step `k` of verifying a proof: the leaf, then each pair. */
  function Hashed(leaf: Bytes, index: nat, proof: seq<Bytes>, k: nat): Bytes
    requires k <= |proof|
  {
    if k == 0 then leaf else PairAt(HashHex(leaf), index, proof, k - 1)
  }

  function PairAt(hash: Bytes, index: nat, proof: seq<Bytes>, k: nat): Bytes
    requires k < |proof|
    decreases k
  {
    var input := StepInput(hash, index, proof[0]);
    if k == 0 then input else PairAt(HashHex(input), index / 2, proof[1..], k - 1)
  }

  lemma HashHexCases(a: Bytes, b: Bytes)
    requires HashHex(a) == HashHex(b)
    ensures Fnv.Fnv1a(a) == Fnv.Fnv1a(b)
  {
    hide Hex;
    HexInjective(Fnv.Fnv1a(a), Fnv.Fnv1a(b));
  }

  /** The hash occupies a fixed end of the step's input, so equal inputs have equal hashes. */
  lemma StepInputEnds(a: Bytes, x: Bytes, b: Bytes, y: Bytes, index: nat)
    requires |a| == |b| && StepInput(a, index, x) == StepInput(b, index, y)
    ensures a == b
  {
    if index % 2 == 0 {
      assert (a + x)[..|a|] == a && (b + y)[..|b|] == b;
    } else {
      assert |x| == |y|;
      assert (x + a)[|x|..] == a && (y + b)[|y|..] == b;
    }
  }

  lemma {:induction false} BindStep(a: Bytes, p: seq<Bytes>, b: Bytes, q: seq<Bytes>, index: nat) returns (k: nat)
    requires |a| == |b| == 16 && |p| == |q|
    requires Recompute(a, index, p) == Recompute(b, index, q)
    ensures a == b
            || (k < |p| && PairAt(a, index, p, k) != PairAt(b, index, q, k)
                && Fnv.Fnv1a(PairAt(a, index, p, k)) == Fnv.Fnv1a(PairAt(b, index, q, k)))
    decreases |p|
  {
    hide HashHex;
    k := 0;
    if p != [] {
      var x, y := StepInput(a, index, p[0]), StepInput(b, index, q[0]);
      k := BindStep(HashHex(x), p[1..], HashHex(y), q[1..], index / 2);
      if HashHex(x) == HashHex(y) {
        k := 0;
        HashHexCases(x, y);
        if x == y {
          StepInputEnds(a, p[0], b, q[0], index);
        }
      } else {
        k := k + 1;
      }
    }
  }

  /**
   Binding: if proofs of equal length are accepted for two different leaves at
   one index and root, whatever their siblings, then at some step the two
   verifications hash different byte strings to the same FNV-1a value.
   */
  lemma ProofBinding(leaf: Bytes, proof: seq<Bytes>, leaf': Bytes, proof': seq<Bytes>, index: nat, root: Bytes)
    returns (k: nat)
    requires leaf != leaf' && |proof| == |proof'|
    requires Accepts(leaf, index, proof, root) && Accepts(leaf', index, proof', root)
    ensures k <= |proof|
    ensures Hashed(leaf, index, proof, k) != Hashed(leaf', index, proof', k)
    ensures Fnv.Fnv1a(Hashed(leaf, index, proof, k)) == Fnv.Fnv1a(Hashed(leaf', index, proof', k))
  {
    hide HashHex, PairAt, Recompute;
    k := BindStep(HashHex(leaf), proof, HashHex(leaf'), proof', index);
    if HashHex(leaf) == HashHex(leaf') {
      k := 0;
      HashHexCases(leaf, leaf');
    } else {
      k := k + 1;
    }
  }

  /** The same against a real tree: a foreign leaf at a real index costs a collision with the tree's own path. */
  lemma ForeignLeafCollides(cids: seq<Bytes>, index: nat, leaf: Bytes, proof: seq<Bytes>) returns (k: nat)
    requires index < |cids| && leaf != cids[index] && |proof| == CeilLog2(|cids|)
    requires TreeOf(cids).Root().Some? && Accepts(leaf, index, proof, TreeOf(cids).Root().value)
    ensures var path := Path(LeafHashes(cids), index);
            k <= |path| == |proof|
            && Hashed(cids[index], index, path, k) != Hashed(leaf, index, proof, k)
            && Fnv.Fnv1a(Hashed(cids[index], index, path, k)) == Fnv.Fnv1a(Hashed(leaf, index, proof, k))
  {
    hide HashHex, PairAt, Recompute, Flat, Path, Accepts, CeilLog2, Hashed;
    ProofComplete(cids, index);
    k := ProofBinding(cids[index], Path(LeafHashes(cids), index), leaf, proof, index, TreeOf(cids).Root().value);
  }

  /** Two lists of one length with one root: at an index where they differ, two different strings of one hash. */
  lemma ListBinding(cids: seq<Bytes>, other: seq<Bytes>) returns (index: nat, k: nat)
    requires |cids| == |other| && cids != other && TreeOf(cids).Root() == TreeOf(other).Root()
    ensures index < |cids| && cids[index] != other[index]
    ensures var p, q := Path(LeafHashes(cids), index), Path(LeafHashes(other), index);
            k <= |p| == |q|
            && Hashed(cids[index], index, p, k) != Hashed(other[index], index, q, k)
            && Fnv.Fnv1a(Hashed(cids[index], index, p, k)) == Fnv.Fnv1a(Hashed(other[index], index, q, k))
  {
    hide Path, Hashed, Accepts, TreeOf, LeafHashes, CeilLog2;
    index :| index < |cids| && cids[index] != other[index];
    ProofComplete(cids, index);
    ProofComplete(other, index);
    k := ProofBinding(cids[index], Path(LeafHashes(cids), index), other[index], Path(LeafHashes(other), index),
                      index, TreeOf(cids).Root().value);
  }

  /** The length is not bound: a list of odd length has the root of the list that repeats its last entry. */
  lemma OddLastRepeats(cids: seq<Bytes>)
    requires |cids| % 2 == 1 && |cids| > 1
    ensures TreeOf(cids + [cids[|cids| - 1]]).Root() == TreeOf(cids).Root()
  {
    hide CombineHashes, HashHex, Flat, NextLevel;
    var a, b := LeafHashes(cids), LeafHashes(cids + [cids[|cids| - 1]]);
    assert b == a + [a[|a| - 1]];
    SameAbove(a);
    RootAbove(a);
    RootAbove(b);
  }

  lemma SameAbove(a: seq<Bytes>)
    requires |a| % 2 == 1
    ensures NextLevel(a + [a[|a| - 1]]) == NextLevel(a)
  {
    hide CombineHashes;
    var b := a + [a[|a| - 1]];
    forall i | 0 <= i < |NextLevel(a)| ensures NextLevel(a)[i] == NextLevel(b)[i] {
      assert a[2 * i] == b[2 * i] && RightOf(a, i) == RightOf(b, i);
    }
  }

  lemma RootAbove(level: seq<Bytes>)
    requires |level| > 1
    ensures Flat(level)[|Flat(level)| - 1] == Flat(NextLevel(level))[|Flat(NextLevel(level))| - 1]
  {
    hide NextLevel;
    var up := NextLevel(level);
    NextLevelLength(level);
    assert Flat(level) == level + Flat(up);
  }

  lemma NextLevelLength(level: seq<Bytes>)
    requires level != []
    ensures NextLevel(level) != []
  {
  }

  // ------------------------------------------------------ complete paths

  datatype ManifestEntry = ManifestEntry(path: Bytes, cid: Bytes, sizeBytes: u64, chunkIndex: nat, isFinalChunk: bool)

  function EntriesFor(entries: seq<ManifestEntry>, path: Bytes): seq<ManifestEntry> {
    if entries == [] then []
    else (if entries[0].path == path then [entries[0]] else []) + EntriesFor(entries[1..], path)
  }

  function Finals(entries: seq<ManifestEntry>): seq<ManifestEntry> {
    if entries == [] then []
    else (if entries[0].isFinalChunk then [entries[0]] else []) + Finals(entries[1..])
  }

  function Indices(entries: seq<ManifestEntry>): (r: seq<nat>)
    ensures |r| == |entries|
    ensures forall i :: 0 <= i < |r| ==> r[i] == entries[i].chunkIndex
  {
    seq(|entries|, i requires 0 <= i < |entries| => entries[i].chunkIndex)
  }

  /** Chunks 0 up to the last, each exactly once, and the last alone marked final. */
  ghost predicate CompleteFile(es: seq<ManifestEntry>) {
    es != []
    && (forall idx :: idx in Indices(es) <==> 0 <= idx < |es|)
    && (forall i, j :: 0 <= i < j < |es| ==> es[i].chunkIndex != es[j].chunkIndex)
    && (forall i :: 0 <= i < |es| ==> (es[i].isFinalChunk <==> es[i].chunkIndex == |es| - 1))
  }

  /** `is_complete_for_path`: counting and looking for gaps decides exactly that. */
  method IsCompleteForPath(entries: seq<ManifestEntry>, path: Bytes) returns (ok: bool)
    ensures ok <==> CompleteFile(EntriesFor(entries, path))
  {
    hide CompleteFile;
    var es := EntriesFor(entries, path);
    CompleteIff(es);
    if es == [] {
      return false;
    }
    var finals := Finals(es);
    if |finals| != 1 {
      return false;
    }
    var maxIndex := finals[0].chunkIndex;
    if |es| != maxIndex + 1 {
      return false;
    }
    for idx := 0 to maxIndex + 1
      invariant forall k :: 0 <= k < idx ==> k in Indices(es)
    {
      if idx !in Indices(es) {
        return false;
      }
    }
    ok := true;
  }

  lemma {:induction false} FinalsAre(es: seq<ManifestEntry>)
    ensures forall e :: e in Finals(es) <==> e in es && e.isFinalChunk
    ensures |Finals(es)| <= |es|
  {
    if es != [] {
      FinalsAre(es[1..]);
      assert es == [es[0]] + es[1..];
    }
  }

  /** One final entry at most, by position. */
  predicate FinalOnce(es: seq<ManifestEntry>) {
    forall i, j :: 0 <= i < j < |es| ==> !(es[i].isFinalChunk && es[j].isFinalChunk)
  }

  lemma {:induction false} NoFinals(es: seq<ManifestEntry>)
    requires forall i :: 0 <= i < |es| ==> !es[i].isFinalChunk
    ensures Finals(es) == []
  {
    if es != [] {
      NoFinals(es[1..]);
    }
  }

  lemma {:induction false} SingleFinal(es: seq<ManifestEntry>)
    requires FinalOnce(es)
    ensures |Finals(es)| <= 1
  {
    if es != [] {
      if es[0].isFinalChunk {
        NoFinals(es[1..]);
      } else {
        SingleFinal(es[1..]);
      }
    }
  }

  function Elements(s: seq<nat>): set<nat> {
    set x | x in s
  }

  function Range(n: nat): (r: set<nat>)
    ensures |r| == n
    ensures forall k :: k in r <==> 0 <= k < n
  {
    if n == 0 then {} else Range(n - 1) + {n - 1}
  }

  lemma {:induction false} ElementCount(s: seq<nat>)
    ensures |Elements(s)| <= |s|
    ensures |Elements(s)| == |s| ==> forall i, j :: 0 <= i < j < |s| ==> s[i] != s[j]
  {
    if s != [] {
      var tail := s[1..];
      ElementCount(tail);
      assert s == [s[0]] + tail;
      assert Elements(s) == Elements(tail) + {s[0]};
      if s[0] in tail {
        assert Elements(s) == Elements(tail);
      } else {
        forall i, j | 0 <= i < j < |s| && |Elements(s)| == |s| ensures s[i] != s[j] {
          assert s[j] == tail[j - 1];
          if i > 0 {
            assert s[i] == tail[i - 1];
          }
        }
      }
    }
  }

  /** Pigeonhole: `n` indices among which all of 0 to n - 1 occur are those, each once. */
  lemma Pigeonhole(s: seq<nat>)
    requires forall k :: 0 <= k < |s| ==> k in s
    ensures forall i, j :: 0 <= i < j < |s| ==> s[i] != s[j]
    ensures forall k :: k in s <==> 0 <= k < |s|
  {
    var all := Range(|s|);
    assert all <= Elements(s);
    ElementCount(s);
    SubsetSize(all, Elements(s));
    assert all == Elements(s);
    forall k ensures k in s <==> 0 <= k < |s| {
      assert k in s ==> k in Elements(s);
    }
  }

  lemma SubsetSize(a: set<nat>, b: set<nat>)
    requires a <= b
    ensures |a| <= |b|
    ensures |a| == |b| ==> a == b
  {
    assert b == a + (b - a);
    assert |b| == |a| + |b - a|;
  }

  /** The test of `is_complete_for_path`. */
  ghost predicate CountsRight(es: seq<ManifestEntry>) {
    es != [] && |Finals(es)| == 1 && |es| == Finals(es)[0].chunkIndex + 1
    && forall k :: 0 <= k < |es| ==> k in Indices(es)
  }

  lemma CompleteCounts(es: seq<ManifestEntry>)
    requires CompleteFile(es)
    ensures CountsRight(es)
  {
    hide Finals, Indices;
    FinalsAre(es);
    var last := |es| - 1;
    assert last in Indices(es);
    var p :| 0 <= p < |es| && Indices(es)[p] == last;
    assert es[p] in Finals(es);
    SingleFinal(es);
    assert Finals(es)[0] in Finals(es);
  }

  lemma CountsComplete(es: seq<ManifestEntry>)
    requires CountsRight(es)
    ensures CompleteFile(es)
  {
    hide Finals, Indices;
    FinalsAre(es);
    Pigeonhole(Indices(es));
    var f := Finals(es)[0];
    assert f in Finals(es);
    var p :| 0 <= p < |es| && es[p] == f;
    forall i | 0 <= i < |es| ensures es[i].isFinalChunk <==> es[i].chunkIndex == |es| - 1 {
      if es[i].isFinalChunk {
        assert es[i] in Finals(es);
      }
      if i != p {
        assert Indices(es)[i] != Indices(es)[p];
      }
    }
  }

  /** The counting test decides completeness. */
  lemma CompleteIff(es: seq<ManifestEntry>)
    ensures CompleteFile(es) <==> CountsRight(es)
  {
    hide CompleteFile, CountsRight;
    if CompleteFile(es) {
      CompleteCounts(es);
    } else if CountsRight(es) {
      CountsComplete(es);
    }
  }

  /** In short: every index below the count occurs, and exactly the entry of the last index is marked final. */
  lemma CompleteMeans(es: seq<ManifestEntry>)
    ensures CompleteFile(es)
       <==> es != [] && (forall k :: 0 <= k < |es| ==> k in Indices(es))
            && forall i :: 0 <= i < |es| ==> (es[i].isFinalChunk <==> es[i].chunkIndex == |es| - 1)
  {
    if forall k :: 0 <= k < |es| ==> k in Indices(es) {
      Pigeonhole(Indices(es));
      forall i, j | 0 <= i < j < |es| ensures es[i].chunkIndex != es[j].chunkIndex {
        assert Indices(es)[i] != Indices(es)[j];
      }
    }
  }

  /** The entries of a path are those with exactly that path, as often as they occur. */
  lemma {:induction false} EntriesForAre(entries: seq<ManifestEntry>, path: Bytes, e: ManifestEntry)
    ensures multiset(EntriesFor(entries, path))[e] == if e.path == path then multiset(entries)[e] else 0
  {
    if entries != [] {
      EntriesForAre(entries[1..], path, e);
      assert entries == [entries[0]] + entries[1..];
    }
  }
}
