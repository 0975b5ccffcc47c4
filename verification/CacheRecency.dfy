/**
 When the cache evicts the least recently used block. An entry's index is the
 length of the access list at its last use, and the list also shrinks, by one
 for each block that leaves; so the index of a block is the number of uses
 before its last use less the number of blocks dropped by then. That decides
 in every run whether index order is the order of last uses.
 */
module CacheRecency {
  import opened Basics
  import opened Cids
  import opened Blocks
  import opened BlockCaches

  // ------------------------------------------------------ counting over a run

  /** The operation touches the entry of `c`, or adds it. */
  predicate Uses(s: State, op: Op, c: Cid) {
    match op
    case OpInsert(block) => block.cid == c
    case OpGet(cid) => cid == c && c in s.blocks
    case _ => false
  }

  predicate IsUse(s: State, op: Op) {
    op.OpInsert? || (op.OpGet? && op.cid in s.blocks)
  }

  /** How many blocks the step took out of the cache. */
  function Dropped(s: State, t: State): nat {
    |s.blocks.Keys - t.blocks.Keys|
  }

  /** Uses among the first `i` steps, since the last clear. */
  function UseCount(states: seq<State>, ops: seq<Op>, i: nat): nat
    requires i <= |ops| < |states|
  {
    if i == 0 || ops[i - 1].OpClear? then 0
    else UseCount(states, ops, i - 1) + if IsUse(states[i - 1], ops[i - 1]) then 1 else 0
  }

  /** Blocks dropped in the first `i` steps, since the last clear. */
  function DropCount(states: seq<State>, ops: seq<Op>, i: nat): nat
    requires i <= |ops| < |states|
  {
    if i == 0 || ops[i - 1].OpClear? then 0
    else DropCount(states, ops, i - 1) + Dropped(states[i - 1], states[i])
  }

  /** The latest of the first `i` steps that used `c`; -1 if none did. */
  function LastUse(states: seq<State>, ops: seq<Op>, i: nat, c: Cid): (j: int)
    requires i <= |ops| < |states|
    ensures -1 <= j < i
    ensures j >= 0 ==> Uses(states[j], ops[j], c)
  {
    if i == 0 then -1
    else if Uses(states[i - 1], ops[i - 1], c) then i - 1
    else LastUse(states, ops, i - 1, c)
  }

  // ------------------------------------------------------- single steps

  lemma {:induction false} RemoveFirstShortens(lru: seq<Cid>, c: Cid)
    requires c in lru
    ensures |RemoveFirst(lru, c)| == |lru| - 1
  {
    if lru[0] != c {
      RemoveFirstShortens(lru[1..], c);
    }
  }

  lemma OneFewer(a: set<Cid>, b: set<Cid>, c: Cid)
    requires c in a && c !in b
    ensures |a - b| == |a - {c} - b| + 1
  {
    assert a - b == (a - {c} - b) + {c};
  }

  /** Each eviction shortens the list by one, and blocks go in order of their indices. */
  lemma {:induction false} EvictsCounts(limits: Limits, s: State, additional: nat, t: State)
    requires Consistent(s) && Evicts(limits, s, additional, t)
    ensures t.blocks.Keys <= s.blocks.Keys
    ensures |t.lru| + |s.blocks.Keys - t.blocks.Keys| == |s.lru|
    decreases |s.blocks|
  {
    hide Consistent, WouldExceed, Total, RemoveFirst;
    if WouldExceed(limits, s, additional) && s.blocks != map[] {
      var c :| Oldest(s, c) && s.size >= s.blocks[c].size && Evicts(limits, Evicted(s, c), additional, t);
      hide Evicts;
      WithoutKeeps(s, c);
      EvictedConsistent(s, c);
      EvictsCounts(limits, Evicted(s, c), additional, t);
      CachedIsListed(s, c);
      RemoveFirstShortens(s.lru, c);
      OneFewer(s.blocks.Keys, t.blocks.Keys, c);
    } else {
      assert s.blocks.Keys - t.blocks.Keys == {};
    }
  }

  lemma CachedIsListed(s: State, c: Cid)
    requires Consistent(s) && c in s.blocks
    ensures c in s.lru
  {
  }

  lemma {:induction false} EvictsInOrder(limits: Limits, s: State, additional: nat, t: State, c: Cid, d: Cid)
    requires Consistent(s) && Evicts(limits, s, additional, t)
    requires c in s.blocks && c !in t.blocks && d in t.blocks
    ensures d in s.blocks && s.blocks[c].lastAccessIndex <= s.blocks[d].lastAccessIndex
    decreases |s.blocks|
  {
    hide Consistent, WouldExceed, Total;
    EvictsKeeps(limits, s, additional, t);
    var v :| Oldest(s, v) && s.size >= s.blocks[v].size && Evicts(limits, Evicted(s, v), additional, t);
    if v != c {
      WithoutKeeps(s, v);
      EvictedConsistent(s, v);
      EvictsInOrder(limits, Evicted(s, v), additional, t, c, d);
    }
  }

  /** The list grows by one for a use and shrinks by one for each block dropped. */
  lemma StepLength(limits: Limits, s: State, op: Op, t: State, out: Option<Block>)
    requires Inv(limits, s) && Step(limits, s, op, t, out)
    ensures op.OpClear? ==> t.lru == []
    ensures !op.OpClear? ==> |t.lru| + Dropped(s, t) == |s.lru| + if IsUse(s, op) then 1 else 0
  {
    hide Consistent, Dropped;
    match op
    case OpInsert(block) => InsertLength(limits, s, block, t, out);
    case OpGet(cid) => NoneDropped(s, t);
    case OpRemove(cid) => RemoveLength(limits, s, cid, t, out);
    case OpClear =>
  }

  lemma NoneDropped(s: State, t: State)
    requires s.blocks.Keys == t.blocks.Keys
    ensures Dropped(s, t) == 0
  {
    assert s.blocks.Keys - t.blocks.Keys == {};
  }

  lemma InsertLength(limits: Limits, s: State, block: Block, t: State, out: Option<Block>)
    requires Inv(limits, s) && Step(limits, s, OpInsert(block), t, out)
    ensures |t.lru| + Dropped(s, t) == |s.lru| + 1
  {
    hide Evicts, Consistent, Dropped;
    if block.cid in s.blocks {
      TouchedKeeps(s, block.cid);
      NoneDropped(s, t);
    } else {
      var u :| Evicts(limits, s, |block.data|, u) && t == Added(u, block);
      EvictsCounts(limits, s, |block.data|, u);
      AddingDropsNone(s, u, block);
    }
  }

  lemma AddingDropsNone(s: State, u: State, block: Block)
    requires block.cid !in s.blocks
    ensures Dropped(s, Added(u, block)) == |s.blocks.Keys - u.blocks.Keys|
  {
    var t := Added(u, block);
    assert t.blocks.Keys == u.blocks.Keys + {block.cid};
    assert s.blocks.Keys - t.blocks.Keys == s.blocks.Keys - u.blocks.Keys;
  }

  lemma RemoveLength(limits: Limits, s: State, cid: Cid, t: State, out: Option<Block>)
    requires Inv(limits, s) && Step(limits, s, OpRemove(cid), t, out)
    ensures |t.lru| + Dropped(s, t) == |s.lru|
  {
    hide Consistent, RemoveFirst;
    if cid in s.blocks {
      WithoutKeeps(s, cid);
      CachedIsListed(s, cid);
      RemoveFirstShortens(s.lru, cid);
      assert s.blocks.Keys - t.blocks.Keys == {cid};
    } else {
      NoneDropped(s, t);
    }
  }

  /** A use sets the index to the last position of the list; anything else leaves it alone. */
  lemma StepIndex(limits: Limits, s: State, op: Op, t: State, out: Option<Block>, c: Cid)
    requires Inv(limits, s) && Step(limits, s, op, t, out) && c in t.blocks
    ensures !op.OpClear?
    ensures Uses(s, op, c) ==> IsUse(s, op) && t.blocks[c].lastAccessIndex == |t.lru| - 1
    ensures !Uses(s, op, c) ==> c in s.blocks && t.blocks[c].lastAccessIndex == s.blocks[c].lastAccessIndex
  {
    hide Evicts, Total, Consistent;
    if op.OpInsert? && op.block.cid !in s.blocks {
      var u :| Evicts(limits, s, |op.block.data|, u) && t == Added(u, op.block);
      EvictsKeeps(limits, s, |op.block.data|, u);
    }
  }

  // ------------------------------------------------------- whole runs

  lemma {:induction false} ListLength(limits: Limits, states: seq<State>, ops: seq<Op>, outs: seq<Option<Block>>, i: nat)
    requires Run(limits, states, ops, outs) && i <= |ops|
    ensures |states[i].lru| + DropCount(states, ops, i) == UseCount(states, ops, i)
    decreases i
  {
    hide Step, Inv, Dropped, IsUse;
    if i > 0 {
      RunKeepsInv(limits, states, ops, outs, i - 1);
      StepLength(limits, states[i - 1], ops[i - 1], states[i], outs[i - 1]);
      ListLength(limits, states, ops, outs, i - 1);
    }
  }

  /** The index of a cached block, in every state of every run. */
  lemma {:induction false} IndexIs(limits: Limits, states: seq<State>, ops: seq<Op>, outs: seq<Option<Block>>, i: nat, c: Cid)
    requires Run(limits, states, ops, outs) && i <= |ops| && c in states[i].blocks
    ensures var j := LastUse(states, ops, i, c);
            j >= 0 && IsUse(states[j], ops[j])
            && (forall k :: j <= k < i ==> !ops[k].OpClear?)
            && states[i].blocks[c].lastAccessIndex + DropCount(states, ops, j + 1) == UseCount(states, ops, j)
    decreases i
  {
    hide Step, Inv, Dropped, IsUse, Uses, DropCount;
    RunKeepsInv(limits, states, ops, outs, i - 1);
    StepIndex(limits, states[i - 1], ops[i - 1], states[i], outs[i - 1], c);
    if Uses(states[i - 1], ops[i - 1], c) {
      ListLength(limits, states, ops, outs, i);
    } else {
      IndexIs(limits, states, ops, outs, i - 1, c);
    }
  }

  /** Two blocks are never used by the same step. */
  lemma LastUsesDiffer(states: seq<State>, ops: seq<Op>, i: nat, c: Cid, d: Cid)
    requires i <= |ops| < |states| && LastUse(states, ops, i, c) == LastUse(states, ops, i, d) >= 0
    ensures c == d
  {
  }

  /** Of the cached blocks, `c` is the one whose last use lies furthest back. */
  predicate LeastRecent(states: seq<State>, ops: seq<Op>, i: nat, c: Cid)
    requires i <= |ops| < |states|
  {
    c in states[i].blocks
    && forall d :: d in states[i].blocks ==> LastUse(states, ops, i, c) <= LastUse(states, ops, i, d)
  }

  /** From the use at step `j` to the one at step `k`, fewer blocks were dropped than uses made. */
  predicate FewerDropsThanUses(states: seq<State>, ops: seq<Op>, j: nat, k: nat)
    requires j < k < |ops| < |states|
  {
    DropCount(states, ops, k + 1) - DropCount(states, ops, j + 1) < UseCount(states, ops, k) - UseCount(states, ops, j)
  }

  lemma {:induction false} OldestExists(s: State, m: set<Cid>) returns (v: Cid)
    requires m != {} && m <= s.blocks.Keys
    ensures v in m && forall d :: d in m ==> s.blocks[v].lastAccessIndex <= s.blocks[d].lastAccessIndex
    decreases m
  {
    var x :| x in m;
    if m == {x} {
      v := x;
    } else {
      assert m - {x} != {};
      var w := OldestExists(s, m - {x});
      v := if s.blocks[w].lastAccessIndex < s.blocks[x].lastAccessIndex then w else x;
      forall d | d in m ensures s.blocks[v].lastAccessIndex <= s.blocks[d].lastAccessIndex {
        assert d != x ==> d in m - {x};
      }
    }
  }

  /**
   In every state of every run: the block that eviction takes first is certainly
   the least recently used one exactly when, up to the last use of every other
   cached block, fewer blocks were dropped than uses made since its own last use.
   */
  lemma EvictsLeastRecentIff(limits: Limits, states: seq<State>, ops: seq<Op>, outs: seq<Option<Block>>, i: nat, c: Cid)
    requires Run(limits, states, ops, outs) && i <= |ops| && LeastRecent(states, ops, i, c)
    ensures (forall v :: Oldest(states[i], v) ==> v == c)
       <==> forall d :: d in states[i].blocks && d != c ==>
              0 <= LastUse(states, ops, i, c) < LastUse(states, ops, i, d)
              && FewerDropsThanUses(states, ops, LastUse(states, ops, i, c), LastUse(states, ops, i, d))
  {
    assert c in states[i].blocks && |states| == |ops| + 1;
    hide Run, LastUse, LeastRecent, FewerDropsThanUses, Oldest, DropCount, UseCount;
    UniqueOldest(states[i], c);
    forall d | d in states[i].blocks && d != c
      ensures 0 <= LastUse(states, ops, i, c) < LastUse(states, ops, i, d)
      ensures FewerDropsThanUses(states, ops, LastUse(states, ops, i, c), LastUse(states, ops, i, d))
         <==> states[i].blocks[c].lastAccessIndex < states[i].blocks[d].lastAccessIndex
    {
      IndexOrderIff(limits, states, ops, outs, i, c, d);
    }
  }

  /** The index a block gets from a use at step `j`. */
  function IndexAfter(states: seq<State>, ops: seq<Op>, j: nat): int
    requires j < |ops| < |states|
  {
    UseCount(states, ops, j) - DropCount(states, ops, j + 1)
  }

  lemma CachedIndex(limits: Limits, states: seq<State>, ops: seq<Op>, outs: seq<Option<Block>>, i: nat, c: Cid)
    requires Run(limits, states, ops, outs) && i <= |ops| && c in states[i].blocks
    ensures LastUse(states, ops, i, c) >= 0
    ensures states[i].blocks[c].lastAccessIndex == IndexAfter(states, ops, LastUse(states, ops, i, c))
  {
    hide UseCount, DropCount, LastUse, Step;
    IndexIs(limits, states, ops, outs, i, c);
  }

  lemma FewerMeans(states: seq<State>, ops: seq<Op>, j: nat, k: nat)
    requires j < k < |ops| < |states|
    ensures FewerDropsThanUses(states, ops, j, k) <==> IndexAfter(states, ops, j) < IndexAfter(states, ops, k)
  {
    hide UseCount, DropCount;
  }

  lemma IndexOrderIff(limits: Limits, states: seq<State>, ops: seq<Op>, outs: seq<Option<Block>>, i: nat, c: Cid, d: Cid)
    requires Run(limits, states, ops, outs) && i <= |ops| && LeastRecent(states, ops, i, c)
    requires d in states[i].blocks && d != c
    ensures c in states[i].blocks && 0 <= LastUse(states, ops, i, c) < LastUse(states, ops, i, d)
    ensures FewerDropsThanUses(states, ops, LastUse(states, ops, i, c), LastUse(states, ops, i, d))
       <==> states[i].blocks[c].lastAccessIndex < states[i].blocks[d].lastAccessIndex
  {
    var j, k := LastUse(states, ops, i, c), LastUse(states, ops, i, d);
    assert c in states[i].blocks && j <= k;
    hide Run, LastUse, LeastRecent, FewerDropsThanUses, IndexAfter;
    CachedIndex(limits, states, ops, outs, i, c);
    CachedIndex(limits, states, ops, outs, i, d);
    if j == k {
      LastUsesDiffer(states, ops, i, c, d);
    }
    FewerMeans(states, ops, j, k);
  }

  /** Only `c` can be evicted exactly when its index is below all others. */
  lemma UniqueOldest(s: State, c: Cid)
    requires c in s.blocks
    ensures (forall v :: Oldest(s, v) ==> v == c)
       <==> forall d :: d in s.blocks && d != c ==> s.blocks[c].lastAccessIndex < s.blocks[d].lastAccessIndex
  {
    if forall v :: Oldest(s, v) ==> v == c {
      var v := OldestExists(s, s.blocks.Keys);
      assert Oldest(s, v);
      forall d | d in s.blocks && d != c ensures s.blocks[c].lastAccessIndex < s.blocks[d].lastAccessIndex {
        assert !Oldest(s, d);
      }
    }
  }

  lemma {:induction false} CountsGrow(states: seq<State>, ops: seq<Op>, j: nat, k: nat)
    requires j <= k <= |ops| < |states| && forall x :: j <= x < k ==> !ops[x].OpClear?
    ensures UseCount(states, ops, j) <= UseCount(states, ops, k)
    ensures DropCount(states, ops, j) <= DropCount(states, ops, k)
    decreases k
  {
    hide Dropped, IsUse;
    if j < k {
      CountsGrow(states, ops, j, k - 1);
    }
  }

  lemma UseCounts(states: seq<State>, ops: seq<Op>, j: nat, k: nat)
    requires j < k <= |ops| < |states| && forall x :: j <= x < k ==> !ops[x].OpClear?
    requires IsUse(states[j], ops[j])
    ensures UseCount(states, ops, j) < UseCount(states, ops, k)
  {
    hide IsUse, DropCount;
    CountsGrow(states, ops, j + 1, k);
    assert !ops[j].OpClear?;
  }

  /** As long as no block has been dropped since the last clear, the least recently used block goes first. */
  lemma LeastRecentWithoutDrops(limits: Limits, states: seq<State>, ops: seq<Op>, outs: seq<Option<Block>>, i: nat, v: Cid)
    requires Run(limits, states, ops, outs) && i <= |ops| && DropCount(states, ops, i) == 0
    ensures Oldest(states[i], v) <==> LeastRecent(states, ops, i, v)
  {
    assert |states| == |ops| + 1;
    hide Run, LastUse;
    if v in states[i].blocks {
      forall d | d in states[i].blocks && d != v
        ensures states[i].blocks[v].lastAccessIndex <= states[i].blocks[d].lastAccessIndex
           <==> LastUse(states, ops, i, v) <= LastUse(states, ops, i, d)
      {
        OrderWithoutDrops(limits, states, ops, outs, i, v, d);
        OrderWithoutDrops(limits, states, ops, outs, i, d, v);
        if LastUse(states, ops, i, v) == LastUse(states, ops, i, d) {
          LastUseOfCached(limits, states, ops, outs, i, v);
          LastUsesDiffer(states, ops, i, v, d);
        }
      }
    }
  }

  lemma LastUseOfCached(limits: Limits, states: seq<State>, ops: seq<Op>, outs: seq<Option<Block>>, i: nat, c: Cid)
    requires Run(limits, states, ops, outs) && i <= |ops| && c in states[i].blocks
    ensures LastUse(states, ops, i, c) >= 0
  {
    IndexIs(limits, states, ops, outs, i, c);
  }

  lemma OrderWithoutDrops(limits: Limits, states: seq<State>, ops: seq<Op>, outs: seq<Option<Block>>, i: nat, c: Cid, d: Cid)
    requires Run(limits, states, ops, outs) && i <= |ops| && DropCount(states, ops, i) == 0
    requires c in states[i].blocks && d in states[i].blocks
    ensures LastUse(states, ops, i, c) < LastUse(states, ops, i, d) ==>
              states[i].blocks[c].lastAccessIndex < states[i].blocks[d].lastAccessIndex
  {
    hide Step, LastUse, DropCount, UseCount, IsUse, IndexAfter;
    CachedIndex(limits, states, ops, outs, i, c);
    CachedIndex(limits, states, ops, outs, i, d);
    var j, k := LastUse(states, ops, i, c), LastUse(states, ops, i, d);
    if j < k {
      IndexIs(limits, states, ops, outs, i, c);
      IndexGrows(states, ops, j, k, i);
    }
  }

  lemma IndexGrows(states: seq<State>, ops: seq<Op>, j: nat, k: nat, i: nat)
    requires j < k < i <= |ops| < |states| && DropCount(states, ops, i) == 0
    requires IsUse(states[j], ops[j]) && forall x :: j <= x < i ==> !ops[x].OpClear?
    ensures IndexAfter(states, ops, j) < IndexAfter(states, ops, k)
  {
    hide DropCount, UseCount, IsUse;
    UseCounts(states, ops, j, k);
    CountsGrow(states, ops, j + 1, i);
    CountsGrow(states, ops, k + 1, i);
  }

  /** So an insertion then drops only blocks used less recently than all it keeps, however many it drops. */
  lemma FirstEvictionsAreLeastRecent(limits: Limits, states: seq<State>, ops: seq<Op>, outs: seq<Option<Block>>, i: nat, c: Cid, d: Cid)
    requires Run(limits, states, ops, outs) && i < |ops| && DropCount(states, ops, i) == 0 && ops[i].OpInsert?
    requires c in states[i].blocks && c !in states[i + 1].blocks
    requires d in states[i].blocks && d in states[i + 1].blocks
    ensures LastUse(states, ops, i, c) < LastUse(states, ops, i, d)
  {
    hide LastUse, DropCount, Evicts, Consistent;
    var s, t, block := states[i], states[i + 1], ops[i].block;
    RunKeepsInv(limits, states, ops, outs, i);
    assert Step(limits, s, ops[i], t, outs[i]);
    var u :| Evicts(limits, s, |block.data|, u) && t == Added(u, block);
    EvictsInOrder(limits, s, |block.data|, u, c, d);
    OrderWithoutDrops(limits, states, ops, outs, i, d, c);
    LastUseOfCached(limits, states, ops, outs, i, c);
    if LastUse(states, ops, i, c) == LastUse(states, ops, i, d) {
      LastUsesDiffer(states, ops, i, c, d);
    }
  }

  // ------------------------------------------------ how the order goes wrong

  /**
   An insertion that drops `n` blocks places the new block `n - 1` below the
   newest one: level with it after one eviction, behind it after more.
   */
  lemma InsertionFallsBehind(limits: Limits, s: State, block: Block, t: State, out: Option<Block>, newest: Cid)
    requires Inv(limits, s) && Step(limits, s, OpInsert(block), t, out) && block.cid !in s.blocks
    requires newest in s.blocks && newest in t.blocks && s.blocks[newest].lastAccessIndex == |s.lru| - 1
    ensures block.cid in t.blocks
    ensures t.blocks[block.cid].lastAccessIndex + Dropped(s, t) == t.blocks[newest].lastAccessIndex + 1
  {
    hide Evicts, Consistent, Dropped;
    var u :| Evicts(limits, s, |block.data|, u) && t == Added(u, block);
    StepLength(limits, s, OpInsert(block), t, out);
    StepIndex(limits, s, OpInsert(block), t, out, block.cid);
    StepIndex(limits, s, OpInsert(block), t, out, newest);
  }

  /** One eviction, in the terms of `Evicts`. */
  lemma EvictsOne(limits: Limits, s: State, additional: nat, c: Cid)
    requires Oldest(s, c) && s.size >= s.blocks[c].size && (s.blocks - {c}).Keys == s.blocks.Keys - {c}
    requires WouldExceed(limits, s, additional) && !WouldExceed(limits, Evicted(s, c), additional)
    ensures Evicts(limits, s, additional, Evicted(s, c))
  {
    hide WouldExceed, RemoveFirst;
    assert Evicts(limits, Evicted(s, c), additional, Evicted(s, c));
  }

  function OneByte(c: Cid): Block {
    Block(c, [0])
  }

  function Entry(c: Cid, index: nat): CacheEntry {
    CacheEntry(OneByte(c), 1, index)
  }

  function Pair(c: Cid, i: nat, d: Cid, j: nat): map<Cid, CacheEntry> {
    map[c := Entry(c, i), d := Entry(d, j)]
  }

  lemma PairFacts(c: Cid, i: nat, d: Cid, j: nat)
    requires c != d
    ensures Pair(c, i, d, j) == Pair(d, j, c, i)
    ensures Pair(c, i, d, j).Keys == {c, d} && |Pair(c, i, d, j)| == 2
    ensures Pair(c, i, d, j)[c] == Entry(c, i) && Pair(c, i, d, j)[d] == Entry(d, j)
    ensures Pair(c, i, d, j) == map[c := Entry(c, i)][d := Entry(d, j)]
    ensures Pair(c, i, d, j) - {c} == map[d := Entry(d, j)]
  {
    var m := Pair(c, i, d, j);
    assert m.Keys == {c, d};
    assert |m| == |m.Keys| == 2;
  }

  /** A full cache of two one-byte blocks. */
  function Full(c: Cid, i: nat, d: Cid, j: nat, lru: seq<Cid>, evictions: nat): State {
    State(Pair(c, i, d, j), lru, 2, CacheStats(0, 0, evictions))
  }

  /** A cache for two blocks may evict the newest: after `a`, `b`, `c` the insertion of `d` drops `c` and keeps `b`. */
  lemma NewestMayGo(a: Cid, b: Cid, c: Cid, d: Cid) returns (states: seq<State>, ops: seq<Op>, outs: seq<Option<Block>>)
    requires a != b && a != c && a != d && b != c && b != d && c != d
    ensures Run(Limits(100, Some(2)), states, ops, outs)
    ensures ops == [OpInsert(OneByte(a)), OpInsert(OneByte(b)), OpInsert(OneByte(c)), OpInsert(OneByte(d))]
    ensures Oldest(states[3], b) && Oldest(states[3], c)
    ensures LastUse(states, ops, 3, b) == 1 && LastUse(states, ops, 3, c) == 2
    ensures b in states[4].blocks && c !in states[4].blocks
  {
    hide Step, LastUse, Run, Pair, OneByte, Entry, Oldest;
    var limits := Limits(100, Some(2));
    var s1 := State(map[a := Entry(a, 0)], [a], 1, CacheStats(0, 0, 0));
    var s2 := Full(a, 0, b, 1, [a, b], 0);
    var s3 := Full(b, 1, c, 1, [b, c], 1);
    var s4 := Full(b, 1, d, 1, [b, d], 2);
    states := [EMPTY, s1, s2, s3, s4];
    ops := [OpInsert(OneByte(a)), OpInsert(OneByte(b)), OpInsert(OneByte(c)), OpInsert(OneByte(d))];
    outs := [None, None, None, None];
    FirstTwo(a, b);
    ReplacesOne(a, 0, b, c, [a, b], 0);
    PairFacts(b, 1, c, 1);
    ReplacesOne(c, 1, b, d, [b, c], 1);
    RunOfFour(limits, states, ops, outs);
    UsesOfThree(states, ops, a, b, c);
    PairFacts(b, 1, d, 1);
    EqualIndices(s3, b, c);
  }

  lemma EqualIndices(s: State, b: Cid, c: Cid)
    requires s.blocks.Keys == {b, c} && s.blocks[b] == Entry(b, 1) && s.blocks[c] == Entry(c, 1)
    ensures Oldest(s, b) && Oldest(s, c)
  {
  }

  lemma RunOfFour(limits: Limits, states: seq<State>, ops: seq<Op>, outs: seq<Option<Block>>)
    requires |states| == 5 && |ops| == 4 && |outs| == 4 && states[0] == EMPTY
    requires Step(limits, states[0], ops[0], states[1], outs[0]) && Step(limits, states[1], ops[1], states[2], outs[1])
    requires Step(limits, states[2], ops[2], states[3], outs[2]) && Step(limits, states[3], ops[3], states[4], outs[3])
    ensures Run(limits, states, ops, outs)
  {
    hide Step;
  }

  lemma FirstTwo(a: Cid, b: Cid)
    requires a != b
    ensures var s1 := State(map[a := Entry(a, 0)], [a], 1, CacheStats(0, 0, 0));
            Step(Limits(100, Some(2)), EMPTY, OpInsert(OneByte(a)), s1, None)
            && Step(Limits(100, Some(2)), s1, OpInsert(OneByte(b)), Full(a, 0, b, 1, [a, b], 0), None)
  {
    hide Step, Evicts, Pair;
    var s1 := State(map[a := Entry(a, 0)], [a], 1, CacheStats(0, 0, 0));
    assert |s1.blocks| == |{a}| by {
      assert s1.blocks.Keys == {a};
    }
    assert s1 == Added(EMPTY, OneByte(a));
    AddsOne(Limits(100, Some(2)), EMPTY, a, s1);
    PairFacts(a, 0, b, 1);
    assert Full(a, 0, b, 1, [a, b], 0) == Added(s1, OneByte(b));
    AddsOne(Limits(100, Some(2)), s1, b, Full(a, 0, b, 1, [a, b], 0));
  }

  lemma UsesOfThree(states: seq<State>, ops: seq<Op>, a: Cid, b: Cid, c: Cid)
    requires 3 <= |ops| < |states| && b != c
    requires ops[0] == OpInsert(OneByte(a)) && ops[1] == OpInsert(OneByte(b)) && ops[2] == OpInsert(OneByte(c))
    ensures LastUse(states, ops, 3, b) == 1 && LastUse(states, ops, 3, c) == 2
  {
    assert LastUse(states, ops, 2, b) == 1;
  }

  lemma AddsOne(limits: Limits, s: State, c: Cid, t: State)
    requires c !in s.blocks && !WouldExceed(limits, s, 1) && t == Added(s, OneByte(c))
    ensures Step(limits, s, OpInsert(OneByte(c)), t, None)
  {
    EvictsDone(limits, s, 1);
  }

  /** The full cache drops the block at position `index` of the list, of no larger index than the other, for a new one. */
  lemma ReplacesOne(gone: Cid, index: nat, kept: Cid, added: Cid, lru: seq<Cid>, evictions: nat)
    requires gone != kept && added != kept && added != gone && index <= 1
    requires lru == (if index == 0 then [gone, kept] else [kept, gone])
    ensures Step(Limits(100, Some(2)), Full(gone, index, kept, 1, lru, evictions), OpInsert(OneByte(added)),
                 Full(kept, 1, added, 1, [kept, added], evictions + 1), None)
  {
    hide Evicts, Pair, RemoveFirst;
    var limits := Limits(100, Some(2));
    var s := Full(gone, index, kept, 1, lru, evictions);
    RemovesOne(gone, kept, index);
    PairFacts(gone, index, kept, 1);
    PairFacts(kept, 1, added, 1);
    assert (s.blocks - {gone}).Keys == s.blocks.Keys - {gone};
    var u := State(map[kept := Entry(kept, 1)], [kept], 1, CacheStats(0, 0, evictions + 1));
    assert u == Evicted(s, gone);
    assert |u.blocks| == |{kept}| by {
      assert u.blocks.Keys == {kept};
    }
    EvictsOne(limits, s, 1, gone);
    assert Full(kept, 1, added, 1, [kept, added], evictions + 1) == Added(u, OneByte(added));
  }

  lemma RemovesOne(gone: Cid, kept: Cid, index: nat)
    requires gone != kept
    ensures RemoveFirst(if index == 0 then [gone, kept] else [kept, gone], gone) == [kept]
  {
    assert RemoveFirst([gone], gone) == [];
    assert [kept, gone][1..] == [gone] && [gone, kept][1..] == [kept];
  }
}
