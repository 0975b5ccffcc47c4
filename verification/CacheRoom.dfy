/**
 What each cache operation does to the contents, in plain arithmetic: nothing
 is evicted while the new block fits, and no more than it takes; and what the
 statistics count over a run.
 */
module CacheRoom {
  import opened Basics
  import opened Cids
  import opened Blocks
  import opened BlockCaches
  import opened CacheRecency

  // ------------------------------------------------------------- evictions

  /** While the new block fits both limits, insertion only adds it. */
  lemma RoomKeepsAll(limits: Limits, s: State, block: Block, t: State, out: Option<Block>)
    requires Step(limits, s, OpInsert(block), t, out) && block.cid !in s.blocks
    requires s.size + |block.data| <= limits.maxBytes
    requires limits.maxBlocks.Some? ==> |s.blocks| < limits.maxBlocks.value
    ensures t.blocks == s.blocks[block.cid := CacheEntry(block, |block.data|, |s.lru|)]
    ensures t.lru == s.lru + [block.cid] && t.size == s.size + |block.data| && t.stats == s.stats
  {
    hide RemoveFirst;
  }

  /** The loop as a chain of states: each step drops one entry of least index, and only because the block did not fit. */
  ghost predicate Chain(limits: Limits, additional: nat, chain: seq<State>) {
    forall i :: 0 <= i < |chain| - 1 ==> Forced(limits, additional, chain[i], chain[i + 1])
  }

  ghost predicate Forced(limits: Limits, additional: nat, s: State, t: State) {
    (s.size + additional > limits.maxBytes || (limits.maxBlocks.Some? && |s.blocks| >= limits.maxBlocks.value))
    && exists c :: DropsOne(s, c, t)
  }

  ghost predicate DropsOne(s: State, c: Cid, t: State) {
    c in s.blocks
    && (forall d :: d in s.blocks ==> s.blocks[c].lastAccessIndex <= s.blocks[d].lastAccessIndex)
    && t.blocks == s.blocks - {c} && t.size == s.size - s.blocks[c].size
    && t.stats == s.stats.(evictions := s.stats.evictions + 1)
  }

  /** An insertion evicts along such a chain and no further: at its end the block fits, or nothing is left. */
  lemma {:induction false} NoMoreThanItTakes(limits: Limits, s: State, additional: nat, t: State) returns (chain: seq<State>)
    requires Evicts(limits, s, additional, t)
    ensures |chain| > 0 && chain[0] == s && chain[|chain| - 1] == t && Chain(limits, additional, chain)
    ensures t.blocks == map[]
         || (t.size + additional <= limits.maxBytes && (limits.maxBlocks.Some? ==> |t.blocks| < limits.maxBlocks.value))
    decreases |s.blocks|
  {
    hide RemoveFirst, Forced;
    if s.blocks == map[] || !WouldExceed(limits, s, additional) {
      chain := [s];
    } else {
      var c :| Oldest(s, c) && s.size >= s.blocks[c].size
               && (s.blocks - {c}).Keys == s.blocks.Keys - {c}
               && Evicts(limits, Evicted(s, c), additional, t);
      ForcedOut(limits, additional, s, c);
      FewerCached(s, c);
      hide Evicts, WouldExceed, Oldest, Evicted;
      var rest := NoMoreThanItTakes(limits, Evicted(s, c), additional, t);
      chain := [s] + rest;
      assert chain[|chain| - 1] == rest[|rest| - 1];
      forall i | 0 <= i < |chain| - 1 ensures Forced(limits, additional, chain[i], chain[i + 1]) {
        if i > 0 {
          assert chain[i] == rest[i - 1] && chain[i + 1] == rest[i];
        }
      }
    }
  }

  lemma ForcedOut(limits: Limits, additional: nat, s: State, c: Cid)
    requires WouldExceed(limits, s, additional) && Oldest(s, c) && s.size >= s.blocks[c].size
    ensures Forced(limits, additional, s, Evicted(s, c))
  {
    hide DropsOne;
    DropsOneOf(s, c);
  }

  lemma DropsOneOf(s: State, c: Cid)
    requires Oldest(s, c) && s.size >= s.blocks[c].size
    ensures DropsOne(s, c, Evicted(s, c))
  {
  }

  lemma FewerCached(s: State, c: Cid)
    requires c in s.blocks && s.size >= s.blocks[c].size && (s.blocks - {c}).Keys == s.blocks.Keys - {c}
    ensures |Evicted(s, c).blocks| < |s.blocks|
  {
    assert |s.blocks - {c}| == |(s.blocks - {c}).Keys|;
  }

  /** Two blocks of five bytes fill a cache of ten exactly: both stay. */
  lemma ExactFit(a: Block, b: Block, s: State, t: State)
    requires |a.data| == |b.data| == 5 && a.cid != b.cid
    requires Step(Limits(10, None), EMPTY, OpInsert(a), s, None) && Step(Limits(10, None), s, OpInsert(b), t, None)
    ensures t.blocks.Keys == {a.cid, b.cid} && t.size == 10 && t.stats == CacheStats(0, 0, 0)
  {
    hide Step;
    RoomKeepsAll(Limits(10, None), EMPTY, a, s, None);
    RoomKeepsAll(Limits(10, None), s, b, t, None);
  }

  // --------------------------------------------------- effects on contents

  /** After an insertion the CID is cached, with the block that was there or else the new one. */
  lemma InsertedIsCached(limits: Limits, s: State, block: Block, t: State, out: Option<Block>)
    requires Step(limits, s, OpInsert(block), t, out)
    ensures out.None? && block.cid in t.blocks
    ensures t.blocks[block.cid].block == if block.cid in s.blocks then s.blocks[block.cid].block else block
    ensures block.cid in s.blocks ==>
              t.blocks.Keys == s.blocks.Keys && t.size == s.size && t.stats == s.stats
              && forall c :: c in s.blocks ==> t.blocks[c].block == s.blocks[c].block
  {
    hide Evicts;
  }

  /** A get returns what is cached and changes no contents. */
  lemma GetReturnsCached(limits: Limits, s: State, c: Cid, t: State, out: Option<Block>)
    requires Step(limits, s, OpGet(c), t, out)
    ensures out == if c in s.blocks then Some(s.blocks[c].block) else None
    ensures t.blocks.Keys == s.blocks.Keys && t.size == s.size
    ensures forall d :: d in s.blocks ==> t.blocks[d].block == s.blocks[d].block
    ensures t.stats == if c in s.blocks then s.stats.(hits := s.stats.hits + 1) else s.stats.(misses := s.stats.misses + 1)
  {
  }

  /** A removal takes out that entry and returns its block; a clear takes out all. */
  lemma RemovalTakesOut(limits: Limits, s: State, op: Op, t: State, out: Option<Block>)
    requires Step(limits, s, op, t, out) && (op.OpRemove? || op.OpClear?)
    ensures op.OpRemove? ==>
              out == (if op.cid in s.blocks then Some(s.blocks[op.cid].block) else None)
              && t.blocks == s.blocks - {op.cid} && t.stats == s.stats
    ensures op.OpClear? ==> t.blocks == map[] && t.lru == [] && t.size == 0 && t.stats == s.stats
  {
    hide RemoveFirst;
    if op.OpRemove? && op.cid !in s.blocks {
      assert s.blocks - {op.cid} == s.blocks;
    }
  }

  // ------------------------------------------------- statistics over a run

  /** Gets among the first `i` steps that returned a block, or that did not. */
  function GetCount(ops: seq<Op>, outs: seq<Option<Block>>, hit: bool, i: nat): nat
    requires i <= |ops| == |outs|
  {
    if i == 0 then 0
    else GetCount(ops, outs, hit, i - 1) + if ops[i - 1].OpGet? && outs[i - 1].Some? == hit then 1 else 0
  }

  /** Blocks that left the cache in insertions among the first `i` steps. */
  function EvictionCount(states: seq<State>, ops: seq<Op>, i: nat): nat
    requires i <= |ops| < |states|
  {
    if i == 0 then 0
    else EvictionCount(states, ops, i - 1)
         + if ops[i - 1].OpInsert? then |states[i - 1].blocks.Keys - states[i].blocks.Keys| else 0
  }

  lemma {:induction false} EvictsCounted(limits: Limits, s: State, additional: nat, t: State)
    requires Evicts(limits, s, additional, t)
    ensures t.blocks.Keys <= s.blocks.Keys
    ensures t.stats == s.stats.(evictions := s.stats.evictions + |s.blocks.Keys - t.blocks.Keys|)
    decreases |s.blocks|
  {
    if WouldExceed(limits, s, additional) && s.blocks != map[] {
      hide Evicts, WouldExceed;
      var s', c := EvictsFirst(limits, s, additional, t);
      EvictsCounted(limits, s', additional, t);
      CountsAdd(s.blocks.Keys, s'.blocks.Keys, t.blocks.Keys, c, s.stats, s'.stats, t.stats);
    } else {
      assert s.blocks.Keys - t.blocks.Keys == {};
    }
  }

  lemma EvictsFirst(limits: Limits, s: State, additional: nat, t: State) returns (s': State, c: Cid)
    requires WouldExceed(limits, s, additional) && s.blocks != map[] && Evicts(limits, s, additional, t)
    ensures Evicts(limits, s', additional, t) && |s'.blocks| < |s.blocks|
    ensures c in s.blocks && s'.blocks.Keys == s.blocks.Keys - {c}
    ensures s'.stats == s.stats.(evictions := s.stats.evictions + 1)
  {
    hide WouldExceed, RemoveFirst;
    c :| Oldest(s, c) && s.size >= s.blocks[c].size
         && (s.blocks - {c}).Keys == s.blocks.Keys - {c}
         && Evicts(limits, Evicted(s, c), additional, t);
    s' := Evicted(s, c);
    FewerCached(s, c);
  }

  lemma CountsAdd(a: set<Cid>, b: set<Cid>, d: set<Cid>, c: Cid, before: CacheStats, between: CacheStats, after: CacheStats)
    requires c in a && b == a - {c} && d <= b
    requires between == before.(evictions := before.evictions + 1)
    requires after == between.(evictions := between.evictions + |b - d|)
    ensures d <= a && after == before.(evictions := before.evictions + |a - d|)
  {
    OneFewer(a, d, c);
  }

  lemma StepStats(limits: Limits, s: State, op: Op, t: State, out: Option<Block>)
    requires Step(limits, s, op, t, out)
    ensures t.stats.hits == s.stats.hits + if op.OpGet? && out.Some? then 1 else 0
    ensures t.stats.misses == s.stats.misses + if op.OpGet? && out.None? then 1 else 0
    ensures t.stats.evictions == s.stats.evictions + if op.OpInsert? then |s.blocks.Keys - t.blocks.Keys| else 0
  {
    hide Evicts;
    if op.OpInsert? {
      if op.block.cid in s.blocks {
        assert s.blocks.Keys - t.blocks.Keys == {};
      } else {
        var u :| Evicts(limits, s, |op.block.data|, u) && t == Added(u, op.block);
        EvictsCounted(limits, s, |op.block.data|, u);
        AddingDropsNone(s, u, op.block);
      }
    }
  }

  /** In every state of every run the statistics are the counts of hits, misses and evicted blocks so far. */
  lemma {:induction false} RunStats(limits: Limits, states: seq<State>, ops: seq<Op>, outs: seq<Option<Block>>, i: nat)
    requires Run(limits, states, ops, outs) && i <= |ops|
    ensures states[i].stats
         == CacheStats(GetCount(ops, outs, true, i), GetCount(ops, outs, false, i), EvictionCount(states, ops, i))
    decreases i
  {
    hide Step;
    if i > 0 {
      RunStats(limits, states, ops, outs, i - 1);
      StepStats(limits, states[i - 1], ops[i - 1], states[i], outs[i - 1]);
    }
  }
}
