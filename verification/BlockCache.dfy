/**
 The block cache: a map of blocks, an access list that only grows except when
 a block leaves, and byte and count limits kept by an eviction loop. The state
 machine is a transition relation on values; class BlockCache implements it.
 */
module BlockCaches {
  import opened Basics
  import opened Cids
  import opened Blocks

  datatype CacheEntry = CacheEntry(block: Block, size: nat, lastAccessIndex: nat)

  datatype CacheStats = CacheStats(hits: nat, misses: nat, evictions: nat)

  datatype State = State(blocks: map<Cid, CacheEntry>, lru: seq<Cid>, size: nat, stats: CacheStats)

  datatype Limits = Limits(maxBytes: u64, maxBlocks: Option<nat>)

  datatype Op = OpInsert(block: Block) | OpGet(cid: Cid) | OpRemove(cid: Cid) | OpClear

  const EMPTY: State := State(map[], [], 0, CacheStats(0, 0, 0))

  // -------------------------------------------------------------- total size

  /** Sum of the recorded sizes. */
  ghost function Total(m: map<Cid, CacheEntry>): nat
    decreases |m|
  {
    if m == map[] then 0
    else
      var k :| k in m;
      assert (m - {k}).Keys == m.Keys - {k};
      m[k].size + Total(m - {k})
  }

  lemma {:induction false} TotalRemove(m: map<Cid, CacheEntry>, k: Cid)
    requires k in m
    ensures Total(m) == m[k].size + Total(m - {k})
    decreases |m|
  {
    var j :| j in m && Total(m) == m[j].size + Total(m - {j});
    assert (m - {j}).Keys == m.Keys - {j} && (m - {k}).Keys == m.Keys - {k};
    if j != k {
      TotalRemove(m - {j}, k);
      TotalRemove(m - {k}, j);
      assert m - {j} - {k} == m - {k} - {j};
    }
  }

  lemma TotalAdd(m: map<Cid, CacheEntry>, k: Cid, e: CacheEntry)
    requires k !in m
    ensures Total(m[k := e]) == Total(m) + e.size
  {
    TotalRemove(m[k := e], k);
    assert m[k := e] - {k} == m;
  }

  /** Updating an entry without changing its size leaves the total alone. */
  lemma TotalTouch(m: map<Cid, CacheEntry>, k: Cid, e: CacheEntry)
    requires k in m && e.size == m[k].size
    ensures Total(m[k := e]) == Total(m)
  {
    TotalRemove(m, k);
    TotalRemove(m[k := e], k);
    assert m[k := e] - {k} == m - {k};
  }

  // ------------------------------------------------------------- transitions

  /** Deletes the first occurrence, if any. */
  function RemoveFirst(lru: seq<Cid>, c: Cid): seq<Cid> {
    if lru == [] then [] else if lru[0] == c then lru[1..] else [lru[0]] + RemoveFirst(lru[1..], c)
  }

  lemma {:induction false} RemoveFirstKeeps(lru: seq<Cid>, c: Cid, d: Cid)
    requires d != c && d in lru
    ensures d in RemoveFirst(lru, c)
  {
    if lru[0] == c {
      assert lru == [lru[0]] + lru[1..];
    } else if lru[0] != d {
      assert lru == [lru[0]] + lru[1..];
      RemoveFirstKeeps(lru[1..], c, d);
    }
  }

  predicate WouldExceed(limits: Limits, s: State, additional: nat) {
    s.size + additional > limits.maxBytes
    || (limits.maxBlocks.Some? && |s.blocks| >= limits.maxBlocks.value)
  }

  predicate Oldest(s: State, c: Cid) {
    c in s.blocks && forall d :: d in s.blocks ==> s.blocks[c].lastAccessIndex <= s.blocks[d].lastAccessIndex
  }

  /** The state with one block gone and one of its occurrences gone from the list. */
  function Without(s: State, c: Cid): State
    requires c in s.blocks && s.size >= s.blocks[c].size
  {
    State(s.blocks - {c}, RemoveFirst(s.lru, c), s.size - s.blocks[c].size, s.stats)
  }

  function Evicted(s: State, c: Cid): State
    requires c in s.blocks && s.size >= s.blocks[c].size
  {
    var t := Without(s, c);
    t.(stats := t.stats.(evictions := t.stats.evictions + 1))
  }

  /** The eviction loop can take `s` to `t`; which of several oldest blocks goes is left open. */
  ghost predicate Evicts(limits: Limits, s: State, additional: nat, t: State)
    decreases |s.blocks|
  {
    if !WouldExceed(limits, s, additional) || s.blocks == map[] then t == s
    else exists c :: Oldest(s, c) && s.size >= s.blocks[c].size
                     && (s.blocks - {c}).Keys == s.blocks.Keys - {c}
                     && Evicts(limits, Evicted(s, c), additional, t)
  }

  function Touched(s: State, c: Cid): State
    requires c in s.blocks
  {
    s.(blocks := s.blocks[c := s.blocks[c].(lastAccessIndex := |s.lru|)], lru := s.lru + [c])
  }

  function Added(s: State, block: Block): State {
    var size := |block.data|;
    s.(blocks := s.blocks[block.cid := CacheEntry(block, size, |s.lru|)],
       lru := s.lru + [block.cid], size := s.size + size)
  }

  /** One operation and the block it returns, if any. */
  ghost predicate Step(limits: Limits, s: State, op: Op, t: State, out: Option<Block>) {
    match op
    case OpInsert(block) =>
      out.None?
      && if block.cid in s.blocks then t == Touched(s, block.cid)
         else exists u :: Evicts(limits, s, |block.data|, u) && t == Added(u, block)
    case OpGet(cid) =>
      if cid in s.blocks then
        out == Some(s.blocks[cid].block)
        && t == Touched(s.(stats := s.stats.(hits := s.stats.hits + 1)), cid)
      else out.None? && t == s.(stats := s.stats.(misses := s.stats.misses + 1))
    case OpRemove(cid) =>
      if cid in s.blocks then
        out == Some(s.blocks[cid].block) && s.size >= s.blocks[cid].size && t == Without(s, cid)
      else out.None? && t == s
    case OpClear => out.None? && t == State(map[], [], 0, s.stats)
  }

  // -------------------------------------------------------------- invariant

  /** Sizes are the blocks' lengths and add up; entries sit under their own CID; every cached CID is listed. */
  ghost predicate Consistent(s: State) {
    s.size == Total(s.blocks)
    && (forall c :: c in s.blocks ==> s.blocks[c].block.cid == c && s.blocks[c].size == |s.blocks[c].block.data|)
    && (forall c :: c in s.blocks ==> c in s.lru)
  }

  /** Within the byte limit or a single block; within the count limit, taken as at least one. */
  predicate WithinLimits(limits: Limits, s: State) {
    (s.size <= limits.maxBytes || |s.blocks| == 1)
    && (limits.maxBlocks.Some? ==> |s.blocks| <= 1 || |s.blocks| <= limits.maxBlocks.value)
  }

  ghost predicate Inv(limits: Limits, s: State) {
    Consistent(s) && WithinLimits(limits, s)
  }

  lemma WithoutKeeps(s: State, c: Cid)
    requires Consistent(s) && c in s.blocks
    ensures s.size >= s.blocks[c].size && Consistent(Without(s, c))
    ensures (s.blocks - {c}).Keys == s.blocks.Keys - {c} && |s.blocks - {c}| == |s.blocks| - 1
  {
    TotalRemove(s.blocks, c);
    assert (s.blocks - {c}).Keys == s.blocks.Keys - {c};
    forall d | d in s.blocks - {c} ensures d in RemoveFirst(s.lru, c) {
      RemoveFirstKeeps(s.lru, c, d);
    }
  }

  lemma TouchedKeeps(s: State, c: Cid)
    requires Consistent(s) && c in s.blocks
    ensures Consistent(Touched(s, c))
    ensures Touched(s, c).blocks.Keys == s.blocks.Keys && |Touched(s, c).blocks| == |s.blocks|
  {
    var e := s.blocks[c].(lastAccessIndex := |s.lru|);
    TotalTouch(s.blocks, c, e);
    assert s.blocks[c := e].Keys == s.blocks.Keys;
  }

  lemma AddedKeeps(s: State, block: Block)
    requires Consistent(s) && block.cid !in s.blocks
    ensures Consistent(Added(s, block)) && |Added(s, block).blocks| == |s.blocks| + 1
  {
    var e := CacheEntry(block, |block.data|, |s.lru|);
    TotalAdd(s.blocks, block.cid, e);
    assert s.blocks[block.cid := e].Keys == s.blocks.Keys + {block.cid};
  }

  /** The loop stops with room or an empty cache, and only drops blocks. */
  lemma {:induction false} EvictsKeeps(limits: Limits, s: State, additional: nat, t: State)
    requires Consistent(s) && Evicts(limits, s, additional, t)
    ensures Consistent(t) && (t.blocks == map[] || !WouldExceed(limits, t, additional))
    ensures forall c :: c in t.blocks ==> c in s.blocks && t.blocks[c] == s.blocks[c]
    decreases |s.blocks|
  {
    hide Consistent, WouldExceed;
    if WouldExceed(limits, s, additional) && s.blocks != map[] {
      var c :| Oldest(s, c) && s.size >= s.blocks[c].size && Evicts(limits, Evicted(s, c), additional, t);
      WithoutKeeps(s, c);
      EvictedConsistent(s, c);
      EvictsKeeps(limits, Evicted(s, c), additional, t);
    }
  }

  lemma EvictedConsistent(s: State, c: Cid)
    requires c in s.blocks && s.size >= s.blocks[c].size && Consistent(Without(s, c))
    ensures Consistent(Evicted(s, c))
  {
  }

  /** Every operation keeps the invariant. */
  lemma StepKeepsInv(limits: Limits, s: State, op: Op, t: State, out: Option<Block>)
    requires Inv(limits, s) && Step(limits, s, op, t, out)
    ensures Inv(limits, t)
  {
    hide Evicts, Total, Consistent;
    match op
    case OpInsert(block) =>
      if block.cid in s.blocks {
        TouchedKeeps(s, block.cid);
      } else {
        var u :| Evicts(limits, s, |block.data|, u) && t == Added(u, block);
        EvictsKeeps(limits, s, |block.data|, u);
        assert block.cid !in u.blocks;
        AddedKeeps(u, block);
        InsertWithinLimits(limits, u, block);
      }
    case OpGet(cid) =>
      if cid in s.blocks {
        StatsDoNotMatter(s, s.(stats := s.stats.(hits := s.stats.hits + 1)));
        TouchedKeeps(s.(stats := s.stats.(hits := s.stats.hits + 1)), cid);
      } else {
        StatsDoNotMatter(s, t);
      }
    case OpRemove(cid) =>
      if cid in s.blocks {
        WithoutKeeps(s, cid);
        RemoveWithinLimits(limits, s, cid);
      }
    case OpClear => EmptyConsistent(t);
  }

  lemma StatsDoNotMatter(s: State, t: State)
    requires Consistent(s) && t == s.(stats := t.stats)
    ensures Consistent(t)
  {
  }

  lemma EmptyConsistent(s: State)
    requires s.blocks == map[] && s.lru == [] && s.size == 0
    ensures Consistent(s)
  {
    TotalOfNothing();
  }

  lemma TotalOfNothing()
    ensures Total(map[]) == 0
  {
  }

  lemma InsertWithinLimits(limits: Limits, u: State, block: Block)
    requires u.blocks == map[] || !WouldExceed(limits, u, |block.data|)
    requires |Added(u, block).blocks| == |u.blocks| + 1
    ensures WithinLimits(limits, Added(u, block))
  {
  }

  lemma RemoveWithinLimits(limits: Limits, s: State, c: Cid)
    requires Consistent(s) && WithinLimits(limits, s) && c in s.blocks
    requires s.size >= s.blocks[c].size && |s.blocks - {c}| == |s.blocks| - 1
    ensures WithinLimits(limits, Without(s, c))
  {
    if |s.blocks| == 1 {
      TotalRemove(s.blocks, c);
      assert s.blocks - {c} == map[];
      TotalOfNothing();
    }
  }

  // ------------------------------------------------------------------- runs

  /** A run from an empty cache. */
  ghost predicate Run(limits: Limits, states: seq<State>, ops: seq<Op>, outs: seq<Option<Block>>) {
    |states| == |ops| + 1 && |outs| == |ops| && states[0] == EMPTY
    && forall i :: 0 <= i < |ops| ==> Step(limits, states[i], ops[i], states[i + 1], outs[i])
  }

  /** Accounting, listing and both limits hold in every reachable state. */
  lemma {:induction false} RunKeepsInv(limits: Limits, states: seq<State>, ops: seq<Op>, outs: seq<Option<Block>>, i: nat)
    requires Run(limits, states, ops, outs) && i < |states|
    ensures Inv(limits, states[i])
    decreases i
  {
    hide Step;
    if i == 0 {
      TotalOfNothing();
    } else {
      RunKeepsInv(limits, states, ops, outs, i - 1);
      StepKeepsInv(limits, states[i - 1], ops[i - 1], states[i], outs[i - 1]);
    }
  }

  /** Block `b` entered under `c` at step `j`, when `c` was absent, and has been there through state `i`. */
  predicate Since(states: seq<State>, ops: seq<Op>, c: Cid, b: Block, j: nat, i: nat) {
    j < i < |states| && j < |ops| && ops[j] == OpInsert(b) && b.cid == c && c !in states[j].blocks
    && forall k :: j < k <= i ==> c in states[k].blocks && states[k].blocks[c].block == b
  }

  /** A step changes the block under a CID only by inserting it where it was absent. */
  lemma StepOrigin(limits: Limits, s: State, op: Op, t: State, out: Option<Block>, c: Cid)
    requires Inv(limits, s) && Step(limits, s, op, t, out) && c in t.blocks
    ensures (c in s.blocks && t.blocks[c].block == s.blocks[c].block)
         || (c !in s.blocks && op == OpInsert(t.blocks[c].block) && t.blocks[c].block.cid == c)
  {
    hide Evicts, Total;
    if op.OpInsert? && op.block.cid !in s.blocks {
      var u :| Evicts(limits, s, |op.block.data|, u) && t == Added(u, op.block);
      EvictsKeeps(limits, s, |op.block.data|, u);
    }
  }

  lemma {:induction false} CachedSince(limits: Limits, states: seq<State>, ops: seq<Op>, outs: seq<Option<Block>>, i: nat, c: Cid)
    returns (j: nat)
    requires Run(limits, states, ops, outs) && i < |states| && c in states[i].blocks
    ensures Since(states, ops, c, states[i].blocks[c].block, j, i)
    decreases i
  {
    hide Step, Inv;
    j := 0;
    if i > 0 {
      RunKeepsInv(limits, states, ops, outs, i - 1);
      StepOrigin(limits, states[i - 1], ops[i - 1], states[i], outs[i - 1], c);
      if c in states[i - 1].blocks {
        j := CachedSince(limits, states, ops, outs, i - 1, c);
      } else {
        j := i - 1;
      }
    }
  }

  /** A hit returns the block inserted under that CID when it was last absent. */
  lemma HitReturnsLastInserted(limits: Limits, states: seq<State>, ops: seq<Op>, outs: seq<Option<Block>>, i: nat)
    returns (j: nat)
    requires Run(limits, states, ops, outs) && i < |ops| && ops[i].OpGet? && outs[i].Some?
    ensures Since(states, ops, ops[i].cid, outs[i].value, j, i)
  {
    assert Step(limits, states[i], ops[i], states[i + 1], outs[i]);
    j := CachedSince(limits, states, ops, outs, i, ops[i].cid);
  }

  // ------------------------------------------------------------------ class

  class BlockCache {
    const limits: Limits
    var blocks: map<Cid, CacheEntry>
    var lruList: seq<Cid>
    var currentSize: nat
    var stats: CacheStats

    function Now(): State
      reads this
    {
      State(blocks, lruList, currentSize, stats)
    }

    ghost predicate Valid()
      reads this
    {
      Inv(limits, Now())
    }

    constructor (maxSizeBytes: u64, maxBlocks: Option<nat>)
      ensures limits == Limits(maxSizeBytes, maxBlocks) && Now() == EMPTY && Valid()
    {
      limits := Limits(maxSizeBytes, maxBlocks);
      blocks := map[];
      lruList := [];
      currentSize := 0;
      stats := CacheStats(0, 0, 0);
      new;
      TotalOfNothing();
    }

    method Insert(block: Block)
      requires Valid()
      modifies this
      ensures Valid() && Step(limits, old(Now()), OpInsert(block), Now(), None)
    {
      hide Total, Evicts, Inv;
      ghost var s := Now();
      var size := |block.data|;
      if block.cid in blocks {
        UpdateAccess(block.cid);
        StepKeepsInv(limits, s, OpInsert(block), Now(), None);
        return;
      }
      ConsistentOf(limits, s);
      MakeRoom(size);
      ghost var u := Now();
      EvictsKeeps(limits, s, size, u);
      var accessIndex := |lruList|;
      lruList := lruList + [block.cid];
      blocks := blocks[block.cid := CacheEntry(block, size, accessIndex)];
      currentSize := currentSize + size;
      StepKeepsInv(limits, s, OpInsert(block), Now(), None);
    }

    /** The eviction loop: each round drops a block, so it ends. */
    method MakeRoom(additional: nat)
      requires Consistent(Now())
      modifies this
      ensures Consistent(Now()) && Evicts(limits, old(Now()), additional, Now())
    {
      hide Total, Evicts, Consistent;
      ghost var first := Now();
      while WouldExceedLimits(additional) && blocks != map[]
        invariant Consistent(Now())
        invariant forall t :: Evicts(limits, Now(), additional, t) ==> Evicts(limits, first, additional, t)
        decreases |blocks|
      {
        ghost var before := Now();
        EvictLru();
        EvictsStep(limits, before, additional, Now());
      }
      EvictsDone(limits, Now(), additional);
    }

    function WouldExceedLimits(additional: nat): bool
      reads this
    {
      WouldExceed(limits, Now(), additional)
    }

    /** `evict_lru`: never a no-op while a block is cached, since every cached CID is in the list. */
    method EvictLru()
      requires Consistent(Now())
      modifies this
      ensures Consistent(Now())
      ensures old(blocks) == map[] ==> Now() == old(Now())
      ensures old(blocks) != map[] ==>
                |blocks| < |old(blocks)|
                && exists c :: Oldest(old(Now()), c) && old(currentSize) >= old(blocks)[c].size && Now() == Evicted(old(Now()), c)
    {
      hide Consistent, RemoveFirst, Oldest;
      if blocks != map[] {
        SomethingListed(Now());
      }
      if lruList == [] || blocks == map[] {
        return;
      }
      var cid := FindOldest();
      ghost var s := Now();
      WithoutKeeps(s, cid);
      EvictedConsistent(s, cid);
      var entry := blocks[cid];
      blocks := blocks - {cid};
      currentSize := currentSize - entry.size;
      stats := stats.(evictions := stats.evictions + 1);
      lruList := RemoveFirst(lruList, cid);
      assert Now() == Evicted(s, cid);
    }

    /** `min_by_key` over the map, in any iteration order. */
    method FindOldest() returns (cid: Cid)
      requires blocks != map[]
      ensures Oldest(Now(), cid)
    {
      var keys := blocks.Keys;
      cid :| cid in keys;
      var seen := {cid};
      while keys - seen != {}
        invariant cid in blocks && seen <= keys
        invariant forall d :: d in seen ==> blocks[cid].lastAccessIndex <= blocks[d].lastAccessIndex
        decreases |keys - seen|
      {
        var d :| d in keys - seen;
        if blocks[d].lastAccessIndex < blocks[cid].lastAccessIndex {
          cid := d;
        }
        assert keys - (seen + {d}) < keys - seen;
        seen := seen + {d};
      }
    }

    method UpdateAccess(cid: Cid)
      modifies this
      ensures Now() == if cid in old(blocks) then Touched(old(Now()), cid) else old(Now())
    {
      if cid in blocks {
        blocks := blocks[cid := blocks[cid].(lastAccessIndex := |lruList|)];
        lruList := lruList + [cid];
      }
    }

    method Get(cid: Cid) returns (r: Option<Block>)
      requires Valid()
      modifies this
      ensures Valid() && Step(limits, old(Now()), OpGet(cid), Now(), r)
    {
      hide Inv;
      ghost var s := Now();
      if cid in blocks {
        stats := stats.(hits := stats.hits + 1);
        r := Some(blocks[cid].block);
        UpdateAccess(cid);
      } else {
        stats := stats.(misses := stats.misses + 1);
        r := None;
      }
      StepKeepsInv(limits, s, OpGet(cid), Now(), r);
    }

    method Remove(cid: Cid) returns (r: Option<Block>)
      requires Valid()
      modifies this
      ensures Valid() && Step(limits, old(Now()), OpRemove(cid), Now(), r)
    {
      hide Inv, Consistent;
      ghost var s := Now();
      ConsistentOf(limits, s);
      r := None;
      if cid in blocks {
        WithoutKeeps(s, cid);
        var entry := blocks[cid];
        blocks := blocks - {cid};
        currentSize := currentSize - entry.size;
        lruList := RemoveFirst(lruList, cid);
        r := Some(entry.block);
      }
      StepKeepsInv(limits, s, OpRemove(cid), Now(), r);
    }

    method Clear()
      requires Valid()
      modifies this
      ensures Valid() && Step(limits, old(Now()), OpClear, Now(), None)
    {
      hide Inv;
      ghost var s := Now();
      blocks := map[];
      lruList := [];
      currentSize := 0;
      StepKeepsInv(limits, s, OpClear, Now(), None);
    }
  }

  lemma SomethingListed(s: State)
    requires Consistent(s) && s.blocks != map[]
    ensures s.lru != []
  {
    var c :| c in s.blocks;
    assert c in s.lru;
  }

  lemma ConsistentOf(limits: Limits, s: State)
    requires Inv(limits, s)
    ensures Consistent(s)
  {
  }

  lemma EvictsDone(limits: Limits, s: State, additional: nat)
    requires !WouldExceed(limits, s, additional) || s.blocks == map[]
    ensures Evicts(limits, s, additional, s)
  {
  }

  lemma EvictsStep(limits: Limits, s: State, additional: nat, s': State)
    requires WouldExceed(limits, s, additional) && s.blocks != map[]
    requires exists c :: Oldest(s, c) && s.size >= s.blocks[c].size && s' == Evicted(s, c)
    ensures forall t :: Evicts(limits, s', additional, t) ==> Evicts(limits, s, additional, t)
  {
    var c :| Oldest(s, c) && s.size >= s.blocks[c].size && s' == Evicted(s, c);
    assert (s.blocks - {c}).Keys == s.blocks.Keys - {c};
  }
}
