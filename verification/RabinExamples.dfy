/**
 Boundaries without the loop: each is the first position at which the rule
 applies, and that determines the list. Worked hashes and inputs fix the
 constants: the minimum, the maximum, what a byte adds.
 */
module RabinExamples {
  import opened Basics
  import opened Rabin

  // --------------------------------------------------- the rule for boundaries

  /** Far enough from the last boundary, and too far or the masked hash since `start` is zero. */
  predicate Applies(min: nat, max: nat, mask: bv64, data: Bytes, last: nat, start: nat, i: nat)
    requires last <= i < |data| && start <= i + 1
  {
    i - last >= min && (i - last >= max || HashOf(data[start..i + 1]) & mask == 0)
  }

  /** From `last` on: the first position where the rule applies, and so on; the end of the data closes the list. */
  ghost predicate Ruled(min: nat, max: nat, mask: bv64, data: Bytes, bs: seq<nat>, last: nat, start: nat)
    requires last < |data| && start <= last + 1
    decreases |bs|
  {
    bs != [] && last <= bs[0] <= |data|
    && (forall i :: last <= i < bs[0] ==> !Applies(min, max, mask, data, last, start, i))
    && (if bs[0] == |data| then |bs| == 1
        else Applies(min, max, mask, data, last, start, bs[0])
             && Ruled(min, max, mask, data, bs[1..], bs[0], if bs[0] - last >= max then bs[0] + 1 else start))
  }

  lemma JudgeIs(r: RabinChunker, data: Bytes, i: nat, last: nat, start: nat)
    requires last <= i < |data| && start <= i
    ensures Judge(r, data, i, last, start) == Continue <==> !Applies(r.minSize, r.maxSize, r.mask, data, last, start, i)
    ensures r.minSize <= r.maxSize ==> (Judge(r, data, i, last, start) == Forced <==> i - last >= r.maxSize)
  {
    hide HashOf;
  }

  lemma {:induction false} CutsRuled(r: RabinChunker, data: Bytes, i: nat, last: nat, start: nat)
    requires 1 <= r.minSize <= r.maxSize && last <= i <= |data| && start <= i && last < |data| && start <= last + 1
    requires forall j :: last <= j < i ==> !Applies(r.minSize, r.maxSize, r.mask, data, last, start, j)
    ensures Ruled(r.minSize, r.maxSize, r.mask, data, Cuts(r, data, i, last, start), last, start)
    decreases |data| - i
  {
    hide HashOf, Applies, Judge, Hit;
    if i < |data| {
      JudgeIs(r, data, i, last, start);
      AppliesFar(r, data, i, last, start);
      match Judge(r, data, i, last, start)
      case Continue => CutsRuled(r, data, i + 1, last, start);
      case Forced =>
        NotAtOnce(r, data, i, i + 1);
        CutsRuled(r, data, i + 1, i, i + 1);
        Prepend(r, data, i, last, start, Cuts(r, data, i + 1, i, i + 1));
      case ContentDefined =>
        NotAtOnce(r, data, i, start);
        CutsRuled(r, data, i + 1, i, start);
        Prepend(r, data, i, last, start, Cuts(r, data, i + 1, i, start));
    }
  }

  lemma AppliesFar(r: RabinChunker, data: Bytes, i: nat, last: nat, start: nat)
    requires last <= i < |data| && start <= i + 1
    ensures Applies(r.minSize, r.maxSize, r.mask, data, last, start, i) ==> i - last >= r.minSize
  {
  }

  lemma NotAtOnce(r: RabinChunker, data: Bytes, i: nat, start: nat)
    requires r.minSize >= 1 && i < |data| && start <= i + 1
    ensures !Applies(r.minSize, r.maxSize, r.mask, data, i, start, i)
  {
  }

  lemma Prepend(r: RabinChunker, data: Bytes, i: nat, last: nat, start: nat, rest: seq<nat>)
    requires last <= i < |data| && start <= last + 1
    requires forall j :: last <= j < i ==> !Applies(r.minSize, r.maxSize, r.mask, data, last, start, j)
    requires Applies(r.minSize, r.maxSize, r.mask, data, last, start, i)
    requires Ruled(r.minSize, r.maxSize, r.mask, data, rest, i, if i - last >= r.maxSize then i + 1 else start)
    ensures Ruled(r.minSize, r.maxSize, r.mask, data, [i] + rest, last, start)
  {
    hide Applies;
    assert ([i] + rest)[1..] == rest;
  }

  /** The boundaries follow the rule with a quarter and four times the target, and short data is one piece. */
  lemma BoundariesRuled(target: nat, bits: nat, data: Bytes)
    requires 1024 <= target <= 1024 * 1024 && data != []
    requires bits < 64 && Pow2(bits) <= target < Pow2(bits + 1)
    ensures |data| <= target / 4 ==> Boundaries(NewChunker(target), data) == [|data|]
    ensures |data| > target / 4 ==>
              Ruled(target / 4, 4 * target, Mask(bits), data, Boundaries(NewChunker(target), data), 0, 0)
  {
    hide Cuts, Mask, Ruled, Applies, FloorLog2;
    ChunkerIs(target, bits);
    var r := NewChunker(target);
    hide NewChunker;
    if |data| > target / 4 {
      CutsRuled(r, data, 0, 0, 0);
    }
  }

  lemma ChunkerIs(target: nat, bits: nat)
    requires 1024 <= target <= 1024 * 1024 && bits < 64 && Pow2(bits) <= target < Pow2(bits + 1)
    ensures NewChunker(target) == RabinChunker(target / 4, 4 * target, Mask(bits))
  {
    hide Mask, FloorLog2, Pow2;
    FloorLog2Below(target, bits + 1);
    FloorLog2Above(target, bits);
    MaskBits(target);
  }

  /** And the rule leaves no choice. */
  lemma {:induction false} RuledUnique(min: nat, max: nat, mask: bv64, data: Bytes, bs: seq<nat>, cs: seq<nat>, last: nat, start: nat)
    requires last < |data| && start <= last + 1
    requires Ruled(min, max, mask, data, bs, last, start) && Ruled(min, max, mask, data, cs, last, start)
    ensures bs == cs
    decreases |bs|
  {
    hide Applies;
    assert bs[0] == cs[0];
    if bs[0] < |data| {
      RuledUnique(min, max, mask, data, bs[1..], cs[1..], bs[0], if bs[0] - last >= max then bs[0] + 1 else start);
      assert bs == [bs[0]] + bs[1..] && cs == [cs[0]] + cs[1..];
    }
  }

  lemma Masks()
    ensures Mask(10) == 0x3FF && Mask(12) == 0xFFF && Mask(16) == 0xFFFF && Mask(18) == 0x3FFFF && Mask(20) == 0xFFFFF
  {
  }

  // ------------------------------------------------------------ worked hashes

  /** After one byte and after two: each enters unchanged, the older one rotated by one. */
  lemma FirstHashes(a: byte, b: byte)
    ensures HashOf([a]) == (a as bv64) ^ 0xbf3a6107e7d7c615
    ensures HashOf([a, b]) == ((a as bv64).RotateLeft(1) ^ (b as bv64)) ^ 0xc14ea30828784a3e
  {
    hide HashOf, Aged, Drift;
    FirstDrifts();
    AgedOneTwo(a, b);
    HashOfShort([a], a as bv64, 0xbf3a6107e7d7c615);
    HashOfShort([a, b], (a as bv64).RotateLeft(1) ^ (b as bv64), 0xc14ea30828784a3e);
  }

  lemma FirstDrifts()
    ensures Drift(1) == 0xbf3a6107e7d7c615 && Drift(2) == 0xc14ea30828784a3e
  {
    hide Drift;
    Drifts0();
  }

  lemma HashOfShort(s: Bytes, aged: bv64, drift: bv64)
    requires |s| <= 48 && Aged(s) == aged && Drift(|s|) == drift
    ensures HashOf(s) == aged ^ drift
  {
    hide Aged, Drift, Window;
    AgedOf(s);
  }

  /** Zeros before the bytes do not show. */
  lemma {:induction false} AgedAfterZeros(k: nat, w: Bytes)
    ensures Aged(seq(k, _ => 0) + w) == Aged(w)
    decreases k
  {
    hide Rot1, Xor, Wide;
    if k == 0 {
      assert seq(0, _ => 0) + w == w;
    } else {
      var s := seq(k, _ => 0) + w;
      assert s[1..] == seq(k - 1, _ => 0) + w && s[0] == 0;
      AgedAfterZeros(k - 1, w);
      WideZero();
      RotZero(|s| - 1);
      XorLaws(0, Aged(w), 0);
      XorLaws(Aged(w), 0, 0);
    }
  }

  lemma AgedOf(w: Bytes)
    requires |w| <= 48
    ensures Aged(Window(w)) == Aged(w)
  {
    hide Aged, Window;
    WindowShort(w);
    AgedAfterZeros(48 - |w|, w);
  }

  lemma WindowShort(w: Bytes)
    requires |w| <= 48
    ensures Window(w) == seq(48 - |w|, _ => 0) + w
  {
    var padded := seq(48, _ => 0) + w;
    assert padded[|w|..] == seq(48, _ => 0)[|w|..] + w;
  }

  lemma AgedNothing()
    ensures Aged([]) == 0
  {
  }

  lemma AgedOneTwo(a: byte, b: byte)
    ensures Aged([a]) == a as bv64
    ensures Aged([a, b]) == (a as bv64).RotateLeft(1) ^ (b as bv64)
  {
    hide Aged;
    AgedNothing();
    AgedSnoc([], a);
    AgedSnoc([a], b);
    assert [] + [a] == [a] && [a] + [b] == [a, b];
    SimpleBits(a as bv64);
  }

  lemma SimpleBits(x: bv64)
    ensures Xor(Rot1(0), x) == x
  {
  }

  // ------------------------------------------------------------ worked inputs

  lemma AgedEight(w: Bytes, b: byte)
    ensures Aged(w + [b, b, b, b, b, b, b, b]) == EightRounds(Aged(w), Wide(b))
  {
    hide Aged, Rot1, Xor, Wide;
    var w2, w4, w6 := w + [b, b], w + [b, b, b, b], w + [b, b, b, b, b, b];
    AgedTwo(w, b);
    AgedTwo(w2, b);
    AgedTwo(w4, b);
    AgedTwo(w6, b);
    assert w2 + [b, b] == w4 && w4 + [b, b] == w6 && w6 + [b, b] == w + [b, b, b, b, b, b, b, b];
  }

  lemma AgedTwo(w: Bytes, b: byte)
    ensures Aged(w + [b, b]) == Round(Round(Aged(w), Wide(b)), Wide(b))
  {
    hide Aged, Rot1, Xor, Wide;
    AgedSnoc(w, b);
    AgedSnoc(w + [b], b);
    assert w + [b] + [b] == w + [b, b];
  }

  function Ones(n: nat): (s: Bytes)
    ensures |s| == n
  {
    seq(n, _ => 1)
  }

  lemma OnesEight(k: nat)
    ensures Aged(Ones(k + 8)) == EightRounds(Aged(Ones(k)), 1)
  {
    hide Aged, EightRounds;
    AgedEight(Ones(k), 1);
    assert Ones(k) + [1, 1, 1, 1, 1, 1, 1, 1] == Ones(k + 8);
    assert Wide(1) == 1;
  }

  /** A full window of ones: 48 bits set. */
  lemma OnesWindow()
    ensures Aged(Ones(48)) == 0xFFFFFFFFFFFF
  {
    hide Aged;
    assert Ones(0) == [];
    AgedNothing();
    OnesEight(0);
    assert EightRounds(0, 1) == 0xFF;
    OnesEight(8);
    assert EightRounds(0xFF, 1) == 0xFFFF;
    OnesEight(16);
    assert EightRounds(0xFFFF, 1) == 0xFFFFFF;
    OnesEight(24);
    assert EightRounds(0xFFFFFF, 1) == 0xFFFFFFFF;
    OnesEight(32);
    assert EightRounds(0xFFFFFFFF, 1) == 0xFFFFFFFFFF;
    OnesEight(40);
    assert EightRounds(0xFFFFFFFFFF, 1) == 0xFFFFFFFFFFFF;
  }

  /** No drift has all ten low bits set. */
  lemma NoAllOnes(t: nat)
    requires t < 64
    ensures Masked(Drift(t), 0x3FF) != 0x3FF
  {
    hide Drift, StepOf;
    StepOfDrift(t);
    if Masked(Drift(t), 0x3FF) == 0x3FF {
      assert LowDrift(t) == 0x3FF by { AllOnesLow(t); }
      assert StepOf(0x3FF) == 64 by { NotADrift(); }
    }
  }

  lemma AllOnesLow(t: nat)
    requires Masked(Drift(t), 0x3FF) == 0x3FF
    ensures LowDrift(t) == 0x3FF
  {
    hide Drift;
  }

  lemma NotADrift()
    ensures StepOf(0x3FF) == 64
  {
  }

  lemma OnesNeverHit(n: nat)
    requires n >= 48
    ensures !Hit(NewChunker(1024), HashOf(Ones(n)))
  {
    hide Drift, Aged, Xor, Masked, Mask, Hit, NewChunker, Window, FloorLog2;
    MaskBits(1024);
    TargetBits();
    Masks();
    assert Window(Ones(n)) == Ones(48) by { OnesLast(n); }
    OnesWindow();
    HitMeans(NewChunker(1024), Aged(Ones(48)), Drift(n % 64));
    NoAllOnes(n % 64);
    assert Masked(0xFFFFFFFFFFFF, 0x3FF) == 0x3FF by { LowOnes(); }
  }

  lemma TargetBits()
    ensures FloorLog2(1024) == 10
  {
    assert FloorLog2(32) == 5;
    assert FloorLog2(1024) == 5 + FloorLog2(32);
  }

  lemma LowOnes()
    ensures Masked(0xFFFFFFFFFFFF, 0x3FF) == 0x3FF
  {
  }

  lemma OnesLast(n: nat)
    requires n >= 48
    ensures Window(Ones(n)) == Ones(48)
  {
  }

  /** A file of ones never passes the test with target 1024: the first boundary is forced, at 4096. */
  lemma ForcedAtMaximum(n: nat)
    requires n > 4096
    ensures var bs := Boundaries(NewChunker(1024), Ones(n));
            bs != [] && bs[0] == 4096
  {
    hide Cuts, Mask, Ones;
    OnesCuts(n, 0);
  }

  lemma {:induction false} OnesCuts(n: nat, i: nat)
    requires i <= 4096 < n
    ensures var bs := Cuts(NewChunker(1024), Ones(n), i, 0, 0);
            bs != [] && bs[0] == 4096
    decreases 4096 - i
  {
    hide Mask, Hit, HashOf, Ones;
    assert Ones(n)[0..i + 1] == Ones(i + 1) by { OnesPrefix(n, i + 1); }
    if i >= 256 {
      OnesNeverHit(i + 1);
    }
    if i < 4096 {
      OnesCuts(n, i + 1);
    }
  }

  lemma OnesPrefix(n: nat, i: nat)
    requires i <= n
    ensures Ones(n)[0..i] == Ones(i)
  {
  }

  /** 257 bytes whose last ten make the hash zero in its low bits at position 256. */
  function Early(): (s: Bytes)
    ensures |s| == 257
  {
    seq(247, _ => 0) + [1, 0, 0, 0, 0, 0, 0, 0, 0, 0x15]
  }

  lemma EarlyWindow()
    ensures Aged(Window(Early())) == 0x215
  {
    hide Aged, EightRounds;
    var tail := [1, 0, 0, 0, 0, 0, 0, 0, 0, 0x15];
    assert Window(Early()) == seq(38, _ => 0) + tail;
    AgedAfterZeros(38, tail);
    AgedOneTwo(1, 0);
    AgedEight([1], 0);
    AgedSnoc([1, 0, 0, 0, 0, 0, 0, 0, 0], 0x15);
    assert [1] + [0, 0, 0, 0, 0, 0, 0, 0] == [1, 0, 0, 0, 0, 0, 0, 0, 0];
    assert [1, 0, 0, 0, 0, 0, 0, 0, 0] + [0x15] == tail;
    EarlyBits();
  }

  lemma EarlyBits()
    ensures Wide(0) == 0 && Wide(0x15) == 0x15 && EightRounds(1, 0) == 0x100 && Xor(Rot1(0x100), 0x15) == 0x215
  {
  }

  lemma EarlyHit()
    ensures Hit(NewChunker(1024), HashOf(Early()))
  {
    hide Drift, Aged, Xor, Masked, Mask, Hit, NewChunker, Window, FloorLog2, Early;
    MaskBits(1024);
    TargetBits();
    Masks();
    EarlyWindow();
    Drifts0();
    HitMeans(NewChunker(1024), 0x215, Drift(1));
    assert Masked(0x215, 0x3FF) == Masked(0xbf3a6107e7d7c615, 0x3FF) by { EarlyLow(); }
  }

  lemma EarlyLow()
    ensures Masked(0x215, 0x3FF) == Masked(0xbf3a6107e7d7c615, 0x3FF)
  {
  }

  /** A boundary is found at the minimum distance itself, a quarter of the target. */
  lemma FoundAtMinimum(rest: Bytes)
    ensures var bs := Boundaries(NewChunker(1024), Early() + rest);
            bs != [] && bs[0] == 256
  {
    hide Cuts, Mask, Early;
    EarlyCuts(rest, 0);
  }

  lemma {:induction false} EarlyCuts(rest: Bytes, i: nat)
    requires i <= 256
    ensures var bs := Cuts(NewChunker(1024), Early() + rest, i, 0, 0);
            bs != [] && bs[0] == 256
    decreases 256 - i
  {
    hide Mask, Hit, HashOf, Early;
    if i < 256 {
      EarlyCuts(rest, i + 1);
    } else {
      assert (Early() + rest)[0..257] == Early();
      EarlyHit();
    }
  }
}
