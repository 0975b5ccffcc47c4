/**
 Content-defined boundaries: the rolling hash with its circular window, and
 its closed form.
 */
module Rabin {
  import opened Basics

  const POLYNOMIAL: bv64 := 0x3DA3358B4DC173
  const WINDOW: nat := 48

  datatype RabinChunker = RabinChunker(minSize: nat, maxSize: nat, mask: bv64)

  function FloorLog2(n: nat): nat
    requires n > 0
  {
    if n == 1 then 0 else 1 + FloorLog2(n / 2)
  }

  lemma {:induction false} FloorLog2Bounds(n: nat)
    requires n > 0
    ensures Pow2(FloorLog2(n)) <= n < 2 * Pow2(FloorLog2(n))
  {
    if n > 1 {
      FloorLog2Bounds(n / 2);
    }
  }

  lemma Pow2Of21()
    ensures Pow2(21) == 2 * 1024 * 1024
  {
    assert Pow2(10) == 1024;
    assert Pow2(15) == 32 * Pow2(10);
    assert Pow2(20) == 32 * Pow2(15);
  }

  lemma {:induction false} FloorLog2Below(n: nat, k: nat)
    requires 0 < n < Pow2(k)
    ensures FloorLog2(n) < k
  {
    if n > 1 {
      FloorLog2Below(n / 2, k - 1);
    }
  }

  /** `RabinChunker::new`. */
  function NewChunker(target: nat): RabinChunker
    requires 0 < target <= 1024 * 1024
  {
    assert FloorLog2(target) < 21 by {
      Pow2Of21();
      FloorLog2Below(target, 21);
    }
    RabinChunker(target / 4, target * 4, Mask(FloorLog2(target)))
  }

  // ---------------------------------------------------------- hash algebra

  function Rot1(x: bv64): bv64 {
    x.RotateLeft(1)
  }

  function Xor(a: bv64, b: bv64): bv64 {
    a ^ b
  }

  /** `in_table`: a byte enters the hash as it is. */
  function Wide(b: byte): bv64 {
    b as bv64
  }

  lemma XorLaws(a: bv64, b: bv64, c: bv64)
    ensures Xor(Xor(a, b), c) == Xor(a, Xor(b, c))
    ensures Xor(a, b) == Xor(b, a)
    ensures Xor(a, 0) == a && Xor(a, a) == 0
    ensures Rot1(Xor(a, b)) == Xor(Rot1(a), Rot1(b))
    ensures Rot1(0) == 0
  {
    hide Xor, Rot1;
    XorAssociative(a, b, c);
    XorUnits(a, b);
    RotLaws(a, b);
  }

  lemma XorAssociative(a: bv64, b: bv64, c: bv64)
    ensures Xor(Xor(a, b), c) == Xor(a, Xor(b, c))
  {
    hide Xor;
    XorLeft(a, b, c);
    XorRight(a, b, c);
  }

  lemma XorLeft(a: bv64, b: bv64, c: bv64)
    ensures Xor(Xor(a, b), c) == (a ^ b) ^ c
  {
  }

  lemma XorRight(a: bv64, b: bv64, c: bv64)
    ensures Xor(a, Xor(b, c)) == a ^ (b ^ c)
  {
  }

  lemma XorUnits(a: bv64, b: bv64)
    ensures Xor(a, b) == Xor(b, a)
    ensures Xor(a, 0) == a && Xor(a, a) == 0
  {
  }

  lemma RotLaws(a: bv64, b: bv64)
    ensures Rot1(Xor(a, b)) == Xor(Rot1(a), Rot1(b))
    ensures Rot1(0) == 0
  {
  }

  /** `x` rotated left by `k` bits. */
  function Rot(x: bv64, k: nat): bv64 {
    if k == 0 then x else Rot1(Rot(x, k - 1))
  }

  /** What `out_table` computes from `v` in `n` rounds. */
  function Mix(v: bv64, n: nat): bv64 {
    if n == 0 then v else Xor(Rot1(Mix(v, n - 1)), POLYNOMIAL)
  }

  /** The byte-independent part of every `out_table` entry. */
  function OutConstant(): bv64 {
    Mix(0, WINDOW)
  }

  lemma {:induction false} MixSplits(v: bv64, n: nat)
    ensures Mix(v, n) == Xor(Rot(v, n), Mix(0, n))
  {
    hide Rot1, Xor;
    XorLaws(v, 0, 0);
    if n > 0 {
      MixSplits(v, n - 1);
      XorLaws(Rot(v, n - 1), Mix(0, n - 1), 0);
      XorLaws(Rot(v, n), Rot1(Mix(0, n - 1)), POLYNOMIAL);
    }
  }

  /** `out_table`: the outgoing byte rotated through the window, and a constant. */
  method OutTable(b: byte) returns (val: bv64)
    ensures val == Xor(Rot(Wide(b), WINDOW), OutConstant())
  {
    hide Rot1, Xor, Wide;
    val := Wide(b);
    for i := 0 to WINDOW
      invariant val == Mix(Wide(b), i)
    {
      val := Xor(Rot1(val), POLYNOMIAL);
    }
    MixSplits(Wide(b), WINDOW);
  }

  /** XOR of the bytes, each rotated left by its age (the last byte has age 0). */
  function Aged(w: seq<byte>): bv64 {
    if w == [] then 0 else Xor(Rot(Wide(w[0]), |w| - 1), Aged(w[1..]))
  }

  lemma {:induction false} AgedSnoc(w: seq<byte>, b: byte)
    ensures Aged(w + [b]) == Xor(Rot1(Aged(w)), Wide(b))
  {
    hide Rot1, Xor, Wide;
    if w == [] {
      assert (w + [b])[1..] == [];
      XorLaws(Wide(b), 0, 0);
    } else {
      assert (w + [b])[1..] == w[1..] + [b];
      AgedSnoc(w[1..], b);
      var oldest := Rot(Wide(w[0]), |w| - 1);
      XorLaws(oldest, Aged(w[1..]), 0);
      XorLaws(Rot1(oldest), Rot1(Aged(w[1..])), Wide(b));
    }
  }

  /** The constant that accumulates over `t` steps since the last reset. */
  function Drift(t: nat): bv64 {
    if t == 0 then 0 else Xor(Rot1(Drift(t - 1)), OutConstant())
  }

  /** The last 48 of the bytes hashed since the reset, zeros standing in before them. */
  function Window(s: seq<byte>): (w: seq<byte>)
    ensures |w| == WINDOW
  {
    (seq(WINDOW, _ => 0) + s)[|s|..]
  }

  /** Closed form of the rolling hash after hashing the bytes `s` from a reset. */
  function HashOf(s: seq<byte>): bv64 {
    Xor(Aged(Window(s)), Drift(|s| % 64))
  }

  lemma WindowSnoc(s: seq<byte>, b: byte)
    ensures Window(s + [b]) == Window(s)[1..] + [b]
  {
  }

  lemma {:induction false} AgedZeros(w: seq<byte>)
    requires forall i :: 0 <= i < |w| ==> w[i] == 0
    ensures Aged(w) == 0
  {
    hide Rot1, Xor, Wide;
    if w != [] {
      AgedZeros(w[1..]);
      assert Wide(0) == 0 by { WideZero(); }
      RotZero(|w| - 1);
      XorLaws(0, 0, 0);
    }
  }

  lemma WideZero()
    ensures Wide(0) == 0
  {
  }

  lemma {:induction false} RotZero(k: nat)
    ensures Rot(0, k) == 0
  {
    hide Rot1, Xor;
    XorLaws(0, 0, 0);
    if k > 0 {
      RotZero(k - 1);
    }
  }

  lemma HashOfNothing()
    ensures Window([]) == seq(WINDOW, _ => 0) && HashOf([]) == 0
  {
    hide Rot1, Xor, Wide;
    AgedZeros(Window([]));
    XorLaws(0, 0, 0);
  }

  /** The outgoing byte, already rotated by 47, cancels against its `out_table` entry. */
  lemma StepAlgebra(oldest: bv64, young: bv64, drift: bv64, k: bv64, b: bv64)
    ensures Xor(Xor(Rot1(Xor(Xor(oldest, young), drift)), Xor(Rot1(oldest), k)), b)
         == Xor(Xor(Rot1(young), b), Xor(Rot1(drift), k))
  {
    hide Rot1, Xor;
    RotLaws(oldest, young);
    RotLaws(Xor(oldest, young), drift);
    Cancel(Rot1(oldest), Rot1(young), Rot1(drift), k, b);
  }

  lemma Cancel(o: bv64, y: bv64, d: bv64, k: bv64, b: bv64)
    ensures Xor(Xor(Xor(Xor(o, y), d), Xor(o, k)), b) == Xor(Xor(y, b), Xor(d, k))
  {
    hide Xor;
    XorLaws(o, y, d);
    XorLaws(Xor(y, d), o, Xor(o, k));
    XorLaws(o, o, k);
    XorLaws(Xor(y, d), k, b);
    XorLaws(y, d, Xor(k, b));
    XorLaws(d, k, b);
    XorLaws(k, 0, 0);
    XorLaws(y, b, Xor(d, k));
    XorLaws(b, Xor(d, k), 0);
  }

  /** One update (rotate, remove the outgoing byte, add the incoming one) keeps the closed form. */
  lemma HashStep(s: seq<byte>, b: byte)
    ensures Xor(Xor(Rot1(HashOf(s)), Xor(Rot(Wide(Window(s)[0]), WINDOW), OutConstant())), Wide(b))
         == HashOf(s + [b])
  {
    hide Rot1, Xor, Wide, Window, OutConstant, Aged, Drift;
    var w := Window(s);
    WindowSnoc(s, b);
    AgedSnoc(w[1..], b);
    AgedUncons(w);
    DriftStep(|s|);
    StepAlgebra(Rot(Wide(w[0]), WINDOW - 1), Aged(w[1..]), Drift(|s| % 64), OutConstant(), Wide(b));
  }

  lemma AgedUncons(w: seq<byte>)
    requires w != []
    ensures Aged(w) == Xor(Rot(Wide(w[0]), |w| - 1), Aged(w[1..]))
  {
  }

  // ------------------------------------------------- drift has period 64

  function Round(x: bv64, c: bv64): bv64 {
    Xor(Rot1(x), c)
  }

  function EightRounds(x: bv64, c: bv64): bv64 {
    Round(Round(Round(Round(Round(Round(Round(Round(x, c), c), c), c), c), c), c), c)
  }

  lemma MixEight(n: nat)
    ensures Mix(0, n + 8) == EightRounds(Mix(0, n), POLYNOMIAL)
  {
    hide Rot1, Xor;
    assert Mix(0, n + 2) == Round(Round(Mix(0, n), POLYNOMIAL), POLYNOMIAL);
    assert Mix(0, n + 4) == Round(Round(Mix(0, n + 2), POLYNOMIAL), POLYNOMIAL);
    assert Mix(0, n + 6) == Round(Round(Mix(0, n + 4), POLYNOMIAL), POLYNOMIAL);
  }

  /** The out-table constant of the library's polynomial. */
  lemma OutConstantValue()
    ensures OutConstant() == 0xbf3a6107e7d7c615
  {
    hide Mix;
    MixStart();
    MixEight(0);
    assert EightRounds(0x0, POLYNOMIAL) == 0x148a726a427b91d1;
    MixEight(8);
    assert EightRounds(0x148a726a427b91d1, POLYNOMIAL) == 0x9ef8182839ea40c5;
    MixEight(16);
    assert EightRounds(0x9ef8182839ea40c5, POLYNOMIAL) == 0xec925a53a83b544f;
    MixEight(24);
    assert EightRounds(0xec925a53a83b544f, POLYNOMIAL) == 0x86d021c2792fde3d;
    MixEight(32);
    assert EightRounds(0x86d021c2792fde3d, POLYNOMIAL) == 0xc4abb0136da5ac57;
    MixEight(40);
    assert EightRounds(0xc4abb0136da5ac57, POLYNOMIAL) == 0xbf3a6107e7d7c615;
  }

  lemma MixStart()
    ensures Mix(0, 0) == 0
  {
  }

  lemma DriftUnfold(t: nat)
    ensures Drift(t + 1) == Xor(Rot1(Drift(t)), OutConstant())
  {
  }

  lemma DriftStep(t: nat)
    ensures Drift((t + 1) % 64) == Xor(Rot1(Drift(t % 64)), OutConstant())
  {
    hide Rot1, Xor, OutConstant, Drift;
    DriftUnfold(t % 64);
    if t % 64 == 63 {
      assert Drift(0) == Drift(64) by { DriftPeriod(); assert Drift(0) == 0 by { DriftStart(); } }
    }
  }

  lemma DriftStart()
    ensures Drift(0) == 0
  {
  }

  // --------------------------------- what the mask leaves of the 64 drifts

  /** The low ten bits of the drift after `t` steps. */
  function LowDrift(t: nat): nat {
    (Drift(t) & 0x3FF) as nat
  }

  /** The step modulo 64 that has these low ten bits of drift, the lower one where two steps share them. */
  function StepOf(low: nat): nat {
    if low == 0x0 then 0 else if low == 0x215 then 1 else if low == 0x23e then 2 else if low == 0x268 then 3
    else if low == 0x2c5 then 4 else if low == 0x39e then 5 else if low == 0x129 then 6 else if low == 0x46 then 7
    else if low == 0x299 then 8 else if low == 0x326 then 9 else if low == 0x58 then 10 else if low == 0x2a4 then 11
    else if low == 0x35d then 12 else if low == 0xae then 13 else if low == 0x349 then 14 else if low == 0x87 then 15
    else if low == 0x31a then 16 else if low == 0x20 then 17 else if low == 0x254 then 18 else if low == 0x2bd then 19
    else if low == 0x36e then 20 else if low == 0xc8 then 21 else if low == 0x384 then 22 else if low == 0x11c then 23
    else if low == 0x2c then 24 else if low == 0x24d then 25 else if low == 0x28f then 26 else if low == 0x30b then 27
    else if low == 0x3 then 28 else if low == 0x213 then 29 else if low == 0x233 then 30 else if low == 0x272 then 31
    else if low == 0x2f1 then 32 else if low == 0x3f6 then 33 else if low == 0x1f9 then 34 else if low == 0x1e6 then 35
    else if low == 0x1d9 then 36 else if low == 0x1a7 then 37 else if low == 0x15b then 38 else if low == 0xa2 then 39
    else if low == 0x351 then 40 else if low == 0xb6 then 41 else if low == 0x379 then 42 else if low == 0xe6 then 43
    else if low == 0x3d8 then 44 else if low == 0x1a5 then 45 else if low == 0x15f then 46 else if low == 0xaa then 47
    else if low == 0x341 then 48 else if low == 0x96 then 49 else if low == 0x339 then 50 else if low == 0x66 then 51
    else if low == 0x2d8 then 52 else if low == 0x3a4 then 53 else if low == 0x15c then 54 else if low == 0xad then 55
    else if low == 0x34e then 56 else if low == 0x88 then 57 else if low == 0x304 then 58 else if low == 0x1c then 59
    else if low == 0x22c then 60 else if low == 0x30a then 63
    else 64
  }

  /** Steps 61 and 62 share their low ten bits with steps 25 and 26. */
  function Representative(t: nat): nat {
    if t == 61 then 25 else if t == 62 then 26 else t
  }

  /** One step of the drift, given its value before and after. */
  lemma DriftNext(t: nat, x: bv64, y: bv64)
    requires Drift(t) == x && y == Round(x, 0xbf3a6107e7d7c615)
    ensures Drift(t + 1) == y
  {
    hide OutConstant, Drift, Rot1, Xor;
    OutConstantValue();
    DriftUnfold(t);
  }

  lemma Drifts0()
    ensures Drift(0) == 0x0
    ensures Drift(1) == 0xbf3a6107e7d7c615
    ensures Drift(2) == 0xc14ea30828784a3e
    ensures Drift(3) == 0x3da72717b7275268
    ensures Drift(4) == 0xc4742f28899962c5
    ensures Drift(5) == 0x37d23f56f4e5039e
    ensures Drift(6) == 0xd09e1faa0e1dc129
    ensures Drift(7) == 0x1e065e53fbec4446
  {
    hide Drift;
    DriftStart();
    DriftNext(0, 0x0, 0xbf3a6107e7d7c615);
    DriftNext(1, 0xbf3a6107e7d7c615, 0xc14ea30828784a3e);
    DriftNext(2, 0xc14ea30828784a3e, 0x3da72717b7275268);
    DriftNext(3, 0x3da72717b7275268, 0xc4742f28899962c5);
    DriftNext(4, 0xc4742f28899962c5, 0x37d23f56f4e5039e);
    DriftNext(5, 0x37d23f56f4e5039e, 0xd09e1faa0e1dc129);
    DriftNext(6, 0xd09e1faa0e1dc129, 0x1e065e53fbec4446);
  }

  lemma Drifts1()
    ensures Drift(8) == 0x8336dda0100f4e99
    ensures Drift(9) == 0xb957da47c7c95b26
    ensures Drift(10) == 0xcd95d58868457058
    ensures Drift(11) == 0x2411ca17375d26a4
    ensures Drift(12) == 0xf719f529896d8b5d
    ensures Drift(13) == 0x51098b54f50cd0ae
    ensures Drift(14) == 0x1d2977ae0dce6749
    ensures Drift(15) == 0x85688e5bfc4b0887
  {
    hide Drift;
    assert Drift(7) == 0x1e065e53fbec4446 by { Drifts0(); }
    DriftNext(7, 0x1e065e53fbec4446, 0x8336dda0100f4e99);
    DriftNext(8, 0x8336dda0100f4e99, 0xb957da47c7c95b26);
    DriftNext(9, 0xb957da47c7c95b26, 0xcd95d58868457058);
    DriftNext(10, 0xcd95d58868457058, 0x2411ca17375d26a4);
    DriftNext(11, 0x2411ca17375d26a4, 0xf719f529896d8b5d);
    DriftNext(12, 0xf719f529896d8b5d, 0x51098b54f50cd0ae);
    DriftNext(13, 0x51098b54f50cd0ae, 0x1d2977ae0dce6749);
    DriftNext(14, 0x1d2977ae0dce6749, 0x85688e5bfc4b0887);
  }

  lemma Drifts2()
    ensures Drift(16) == 0xb5eb7db01f41d71a
    ensures Drift(17) == 0xd4ec9a67d9546820
    ensures Drift(18) == 0x16e355c8557f1654
    ensures Drift(19) == 0x92fcca974d29eabd
    ensures Drift(20) == 0x9ac3f4297d84136e
    ensures Drift(21) == 0x8abd89551cdfe0c8
    ensures Drift(22) == 0xaa4173adde680784
    ensures Drift(23) == 0xebb8865c5b07c91c
  {
    hide Drift;
    assert Drift(15) == 0x85688e5bfc4b0887 by { Drifts1(); }
    DriftNext(15, 0x85688e5bfc4b0887, 0xb5eb7db01f41d71a);
    DriftNext(16, 0xb5eb7db01f41d71a, 0xd4ec9a67d9546820);
    DriftNext(17, 0xd4ec9a67d9546820, 0x16e355c8557f1654);
    DriftNext(18, 0x16e355c8557f1654, 0x92fcca974d29eabd);
    DriftNext(19, 0x92fcca974d29eabd, 0x9ac3f4297d84136e);
    DriftNext(20, 0x9ac3f4297d84136e, 0x8abd89551cdfe0c8);
    DriftNext(21, 0x8abd89551cdfe0c8, 0xaa4173adde680784);
    DriftNext(22, 0xaa4173adde680784, 0xebb8865c5b07c91c);
  }

  lemma Drifts3()
    ensures Drift(24) == 0x684b6dbf51d8542c
    ensures Drift(25) == 0x6facba7944676e4d
    ensures Drift(26) == 0x606315f56f191a8f
    ensures Drift(27) == 0x7ffc4aed39e5f30b
    ensures Drift(28) == 0x40c2f4dd941c2003
    ensures Drift(29) == 0x3ebf88bccfef8613
    ensures Drift(30) == 0xc245707e7808ca33
    ensures Drift(31) == 0x3bb081fb17c65272
  {
    hide Drift;
    assert Drift(23) == 0xebb8865c5b07c91c by { Drifts2(); }
    DriftNext(23, 0xebb8865c5b07c91c, 0x684b6dbf51d8542c);
    DriftNext(24, 0x684b6dbf51d8542c, 0x6facba7944676e4d);
    DriftNext(25, 0x6facba7944676e4d, 0x606315f56f191a8f);
    DriftNext(26, 0x606315f56f191a8f, 0x7ffc4aed39e5f30b);
    DriftNext(27, 0x7ffc4aed39e5f30b, 0x40c2f4dd941c2003);
    DriftNext(28, 0x40c2f4dd941c2003, 0x3ebf88bccfef8613);
    DriftNext(29, 0x3ebf88bccfef8613, 0xc245707e7808ca33);
    DriftNext(30, 0xc245707e7808ca33, 0x3bb081fb17c65272);
  }

  lemma Drifts4()
    ensures Drift(32) == 0xc85b62f1c85b62f1
    ensures Drift(33) == 0x2f8ca4e4776103f6
    ensures Drift(34) == 0xe02328cf0915c1f9
    ensures Drift(35) == 0x7f7c3099f5fc45e6
    ensures Drift(36) == 0x41c200340c2f4dd9
    ensures Drift(37) == 0x3cbe616fff895da7
    ensures Drift(38) == 0xc646a3d818c57d5b
    ensures Drift(39) == 0x33b726b7d65d3ca2
  {
    hide Drift;
    assert Drift(31) == 0x3bb081fb17c65272 by { Drifts3(); }
    DriftNext(31, 0x3bb081fb17c65272, 0xc85b62f1c85b62f1);
    DriftNext(32, 0xc85b62f1c85b62f1, 0x2f8ca4e4776103f6);
    DriftNext(33, 0x2f8ca4e4776103f6, 0xe02328cf0915c1f9);
    DriftNext(34, 0xe02328cf0915c1f9, 0x7f7c3099f5fc45e6);
    DriftNext(35, 0x7f7c3099f5fc45e6, 0x41c200340c2f4dd9);
    DriftNext(36, 0x41c200340c2f4dd9, 0x3cbe616fff895da7);
    DriftNext(37, 0x3cbe616fff895da7, 0xc646a3d818c57d5b);
    DriftNext(38, 0xc646a3d818c57d5b, 0x33b726b7d65d3ca2);
  }

  lemma Drifts5()
    ensures Drift(40) == 0xd8542c684b6dbf51
    ensures Drift(41) == 0xf9239d7710cb8b6
    ensures Drift(42) == 0xa01e12a905ceb779
    ensures Drift(43) == 0xff064455ec4aa8e6
    ensures Drift(44) == 0x4136e9ac3f4297d8
    ensures Drift(45) == 0x3d57b25f9952e9a5
    ensures Drift(46) == 0xc59505b8d572155f
    ensures Drift(47) == 0x34106a764d33ecaa
  {
    hide Drift;
    assert Drift(39) == 0x33b726b7d65d3ca2 by { Drifts4(); }
    DriftNext(39, 0x33b726b7d65d3ca2, 0xd8542c684b6dbf51);
    DriftNext(40, 0xd8542c684b6dbf51, 0xf9239d7710cb8b6);
    DriftNext(41, 0xf9239d7710cb8b6, 0xa01e12a905ceb779);
    DriftNext(42, 0xa01e12a905ceb779, 0xff064455ec4aa8e6);
    DriftNext(43, 0xff064455ec4aa8e6, 0x4136e9ac3f4297d8);
    DriftNext(44, 0x4136e9ac3f4297d8, 0x3d57b25f9952e9a5);
    DriftNext(45, 0x3d57b25f9952e9a5, 0xc59505b8d572155f);
    DriftNext(46, 0xc59505b8d572155f, 0x34106a764d33ecaa);
  }

  lemma Drifts6()
    ensures Drift(48) == 0xd71ab5eb7db01f41
    ensures Drift(49) == 0x110f0ad11cb7f896
    ensures Drift(50) == 0x9d2474a5deb83739
    ensures Drift(51) == 0x8572884c5aa7a866
    ensures Drift(52) == 0xb5df719f529896d8
    ensures Drift(53) == 0xd484823942e6eba4
    ensures Drift(54) == 0x16336575621a115c
    ensures Drift(55) == 0x935cabed23e3e4ad
  {
    hide Drift;
    assert Drift(47) == 0x34106a764d33ecaa by { Drifts5(); }
    DriftNext(47, 0x34106a764d33ecaa, 0xd71ab5eb7db01f41);
    DriftNext(48, 0xd71ab5eb7db01f41, 0x110f0ad11cb7f896);
    DriftNext(49, 0x110f0ad11cb7f896, 0x9d2474a5deb83739);
    DriftNext(50, 0x9d2474a5deb83739, 0x8572884c5aa7a866);
    DriftNext(51, 0x8572884c5aa7a866, 0xb5df719f529896d8);
    DriftNext(52, 0xb5df719f529896d8, 0xd484823942e6eba4);
    DriftNext(53, 0xd484823942e6eba4, 0x16336575621a115c);
    DriftNext(54, 0x16336575621a115c, 0x935cabed23e3e4ad);
  }

  lemma Drifts7()
    ensures Drift(56) == 0x998336dda0100f4e
    ensures Drift(57) == 0x8c3c0cbca7f7d888
    ensures Drift(58) == 0xa742787ea8387704
    ensures Drift(59) == 0xf1be91fab7a7281c
    ensures Drift(60) == 0x5c4742f28899962c
    ensures Drift(61) == 0x7b4e4e2f6e4ea4d
    ensures Drift(62) == 0xb053a8c20a1e128f
    ensures Drift(63) == 0xdf9d3083f3ebe30a
  {
    hide Drift;
    assert Drift(55) == 0x935cabed23e3e4ad by { Drifts6(); }
    DriftNext(55, 0x935cabed23e3e4ad, 0x998336dda0100f4e);
    DriftNext(56, 0x998336dda0100f4e, 0x8c3c0cbca7f7d888);
    DriftNext(57, 0x8c3c0cbca7f7d888, 0xa742787ea8387704);
    DriftNext(58, 0xa742787ea8387704, 0xf1be91fab7a7281c);
    DriftNext(59, 0xf1be91fab7a7281c, 0x5c4742f28899962c);
    DriftNext(60, 0x5c4742f28899962c, 0x7b4e4e2f6e4ea4d);
    DriftNext(61, 0x7b4e4e2f6e4ea4d, 0xb053a8c20a1e128f);
    DriftNext(62, 0xb053a8c20a1e128f, 0xdf9d3083f3ebe30a);
  }

  /** In eight steps from `start` on the low bits of the drift tell which step it is. */
  ghost predicate Told(start: nat) {
    forall t :: start <= t < start + 8 ==> StepOf(LowDrift(t)) == Representative(t)
  }

  lemma ToldBy(start: nat, lows: seq<nat>)
    requires |lows| == 8 && forall k :: 0 <= k < 8 ==> LowDrift(start + k) == lows[k]
    requires forall k :: 0 <= k < 8 ==> StepOf(lows[k]) == Representative(start + k)
    ensures Told(start)
  {
    hide LowDrift, StepOf, Representative;
    forall t | start <= t < start + 8 ensures StepOf(LowDrift(t)) == Representative(t) {
      assert LowDrift(start + (t - start)) == lows[t - start];
    }
  }

  lemma Told0()
    ensures Told(0)
  {
    hide Drift;
    Drifts0();
    var lows := [0x0, 0x215, 0x23e, 0x268, 0x2c5, 0x39e, 0x129, 0x46];
    assert forall k :: 0 <= k < 8 ==> LowDrift(0 + k) == lows[k];
    hide LowDrift;
    ToldBy(0, lows);
  }

  lemma Told1()
    ensures Told(8)
  {
    hide Drift;
    Drifts1();
    var lows := [0x299, 0x326, 0x58, 0x2a4, 0x35d, 0xae, 0x349, 0x87];
    assert forall k :: 0 <= k < 8 ==> LowDrift(8 + k) == lows[k];
    hide LowDrift;
    ToldBy(8, lows);
  }

  lemma Told2()
    ensures Told(16)
  {
    hide Drift;
    Drifts2();
    var lows := [0x31a, 0x20, 0x254, 0x2bd, 0x36e, 0xc8, 0x384, 0x11c];
    assert forall k :: 0 <= k < 8 ==> LowDrift(16 + k) == lows[k];
    hide LowDrift;
    ToldBy(16, lows);
  }

  lemma Told3()
    ensures Told(24)
  {
    hide Drift;
    Drifts3();
    var lows := [0x2c, 0x24d, 0x28f, 0x30b, 0x3, 0x213, 0x233, 0x272];
    assert forall k :: 0 <= k < 8 ==> LowDrift(24 + k) == lows[k];
    hide LowDrift;
    ToldBy(24, lows);
  }

  lemma Told4()
    ensures Told(32)
  {
    hide Drift;
    Drifts4();
    var lows := [0x2f1, 0x3f6, 0x1f9, 0x1e6, 0x1d9, 0x1a7, 0x15b, 0xa2];
    assert forall k :: 0 <= k < 8 ==> LowDrift(32 + k) == lows[k];
    hide LowDrift;
    ToldBy(32, lows);
  }

  lemma Told5()
    ensures Told(40)
  {
    hide Drift;
    Drifts5();
    var lows := [0x351, 0xb6, 0x379, 0xe6, 0x3d8, 0x1a5, 0x15f, 0xaa];
    assert forall k :: 0 <= k < 8 ==> LowDrift(40 + k) == lows[k];
    hide LowDrift;
    ToldBy(40, lows);
  }

  lemma Told6()
    ensures Told(48)
  {
    hide Drift;
    Drifts6();
    var lows := [0x341, 0x96, 0x339, 0x66, 0x2d8, 0x3a4, 0x15c, 0xad];
    assert forall k :: 0 <= k < 8 ==> LowDrift(48 + k) == lows[k];
    hide LowDrift;
    ToldBy(48, lows);
  }

  lemma Told7()
    ensures Told(56)
  {
    hide Drift;
    Drifts7();
    var lows := [0x34e, 0x88, 0x304, 0x1c, 0x22c, 0x24d, 0x28f, 0x30a];
    assert forall k :: 0 <= k < 8 ==> LowDrift(56 + k) == lows[k];
    hide LowDrift;
    ToldBy(56, lows);
  }

  /** 64 steps bring the drift back to zero. */
  lemma DriftPeriod()
    ensures Drift(64) == 0
  {
    hide Drift, StepOf;
    Drifts7();
    DriftNext(63, 0xdf9d3083f3ebe30a, 0);
  }

  lemma StepOfDrift(t: nat)
    requires t < 64
    ensures StepOf(LowDrift(t)) == Representative(t)
  {
    hide LowDrift, StepOf, Representative;
    match t / 8
    case 0 => Told0();
    case 1 => Told1();
    case 2 => Told2();
    case 3 => Told3();
    case 4 => Told4();
    case 5 => Told5();
    case 6 => Told6();
    case 7 => Told7();
  }

  predicate IsPair(a: nat, b: nat, x: nat, y: nat) {
    (a == x && b == y) || (a == y && b == x)
  }

  /** Two steps modulo 64 whose drifts look the same through a mask of `bits` bits. */
  predicate Alike(bits: nat, a: nat, b: nat) {
    a == b || (bits == 10 && IsPair(a, b, 25, 61)) || (bits <= 11 && IsPair(a, b, 26, 62))
  }

  function Mask(bits: nat): bv64
    requires bits < 64
  {
    (1 as bv64 << bits) - 1
  }

  function Masked(x: bv64, mask: bv64): bv64 {
    x & mask
  }

  lemma MaskedMeansLow(x: bv64, y: bv64, mask: bv64)
    requires Masked(mask, 0x3FF) == 0x3FF && Masked(x, mask) == Masked(y, mask)
    ensures x & 0x3FF == y & 0x3FF
  {
  }

  lemma MaskValues(bits: nat)
    requires 10 <= bits <= 20
    ensures Masked(Mask(bits), 0x3FF) == 0x3FF
    ensures bits == 10 ==> Mask(bits) == 0x3FF
    ensures bits == 11 ==> Mask(bits) == 0x7FF
    ensures bits >= 12 ==> Masked(Mask(bits), 0xFFF) == 0xFFF
  {
    if bits <= 15 {
      assert bits == 10 || bits == 11 || bits == 12 || bits == 13 || bits == 14 || bits == 15;
    } else {
      assert bits == 16 || bits == 17 || bits == 18 || bits == 19 || bits == 20;
    }
  }

  /** The four drifts that share their low ten bits, through wider masks. */
  lemma SharedDrifts(mask: bv64)
    ensures mask == 0x3FF ==> Masked(Drift(25), mask) == Masked(Drift(61), mask)
    ensures mask == 0x3FF || mask == 0x7FF ==> Masked(Drift(26), mask) == Masked(Drift(62), mask)
    ensures mask == 0x7FF || Masked(mask, 0xFFF) == 0xFFF ==> Masked(Drift(25), mask) != Masked(Drift(61), mask)
    ensures Masked(mask, 0xFFF) == 0xFFF ==> Masked(Drift(26), mask) != Masked(Drift(62), mask)
  {
    hide Drift;
    Drifts3();
    Drifts7();
  }

  lemma EqualLowDrifts(mask: bv64, a: nat, b: nat)
    requires Masked(mask, 0x3FF) == 0x3FF && Masked(Drift(a), mask) == Masked(Drift(b), mask)
    ensures LowDrift(a) == LowDrift(b)
  {
    hide Drift;
    MaskedMeansLow(Drift(a), Drift(b), mask);
  }

  /** Ten bits tell all steps apart but the two pairs. */
  lemma EqualLowMeans(a: nat, b: nat)
    requires a < 64 && b < 64 && LowDrift(a) == LowDrift(b)
    ensures a == b || IsPair(a, b, 25, 61) || IsPair(a, b, 26, 62)
  {
    hide LowDrift, StepOf;
    StepOfDrift(a);
    StepOfDrift(b);
  }

  /** Through the mask of every allowed target size the drift tells steps apart, but for two pairs below 4096. */
  lemma MaskedDriftIff(bits: nat, a: nat, b: nat)
    requires 10 <= bits <= 20 && a < 64 && b < 64
    ensures Masked(Drift(a), Mask(bits)) == Masked(Drift(b), Mask(bits)) <==> Alike(bits, a, b)
  {
    hide Drift, LowDrift, Mask, Masked;
    MaskValues(bits);
    SharedDrifts(Mask(bits));
    if Masked(Drift(a), Mask(bits)) == Masked(Drift(b), Mask(bits)) {
      EqualLowDrifts(Mask(bits), a, b);
      EqualLowMeans(a, b);
    }
  }

  /**
   Two positions with the same 48-byte window have the same hash exactly when
   their distances from the last reset agree modulo 64.
   */
  lemma SameWindowSameHashIff(s: Bytes, t: Bytes)
    requires Window(s) == Window(t)
    ensures HashOf(s) == HashOf(t) <==> |s| % 64 == |t| % 64
  {
    hide Drift, Aged, Window, Mask;
    if HashOf(s) == HashOf(t) {
      XorCancels(Aged(Window(s)), Drift(|s| % 64), Drift(|t| % 64));
      MaskedDriftIff(12, |s| % 64, |t| % 64);
    }
  }

  lemma XorCancels(a: bv64, d: bv64, e: bv64)
    requires Xor(a, d) == Xor(a, e)
    ensures d == e
  {
    hide Xor;
    XorLaws(a, a, d);
    XorLaws(a, a, e);
    XorLaws(d, 0, 0);
    XorLaws(e, 0, 0);
  }

  // -------------------------------------------------------------- boundaries

  predicate Hit(r: RabinChunker, hash: bv64) {
    Masked(hash, r.mask) == 0
  }

  lemma MaskBits(target: nat)
    requires 1024 <= target <= 1024 * 1024
    ensures 10 <= FloorLog2(target) <= 20 && (target >= 2048 ==> FloorLog2(target) >= 11)
    ensures target >= 4096 ==> FloorLog2(target) >= 12
    ensures NewChunker(target).mask == Mask(FloorLog2(target))
  {
    hide Mask;
    Pow2Of21();
    FloorLog2Below(target, 21);
    FloorLog2Above(target, 10);
    if target >= 2048 {
      FloorLog2Above(target, 11);
    }
    if target >= 4096 {
      FloorLog2Above(target, 12);
    }
  }

  lemma {:induction false} FloorLog2Above(n: nat, k: nat)
    requires n >= Pow2(k)
    ensures FloorLog2(n) >= k
    decreases k
  {
    if k > 0 {
      FloorLog2Above(n / 2, k - 1);
    }
  }

  lemma HitMeans(r: RabinChunker, aged: bv64, drift: bv64)
    ensures Hit(r, Xor(aged, drift)) <==> Masked(aged, r.mask) == Masked(drift, r.mask)
  {
    hide Xor, Masked;
    if Masked(aged, r.mask) == Masked(drift, r.mask) {
      EqualMasked(aged, drift, r.mask);
    } else if Hit(r, Xor(aged, drift)) {
      ZeroMasked(aged, drift, r.mask);
    }
  }

  lemma EqualMasked(a: bv64, d: bv64, m: bv64)
    requires Masked(a, m) == Masked(d, m)
    ensures Masked(Xor(a, d), m) == 0
  {
    assert a & m == d & m ==> (a ^ d) & m == 0;
  }

  lemma ZeroMasked(a: bv64, d: bv64, m: bv64)
    requires Masked(Xor(a, d), m) == 0
    ensures Masked(a, m) == Masked(d, m)
  {
    assert (a ^ d) & m == 0 ==> a & m == d & m;
  }

  /**
   The exact sense in which boundaries depend on content: where two positions
   have the same 48-byte window and one passes the boundary test, the other does
   exactly when their distances from the last reset look alike modulo 64.
   */
  lemma SameWindowHitIff(target: nat, s: Bytes, t: Bytes)
    requires 1024 <= target <= 1024 * 1024 && Window(s) == Window(t)
    ensures Hit(NewChunker(target), HashOf(s)) && Hit(NewChunker(target), HashOf(t))
       <==> Hit(NewChunker(target), HashOf(s)) && Alike(FloorLog2(target), |s| % 64, |t| % 64)
  {
    hide Drift, Aged, Xor, Window, Mask, Masked, Hit, NewChunker;
    MaskBits(target);
    HitMeans(NewChunker(target), Aged(Window(s)), Drift(|s| % 64));
    HitMeans(NewChunker(target), Aged(Window(t)), Drift(|t| % 64));
    MaskedDriftIff(FloorLog2(target), |s| % 64, |t| % 64);
  }

  /** From a target of 4096 on, one window is a content-defined boundary at one residue modulo 64 only. */
  lemma OneResidue(target: nat, s: Bytes, t: Bytes)
    requires 4096 <= target <= 1024 * 1024 && Window(s) == Window(t)
    requires Hit(NewChunker(target), HashOf(s)) && Hit(NewChunker(target), HashOf(t))
    ensures |s| % 64 == |t| % 64
  {
    hide Drift, Aged, Xor, Window, Mask, Masked, Hit;
    MaskBits(target);
    SameWindowHitIff(target, s, t);
  }

  function Zeros(n: nat): (s: Bytes)
    ensures |s| == n
  {
    seq(n, _ => 0)
  }

  /** In a run of zero bytes every window is the same, and only every 64th position passes the test. */
  lemma ZerosHitIff(target: nat, n: nat)
    requires 1024 <= target <= 1024 * 1024
    ensures Window(Zeros(n)) == Zeros(WINDOW)
    ensures Hit(NewChunker(target), HashOf(Zeros(n))) <==> n % 64 == 0
  {
    hide Drift, Aged, Xor, Mask, Masked, Hit, NewChunker;
    assert Window(Zeros(n)) == Zeros(WINDOW);
    AgedZeros(Zeros(WINDOW));
    DriftStart();
    MaskBits(target);
    HitMeans(NewChunker(target), 0, Drift(n % 64));
    MaskedDriftIff(FloorLog2(target), 0, n % 64);
  }

  datatype Verdict = Continue | Forced | ContentDefined

  /** Whether position `i` is a boundary, by the closed form of the hash. */
  function Judge(r: RabinChunker, data: Bytes, i: nat, last: nat, start: nat): Verdict
    requires last <= i < |data| && start <= i
  {
    if i - last < r.minSize then Continue
    else if i - last >= r.maxSize then Forced
    else if Hit(r, HashOf(data[start..i + 1])) then ContentDefined
    else Continue
  }

  /** Positions 318 and 319 of a zero file have the same window; one is a boundary and the other is not. */
  lemma OppositeVerdicts(n: nat)
    requires n >= 320
    ensures Window(Zeros(n)[..319]) == Window(Zeros(n)[..320])
    ensures Judge(NewChunker(1024), Zeros(n), 318, 0, 0) == Continue
    ensures Judge(NewChunker(1024), Zeros(n), 319, 0, 0) == ContentDefined
  {
    hide Drift, Aged, Xor, Mask, Masked, Hit, HashOf, Window;
    assert Zeros(n)[..319] == Zeros(319) && Zeros(n)[..320] == Zeros(320);
    ZerosHitIff(1024, 319);
    ZerosHitIff(1024, 320);
    assert Zeros(n)[0..319] == Zeros(319) && Zeros(n)[0..320] == Zeros(320);
  }

  /**
   The boundaries by closed form. `start` is the first byte hashed since the
   last reset, `last` the previous boundary; only a forced boundary resets.
   */
  function Cuts(r: RabinChunker, data: Bytes, i: nat, last: nat, start: nat): seq<nat>
    requires last <= i <= |data| && start <= i
    decreases |data| - i
  {
    if i == |data| then
      if last < |data| then [|data|] else []
    else match Judge(r, data, i, last, start)
      case Continue => Cuts(r, data, i + 1, last, start)
      case Forced => [i] + Cuts(r, data, i + 1, i, i + 1)
      case ContentDefined => [i] + Cuts(r, data, i + 1, i, start)
  }

  function Boundaries(r: RabinChunker, data: Bytes): seq<nat> {
    if |data| <= r.minSize then [|data|] else Cuts(r, data, 0, 0, 0)
  }

  /** So position 319 is the first boundary of every zero file that reaches it. */
  lemma FirstZeroBoundary(n: nat)
    requires n >= 320
    ensures var bs := Boundaries(NewChunker(1024), Zeros(n));
            bs != [] && bs[0] == 319
  {
    hide Cuts, Mask, Zeros;
    ZeroCuts(n, 0);
  }

  lemma {:induction false} ZeroCuts(n: nat, i: nat)
    requires i <= 319 < n
    ensures var bs := Cuts(NewChunker(1024), Zeros(n), i, 0, 0);
            bs != [] && bs[0] == 319
    decreases 319 - i
  {
    hide Mask, Hit, HashOf, Zeros;
    assert Zeros(n)[0..i + 1] == Zeros(i + 1) by { ZerosPrefix(n, i + 1); }
    ZerosHitIff(1024, i + 1);
    if i < 319 {
      ZeroCuts(n, i + 1);
    }
  }

  lemma ZerosPrefix(n: nat, i: nat)
    requires i <= n
    ensures Zeros(n)[0..i] == Zeros(i)
  {
  }

  /** The window array read from the write position onwards, oldest byte first. */
  ghost predicate Holds(window: array<byte>, pos: nat, s: Bytes)
    reads window
  {
    window.Length == WINDOW && pos < WINDOW && window[pos..] + window[..pos] == Window(s)
  }

  lemma RingStep(before: seq<byte>, after: seq<byte>, pos: nat, s: Bytes, b: byte)
    requires |before| == WINDOW && pos < WINDOW && after == before[pos := b]
    requires before[pos..] + before[..pos] == Window(s)
    ensures before[pos] == Window(s)[0]
    ensures var pos' := (pos + 1) % WINDOW;
            after[pos'..] + after[..pos'] == Window(s + [b])
  {
    hide Window;
    WindowSnoc(s, b);
    var pos' := (pos + 1) % WINDOW;
    assert Window(s)[1..] == before[pos + 1..] + before[..pos];
    if pos + 1 < WINDOW {
      assert after[pos'..] + after[..pos'] == before[pos + 1..] + (before[..pos] + [b]);
    } else {
      assert after[pos'..] + after[..pos'] == before[..pos] + [b];
    }
  }

  /** One pass of the rolling update: window and hash move from `s` to `s + [b]`. */
  method Roll(window: array<byte>, pos: nat, hash: bv64, ghost s: Bytes, b: byte)
    returns (pos': nat, hash': bv64)
    requires Holds(window, pos, s) && hash == HashOf(s)
    modifies window
    ensures Holds(window, pos', s + [b]) && hash' == HashOf(s + [b])
  {
    hide Rot1, Xor, Wide, Rot, HashOf, OutConstant, Window;
    ghost var before := window[..];
    var outByte := window[pos];
    window[pos] := b;
    pos' := (pos + 1) % WINDOW;
    RingStep(before, window[..], pos, s, b);
    HashStep(s, b);
    var out := OutTable(outByte);
    hash' := Xor(Xor(Rot1(hash), out), Wide(b));
  }

  /** `window.fill(0)`. */
  method Clear(window: array<byte>)
    requires window.Length == WINDOW
    modifies window
    ensures Holds(window, 0, [])
  {
    forall k | 0 <= k < WINDOW {
      window[k] := 0;
    }
    assert window[0..] + window[..0] == seq(WINDOW, _ => 0);
    HashOfNothing();
  }

  lemma TakeOneMore(data: Bytes, start: nat, i: nat)
    requires start <= i < |data|
    ensures data[start..i] + [data[i]] == data[start..i + 1]
  {
  }

  /** `find_boundaries`: the one-pass loop computes the boundaries of the closed form. */
  method FindBoundaries(r: RabinChunker, data: Bytes) returns (boundaries: seq<nat>)
    ensures boundaries == Boundaries(r, data)
  {
    hide HashOf, Window, Hit, Holds;
    if |data| <= r.minSize {
      return [|data|];
    }
    boundaries := [];
    var hash: bv64 := 0;
    var window := new byte[WINDOW];
    Clear(window);
    var windowPos := 0;
    var lastBoundary := 0;
    ghost var start := 0;
    HashOfNothing();
    assert data[0..0] == [];
    for i := 0 to |data|
      invariant lastBoundary <= i && start <= i
      invariant window.Length == WINDOW
      invariant Holds(window, windowPos, data[start..i])
      invariant hash == HashOf(data[start..i])
      invariant boundaries + Cuts(r, data, i, lastBoundary, start) == Cuts(r, data, 0, 0, 0)
    {
      TakeOneMore(data, start, i);
      windowPos, hash := Roll(window, windowPos, hash, data[start..i], data[i]);
      var chunkSize := i - lastBoundary;
      CutsStep(r, data, i, lastBoundary, start, boundaries);
      if chunkSize >= r.minSize {
        if chunkSize >= r.maxSize {
          boundaries := boundaries + [i];
          lastBoundary := i;
          hash := 0;
          Clear(window);
          windowPos := 0;
          start := i + 1;
          assert data[start..i + 1] == [];
        } else if Hit(r, hash) {
          boundaries := boundaries + [i];
          lastBoundary := i;
        }
      }
    }
    if lastBoundary < |data| {
      boundaries := boundaries + [|data|];
    } else {
      assert boundaries + [] == boundaries;
    }
  }

  lemma CutsStep(r: RabinChunker, data: Bytes, i: nat, last: nat, start: nat, found: seq<nat>)
    requires last <= i < |data| && start <= i
    ensures found + Cuts(r, data, i, last, start)
         == match Judge(r, data, i, last, start)
            case Continue => found + Cuts(r, data, i + 1, last, start)
            case Forced => found + [i] + Cuts(r, data, i + 1, i, i + 1)
            case ContentDefined => found + [i] + Cuts(r, data, i + 1, i, start)
  {
    hide Judge;
  }

  /** Boundaries that cut `n` bytes after `from` into pieces of at most `hi`, all but the last at least `lo`. */
  predicate CutsUp(bs: seq<nat>, from: nat, n: nat, lo: nat, hi: nat) {
    bs != [] && from < bs[0] && bs[0] - from <= hi
    && if |bs| == 1 then bs[0] == n
       else bs[0] - from >= lo && CutsUp(bs[1..], bs[0], n, lo, hi)
  }

  lemma {:induction false} CutsPartition(r: RabinChunker, data: Bytes, i: nat, last: nat, start: nat)
    requires 1 <= r.minSize <= r.maxSize
    requires last <= i <= |data| && start <= i && last < |data|
    requires i - last <= r.maxSize
    ensures CutsUp(Cuts(r, data, i, last, start), last, |data|, r.minSize, r.maxSize)
    decreases |data| - i
  {
    hide HashOf, Hit;
    if i < |data| {
      CutsStep(r, data, i, last, start, []);
      match Judge(r, data, i, last, start)
      case Continue => CutsPartition(r, data, i + 1, last, start);
      case Forced => CutsPartition(r, data, i + 1, i, i + 1);
      case ContentDefined => CutsPartition(r, data, i + 1, i, start);
    }
  }

  /** A strictly increasing partition of the data, every piece at most four times
      the target and every piece but the last at least a quarter of it. */
  lemma BoundariesPartition(target: nat, data: Bytes)
    requires 4 <= target <= 1024 * 1024 && data != []
    ensures CutsUp(Boundaries(NewChunker(target), data), 0, |data|, target / 4, target * 4)
  {
    var r := NewChunker(target);
    if |data| > r.minSize {
      CutsPartition(r, data, 0, 0, 0);
    }
  }
}
