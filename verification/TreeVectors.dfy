/** Worked values of both Merkle trees: which operand comes first, what pads a level, how digits are written. */
module TreeVectors {
  import opened Basics
  import Fnv
  import MerkleBatch
  import Manifests

  // ------------------------------------------------------- the batch tree

  lemma CombineXors0()
    ensures Fnv.XorByte(0x25, 0x01) == 0x24
    ensures Fnv.XorByte(0x2C, 0x00) == 0x2C
    ensures Fnv.XorByte(0xC4, 0x00) == 0xC4
    ensures Fnv.XorByte(0x0C, 0x00) == 0x0C
    ensures Fnv.XorByte(0x64, 0x00) == 0x64
    ensures Fnv.XorByte(0xEC, 0x00) == 0xEC
    ensures Fnv.XorByte(0x04, 0x00) == 0x04
    ensures Fnv.XorByte(0xCC, 0x00) == 0xCC
  {
  }

  lemma CombineXors1()
    ensures Fnv.XorByte(0xA4, 0x02) == 0xA6
    ensures Fnv.XorByte(0x12, 0x00) == 0x12
    ensures Fnv.XorByte(0x96, 0x00) == 0x96
    ensures Fnv.XorByte(0xE2, 0x00) == 0xE2
    ensures Fnv.XorByte(0x06, 0x00) == 0x06
    ensures Fnv.XorByte(0x32, 0x00) == 0x32
    ensures Fnv.XorByte(0xF6, 0x00) == 0xF6
    ensures Fnv.XorByte(0x02, 0x00) == 0x02
  {
  }

  lemma CombineSteps0()
    ensures Fnv.Fnv1a([0x01, 0x00, 0x00, 0x00, 0x00, 0x00, 0x00, 0x00]) == 0x89CD31291D2AEFA4
  {
    hide Fnv.Fnv1a, Fnv.XorByte;
    CombineXors0();
    Fnv.FnvStart();
    Fnv.FnvStep([], 0x01, 0x24, 0xCBF29CE484222325, 0xAF63BC4C8601B62C);
    assert [] + [0x01] == [0x01];
    Fnv.FnvStep([0x01], 0x00, 0x2C, 0xAF63BC4C8601B62C, 0x82F2207B4E88CC4);
    assert [0x01] + [0x00] == [0x01, 0x00];
    Fnv.FnvStep([0x01, 0x00], 0x00, 0xC4, 0x82F2207B4E88CC4, 0xD0A397186727310C);
    assert [0x01, 0x00] + [0x00] == [0x01, 0x00, 0x00];
    Fnv.FnvStep([0x01, 0x00, 0x00], 0x00, 0x0C, 0xD0A397186727310C, 0xAD2ACA7747985764);
    assert [0x01, 0x00, 0x00] + [0x00] == [0x01, 0x00, 0x00, 0x00];
    Fnv.FnvStep([0x01, 0x00, 0x00, 0x00], 0x00, 0x64, 0xAD2ACA7747985764, 0xD80D6CAEA7DC7EEC);
    assert [0x01, 0x00, 0x00, 0x00] + [0x00] == [0x01, 0x00, 0x00, 0x00, 0x00];
    Fnv.FnvStep([0x01, 0x00, 0x00, 0x00, 0x00], 0x00, 0xEC, 0xD80D6CAEA7DC7EEC, 0xFB4E98C73BABAB04);
    assert [0x01, 0x00, 0x00, 0x00, 0x00] + [0x00] == [0x01, 0x00, 0x00, 0x00, 0x00, 0x00];
    Fnv.FnvStep([0x01, 0x00, 0x00, 0x00, 0x00, 0x00], 0x00, 0x04, 0xFB4E98C73BABAB04, 0xB2389E8A64B397CC);
    assert [0x01, 0x00, 0x00, 0x00, 0x00, 0x00] + [0x00] == [0x01, 0x00, 0x00, 0x00, 0x00, 0x00, 0x00];
    Fnv.FnvStep([0x01, 0x00, 0x00, 0x00, 0x00, 0x00, 0x00], 0x00, 0xCC, 0xB2389E8A64B397CC, 0x89CD31291D2AEFA4);
    assert [0x01, 0x00, 0x00, 0x00, 0x00, 0x00, 0x00] + [0x00] == [0x01, 0x00, 0x00, 0x00, 0x00, 0x00, 0x00, 0x00];
  }

  lemma CombineSteps1()
    requires Fnv.Fnv1a([0x01, 0x00, 0x00, 0x00, 0x00, 0x00, 0x00, 0x00]) == 0x89CD31291D2AEFA4
    ensures Fnv.Fnv1a([0x01, 0x00, 0x00, 0x00, 0x00, 0x00, 0x00, 0x00, 0x02, 0x00, 0x00, 0x00, 0x00, 0x00, 0x00, 0x00]) == 0x7717980363C8E066
  {
    hide Fnv.Fnv1a, Fnv.XorByte;
    CombineXors1();
    Fnv.FnvStep([0x01, 0x00, 0x00, 0x00, 0x00, 0x00, 0x00, 0x00], 0x02, 0xA6, 0x89CD31291D2AEFA4, 0x529A2EDC8FF53712);
    assert [0x01, 0x00, 0x00, 0x00, 0x00, 0x00, 0x00, 0x00] + [0x02] == [0x01, 0x00, 0x00, 0x00, 0x00, 0x00, 0x00, 0x00, 0x02];
    Fnv.FnvStep([0x01, 0x00, 0x00, 0x00, 0x00, 0x00, 0x00, 0x00, 0x02], 0x00, 0x12, 0x529A2EDC8FF53712, 0x5134B2C89DAC9396);
    assert [0x01, 0x00, 0x00, 0x00, 0x00, 0x00, 0x00, 0x00, 0x02] + [0x00] == [0x01, 0x00, 0x00, 0x00, 0x00, 0x00, 0x00, 0x00, 0x02, 0x00];
    Fnv.FnvStep([0x01, 0x00, 0x00, 0x00, 0x00, 0x00, 0x00, 0x00, 0x02, 0x00], 0x00, 0x96, 0x5134B2C89DAC9396, 0xA91F60E3EC3EC7E2);
    assert [0x01, 0x00, 0x00, 0x00, 0x00, 0x00, 0x00, 0x00, 0x02, 0x00] + [0x00] == [0x01, 0x00, 0x00, 0x00, 0x00, 0x00, 0x00, 0x00, 0x02, 0x00, 0x00];
    Fnv.FnvStep([0x01, 0x00, 0x00, 0x00, 0x00, 0x00, 0x00, 0x00, 0x02, 0x00, 0x00], 0x00, 0xE2, 0xA91F60E3EC3EC7E2, 0x9F19854A6EADA506);
    assert [0x01, 0x00, 0x00, 0x00, 0x00, 0x00, 0x00, 0x00, 0x02, 0x00, 0x00] + [0x00] == [0x01, 0x00, 0x00, 0x00, 0x00, 0x00, 0x00, 0x00, 0x02, 0x00, 0x00, 0x00];
    Fnv.FnvStep([0x01, 0x00, 0x00, 0x00, 0x00, 0x00, 0x00, 0x00, 0x02, 0x00, 0x00, 0x00], 0x00, 0x06, 0x9F19854A6EADA506, 0x602837A110F6932);
    assert [0x01, 0x00, 0x00, 0x00, 0x00, 0x00, 0x00, 0x00, 0x02, 0x00, 0x00, 0x00] + [0x00] == [0x01, 0x00, 0x00, 0x00, 0x00, 0x00, 0x00, 0x00, 0x02, 0x00, 0x00, 0x00, 0x00];
    Fnv.FnvStep([0x01, 0x00, 0x00, 0x00, 0x00, 0x00, 0x00, 0x00, 0x02, 0x00, 0x00, 0x00, 0x00], 0x00, 0x32, 0x602837A110F6932, 0x45AE9A6AFD2FBFF6);
    assert [0x01, 0x00, 0x00, 0x00, 0x00, 0x00, 0x00, 0x00, 0x02, 0x00, 0x00, 0x00, 0x00] + [0x00] == [0x01, 0x00, 0x00, 0x00, 0x00, 0x00, 0x00, 0x00, 0x02, 0x00, 0x00, 0x00, 0x00, 0x00];
    Fnv.FnvStep([0x01, 0x00, 0x00, 0x00, 0x00, 0x00, 0x00, 0x00, 0x02, 0x00, 0x00, 0x00, 0x00, 0x00], 0x00, 0xF6, 0x45AE9A6AFD2FBFF6, 0x977059CC38232F02);
    assert [0x01, 0x00, 0x00, 0x00, 0x00, 0x00, 0x00, 0x00, 0x02, 0x00, 0x00, 0x00, 0x00, 0x00] + [0x00] == [0x01, 0x00, 0x00, 0x00, 0x00, 0x00, 0x00, 0x00, 0x02, 0x00, 0x00, 0x00, 0x00, 0x00, 0x00];
    Fnv.FnvStep([0x01, 0x00, 0x00, 0x00, 0x00, 0x00, 0x00, 0x00, 0x02, 0x00, 0x00, 0x00, 0x00, 0x00, 0x00], 0x00, 0x02, 0x977059CC38232F02, 0x7717980363C8E066);
    assert [0x01, 0x00, 0x00, 0x00, 0x00, 0x00, 0x00, 0x00, 0x02, 0x00, 0x00, 0x00, 0x00, 0x00, 0x00] + [0x00] == [0x01, 0x00, 0x00, 0x00, 0x00, 0x00, 0x00, 0x00, 0x02, 0x00, 0x00, 0x00, 0x00, 0x00, 0x00, 0x00];
  }

  /** `combine(1, 2)`: sixteen little-endian bytes, left operand first. */
  lemma CombineVector()
    ensures MerkleBatch.Combine(1, 2) == 0x7717980363C8E066
  {
    hide Fnv.Fnv1a, Fnv.LeBytes;
    CombineSteps0();
    CombineSteps1();
    CombineInput();
  }

  lemma CombineInput()
    ensures Fnv.LeBytes(1) + Fnv.LeBytes(2)
         == [0x01, 0x00, 0x00, 0x00, 0x00, 0x00, 0x00, 0x00, 0x02, 0x00, 0x00, 0x00, 0x00, 0x00, 0x00, 0x00]
  {
    hide Fnv.LeBytes;
    SmallLe(1);
    SmallLe(2);
  }

  lemma SmallLe(b: byte)
    ensures Fnv.LeBytes(b) == [b, 0, 0, 0, 0, 0, 0, 0]
  {
    assert Fnv.Le(0, 4) == [0, 0, 0, 0];
    assert Fnv.Le(0, 7) == [0, 0, 0] + Fnv.Le(0, 4);
  }

  /** One leaf is its own root; a third leaf is paired with zero. */
  lemma SmallRoots(a: u64, b: u64, c: u64)
    ensures MerkleBatch.RootOf(MerkleBatch.Base([a]), MerkleBatch.Height([a])) == a
    ensures MerkleBatch.RootOf(MerkleBatch.Base([a, b, c]), MerkleBatch.Height([a, b, c]))
         == MerkleBatch.Combine(MerkleBatch.Combine(a, b), MerkleBatch.Combine(c, 0))
  {
    hide MerkleBatch.Combine;
    ThreeLeafHeight([a, b, c]);
    assert MerkleBatch.Base([a, b, c]) == [a, b, c, 0];
    TopOfFour(a, b, c, 0);
    assert MerkleBatch.Base([a]) == [a];
  }

  lemma ThreeLeafHeight(s: seq<u64>)
    requires |s| == 3 || |s| == 4
    ensures MerkleBatch.Height(s) == 2 && Pow2(2) == 4
  {
    assert CeilLog2(2) == 1 + CeilLog2(1);
    assert CeilLog2(|s|) == 1 + CeilLog2(2);
  }

  lemma TopOfFour(a: u64, b: u64, c: u64, d: u64)
    ensures MerkleBatch.Ascend([a, b, c, d], 1) == [MerkleBatch.Combine(a, b), MerkleBatch.Combine(c, d)]
    ensures MerkleBatch.Ascend([a, b, c, d], 2) == [MerkleBatch.Combine(MerkleBatch.Combine(a, b), MerkleBatch.Combine(c, d))]
  {
    hide MerkleBatch.Combine;
    var ab, cd := MerkleBatch.Combine(a, b), MerkleBatch.Combine(c, d);
    assert MerkleBatch.Up([a, b, c, d]) == [ab, cd];
    assert MerkleBatch.Up([ab, cd]) == [MerkleBatch.Combine(ab, cd)];
    assert MerkleBatch.Ascend([a, b, c, d], 2) == MerkleBatch.Ascend([ab, cd], 1);
    assert MerkleBatch.Ascend([ab, cd], 1) == MerkleBatch.Ascend(MerkleBatch.Up([ab, cd]), 0);
  }

  /** The proof for the third of four leaves: its neighbour on level 0, the other pair's hash on level 1. */
  lemma FourLeafProof(a: u64, b: u64, c: u64, d: u64)
    ensures var ab, cd := MerkleBatch.Combine(a, b), MerkleBatch.Combine(c, d);
            MerkleBatch.ProofFor([a, b, c, d], [2])
            == MerkleBatch.BatchProof([2], [(0, d), (1, ab)], MerkleBatch.Combine(ab, cd))
  {
    hide MerkleBatch.Combine;
    var leaves := [a, b, c, d];
    var ab, cd := MerkleBatch.Combine(a, b), MerkleBatch.Combine(c, d);
    ThreeLeafHeight(leaves);
    assert MerkleBatch.Base(leaves) == leaves;
    TopOfFour(a, b, c, d);
    assert MerkleBatch.Up(leaves) == [ab, cd];
    OneCovered(2);
    OneCovered(1);
    OneEmitted(0, leaves, 3, []);
    OneEmitted(1, [ab, cd], 0, [(0, d)]);
    assert [] + [(0, d)] == [(0, d)] && [(0, d)] + [(1, ab)] == [(0, d), (1, ab)];
    assert MerkleBatch.EmitAll(2, MerkleBatch.Up([ab, cd]), 0, [0], [(0, d), (1, ab)]) == [(0, d), (1, ab)];
  }

  lemma OneCovered(p: nat)
    ensures MerkleBatch.Needed([p], [p]) == [MerkleBatch.Sibling(p)] && MerkleBatch.Parents([p]) == [p / 2]
    ensures MerkleBatch.ToSet([p]) == [p]
  {
    assert [p][..0] == [];
    assert MerkleBatch.Sibling(p) != p;
    assert MerkleBatch.Needed([p], [p]) == MerkleBatch.Needed([], [p]) + [MerkleBatch.Sibling(p)];
    assert [p][1..] == [];
  }

  lemma OneEmitted(level: nat, nodes: seq<u64>, p: nat, acc: seq<(nat, u64)>)
    requires p < |nodes| && forall i :: 0 <= i < |acc| ==> acc[i].0 != level
    ensures MerkleBatch.EmitLevel(level, nodes, [p], acc) == acc + [(level, nodes[p])]
  {
    assert [p][..0] == [];
    assert MerkleBatch.EmitLevel(level, nodes, [], acc) == acc;
  }

  /** A wrong root is answered with false; a wrong number of items, or of siblings, with an error. */
  lemma VerdictCases(x: Bytes, y: Bytes, root: u64, sibling: u64)
    ensures MerkleBatch.Verdict(0, MerkleBatch.BatchProof([0], [], root), [x])
         == MerkleBatch.Success(MerkleBatch.LeafHash(x) == root)
    ensures MerkleBatch.Verdict(0, MerkleBatch.BatchProof([0], [], root), [x, y]) == MerkleBatch.Failure(MerkleBatch.InvalidProof)
    ensures MerkleBatch.Verdict(1, MerkleBatch.BatchProof([1], [], root), [x]) == MerkleBatch.Failure(MerkleBatch.InvalidProof)
    ensures MerkleBatch.Verdict(1, MerkleBatch.BatchProof([1], [(0, sibling)], root), [x])
         == MerkleBatch.Success(MerkleBatch.Combine(sibling, MerkleBatch.LeafHash(x)) == root)
  {
    hide MerkleBatch.LeafHash, MerkleBatch.Combine, MerkleBatch.UpMap, MerkleBatch.Needed, MerkleBatch.Parents, MerkleBatch.ToSet;
    OneCovered(0);
    OneCovered(1);
    OneLeafMap(0, x);
    OneLeafMap(1, x);
    var sibs := [(0, sibling)];
    assert MerkleBatch.Fill([0], sibs) == map[0 := sibling] by {
      assert [0][..0] == [];
      assert MerkleBatch.Fill([], sibs) == map[];
    }
    assert sibs[1..] == [];
    assert MerkleBatch.SiblingMaps(0, [0], []) == Some([]);
    assert MerkleBatch.SiblingMaps(1, [1], sibs) == Some([map[0 := sibling]] + []);
    var known := map[1 := MerkleBatch.LeafHash(x)] + map[0 := sibling];
    MerkleBatch.UpMapAt(known, 0);
    var ms := [map[0 := sibling]];
    assert ms[1..] == [];
    assert MerkleBatch.Propagated(ms, map[1 := MerkleBatch.LeafHash(x)]) == MerkleBatch.UpMap(known);
  }

  lemma OneLeafMap(p: nat, x: Bytes)
    ensures MerkleBatch.LeafMap([p], [x]) == map[p := MerkleBatch.LeafHash(x)]
  {
    hide MerkleBatch.LeafHash;
    assert [p][..0] == [] && [x][..0] == [];
    assert MerkleBatch.LeafMap([], []) == map[];
  }

  // ---------------------------------------------------- the manifest tree

  lemma JoinXors()
    ensures Fnv.XorByte(0x25, 0x61) == 0x44
    ensures Fnv.XorByte(0x8C, 0x62) == 0xEE
  {
  }

  /** Joining "a" and "b" hashes "ab" and writes sixteen lower-case digits, the leading zero included. */
  lemma JoinVector()
    ensures Manifests.CombineHashes([0x61], [0x62])
         == [0x30, 0x38, 0x39, 0x63] + [0x34, 0x34, 0x30, 0x37] + [0x62, 0x35, 0x34, 0x35] + [0x39, 0x38, 0x36, 0x61]
  {
    hide Fnv.Fnv1a, Fnv.XorByte, Manifests.Hex;
    JoinXors();
    Fnv.FnvStart();
    Fnv.FnvStep([], 0x61, 0x44, 0xCBF29CE484222325, 0xAF63DC4C8601EC8C);
    assert [] + [0x61] == [0x61];
    Fnv.FnvStep([0x61], 0x62, 0xEE, 0xAF63DC4C8601EC8C, 0x89C4407B545986A);
    assert [0x61] + [0x62] == [0x61, 0x62];
    JoinDigits();
  }

  lemma JoinDigits()
    ensures Manifests.Hex(0x89C4407B545986A)
         == [0x30, 0x38, 0x39, 0x63] + [0x34, 0x34, 0x30, 0x37] + [0x62, 0x35, 0x34, 0x35] + [0x39, 0x38, 0x36, 0x61]
  {
    hide Manifests.HexDigits;
    NoDigits();
    NilUnits([0x30, 0x38, 0x39, 0x63]);
    DigitStep(0x0, 0, 8, 9, 12, 0x89C, 0);
    DigitStep(0x89C, 4, 4, 0, 7, 0x89C4407, 4);
    DigitStep(0x89C4407, 11, 5, 4, 5, 0x89C4407B545, 8);
    DigitStep(0x89C4407B545, 9, 8, 6, 10, 0x89C4407B545986A, 12);
  }

  lemma DigitStep(high: nat, a: nat, b: nat, c: nat, d: nat, n: nat, k: nat)
    requires a < 16 && b < 16 && c < 16 && d < 16 && n == 65536 * high + 4096 * a + 256 * b + 16 * c + d
    ensures Manifests.HexDigits(n, k + 4)
         == Manifests.HexDigits(high, k) + [Manifests.Digit(a), Manifests.Digit(b), Manifests.Digit(c), Manifests.Digit(d)]
  {
    hide Manifests.HexDigits, Manifests.Digit;
    OneDigit(high, a, k);
    OneDigit(16 * high + a, b, k + 1);
    OneDigit(256 * high + 16 * a + b, c, k + 2);
    OneDigit(4096 * high + 256 * a + 16 * b + c, d, k + 3);
  }

  lemma OneDigit(high: nat, a: nat, k: nat)
    requires a < 16
    ensures Manifests.HexDigits(16 * high + a, k + 1) == Manifests.HexDigits(high, k) + [Manifests.Digit(a)]
  {
    hide Manifests.Digit;
    assert (16 * high + a) / 16 == high && (16 * high + a) % 16 == a;
  }

  lemma NoDigits()
    ensures Manifests.HexDigits(0, 0) == []
  {
  }

  /** Three entries: the last is paired with itself, and levels follow each other in the array. */
  lemma ThreeEntryTree(a: Bytes, b: Bytes, c: Bytes)
    ensures var x, y, z := Manifests.HashHex(a), Manifests.HashHex(b), Manifests.HashHex(c);
            var xy, zz := Manifests.CombineHashes(x, y), Manifests.CombineHashes(z, z);
            Manifests.TreeOf([a, b, c]).nodes == [x, y, z, xy, zz, Manifests.CombineHashes(xy, zz)]
            && Manifests.Path(Manifests.LeafHashes([a, b, c]), 0) == [y, zz]
            && Manifests.Path(Manifests.LeafHashes([a, b, c]), 1) == [x, zz]
            && Manifests.Path(Manifests.LeafHashes([a, b, c]), 2) == [z, xy]
  {
    var x, y, z := Manifests.HashHex(a), Manifests.HashHex(b), Manifests.HashHex(c);
    assert Manifests.LeafHashes([a, b, c]) == [x, y, z];
    hide Manifests.HashHex, Manifests.LeafHashes, Manifests.CombineHashes;
    var xy, zz := Manifests.CombineHashes(x, y), Manifests.CombineHashes(z, z);
    LevelsOfThree(x, y, z);
    var root := Manifests.CombineHashes(xy, zz);
    hide Manifests.NextLevel, Manifests.Flat, Manifests.Path;
    FlatOfThree(x, y, z, xy, zz, root);
    PathsOfTwo(xy, zz, root);
    PathsOfThree(x, y, z, xy, zz);
  }

  lemma PathsOfThree(x: Bytes, y: Bytes, z: Bytes, xy: Bytes, zz: Bytes)
    requires Manifests.NextLevel([x, y, z]) == [xy, zz]
    requires Manifests.Path([xy, zz], 0) == [zz] && Manifests.Path([xy, zz], 1) == [xy]
    ensures Manifests.Path([x, y, z], 0) == [y, zz]
    ensures Manifests.Path([x, y, z], 1) == [x, zz]
    ensures Manifests.Path([x, y, z], 2) == [z, xy]
  {
    hide Manifests.NextLevel, Manifests.Path;
    PathUp([x, y, z], 0, [xy, zz]);
    PathUp([x, y, z], 1, [xy, zz]);
    PathUp([x, y, z], 2, [xy, zz]);
    assert [y] + [zz] == [y, zz] && [x] + [zz] == [x, zz] && [z] + [xy] == [z, xy];
  }

  lemma PathUp(level: seq<Bytes>, i: nat, next: seq<Bytes>)
    requires i < |level| && |level| > 1 && Manifests.NextLevel(level) == next && i / 2 < |next|
    ensures Manifests.Path(level, i) == [level[Manifests.SiblingIndex(i, |level|)]] + Manifests.Path(next, i / 2)
  {
    hide Manifests.NextLevel;
  }

  lemma LevelsOfThree(x: Bytes, y: Bytes, z: Bytes)
    ensures var xy, zz := Manifests.CombineHashes(x, y), Manifests.CombineHashes(z, z);
            Manifests.NextLevel([x, y, z]) == [xy, zz] && Manifests.NextLevel([xy, zz]) == [Manifests.CombineHashes(xy, zz)]
  {
    hide Manifests.CombineHashes;
  }

  lemma FlatOfThree(x: Bytes, y: Bytes, z: Bytes, xy: Bytes, zz: Bytes, root: Bytes)
    requires Manifests.NextLevel([x, y, z]) == [xy, zz] && Manifests.NextLevel([xy, zz]) == [root]
    ensures Manifests.Flat([x, y, z]) == [x, y, z, xy, zz, root]
  {
    hide Manifests.NextLevel;
    assert Manifests.Flat([root]) == [root];
    assert Manifests.Flat([xy, zz]) == [xy, zz] + Manifests.Flat([root]);
    assert Manifests.Flat([x, y, z]) == [x, y, z] + Manifests.Flat([xy, zz]);
  }

  lemma PathsOfTwo(a: Bytes, b: Bytes, root: Bytes)
    requires Manifests.NextLevel([a, b]) == [root]
    ensures Manifests.Path([a, b], 0) == [b] && Manifests.Path([a, b], 1) == [a]
  {
    hide Manifests.NextLevel;
    assert Manifests.Path([root], 0) == [];
  }
}
