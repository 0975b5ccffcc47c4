/** The 64-bit FNV-1a hash that both Merkle trees of the library use. */
module Fnv {
  import opened Basics

  const FNV_OFFSET: u64 := 14_695_981_039_346_656_037
  const FNV_PRIME: u64 := 1_099_511_628_211

  function XorByte(x: byte, y: byte): byte {
    ((x as bv8) ^ (y as bv8)) as int
  }

  /** `hash ^= byte; hash = hash.wrapping_mul(FNV_PRIME)`: the XOR touches the low byte only. */
  function Round(h: u64, b: byte): u64 {
    (h / 256 * 256 + XorByte(h % 256, b)) * FNV_PRIME % TWO_64
  }

  function Fnv1a(data: Bytes): u64 {
    if data == [] then FNV_OFFSET else Round(Fnv1a(data[..|data| - 1]), data[|data| - 1])
  }

  /** `fnv1a`. */
  method Hash(data: Bytes) returns (h: u64)
    ensures h == Fnv1a(data)
  {
    hide Round;
    h := FNV_OFFSET;
    for i := 0 to |data|
      invariant h == Fnv1a(data[..i])
    {
      h := Round(h, data[i]);
      assert data[..i + 1][..i] == data[..i];
    }
    assert data[..|data|] == data;
  }

  /** The `k` low bytes of a number, lowest first. */
  function Le(x: nat, k: nat): (r: Bytes)
    ensures |r| == k
  {
    if k == 0 then [] else [x % 256] + Le(x / 256, k - 1)
  }

  /** `u64::to_le_bytes`. */
  function LeBytes(x: u64): (r: Bytes)
    ensures |r| == 8
  {
    Le(x, 8)
  }

  // ------------------------------------------------------------ which hash

  lemma FnvStart()
    ensures Fnv1a([]) == 0xCBF29CE484222325
  {
  }

  lemma FnvStep(s: Bytes, b: byte, x: byte, h: u64, h': u64)
    requires Fnv1a(s) == h && XorByte(h % 256, b) == x && h' == (h / 256 * 256 + x) * FNV_PRIME % TWO_64
    ensures Fnv1a(s + [b]) == h'
  {
    hide XorByte;
    assert (s + [b])[..|s|] == s;
  }

  lemma XorsOfA()
    ensures XorByte(0x25, 0x61) == 0x44
  {
  }

  lemma XorsOfFoobar()
    ensures XorByte(0x25, 0x66) == 0x43
    ensures XorByte(0xD9, 0x6F) == 0xB6
    ensures XorByte(0x42, 0x6F) == 0x2D
    ensures XorByte(0x77, 0x62) == 0x15
    ensures XorByte(0xAF, 0x61) == 0xCE
    ensures XorByte(0x0A, 0x72) == 0x78
  {
  }

  /** Published values of 64-bit FNV-1a: the empty string, "a" and "foobar". */
  lemma PublishedVectors()
    ensures Fnv1a([]) == 0xCBF29CE484222325
    ensures Fnv1a([0x61]) == 0xAF63DC4C8601EC8C
    ensures Fnv1a([0x66, 0x6F, 0x6F, 0x62, 0x61, 0x72]) == 0x85944171F73967E8
  {
    hide Fnv1a, XorByte;
    FnvStart();
    XorsOfA();
    FnvStep([], 0x61, 0x44, 0xCBF29CE484222325, 0xAF63DC4C8601EC8C);
    assert [] + [0x61] == [0x61];
    XorsOfFoobar();
    FnvStep([], 0x66, 0x43, 0xCBF29CE484222325, 0xAF63DB4C8601EAD9);
    assert [] + [0x66] == [0x66];
    FnvStep([0x66], 0x6F, 0xB6, 0xAF63DB4C8601EAD9, 0x8985907B541D342);
    assert [0x66] + [0x6F] == [0x66, 0x6F];
    FnvStep([0x66, 0x6F], 0x6F, 0x2D, 0x8985907B541D342, 0xDCB27518FED9D577);
    assert [0x66, 0x6F] + [0x6F] == [0x66, 0x6F, 0x6F];
    FnvStep([0x66, 0x6F, 0x6F], 0x62, 0x15, 0xDCB27518FED9D577, 0xDD120E790C2512AF);
    assert [0x66, 0x6F, 0x6F] + [0x62] == [0x66, 0x6F, 0x6F, 0x62];
    FnvStep([0x66, 0x6F, 0x6F, 0x62], 0x61, 0xCE, 0xDD120E790C2512AF, 0xCAC165AFA2FEF40A);
    assert [0x66, 0x6F, 0x6F, 0x62] + [0x61] == [0x66, 0x6F, 0x6F, 0x62, 0x61];
    FnvStep([0x66, 0x6F, 0x6F, 0x62, 0x61], 0x72, 0x78, 0xCAC165AFA2FEF40A, 0x85944171F73967E8);
    assert [0x66, 0x6F, 0x6F, 0x62, 0x61] + [0x72] == [0x66, 0x6F, 0x6F, 0x62, 0x61, 0x72];
  }

  /** The inverse of the prime modulo 2^64. */
  const FNV_INVERSE: u64 := 0xCE965057AFF6957B

  lemma Unmultiply(x: u64)
    ensures x * FNV_PRIME % TWO_64 * FNV_INVERSE % TWO_64 == x
  {
    var q, r := x * FNV_PRIME / TWO_64, x * FNV_PRIME % TWO_64;
    assert x * FNV_PRIME == q * TWO_64 + r;
    assert FNV_PRIME * FNV_INVERSE == 1 + 887_285_111_055 * TWO_64;
    assert r * FNV_INVERSE == x + (887_285_111_055 * x - q * FNV_INVERSE) * TWO_64;
    Residue(r * FNV_INVERSE, 887_285_111_055 * x - q * FNV_INVERSE, x);
  }

  lemma Residue(a: int, k: int, x: u64)
    requires a == x + k * TWO_64
    ensures a % TWO_64 == x
  {
  }

  /** What a byte does to the hash: XOR into the low byte, then multiplication by the prime. */
  lemma ByteThenPrime(s: Bytes, b: byte)
    ensures var before := Fnv1a(s + [b]) * 0xCE965057AFF6957B % 0x1_0000_0000_0000_0000;
            before / 256 == Fnv1a(s) / 256
            && before % 256 == (((Fnv1a(s) % 256) as bv8) ^ (b as bv8)) as int
  {
    hide Fnv1a, XorByte;
    var h := Fnv1a(s);
    var x := XorByte(h % 256, b);
    var mixed := h / 256 * 256 + x;
    FnvStep(s, b, x, h, mixed * FNV_PRIME % TWO_64);
    Unmultiply(mixed);
    XorIs(h % 256, b);
  }

  lemma XorIs(x: byte, y: byte)
    ensures XorByte(x, y) == ((x as bv8) ^ (y as bv8)) as int
  {
  }

  /** `to_le_bytes` in digits. */
  lemma {:induction false} LeIs(x: nat, k: nat, i: nat)
    requires i < k
    ensures Le(x, k)[i] == x / Pow2(8 * i) % 256
    decreases k
  {
    if i > 0 {
      LeIs(x / 256, k - 1, i - 1);
      EightMore(i - 1);
      DivTwice(x, 256, Pow2(8 * (i - 1)));
    } else {
      assert Pow2(0) == 1;
    }
  }

  lemma EightMore(i: nat)
    ensures Pow2(8 * (i + 1)) == 256 * Pow2(8 * i)
  {
    FourMore(8 * i);
    FourMore(8 * i + 4);
  }

  lemma FourMore(k: nat)
    ensures Pow2(k + 4) == 16 * Pow2(k)
  {
    assert Pow2(k + 2) == 2 * Pow2(k + 1);
    assert Pow2(k + 4) == 2 * Pow2(k + 3);
  }
}
