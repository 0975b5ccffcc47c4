/**
 Types shared by every module: bytes, fixed-width unsigned integers, and the
 error channel of the library.
 */
module Basics {
  type byte = x: int | 0 <= x < 256

  type Bytes = seq<byte>

  const TWO_64: int := 0x1_0000_0000_0000_0000

  type u64 = x: int | 0 <= x < TWO_64

  /** `isize::MAX`: asking for a longer allocation panics with "capacity overflow". */
  const MAX_ALLOC: int := 0x7FFF_FFFF_FFFF_FFFF

  /** The size of an `Ipld` value in memory: some hundred bytes, whatever the compiler makes of it. */
  type ItemSize = x: int | 1 <= x <= 0x1_0000 witness 1

  /** What the codec takes from its surroundings: conversions of short floats to doubles, and a layout. */
  datatype Platform = Platform(half: u64 -> u64, single: u64 -> u64, itemSize: ItemSize)
  {
    /** A vector of `n` values can be asked for. */
    predicate ListFits(n: nat) {
      n * itemSize <= MAX_ALLOC
    }

    lemma ListFitsMeans(n: nat)
      ensures ListFits(n) ==> n <= MAX_ALLOC
      ensures n <= 0x1_0000_0000 ==> ListFits(n)
    {
      if n <= 0x1_0000_0000 {
        assert n * itemSize <= 0x1_0000_0000 * itemSize;
      } else {
        assert n * itemSize >= n * 1;
      }
    }
  }

  datatype Option<+T> = None | Some(value: T)

  /**
   The kinds of failure the modelled operations report (messages are not
   modelled). `Panic` is not an error value of the library: it stands for a call
   that unwinds, which every caller passes on as `?` passes on an error.
   */
  datatype Error =
    | InvalidInput
    | InvalidData
    | Internal
    | Deserialization
    | BlockNotFound
    | CidError
    | Io
    | Panic

  datatype Result<+T> = Ok(value: T) | Err(error: Error)

  /** Why a parser gave up: its input, or an allocation that panicked. */
  datatype Stop = Bad | Crash

  /** Outcome of a parser over a byte stream: what it read and the bytes it left. */
  datatype Parse<+T> = Fails(why: Stop) | Got(value: T, rest: Bytes)

  /** `n as u64` for a non-negative source integer. */
  function Truncate64(n: nat): u64 {
    n % TWO_64
  }

  /** Concatenation of a sequence of sequences. */
  function Concat<T>(parts: seq<seq<T>>): seq<T> {
    if parts == [] then [] else parts[0] + Concat(parts[1..])
  }

  lemma Assoc<T>(a: seq<T>, b: seq<T>, c: seq<T>)
    ensures a + b + c == a + (b + c)
  {
  }

  lemma NilUnits<T>(a: seq<T>)
    ensures a + [] == a && [] + a == a
  {
  }

  lemma DivUnique(a: nat, n: nat, q: nat, r: nat)
    requires n > 0 && r < n && a == q * n + r
    ensures a / n == q
  {
    var p, s := a / n, a % n;
    assert a == p * n + s && s < n;
    if p < q {
      TimesGrows(p + 1, q, n);
    } else if q < p {
      TimesGrows(q + 1, p, n);
    }
  }

  lemma TimesGrows(a: nat, b: nat, n: nat)
    requires a <= b
    ensures a * n <= b * n
  {
  }

  lemma Euclid(k: nat, n: nat)
    requires n > 0
    ensures k / n * n + k % n == k
  {
  }

  lemma NextMultiple(i: nat, n: nat)
    ensures (i + 1) * n == i * n + n
  {
  }

  lemma DivTwice(x: nat, a: nat, b: nat)
    requires a > 0 && b > 0
    ensures a * b > 0 && x / a / b == x / (a * b)
  {
    var y := x / a;
    Euclid(x, a);
    Euclid(y, b);
    var rest := Nested(x, a, x % a, y, b, y % b, y / b);
    DivUnique(x, a * b, y / b, rest);
  }

  lemma Nested(x: nat, a: nat, r: nat, y: nat, b: nat, s: nat, q: nat) returns (rest: nat)
    requires x == y * a + r && r < a && y == q * b + s && s < b
    ensures rest < a * b && x == q * (a * b) + rest
  {
    rest := s * a + r;
    TimesGrows(s, b - 1, a);
    assert (b - 1) * a == a * b - a;
    assert y * a == q * b * a + s * a;
    assert q * b * a == q * (a * b);
  }

  function Pow2(k: nat): (p: nat)
    ensures p >= 1
  {
    if k == 0 then 1 else 2 * Pow2(k - 1)
  }

  lemma {:induction false} Pow2Monotone(a: nat, b: nat)
    requires a <= b
    ensures Pow2(a) <= Pow2(b)
    decreases b - a
  {
    if a < b {
      Pow2Monotone(a + 1, b);
    }
  }

  /** The least `k` with `n <= 2^k`. */
  function CeilLog2(n: nat): nat {
    if n <= 1 then 0 else 1 + CeilLog2((n + 1) / 2)
  }

  lemma {:induction false} CeilLog2Bounds(n: nat)
    ensures n <= Pow2(CeilLog2(n))
    ensures n > 1 ==> CeilLog2(n) >= 1 && Pow2(CeilLog2(n) - 1) < n
  {
    if n > 1 {
      CeilLog2Bounds((n + 1) / 2);
    }
  }
}
