/**
 Content identifiers and their self-delimiting byte form: version, codec and
 multihash, each number an unsigned LEB128 varint; a version-0 identifier is
 the bare SHA-256 multihash with its fixed `12 20` prefix.
 */
module Cids {
  import opened Basics

  const RAW: u64 := 0x55
  const DAG_CBOR: u64 := 0x71
  const SHA2_256: u64 := 0x12

  type Digest32 = d: Bytes | |d| == 32 witness seq(32, _ => 0)

  /** A multihash digest of the `Multihash<64>` type. */
  type Digest = d: Bytes | |d| <= 64

  datatype Cid =
    | V0(sha: Digest32)
    | V1(codec: u64, hash: u64, digest: Digest)
  {
    /** Codec of the identified block; version 0 is always DAG-PB. */
    function Codec(): u64 {
      if V0? then 0x70 else codec
    }
  }

  /** SHA-256, kept uninterpreted: every result is stated for all such functions. */
  type Sha256 = Bytes -> Digest32

  // ---------------------------------------------------------------- varints

  function Varint(n: nat): Bytes {
    if n < 128 then [n] else [128 + n % 128] + Varint(n / 128)
  }

  function Pow128(k: nat): nat {
    if k == 0 then 1 else 128 * Pow128(k - 1)
  }

  /** Reads at most `limit` groups of seven bits, least significant first; a final group of zero is not minimal. */
  function ReadGroups(bs: Bytes, limit: nat): (r: Parse<nat>)
    ensures r.Got? ==> |r.rest| < |bs|
  {
    if bs == [] || limit == 0 then Fails(Bad)
    else if bs[0] < 128 then Got(bs[0], bs[1..])
    else match ReadGroups(bs[1..], limit - 1)
      case Fails(why) => Fails(why)
      case Got(v, rest) => if v == 0 then Fails(Bad) else Got(bs[0] - 128 + 128 * v, rest)
  }

  /** A varint of at most ten bytes whose value fits 64 bits. */
  function ReadVarint(bs: Bytes): (r: Parse<u64>)
    ensures r.Got? ==> |r.rest| < |bs|
  {
    match ReadGroups(bs, 10)
    case Fails(why) => Fails(why)
    case Got(v, rest) => if v < TWO_64 then Got(v, rest) else Fails(Bad)
  }

  lemma {:induction false} GroupsRoundTrip(n: nat, limit: nat, suffix: Bytes)
    requires limit > 0 && n < Pow128(limit)
    ensures ReadGroups(Varint(n) + suffix, limit) == Got(n, suffix)
    decreases n
  {
    var bs := Varint(n) + suffix;
    if n < 128 {
      assert bs[1..] == suffix;
    } else {
      assert bs[1..] == Varint(n / 128) + suffix;
      GroupsRoundTrip(n / 128, limit - 1, suffix);
    }
  }

  lemma VarintRoundTrip(n: u64, suffix: Bytes)
    ensures ReadVarint(Varint(n) + suffix) == Got(n, suffix)
  {
    assert Pow128(10) == 128 * 128 * 128 * 128 * 128 * 128 * 128 * 128 * 128 * 128;
    GroupsRoundTrip(n, 10, suffix);
  }

  lemma {:induction false} VarintLength(n: nat, k: nat)
    requires n < Pow128(k)
    ensures 1 <= |Varint(n)| <= (if k == 0 then 1 else k)
    decreases n
  {
    if n >= 128 {
      VarintLength(n / 128, k - 1);
    }
  }

  // ------------------------------------------------------------- CID bytes

  function CidBytes(c: Cid): Bytes {
    match c
    case V0(sha) => [0x12, 0x20] + sha
    case V1(codec, hash, digest) =>
      Varint(1) + (Varint(codec) + (Varint(hash) + (Varint(|digest|) + digest)))
  }

  /** Reads one identifier from the front of a stream. */
  function ReadCid(bs: Bytes): (r: Parse<Cid>)
    ensures r.Got? ==> |r.rest| < |bs|
  {
    match ReadVarint(bs)
    case Fails(why) => Fails(why)
    case Got(version, afterVersion) =>
      match ReadVarint(afterVersion)
      case Fails(why) => Fails(why)
      case Got(codec, afterCodec) =>
        if version == 0x12 && codec == 0x20 then
          if |afterCodec| < 32 then Fails(Bad)
          else Got(V0(afterCodec[..32]), afterCodec[32..])
        else if version != 1 then Fails(Bad)
        else ReadMultihash(codec, afterCodec)
  }

  function ReadMultihash(codec: u64, bs: Bytes): (r: Parse<Cid>)
    ensures r.Got? ==> |r.rest| < |bs|
  {
    match ReadVarint(bs)
    case Fails(why) => Fails(why)
    case Got(hash, afterHash) =>
      match ReadVarint(afterHash)
      case Fails(why) => Fails(why)
      case Got(size, afterSize) =>
        if size > 64 || |afterSize| < size then Fails(Bad)
        else Got(V1(codec, hash, afterSize[..size]), afterSize[size..])
  }

  /** The byte form is self-delimiting: any suffix is left untouched. */
  lemma CidRoundTrip(c: Cid, suffix: Bytes)
    ensures ReadCid(CidBytes(c) + suffix) == Got(c, suffix)
  {
    match c
    case V0(sha) => V0RoundTrip(sha, suffix);
    case V1(codec, hash, digest) => V1RoundTrip(codec, hash, digest, suffix);
  }

  lemma V0RoundTrip(sha: Digest32, suffix: Bytes)
    ensures ReadCid(CidBytes(V0(sha)) + suffix) == Got(V0(sha), suffix)
  {
    hide ReadVarint, ReadMultihash;
    var tail := sha + suffix;
    assert CidBytes(V0(sha)) + suffix == Varint(0x12) + (Varint(0x20) + tail);
    VarintRoundTrip(0x12, Varint(0x20) + tail);
    VarintRoundTrip(0x20, tail);
    assert tail[..32] == sha && tail[32..] == suffix;
  }

  lemma V1RoundTrip(codec: u64, hash: u64, digest: Digest, suffix: Bytes)
    ensures ReadCid(CidBytes(V1(codec, hash, digest)) + suffix) == Got(V1(codec, hash, digest), suffix)
  {
    hide ReadVarint, ReadMultihash, Varint;
    var multihash := Varint(hash) + (Varint(|digest|) + (digest + suffix));
    assert CidBytes(V1(codec, hash, digest)) + suffix == Varint(1) + (Varint(codec) + multihash);
    VarintRoundTrip(1, Varint(codec) + multihash);
    VarintRoundTrip(codec, multihash);
    MultihashRoundTrip(codec, hash, digest, suffix);
  }

  lemma MultihashRoundTrip(codec: u64, hash: u64, digest: Digest, suffix: Bytes)
    ensures ReadMultihash(codec, Varint(hash) + (Varint(|digest|) + (digest + suffix)))
         == Got(V1(codec, hash, digest), suffix)
  {
    hide ReadVarint, Varint;
    var tail := digest + suffix;
    VarintRoundTrip(hash, Varint(|digest|) + tail);
    VarintRoundTrip(|digest|, tail);
    assert tail[..|digest|] == digest && tail[|digest|..] == suffix;
  }

  lemma CidBytesLength(c: Cid)
    ensures 1 <= |CidBytes(c)| <= 95
    ensures CidBytes(c)[0] != 0
  {
    match c
    case V0(_) =>
    case V1(codec, hash, digest) =>
      assert Pow128(10) == 128 * 128 * 128 * 128 * 128 * 128 * 128 * 128 * 128 * 128;
      VarintLength(codec, 10);
      VarintLength(hash, 10);
      assert Varint(1) == [1];
  }
}
