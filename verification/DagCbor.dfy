/**
 The DAG-CBOR codec as functions on byte strings (section 3 of RFC 8949 with
 CID links under tag 42), and its theorems. Module DagCborCodec holds the same
 codec in the buffer-and-reader form of the library.
 */
module DagCbor {
  import opened Basics
  import opened Cids
  import opened IpldModel

  const CID_TAG: u64 := 42

  // ---------------------------------------------------- big-endian integers

  function Be(n: nat, k: nat): (r: Bytes)
    ensures |r| == k
  {
    if k == 0 then [] else Be(n / 256, k - 1) + [n % 256]
  }

  function FromBe(bs: Bytes): nat {
    if bs == [] then 0 else FromBe(bs[..|bs| - 1]) * 256 + bs[|bs| - 1]
  }

  function Pow256(k: nat): nat {
    if k == 0 then 1 else 256 * Pow256(k - 1)
  }

  lemma {:induction false} BeRoundTrip(n: nat, k: nat)
    requires n < Pow256(k)
    ensures FromBe(Be(n, k)) == n
  {
    if k > 0 {
      BeRoundTrip(n / 256, k - 1);
      var bs := Be(n, k);
      assert bs[..|bs| - 1] == Be(n / 256, k - 1);
    }
  }

  lemma {:induction false} FromBeBound(bs: Bytes)
    ensures FromBe(bs) < Pow256(|bs|)
  {
    if bs != [] {
      FromBeBound(bs[..|bs| - 1]);
    }
  }

  lemma Powers()
    ensures Pow256(1) == 256 && Pow256(2) == 65536 && Pow256(4) == 0x1_0000_0000
    ensures Pow256(8) == TWO_64
  {
    assert Pow256(4) == 256 * 256 * 256 * 256;
    assert Pow256(8) == 256 * 256 * 256 * 256 * Pow256(4);
  }

  // ----------------------------------------------------------------- heads

  /** Number of argument bytes that follow an initial byte with this additional information. */
  function ArgumentWidth(info: nat): Option<nat> {
    if info < 24 then Some(0)
    else if info == 24 then Some(1)
    else if info == 25 then Some(2)
    else if info == 26 then Some(4)
    else if info == 27 then Some(8)
    else None
  }

  /** `encode_cbor_length`: initial byte and argument. */
  function Head(major: nat, n: u64): (r: Bytes)
    requires major < 8
    ensures 1 <= |r| <= 9
    ensures r[0] / 32 == major
  {
    if n < 24 then [major * 32 + n]
    else if n < 256 then [major * 32 + 24, n]
    else if n < 65536 then [major * 32 + 25] + Be(n, 2)
    else if n < 0x1_0000_0000 then [major * 32 + 26] + Be(n, 4)
    else [major * 32 + 27] + Be(n, 8)
  }

  /** `decode_cbor_uint`: the argument that follows an initial byte. */
  function ReadArgument(info: nat, bs: Bytes): (r: Parse<u64>)
    requires info < 32
    ensures r.Got? ==> |r.rest| <= |bs| && r.rest == bs[|bs| - |r.rest|..]
  {
    match ArgumentWidth(info)
    case None => Fails(Bad)
    case Some(w) =>
      if w == 0 then Got(info, bs)
      else if |bs| < w then Fails(Bad)
      else
        Powers();
        FromBeBound(bs[..w]);
        Got(FromBe(bs[..w]), bs[w..])
  }

  lemma HeadRoundTrip(major: nat, n: u64, suffix: Bytes)
    requires major < 8
    ensures var bs := Head(major, n) + suffix;
            bs[0] / 32 == major && ReadArgument(bs[0] % 32, bs[1..]) == Got(n, suffix)
  {
    hide ReadArgument, Be;
    Powers();
    var bs := Head(major, n) + suffix;
    if n < 24 {
      assert bs[1..] == suffix;
      ShortArgument(n, suffix);
    } else if n < 256 {
      assert bs[1..] == [n] + suffix;
      assert Be(n, 1) == [n] by { OneByte(n); }
      LongArgument(24, 1, n, suffix);
    } else {
      var w, info := if n < 65536 then 2 else if n < 0x1_0000_0000 then 4 else 8, bs[0] % 32;
      assert bs[1..] == Be(n, w) + suffix;
      LongArgument(info, w, n, suffix);
    }
  }

  lemma OneByte(n: byte)
    ensures Be(n, 1) == [n]
  {
    assert Be(n / 256, 0) == [];
  }

  lemma ShortArgument(n: nat, suffix: Bytes)
    requires n < 24
    ensures ReadArgument(n, suffix) == Got(n, suffix)
  {
  }

  lemma LongArgument(info: nat, w: nat, n: u64, suffix: Bytes)
    requires 24 <= info < 28 && ArgumentWidth(info) == Some(w) && n < Pow256(w)
    ensures ReadArgument(info, Be(n, w) + suffix) == Got(n, suffix)
  {
    hide Be, FromBe;
    var bs := Be(n, w) + suffix;
    assert bs[..w] == Be(n, w) && bs[w..] == suffix;
    BeRoundTrip(n, w);
  }

  /** Section 4.2.1 of RFC 8949: of all heads that decode to `n`, the encoder emits a shortest one. */
  lemma HeadShortest(major: nat, n: u64, other: Bytes)
    requires major < 8 && other != []
    requires ReadArgument(other[0] % 32, other[1..]) == Got(n, [])
    ensures |Head(major, n)| <= |other|
  {
    hide Head, ReadArgument, FromBe;
    Powers();
    HeadLength(major, n);
    var info, bs := other[0] % 32, other[1..];
    var w := ArgumentBound(info, bs);
    hide Pow256;
  }

  /** An argument takes 0, 1, 2, 4 or 8 bytes, and a value that fits them. */
  lemma ArgumentBound(info: nat, bs: Bytes) returns (w: nat)
    requires info < 32 && ReadArgument(info, bs).Got?
    ensures w <= |bs| && (w == 0 || w == 1 || w == 2 || w == 4 || w == 8)
    ensures if w == 0 then ReadArgument(info, bs).value < 24 else ReadArgument(info, bs).value < Pow256(w)
  {
    hide FromBe, Pow256;
    w := ArgumentWidth(info).value;
    if w > 0 {
      FromBeBound(bs[..w]);
    }
  }

  lemma HeadLength(major: nat, n: u64)
    requires major < 8
    ensures n < 24 ==> |Head(major, n)| == 1
    ensures n < 256 ==> |Head(major, n)| <= 2
    ensures n < 65536 ==> |Head(major, n)| <= 3
    ensures n < 0x1_0000_0000 ==> |Head(major, n)| <= 5
  {
  }

  // --------------------------------------------------------------- encoder

  /** `encode_dag_cbor`. The integer casts keep the low 64 bits. */
  function Encode(v: Ipld): (r: Bytes)
    ensures r != []
    decreases v, 1
  {
    match v
    case Null => [0xF6]
    case Bool(b) => [if b then 0xF5 else 0xF4]
    case Integer(i) =>
      if i >= 0 then Head(0, Truncate64(i)) else Head(1, Truncate64(-1 - i))
    case Float(bits) => [0xFB] + Be(bits, 8)
    case Text(s) => EncodeText(s)
    case Binary(b) => Head(2, Truncate64(|b|)) + b
    case List(items) => Head(4, Truncate64(|items|)) + EncodeItems(items)
    case Map(es) => Head(5, Truncate64(|es|)) + EncodeEntries(es)
    case Link(cid) =>
      var prefixed := [0x00] + CidBytes(cid);
      Head(6, CID_TAG) + (Head(2, Truncate64(|prefixed|)) + prefixed)
  }

  function EncodeText(s: Bytes): (r: Bytes)
    ensures r != []
  {
    Head(3, Truncate64(|s|)) + s
  }

  function EncodeItems(items: seq<Ipld>): Bytes
    decreases items, 0
  {
    if items == [] then [] else Encode(items[0]) + EncodeItems(items[1..])
  }

  function EncodeEntries(es: seq<Entry>): Bytes
    decreases es, 0
  {
    if es == [] then []
    else EncodeText(es[0].key) + (Encode(es[0].value) + EncodeEntries(es[1..]))
  }

  // --------------------------------------------------------------- decoder

  /** `read_exact` of `n` bytes. */
  function Take(n: nat, bs: Bytes): (r: Parse<Bytes>)
    ensures r.Got? ==> |r.rest| <= |bs|
    ensures n <= |bs| ==> r == Got(bs[..n], bs[n..])
  {
    if n <= |bs| then Got(bs[..n], bs[n..]) else Fails(Bad)
  }

  /**
   `decode_dag_cbor`. Every success consumes input, so it ends on every byte
   string; a declared length beyond what can be allocated is a crash.
   */
  function Decode(pf: Platform, bs: Bytes): (r: Parse<Ipld>)
    ensures r.Got? ==> |r.rest| < |bs|
    decreases |bs|, 0
  {
    if bs == [] then Fails(Bad)
    else if bs[0] / 32 == 7 then DecodeSimple(pf, bs[0] % 32, bs[1..])
    else match ReadArgument(bs[0] % 32, bs[1..])
      case Fails(why) => Fails(why)
      case Got(n, rest) => DecodeBody(pf, bs[0] / 32, n, rest)
  }

  /** What follows a head of major type 0 to 6 with argument `n`. */
  function DecodeBody(pf: Platform, major: nat, n: u64, bs: Bytes): (r: Parse<Ipld>)
    requires major < 7
    ensures r.Got? ==> |r.rest| <= |bs|
    decreases |bs|, 2
  {
    if major == 0 then Got(Integer(n), bs)
    else if major == 1 then Got(Integer(-1 - n), bs)
    else if (major == 2 || major == 3) && n > MAX_ALLOC then Fails(Crash)
    else if major == 2 then
      (match Take(n, bs)
       case Fails(why) => Fails(why)
       case Got(b, rest) => Got(Binary(b), rest))
    else if major == 3 then
      (match Take(n, bs)
       case Fails(why) => Fails(why)
       case Got(s, rest) => if ValidUtf8(s) then Got(Text(s), rest) else Fails(Bad))
    else if major == 4 && !pf.ListFits(n) then Fails(Crash)
    else if major == 4 then
      (match DecodeItems(pf, n, bs)
       case Fails(why) => Fails(why)
       case Got(items, rest) => Got(List(items), rest))
    else if major == 5 then
      (match DecodeEntries(pf, n, [], bs)
       case Fails(why) => Fails(why)
       case Got(es, rest) => Got(Map(es), rest))
    else if n == CID_TAG then
      (match Decode(pf, bs)
       case Fails(why) => Fails(why)
       case Got(content, rest) => if content.Binary? then LinkFrom(content.bytes, rest) else Fails(Bad))
    else Decode(pf, bs)
  }

  function DecodeSimple(pf: Platform, info: nat, bs: Bytes): (r: Parse<Ipld>)
    ensures r.Got? ==> |r.rest| <= |bs|
  {
    if info == 20 then Got(Bool(false), bs)
    else if info == 21 then Got(Bool(true), bs)
    else if info == 22 then Got(Null, bs)
    else if info == 25 then
      (match ReadArgument(25, bs)
       case Fails(why) => Fails(why)
       case Got(n, rest) => Got(Float(pf.half(n)), rest))
    else if info == 26 then
      (match ReadArgument(26, bs)
       case Fails(why) => Fails(why)
       case Got(n, rest) => Got(Float(pf.single(n)), rest))
    else if info == 27 then
      (match ReadArgument(27, bs)
       case Fails(why) => Fails(why)
       case Got(n, rest) => Got(Float(n), rest))
    else Fails(Bad)
  }

  /** The content of tag 42: an optional multibase identity prefix, then a CID. */
  function LinkFrom(content: Bytes, rest: Bytes): Parse<Ipld> {
    var bare := if content != [] && content[0] == 0 then content[1..] else content;
    match ReadCid(bare)
    case Fails(_) => Fails(Bad)
    case Got(cid, _) => Got(Link(cid), rest)
  }

  function DecodeItems(pf: Platform, n: nat, bs: Bytes): (r: Parse<seq<Ipld>>)
    ensures r.Got? ==> |r.rest| <= |bs| && |r.value| == n
    decreases |bs|, 1
  {
    if n == 0 then Got([], bs)
    else match Decode(pf, bs)
      case Fails(why) => Fails(why)
      case Got(v, rest) =>
        match DecodeItems(pf, n - 1, rest)
        case Fails(why) => Fails(why)
        case Got(vs, rest') => Got([v] + vs, rest')
  }

  /** Reads `n` key-value pairs into the map built so far. */
  function DecodeEntries(pf: Platform, n: nat, acc: seq<Entry>, bs: Bytes): (r: Parse<seq<Entry>>)
    ensures r.Got? ==> |r.rest| <= |bs|
    decreases |bs|, 1
  {
    if n == 0 then Got(acc, bs)
    else match Decode(pf, bs)
      case Fails(why) => Fails(why)
      case Got(k, afterKey) =>
        if !k.Text? then Fails(Bad)
        else match Decode(pf, afterKey)
          case Fails(why) => Fails(why)
          case Got(v, rest) => DecodeEntries(pf, n - 1, Insert(acc, k.s, v), rest)
  }

  /** `Ipld::to_dag_cbor` and `Ipld::from_dag_cbor` (trailing bytes are ignored). */
  function ToDagCbor(v: Ipld): Bytes {
    Encode(v)
  }

  function FromDagCbor(pf: Platform, bs: Bytes): Result<Ipld> {
    match Decode(pf, bs)
    case Fails(Bad) => Err(Deserialization)
    case Fails(Crash) => Err(Panic)
    case Got(v, _) => Ok(v)
  }

  // ------------------------------------------------------------ round trip

  /** The effect of the encoder's casts to `u64` on every integer of a value. */
  function Wrapped(v: Ipld): Ipld
    decreases v, 1
  {
    match v
    case Integer(i) =>
      if i >= 0 then Integer(Truncate64(i)) else Integer(-1 - Truncate64(-1 - i))
    case List(items) => List(WrappedItems(items))
    case Map(es) => Map(WrappedEntries(es))
    case _ => v
  }

  function WrappedItems(items: seq<Ipld>): (r: seq<Ipld>)
    ensures |r| == |items|
    decreases items, 0
  {
    if items == [] then [] else [Wrapped(items[0])] + WrappedItems(items[1..])
  }

  function WrappedEntries(es: seq<Entry>): (r: seq<Entry>)
    ensures |r| == |es|
    ensures forall i :: 0 <= i < |es| ==> r[i].key == es[i].key
    decreases es, 0
  {
    if es == [] then []
    else [Entry(es[0].key, Wrapped(es[0].value))] + WrappedEntries(es[1..])
  }

  /** Every integer lies in [-2^64, 2^64), the range CBOR's two integer types cover. */
  predicate IntegersFit(v: Ipld)
    decreases v, 1
  {
    match v
    case Integer(i) => -TWO_64 <= i < TWO_64
    case List(items) => ItemsFit(items)
    case Map(es) => EntriesFit(es)
    case _ => true
  }

  predicate ItemsFit(items: seq<Ipld>)
    decreases items, 0
  {
    forall i :: 0 <= i < |items| ==> IntegersFit(items[i])
  }

  predicate EntriesFit(es: seq<Entry>)
    decreases es, 0
  {
    forall i :: 0 <= i < |es| ==> IntegersFit(es[i].value)
  }

  lemma {:induction false} WrappedIffFits(v: Ipld)
    ensures Wrapped(v) == v <==> IntegersFit(v)
    decreases v, 1
  {
    match v
    case List(items) => WrappedItemsIffFit(items);
    case Map(es) => WrappedEntriesIffFit(es);
    case _ =>
  }

  lemma {:induction false} WrappedItemsIffFit(items: seq<Ipld>)
    ensures WrappedItems(items) == items <==> ItemsFit(items)
    decreases items, 0
  {
    if items != [] {
      WrappedIffFits(items[0]);
      WrappedItemsIffFit(items[1..]);
      assert items == [items[0]] + items[1..];
      assert WrappedItems(items)[1..] == WrappedItems(items[1..]);
      assert ItemsFit(items) <==> IntegersFit(items[0]) && ItemsFit(items[1..]) by {
        if IntegersFit(items[0]) && ItemsFit(items[1..]) {
          forall i | 0 <= i < |items| ensures IntegersFit(items[i]) {
            assert i > 0 ==> items[i] == items[1..][i - 1];
          }
        }
      }
    }
  }

  lemma {:induction false} WrappedEntriesIffFit(es: seq<Entry>)
    ensures WrappedEntries(es) == es <==> EntriesFit(es)
    decreases es, 0
  {
    if es != [] {
      WrappedIffFits(es[0].value);
      WrappedEntriesIffFit(es[1..]);
      assert es == [es[0]] + es[1..];
      assert WrappedEntries(es)[1..] == WrappedEntries(es[1..]);
      assert EntriesFit(es) <==> IntegersFit(es[0].value) && EntriesFit(es[1..]) by {
        if IntegersFit(es[0].value) && EntriesFit(es[1..]) {
          forall i | 0 <= i < |es| ensures IntegersFit(es[i].value) {
            assert i > 0 ==> es[i] == es[1..][i - 1];
          }
        }
      }
    }
  }

  lemma TakePrefix(b: Bytes, suffix: Bytes)
    ensures Take(|b|, b + suffix) == Got(b, suffix)
  {
    assert (b + suffix)[..|b|] == b && (b + suffix)[|b|..] == suffix;
  }

  /** One unfolding of the decoder on an encoder's head. */
  lemma DecodeHead(pf: Platform, major: nat, n: u64, suffix: Bytes)
    requires major < 7
    ensures Decode(pf, Head(major, n) + suffix) == DecodeBody(pf, major, n, suffix)
  {
    HeadRoundTrip(major, n, suffix);
  }

  lemma DecodeText(pf: Platform, s: Bytes, suffix: Bytes)
    requires ValidText(s)
    ensures Decode(pf, EncodeText(s) + suffix) == Got(Text(s), suffix)
  {
    hide Decode, Head;
    assert EncodeText(s) + suffix == Head(3, |s|) + (s + suffix);
    DecodeHead(pf, 3, |s|, s + suffix);
    TakePrefix(s, suffix);
  }

  lemma DecodeBinary(pf: Platform, b: Bytes, suffix: Bytes)
    requires |b| <= MAX_ALLOC
    ensures Decode(pf, Encode(Binary(b)) + suffix) == Got(Binary(b), suffix)
  {
    hide Decode, Head;
    assert Encode(Binary(b)) + suffix == Head(2, |b|) + (b + suffix);
    DecodeHead(pf, 2, |b|, b + suffix);
    TakePrefix(b, suffix);
  }

  lemma DecodeLink(pf: Platform, cid: Cid, suffix: Bytes)
    ensures Decode(pf, Encode(Link(cid)) + suffix) == Got(Link(cid), suffix)
  {
    hide Decode, ReadCid, CidBytes;
    CidBytesLength(cid);
    var prefixed := [0x00] + CidBytes(cid);
    var body := Encode(Binary(prefixed));
    assert Encode(Link(cid)) + suffix == Head(6, CID_TAG) + (body + suffix);
    DecodeHead(pf, 6, CID_TAG, body + suffix);
    DecodeBinary(pf, prefixed, suffix);
    assert prefixed[1..] == CidBytes(cid) + [];
    CidRoundTrip(cid, []);
  }

  lemma DecodeScalar(pf: Platform, v: Ipld, suffix: Bytes)
    requires v.Null? || v.Bool? || v.Float?
    ensures Decode(pf, Encode(v) + suffix) == Got(v, suffix)
  {
    var bs := Encode(v) + suffix;
    if v.Float? {
      assert bs[1..] == Be(v.bits, 8) + suffix;
      TakePrefix(Be(v.bits, 8), suffix);
      Powers();
      BeRoundTrip(v.bits, 8);
    } else {
      assert bs[1..] == suffix;
    }
  }

  lemma DecodeInteger(pf: Platform, i: int, suffix: Bytes)
    ensures Decode(pf, Encode(Integer(i)) + suffix) == Got(Wrapped(Integer(i)), suffix)
  {
    hide Decode;
    DecodeHead(pf, if i >= 0 then 0 else 1, Truncate64(if i >= 0 then i else -1 - i), suffix);
  }

  lemma DecodeList(pf: Platform, items: seq<Ipld>, decoded: seq<Ipld>, suffix: Bytes)
    requires pf.ListFits(|items|)
    requires DecodeItems(pf, |items|, EncodeItems(items) + suffix) == Got(decoded, suffix)
    ensures Decode(pf, Encode(List(items)) + suffix) == Got(List(decoded), suffix)
  {
    hide Decode, DecodeItems, EncodeItems, Head;
    pf.ListFitsMeans(|items|);
    assert Encode(List(items)) + suffix == Head(4, |items|) + (EncodeItems(items) + suffix);
    DecodeHead(pf, 4, |items|, EncodeItems(items) + suffix);
  }

  lemma DecodeMap(pf: Platform, es: seq<Entry>, decoded: seq<Entry>, suffix: Bytes)
    requires |es| < TWO_64
    requires DecodeEntries(pf, |es|, [], EncodeEntries(es) + suffix) == Got(decoded, suffix)
    ensures Decode(pf, Encode(Map(es)) + suffix) == Got(Map(decoded), suffix)
  {
    hide Decode, DecodeEntries, EncodeEntries, Head;
    assert Encode(Map(es)) + suffix == Head(5, |es|) + (EncodeEntries(es) + suffix);
    DecodeHead(pf, 5, |es|, EncodeEntries(es) + suffix);
  }

  /** Decoding an encoding gives back the value, up to integer truncation, and leaves any suffix. */
  lemma {:induction false} DecodeEncode(pf: Platform, v: Ipld, suffix: Bytes)
    requires Representable(pf, v)
    ensures Decode(pf, Encode(v) + suffix) == Got(Wrapped(v), suffix)
    decreases v, 1
  {
    hide Decode, DecodeBody, DecodeItems, DecodeEntries, EncodeItems, EncodeEntries, CidBytes;
    match v
    case Null => DecodeScalar(pf, v, suffix);
    case Bool(_) => DecodeScalar(pf, v, suffix);
    case Float(_) => DecodeScalar(pf, v, suffix);
    case Integer(i) => DecodeInteger(pf, i, suffix);
    case Text(s) => DecodeText(pf, s, suffix);
    case Binary(b) => DecodeBinary(pf, b, suffix);
    case List(items) =>
      DecodeEncodeItems(pf, items, suffix);
      DecodeList(pf, items, WrappedItems(items), suffix);
    case Map(es) =>
      assert [] + es == es;
      DecodeEncodeEntries(pf, [], es, suffix);
      assert [] + WrappedEntries(es) == WrappedEntries(es);
      DecodeMap(pf, es, WrappedEntries(es), suffix);
    case Link(cid) => DecodeLink(pf, cid, suffix);
  }

  lemma {:induction false} DecodeEncodeItems(pf: Platform, items: seq<Ipld>, suffix: Bytes)
    requires AllRepresentable(pf, items)
    ensures DecodeItems(pf, |items|, EncodeItems(items) + suffix) == Got(WrappedItems(items), suffix)
    decreases items, 0
  {
    hide Decode, Encode;
    if items == [] {
      assert EncodeItems(items) + suffix == suffix;
    } else {
      var tail := EncodeItems(items[1..]) + suffix;
      assert EncodeItems(items) + suffix == Encode(items[0]) + tail;
      DecodeEncode(pf, items[0], tail);
      DecodeEncodeItems(pf, items[1..], suffix);
    }
  }

  lemma ExtendSorted(acc: seq<Entry>, es: seq<Entry>, w: Entry)
    requires es != [] && Sorted(acc + es) && w.key == es[0].key
    ensures Insert(acc, w.key, w.value) == acc + [w]
    ensures Sorted(acc + [w] + es[1..])
  {
    hide Less;
    forall i | 0 <= i < |acc| ensures Less(acc[i].key, w.key) {
      assert (acc + es)[i] == acc[i] && (acc + es)[|acc|] == es[0];
    }
    InsertAtEnd(acc, w.key, w.value);
    forall i, j | 0 <= i < j < |acc + es|
      ensures Less((acc + [w] + es[1..])[i].key, (acc + [w] + es[1..])[j].key)
    {
      assert Less((acc + es)[i].key, (acc + es)[j].key);
    }
  }

  lemma NoEntries(pf: Platform, acc: seq<Entry>, bs: Bytes)
    ensures DecodeEntries(pf, 0, acc, bs) == Got(acc, bs)
  {
  }

  lemma OneEntry(pf: Platform, n: nat, acc: seq<Entry>, bs: Bytes)
    requires n > 0
    requires var k := Decode(pf, bs); k.Got? && k.value.Text? && Decode(pf, k.rest).Got?
    ensures var k := Decode(pf, bs);
            var v := Decode(pf, k.rest);
            DecodeEntries(pf, n, acc, bs) == DecodeEntries(pf, n - 1, Insert(acc, k.value.s, v.value), v.rest)
  {
    hide Decode, Insert;
  }

  lemma WrappedEntriesCons(acc: seq<Entry>, es: seq<Entry>)
    requires es != []
    ensures acc + [Entry(es[0].key, Wrapped(es[0].value))] + WrappedEntries(es[1..]) == acc + WrappedEntries(es)
  {
    hide Wrapped;
  }

  lemma EncodeEntriesNil(suffix: Bytes)
    ensures EncodeEntries([]) + suffix == suffix
  {
  }

  lemma EncodeEntriesCons(es: seq<Entry>, suffix: Bytes)
    requires es != []
    ensures EncodeEntries(es) + suffix
         == EncodeText(es[0].key) + (Encode(es[0].value) + (EncodeEntries(es[1..]) + suffix))
  {
    hide Encode, EncodeText;
  }

  lemma {:induction false} DecodeEncodeEntries(pf: Platform, acc: seq<Entry>, es: seq<Entry>, suffix: Bytes)
    requires EntriesRepresentable(pf, es)
    requires Sorted(acc + es)
    ensures DecodeEntries(pf, |es|, acc, EncodeEntries(es) + suffix) == Got(acc + WrappedEntries(es), suffix)
    decreases es, 0
  {
    hide Decode, DecodeEntries, Encode, EncodeText, EncodeEntries, Wrapped, WrappedEntries, Insert, Sorted, Representable, ValidText;
    if es == [] {
      EncodeEntriesNil(suffix);
      NoEntries(pf, acc, suffix);
      assert acc + [] == acc;
    } else {
      var e := es[0];
      var tail := EncodeEntries(es[1..]) + suffix;
      var fromValue := Encode(e.value) + tail;
      EncodeEntriesCons(es, suffix);
      DecodeText(pf, e.key, fromValue);
      DecodeEncode(pf, e.value, tail);
      var w := Entry(e.key, Wrapped(e.value));
      ExtendSorted(acc, es, w);
      OneEntry(pf, |es|, acc, EncodeText(e.key) + fromValue);
      DecodeEncodeEntries(pf, acc + [w], es[1..], suffix);
      WrappedEntriesCons(acc, es);
    }
  }

  /** A value survives `to_dag_cbor` then `from_dag_cbor` exactly when all its integers fit. */
  lemma RoundTripIff(pf: Platform, v: Ipld)
    requires Representable(pf, v)
    ensures FromDagCbor(pf, ToDagCbor(v)) == Ok(v) <==> IntegersFit(v)
  {
    DecodeEncode(pf, v, []);
    assert Encode(v) + [] == Encode(v);
    WrappedIffFits(v);
  }

  /** The smallest integer outside the range comes back as zero. */
  lemma TwoTo64IsLost(pf: Platform)
    ensures FromDagCbor(pf, ToDagCbor(Integer(TWO_64))) == Ok(Integer(0))
  {
    DecodeEncode(pf, Integer(TWO_64), []);
    assert Encode(Integer(TWO_64)) + [] == Encode(Integer(TWO_64));
  }

  /** Encodings of fitting values are injective and prefix-free. */
  lemma EncodePrefixFree(pf: Platform, v: Ipld, w: Ipld, s: Bytes, t: Bytes)
    requires Representable(pf, v) && IntegersFit(v)
    requires Representable(pf, w) && IntegersFit(w)
    requires Encode(v) + s == Encode(w) + t
    ensures v == w && s == t
  {
    DecodeEncode(pf, v, s);
    DecodeEncode(pf, w, t);
    WrappedIffFits(v);
    WrappedIffFits(w);
  }

  // ------------------------------------------- what the decoder can return

  ghost predicate Sound(pf: Platform, bs: Bytes, r: Parse<Ipld>) {
    r.Got? ==> Representable(pf, r.value) && IntegersFit(r.value) && Suffix(bs, r.rest)
  }

  ghost predicate Suffix(bs: Bytes, rest: Bytes) {
    |rest| <= |bs| && rest == bs[|bs| - |rest|..]
  }

  lemma {:induction false} DecodeSound(pf: Platform, bs: Bytes)
    ensures Sound(pf, bs, Decode(pf, bs))
    decreases |bs|, 0
  {
    hide DecodeBody, DecodeSimple, ReadArgument, Representable, IntegersFit;
    if bs != [] {
      assert Suffix(bs, bs[1..]);
      var a := ReadArgument(bs[0] % 32, bs[1..]);
      if bs[0] / 32 == 7 {
        DecodeSimpleSound(pf, bs[0] % 32, bs[1..]);
      } else if a.Got? {
        DecodeBodySound(pf, bs[0] / 32, a.value, a.rest);
      }
    }
  }

  lemma DecodeSimpleSound(pf: Platform, info: nat, bs: Bytes)
    ensures Sound(pf, bs, DecodeSimple(pf, info, bs))
  {
  }

  lemma {:induction false} DecodeBodySound(pf: Platform, major: nat, n: u64, bs: Bytes)
    requires major < 7
    ensures Sound(pf, bs, DecodeBody(pf, major, n, bs))
    decreases |bs|, 2
  {
    hide Decode, DecodeItems, DecodeEntries;
    if major == 4 {
      DecodeItemsSound(pf, n, bs);
    } else if major == 5 {
      DecodeEntriesSound(pf, n, [], bs);
    } else if major == 6 {
      DecodeSound(pf, bs);
    }
  }

  lemma {:induction false} DecodeItemsSound(pf: Platform, n: nat, bs: Bytes)
    ensures var r := DecodeItems(pf, n, bs);
            r.Got? ==> AllRepresentable(pf, r.value) && ItemsFit(r.value) && Suffix(bs, r.rest)
    decreases |bs|, 1
  {
    hide Decode, Representable, IntegersFit;
    var r := DecodeItems(pf, n, bs);
    if r.Got? && n > 0 {
      DecodeSound(pf, bs);
      var first := Decode(pf, bs);
      DecodeItemsSound(pf, n - 1, first.rest);
      var vs := DecodeItems(pf, n - 1, first.rest).value;
      forall i | 0 <= i < |r.value| ensures Representable(pf, r.value[i]) && IntegersFit(r.value[i]) {
        assert i > 0 ==> r.value[i] == vs[i - 1];
      }
    }
  }

  lemma {:induction false} DecodeEntriesSound(pf: Platform, n: nat, acc: seq<Entry>, bs: Bytes)
    requires Sorted(acc) && EntriesRepresentable(pf, acc) && EntriesFit(acc)
    ensures var r := DecodeEntries(pf, n, acc, bs);
            r.Got? ==> Sorted(r.value) && EntriesRepresentable(pf, r.value) && EntriesFit(r.value)
                       && |r.value| <= |acc| + n && Suffix(bs, r.rest)
    decreases |bs|, 1
  {
    hide Decode, Sorted, Insert, Lookup, EntriesRepresentable, EntriesFit;
    var r := DecodeEntries(pf, n, acc, bs);
    if r.Got? && n > 0 {
      DecodeSound(pf, bs);
      var k := Decode(pf, bs);
      DecodeSound(pf, k.rest);
      var v := Decode(pf, k.rest);
      InsertSound(pf, acc, k.value.s, v.value);
      DecodeEntriesSound(pf, n - 1, Insert(acc, k.value.s, v.value), v.rest);
    }
  }

  lemma InsertSound(pf: Platform, acc: seq<Entry>, k: Bytes, v: Ipld)
    requires Sorted(acc) && EntriesRepresentable(pf, acc) && EntriesFit(acc)
    requires ValidText(k) && Representable(pf, v) && IntegersFit(v)
    ensures var acc' := Insert(acc, k, v);
            Sorted(acc') && EntriesRepresentable(pf, acc') && EntriesFit(acc') && |acc'| <= |acc| + 1
  {
    hide Representable, IntegersFit, Insert, Sorted;
    InsertSorted(acc, k, v);
    var acc' := Insert(acc, k, v);
    forall i | 0 <= i < |acc'|
      ensures ValidText(acc'[i].key) && Representable(pf, acc'[i].value) && IntegersFit(acc'[i].value)
    {
      assert acc'[i] in acc';
    }
  }

  lemma ListRepresentable(pf: Platform, items: seq<Ipld>)
    requires pf.ListFits(|items|)
    requires forall i :: 0 <= i < |items| ==> Representable(pf, items[i]) && IntegersFit(items[i])
    ensures Representable(pf, List(items)) && IntegersFit(List(items))
  {
  }

  lemma IntegerRepresentable(pf: Platform, n: u64)
    ensures Representable(pf, Integer(n)) && IntegersFit(Integer(n))
  {
  }

  lemma PairRepresentable(pf: Platform, k: Bytes, v: Ipld, l: Bytes, w: Ipld)
    requires Less(k, l) && ValidText(k) && ValidText(l)
    requires Representable(pf, v) && Representable(pf, w) && IntegersFit(v) && IntegersFit(w)
    ensures var m := Map([Entry(k, v), Entry(l, w)]);
            Representable(pf, m) && IntegersFit(m)
  {
    hide Less, ValidText;
    var es := [Entry(k, v), Entry(l, w)];
    assert Sorted(es) && EntriesRepresentable(pf, es) && EntriesFit(es);
  }

  /** Whatever the decoder accepts, re-encoding the value and decoding again gives the same value. */
  lemma DecodedValueIsStable(pf: Platform, bs: Bytes, v: Ipld)
    requires FromDagCbor(pf, bs) == Ok(v)
    ensures Representable(pf, v)
    ensures FromDagCbor(pf, ToDagCbor(v)) == Ok(v)
  {
    DecodeSound(pf, bs);
    RoundTripIff(pf, v);
  }

  // ------------------------------------------------- when the decoder crashes

  /** A head whose declared length cannot be allocated: bytes or text by bytes, a list by its items. */
  predicate Oversized(pf: Platform, at: Bytes) {
    at != []
    && var a := ReadArgument(at[0] % 32, at[1..]);
       a.Got? && (((at[0] / 32 == 2 || at[0] / 32 == 3) && a.value > MAX_ALLOC)
                  || (at[0] / 32 == 4 && !pf.ListFits(a.value)))
  }

  /** The decoder, started on `bs`, comes to start on a head at `at`: the first one, or one inside it. */
  predicate Reaches(pf: Platform, bs: Bytes, at: Bytes)
    decreases |bs|, 0
  {
    bs == at
    || (bs != [] && bs[0] / 32 < 7
        && var a := ReadArgument(bs[0] % 32, bs[1..]);
           a.Got? && ReachesInside(pf, bs[0] / 32, a.value, a.rest, at))
  }

  predicate ReachesInside(pf: Platform, major: nat, n: u64, bs: Bytes, at: Bytes)
    decreases |bs|, 2
  {
    if major == 4 then pf.ListFits(n) && ItemsReach(pf, n, bs, at)
    else if major == 5 then EntriesReach(pf, n, bs, at)
    else major == 6 && Reaches(pf, bs, at)
  }

  /** One of `n` items in a row is reached: the first, or one after it if it decodes. */
  predicate ItemsReach(pf: Platform, n: nat, bs: Bytes, at: Bytes)
    decreases |bs|, 1
  {
    n > 0
    && (Reaches(pf, bs, at)
        || var v := Decode(pf, bs); v.Got? && ItemsReach(pf, n - 1, v.rest, at))
  }

  predicate EntriesReach(pf: Platform, n: nat, bs: Bytes, at: Bytes)
    decreases |bs|, 1
  {
    n > 0
    && (Reaches(pf, bs, at)
        || var k := Decode(pf, bs);
           k.Got? && k.value.Text?
           && (Reaches(pf, k.rest, at)
               || var v := Decode(pf, k.rest); v.Got? && EntriesReach(pf, n - 1, v.rest, at)))
  }

  lemma {:induction false} ReachedCrashes(pf: Platform, bs: Bytes, at: Bytes)
    requires Reaches(pf, bs, at) && Oversized(pf, at)
    ensures Decode(pf, bs) == Fails(Crash)
    decreases |bs|, 0
  {
    hide ReadArgument, DecodeItems, DecodeEntries;
    if bs != at {
      var a := ReadArgument(bs[0] % 32, bs[1..]);
      if bs[0] / 32 == 4 {
        ReachedItemsCrash(pf, a.value, a.rest, at);
      } else if bs[0] / 32 == 5 {
        ReachedEntriesCrash(pf, a.value, [], a.rest, at);
      } else {
        ReachedCrashes(pf, a.rest, at);
      }
    }
  }

  lemma {:induction false} ReachedItemsCrash(pf: Platform, n: nat, bs: Bytes, at: Bytes)
    requires ItemsReach(pf, n, bs, at) && Oversized(pf, at)
    ensures DecodeItems(pf, n, bs) == Fails(Crash)
    decreases |bs|, 1
  {
    hide Decode, Reaches, Oversized;
    if Reaches(pf, bs, at) {
      ReachedCrashes(pf, bs, at);
    } else {
      ReachedItemsCrash(pf, n - 1, Decode(pf, bs).rest, at);
    }
  }

  lemma {:induction false} ReachedEntriesCrash(pf: Platform, n: nat, acc: seq<Entry>, bs: Bytes, at: Bytes)
    requires EntriesReach(pf, n, bs, at) && Oversized(pf, at)
    ensures DecodeEntries(pf, n, acc, bs) == Fails(Crash)
    decreases |bs|, 1
  {
    hide Decode, Reaches, Oversized, Insert;
    if Reaches(pf, bs, at) {
      ReachedCrashes(pf, bs, at);
    } else {
      var k := Decode(pf, bs);
      if Reaches(pf, k.rest, at) {
        ReachedCrashes(pf, k.rest, at);
      } else {
        var v := Decode(pf, k.rest);
        ReachedEntriesCrash(pf, n - 1, Insert(acc, k.value.s, v.value), v.rest, at);
      }
    }
  }

  lemma {:induction false} CrashReaches(pf: Platform, bs: Bytes) returns (at: Bytes)
    requires Decode(pf, bs) == Fails(Crash)
    ensures Reaches(pf, bs, at) && Oversized(pf, at)
    decreases |bs|, 0
  {
    hide DecodeBody, Reaches, ReachesInside, DecodeSimple, ReadArgument;
    SimpleNeverCrashes(pf, bs[0] % 32, bs[1..]);
    ArgumentNeverCrashes(bs[0] % 32, bs[1..]);
    ReachesUnfold(pf, bs);
    if Oversized(pf, bs) {
      at := bs;
    } else {
      var a := ReadArgument(bs[0] % 32, bs[1..]);
      at := BodyCrashReach(pf, bs[0] / 32, a.value, a.rest);
    }
  }

  lemma {:induction false} BodyCrashReach(pf: Platform, major: nat, n: u64, bs: Bytes) returns (at: Bytes)
    requires major < 7 && DecodeBody(pf, major, n, bs) == Fails(Crash)
    requires (major == 2 || major == 3 ==> n <= MAX_ALLOC) && (major == 4 ==> pf.ListFits(n))
    ensures ReachesInside(pf, major, n, bs, at) && Oversized(pf, at)
    decreases |bs|, 2
  {
    hide Decode, DecodeItems, DecodeEntries, Reaches, ItemsReach, EntriesReach, Oversized;
    if major == 4 {
      at := ItemsCrashReach(pf, n, bs);
    } else if major == 5 {
      at := EntriesCrashReach(pf, n, [], bs);
    } else {
      at := CrashReaches(pf, bs);
    }
  }

  lemma ReachesUnfold(pf: Platform, bs: Bytes)
    ensures Reaches(pf, bs, bs)
    ensures bs != [] && bs[0] / 32 < 7 ==>
              var a := ReadArgument(bs[0] % 32, bs[1..]);
              a.Got? ==> forall at :: ReachesInside(pf, bs[0] / 32, a.value, a.rest, at) ==> Reaches(pf, bs, at)
  {
    hide ReachesInside, ReadArgument;
  }

  lemma SimpleNeverCrashes(pf: Platform, info: nat, bs: Bytes)
    ensures DecodeSimple(pf, info, bs) != Fails(Crash)
  {
  }

  lemma ArgumentNeverCrashes(info: nat, bs: Bytes)
    requires info < 32
    ensures ReadArgument(info, bs) != Fails(Crash)
  {
  }

  lemma {:induction false} ItemsCrashReach(pf: Platform, n: nat, bs: Bytes) returns (at: Bytes)
    requires DecodeItems(pf, n, bs) == Fails(Crash)
    ensures ItemsReach(pf, n, bs, at) && Oversized(pf, at)
    decreases |bs|, 1
  {
    hide Decode, Reaches, Oversized;
    var v := Decode(pf, bs);
    if v.Got? {
      at := ItemsCrashReach(pf, n - 1, v.rest);
    } else {
      at := CrashReaches(pf, bs);
    }
  }

  lemma {:induction false} EntriesCrashReach(pf: Platform, n: nat, acc: seq<Entry>, bs: Bytes) returns (at: Bytes)
    requires DecodeEntries(pf, n, acc, bs) == Fails(Crash)
    ensures EntriesReach(pf, n, bs, at) && Oversized(pf, at)
    decreases |bs|, 1
  {
    hide Decode, Reaches, Oversized, Insert;
    var k := Decode(pf, bs);
    if !k.Got? {
      at := CrashReaches(pf, bs);
    } else {
      var v := Decode(pf, k.rest);
      if !v.Got? {
        at := CrashReaches(pf, k.rest);
      } else {
        at := EntriesCrashReach(pf, n - 1, Insert(acc, k.value.s, v.value), v.rest);
      }
    }
  }

  /** Decoding panics exactly when it comes to a head that declares more than can be allocated. */
  lemma CrashIff(pf: Platform, bs: Bytes)
    ensures FromDagCbor(pf, bs) == Err(Panic) <==> exists at :: Reaches(pf, bs, at) && Oversized(pf, at)
  {
    hide Decode, Reaches, Oversized;
    if at :| Reaches(pf, bs, at) && Oversized(pf, at) {
      ReachedCrashes(pf, bs, at);
    }
    if FromDagCbor(pf, bs) == Err(Panic) {
      var at := CrashReaches(pf, bs);
    }
  }

  /** Nine bytes that declare a list of 2^64 - 1 items. */
  lemma HugeListCrashes(pf: Platform)
    ensures FromDagCbor(pf, [0x9B, 0xFF, 0xFF, 0xFF, 0xFF, 0xFF, 0xFF, 0xFF, 0xFF]) == Err(Panic)
  {
    hide Decode;
    var bs := [0x9B, 0xFF, 0xFF, 0xFF, 0xFF, 0xFF, 0xFF, 0xFF, 0xFF];
    assert bs == Head(4, TWO_64 - 1) + [] by {
      hide Head;
      HugeHead();
    }
    DecodeHead(pf, 4, TWO_64 - 1, []);
    pf.ListFitsMeans(TWO_64 - 1);
  }

  lemma HugeHead()
    ensures Head(4, TWO_64 - 1) == [0x9B, 0xFF, 0xFF, 0xFF, 0xFF, 0xFF, 0xFF, 0xFF, 0xFF]
  {
    assert Be(0xFFFF, 2) == [0xFF, 0xFF];
    assert Be(0xFFFF_FFFF, 4) == Be(0xFFFF, 2) + [0xFF, 0xFF];
    assert Be(0xFFFF_FFFF_FFFF, 6) == Be(0xFFFF_FFFF, 4) + [0xFF, 0xFF];
    assert Be(TWO_64 - 1, 8) == Be(0xFFFF_FFFF_FFFF, 6) + [0xFF, 0xFF];
  }
}
