/**
 Which bytes are written, in digits and examples: heads and values of CBOR
 (the examples are those of appendix A of RFC 8949), varints, CIDs, and the
 cases of the decoder that no encoding reaches.
 */
module WireFormats {
  import opened Basics
  import opened Cids
  import opened Blocks
  import opened IpldModel
  import opened DagCbor

  // --------------------------------------------------------------- digits

  /** Big-endian: digit `i` of `k` has weight 256 to the power `k - 1 - i`. */
  lemma {:induction false} BeIs(n: nat, k: nat, i: nat)
    requires i < k
    ensures Pow256(k - 1 - i) > 0 && Be(n, k)[i] == n / Pow256(k - 1 - i) % 256
    decreases k
  {
    PowerPositive(k - 1 - i);
    if i == k - 1 {
      assert Pow256(0) == 1;
    } else {
      BeIs(n / 256, k - 1, i);
      assert Pow256(k - 1 - i) == 256 * Pow256(k - 2 - i);
      DivTwice(n, 256, Pow256(k - 2 - i));
    }
  }

  lemma {:induction false} PowerPositive(k: nat)
    ensures Pow256(k) > 0
  {
    if k > 0 {
      PowerPositive(k - 1);
    }
  }

  lemma BeTwo(n: nat)
    ensures Be(n, 2) == [n / 256 % 256, n % 256]
  {
    assert Be(n / 256 / 256, 0) == [];
    assert Be(n / 256, 1) == [n / 256 % 256];
  }

  lemma BeTwoMore(n: nat, k: nat)
    ensures Be(n, k + 2) == Be(n / 65536, k) + [n / 256 % 256, n % 256]
  {
    assert n / 256 / 256 == n / 65536;
    assert Be(n / 256, k + 1) == Be(n / 65536, k) + [n / 256 % 256];
  }

  lemma BeFour(n: nat)
    ensures Be(n, 4) == [n / 16777216 % 256, n / 65536 % 256, n / 256 % 256, n % 256]
  {
    BeTwoMore(n, 2);
    BeTwo(n / 65536);
    assert n / 65536 / 256 == n / 16777216;
  }

  lemma BeEight(n: nat)
    ensures Be(n, 8) == [n / 72057594037927936 % 256, n / 281474976710656 % 256, n / 1099511627776 % 256,
                         n / 4294967296 % 256, n / 16777216 % 256, n / 65536 % 256, n / 256 % 256, n % 256]
  {
    hide Be;
    BeTwoMore(n, 6);
    BeTwoMore(n / 65536, 4);
    BeFour(n / 4294967296);
    assert n / 65536 / 65536 == n / 4294967296 && n / 65536 / 256 == n / 16777216;
    assert n / 4294967296 / 256 == n / 1099511627776 && n / 4294967296 / 65536 == n / 281474976710656;
    assert n / 4294967296 / 16777216 == n / 72057594037927936;
  }

  /** The five forms of a head, in digits. */
  lemma HeadIs(major: nat, n: u64)
    requires major < 8
    ensures n < 24 ==> Head(major, n) == [32 * major + n]
    ensures 24 <= n < 256 ==> Head(major, n) == [32 * major + 24, n]
    ensures 256 <= n < 65536 ==> Head(major, n) == [32 * major + 25, n / 256, n % 256]
    ensures 65536 <= n < 4294967296 ==>
              Head(major, n) == [32 * major + 26, n / 16777216, n / 65536 % 256, n / 256 % 256, n % 256]
    ensures n >= 4294967296 ==>
              Head(major, n) == [32 * major + 27, n / 72057594037927936, n / 281474976710656 % 256,
                                 n / 1099511627776 % 256, n / 4294967296 % 256, n / 16777216 % 256,
                                 n / 65536 % 256, n / 256 % 256, n % 256]
  {
    if n >= 4294967296 {
      EightByteHead(major, n);
    } else if n >= 65536 {
      hide Be;
      BeFour(n);
    } else if n >= 256 {
      hide Be;
      BeTwo(n);
    }
  }

  lemma EightByteHead(major: nat, n: u64)
    requires major < 8 && n >= 4294967296
    ensures Head(major, n) == [32 * major + 27, n / 72057594037927936, n / 281474976710656 % 256,
                               n / 1099511627776 % 256, n / 4294967296 % 256, n / 16777216 % 256,
                               n / 65536 % 256, n / 256 % 256, n % 256]
  {
    hide Be;
    BeEight(n);
    assert n / 72057594037927936 < 256;
  }

  // ------------------------------------------------------ examples of values

  lemma Integers()
    ensures Encode(Integer(0)) == [0x00] && Encode(Integer(23)) == [0x17] && Encode(Integer(24)) == [0x18, 0x18]
    ensures Encode(Integer(100)) == [0x18, 0x64] && Encode(Integer(1000)) == [0x19, 0x03, 0xE8]
    ensures Encode(Integer(1000000)) == [0x1A, 0x00, 0x0F, 0x42, 0x40]
    ensures Encode(Integer(1000000000000)) == [0x1B, 0x00, 0x00, 0x00, 0xE8, 0xD4, 0xA5, 0x10, 0x00]
  {
    hide Head, Encode;
    UnsignedIs(0);
    UnsignedIs(23);
    UnsignedIs(24);
    UnsignedIs(100);
    UnsignedIs(1000);
    UnsignedIs(1000000);
    UnsignedIs(1000000000000);
    SmallHeads();
    LargeHeads();
  }

  lemma UnsignedIs(n: u64)
    ensures Encode(Integer(n)) == Head(0, n)
  {
    hide Head;
  }

  lemma SmallHeads()
    ensures Head(0, 0) == [0x00] && Head(0, 23) == [0x17] && Head(0, 24) == [0x18, 0x18]
    ensures Head(0, 100) == [0x18, 0x64] && Head(0, 1000) == [0x19, 0x03, 0xE8]
  {
    hide Head;
    HeadIs(0, 0);
    HeadIs(0, 23);
    HeadIs(0, 24);
    HeadIs(0, 100);
    HeadIs(0, 1000);
  }

  lemma LargeHeads()
    ensures Head(0, 1000000) == [0x1A, 0x00, 0x0F, 0x42, 0x40]
    ensures Head(0, 1000000000000) == [0x1B, 0x00, 0x00, 0x00, 0xE8, 0xD4, 0xA5, 0x10, 0x00]
  {
    hide Head;
    HeadIs(0, 1000000);
    HeadIs(0, 1000000000000);
  }

  lemma NegativeIntegers()
    ensures Encode(Integer(-1)) == [0x20] && Encode(Integer(-10)) == [0x29] && Encode(Integer(-100)) == [0x38, 0x63]
    ensures Encode(Integer(-1000)) == [0x39, 0x03, 0xE7]
    ensures Encode(Integer(-18446744073709551616)) == [0x3B, 0xFF, 0xFF, 0xFF, 0xFF, 0xFF, 0xFF, 0xFF, 0xFF]
  {
    hide Head;
    HeadIs(1, 0);
    HeadIs(1, 9);
    HeadIs(1, 99);
    HeadIs(1, 999);
    HeadIs(1, 18446744073709551615);
  }

  /** Simple values, and 1.1 as a double. */
  lemma SimpleValues()
    ensures Encode(Bool(false)) == [0xF4] && Encode(Bool(true)) == [0xF5] && Encode(Null) == [0xF6]
    ensures Encode(Float(0x3FF199999999999A)) == [0xFB, 0x3F, 0xF1, 0x99, 0x99, 0x99, 0x99, 0x99, 0x9A]
  {
    hide Be;
    BeEight(0x3FF199999999999A);
  }

  /** Byte and text strings: `h'01020304'`, "", "a" and "IETF". */
  lemma Strings()
    ensures Encode(Binary([])) == [0x40] && Encode(Binary([1, 2, 3, 4])) == [0x44, 0x01, 0x02, 0x03, 0x04]
    ensures Encode(Text([])) == [0x60] && Encode(Text([0x61])) == [0x61, 0x61]
    ensures Encode(Text([0x49, 0x45, 0x54, 0x46])) == [0x64, 0x49, 0x45, 0x54, 0x46]
  {
    hide Head;
    HeadIs(2, 0);
    HeadIs(2, 4);
    HeadIs(3, 0);
    HeadIs(3, 1);
    HeadIs(3, 4);
  }

  lemma SmallInteger(n: nat)
    requires n < 24
    ensures Encode(Integer(n)) == [n]
  {
  }

  lemma TwoItems(v: Ipld, w: Ipld)
    ensures EncodeItems([v, w]) == Encode(v) + Encode(w) && EncodeItems([v]) == Encode(v) && EncodeItems([]) == []
  {
    hide Encode;
    assert [v, w][1..] == [w] && [w][1..] == [] && [v][1..] == [];
    NilUnits(Encode(v));
    NilUnits(Encode(w));
    assert EncodeItems([w]) == Encode(w) + EncodeItems([]);
    assert EncodeItems([v, w]) == Encode(v) + EncodeItems([w]);
  }

  /** `[]`, `[1, 2, 3]` and `[1, [2, 3], [4, 5]]`. */
  lemma Lists()
    ensures Encode(List([])) == [0x80]
    ensures Encode(List([Integer(1), Integer(2), Integer(3)])) == [0x83, 0x01, 0x02, 0x03]
    ensures Encode(List([Integer(1), List([Integer(2), Integer(3)]), List([Integer(4), Integer(5)])]))
         == [0x83, 0x01, 0x82, 0x02, 0x03, 0x82, 0x04, 0x05]
  {
    hide Encode, EncodeItems, Head;
    ListIs([]);
    HeadIs(4, 0);
    HeadIs(4, 3);
    TwoItems(Null, Null);
    ThreeItems(Integer(1), Integer(2), Integer(3));
    SmallInteger(1);
    SmallInteger(2);
    SmallInteger(3);
    PairList(2, 3);
    PairList(4, 5);
    ThreeItems(Integer(1), List([Integer(2), Integer(3)]), List([Integer(4), Integer(5)]));
  }

  lemma ListIs(items: seq<Ipld>)
    ensures Encode(List(items)) == Head(4, Truncate64(|items|)) + EncodeItems(items)
  {
    hide Head, EncodeItems;
  }

  lemma ThreeItems(u: Ipld, v: Ipld, w: Ipld)
    ensures Encode(List([u, v, w])) == Head(4, 3) + (Encode(u) + (Encode(v) + Encode(w)))
  {
    hide Encode, Head;
    ListIs([u, v, w]);
    TwoItems(v, w);
    assert [u, v, w][1..] == [v, w];
  }

  lemma PairList(a: nat, b: nat)
    requires a < 24 && b < 24
    ensures Encode(List([Integer(a), Integer(b)])) == [0x82, a, b]
  {
    hide Encode, EncodeItems, Head;
    ListIs([Integer(a), Integer(b)]);
    HeadIs(4, 2);
    TwoItems(Integer(a), Integer(b));
    SmallInteger(a);
    SmallInteger(b);
  }

  /** `{}` and `{"a": 1, "b": [2, 3]}`. */
  lemma Maps()
    ensures Encode(Map([])) == [0xA0]
    ensures Encode(Map([Entry([0x61], Integer(1)), Entry([0x62], List([Integer(2), Integer(3)]))]))
         == [0xA2, 0x61, 0x61, 0x01, 0x61, 0x62, 0x82, 0x02, 0x03]
  {
    hide Encode, EncodeEntries, Head, EncodeText;
    MapIs([]);
    NoEntriesEncode();
    HeadIs(5, 0);
    HeadIs(5, 2);
    TwoEntries(Entry([0x61], Integer(1)), Entry([0x62], List([Integer(2), Integer(3)])));
    LetterText(0x61);
    LetterText(0x62);
    SmallInteger(1);
    PairList(2, 3);
  }

  lemma MapIs(es: seq<Entry>)
    ensures Encode(Map(es)) == Head(5, Truncate64(|es|)) + EncodeEntries(es)
  {
    hide Head, EncodeEntries;
  }

  lemma NoEntriesEncode()
    ensures EncodeEntries([]) == []
  {
  }

  lemma TwoEntries(a: Entry, b: Entry)
    ensures Encode(Map([a, b]))
         == Head(5, 2) + (EncodeText(a.key) + (Encode(a.value) + (EncodeText(b.key) + Encode(b.value))))
  {
    hide Encode, Head, EncodeText;
    MapIs([a, b]);
    assert [a, b][1..] == [b] && [b][1..] == [];
    assert EncodeEntries([b]) == EncodeText(b.key) + (Encode(b.value) + EncodeEntries([]));
    assert Encode(b.value) + [] == Encode(b.value);
  }

  lemma LetterText(b: byte)
    ensures EncodeText([b]) == [0x61, b]
  {
    hide Head;
    HeadIs(3, 1);
  }

  // ---------------------------------------------------------- varints, CIDs

  /** Seven bits a byte, lowest first, the top bit on all but the last. */
  lemma {:induction false} VarintIs(n: nat, i: nat)
    requires i < |Varint(n)|
    ensures Pow128(i) > 0
    ensures Varint(n)[i] == n / Pow128(i) % 128 + if i + 1 < |Varint(n)| then 128 else 0
    decreases n
  {
    if i == 0 {
      assert Pow128(0) == 1;
    } else {
      VarintIs(n / 128, i - 1);
      DivTwice(n, 128, Pow128(i - 1));
    }
  }

  lemma SmallVarints()
    ensures Varint(0) == [0x00] && Varint(127) == [0x7F] && Varint(128) == [0x80, 0x01] && Varint(300) == [0xAC, 0x02]
  {
  }

  /** The default identifiers of a raw and of a DAG-CBOR block: version 1, SHA2-256, 36 bytes. */
  lemma DefaultCidBytes(sha: Sha256, data: Bytes)
    ensures CidBytes(CidOf(sha, RAW, data)) == [0x01, 0x55, 0x12, 0x20] + sha(data)
    ensures CidBytes(CidOf(sha, DAG_CBOR, data)) == [0x01, 0x71, 0x12, 0x20] + sha(data)
  {
    hide CidBytes;
    ShortCidBytes(0x55, sha(data));
    ShortCidBytes(0x71, sha(data));
  }

  lemma ShortCidBytes(codec: u64, digest: Digest32)
    requires codec < 128
    ensures CidBytes(V1(codec, 0x12, digest)) == [0x01, codec, 0x12, 0x20] + digest
  {
    hide Varint;
    OneByteVarint(1);
    OneByteVarint(codec);
    OneByteVarint(0x12);
    OneByteVarint(0x20);
  }

  lemma OneByteVarint(n: nat)
    requires n < 128
    ensures Varint(n) == [n]
  {
  }

  lemma VersionZeroBytes(sha: Digest32)
    ensures CidBytes(V0(sha)) == [0x12, 0x20] + sha && V0(sha).Codec() == 0x70
  {
  }

  /** A link: tag 42, a byte string, a zero byte, the CID. */
  lemma LinkBytes(cid: Cid)
    requires 23 <= |CidBytes(cid)| < 255
    ensures Encode(Link(cid)) == [0xD8, 0x2A, 0x58, |CidBytes(cid)| + 1, 0x00] + CidBytes(cid)
  {
    hide Head, CidBytes;
    HeadIs(6, 42);
    HeadIs(2, |CidBytes(cid)| + 1);
  }

  // ------------------------------------------------------- cases of decoding

  lemma DecodeFirst(pf: Platform, b: byte, bs: Bytes)
    ensures Decode(pf, [b] + bs)
         == if b / 32 == 7 then DecodeSimple(pf, b % 32, bs)
            else var a := ReadArgument(b % 32, bs);
                 if a.Fails? then Fails(a.why) else DecodeBody(pf, b / 32, a.value, a.rest)
  {
    hide DecodeSimple, ReadArgument, DecodeBody;
    assert ([b] + bs)[1..] == bs;
  }

  /** Half and single precision patterns go to their conversions, doubles stay. */
  lemma FloatWidths(pf: Platform, a: byte, b: byte, c: byte, d: byte, suffix: Bytes)
    ensures Decode(pf, [0xF9] + ([a, b] + suffix)) == Got(Float(pf.half(256 * a + b)), suffix)
    ensures Decode(pf, [0xFA] + ([a, b, c, d] + suffix))
         == Got(Float(pf.single(16777216 * a + 65536 * b + 256 * c + d)), suffix)
  {
    hide Decode, ReadArgument;
    DecodeFirst(pf, 0xF9, [a, b] + suffix);
    DecodeFirst(pf, 0xFA, [a, b, c, d] + suffix);
    Argument(25, 2, [a, b], suffix);
    Argument(26, 4, [a, b, c, d], suffix);
    TwoBytes(a, b);
    assert [a, b, c, d][..2] == [a, b];
    FourBytes(a, b, c, d);
  }

  lemma Argument(info: nat, w: nat, digits: Bytes, suffix: Bytes)
    requires 24 <= info < 28 && ArgumentWidth(info) == Some(w) && |digits| == w
    ensures FromBe(digits) < TWO_64 && ReadArgument(info, digits + suffix) == Got(FromBe(digits), suffix)
  {
    hide FromBe;
    Powers();
    FromBeBound(digits);
    assert (digits + suffix)[..w] == digits && (digits + suffix)[w..] == suffix;
  }

  lemma TwoBytes(a: byte, b: byte)
    ensures FromBe([a, b]) == 256 * a + b
  {
    assert [a, b][..1] == [a] && [a][..0] == [];
    assert FromBe([a]) == a;
  }

  lemma FourBytes(a: byte, b: byte, c: byte, d: byte)
    ensures FromBe([a, b, c, d]) == 16777216 * a + 65536 * b + 256 * c + d
  {
    TwoBytes(a, b);
    assert [a, b, c, d][..3] == [a, b, c] && [a, b, c][..2] == [a, b];
    assert FromBe([a, b, c]) == FromBe([a, b]) * 256 + c;
  }

  /** Every tag but 42 is skipped; tag 42 wants bytes. */
  lemma Tags(pf: Platform, tag: nat, bs: Bytes)
    requires tag < 24
    ensures Decode(pf, [0xC0 + tag] + bs) == Decode(pf, bs)
    ensures Decode(pf, bs).Got? && !Decode(pf, bs).value.Binary? ==> Decode(pf, [0xD8] + ([0x2A] + bs)) == Fails(Bad)
  {
    hide Decode, ReadArgument, DecodeBody;
    DecodeFirst(pf, 0xC0 + tag, bs);
    ShortArgument(tag, bs);
    TagBody(pf, tag, bs);
    DecodeFirst(pf, 0xD8, [0x2A] + bs);
    Argument(24, 1, [0x2A], bs);
    OneByteValue(0x2A);
    TagBody(pf, 42, bs);
  }

  lemma TagBody(pf: Platform, tag: u64, bs: Bytes)
    ensures tag != 42 ==> DecodeBody(pf, 6, tag, bs) == Decode(pf, bs)
    ensures Decode(pf, bs).Got? && !Decode(pf, bs).value.Binary? ==> DecodeBody(pf, 6, 42, bs) == Fails(Bad)
  {
    hide Decode, LinkFrom;
  }

  lemma OneByteValue(b: byte)
    ensures FromBe([b]) == b
  {
    assert [b][..0] == [];
  }

  /** Reserved and indefinite lengths, other simple values and the empty input are refused. */
  lemma Refused(pf: Platform, b: byte, bs: Bytes)
    requires b % 32 >= 28 || (b >= 0xE0 && (b % 32 < 20 || b % 32 == 23 || b % 32 == 24))
    ensures Decode(pf, [b] + bs) == Fails(Bad) && Decode(pf, []) == Fails(Bad)
  {
    DecodeFirst(pf, b, bs);
  }

  /** Longer heads than needed are read. */
  lemma LongHeads(pf: Platform, n: byte, suffix: Bytes)
    ensures Decode(pf, [0x18] + ([n] + suffix)) == Got(Integer(n), suffix)
    ensures Decode(pf, [0x19] + ([0, n] + suffix)) == Got(Integer(n), suffix)
  {
    hide Decode, ReadArgument;
    DecodeFirst(pf, 0x18, [n] + suffix);
    DecodeFirst(pf, 0x19, [0, n] + suffix);
    Argument(24, 1, [n], suffix);
    Argument(25, 2, [0, n], suffix);
    OneByteValue(n);
    TwoBytes(0, n);
  }

  /** Maps with a repeated key keep the last value, and unsorted keys are put in order. */
  lemma OddMaps(pf: Platform, suffix: Bytes)
    ensures Decode(pf, [0xA2, 0x61, 0x61, 0x01, 0x61, 0x61, 0x02] + suffix) == Got(Map([Entry([0x61], Integer(2))]), suffix)
    ensures Decode(pf, [0xA2, 0x61, 0x62, 0x01, 0x61, 0x61, 0x02] + suffix)
         == Got(Map([Entry([0x61], Integer(2)), Entry([0x62], Integer(1))]), suffix)
  {
    PairOfEntries(pf, 0x61, 1, 0x61, 2, suffix);
    PairOfEntries(pf, 0x62, 1, 0x61, 2, suffix);
    assert Insert([], [0x61], Integer(1)) == [Entry([0x61], Integer(1))];
    assert Insert([Entry([0x61], Integer(1))], [0x61], Integer(2)) == [Entry([0x61], Integer(2))];
    assert Insert([], [0x62], Integer(1)) == [Entry([0x62], Integer(1))];
    assert Insert([Entry([0x62], Integer(1))], [0x61], Integer(2))
        == [Entry([0x61], Integer(2)), Entry([0x62], Integer(1))];
  }

  lemma PairOfEntries(pf: Platform, k: byte, v: nat, l: byte, w: nat, suffix: Bytes)
    requires k < 0x80 && l < 0x80 && v < 24 && w < 24
    ensures Decode(pf, [0xA2, 0x61, k, v, 0x61, l, w] + suffix)
         == Got(Map(Insert(Insert([], [k], Integer(v)), [l], Integer(w))), suffix)
  {
    hide Decode, ReadArgument, DecodeEntries, Insert;
    var afterFirst := [0x61, l, w] + suffix;
    var body := [0x61, k, v] + afterFirst;
    assert [0xA2, 0x61, k, v, 0x61, l, w] + suffix == [0xA2] + body;
    DecodeFirst(pf, 0xA2, body);
    ShortArgument(2, body);
    EntryOf(pf, 2, [], k, v, afterFirst);
    EntryOf(pf, 1, Insert([], [k], Integer(v)), l, w, suffix);
    NoEntries(pf, Insert(Insert([], [k], Integer(v)), [l], Integer(w)), suffix);
  }

  lemma EntryOf(pf: Platform, n: nat, acc: seq<Entry>, k: byte, v: nat, rest: Bytes)
    requires k < 0x80 && v < 24 && n > 0
    ensures DecodeEntries(pf, n, acc, [0x61, k, v] + rest) == DecodeEntries(pf, n - 1, Insert(acc, [k], Integer(v)), rest)
  {
    hide Decode, Insert, DecodeEntries, ValidUtf8;
    AsciiIsUtf8([k]);
    LetterText(k);
    DecodeText(pf, [k], [v] + rest);
    assert [0x61, k, v] + rest == EncodeText([k]) + ([v] + rest);
    DecodeInteger(pf, v, rest);
    SmallInteger(v);
    OneEntry(pf, n, acc, [0x61, k, v] + rest);
  }

  /** A key that is no text, and text that is no UTF-8, are refused. */
  lemma RefusedContents(pf: Platform, suffix: Bytes)
    ensures Decode(pf, [0xA1] + ([0x01] + suffix)) == Fails(Bad)
    ensures Decode(pf, [0x61] + ([0xFF] + suffix)) == Fails(Bad)
  {
    hide Decode, ReadArgument, DecodeItems, DecodeEntries;
    DecodeFirst(pf, 0xA1, [0x01] + suffix);
    ShortArgument(1, [0x01] + suffix);
    DecodeInteger(pf, 1, suffix);
    SmallInteger(1);
    IntegerKey(pf, [0x01] + suffix);
    DecodeFirst(pf, 0x61, [0xFF] + suffix);
    ShortArgument(1, [0xFF] + suffix);
    TakePrefix([0xFF], suffix);
    Utf8Cases();
  }

  lemma IntegerKey(pf: Platform, bs: Bytes)
    requires Decode(pf, bs).Got? && !Decode(pf, bs).value.Text?
    ensures DecodeEntries(pf, 1, [], bs) == Fails(Bad)
  {
    hide Decode;
  }

  /** A CID under tag 42 is read with and without its zero prefix. */
  lemma PrefixIsOptional(pf: Platform, cid: Cid, suffix: Bytes)
    requires 1 <= |CidBytes(cid)| <= 95
    ensures Decode(pf, Head(6, 42) + (Head(2, |CidBytes(cid)| + 1) + ([0x00] + CidBytes(cid)) + suffix)) == Got(Link(cid), suffix)
    ensures Decode(pf, Head(6, 42) + (Head(2, |CidBytes(cid)|) + CidBytes(cid) + suffix)) == Got(Link(cid), suffix)
  {
    hide Decode, Head, CidBytes, ReadCid;
    CidBytesLength(cid);
    assert CidBytes(cid)[0] != 0;
    CidRoundTrip(cid, []);
    var bare := CidBytes(cid);
    NilUnits(bare);
    var prefixed := [0x00] + bare;
    assert prefixed[1..] == bare;
    LinkAround(pf, prefixed, suffix);
    LinkAround(pf, bare, suffix);
  }

  lemma LinkAround(pf: Platform, content: Bytes, suffix: Bytes)
    requires |content| <= MAX_ALLOC
    ensures Decode(pf, Head(6, 42) + (Head(2, |content|) + content + suffix)) == LinkFrom(content, suffix)
  {
    hide Decode, Head, LinkFrom;
    var body := Head(2, |content|) + content;
    DecodeHead(pf, 6, 42, body + suffix);
    BinaryIs(content);
    DecodeBinary(pf, content, suffix);
  }

  lemma BinaryIs(b: Bytes)
    requires |b| <= MAX_ALLOC
    ensures Encode(Binary(b)) == Head(2, |b|) + b
  {
    hide Head;
  }

  // ----------------------------------------------------- text and key order

  /** Two, three and four bytes; overlong forms, surrogates, values above U+10FFFF and stray bytes are refused. */
  lemma Utf8Cases()
    ensures ValidUtf8([0xC3, 0xA9]) && ValidUtf8([0xE2, 0x82, 0xAC]) && ValidUtf8([0xF0, 0x9F, 0xA6, 0x80])
    ensures !ValidUtf8([0xC0, 0x80]) && !ValidUtf8([0xE0, 0x80, 0x80]) && !ValidUtf8([0xED, 0xA0, 0x80])
    ensures !ValidUtf8([0xF4, 0x90, 0x80, 0x80]) && !ValidUtf8([0x80]) && !ValidUtf8([0xFF]) && !ValidUtf8([0xC3])
  {
    assert [0xC3, 0xA9][2..] == [] && [0xE2, 0x82, 0xAC][3..] == [] && [0xF0, 0x9F, 0xA6, 0x80][4..] == [];
  }

  /** Byte order: a proper prefix comes first, else the first difference decides. */
  lemma {:induction false} LessIff(a: Bytes, b: Bytes)
    ensures Less(a, b)
       <==> exists k: nat :: k <= |a| && k < |b| && a[..k] == b[..k] && (k == |a| || a[k] < b[k])
  {
    if Less(a, b) {
      var k := FirstDifference(a, b);
    }
    if k: nat :| k <= |a| && k < |b| && a[..k] == b[..k] && (k == |a| || a[k] < b[k]) {
      LessAt(a, b, k);
    }
  }

  lemma {:induction false} FirstDifference(a: Bytes, b: Bytes) returns (k: nat)
    requires Less(a, b)
    ensures k <= |a| && k < |b| && a[..k] == b[..k] && (k == |a| || a[k] < b[k])
  {
    if a == [] || a[0] < b[0] {
      k := 0;
    } else {
      var j := FirstDifference(a[1..], b[1..]);
      k := j + 1;
      assert a[..k] == [a[0]] + a[1..][..j] && b[..k] == [b[0]] + b[1..][..j];
    }
  }

  lemma {:induction false} LessAt(a: Bytes, b: Bytes, k: nat)
    requires k <= |a| && k < |b| && a[..k] == b[..k] && (k == |a| || a[k] < b[k])
    ensures Less(a, b)
    decreases k
  {
    if k > 0 {
      assert a[0] == a[..k][0] && b[0] == b[..k][0];
      assert a[1..][..k - 1] == a[..k][1..] && b[1..][..k - 1] == b[..k][1..];
      LessAt(a[1..], b[1..], k - 1);
    }
  }
}
