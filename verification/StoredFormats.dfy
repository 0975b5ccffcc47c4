/** The bytes of link nodes and of archives, written out; what a store holds; which blocks are legal. */
module StoredFormats {
  import opened Basics
  import opened Cids
  import opened Blocks
  import opened IpldModel
  import opened DagCbor
  import opened Dags
  import opened WireFormats
  import Chunking
  import CarArchive
  import RoundTrip
  import Readers
  import BrokenReads

  // ------------------------------------------------------------ link nodes

  /** A link, named or not, is a map under these keys in this order. */
  lemma LinkEntries(link: DagLink)
    ensures link.name.None? ==>
              Chunking.LinkToIpld(link)
              == Map([Entry([0x63, 0x69, 0x64], Link(link.cid)), Entry([0x73, 0x69, 0x7A, 0x65], Integer(link.size))])
    ensures link.name.Some? ==>
              Chunking.LinkToIpld(link)
              == Map([Entry([0x63, 0x69, 0x64], Link(link.cid)), Entry([0x6E, 0x61, 0x6D, 0x65], Text(link.name.value)),
                      Entry([0x73, 0x69, 0x7A, 0x65], Integer(link.size))])
  {
    hide Insert, Less;
    var cid, name, size := [0x63, 0x69, 0x64], [0x6E, 0x61, 0x6D, 0x65], [0x73, 0x69, 0x7A, 0x65];
    FirstByteDecides(cid, size);
    FirstByteDecides(cid, name);
    FirstByteDecides(name, size);
    TwoKeys(cid, Link(link.cid), size, Integer(link.size));
    if link.name.Some? {
      MiddleKey(cid, Link(link.cid), name, Text(link.name.value), size, Integer(link.size));
    }
  }

  /** A node, with data of its own or not. */
  lemma NodeEntries(node: Chunking.DagNode)
    ensures var items := List(Chunking.LinksToIpld(node.links));
            var links, total := [0x6C, 0x69, 0x6E, 0x6B, 0x73], [0x74, 0x6F, 0x74, 0x61, 0x6C, 0x53, 0x69, 0x7A, 0x65];
            node.ToIpld()
            == Map((if node.data.Some? then [Entry([0x64, 0x61, 0x74, 0x61], Binary(node.data.value))] else [])
                   + [Entry(links, items), Entry(total, Integer(node.totalSize))])
  {
    hide Insert, Less, Chunking.LinksToIpld;
    var data, links, total := [0x64, 0x61, 0x74, 0x61], [0x6C, 0x69, 0x6E, 0x6B, 0x73], [0x74, 0x6F, 0x74, 0x61, 0x6C, 0x53, 0x69, 0x7A, 0x65];
    var items := List(Chunking.LinksToIpld(node.links));
    FirstByteDecides(links, total);
    FirstByteDecides(data, links);
    TwoKeys(links, items, total, Integer(node.totalSize));
    if node.data.Some? {
      FrontKey(data, Binary(node.data.value), [Entry(links, items), Entry(total, Integer(node.totalSize))]);
    }
  }

  lemma FirstByteDecides(a: Bytes, b: Bytes)
    requires a != [] && b != [] && a[0] < b[0]
    ensures Less(a, b) && !Less(b, a) && a != b
  {
  }

  lemma FrontKey(k: Bytes, v: Ipld, es: seq<Entry>)
    requires es != [] && Less(k, es[0].key) && k != es[0].key
    ensures Insert(es, k, v) == [Entry(k, v)] + es
  {
    hide Less;
  }

  lemma MiddleKey(k: Bytes, v: Ipld, l: Bytes, w: Ipld, m: Bytes, x: Ipld)
    requires Less(k, l) && !Less(l, k) && k != l && Less(l, m) && l != m
    ensures Insert([Entry(k, v), Entry(m, x)], l, w) == [Entry(k, v), Entry(l, w), Entry(m, x)]
  {
    hide Less;
    assert [Entry(k, v), Entry(m, x)][1..] == [Entry(m, x)];
  }

  /** The bytes of a nameless link with an identifier of 36 bytes. */
  lemma LinkBytesAre(link: DagLink)
    requires link.name.None? && link.size < TWO_64 && |CidBytes(link.cid)| == 36
    ensures Encode(Chunking.LinkToIpld(link))
         == [0xA2, 0x63, 0x63, 0x69, 0x64, 0xD8, 0x2A, 0x58, 0x25, 0x00] + CidBytes(link.cid)
            + [0x64, 0x73, 0x69, 0x7A, 0x65] + Head(0, link.size)
  {
    hide Encode, Head, CidBytes, EncodeText;
    LinkEntries(link);
    TwoEntries(Entry([0x63, 0x69, 0x64], Link(link.cid)), Entry([0x73, 0x69, 0x7A, 0x65], Integer(link.size)));
    HeadIs(5, 2);
    ShortText([0x63, 0x69, 0x64]);
    ShortText([0x73, 0x69, 0x7A, 0x65]);
    LinkBytes(link.cid);
    UnsignedIs(link.size);
  }

  lemma ShortText(s: Bytes)
    requires |s| < 24
    ensures EncodeText(s) == [0x60 + |s|] + s
  {
    hide Head;
    HeadIs(3, |s|);
  }

  /** The bytes of an intermediate node: its links one after the other, then the sum of their sizes. */
  lemma NodeBytesAre(links: seq<DagLink>)
    requires |links| < TWO_64 && Chunking.SumSizes(links) < TWO_64
    ensures ToDagCbor(Chunking.Intermediate(links).ToIpld())
         == [0xA2, 0x65, 0x6C, 0x69, 0x6E, 0x6B, 0x73] + (Head(4, |links|) + EncodeItems(Chunking.LinksToIpld(links)))
            + [0x69, 0x74, 0x6F, 0x74, 0x61, 0x6C, 0x53, 0x69, 0x7A, 0x65] + Head(0, Chunking.SumSizes(links))
  {
    hide Encode, Head, EncodeItems, Chunking.LinksToIpld, Chunking.SumSizes, Chunking.DagNode.ToIpld;
    PlainNode(links);
    NodeMapBytes(Chunking.LinksToIpld(links), Chunking.SumSizes(links));
  }

  lemma NodeMapBytes(items: seq<Ipld>, sum: u64)
    requires |items| < TWO_64
    ensures Encode(Map([Entry([0x6C, 0x69, 0x6E, 0x6B, 0x73], List(items)),
                        Entry([0x74, 0x6F, 0x74, 0x61, 0x6C, 0x53, 0x69, 0x7A, 0x65], Integer(sum))]))
         == [0xA2, 0x65, 0x6C, 0x69, 0x6E, 0x6B, 0x73] + (Head(4, |items|) + EncodeItems(items))
            + [0x69, 0x74, 0x6F, 0x74, 0x61, 0x6C, 0x53, 0x69, 0x7A, 0x65] + Head(0, sum)
  {
    hide Encode, Head, EncodeText, EncodeItems;
    NodeKeyBytes();
    ListAndNumber([0x6C, 0x69, 0x6E, 0x6B, 0x73], items, [0x74, 0x6F, 0x74, 0x61, 0x6C, 0x53, 0x69, 0x7A, 0x65], sum);
  }

  lemma ListAndNumber(key: Bytes, items: seq<Ipld>, total: Bytes, sum: u64)
    requires |items| < TWO_64
    ensures Encode(Map([Entry(key, List(items)), Entry(total, Integer(sum))]))
         == Head(5, 2) + EncodeText(key) + (Head(4, |items|) + EncodeItems(items)) + EncodeText(total) + Head(0, sum)
  {
    assert Truncate64(|items|) == |items|;
    hide Encode, Head, EncodeText, EncodeItems, Truncate64;
    TwoEntries(Entry(key, List(items)), Entry(total, Integer(sum)));
    ListIs(items);
    UnsignedIs(sum);
    assert Encode(List(items)) == Head(4, |items|) + EncodeItems(items);
    Line(Head(5, 2), EncodeText(key), Encode(List(items)), EncodeText(total), Head(0, sum));
  }

  lemma NodeKeyBytes()
    ensures Head(5, 2) + EncodeText([0x6C, 0x69, 0x6E, 0x6B, 0x73]) == [0xA2, 0x65, 0x6C, 0x69, 0x6E, 0x6B, 0x73]
    ensures EncodeText([0x74, 0x6F, 0x74, 0x61, 0x6C, 0x53, 0x69, 0x7A, 0x65])
         == [0x69, 0x74, 0x6F, 0x74, 0x61, 0x6C, 0x53, 0x69, 0x7A, 0x65]
  {
    hide Head, EncodeText;
    HeadIs(5, 2);
    ShortText([0x6C, 0x69, 0x6E, 0x6B, 0x73]);
    ShortText([0x74, 0x6F, 0x74, 0x61, 0x6C, 0x53, 0x69, 0x7A, 0x65]);
  }

  lemma Line(a: Bytes, b: Bytes, c: Bytes, d: Bytes, e: Bytes)
    ensures a + (b + (c + (d + e))) == a + b + c + d + e
  {
  }

  lemma PlainNode(links: seq<DagLink>)
    ensures Chunking.Intermediate(links).ToIpld()
         == Map([Entry([0x6C, 0x69, 0x6E, 0x6B, 0x73], List(Chunking.LinksToIpld(links))),
                 Entry([0x74, 0x6F, 0x74, 0x61, 0x6C, 0x53, 0x69, 0x7A, 0x65], Integer(Chunking.SumSizes(links)))])
    ensures |Chunking.LinksToIpld(links)| == |links|
  {
    hide Chunking.LinksToIpld, Chunking.SumSizes, Chunking.DagNode.ToIpld;
    NodeEntries(Chunking.Intermediate(links));
    NilUnits([Entry([0x6C, 0x69, 0x6E, 0x6B, 0x73], List(Chunking.LinksToIpld(links))),
              Entry([0x74, 0x6F, 0x74, 0x61, 0x6C, 0x53, 0x69, 0x7A, 0x65], Integer(Chunking.SumSizes(links)))]);
  }

  // ---------------------------------------------------------------- archives

  /** The header for no roots, and for one with an identifier of 36 bytes. */
  lemma HeaderBytes(root: Cid)
    requires |CidBytes(root)| == 36
    ensures CarArchive.EncodeHeader(CarArchive.CarHeader(1, []))
         == [0xA2, 0x65, 0x72, 0x6F, 0x6F, 0x74, 0x73, 0x80, 0x67, 0x76, 0x65, 0x72, 0x73, 0x69, 0x6F, 0x6E, 0x01]
    ensures CarArchive.EncodeHeader(CarArchive.CarHeader(1, [root]))
         == [0xA2, 0x65, 0x72, 0x6F, 0x6F, 0x74, 0x73, 0x81, 0xD8, 0x2A, 0x58, 0x25, 0x00] + CidBytes(root)
            + [0x67, 0x76, 0x65, 0x72, 0x73, 0x69, 0x6F, 0x6E, 0x01]
  {
    hide Encode, Head, EncodeItems, CidBytes;
    HeaderIs([]);
    HeaderIs([root]);
    HeadIs(4, 0);
    HeadIs(4, 1);
    TwoItems(Link(root), Null);
    assert CarArchive.LinksOf([]) == [] && CarArchive.LinksOf([root]) == [Link(root)];
    LinkBytes(root);
  }

  lemma HeaderIs(roots: seq<Cid>)
    requires |roots| < TWO_64
    ensures CarArchive.EncodeHeader(CarArchive.CarHeader(1, roots))
         == [0xA2, 0x65, 0x72, 0x6F, 0x6F, 0x74, 0x73] + (Head(4, |roots|) + EncodeItems(CarArchive.LinksOf(roots)))
            + [0x67, 0x76, 0x65, 0x72, 0x73, 0x69, 0x6F, 0x6E] + [0x01]
  {
    hide Encode, Head, EncodeText, EncodeItems, CarArchive.HeaderIpld, CarArchive.LinksOf;
    var key, version := [0x72, 0x6F, 0x6F, 0x74, 0x73], [0x76, 0x65, 0x72, 0x73, 0x69, 0x6F, 0x6E];
    LinksCount(roots);
    CarArchive.HeaderShape(CarArchive.CarHeader(1, roots));
    ListAndNumber(key, CarArchive.LinksOf(roots), version, 1);
    HeaderKeyBytes();
  }

  lemma HeaderKeyBytes()
    ensures Head(5, 2) + EncodeText([0x72, 0x6F, 0x6F, 0x74, 0x73]) == [0xA2, 0x65, 0x72, 0x6F, 0x6F, 0x74, 0x73]
    ensures EncodeText([0x76, 0x65, 0x72, 0x73, 0x69, 0x6F, 0x6E]) == [0x67, 0x76, 0x65, 0x72, 0x73, 0x69, 0x6F, 0x6E]
    ensures Head(0, 1) == [0x01]
  {
    hide Head, EncodeText;
    HeadIs(5, 2);
    HeadIs(0, 1);
    ShortText([0x72, 0x6F, 0x6F, 0x74, 0x73]);
    ShortText([0x76, 0x65, 0x72, 0x73, 0x69, 0x6F, 0x6E]);
  }

  lemma LinksCount(roots: seq<Cid>)
    ensures |CarArchive.LinksOf(roots)| == |roots|
  {
  }

  /** A short uncompressed section of a default block: length, identifier, flag 0, data. */
  lemma SectionBytes(sha: Sha256, codecs: CarArchive.Codecs, data: Bytes)
    requires |data| <= 90
    ensures CarArchive.Section(codecs, None, Block(CidOf(sha, RAW, data), data))
         == Ok([37 + |data|, 0x01, 0x55, 0x12, 0x20] + sha(data) + [0x00] + data)
  {
    hide CidBytes, Varint, CidOf;
    DefaultCidBytes(sha, data);
    OneByteVarint(37 + |data|);
    var payload := CidBytes(CidOf(sha, RAW, data)) + ([0] + data);
    assert |payload| == 37 + |data|;
    assert [37 + |data|] + payload == [37 + |data|, 0x01, 0x55, 0x12, 0x20] + sha(data) + [0x00] + data;
  }

  /** Compression is applied as configured and flagged with 1; no compression is flagged with 0; levels above 9 are refused. */
  lemma CompressedSection(codecs: CarArchive.Codecs, block: Block, level: nat, packed: Bytes)
    requires level < 256
    ensures level <= 9 && codecs.zstd(block.data, level) == Some(packed) ==>
              CarArchive.Section(codecs, Some((CarArchive.Zstd, level)), block)
              == Ok(Varint(|CidBytes(block.cid)| + 1 + |packed|) + (CidBytes(block.cid) + ([0x01] + packed)))
    ensures level <= 9 && codecs.lz4(block.data, level) == Some(packed) ==>
              CarArchive.Section(codecs, Some((CarArchive.Lz4, level)), block)
              == Ok(Varint(|CidBytes(block.cid)| + 1 + |packed|) + (CidBytes(block.cid) + ([0x01] + packed)))
    ensures level <= 9 ==>
              CarArchive.Section(codecs, Some((CarArchive.NoCompression, level)), block)
              == Ok(Varint(|CidBytes(block.cid)| + 1 + |block.data|) + (CidBytes(block.cid) + ([0x00] + block.data)))
    ensures level > 9 ==> CarArchive.Section(codecs, Some((CarArchive.Zstd, level)), block) == Err(InvalidInput)
  {
    hide CidBytes, Varint;
    assert level % 256 == level;
    assert |CidBytes(block.cid) + ([0x01] + packed)| == |CidBytes(block.cid)| + 1 + |packed|;
    assert |CidBytes(block.cid) + ([0x00] + block.data)| == |CidBytes(block.cid)| + 1 + |block.data|;
  }

  /** Data flagged as compressed is given to Zstd, and to LZ4 only if that refuses it; without a flag it is taken as it is. */
  lemma PayloadForms(sha: Sha256, codecs: CarArchive.Codecs, data: Bytes, stored: Bytes)
    requires ValidSize(data)
    ensures codecs.unzstd(stored) == Some(data) || (codecs.unzstd(stored) == None && codecs.unlz4(stored) == Some(data)) ==>
              CarArchive.OpenPayload(sha, codecs, CidBytes(CidOf(sha, RAW, data)) + ([0x01] + stored))
              == Ok(Block(CidOf(sha, RAW, data), data))
    ensures data[0] > 1 ==>
              CarArchive.OpenPayload(sha, codecs, CidBytes(CidOf(sha, RAW, data)) + data) == Ok(Block(CidOf(sha, RAW, data), data))
    ensures CarArchive.OpenPayload(sha, codecs, CidBytes(CidOf(sha, RAW, data))) == Err(Deserialization)
  {
    hide CidBytes, ReadCid, CidOf;
    var cid := CidOf(sha, RAW, data);
    CidRoundTrip(cid, [0x01] + stored);
    CidRoundTrip(cid, data);
    CidRoundTrip(cid, []);
    NilUnits(CidBytes(cid));
    assert ([0x01] + stored)[1..] == stored;
  }

  /** Reading a varint: the end, a byte short, ten continued bytes, a longer form than needed. */
  lemma VarintCases(suffix: Bytes)
    ensures CarArchive.ReadVarintFrom([], 0, 0) == CarArchive.EndOfInput
    ensures CarArchive.ReadVarintFrom([0x80], 0, 0) == CarArchive.Malformed(Io)
    ensures CarArchive.ReadVarintFrom([0x80, 0x80, 0x80, 0x80, 0x80, 0x80, 0x80, 0x80, 0x80, 0x80] + suffix, 0, 0)
         == CarArchive.Malformed(Deserialization)
    ensures CarArchive.ReadVarintFrom([0x85, 0x00] + suffix, 0, 0) == CarArchive.Value(5, suffix)
  {
    hide CarArchive.ReadVarintFrom, Pow2;
    ReadEnd(0, 0);
    assert [0x80] == [0x80] + [];
    ReadZeroGroup(0, []);
    ReadEnd(7, 0);
    assert [0x85, 0x00] + suffix == [0x85] + ([0x00] + suffix);
    ReadLow(suffix);
    TenGroups(suffix);
  }

  lemma ReadEnd(shift: nat, acc: nat)
    ensures CarArchive.ReadVarintFrom([], shift, acc) == if shift == 0 then CarArchive.EndOfInput else CarArchive.Malformed(Io)
  {
  }

  lemma ReadZeroGroup(shift: nat, rest: Bytes)
    ensures CarArchive.ReadVarintFrom([0x80] + rest, shift, 0)
         == if shift + 7 >= 64 then CarArchive.Malformed(Deserialization) else CarArchive.ReadVarintFrom(rest, shift + 7, 0)
  {
    hide Pow2;
    assert ([0x80] + rest)[1..] == rest;
    assert 0 * Pow2(shift) == 0;
  }

  lemma ReadLow(suffix: Bytes)
    ensures CarArchive.ReadVarintFrom([0x85] + ([0x00] + suffix), 0, 0) == CarArchive.Value(5, suffix)
  {
    var bs := [0x85] + ([0x00] + suffix);
    assert bs[1..] == [0x00] + suffix && ([0x00] + suffix)[1..] == suffix;
    assert Pow2(0) == 1;
    assert CarArchive.ReadVarintFrom(bs, 0, 0) == CarArchive.ReadVarintFrom([0x00] + suffix, 7, 5);
    assert 0 * Pow2(7) == 0;
  }

  lemma TenGroups(suffix: Bytes)
    ensures CarArchive.ReadVarintFrom([0x80, 0x80, 0x80, 0x80, 0x80, 0x80, 0x80, 0x80, 0x80, 0x80] + suffix, 0, 0)
         == CarArchive.Malformed(Deserialization)
  {
    hide CarArchive.ReadVarintFrom, Pow2;
    var r9 := [0x80] + suffix;
    var r8 := [0x80] + r9;
    var r7 := [0x80] + r8;
    var r6 := [0x80] + r7;
    var r5 := [0x80] + r6;
    var r4 := [0x80] + r5;
    var r3 := [0x80] + r4;
    var r2 := [0x80] + r3;
    var r1 := [0x80] + r2;
    assert [0x80, 0x80, 0x80, 0x80, 0x80, 0x80, 0x80, 0x80, 0x80, 0x80] + suffix == [0x80] + r1;
    ReadZeroGroup(0, r1);
    ReadZeroGroup(7, r2);
    ReadZeroGroup(14, r3);
    ReadZeroGroup(21, r4);
    ReadZeroGroup(28, r5);
    ReadZeroGroup(35, r6);
    ReadZeroGroup(42, r7);
    ReadZeroGroup(49, r8);
    ReadZeroGroup(56, r9);
    ReadZeroGroup(63, suffix);
  }

  // ------------------------------------------------------------------ stores

  /** Of several blocks under one identifier, a store holds the last one added. */
  lemma {:induction false} LastBlockWins(blocks: seq<Block>, i: nat)
    requires i < |blocks| && forall j :: i < j < |blocks| ==> blocks[j].cid != blocks[i].cid
    ensures blocks[i].cid in RoundTrip.Stored(blocks) && RoundTrip.Stored(blocks)[blocks[i].cid] == blocks[i]
    decreases |blocks|
  {
    var n := |blocks| - 1;
    if i < n {
      LastBlockWins(blocks[..n], i);
    }
  }

  /** A block holds 1 byte to 2 MiB, and is named by the hash of its bytes. */
  lemma BlockLimits(sha: Sha256, codec: u64, data: Bytes)
    ensures BuildBlock(sha, codec, data)
         == if 1 <= |data| <= 2097152 then Ok(Block(V1(codec, 0x12, sha(data)), data)) else Err(InvalidData)
  {
  }

  function TwoLeafNode(sha: Sha256, a: Bytes, b: Bytes): Block {
    Chunking.MerkleBlock(sha, Node(None, [Raw(a), Raw(b)]))
  }

  /** A stored file of two leaves without its second leaf: reading it reports the missing block. */
  lemma MissingLeaf(sha: Sha256, pf: Platform, sized: bool, a: Bytes, b: Bytes)
    requires |a| + |b| < TWO_64 && sha(a) != sha(b)
    ensures var root, leaf := TwoLeafNode(sha, a, b), Block(CidOf(sha, RAW, a), a);
            var seen := Node(None, [Raw(a), Broken(BlockNotFound)]);
            Unfolds(Store(pf, map[root.cid := root, leaf.cid := leaf]), sized, root.cid, seen)
            && Readers.ReadOf(seen) == Err(BlockNotFound) && Readers.Drain([seen]) == Err(BlockNotFound)
  {
    hide ToDagCbor, FromDagCbor, Chunking.DagNode.ToIpld, Targets, LinkItems, NodeData, Readers.ReadOf, Readers.Drain;
    var root, leaf := TwoLeafNode(sha, a, b), Block(CidOf(sha, RAW, a), a);
    var store := Store(pf, map[root.cid := root, leaf.cid := leaf]);
    var links := TwoLinks(sha, a, b);
    pf.ListFitsMeans(2);
    RoundTrip.NodeDecodes(pf, links, sized);
    var v := Chunking.Intermediate(links).ToIpld();
    var cids := Targets(LinkItems(v), sized);
    assert root.cid.Codec() == DAG_CBOR && root.data == ToDagCbor(v);
    assert Unfolds(store, sized, cids[0], Raw(a));
    assert Unfolds(store, sized, cids[1], Broken(BlockNotFound));
    var seen := Node(None, [Raw(a), Broken(BlockNotFound)]);
    assert NodeUnfolds(store, sized, v, seen);
    BrokenReads.SecondLeafMissing(a, BlockNotFound);
  }

  lemma TwoLinks(sha: Sha256, a: Bytes, b: Bytes) returns (links: seq<DagLink>)
    ensures links == Chunking.MerkleLinks(sha, [Raw(a), Raw(b)])
    ensures links == [DagLink(CidOf(sha, RAW, a), |a|, None), DagLink(CidOf(sha, RAW, b), |b|, None)]
    ensures Chunking.SumSizes(links) == |a| + |b|
  {
    hide CidOf;
    links := Chunking.MerkleLinks(sha, [Raw(a), Raw(b)]);
    assert [Raw(a), Raw(b)][1..] == [Raw(b)] && [Raw(b)][1..] == [];
    assert Chunking.MerkleLinks(sha, [Raw(b)]) == [Chunking.MerkleLink(sha, Raw(b))] + Chunking.MerkleLinks(sha, []);
    assert links[1..] == [DagLink(CidOf(sha, RAW, b), |b|, None)];
    assert Chunking.SumSizes(links[1..]) == |b| + Chunking.SumSizes([]);
  }
}
