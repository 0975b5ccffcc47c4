/**
 The end-to-end property of the chunker and the readers: what `chunk` builds,
 stored block by block, reads back as the original data with either reader.
 */
module RoundTrip {
  import opened Basics
  import opened Cids
  import opened Blocks
  import opened IpldModel
  import opened DagCbor
  import opened Dags
  import Readers
  import opened Chunking

  /** `MemoryBlockFetcher::add_blocks` into an empty fetcher: a later block replaces an earlier one. */
  function Stored(blocks: seq<Block>): map<Cid, Block> {
    if blocks == [] then map[]
    else
      var last := blocks[|blocks| - 1];
      Stored(blocks[..|blocks| - 1])[last.cid := last]
  }

  method AddBlocks(blocks: seq<Block>) returns (m: map<Cid, Block>)
    ensures m == Stored(blocks)
  {
    m := map[];
    for i := 0 to |blocks|
      invariant m == Stored(blocks[..i])
    {
      m := m[blocks[i].cid := blocks[i]];
      assert blocks[..i + 1][..i] == blocks[..i];
    }
    assert blocks[..|blocks|] == blocks;
  }

  /** No two different blocks of the run share an identifier. */
  predicate NoCollision(blocks: seq<Block>) {
    forall i, j :: 0 <= i < j < |blocks| && blocks[i].cid == blocks[j].cid ==> blocks[i] == blocks[j]
  }

  lemma {:induction false} StoredHas(blocks: seq<Block>, i: nat)
    requires NoCollision(blocks) && i < |blocks|
    ensures blocks[i].cid in Stored(blocks) && Stored(blocks)[blocks[i].cid] == blocks[i]
  {
    var n := |blocks| - 1;
    if i < n {
      StoredHas(blocks[..n], i);
    }
  }

  // ----------------------------------------------- nodes through the codec

  lemma KeyFacts()
    ensures ValidText(KEY_CID) && ValidText(KEY_LINKS) && ValidText(KEY_SIZE) && ValidText(KEY_TOTAL_SIZE)
    ensures Less(KEY_CID, KEY_SIZE) && !Less(KEY_SIZE, KEY_CID) && KEY_CID != KEY_SIZE
    ensures Less(KEY_LINKS, KEY_TOTAL_SIZE) && !Less(KEY_TOTAL_SIZE, KEY_LINKS) && KEY_LINKS != KEY_TOTAL_SIZE
    ensures KEY_DATA != KEY_LINKS && KEY_DATA != KEY_TOTAL_SIZE
  {
    hide ValidUtf8;
    AsciiIsUtf8(KEY_CID);
    AsciiIsUtf8(KEY_LINKS);
    AsciiIsUtf8(KEY_SIZE);
    AsciiIsUtf8(KEY_TOTAL_SIZE);
  }

  lemma LinkIpld(link: DagLink)
    requires link.name.None?
    ensures LinkToIpld(link) == Map([Entry(KEY_CID, Link(link.cid)), Entry(KEY_SIZE, Integer(link.size))])
  {
    hide Less, Insert, Lookup, ValidText, KEY_CID, KEY_SIZE, KEY_NAME;
    KeyFacts();
    TwoKeys(KEY_CID, Link(link.cid), KEY_SIZE, Integer(link.size));
  }

  lemma LinkIpldTarget(link: DagLink, sized: bool)
    requires link.name.None?
    ensures LinkTarget(LinkToIpld(link), sized) == Some(link.cid)
  {
    hide Less, Insert, Lookup, LinkToIpld, ValidText, KEY_CID, KEY_SIZE, KEY_NAME;
    KeyFacts();
    LinkIpld(link);
    TwoKeys(KEY_CID, Link(link.cid), KEY_SIZE, Integer(link.size));
    var v := LinkToIpld(link);
    assert v.Map? && Lookup(v.entries, KEY_CID) == Some(Link(link.cid)) && Lookup(v.entries, KEY_SIZE).Some?;
  }

  lemma NodeIpld(node: DagNode)
    requires node.data.None?
    ensures node.ToIpld() == Map([Entry(KEY_LINKS, List(LinksToIpld(node.links))),
                                  Entry(KEY_TOTAL_SIZE, Integer(node.totalSize))])
    ensures LinkItems(node.ToIpld()) == LinksToIpld(node.links)
    ensures NodeData(node.ToIpld()) == None
  {
    hide Less, Insert, Lookup, LinksToIpld, ValidText, KEY_LINKS, KEY_TOTAL_SIZE, KEY_DATA;
    KeyFacts();
    TwoKeys(KEY_LINKS, List(LinksToIpld(node.links)), KEY_TOTAL_SIZE, Integer(node.totalSize));
  }

  /** A link as the chunker makes them: unnamed, with a 64-bit size. */
  predicate Plain(link: DagLink) {
    link.name.None? && link.size < TWO_64
  }

  predicate AllPlain(links: seq<DagLink>) {
    forall i :: 0 <= i < |links| ==> Plain(links[i])
  }

  lemma LinkRepresentable(pf: Platform, link: DagLink)
    requires Plain(link)
    ensures Representable(pf, LinkToIpld(link)) && IntegersFit(LinkToIpld(link))
  {
    hide Less, ValidText, LinkToIpld;
    KeyFacts();
    LinkIpld(link);
    PairRepresentable(pf, KEY_CID, Link(link.cid), KEY_SIZE, Integer(link.size));
  }

  lemma {:induction false} TargetsOfLinks(links: seq<DagLink>, sized: bool)
    requires AllPlain(links)
    ensures |Targets(LinksToIpld(links), sized)| == |links|
    ensures forall i :: 0 <= i < |links| ==> Targets(LinksToIpld(links), sized)[i] == links[i].cid
  {
    hide LinkToIpld, LinkTarget;
    if links != [] {
      LinkIpldTarget(links[0], sized);
      TargetsOfLinks(links[1..], sized);
      assert LinksToIpld(links)[1..] == LinksToIpld(links[1..]);
    }
  }

  /** A link node survives the codec, with the links both readers follow. */
  lemma NodeDecodes(pf: Platform, links: seq<DagLink>, sized: bool)
    requires AllPlain(links) && pf.ListFits(|links|) && SumSizes(links) < TWO_64
    ensures var v := Intermediate(links).ToIpld();
            FromDagCbor(pf, ToDagCbor(v)) == Ok(v) && NodeData(v) == None
            && |Targets(LinkItems(v), sized)| == |links|
            && forall i :: 0 <= i < |links| ==> Targets(LinkItems(v), sized)[i] == links[i].cid
  {
    hide FromDagCbor, ToDagCbor, Less, ValidText, LinkToIpld, NodeData, LinkItems, DagNode.ToIpld, Targets;
    hide Representable, IntegersFit;
    var items := LinksToIpld(links);
    var v := Intermediate(links).ToIpld();
    NodeIpld(Intermediate(links));
    forall i | 0 <= i < |items| ensures Representable(pf, items[i]) && IntegersFit(items[i]) {
      LinkRepresentable(pf, links[i]);
    }
    ListRepresentable(pf, items);
    IntegerRepresentable(pf, SumSizes(links));
    KeyFacts();
    PairRepresentable(pf, KEY_LINKS, List(items), KEY_TOTAL_SIZE, Integer(SumSizes(links)));
    RoundTripIff(pf, v);
    TargetsOfLinks(links, sized);
  }

  /** Every item takes at least a byte, so a node that fits a block has few links. */
  lemma {:induction false} ItemsTakeBytes(items: seq<Ipld>)
    ensures |EncodeItems(items)| >= |items|
  {
    hide Encode;
    if items != [] {
      ItemsTakeBytes(items[1..]);
      EncodeNonEmpty(items[0]);
    }
  }

  lemma EncodeNonEmpty(v: Ipld)
    ensures |Encode(v)| > 0
  {
  }

  lemma NodeLength(node: DagNode)
    requires node.data.None?
    ensures |ToDagCbor(node.ToIpld())| >= |node.links|
  {
    hide DagNode.ToIpld, LinksToIpld, EncodeItems;
    NodeIpld(node);
    var items := LinksToIpld(node.links);
    var es := [Entry(KEY_LINKS, List(items)), Entry(KEY_TOTAL_SIZE, Integer(node.totalSize))];
    ItemsTakeBytes(items);
    assert |Encode(List(items))| >= |EncodeItems(items)|;
    assert |EncodeEntries(es)| >= |Encode(es[0].value)|;
  }

  // ------------------------------------------------------ stored trees unfold

  /** The blocks of a tree and of everything below it are among `blocks`. */
  predicate Present(sha: Sha256, blocks: seq<Block>, dag: Dag)
    decreases dag, 1
  {
    MerkleBlock(sha, dag) in blocks && KidsPresent(sha, blocks, dag)
  }

  predicate KidsPresent(sha: Sha256, blocks: seq<Block>, dag: Dag)
    decreases dag, 0
  {
    dag.Node? ==> forall i :: 0 <= i < |dag.kids| ==> Present(sha, blocks, dag.kids[i])
  }

  lemma {:induction false} FlattenPart(dags: seq<Dag>, i: nat)
    requires i < |dags|
    ensures |Flatten(dags[i])| <= |FlattenAll(dags)|
  {
    if i > 0 {
      FlattenPart(dags[1..], i - 1);
    }
  }

  /** Following links from the root of a stored DAG gives exactly that DAG, for both readers. */
  lemma {:induction false} PresentUnfolds(sha: Sha256, store: Store, sized: bool, blocks: seq<Block>, dag: Dag)
    requires NoCollision(blocks) && BlocksFit(blocks) && store.blocks == Stored(blocks)
    requires Bare(dag) && Present(sha, blocks, dag) && |Flatten(dag)| < TWO_64
    ensures Unfolds(store, sized, MerkleLink(sha, dag).cid, dag)
    decreases dag
  {
    hide Stored, ToDagCbor, FromDagCbor, MerkleLinks, DagNode.ToIpld, NoCollision, NodeUnfolds, Flatten, Bare, Present;
    PresentHas(sha, blocks, dag);
    StoredRoot(sha, store, blocks, dag);
    if dag.Node? {
      KidsOf(sha, blocks, dag);
      forall k | 0 <= k < |dag.kids| ensures Unfolds(store, sized, MerkleLink(sha, dag.kids[k]).cid, dag.kids[k]) {
        PresentUnfolds(sha, store, sized, blocks, dag.kids[k]);
      }
      StoredNode(sha, store, sized, dag);
    } else {
      BareLeaf(dag);
    }
  }

  lemma BareLeaf(dag: Dag)
    requires Bare(dag) && !dag.Node?
    ensures dag.Raw?
  {
  }

  lemma PresentHas(sha: Sha256, blocks: seq<Block>, dag: Dag)
    requires Present(sha, blocks, dag)
    ensures MerkleBlock(sha, dag) in blocks
  {
  }

  /** What presence and bareness of a node say of its children. */
  lemma KidsOf(sha: Sha256, blocks: seq<Block>, dag: Dag)
    requires dag.Node? && Bare(dag) && Present(sha, blocks, dag)
    ensures dag.data.None? && Flatten(dag) == FlattenAll(dag.kids)
    ensures forall k :: 0 <= k < |dag.kids| ==>
              Bare(dag.kids[k]) && Present(sha, blocks, dag.kids[k]) && |Flatten(dag.kids[k])| <= |Flatten(dag)|
  {
    hide MerkleBlock;
    assert Flatten(dag) == [] + FlattenAll(dag.kids);
    forall k | 0 <= k < |dag.kids| ensures |Flatten(dag.kids[k])| <= |Flatten(dag)| {
      FlattenPart(dag.kids, k);
    }
  }

  lemma StoredRoot(sha: Sha256, store: Store, blocks: seq<Block>, dag: Dag)
    requires NoCollision(blocks) && BlocksFit(blocks) && store.blocks == Stored(blocks)
    requires MerkleBlock(sha, dag) in blocks
    ensures Fetch(store, MerkleLink(sha, dag).cid) == Ok(MerkleBlock(sha, dag))
    ensures |MerkleBytes(sha, dag)| <= MAX_BLOCK_SIZE
  {
    hide Stored, NoCollision, MerkleLink, MerkleBytes;
    var i :| 0 <= i < |blocks| && blocks[i] == MerkleBlock(sha, dag);
    StoredHas(blocks, i);
  }

  /** A stored node whose children unfold unfolds. */
  lemma StoredNode(sha: Sha256, store: Store, sized: bool, dag: Dag)
    requires dag.Node? && dag.data.None? && Flatten(dag) == FlattenAll(dag.kids) && |Flatten(dag)| < TWO_64
    requires Fetch(store, MerkleLink(sha, dag).cid) == Ok(MerkleBlock(sha, dag))
    requires |MerkleBytes(sha, dag)| <= MAX_BLOCK_SIZE
    requires forall k :: 0 <= k < |dag.kids| ==>
               Bare(dag.kids[k]) && |Flatten(dag.kids[k])| < TWO_64
               && Unfolds(store, sized, MerkleLink(sha, dag.kids[k]).cid, dag.kids[k])
    ensures Unfolds(store, sized, MerkleLink(sha, dag).cid, dag)
  {
    hide ToDagCbor, FromDagCbor, MerkleLinks, DagNode.ToIpld, Targets, LinkItems, NodeData, Flatten, Bare;
    var links := MerkleLinks(sha, dag.kids);
    MerkleLinksAt(sha, dag.kids);
    SizesAreLengths(sha, dag.kids);
    NodeLength(Intermediate(links));
    store.pf.ListFitsMeans(|links|);
    forall k | 0 <= k < |links| ensures Plain(links[k]) {
      SizeIsLength(sha, dag.kids[k]);
      MerkleLinkUnnamed(sha, dag.kids[k]);
    }
    NodeDecodes(store.pf, links, sized);
    var v := Intermediate(links).ToIpld();
    assert AllUnfold(store, sized, Targets(LinkItems(v), sized), dag.kids);
    assert NodeUnfolds(store, sized, v, dag);
  }

  lemma {:induction false} GrowPresent(sha: Sha256, all: seq<Block>, forest: seq<Dag>, maxLinks: nat)
    requires Ends(|forest|, maxLinks)
    requires forall i :: 0 <= i < |forest| ==> KidsPresent(sha, all, forest[i])
    requires forall b :: b in BlocksUp(sha, forest, maxLinks) ==> b in all
    ensures Present(sha, all, Grow(forest, maxLinks))
    decreases |forest|
  {
    hide KidsPresent, MerkleBlock, Level, MerkleBlocks;
    var blocks := MerkleBlocks(sha, forest);
    forall i | 0 <= i < |forest| ensures Present(sha, all, forest[i]) {
      assert blocks[i] in blocks;
      assert blocks[i] in BlocksUp(sha, forest, maxLinks);
    }
    if |forest| > 1 {
      LevelKidsPresent(sha, all, forest, maxLinks);
      GrowPresent(sha, all, Level(forest, maxLinks), maxLinks);
    }
  }

  lemma LevelKidsPresent(sha: Sha256, all: seq<Block>, forest: seq<Dag>, maxLinks: nat)
    requires maxLinks >= 2
    requires forall i :: 0 <= i < |forest| ==> Present(sha, all, forest[i])
    ensures var up := Level(forest, maxLinks);
            forall i :: 0 <= i < |up| ==> KidsPresent(sha, all, up[i])
  {
    hide Present, Groups;
    var groups := Groups(forest, maxLinks);
    GroupElements(forest, maxLinks);
    forall i | 0 <= i < |groups| ensures KidsPresent(sha, all, Node(None, groups[i])) {
      forall k | 0 <= k < |groups[i]| ensures Present(sha, all, groups[i][k]) {
        assert groups[i] in groups && groups[i][k] in groups[i];
      }
    }
  }

  // -------------------------------------------------------------- end to end

  /** The file reads back, breadth-first and depth-first, through the encoding of every node. */
  lemma ChunkedReadsBack(sha: Sha256, pf: Platform, config: Config, data: Bytes) returns (dag: Dag, height: nat)
    requires config.Valid() && data != [] && Builds(config, data) && |data| < TWO_64
    requires BlocksFit(Chunked(sha, config, data).blocks) && NoCollision(Chunked(sha, config, data).blocks)
    ensures var file := Chunked(sha, config, data);
            var store := Store(pf, Stored(file.blocks));
            Unfolds(store, false, file.root, dag) && Unfolds(store, true, file.root, dag)
    ensures Uniform(dag, height)
    ensures Readers.ReadOf(dag) == Ok(data) && Readers.Drain([dag]) == Ok(data)
  {
    hide Stored, MerkleBlock, MerkleLink, Grow, BlocksUp, Pieces, Unfolds, Present, NoCollision, BlocksFit;
    dag, height := TreeOverData(config, data);
    var blocks := Chunked(sha, config, data).blocks;
    GrowPresent(sha, blocks, Leaves(Pieces(config, data)), config.maxLinks);
    UniformIsBare(dag, height);
    PresentUnfolds(sha, Store(pf, Stored(blocks)), false, blocks, dag);
    PresentUnfolds(sha, Store(pf, Stored(blocks)), true, blocks, dag);
    Readers.BfsReadsUniform(dag, height);
    Readers.ReadersAgree(dag, height);
  }

  /** Chunk data, store its blocks and read them back with either reader. */
  method ChunkAndRead(sha: Sha256, pf: Platform, config: Config, data: Bytes)
    returns (read: Result<Bytes>, streamed: Result<Bytes>)
    requires config.Valid() && |data| < TWO_64
    requires data != [] ==> Builds(config, data) && NoCollision(Chunked(sha, config, data).blocks)
    ensures data == [] ==> read == streamed == Err(InvalidInput)
    ensures data != [] && BlocksFit(Chunked(sha, config, data).blocks) ==> read == streamed == Ok(data)
    ensures data != [] && !BlocksFit(Chunked(sha, config, data).blocks) ==> read.Err? && streamed.Err?
  {
    assert data != [] && config.maxLinks == 1 ==> |Pieces(config, data)| == 1;
    hide *;
    var file := Chunk(sha, config, data);
    if file.Err? {
      return Err(file.error), Err(file.error);
    }
    var blocks := AddBlocks(file.value.blocks);
    var store := Store(pf, blocks);
    ghost var dag, height := ChunkedReadsBack(sha, pf, config, data);
    read := Readers.ReadChunkedFile(store, file.value.root, dag);
    var link := DagLink(file.value.root, file.value.totalSize, None);
    Readers.OneLink(store, link, dag);
    var stream := new Readers.DagChunkStream(store, [link], [dag]);
    streamed := Readers.DrainStream(stream);
  }

  // --------------------------------------------------- when chunking succeeds

  lemma TextLength(s: Bytes)
    ensures |EncodeText(s)| <= 9 + |s|
  {
  }

  lemma PairLength(k: Bytes, v: Ipld, l: Bytes, w: Ipld)
    ensures |Encode(Map([Entry(k, v), Entry(l, w)]))| <= 27 + |k| + |l| + |Encode(v)| + |Encode(w)|
  {
    hide Encode, EncodeText, EncodeEntries;
    var es := [Entry(k, v), Entry(l, w)];
    TextLength(k);
    TextLength(l);
    EncodeEntriesCons(es, []);
    EncodeEntriesCons(es[1..], []);
    EncodeEntriesNil([]);
    assert es[1..][1..] == [];
    MapLength(es);
    assert EncodeEntries(es) + [] == EncodeEntries(es) && EncodeEntries(es[1..]) + [] == EncodeEntries(es[1..]);
  }

  lemma MapLength(es: seq<Entry>)
    ensures |Encode(Map(es))| <= 9 + |EncodeEntries(es)|
  {
    hide EncodeEntries;
  }

  lemma LinkLength(link: DagLink)
    requires link.name.None?
    ensures |Encode(LinkToIpld(link))| <= 160
  {
    hide LinkToIpld, EncodeEntries, CidBytes;
    LinkIpld(link);
    PairLength(KEY_CID, Link(link.cid), KEY_SIZE, Integer(link.size));
    CidBytesLength(link.cid);
    assert |Encode(Link(link.cid))| <= 9 + 9 + 96;
    assert |Encode(Integer(link.size))| <= 9;
  }

  lemma {:induction false} LinksLength(links: seq<DagLink>)
    requires forall i :: 0 <= i < |links| ==> links[i].name.None?
    ensures |EncodeItems(LinksToIpld(links))| <= 160 * |links|
  {
    hide Encode, LinkToIpld;
    if links != [] {
      LinkLength(links[0]);
      LinksLength(links[1..]);
      assert LinksToIpld(links)[1..] == LinksToIpld(links[1..]);
    }
  }

  lemma NodeFits(links: seq<DagLink>)
    requires forall i :: 0 <= i < |links| ==> links[i].name.None?
    requires |links| <= 13000
    ensures ValidSize(ToDagCbor(Intermediate(links).ToIpld()))
  {
    hide LinksToIpld, EncodeItems, EncodeEntries, DagNode.ToIpld;
    var items := LinksToIpld(links);
    NodeIpld(Intermediate(links));
    LinksLength(links);
    PairLength(KEY_LINKS, List(items), KEY_TOTAL_SIZE, Integer(SumSizes(links)));
    assert |Encode(List(items))| <= 9 + |EncodeItems(items)|;
    assert |Encode(Integer(SumSizes(links)))| <= 9;
    EncodeNonEmpty(Intermediate(links).ToIpld());
  }

  /** A piece of legal size, or a node of few links. */
  predicate Small(dag: Dag) {
    match dag
    case Raw(b) => ValidSize(b)
    case Node(data, kids) => |kids| <= 13000
    case Broken(_) => false
  }

  lemma SmallFits(sha: Sha256, dag: Dag)
    requires Small(dag)
    ensures ValidSize(MerkleBytes(sha, dag))
  {
    hide DagNode.ToIpld, Intermediate, ToDagCbor, MerkleLinks, MerkleLink;
    if dag.Node? {
      MerkleLinksAt(sha, dag.kids);
      forall i | 0 <= i < |dag.kids| ensures MerkleLinks(sha, dag.kids)[i].name.None? {
        MerkleLinkUnnamed(sha, dag.kids[i]);
      }
      NodeFits(MerkleLinks(sha, dag.kids));
    }
  }

  lemma MerkleLinkUnnamed(sha: Sha256, dag: Dag)
    ensures MerkleLink(sha, dag).name.None?
  {
  }

  lemma {:induction false} SmallBlocksFit(sha: Sha256, forest: seq<Dag>, maxLinks: nat)
    requires maxLinks <= 13000 && Ends(|forest|, maxLinks)
    requires forall i :: 0 <= i < |forest| ==> Small(forest[i])
    ensures BlocksFit(BlocksUp(sha, forest, maxLinks))
    decreases |forest|
  {
    hide MerkleLink, MerkleBytes, ValidSize, Groups;
    var blocks := MerkleBlocks(sha, forest);
    forall i | 0 <= i < |blocks| ensures ValidSize(blocks[i].data) {
      SmallFits(sha, forest[i]);
    }
    if |forest| > 1 {
      var groups := Groups(forest, maxLinks);
      GroupsConcat(forest, maxLinks);
      forall i | 0 <= i < |groups| ensures Small(Level(forest, maxLinks)[i]) {
        assert groups[i] in groups;
      }
      SmallBlocksFit(sha, Level(forest, maxLinks), maxLinks);
    }
  }

  /**
   Chunking of non-empty data succeeds under every configuration whose largest
   chunk (the chunk size, or four times it when content-defined) fits a block,
   up to 13000 links a node; the library's default is 174.
   */
  lemma ChunkingSucceeds(sha: Sha256, config: Config, data: Bytes)
    requires config.Valid() && data != [] && Builds(config, data)
    requires config.strategy == FixedSize || 4 * config.chunkSize <= MAX_BLOCK_SIZE
    requires config.maxLinks <= 13000
    ensures BlocksFit(Chunked(sha, config, data).blocks)
  {
    hide Pieces, BlocksUp;
    PiecesCover(config, data);
    var leaves := Leaves(Pieces(config, data));
    forall i | 0 <= i < |leaves| ensures Small(leaves[i]) {
      assert Pieces(config, data)[i] in Pieces(config, data);
    }
    SmallBlocksFit(sha, leaves, config.maxLinks);
  }

  /**
   A stored file on which the readers differ: a node above one leaf, beside
   another leaf. The queue reader returns the second leaf first.
   */
  lemma UnevenFile(sha: Sha256, pf: Platform, sized: bool, a: Bytes, b: Bytes)
    requires ValidSize(a) && ValidSize(b)
    requires NoCollision(UnevenBlocks(sha, a, b))
    ensures BlocksFit(UnevenBlocks(sha, a, b))
    ensures Unfolds(Store(pf, Stored(UnevenBlocks(sha, a, b))), sized, MerkleLink(sha, Uneven(a, b)).cid, Uneven(a, b))
    ensures Readers.ReadOf(Uneven(a, b)) == Ok(b + a) && Readers.Drain([Uneven(a, b)]) == Ok(a + b)
  {
    hide MerkleLink, MerkleBytes, Stored, NoCollision, Unfolds;
    var dag, blocks := Uneven(a, b), UnevenBlocks(sha, a, b);
    var parts := [Raw(a), Raw(b), Node(None, [Raw(a)]), dag];
    forall i | 0 <= i < |blocks| ensures ValidSize(blocks[i].data) {
      SmallFits(sha, parts[i]);
    }
    Readers.UnevenDepth(a, b);
    UnevenPresent(sha, a, b);
    UnevenLength(a, b);
    PresentUnfolds(sha, Store(pf, Stored(blocks)), sized, blocks, dag);
  }

  function Uneven(a: Bytes, b: Bytes): Dag {
    Node(None, [Node(None, [Raw(a)]), Raw(b)])
  }

  function UnevenBlocks(sha: Sha256, a: Bytes, b: Bytes): seq<Block> {
    MerkleBlocks(sha, [Raw(a), Raw(b), Node(None, [Raw(a)]), Uneven(a, b)])
  }

  lemma UnevenLength(a: Bytes, b: Bytes)
    ensures |Flatten(Uneven(a, b))| == |a| + |b|
  {
    var inner := Node(None, [Raw(a)]);
    Readers.OneRaw(a);
    Readers.OneRaw(b);
    assert Flatten(inner) == [] + a;
    assert [inner, Raw(b)][1..] == [Raw(b)];
    assert FlattenAll([inner, Raw(b)]) == Flatten(inner) + b;
    assert Flatten(Uneven(a, b)) == [] + FlattenAll([inner, Raw(b)]);
  }

  lemma UnevenPresent(sha: Sha256, a: Bytes, b: Bytes)
    ensures Bare(Uneven(a, b)) && Present(sha, UnevenBlocks(sha, a, b), Uneven(a, b))
  {
    hide MerkleBlock;
    var inner, dag, blocks := Node(None, [Raw(a)]), Uneven(a, b), UnevenBlocks(sha, a, b);
    assert blocks[0] == MerkleBlock(sha, Raw(a)) && blocks[1] == MerkleBlock(sha, Raw(b));
    assert blocks[2] == MerkleBlock(sha, inner) && blocks[3] == MerkleBlock(sha, dag);
    assert Present(sha, blocks, Raw(a)) && Present(sha, blocks, Raw(b));
    assert Present(sha, blocks, inner);
    assert Bare(inner);
  }
}
