/**
 The chunker: data is split into pieces, each piece becomes a raw block, and
 levels of link nodes are built on top until one link is left.
 */
module Chunking {
  import opened Basics
  import opened Cids
  import opened Blocks
  import opened IpldModel
  import opened DagCbor
  import opened Dags
  import opened Rabin

  const MIN_CHUNK_SIZE: nat := 1024
  const MAX_CHUNK_SIZE: nat := 1024 * 1024

  datatype Strategy = FixedSize | ByContent

  datatype Config = Config(chunkSize: nat, strategy: Strategy, maxLinks: nat)
  {
    /** What the builder checks: a chunk size within bounds, and nothing about links. */
    predicate Valid() {
      MIN_CHUNK_SIZE <= chunkSize <= MAX_CHUNK_SIZE
    }
  }

  datatype DagNode = DagNode(links: seq<DagLink>, totalSize: nat, data: Option<Bytes>)
  {
    /** `DagNode::to_ipld`, inserting keys in the order of the source. */
    function ToIpld(): Ipld {
      var m := Insert([], KEY_LINKS, List(LinksToIpld(links)));
      var m := Insert(m, KEY_TOTAL_SIZE, Integer(totalSize));
      Map(if data.Some? then Insert(m, KEY_DATA, Binary(data.value)) else m)
    }
  }

  function LinkToIpld(link: DagLink): Ipld {
    var m := Insert([], KEY_CID, Link(link.cid));
    var m := Insert(m, KEY_SIZE, Integer(link.size));
    Map(if link.name.Some? then Insert(m, KEY_NAME, Text(link.name.value)) else m)
  }

  function LinksToIpld(links: seq<DagLink>): (r: seq<Ipld>)
    ensures |r| == |links|
    ensures forall i :: 0 <= i < |r| ==> r[i] == LinkToIpld(links[i])
  {
    if links == [] then [] else [LinkToIpld(links[0])] + LinksToIpld(links[1..])
  }

  function SumSizes(links: seq<DagLink>): nat {
    if links == [] then 0 else links[0].size + SumSizes(links[1..])
  }

  /** `DagNode::intermediate`. */
  function Intermediate(links: seq<DagLink>): DagNode {
    DagNode(links, SumSizes(links), None)
  }

  // --------------------------------------------- blocks as a function of the DAG

  /** The link that addresses a DAG of raw leaves and data-free nodes. */
  function MerkleLink(sha: Sha256, dag: Dag): DagLink {
    match dag
    case Raw(b) => DagLink(CidOf(sha, RAW, b), |b|, None)
    case Node(_, kids) =>
      var node := Intermediate(MerkleLinks(sha, kids));
      DagLink(CidOf(sha, DAG_CBOR, ToDagCbor(node.ToIpld())), node.totalSize, None)
    case Broken(_) => DagLink(CidOf(sha, RAW, []), 0, None)
  }

  function MerkleLinks(sha: Sha256, dags: seq<Dag>): (r: seq<DagLink>)
    ensures |r| == |dags|
  {
    if dags == [] then [] else [MerkleLink(sha, dags[0])] + MerkleLinks(sha, dags[1..])
  }

  /** The bytes of the block at the root of a DAG. */
  function MerkleBytes(sha: Sha256, dag: Dag): Bytes {
    match dag
    case Raw(b) => b
    case Node(_, kids) => ToDagCbor(Intermediate(MerkleLinks(sha, kids)).ToIpld())
    case Broken(_) => []
  }

  function MerkleBlock(sha: Sha256, dag: Dag): Block {
    Block(MerkleLink(sha, dag).cid, MerkleBytes(sha, dag))
  }

  function MerkleBlocks(sha: Sha256, dags: seq<Dag>): (r: seq<Block>)
    ensures |r| == |dags|
    ensures forall i :: 0 <= i < |r| ==> r[i] == MerkleBlock(sha, dags[i])
  {
    if dags == [] then [] else [MerkleBlock(sha, dags[0])] + MerkleBlocks(sha, dags[1..])
  }

  lemma {:induction false} MerkleLinksAt(sha: Sha256, dags: seq<Dag>)
    ensures forall i :: 0 <= i < |dags| ==> MerkleLinks(sha, dags)[i] == MerkleLink(sha, dags[i])
  {
    hide MerkleLink;
    if dags != [] {
      MerkleLinksAt(sha, dags[1..]);
    }
  }

  lemma MerkleLinksSlice(sha: Sha256, dags: seq<Dag>, i: nat, j: nat)
    requires i <= j <= |dags|
    ensures MerkleLinks(sha, dags)[i..j] == MerkleLinks(sha, dags[i..j])
  {
    hide MerkleLinks, MerkleLink;
    MerkleLinksAt(sha, dags);
    MerkleLinksAt(sha, dags[i..j]);
  }

  // --------------------------------------------------------------- splitting

  /** `slice::chunks(n)`. */
  function Groups<T>(s: seq<T>, n: nat): (r: seq<seq<T>>)
    requires n > 0
    ensures s != [] ==> 1 <= |r|
    ensures |r| <= |s|
    ensures n >= 2 && |s| >= 2 ==> |r| < |s|
    decreases |s|
  {
    if s == [] then [] else if |s| <= n then [s] else [s[..n]] + Groups(s[n..], n)
  }

  lemma {:induction false} GroupsConcat<T>(s: seq<T>, n: nat)
    requires n > 0
    ensures Concat(Groups(s, n)) == s
    ensures forall g :: g in Groups(s, n) ==> 1 <= |g| <= n
    decreases |s|
  {
    if s == [] {
    } else if |s| <= n {
      assert Concat([s]) == s + Concat<T>([]);
    } else {
      GroupsConcat(s[n..], n);
      assert s == s[..n] + s[n..];
    }
  }

  function Min(a: nat, b: nat): nat {
    if a <= b then a else b
  }

  /** The `i`-th run of `n` elements, the last one cut short. */
  function Run<T>(s: seq<T>, n: nat, i: nat): seq<T> {
    s[Min(i * n, |s|)..Min((i + 1) * n, |s|)]
  }

  /** How many runs of `n` it takes to cover `len` elements. */
  function RunCount(len: nat, n: nat): nat
    requires n > 0
  {
    (len + n - 1) / n
  }

  lemma RunCountStep(len: nat, n: nat)
    requires n > 0
    ensures RunCount(len + n, n) == RunCount(len, n) + 1
    ensures 0 < len <= n ==> RunCount(len, n) == 1
  {
    var k := len + n - 1;
    assert k == k / n * n + k % n;
    assert k + n == (k / n + 1) * n + k % n;
    DivUnique(k + n, n, k / n + 1, k % n);
    if 0 < len <= n {
      DivUnique(k, n, 1, len - 1);
    }
  }

  lemma RunShift<T>(s: seq<T>, n: nat, i: nat)
    requires n <= |s| && i > 0
    ensures Run(s, n, i) == Run(s[n..], n, i - 1)
  {
    assert i * n == (i - 1) * n + n && (i + 1) * n == i * n + n;
  }

  lemma RunFirst<T>(s: seq<T>, n: nat)
    ensures Run(s, n, 0) == s[..Min(n, |s|)]
  {
    assert 0 * n == 0 && 1 * n == n;
  }

  /** Every group is full, but the last may be short: group `i` starts at element `i * n`. */
  lemma {:induction false} GroupsAre<T>(s: seq<T>, n: nat)
    requires n > 0
    ensures |Groups(s, n)| == RunCount(|s|, n)
    ensures forall i :: 0 <= i < |Groups(s, n)| ==> Groups(s, n)[i] == Run(s, n, i)
    decreases |s|
  {
    hide Run, RunCount;
    RunFirst(s, n);
    if s == [] {
      assert RunCount(0, n) == 0 by { NoRuns(n); }
    } else if |s| <= n {
      RunCountStep(|s|, n);
    } else {
      GroupsAre(s[n..], n);
      RunCountStep(|s| - n, n);
      forall i | 0 <= i < |Groups(s, n)| ensures Groups(s, n)[i] == Run(s, n, i) {
        if i > 0 {
          RunShift(s, n, i);
        }
      }
    }
  }

  lemma NoRuns(n: nat)
    requires n > 0
    ensures RunCount(0, n) == 0
  {
    DivUnique(n - 1, n, 0, n - 1);
  }

  lemma RunWithin<T>(s: seq<T>, n: nat, i: nat)
    requires n > 0 && i < RunCount(|s|, n)
    ensures i * n <= |s|
    ensures Run(s, n, i) == s[i * n..if (i + 1) * n <= |s| then (i + 1) * n else |s|]
  {
    NextMultiple(i, n);
    if i > 0 {
      RunsBefore(|s|, n, i - 1);
    }
  }

  /** `chunks(n)` in numbers. */
  lemma GroupsExactly<T>(s: seq<T>, n: nat)
    requires n > 0
    ensures |Groups(s, n)| == (|s| + n - 1) / n
    ensures forall i :: 0 <= i < |Groups(s, n)| ==>
              i * n <= |s| && Groups(s, n)[i] == s[i * n..if (i + 1) * n <= |s| then (i + 1) * n else |s|]
  {
    GroupsAre(s, n);
    hide Run, Groups;
    forall i | 0 <= i < |Groups(s, n)|
      ensures i * n <= |s| && Groups(s, n)[i] == s[i * n..if (i + 1) * n <= |s| then (i + 1) * n else |s|]
    {
      RunWithin(s, n, i);
    }
  }

  lemma RunLength<T>(s: seq<T>, n: nat, i: nat)
    requires (i + 1) * n <= |s|
    ensures |Run(s, n, i)| == n
  {
    assert (i + 1) * n == i * n + n;
  }

  lemma RunsBefore(len: nat, n: nat, i: nat)
    requires n > 0 && i + 1 < RunCount(len, n)
    ensures (i + 1) * n <= len
  {
    var k := len + n - 1;
    assert k / n * n <= k by { Euclid(k, n); }
    TimesGrows(i + 2, k / n, n);
    NextMultiple(i + 1, n);
  }

  /** The pieces between consecutive boundaries. */
  function SliceAt(data: Bytes, from: nat, bs: seq<nat>): seq<Bytes>
    requires CutsWithin(bs, from, |data|)
    decreases |bs|
  {
    if bs == [] then [] else [data[from..bs[0]]] + SliceAt(data, bs[0], bs[1..])
  }

  predicate CutsWithin(bs: seq<nat>, from: nat, n: nat) {
    from <= n && (bs != [] ==> from <= bs[0] <= n && CutsWithin(bs[1..], bs[0], n))
  }

  lemma {:induction false} SliceAtCovers(data: Bytes, from: nat, bs: seq<nat>, lo: nat, hi: nat)
    requires CutsUp(bs, from, |data|, lo, hi)
    ensures CutsWithin(bs, from, |data|)
    ensures Concat(SliceAt(data, from, bs)) == data[from..]
    ensures forall p :: p in SliceAt(data, from, bs) ==> 1 <= |p| <= hi
    decreases |bs|
  {
    var tail := bs[1..];
    if |bs| > 1 {
      SliceAtCovers(data, bs[0], tail, lo, hi);
      assert data[from..] == data[from..bs[0]] + data[bs[0]..];
    } else {
      assert tail == [] && data[from..bs[0]] == data[from..];
      assert SliceAt(data, bs[0], tail) == [];
      assert Concat([data[from..]]) == data[from..] + Concat<byte>([]);
    }
    assert SliceAt(data, from, bs) == [data[from..bs[0]]] + SliceAt(data, bs[0], tail);
  }

  /** Piece `i` runs from the boundary before it, or from `from`, to its own. */
  ghost predicate SlicedAt(pieces: seq<Bytes>, data: Bytes, from: nat, bs: seq<nat>) {
    |pieces| == |bs|
    && forall i :: 0 <= i < |bs| ==>
         var start := if i == 0 then from else bs[i - 1];
         start <= bs[i] <= |data| && pieces[i] == data[start..bs[i]]
  }

  lemma {:induction false} SliceAtAre(data: Bytes, from: nat, bs: seq<nat>)
    requires CutsWithin(bs, from, |data|)
    ensures SlicedAt(SliceAt(data, from, bs), data, from, bs)
    decreases |bs|
  {
    if bs != [] {
      var rest := SliceAt(data, bs[0], bs[1..]);
      SliceAtAre(data, bs[0], bs[1..]);
      var pieces := SliceAt(data, from, bs);
      forall i | 0 <= i < |bs|
        ensures var start := if i == 0 then from else bs[i - 1];
                start <= bs[i] <= |data| && pieces[i] == data[start..bs[i]]
      {
        if i > 0 {
          assert pieces[i] == rest[i - 1] && bs[i] == bs[1..][i - 1];
          assert i > 1 ==> bs[i - 1] == bs[1..][i - 2];
        }
      }
    }
  }

  /** The chunks `Chunker::chunk` makes of non-empty data. */
  function Pieces(config: Config, data: Bytes): seq<Bytes>
    requires config.Valid() && data != []
  {
    if |data| <= config.chunkSize then [data]
    else match config.strategy
      case FixedSize => Groups(data, config.chunkSize)
      case ByContent =>
        BoundariesPartition(config.chunkSize, data);
        var bs := Boundaries(NewChunker(config.chunkSize), data);
        SliceAtCovers(data, 0, bs, config.chunkSize / 4, config.chunkSize * 4);
        SliceAt(data, 0, bs)
  }

  lemma PiecesCover(config: Config, data: Bytes)
    requires config.Valid() && data != []
    ensures Concat(Pieces(config, data)) == data
    ensures forall p :: p in Pieces(config, data) ==> 1 <= |p| <= config.chunkSize * 4
    ensures config.strategy == FixedSize ==> forall p :: p in Pieces(config, data) ==> |p| <= config.chunkSize
    ensures Pieces(config, data) != []
  {
    if |data| <= config.chunkSize {
      assert Concat([data]) == data + Concat<byte>([]);
    } else if config.strategy == FixedSize {
      GroupsConcat(data, config.chunkSize);
    } else {
      BoundariesPartition(config.chunkSize, data);
      var bs := Boundaries(NewChunker(config.chunkSize), data);
      SliceAtCovers(data, 0, bs, config.chunkSize / 4, config.chunkSize * 4);
      assert data[0..] == data;
    }
  }

  /** Fixed-size pieces are the consecutive runs of the chunk size. */
  lemma FixedPieces(config: Config, data: Bytes)
    requires config.Valid() && data != [] && config.strategy == FixedSize
    ensures |Pieces(config, data)| == RunCount(|data|, config.chunkSize)
    ensures forall i :: 0 <= i < |Pieces(config, data)| ==> Pieces(config, data)[i] == Run(data, config.chunkSize, i)
  {
    hide Run, RunCount;
    GroupsAre(data, config.chunkSize);
    if |data| <= config.chunkSize {
      RunCountStep(|data|, config.chunkSize);
      RunFirst(data, config.chunkSize);
    }
  }

  /** Content-defined pieces lie between consecutive boundaries, if the data is longer than one chunk. */
  lemma ContentPieces(config: Config, data: Bytes)
    requires config.Valid() && data != [] && config.strategy == ByContent
    ensures |data| <= config.chunkSize ==> Pieces(config, data) == [data]
    ensures |data| > config.chunkSize ==>
              SlicedAt(Pieces(config, data), data, 0, Boundaries(NewChunker(config.chunkSize), data))
  {
    hide Boundaries, NewChunker, SliceAt, CutsWithin, Pieces, SlicedAt;
    if |data| > config.chunkSize {
      PiecesByStrategy(config, data);
      SliceAtAre(data, 0, Boundaries(NewChunker(config.chunkSize), data));
    } else {
      ShortPiece(config, data);
    }
  }

  lemma ShortPiece(config: Config, data: Bytes)
    requires config.Valid() && data != [] && |data| <= config.chunkSize
    ensures Pieces(config, data) == [data]
  {
  }

  // --------------------------------------------------------------- the tree

  function Leaves(pieces: seq<Bytes>): (r: seq<Dag>)
    ensures |r| == |pieces|
    ensures forall i :: 0 <= i < |r| ==> r[i] == Raw(pieces[i])
  {
    if pieces == [] then [] else [Raw(pieces[0])] + Leaves(pieces[1..])
  }

  function Parents(groups: seq<seq<Dag>>): (r: seq<Dag>)
    ensures |r| == |groups|
    ensures forall i :: 0 <= i < |r| ==> r[i] == Node(None, groups[i])
  {
    if groups == [] then [] else [Node(None, groups[0])] + Parents(groups[1..])
  }

  /** The next level up. */
  function Level(forest: seq<Dag>, maxLinks: nat): (r: seq<Dag>)
    requires maxLinks >= 2
    ensures |r| <= |forest| && (|forest| >= 2 ==> 1 <= |r| < |forest|)
  {
    Parents(Groups(forest, maxLinks))
  }

  /** A node takes the next `maxLinks` of the level below, the last node what is left. */
  lemma LevelIs(forest: seq<Dag>, maxLinks: nat)
    requires maxLinks >= 2
    ensures |Level(forest, maxLinks)| == (|forest| + maxLinks - 1) / maxLinks
    ensures forall i :: 0 <= i < |Level(forest, maxLinks)| ==>
              i * maxLinks <= |forest|
              && Level(forest, maxLinks)[i]
                 == Node(None, forest[i * maxLinks..if (i + 1) * maxLinks <= |forest| then (i + 1) * maxLinks else |forest|])
    ensures forall i :: 0 <= i < |Level(forest, maxLinks)| - 1 ==>
              Level(forest, maxLinks)[i].Node? && |Level(forest, maxLinks)[i].kids| == maxLinks
  {
    hide Groups, Run;
    GroupsExactly(forest, maxLinks);
    GroupsAre(forest, maxLinks);
    forall i | 0 <= i < |Level(forest, maxLinks)| - 1 ensures |Run(forest, maxLinks, i)| == maxLinks {
      RunsBefore(|forest|, maxLinks, i);
      RunLength(forest, maxLinks, i);
    }
  }

  /** Levels lead to a single link: there is one to begin with, or they shrink. */
  predicate Ends(links: nat, maxLinks: nat) {
    links == 1 || (links > 1 && maxLinks >= 2)
  }

  /** The tree that repeated levels end in. */
  function Grow(forest: seq<Dag>, maxLinks: nat): Dag
    requires Ends(|forest|, maxLinks)
    decreases |forest|
  {
    if |forest| == 1 then forest[0] else Grow(Level(forest, maxLinks), maxLinks)
  }

  /** All blocks from this level up, in the order they are emitted. */
  function BlocksUp(sha: Sha256, forest: seq<Dag>, maxLinks: nat): seq<Block>
    requires Ends(|forest|, maxLinks)
    decreases |forest|
  {
    MerkleBlocks(sha, forest)
    + if |forest| == 1 then [] else BlocksUp(sha, Level(forest, maxLinks), maxLinks)
  }

  predicate BlocksFit(blocks: seq<Block>) {
    forall i :: 0 <= i < |blocks| ==> ValidSize(blocks[i].data)
  }

  datatype ChunkedFile = ChunkedFile(root: Cid, blocks: seq<Block>, totalSize: nat, chunkCount: nat)

  /** The level loop comes to an end on this data. */
  predicate Builds(config: Config, data: Bytes)
    requires config.Valid() && data != []
  {
    Ends(|Pieces(config, data)|, config.maxLinks)
  }

  /** What `Chunker::chunk` returns when every block it needs is of legal size. */
  function Chunked(sha: Sha256, config: Config, data: Bytes): ChunkedFile
    requires config.Valid() && data != [] && Builds(config, data)
  {
    PiecesCover(config, data);
    var leaves := Leaves(Pieces(config, data));
    ChunkedFile(MerkleLink(sha, Grow(leaves, config.maxLinks)).cid,
                BlocksUp(sha, leaves, config.maxLinks), |data|, |leaves|)
  }

  /** The file starts with one raw block for each run of the chunk size, and ends with the root. */
  ghost predicate FixedLayout(sha: Sha256, file: ChunkedFile, chunkSize: nat, data: Bytes)
    requires chunkSize > 0
  {
    file.totalSize == |data| && file.chunkCount == RunCount(|data|, chunkSize) <= |file.blocks|
    && file.blocks != [] && file.blocks[|file.blocks| - 1].cid == file.root
    && forall i :: 0 <= i < file.chunkCount ==>
         file.blocks[i] == Block(CidOf(sha, RAW, Run(data, chunkSize, i)), Run(data, chunkSize, i))
  }

  lemma FixedChunks(sha: Sha256, config: Config, data: Bytes)
    requires config.Valid() && data != [] && config.strategy == FixedSize && Builds(config, data)
    ensures FixedLayout(sha, Chunked(sha, config, data), config.chunkSize, data)
  {
    hide Run, RunCount, MerkleBytes, CidOf;
    FixedPieces(config, data);
    PiecesCover(config, data);
    var pieces, file := Pieces(config, data), Chunked(sha, config, data);
    hide Pieces;
    var leaves := Leaves(pieces);
    RootIsLast(sha, leaves, config.maxLinks);
    forall i | 0 <= i < |pieces| ensures file.blocks[i] == Block(CidOf(sha, RAW, pieces[i]), pieces[i]) {
      assert file.blocks[i] == MerkleBlocks(sha, leaves)[i] == MerkleBlock(sha, Raw(pieces[i]));
      LeafBlock(sha, pieces[i]);
    }
  }

  /** A fixed-size file in numbers: how many pieces, and the block of the one from `i * c` on. */
  lemma FixedFile(sha: Sha256, config: Config, data: Bytes, c: nat, i: nat, from: nat, to: nat)
    returns (file: ChunkedFile)
    requires from < to <= |data| && c == config.chunkSize
    requires from == i * c && to == if from + c <= |data| then from + c else |data|
    requires config.Valid() && config.strategy == FixedSize && Builds(config, data)
    ensures file == Chunked(sha, config, data)
    ensures file.totalSize == |data| && file.chunkCount == (|data| + c - 1) / c && i < file.chunkCount <= |file.blocks|
    ensures file.blocks[|file.blocks| - 1].cid == file.root
    ensures file.blocks[i] == Block(V1(0x55, 0x12, sha(data[from..to])), data[from..to])
  {
    hide Chunked, Run;
    file := Chunked(sha, config, data);
    FixedChunks(sha, config, data);
    StartsWithin(|data|, c, i);
    NextMultiple(i, c);
    RunWithin(data, c, i);
  }

  lemma StartsWithin(len: nat, n: nat, i: nat)
    requires n > 0 && i * n < len
    ensures i < RunCount(len, n)
  {
    var k := len + n - 1;
    Euclid(k, n);
    if k / n <= i {
      TimesGrows(k / n, i, n);
    }
  }

  /**
   `Chunker::chunk`, with the tree it builds as a function of the data. Several
   pieces of legal size and one link a node would keep it going for ever; with
   none, `chunks(0)` panics.
   */
  method Chunk(sha: Sha256, config: Config, data: Bytes) returns (r: Result<ChunkedFile>)
    requires config.Valid()
    requires data != [] && config.maxLinks == 1 && BlocksFit(MerkleBlocks(sha, Leaves(Pieces(config, data)))) ==>
               |Pieces(config, data)| == 1
    ensures data == [] ==> r == Err(InvalidInput)
    ensures data != [] && Builds(config, data) ==> (r.Ok? <==> BlocksFit(Chunked(sha, config, data).blocks))
    ensures data != [] && Builds(config, data) && r.Ok? ==> r.value == Chunked(sha, config, data)
    ensures r.Ok? && config.strategy == FixedSize ==> FixedLayout(sha, r.value, config.chunkSize, data)
    ensures data != [] && !Builds(config, data) ==>
              r == Err(if BlocksFit(MerkleBlocks(sha, Leaves(Pieces(config, data)))) then Panic else InvalidData)
  {
    hide MerkleLink, MerkleBlocks, Pieces, BlocksUp, Grow, Leaves, NewChunker, Boundaries, SliceAt, CutsWithin, Groups, FixedLayout;
    if data == [] {
      return Err(InvalidInput);
    }
    PiecesCover(config, data);
    if Builds(config, data) && config.strategy == FixedSize {
      FixedChunks(sha, config, data);
    }
    if |data| <= config.chunkSize {
      var block := NewBlock(sha, data);
      SinglePiece(sha, config, data);
      return Ok(ChunkedFile(block.value.cid, [block.value], |data|, 1));
    }
    var pieces: seq<Bytes>;
    if config.strategy == FixedSize {
      pieces := Groups(data, config.chunkSize);
    } else {
      pieces := SplitAtBoundaries(config, data);
    }
    PiecesByStrategy(config, data);
    var leafBlocks, leafLinks, ok := LeafBlocks(sha, pieces);
    if Builds(config, data) {
      BlocksUpSplits(sha, Leaves(pieces), config.maxLinks, []);
    }
    if ok.Err? {
      return Err(ok.error);
    }
    if |leafLinks| > 1 && config.maxLinks == 0 {
      return Err(Panic);
    }
    var allBlocks, root, fits := BuildTree(sha, config.maxLinks, leafBlocks, leafLinks, Leaves(pieces));
    if fits.Err? {
      return Err(fits.error);
    }
    r := Ok(ChunkedFile(root, allBlocks, |data|, |pieces|));
  }

  /** The level loop. */
  method BuildTree(sha: Sha256, maxLinks: nat, leafBlocks: seq<Block>, leafLinks: seq<DagLink>, ghost leaves: seq<Dag>)
    returns (allBlocks: seq<Block>, root: Cid, ok: Result<()>)
    requires Ends(|leaves|, maxLinks)
    requires leafBlocks == MerkleBlocks(sha, leaves) && leafLinks == MerkleLinks(sha, leaves)
    requires BlocksFit(leafBlocks)
    ensures ok.Ok? <==> BlocksFit(BlocksUp(sha, leaves, maxLinks))
    ensures ok.Ok? ==> allBlocks == BlocksUp(sha, leaves, maxLinks)
                       && root == MerkleLink(sha, Grow(leaves, maxLinks)).cid
  {
    hide MerkleLinks, MerkleLink, MerkleBlocks, BlocksUp, Level, ValidSize;
    allBlocks := leafBlocks;
    var currentLinks := leafLinks;
    ghost var forest := leaves;
    MerkleLinksAt(sha, leaves);
    root := currentLinks[0].cid;
    BlocksUpSplits(sha, leaves, maxLinks, []);
    assert [] + BlocksUp(sha, leaves, maxLinks) == BlocksUp(sha, leaves, maxLinks);
    assert [] + leafBlocks == leafBlocks;
    while |currentLinks| > 1
      invariant Ends(|forest|, maxLinks)
      invariant currentLinks == MerkleLinks(sha, forest)
      invariant Grow(forest, maxLinks) == Grow(leaves, maxLinks)
      invariant BlocksFit(allBlocks)
      invariant BlocksUp(sha, leaves, maxLinks) == allBlocks + BlocksAbove(sha, forest, maxLinks)
      decreases |currentLinks|
    {
      var nextBlocks, nextLinks, fits := BuildLevel(sha, currentLinks, maxLinks, forest);
      BlocksUpSplits(sha, Level(forest, maxLinks), maxLinks, allBlocks);
      forest := Level(forest, maxLinks);
      if fits.Err? {
        return allBlocks, root, Err(fits.error);
      }
      allBlocks := allBlocks + nextBlocks;
      currentLinks := nextLinks;
    }
    MerkleLinksAt(sha, forest);
    assert allBlocks + [] == allBlocks;
    root := currentLinks[0].cid;
    ok := Ok(());
  }

  /** The blocks of the levels above this one. */
  ghost function BlocksAbove(sha: Sha256, forest: seq<Dag>, maxLinks: nat): seq<Block>
    requires Ends(|forest|, maxLinks)
  {
    if |forest| == 1 then [] else BlocksUp(sha, Level(forest, maxLinks), maxLinks)
  }

  lemma SinglePiece(sha: Sha256, config: Config, data: Bytes)
    requires config.Valid() && data != [] && |data| <= config.chunkSize
    ensures Builds(config, data)
    ensures Chunked(sha, config, data)
         == ChunkedFile(CidOf(sha, RAW, data), [Block(CidOf(sha, RAW, data), data)], |data|, 1)
  {
    var leaves := Leaves(Pieces(config, data));
    assert leaves == [Raw(data)];
    assert BlocksUp(sha, leaves, config.maxLinks) == MerkleBlocks(sha, leaves) + [];
  }

  lemma PiecesByStrategy(config: Config, data: Bytes)
    requires config.Valid() && |data| > config.chunkSize
    ensures config.strategy == FixedSize ==> Pieces(config, data) == Groups(data, config.chunkSize)
    ensures config.strategy == ByContent ==>
              var bs := Boundaries(NewChunker(config.chunkSize), data);
              CutsWithin(bs, 0, |data|) && Pieces(config, data) == SliceAt(data, 0, bs)
  {
    hide Groups, SliceAt, CutsWithin, Boundaries;
    if config.strategy == ByContent {
      BoundariesPartition(config.chunkSize, data);
      SliceAtCovers(data, 0, Boundaries(NewChunker(config.chunkSize), data), config.chunkSize / 4, config.chunkSize * 4);
    }
  }

  lemma BlocksUpSplits(sha: Sha256, forest: seq<Dag>, maxLinks: nat, before: seq<Block>)
    requires Ends(|forest|, maxLinks)
    ensures before + BlocksUp(sha, forest, maxLinks)
         == before + MerkleBlocks(sha, forest) + BlocksAbove(sha, forest, maxLinks)
    ensures !BlocksFit(MerkleBlocks(sha, forest)) ==> !BlocksFit(before + BlocksUp(sha, forest, maxLinks))
  {
    hide Level, MerkleBlock;
    var blocks, all := MerkleBlocks(sha, forest), before + BlocksUp(sha, forest, maxLinks);
    if !BlocksFit(blocks) {
      var i :| 0 <= i < |blocks| && !ValidSize(blocks[i].data);
      assert all[|before| + i] == blocks[i];
    }
  }

  method SplitAtBoundaries(config: Config, data: Bytes) returns (pieces: seq<Bytes>)
    requires config.Valid() && |data| > config.chunkSize && config.strategy == ByContent
    ensures pieces == Pieces(config, data)
  {
    hide NewChunker, Boundaries, Pieces;
    PiecesByStrategy(config, data);
    var boundaries := FindBoundaries(NewChunker(config.chunkSize), data);
    pieces := [];
    var start := 0;
    assert boundaries[0..] == boundaries;
    for k := 0 to |boundaries|
      invariant CutsWithin(boundaries[k..], start, |data|)
      invariant pieces + SliceAt(data, start, boundaries[k..]) == SliceAt(data, 0, boundaries)
    {
      var end := boundaries[k];
      assert boundaries[k..][1..] == boundaries[k + 1..];
      pieces := pieces + [data[start..end]];
      start := end;
    }
  }

  lemma LeafBlock(sha: Sha256, b: Bytes)
    ensures MerkleBlock(sha, Raw(b)) == Block(CidOf(sha, RAW, b), b)
    ensures MerkleLink(sha, Raw(b)) == DagLink(CidOf(sha, RAW, b), |b|, None)
  {
  }

  lemma NodeBlock(sha: Sha256, kids: seq<Dag>)
    ensures var node := Intermediate(MerkleLinks(sha, kids));
            var bytes := ToDagCbor(node.ToIpld());
            MerkleBlock(sha, Node(None, kids)) == Block(CidOf(sha, DAG_CBOR, bytes), bytes)
            && MerkleLink(sha, Node(None, kids)) == DagLink(CidOf(sha, DAG_CBOR, bytes), node.totalSize, None)
  {
    hide ToDagCbor, DagNode.ToIpld, CidOf, Intermediate;
  }

  lemma OneLeafBlocks(sha: Sha256, b: Bytes, maxLinks: nat)
    ensures BlocksUp(sha, Leaves([b]), maxLinks) == [MerkleBlock(sha, Raw(b))]
  {
    hide MerkleBlock;
    assert Leaves([b]) == [Raw(b)];
  }

  /** Above several leaves there is a block of a link node. */
  lemma SomeNodeBlock(sha: Sha256, forest: seq<Dag>, maxLinks: nat) returns (i: nat, bytes: Bytes)
    requires |forest| > 1 && maxLinks >= 2
    ensures i < |BlocksUp(sha, forest, maxLinks)|
    ensures BlocksUp(sha, forest, maxLinks)[i] == Block(CidOf(sha, DAG_CBOR, bytes), bytes)
  {
    hide MerkleBlock, CidOf, Groups;
    var up := Level(forest, maxLinks);
    i := |forest|;
    assert BlocksUp(sha, forest, maxLinks) == MerkleBlocks(sha, forest) + BlocksUp(sha, up, maxLinks);
    assert BlocksUp(sha, up, maxLinks)[0] == MerkleBlock(sha, up[0]);
    NodeBlock(sha, up[0].kids);
    bytes := MerkleBlock(sha, up[0]).data;
  }

  method LeafBlocks(sha: Sha256, pieces: seq<Bytes>)
    returns (blocks: seq<Block>, links: seq<DagLink>, ok: Result<()>)
    ensures ok.Ok? <==> BlocksFit(MerkleBlocks(sha, Leaves(pieces)))
    ensures ok.Err? ==> ok.error == InvalidData
    ensures ok.Ok? ==> blocks == MerkleBlocks(sha, Leaves(pieces)) && links == MerkleLinks(sha, Leaves(pieces))
  {
    hide MerkleLinks, MerkleLink, MerkleBlock, MerkleBlocks, Leaves, CidOf;
    blocks, links := [], [];
    ghost var all := Leaves(pieces);
    MerkleLinksAt(sha, all);
    for k := 0 to |pieces|
      invariant blocks == MerkleBlocks(sha, all)[..k]
      invariant links == MerkleLinks(sha, all)[..k]
      invariant BlocksFit(blocks)
    {
      LeafBlock(sha, pieces[k]);
      var block := NewBlock(sha, pieces[k]);
      assert MerkleBlocks(sha, all)[k] == MerkleBlock(sha, Raw(pieces[k]));
      if block.Err? {
        return blocks, links, Err(block.error);
      }
      blocks := blocks + [block.value];
      links := links + [DagLink(block.value.cid, |pieces[k]|, None)];
    }
    ok := Ok(());
  }

  /** One round of the level loop: `current_links.chunks(max_links)`, a node and a block for each. */
  method BuildLevel(sha: Sha256, currentLinks: seq<DagLink>, maxLinks: nat, ghost forest: seq<Dag>)
    returns (blocks: seq<Block>, links: seq<DagLink>, ok: Result<()>)
    requires maxLinks >= 2 && currentLinks == MerkleLinks(sha, forest)
    ensures ok.Ok? <==> BlocksFit(MerkleBlocks(sha, Level(forest, maxLinks)))
    ensures ok.Ok? ==> blocks == MerkleBlocks(sha, Level(forest, maxLinks))
                       && links == MerkleLinks(sha, Level(forest, maxLinks))
  {
    hide MerkleLinks, MerkleLink, MerkleBlock, MerkleBlocks, Groups, Intermediate, DagNode.ToIpld, CidOf, ToDagCbor, Parents;
    blocks, links := [], [];
    var linkChunks := Groups(currentLinks, maxLinks);
    ghost var groups := Groups(forest, maxLinks);
    GroupsOfLinks(sha, forest, maxLinks);
    ghost var all := Level(forest, maxLinks);
    MerkleLinksAt(sha, all);
    for k := 0 to |linkChunks|
      invariant blocks == MerkleBlocks(sha, all)[..k]
      invariant links == MerkleLinks(sha, all)[..k]
      invariant BlocksFit(blocks)
    {
      NodeBlock(sha, groups[k]);
      assert all[k] == Node(None, groups[k]) && linkChunks[k] == MerkleLinks(sha, groups[k]);
      var node := Intermediate(linkChunks[k]);
      var nodeBytes := ToDagCbor(node.ToIpld());
      assert MerkleBlocks(sha, all)[k] == MerkleBlock(sha, all[k]);
      if |nodeBytes| > MAX_BLOCK_SIZE {
        return blocks, links, Err(Internal);
      }
      var block := BuildBlock(sha, DAG_CBOR, nodeBytes);
      if block.Err? {
        return blocks, links, Err(block.error);
      }
      blocks := blocks + [block.value];
      links := links + [DagLink(block.value.cid, node.totalSize, None)];
    }
    ok := Ok(());
  }

  lemma {:induction false} GroupsOfLinks(sha: Sha256, forest: seq<Dag>, n: nat)
    requires n > 0
    ensures var a, b := Groups(MerkleLinks(sha, forest), n), Groups(forest, n);
            |a| == |b| && forall i :: 0 <= i < |b| ==> a[i] == MerkleLinks(sha, b[i])
    decreases |forest|
  {
    hide MerkleLinks;
    if |forest| > n {
      MerkleLinksSlice(sha, forest, 0, n);
      MerkleLinksSlice(sha, forest, n, |forest|);
      assert forest[n..] == forest[n..|forest|] && forest[..n] == forest[0..n];
      var links := MerkleLinks(sha, forest);
      assert links[n..] == links[n..|links|] && links[..n] == links[0..n];
      GroupsOfLinks(sha, forest[n..], n);
    }
  }

  // ------------------------------------------------------- facts about the tree

  lemma {:induction false} FlattenLeaves(pieces: seq<Bytes>)
    ensures FlattenAll(Leaves(pieces)) == Concat(pieces)
  {
    if pieces != [] {
      FlattenLeaves(pieces[1..]);
    }
  }

  lemma {:induction false} FlattenParents(groups: seq<seq<Dag>>)
    ensures FlattenAll(Parents(groups)) == FlattenAll(Concat(groups))
  {
    if groups != [] {
      FlattenParents(groups[1..]);
      FlattenAppend(groups[0], Concat(groups[1..]));
      assert Flatten(Node(None, groups[0])) == FlattenAll(groups[0]);
    }
  }

  /** A level keeps the data in order and puts every leaf one link further down. */
  lemma LevelKeeps(forest: seq<Dag>, maxLinks: nat, h: nat)
    requires maxLinks >= 2 && AllUniform(forest, h)
    ensures FlattenAll(Level(forest, maxLinks)) == FlattenAll(forest)
    ensures AllUniform(Level(forest, maxLinks), h + 1)
  {
    hide Groups, Uniform;
    var groups := Groups(forest, maxLinks);
    GroupsConcat(forest, maxLinks);
    FlattenParents(groups);
    GroupElements(forest, maxLinks);
    forall i | 0 <= i < |groups| ensures Uniform(Level(forest, maxLinks)[i], h + 1) {
      forall j | 0 <= j < |groups[i]| ensures Uniform(groups[i][j], h) {
        assert groups[i] in groups && groups[i][j] in groups[i];
      }
      UniformNode(groups[i], h);
    }
  }

  lemma UniformNode(kids: seq<Dag>, h: nat)
    requires AllUniform(kids, h)
    ensures Uniform(Node(None, kids), h + 1)
  {
  }

  lemma {:induction false} GroupElements<T>(s: seq<T>, n: nat)
    requires n > 0
    ensures forall g, x :: g in Groups(s, n) && x in g ==> x in s
    decreases |s|
  {
    if |s| > n {
      GroupElements(s[n..], n);
    }
  }

  lemma {:induction false} GrowKeeps(forest: seq<Dag>, maxLinks: nat, h: nat) returns (height: nat)
    requires Ends(|forest|, maxLinks) && AllUniform(forest, h)
    ensures Uniform(Grow(forest, maxLinks), height)
    ensures Flatten(Grow(forest, maxLinks)) == FlattenAll(forest)
    decreases |forest|
  {
    hide Level;
    if |forest| == 1 {
      height := h;
      assert FlattenAll(forest) == Flatten(forest[0]) + FlattenAll([]);
    } else {
      LevelKeeps(forest, maxLinks, h);
      height := GrowKeeps(Level(forest, maxLinks), maxLinks, h + 1);
    }
  }

  /** The tree over the data: all leaves at one depth, and their bytes in order are the data. */
  lemma TreeOverData(config: Config, data: Bytes) returns (dag: Dag, height: nat)
    requires config.Valid() && data != [] && Builds(config, data)
    ensures dag == Grow(Leaves(Pieces(config, data)), config.maxLinks)
    ensures Uniform(dag, height) && Flatten(dag) == data
  {
    hide Pieces;
    PiecesCover(config, data);
    var leaves := Leaves(Pieces(config, data));
    dag := Grow(leaves, config.maxLinks);
    height := GrowKeeps(leaves, config.maxLinks, 0);
    FlattenLeaves(Pieces(config, data));
  }

  /** Link sizes count the bytes below, at every node of every DAG the chunker builds. */
  lemma {:induction false} SizeIsLength(sha: Sha256, dag: Dag)
    requires Bare(dag)
    ensures MerkleLink(sha, dag).size == |Flatten(dag)|
    decreases dag, 0
  {
    hide CidOf, ToDagCbor, DagNode.ToIpld;
    if dag.Node? {
      SizesAreLengths(sha, dag.kids);
    }
  }

  lemma {:induction false} SizesAreLengths(sha: Sha256, dags: seq<Dag>)
    requires forall i :: 0 <= i < |dags| ==> Bare(dags[i])
    ensures SumSizes(MerkleLinks(sha, dags)) == |FlattenAll(dags)|
    decreases dags, 1
  {
    hide MerkleLink, Bare;
    if dags != [] {
      SizeIsLength(sha, dags[0]);
      SizesAreLengths(sha, dags[1..]);
    }
  }

  /** The root's total size is the length of the data, and each level's link sizes add up to it. */
  lemma RootSizeIsDataLength(sha: Sha256, config: Config, data: Bytes)
    requires config.Valid() && data != [] && Builds(config, data)
    ensures MerkleLink(sha, Grow(Leaves(Pieces(config, data)), config.maxLinks)).size == |data|
  {
    var dag, height := TreeOverData(config, data);
    UniformIsBare(dag, height);
    SizeIsLength(sha, dag);
  }

  lemma AllBare(dags: seq<Dag>, h: nat)
    requires AllUniform(dags, h)
    ensures forall i :: 0 <= i < |dags| ==> Bare(dags[i])
  {
    forall i | 0 <= i < |dags| ensures Bare(dags[i]) {
      UniformIsBare(dags[i], h);
    }
  }

  lemma LevelSizesSum(sha: Sha256, forest: seq<Dag>, maxLinks: nat, h: nat)
    requires maxLinks >= 2 && AllUniform(forest, h)
    ensures SumSizes(MerkleLinks(sha, Level(forest, maxLinks))) == SumSizes(MerkleLinks(sha, forest))
  {
    hide Level, MerkleLinks;
    LevelKeeps(forest, maxLinks, h);
    AllBare(forest, h);
    AllBare(Level(forest, maxLinks), h + 1);
    SizesAreLengths(sha, forest);
    SizesAreLengths(sha, Level(forest, maxLinks));
  }

  /** With one link per node a level is as long as the one below it. */
  lemma {:induction false} OneLinkNeverShrinks<T>(s: seq<T>)
    ensures |Groups(s, 1)| == |s|
    decreases |s|
  {
    if |s| > 1 {
      OneLinkNeverShrinks(s[1..]);
    }
  }

  /** The forest after `k` levels. */
  function Levels(forest: seq<Dag>, maxLinks: nat, k: nat): seq<Dag>
    requires maxLinks > 0
    decreases k
  {
    if k == 0 then forest else Levels(Parents(Groups(forest, maxLinks)), maxLinks, k - 1)
  }

  /** So several links stay several however many levels are built: the loop would never end. */
  lemma {:induction false} OneLinkNeverEnds(forest: seq<Dag>, k: nat)
    ensures |Levels(forest, 1, k)| == |forest|
    decreases k
  {
    if k > 0 {
      OneLinkNeverShrinks(forest);
      OneLinkNeverEnds(Parents(Groups(forest, 1)), k - 1);
    }
  }

  /** With two or more, one link is reached. */
  lemma {:induction false} LevelsEnd(forest: seq<Dag>, maxLinks: nat) returns (k: nat)
    requires maxLinks >= 2 && forest != []
    ensures Levels(forest, maxLinks, k) == [Grow(forest, maxLinks)]
    decreases |forest|
  {
    if |forest| == 1 {
      k := 0;
      assert forest == [forest[0]];
    } else {
      k := LevelsEnd(Level(forest, maxLinks), maxLinks);
      k := k + 1;
    }
  }

  /** All blocks of the first `k` levels. */
  function LevelOffset(forest: seq<Dag>, maxLinks: nat, k: nat): nat
    requires maxLinks > 0
    decreases k
  {
    if k == 0 then 0 else |forest| + LevelOffset(Parents(Groups(forest, maxLinks)), maxLinks, k - 1)
  }

  /** Blocks come out level by level from the leaves up, each level in order, the root last. */
  lemma {:induction false} EmissionOrder(sha: Sha256, forest: seq<Dag>, maxLinks: nat, k: nat, i: nat)
    requires maxLinks >= 2 && forest != [] && i < |Levels(forest, maxLinks, k)|
    requires k > 0 ==> |Levels(forest, maxLinks, k - 1)| > 1
    ensures LevelOffset(forest, maxLinks, k) + i < |BlocksUp(sha, forest, maxLinks)|
    ensures BlocksUp(sha, forest, maxLinks)[LevelOffset(forest, maxLinks, k) + i]
         == MerkleBlock(sha, Levels(forest, maxLinks, k)[i])
    decreases k
  {
    hide MerkleBlock, Groups;
    if k > 0 {
      LevelsShrink(forest, maxLinks, k - 1);
      assert |forest| > 1;
      EmissionOrder(sha, Level(forest, maxLinks), maxLinks, k - 1, i);
    }
  }

  /** Levels never grow. */
  lemma {:induction false} LevelsShrink(forest: seq<Dag>, maxLinks: nat, k: nat)
    requires maxLinks > 0
    ensures |Levels(forest, maxLinks, k)| <= |forest|
    decreases k
  {
    if k > 0 {
      LevelsShrink(Parents(Groups(forest, maxLinks)), maxLinks, k - 1);
    }
  }

  lemma {:induction false} RootIsLast(sha: Sha256, forest: seq<Dag>, maxLinks: nat)
    requires Ends(|forest|, maxLinks)
    ensures var blocks := BlocksUp(sha, forest, maxLinks);
            blocks != [] && blocks[|blocks| - 1] == MerkleBlock(sha, Grow(forest, maxLinks))
    decreases |forest|
  {
    hide MerkleBlock, Level;
    if |forest| > 1 {
      RootIsLast(sha, Level(forest, maxLinks), maxLinks);
    }
  }
}
