# ipfrs-core: content addressing, verified

A Dafny model of the content-addressing core of `ipfrs`: files are cut into
chunks, chunks become blocks named by the hash of their bytes, link nodes are
encoded as DAG-CBOR, and readers, archives, caches and proofs work on those
blocks. `dafny verify dfyconfig.toml` checks the whole project.

| module | what it models |
|---|---|
| `Basics`, `Cids`, `Blocks` | bytes, results, powers of two; CIDs and their self-delimiting byte form; blocks and their size limit |
| `IpldModel`, `DagCbor`, `DagCborCodec` | IPLD values; the codec as functions with the round-trip theorems; the buffer-writing encoder and the reader-driven decoder proved against them |
| `Rabin`, `RabinExamples`, `Chunking` | the rolling hash and its boundaries; the rule they follow, with worked inputs; the chunker and its tree |
| `Dags`, `Readers`, `ReadingOrder`, `BrokenReads`, `StoreReaders`, `RoundTrip` | what a CID unfolds to in a store; both readers; the order each reads in; what they do with missing blocks; when they agree on a store; chunk, store and read back |
| `WireFormats`, `StoredFormats` | which bytes are written, for CBOR, CIDs, nodes and archives; which are refused |
| `Fnv`, `MerkleBatch`, `MerkleBatchTheorems` | the batch prover and verifier; completeness and binding |
| `Manifests`, `TreeVectors` | the flattened manifest tree, its proofs, and file completeness; worked values of both trees |
| `CarArchive` | the archive writer and reader |
| `BlockCaches`, `CacheRecency`, `CacheRoom` | the cache as a state machine, over whole runs; when it evicts the least recently used block; that it evicts no more than it takes |
| `Levenshtein` | the shell's edit distance |
| `Traversal`, `WalkOrders` | walks over IPLD trees; their orders by positions |

Loops and objects of the source are Dafny methods and classes, each proved
equal to a specification function; the theorems are about those functions, and
worked values in plain numbers tie them to the formats of the library.

Modelling choices:

- SHA-256, the compressors, the widening of short floats and the size of an
  `Ipld` in memory are parameters.
  Nothing is assumed of the hash: "no two different stored blocks share a CID"
  is a premise on the blocks of one run, and binding theorems return a
  collision. Of the compressors the archive theorems assume that each undoes
  itself and that the Zstd decoder refuses LZ4 output.
- Text is a byte sequence checked for UTF-8; a `BTreeMap` is a sequence sorted
  by key, a `BTreeSet` an increasing sequence; floats are 64-bit patterns. The
  visiting order of a `HashMap` is arbitrary.
- A representable value has UTF-8 text, sorted map keys and strings and lists
  that can be allocated: what a value of the source's types has by construction.
- A panic is an outcome of its own (`Panic`), which callers pass on. Modelled are
  the panics of allocations above `isize::MAX` bytes, on 64-bit machines, and of
  `chunks(0)`.
- A reader follows links by CID, so it ends only where the links lead to a
  finite DAG. The loops are proved for every finite DAG, with missing and
  undecodable blocks in it; `AcyclicUnfolds` says that a store without link
  cycles has one for every CID.
- `Config.Valid` asks for the chunk sizes the builder enforces and nothing else.
  The builder lets zero and one link a node through; with several pieces, all of
  legal size, `chunk` then panics or does not end (`OneLinkNeverEnds`). `Builds`
  is the exact condition for the level loop to end.

Where code and documentation disagree, the model follows the code:

- `Ipld::Integer` is documented to support the full `i128` range; the encoder
  cuts to 64 bits. `RoundTripIff` gives the exact range.
- Boundaries are documented as content-defined. The out-table adds the
  polynomial on every step, so the hash also depends on the position modulo
  64: `SameWindowHitIff`, with an instance in `OppositeVerdicts`.
- A batch proof is documented to verify for the leaves it was made for. The
  prover drops siblings of equal hash and level and the verifier takes one
  for each position: `BatchCompleteIff` gives the exact condition.
- The archive reader recomputes a raw CID, so archives holding link nodes do
  not read back: `ArchiveRoundTripIff`, `ChunkedArchiveIff`.
- `read_chunked_file` is documented to read all data of a chunked file; on DAGs
  with leaves at several depths it need not keep their order, and the stream
  skips links without a size: `StoreReadersAgreeIff`, with instances in
  `UnevenFile` and `UnsizedLink`.
- `verify_batch` checks neither range nor repetition of the indices of a proof:
  `BatchBinding` and `UnboundItem` say exactly which items an accepted proof
  vouches for.
- `levenshtein_distance` sizes its matrix by bytes and fills it by characters:
  `CorrectIff`, with instances in `AccentedLetter`.
- The cache is documented as LRU. Access indices come from the length of a
  list that shrinks, so they can tie or go backwards: `EvictsLeastRecentIff`
  says when eviction is least-recently-used, `NewestMayGo` is a run where it
  is not.
- Decoders return `Result`, but a declared length above `isize::MAX` panics:
  `CrashIff`, `SectionPanicsIff`, `OpenPanicsIff`.

## Model

| member | source | states |
|---|---|---|
| RoundTrip.ChunkAndRead | crates/ipfrs-core/src/streaming.rs:304-350 | for every input, either strategy and every configuration whose level loop ends: chunking, storing the blocks (no two different ones under one CID) and reading the root back returns exactly the input bytes, with `read_chunked_file` and with `next_chunk` called to the end, whenever `chunk` succeeds, which is when no block is oversized; empty data is refused |
| RoundTrip.ChunkedReadsBack | crates/ipfrs-core/src/chunking.rs:479-602 | the stored blocks unfold, through the DAG-CBOR bytes of every intermediate node, to a DAG with all leaves at one depth, and both the breadth-first reader and the drained depth-first stream return the input |
| RoundTrip.PresentUnfolds | crates/ipfrs-core/src/streaming.rs:320-347 | if every block of a DAG of raw leaves and data-free nodes, of any shape, is among collision-free stored blocks, its root CID unfolds in the store to that very DAG, for either reader's notion of a link |
| RoundTrip.NodeDecodes | crates/ipfrs-core/src/chunking.rs:405-441 | an intermediate node encoded as DAG-CBOR decodes to itself, and the links a reader extracts from it are the node's CIDs, all of them, in order |
| RoundTrip.LinkIpld | crates/ipfrs-core/src/chunking.rs:409-421 | a nameless link is the map with exactly `cid` and `size`, in key order |
| RoundTrip.NodeIpld | crates/ipfrs-core/src/chunking.rs:405-436 | a node without data is the map with exactly `links` and `totalSize`; a reader finds its links and no data |
| StoredFormats.LinkEntries | crates/ipfrs-core/src/chunking.rs:409-421 | a link, named or not, is a map under `cid`, `name` and `size`, in that order |
| StoredFormats.NodeEntries | crates/ipfrs-core/src/chunking.rs:405-436 | a node, with data or not, is a map under `data`, `links` and `totalSize`, in that order |
| StoredFormats.LinkBytesAre | crates/ipfrs-core/src/chunking.rs:409-421 | the bytes of a link |
| StoredFormats.NodeBytesAre | crates/ipfrs-core/src/chunking.rs:439-441 | the bytes of an intermediate node |
| RoundTrip.TargetsOfLinks | crates/ipfrs-core/src/streaming.rs:329-333 | extracting targets from the IPLD form of a link list loses none and keeps the order |
| RoundTrip.AddBlocks | crates/ipfrs-core/src/streaming.rs:38-47 | the loop builds the map in which the last block under a CID wins |
| RoundTrip.StoredHas | crates/ipfrs-core/src/streaming.rs:56-65 | without collisions every added block is found under its CID |
| StoredFormats.LastBlockWins | crates/ipfrs-core/src/streaming.rs:38-47 | of several blocks under one CID the store holds the last added |
| RoundTrip.ChunkingSucceeds | crates/ipfrs-core/src/chunking.rs:573-582 | no block is oversized, so `chunk` succeeds, for fixed-size chunks, or content-defined ones with a target up to a quarter of the block limit, and at most 13000 links a node |
| RoundTrip.UnevenFile | crates/ipfrs-core/src/streaming.rs:320-347 | a stored file, a node above one leaf beside another leaf, unfolds to a DAG that `read_chunked_file` returns second leaf first and the stream first leaf first |
| Chunking.Chunk | crates/ipfrs-core/src/chunking.rs:479-602 | empty data is the only input error; when the level loop ends, the call succeeds if and only if every block of the tree over the pieces is of legal size, and then returns that tree's root, blocks, size and piece count, a fixed-size file starting with one raw block for each full chunk of the data and one for the remainder, and ending with the root; an oversized piece is the size error under any number of links, and several pieces of legal size with zero links a node panic |
| Chunking.BuildTree | crates/ipfrs-core/src/chunking.rs:561-593 | the level loop terminates for one link to begin with or two or more links a node, fails if and only if some node is oversized, and returns the blocks of all levels and the CID of the grown tree |
| Chunking.BuildLevel | crates/ipfrs-core/src/chunking.rs:565-590 | one level: the blocks and links of the parents of consecutive groups |
| Chunking.LeafBlocks | crates/ipfrs-core/src/chunking.rs:526-540 | one raw block and one link a piece, in order, or the size error |
| Chunking.SplitAtBoundaries | crates/ipfrs-core/src/chunking.rs:510-521 | slicing at the content-defined boundaries gives the pieces |
| Chunking.PiecesCover | crates/ipfrs-core/src/chunking.rs:504-522 | the pieces concatenate to the data, none is empty, and none exceeds four times the chunk size (the chunk size itself when fixed) |
| Chunking.GroupsConcat | crates/ipfrs-core/src/chunking.rs:569 | `chunks(n)` loses nothing: its groups have 1 to n elements and concatenate to the whole |
| Chunking.GroupsExactly | crates/ipfrs-core/src/chunking.rs:569 | there are ceil(len / n) groups, and group i is elements i * n up to (i + 1) * n or the end: all full but the last |
| Chunking.FixedFile | crates/ipfrs-core/src/chunking.rs:505-509 | a fixed-size file has ceil(len / c) pieces; block i is the raw block, CID included, of bytes i * c up to i * c + c or the end; the last block is the root |
| Chunking.ContentPieces | crates/ipfrs-core/src/chunking.rs:510-521 | data of at most one chunk is one piece; longer data is cut from boundary to boundary |
| Chunking.LevelIs | crates/ipfrs-core/src/chunking.rs:569-571 | node i of a level takes links i * n up to (i + 1) * n, so all but the last have exactly n |
| Chunking.EmissionOrder | crates/ipfrs-core/src/chunking.rs:588-592 | blocks come out level by level from the leaves up, each level in order |
| Chunking.RootIsLast | crates/ipfrs-core/src/chunking.rs:595 | the last block is the root |
| Chunking.SliceAtCovers | crates/ipfrs-core/src/chunking.rs:513-521 | slicing at cuts that partition the data loses no byte and makes pieces within the bound |
| Chunking.LevelKeeps | crates/ipfrs-core/src/chunking.rs:565-592 | a new level spells the same bytes, with every leaf exactly one deeper |
| Chunking.GrowKeeps | crates/ipfrs-core/src/chunking.rs:564-593 | the finished tree has all leaves at one depth and spells the bytes of the forest it grew from |
| Chunking.TreeOverData | crates/ipfrs-core/src/chunking.rs:561-595 | the tree over the pieces of any non-empty data is uniform and flattens to the data |
| Chunking.SizeIsLength | crates/ipfrs-core/src/chunking.rs:384-391 | in a DAG of raw leaves and data-free nodes the size recorded in a link is the number of bytes below it |
| Chunking.RootSizeIsDataLength | crates/ipfrs-core/src/chunking.rs:584 | the size recorded for the root is the length of the input |
| Chunking.LevelSizesSum | crates/ipfrs-core/src/chunking.rs:565-592 | link sizes of consecutive levels have the same sum |
| Chunking.OneLinkNeverShrinks | crates/ipfrs-core/src/chunking.rs:569 | with one link a node, a level is as long as the one below |
| Chunking.OneLinkNeverEnds | crates/ipfrs-core/src/chunking.rs:564-593 | so with one link a node, which the builder lets through, several links stay as many after any number of levels |
| Chunking.LevelsEnd | crates/ipfrs-core/src/chunking.rs:564-593 | with two or more, some number of levels leads to the single link of the grown tree |
| Rabin.FindBoundaries | crates/ipfrs-core/src/chunking.rs:242-290 | the loop over hash, circular window and last boundary returns the boundaries of the closed form: a position is judged by the XOR of the last 48 bytes, each rotated by its age, and a drift depending only on the steps since the reset modulo 64 |
| Rabin.HashStep | crates/ipfrs-core/src/chunking.rs:258-262 | one rolling update of the closed form for `s` gives the closed form for `s + [b]` |
| Rabin.Roll | crates/ipfrs-core/src/chunking.rs:253-262 | the circular array and hash after one byte hold the window and hash of the extended input |
| Rabin.Clear | crates/ipfrs-core/src/chunking.rs:272-274 | a reset leaves the window of the empty input |
| Rabin.OutTable | crates/ipfrs-core/src/chunking.rs:294-302 | the table loop is the byte rotated 48 times XOR one constant |
| Rabin.MixSplits | crates/ipfrs-core/src/chunking.rs:298-300 | iterated rotate-and-XOR splits into the rotation of the value and an orbit that does not depend on it |
| Rabin.OutConstantValue | crates/ipfrs-core/src/chunking.rs:219-222 | the constant for this polynomial and window |
| Rabin.DriftPeriod | crates/ipfrs-core/src/chunking.rs:258-262 | the drift returns to zero after 64 steps |
| Rabin.SameWindowSameHashIff | crates/ipfrs-core/src/chunking.rs:258-262 | with equal 48-byte windows the hashes agree if and only if the step counts since the reset agree modulo 64, so the hash is not a function of content alone |
| Rabin.SameWindowHitIff | crates/ipfrs-core/src/chunking.rs:276-280 | for every target the builder allows and equal windows: where one position passes the boundary test, the other does if and only if the step counts since the reset agree modulo 64, or are the pair 25, 61 under a ten-bit mask or 26, 62 under a ten- or eleven-bit one |
| Rabin.OneResidue | crates/ipfrs-core/src/chunking.rs:195-198 | for targets from 4096 on, one window is a content-defined boundary at one residue modulo 64 only |
| Rabin.MaskedDriftIff | crates/ipfrs-core/src/chunking.rs:227-228 | through the mask of every allowed target the 64 drifts are pairwise different but for those pairs |
| Rabin.ZerosHitIff | crates/ipfrs-core/src/chunking.rs:276-280 | in a run of zero bytes all windows are equal and the test passes exactly at multiples of 64 |
| Rabin.OppositeVerdicts | crates/ipfrs-core/src/chunking.rs:264-282 | positions 318 and 319 of a zero file have the same window; judged from the start of the file, the second is a content-defined boundary and the first is not |
| Rabin.FirstZeroBoundary | crates/ipfrs-core/src/chunking.rs:242-290 | the first boundary of every zero file of at least 320 bytes is 319, so that is how the loop judges them |
| RabinExamples.BoundariesRuled | crates/ipfrs-core/src/chunking.rs:217-290 | each boundary is the first position at least a quarter of the target after the last one that is four times the target away or whose masked hash since the last reset is zero; the end of the data closes the list; data of at most a quarter is one piece |
| RabinExamples.RuledUnique | crates/ipfrs-core/src/chunking.rs:253-287 | that rule determines the list of boundaries |
| RabinExamples.FirstHashes | crates/ipfrs-core/src/chunking.rs:258-262 | the hash after one byte and after two, in numbers |
| RabinExamples.ForcedAtMaximum | crates/ipfrs-core/src/chunking.rs:268-275 | with target 1024 the first boundary of a file of ones is forced, at 4096 |
| RabinExamples.FoundAtMinimum | crates/ipfrs-core/src/chunking.rs:267 | and that of 257 given bytes, whatever follows, lies at 256, the minimum itself |
| Rabin.CutsPartition | crates/ipfrs-core/src/chunking.rs:253-287 | from any loop state the remaining boundaries strictly increase to the data length, with every gap at most the maximum and every gap but the last at least the minimum |
| Rabin.BoundariesPartition | crates/ipfrs-core/src/chunking.rs:217-290 | the same for every non-empty input with the bounds `target/4` and `target*4` the constructor sets |
| Rabin.FloorLog2Bounds | crates/ipfrs-core/src/chunking.rs:227-228 | the number of mask bits is the floor of the base-2 logarithm |
| Readers.ReadChunkedFile | crates/ipfrs-core/src/streaming.rs:304-350 | on any finite DAG, complete or not, the queue loop returns the breadth-first reading, which `ReadPlays` and `ReadsIffIntact` describe without it |
| Readers.FollowLinks | crates/ipfrs-core/src/streaming.rs:329-344 | one node's link loop appends raw leaves, queues inner nodes and stops at the first error |
| Readers.BfsTwoLevels | crates/ipfrs-core/src/streaming.rs:320-347 | a queue holding two adjacent levels of uniform trees reads the lower one first and then the upper one, in order |
| Readers.BfsReadsUniform | crates/ipfrs-core/src/streaming.rs:320-347 | on a DAG with all leaves at one depth breadth-first reading is the in-order concatenation of the leaves |
| Readers.DagChunkStream.constructor | crates/ipfrs-core/src/streaming.rs:237-242 | the pending list starts as the links given |
| Readers.DagChunkStream.NewLinks | crates/ipfrs-core/src/streaming.rs:262-276 | only link maps with both `cid` and `size` are followed, in order, with sizes cut to 64 bits |
| Readers.DagChunkStream.NextChunk | crates/ipfrs-core/src/streaming.rs:245-295 | terminates and takes exactly one step of the depth-first reading: the next chunk, error or end, with the pending list to match |
| Readers.NextSplits | crates/ipfrs-core/src/streaming.rs:245-295 | on an intact forest a chunk followed by what stays pending spells what was pending |
| Readers.DrainIsFlatten | crates/ipfrs-core/src/streaming.rs:245-295 | calling until `None` terminates and yields the in-order contents of every intact forest, data-carrying nodes included |
| Readers.DrainStream | crates/ipfrs-core/src/streaming.rs:245-301 | the loop that calls `next_chunk` until the end or an error terminates and returns the depth-first reading of what was pending |
| Readers.ReadersAgree | crates/ipfrs-core/src/streaming.rs:245-350 | on every uniform DAG both readers return the same bytes |
| Readers.UnevenDepth | crates/ipfrs-core/src/streaming.rs:320-347 | a DAG with leaves at two depths which the readers read in different orders |
| BrokenReads.ReadsIffIntact | crates/ipfrs-core/src/streaming.rs:329-342 | on every finite DAG: `read_chunked_file` succeeds if and only if no block is missing or undecodable, and so does the stream called to the end |
| BrokenReads.FirstErrorReturned | crates/ipfrs-core/src/streaming.rs:329-342 | which error: for the queue reader that of the broken link first by round and depth-first within one, for the stream the depth-first first |
| BrokenReads.ReadPlays | crates/ipfrs-core/src/streaming.rs:304-350 | with data, leaves and broken links as events tagged by round, the queue reader takes them round by round, depth-first within one, up to the first error |
| BrokenReads.DrainPlays | crates/ipfrs-core/src/streaming.rs:245-295 | the stream takes them depth-first, up to the first error |
| BrokenReads.NextTakesNext | crates/ipfrs-core/src/streaming.rs:245-295 | one call returns exactly the next outcome, bytes or error, and leaves all others pending |
| BrokenReads.SecondLeafMissing | crates/ipfrs-core/src/streaming.rs:329-342 | two leaves of which the second is gone: both report it, the stream after the first leaf |
| StoredFormats.MissingLeaf | crates/ipfrs-core/src/streaming.rs:56-65 | a stored file of two leaves without its second block unfolds to that, and reading it returns the missing-block error |
| ReadingOrder.ReadingOrders | crates/ipfrs-core/src/streaming.rs:245-350 | on every intact DAG of any shape: with each node's data and each leaf tagged by the round of the queue reader it belongs to, the stream returns them as they lie depth-first and `read_chunked_file` grouped by round, in order within a round |
| ReadingOrder.ReadersAgreeIff | crates/ipfrs-core/src/streaming.rs:245-350 | for every shape of an intact DAG that both readers see whole: they return the same bytes whatever the contents if and only if, depth-first, rounds never decrease |
| ReadingOrder.UnorderedReadersDiffer | crates/ipfrs-core/src/streaming.rs:320-347 | where rounds decrease, contents of the same shape on which the readers differ are exhibited |
| ReadingOrder.BfsIsGrouped | crates/ipfrs-core/src/streaming.rs:320-347 | a queue of nodes of one depth is read round by round |
| ReadingOrder.BfsLevel | crates/ipfrs-core/src/streaming.rs:320-347 | working off part of the queue puts out what its nodes own and leaves their inner children, in order, at the end |
| StoreReaders.StoreReadersAgreeIff | crates/ipfrs-core/src/streaming.rs:245-350 | on every store: the DAG the stream sees is the one `read_chunked_file` sees with the children cut off whose links carry no integer size; if that one is intact, the two return the same bytes whatever the contents if and only if its rounds never decrease and nothing with contents is cut off; if every link carries a size they see the same DAG |
| StoreReaders.MaskedReadersAgreeIff | crates/ipfrs-core/src/streaming.rs:262-276 | the same for every shape and every choice of links to follow |
| StoreReaders.UnfoldsPruned | crates/ipfrs-core/src/streaming.rs:262-276 | from every CID the stream's DAG is the other reader's with some children cut off, and finite with it |
| StoreReaders.SizedSeeTheSame | crates/ipfrs-core/src/streaming.rs:329-333 | where every link followed carries an integer size, both readers see the same DAG |
| StoreReaders.UnsizedLink | crates/ipfrs-core/src/streaming.rs:262-276 | a stored node whose only link has no size, above a leaf: `read_chunked_file` returns the leaf and the stream nothing |
| Dags.AcyclicUnfolds | crates/ipfrs-core/src/streaming.rs:304-347 | from every CID of a store without link cycles a finite DAG unfolds |
| Dags.UnfoldingUnique | crates/ipfrs-core/src/streaming.rs:56-65 | a CID unfolds to at most one DAG |
| MerkleBatchTheorems.BatchCompleteIff | crates/ipfrs-core/src/merkle_batch.rs:269-384 | for any data and increasing in-range indices, `verify_batch` accepts what `prove_batch` emits with the matching data if and only if there is an index and the needed siblings differ in hash within each level; otherwise it fails with an invalid proof |
| MerkleBatchTheorems.EqualSiblingsAreRejected | crates/ipfrs-core/src/merkle_batch.rs:245-247 | the honest proof for leaves 0 and 2 of four is rejected whenever leaves 1 and 3 are equal |
| MerkleBatchTheorems.BatchBinding | crates/ipfrs-core/src/merkle_batch.rs:399-404 | two accepted proofs with the same indices, in any order, repeated or out of range, and the same root, whatever their siblings, have equal leaf hashes at every position that is within the tree and the last of its index, or the level and position of an explicit collision of `combine` is returned |
| MerkleBatchTheorems.UnboundItem | crates/ipfrs-core/src/merkle_batch.rs:287-375 | at every other position, with an index beyond the tree or one that comes again later, any item gets the same verdict, at every height and for every proof |
| MerkleBatchTheorems.AnythingPasses | crates/ipfrs-core/src/merkle_batch.rs:293-296 | in a tree of one leaf, any item is accepted beside it under the same index or the next |
| MerkleBatchTheorems.DistinctAreBound | crates/ipfrs-core/src/merkle_batch.rs:293-296 | distinct indices within the tree, in any order, leave no position unbound |
| MerkleBatchTheorems.ForeignItemCollides | crates/ipfrs-core/src/merkle_batch.rs:269-384 | a proof accepted against the root of a real tree, whatever its siblings, opens at every bound position to that tree's leaf, or an explicit collision of `combine` between the reconstruction and the tree is returned |
| MerkleBatchTheorems.HonestTop | crates/ipfrs-core/src/merkle_batch.rs:330-375 | a reconstruction that starts from the tree's hashes within the tree, with the tree's siblings, ends in its root |
| MerkleBatchTheorems.Bind | crates/ipfrs-core/src/merkle_batch.rs:330-375 | two reconstructions over any covered positions that meet in one root agree at the covered positions within the tree, or collide at a level and position that is returned |
| MerkleBatchTheorems.RebuildHonest | crates/ipfrs-core/src/merkle_batch.rs:298-375 | with the siblings in emission order the verifier rebuilds exactly the root of the padded tree |
| MerkleBatchTheorems.UpHonest | crates/ipfrs-core/src/merkle_batch.rs:346-372 | covered nodes and their needed siblings combine to exactly the covered nodes one level up |
| MerkleBatchTheorems.EmitLevelCounts | crates/ipfrs-core/src/merkle_batch.rs:234-249 | dropping repeated (level, hash) entries loses nothing when the hashes differ and at least one entry when they do not |
| MerkleBatchTheorems.EmitAllCounts | crates/ipfrs-core/src/merkle_batch.rs:225-250 | the same over all levels, against the number the verifier will ask for |
| MerkleBatchTheorems.EnoughIff | crates/ipfrs-core/src/merkle_batch.rs:313-325 | the verifier runs out of siblings if and only if fewer were sent than it asks for |
| MerkleBatch.ProveBatch | crates/ipfrs-core/src/merkle_batch.rs:194-258 | out-of-range indices give the smallest such index, repeats give a repeated index, and otherwise the proof holds the sorted indices, the root and the deduplicated siblings |
| MerkleBatch.Validate | crates/ipfrs-core/src/merkle_batch.rs:195-212 | the range check comes before the duplicate check, and both name an offending index |
| MerkleBatch.EmitSiblings | crates/ipfrs-core/src/merkle_batch.rs:231-249 | one level of the walk: needed siblings appended unless already present, and the covered set moves to the parents |
| MerkleBatch.SortSorts | crates/ipfrs-core/src/merkle_batch.rs:197-198 | sorting gives a non-decreasing permutation |
| MerkleBatch.DistinctIffIncreasing | crates/ipfrs-core/src/merkle_batch.rs:208-212 | looking at neighbours of the sorted list decides whether all indices differ |
| MerkleBatch.ToSetKeeps | crates/ipfrs-core/src/merkle_batch.rs:228 | the ordered set built from the indices has exactly their elements, in increasing order |
| MerkleBatch.ParentsKeep | crates/ipfrs-core/src/merkle_batch.rs:248 | the next covered set is exactly the parents, in increasing order |
| MerkleBatch.NeededKeeps | crates/ipfrs-core/src/merkle_batch.rs:234-242 | the positions needed are exactly the siblings outside the covered set, each once |
| MerkleBatch.New | crates/ipfrs-core/src/merkle_batch.rs:146-152 | empty data is refused; otherwise one leaf hash an item |
| MerkleBatch.NextPowerOfTwo | crates/ipfrs-core/src/merkle_batch.rs:413-422 | the doubling loop returns 2 to the ceiling of the base-2 logarithm |
| MerkleBatch.Root | crates/ipfrs-core/src/merkle_batch.rs:166-186 | the loop returns the top of the zero-padded tree |
| MerkleBatch.BuildTree | crates/ipfrs-core/src/merkle_batch.rs:428-442 | level l of the stored tree is the padded leaves combined l times |
| MerkleBatch.VerifyBatch | crates/ipfrs-core/src/merkle_batch.rs:269-384 | for every proof, honest or not, the verdict is the count check, the sibling supply, the reconstruction and the comparison with the root, in that order |
| MerkleBatch.CollectLeaves | crates/ipfrs-core/src/merkle_batch.rs:292-296 | level 0 of the known hashes holds the items' hashes at their indices, later entries winning |
| MerkleBatch.CollectKnown | crates/ipfrs-core/src/merkle_batch.rs:287-328 | fails if and only if the siblings run out; otherwise each level holds the siblings assigned to its positions |
| MerkleBatch.TakeSiblings | crates/ipfrs-core/src/merkle_batch.rs:305-328 | one level takes one hash a needed position, in order, and leaves the other levels alone |
| MerkleBatch.Propagate | crates/ipfrs-core/src/merkle_batch.rs:330-375 | the level loop computes the reconstruction from leaves and siblings |
| MerkleBatch.CombinePairs | crates/ipfrs-core/src/merkle_batch.rs:346-372 | a parent appears if and only if both children are known, whatever order the map is visited in |
| MerkleBatch.TrailingZeros | crates/ipfrs-core/src/merkle_batch.rs:285 | the trailing zeros of the padded size are the tree height |
| TreeVectors.CombineVector | crates/ipfrs-core/src/merkle_batch.rs:399-404 | `combine(1, 2)`, in numbers: little-endian operands, the left one first |
| TreeVectors.SmallRoots | crates/ipfrs-core/src/merkle_batch.rs:166-186 | one leaf is its own root, and a third leaf is paired with zero |
| TreeVectors.FourLeafProof | crates/ipfrs-core/src/merkle_batch.rs:225-257 | the whole proof for the third of four leaves, levels and order included |
| TreeVectors.VerdictCases | crates/ipfrs-core/src/merkle_batch.rs:274-383 | a wrong root is answered with false, a wrong number of items or too few siblings with an error |
| Fnv.Hash | crates/ipfrs-core/src/merkle_batch.rs:101-108 | the loop is the function that `PublishedVectors` and `ByteThenPrime` identify as 64-bit FNV-1a |
| Fnv.PublishedVectors | crates/ipfrs-core/src/merkle_batch.rs:101-108 | the published values for the empty string, "a" and "foobar" |
| Fnv.ByteThenPrime | crates/ipfrs-core/src/manifest.rs:27-34 | for every input: divided by the prime modulo 2^64, the hash after a byte has the upper 56 bits of the hash before it, and its low byte XOR that byte |
| Fnv.LeIs | crates/ipfrs-core/src/merkle_batch.rs:399-404 | `to_le_bytes` in digits |
| Manifests.ProofComplete | crates/ipfrs-core/src/manifest.rs:178-231 | for every CID list and index in range the path verifies against the root, and its length is the ceiling of the base-2 logarithm of the leaf count |
| Manifests.ForeignLeafCollides | crates/ipfrs-core/src/manifest.rs:217-231 | a proof of that length, siblings of any length, accepted at an index for another leaf gives two different byte strings of equal FNV-1a hash, at a step that is returned |
| Manifests.ProofBinding | crates/ipfrs-core/src/manifest.rs:45-50 | the same for any two accepted openings of one root at one index |
| Manifests.ListBinding | crates/ipfrs-core/src/manifest.rs:127-166 | two different lists of one length with one root give an index where they differ and two different strings of equal FNV-1a hash there |
| Manifests.OddLastRepeats | crates/ipfrs-core/src/manifest.rs:142-156 | the length is not bound: every list of odd length above one has the root of the list that repeats its last entry |
| TreeVectors.JoinVector | crates/ipfrs-core/src/manifest.rs:45-50 | joining "a" and "b" in numbers: left first, sixteen lower-case digits with the leading zero |
| TreeVectors.ThreeEntryTree | crates/ipfrs-core/src/manifest.rs:127-207 | the whole array and all three paths of a tree over three entries |
| Manifests.PathRecomputes | crates/ipfrs-core/src/manifest.rs:127-166 | folding the path from a node reaches the last entry of the flattened tree, odd levels included |
| Manifests.PathLength | crates/ipfrs-core/src/manifest.rs:178-207 | the path has one sibling a level |
| Manifests.HexInjective | crates/ipfrs-core/src/manifest.rs:37-39 | the 16-digit hexadecimal form determines the hash |
| Manifests.Build | crates/ipfrs-core/src/manifest.rs:127-166 | the nested loops produce the level-by-level flattened tree, and no nodes for an empty list |
| Manifests.BuildLevel | crates/ipfrs-core/src/manifest.rs:142-156 | pairs are combined and an odd last node is paired with itself |
| Manifests.ProofFor | crates/ipfrs-core/src/manifest.rs:178-207 | walking offsets through the flattened array yields the siblings on the path, or `None` out of range |
| Manifests.VerifyProof | crates/ipfrs-core/src/manifest.rs:217-231 | the loop recomputes the root by the index's parity at each level and compares |
| Manifests.IsCompleteForPath | crates/ipfrs-core/src/manifest.rs:319-351 | true if and only if the chunk indices are exactly 0..n-1 without repeats and the only final chunk is the last |
| Manifests.CompleteIff | crates/ipfrs-core/src/manifest.rs:325-350 | the counting checks hold if and only if the entries form a complete file |
| Manifests.CompleteMeans | crates/ipfrs-core/src/manifest.rs:325-350 | complete means that every index below the count occurs and exactly the entry of the last index is marked final |
| Manifests.EntriesForAre | crates/ipfrs-core/src/manifest.rs:320-321 | the entries of a path are those with exactly that path, as often as they occur |
| Manifests.Pigeonhole | crates/ipfrs-core/src/manifest.rs:336-345 | n entries containing every index below n contain each once and nothing else |
| DagCbor.DecodeEncode | crates/ipfrs-core/src/ipld.rs:404-541 | for every representable value and any following bytes, decoding the encoding does not crash, returns the value with its integers cut to 64 bits and leaves exactly those bytes |
| DagCbor.RoundTripIff | crates/ipfrs-core/src/ipld.rs:65-74 | a value survives encoding and decoding if and only if all its integers lie in [-2^64, 2^64) |
| DagCbor.TwoTo64IsLost | crates/ipfrs-core/src/ipld.rs:363-374 | 2^64 comes back as 0 |
| DagCbor.WrappedIffFits | crates/ipfrs-core/src/ipld.rs:366-371 | the 64-bit cut leaves a value alone if and only if its integers are in that range |
| DagCbor.EncodePrefixFree | crates/ipfrs-core/src/ipld.rs:304-398 | on that range the encoding is injective and no encoding is a proper prefix of another |
| DagCbor.Decode | crates/ipfrs-core/src/ipld.rs:404-541 | decoding ends on every byte string with a value, a failure or a crash, and each success consumes input |
| DagCbor.CrashIff | crates/ipfrs-core/src/ipld.rs:424-447 | decoding panics if and only if it comes to the head of a string or list that declares more than can be asked of the allocator |
| DagCbor.HugeListCrashes | crates/ipfrs-core/src/ipld.rs:447 | nine bytes on which it does |
| DagCbor.DecodeSound | crates/ipfrs-core/src/ipld.rs:404-541 | what is decoded is representable, its integers fit, and what is left is a suffix of the input |
| DagCbor.DecodedValueIsStable | crates/ipfrs-core/src/ipld.rs:72-78 | every decoded value re-encodes to bytes that decode to it, although non-shortest input, repeated keys and short floats are accepted |
| DagCbor.HeadRoundTrip | crates/ipfrs-core/src/ipld.rs:376-393 | a head followed by anything reads back as its major type and number |
| DagCbor.HeadShortest | crates/ipfrs-core/src/ipld.rs:543-579 | no head that decodes to the number is shorter than the one emitted (section 4.2.1 of RFC 8949) |
| WireFormats.HeadIs | crates/ipfrs-core/src/ipld.rs:376-393 | the five forms of a head, byte by byte |
| WireFormats.BeIs | crates/ipfrs-core/src/ipld.rs:385 | multi-byte numbers are big-endian, digit by digit |
| WireFormats.Integers | crates/ipfrs-core/src/ipld.rs:363-374 | integers of appendix A of RFC 8949 |
| WireFormats.NegativeIntegers | crates/ipfrs-core/src/ipld.rs:363-374 | negative integers of that appendix |
| WireFormats.SimpleValues | crates/ipfrs-core/src/ipld.rs:306-321 | false, true, null and 1.1 of that appendix |
| WireFormats.Strings | crates/ipfrs-core/src/ipld.rs:322-331 | byte and text strings of that appendix |
| WireFormats.Lists | crates/ipfrs-core/src/ipld.rs:332-338 | flat and nested lists of that appendix |
| WireFormats.Maps | crates/ipfrs-core/src/ipld.rs:339-348 | maps of that appendix |
| WireFormats.LinkBytes | crates/ipfrs-core/src/ipld.rs:349-358 | a link is tag 42, a byte string, a zero byte and the CID |
| WireFormats.FloatWidths | crates/ipfrs-core/src/ipld.rs:503-531 | half and single precision patterns go to their own conversions |
| WireFormats.Tags | crates/ipfrs-core/src/ipld.rs:472-496 | every other tag is skipped, and tag 42 around anything but bytes is refused |
| WireFormats.PrefixIsOptional | crates/ipfrs-core/src/ipld.rs:479-486 | a CID under tag 42 is read with and without its zero byte |
| WireFormats.Refused | crates/ipfrs-core/src/ipld.rs:497-578 | reserved and indefinite lengths, other simple values and the empty input are refused |
| WireFormats.LongHeads | crates/ipfrs-core/src/ipld.rs:543-579 | longer heads than needed are read |
| WireFormats.OddMaps | crates/ipfrs-core/src/ipld.rs:453-471 | a repeated key keeps its last value, and unsorted keys are put in order |
| WireFormats.RefusedContents | crates/ipfrs-core/src/ipld.rs:433-471 | a key that is no text and text that is no UTF-8 are refused |
| DagCborCodec.EncodeDagCbor | crates/ipfrs-core/src/ipld.rs:304-361 | the recursive writer appends exactly the encoding to the buffer |
| DagCborCodec.EncodeList | crates/ipfrs-core/src/ipld.rs:332-338 | the list loop appends the head and the items in order |
| DagCborCodec.EncodeMap | crates/ipfrs-core/src/ipld.rs:339-348 | the map loop appends the head and the entries in key order |
| DagCborCodec.EncodeString | crates/ipfrs-core/src/ipld.rs:322-326 | text head and bytes are appended |
| DagCborCodec.Buffer.Extend | crates/ipfrs-core/src/ipld.rs:304-361 | appends, keeping what was there |
| DagCborCodec.Reader.ReadExact | crates/ipfrs-core/src/ipld.rs:405-408 | takes exactly n bytes or fails |
| DagCborCodec.DecodeDagCbor | crates/ipfrs-core/src/ipld.rs:404-541 | the reader-driven decoder agrees with the decoding function in value, failure, panic and bytes left |
| DagCborCodec.DecodeUint | crates/ipfrs-core/src/ipld.rs:543-579 | all five argument widths, with reserved forms refused |
| DagCborCodec.DecodeContent | crates/ipfrs-core/src/ipld.rs:413-496 | dispatch on the major type, with UTF-8, tag and link-prefix errors and the panic on a length that cannot be allocated |
| DagCborCodec.DecodeList | crates/ipfrs-core/src/ipld.rs:444-452 | the loop reads the declared number of items or fails |
| DagCborCodec.DecodeMap | crates/ipfrs-core/src/ipld.rs:453-471 | the loop inserts text-keyed entries, a repeated key replacing the earlier value |
| DagCborCodec.DecodeSimpleValue | crates/ipfrs-core/src/ipld.rs:497-535 | simple values and the three float widths |
| IpldModel.InsertSorted | crates/ipfrs-core/src/ipld.rs:456-468 | inserting keeps the map sorted and changes the lookup of that key only |
| IpldModel.InsertAtEnd | crates/ipfrs-core/src/ipld.rs:456-468 | inserting a key beyond all others appends it |
| IpldModel.LessTotal | crates/ipfrs-core/src/ipld.rs:34-35 | key order is total |
| IpldModel.LessTransitive | crates/ipfrs-core/src/ipld.rs:34-35 | key order is transitive |
| WireFormats.LessIff | crates/ipfrs-core/src/ipld.rs:34-35 | keys compare by their first different byte, a proper prefix coming first |
| WireFormats.Utf8Cases | crates/ipfrs-core/src/ipld.rs:440-441 | accepted and refused byte sequences: lengths, overlong forms, surrogates, the upper end |
| IpldModel.AsciiIsUtf8 | crates/ipfrs-core/src/ipld.rs:433-443 | ASCII bytes pass the text check |
| Cids.CidRoundTrip | crates/ipfrs-core/src/ipld.rs:484-486 | a CID's bytes followed by anything read back as the CID and leave exactly that |
| Cids.CidBytesLength | crates/ipfrs-core/src/car.rs:495-497 | a CID takes 1 to 95 bytes and never starts with zero |
| Cids.VarintRoundTrip | crates/ipfrs-core/src/car.rs:495-497 | the unsigned varint inside a CID reads back for every 64-bit number |
| WireFormats.VarintIs | crates/ipfrs-core/src/car.rs:575-597 | seven bits a byte, lowest first, the top bit on all but the last |
| WireFormats.SmallVarints | crates/ipfrs-core/src/car.rs:575-597 | 0, 127, 128 and 300 |
| WireFormats.DefaultCidBytes | crates/ipfrs-core/src/block.rs:70-91 | the 36 bytes of the default CID of a raw and of a DAG-CBOR block |
| WireFormats.VersionZeroBytes | crates/ipfrs-core/src/car.rs:495-497 | a version-0 CID is a bare multihash |
| StoredFormats.BlockLimits | crates/ipfrs-core/src/block.rs:70-91 | a block holds 1 byte to 2 MiB and is named by the SHA2-256 multihash of its bytes |
| CarArchive.ArchiveRoundTripIff | crates/ipfrs-core/src/car.rs:441-571 | opening an archive returns its roots, and reading it returns the written blocks in order, then the end, if and only if every block carries the default raw/SHA-256 CID of legally sized data; otherwise reading fails |
| CarArchive.LinkNodesDoNotReadBack | crates/ipfrs-core/src/car.rs:526-538 | an archive with a DAG-CBOR block anywhere does not read back |
| CarArchive.ChunkedArchiveIff | crates/ipfrs-core/src/car.rs:526-538 | the archive of a chunked file reads back if and only if the file is a single chunk |
| CarArchive.SectionPanicsIff | crates/ipfrs-core/src/car.rs:481-491 | reading a section panics if and only if its length prefix exceeds what can be allocated |
| CarArchive.OpenPanicsIff | crates/ipfrs-core/src/car.rs:441-450 | opening an archive panics if and only if its length prefix does, or decoding the header panics |
| CarArchive.HugePrefixPanics | crates/ipfrs-core/src/car.rs:490 | every length prefix from 2^63 on makes both panic, whatever follows |
| CarArchive.SectionsReadIff | crates/ipfrs-core/src/car.rs:563-571 | the same for the block sections alone |
| CarArchive.SectionReads | crates/ipfrs-core/src/car.rs:481-541 | one section followed by anything reads as its block and leaves the rest, or fails |
| CarArchive.PayloadOpensIff | crates/ipfrs-core/src/car.rs:495-538 | a payload opens to its block if and only if the block has its default CID, whichever compression wrote it |
| CarArchive.HeaderRoundTrip | crates/ipfrs-core/src/car.rs:81-148 | version and any list of roots survive the DAG-CBOR header |
| CarArchive.CarVarintRoundTrip | crates/ipfrs-core/src/car.rs:575-637 | every 64-bit number written as a varint and followed by anything reads back and leaves exactly that |
| StoredFormats.HeaderBytes | crates/ipfrs-core/src/car.rs:81-97 | the bytes of a header for no root and for one |
| StoredFormats.SectionBytes | crates/ipfrs-core/src/car.rs:366-377 | the bytes of an uncompressed section: length, CID, flag 0, data |
| StoredFormats.CompressedSection | crates/ipfrs-core/src/car.rs:347-377 | compression is applied as configured and flagged with 1, none with 0, and levels above 9 are refused |
| StoredFormats.PayloadForms | crates/ipfrs-core/src/car.rs:499-526 | flagged data goes to Zstd and, if that refuses it, to LZ4; without a flag it is taken as it is; a CID alone is refused |
| StoredFormats.VarintCases | crates/ipfrs-core/src/car.rs:606-637 | the end, a byte short, ten continued bytes and a longer form than needed |
| CarArchive.WriteVarint | crates/ipfrs-core/src/car.rs:575-597 | the shifting loop writes the LEB128 form, at most 10 bytes |
| CarArchive.ReadVarintOpt | crates/ipfrs-core/src/car.rs:606-637 | the loop over any bytes gives the value and the rest, a clean end only before the first byte, an I/O error on truncation or a deserialization error on overflow |
| CarArchive.CarWriter.constructor | crates/ipfrs-core/src/car.rs:285-313 | the stream starts with the length-prefixed header and zero statistics |
| CarArchive.CarWriter.WriteBlock | crates/ipfrs-core/src/car.rs:334-378 | appends exactly the block's section or, on a compression error, nothing, and accounts for it in all four statistics |
| CarArchive.OpenArchive | crates/ipfrs-core/src/car.rs:441-453 | any bytes: exactly the error of a malformed length, a short or an invalid header, or the panic; otherwise the roots are those of the header and the reader stands right after it |
| CarArchive.ArchiveAndRead | crates/ipfrs-core/src/car.rs:334-378 | writing any blocks one by one, opening the stream and reading it to the end returns the same roots, and the same blocks if and only if each carries its default CID; otherwise an error |
| CarArchive.CarReader.ReadBlock | crates/ipfrs-core/src/car.rs:481-541 | one section is consumed, or the end reported with nothing consumed, or exactly the error of the section, panic included |
| CarArchive.CarReader.ReadAllBlocks | crates/ipfrs-core/src/car.rs:563-571 | ends on every stream with all blocks in order, or exactly the first error or panic |
| BlockCaches.RunKeepsInv | crates/ipfrs-core/src/block_cache.rs:128-228 | in every state of every run the recorded size is the sum of the cached blocks' sizes, it is within the byte limit or there is one block, the count is at most max(1, limit), and every cached CID is listed |
| BlockCaches.HitReturnsLastInserted | crates/ipfrs-core/src/block_cache.rs:179-196 | a hit returns the block inserted at an exhibited earlier step when the CID was absent, and which has stayed cached since |
| BlockCaches.CachedSince | crates/ipfrs-core/src/block_cache.rs:128-156 | the same origin for any block cached in any state of a run |
| BlockCaches.StepOrigin | crates/ipfrs-core/src/block_cache.rs:128-156 | a step changes what is cached under a CID only by inserting it where it was absent |
| BlockCaches.StepKeepsInv | crates/ipfrs-core/src/block_cache.rs:128-228 | every operation keeps that invariant |
| BlockCaches.EvictsKeeps | crates/ipfrs-core/src/block_cache.rs:139-142 | the eviction loop stops with room or an empty cache, drops blocks only and changes none |
| BlockCaches.TotalRemove | crates/ipfrs-core/src/block_cache.rs:209-211 | removing an entry lowers the sum by its size, so the subtraction does not underflow |
| BlockCaches.BlockCache.constructor | crates/ipfrs-core/src/block_cache.rs:100-111 | a new cache is empty and within its limits |
| BlockCaches.BlockCache.Insert | crates/ipfrs-core/src/block_cache.rs:128-156 | a present CID is only touched; otherwise the eviction loop runs and then the block is added (what that does in numbers: `RoomKeepsAll`, `NoMoreThanItTakes`) |
| BlockCaches.BlockCache.MakeRoom | crates/ipfrs-core/src/block_cache.rs:139-142 | the loop terminates and is a chain of evictions of an oldest entry, no longer than it takes (`NoMoreThanItTakes`) |
| BlockCaches.BlockCache.EvictLru | crates/ipfrs-core/src/block_cache.rs:296-319 | an empty cache stays as it is; on any other one entry of least index goes, with the size and the list to match, so the loop always makes progress |
| BlockCaches.BlockCache.FindOldest | crates/ipfrs-core/src/block_cache.rs:301-306 | the scan finds a cached entry of least index, in any visiting order |
| BlockCaches.BlockCache.UpdateAccess | crates/ipfrs-core/src/block_cache.rs:321-326 | the entry gets the list length as its index and the CID is appended |
| BlockCaches.BlockCache.Get | crates/ipfrs-core/src/block_cache.rs:179-196 | a hit is counted, touched and returned; a miss only counted |
| BlockCaches.BlockCache.Remove | crates/ipfrs-core/src/block_cache.rs:207-220 | the entry, its size and one list occurrence go |
| BlockCaches.BlockCache.Clear | crates/ipfrs-core/src/block_cache.rs:223-228 | everything but the statistics goes |
| CacheRoom.RoomKeepsAll | crates/ipfrs-core/src/block_cache.rs:286-294 | if size plus the new block is at most the byte limit and the count is below the block limit, an insertion leaves every entry as it was, adds the block and evicts nothing |
| CacheRoom.NoMoreThanItTakes | crates/ipfrs-core/src/block_cache.rs:139-142 | before each eviction the new block exceeded a limit, and at the end it fits or nothing is left |
| CacheRoom.ExactFit | crates/ipfrs-core/src/block_cache.rs:287 | two 5-byte blocks fill a cache of 10 bytes: both stay |
| CacheRoom.InsertedIsCached | crates/ipfrs-core/src/block_cache.rs:128-156 | after an insertion the CID is cached, with the block that was there or else the new one |
| CacheRoom.GetReturnsCached | crates/ipfrs-core/src/block_cache.rs:179-196 | a get returns what is cached, changes no contents and counts one hit or miss |
| CacheRoom.RemovalTakesOut | crates/ipfrs-core/src/block_cache.rs:207-228 | a removal takes out that entry only and returns its block; a clear takes out all |
| CacheRoom.RunStats | crates/ipfrs-core/src/block_cache.rs:249-252 | in every state of every run the statistics are the numbers of hits, misses and evicted blocks so far |
| CacheRecency.EvictsLeastRecentIff | crates/ipfrs-core/src/block_cache.rs:296-326 | in every state of every run: eviction is certain to take the least recently used block first if and only if, from its last use to that of each other cached block, fewer blocks were dropped than uses made |
| CacheRecency.IndexIs | crates/ipfrs-core/src/block_cache.rs:321-326 | the index of a cached block is the number of uses before its last use less the blocks dropped by then, since the last clear |
| CacheRecency.ListLength | crates/ipfrs-core/src/block_cache.rs:296-326 | the length of the access list is the number of uses less the number of blocks dropped, since the last clear |
| CacheRecency.LeastRecentWithoutDrops | crates/ipfrs-core/src/block_cache.rs:300-306 | while nothing has been dropped since the last clear, what eviction may take first is exactly the least recently used block |
| CacheRecency.FirstEvictionsAreLeastRecent | crates/ipfrs-core/src/block_cache.rs:139-142 | and the whole eviction loop of the next insertion drops only blocks used less recently than all it keeps |
| CacheRecency.InsertionFallsBehind | crates/ipfrs-core/src/block_cache.rs:139-156 | an insertion that drops n blocks gets an index n - 1 below the newest block's: level with it after one eviction, behind it after more |
| CacheRecency.NewestMayGo | crates/ipfrs-core/src/block_cache.rs:300-306 | a run of four insertions into a cache for two blocks, the last of which drops the newest block and keeps the older |
| Levenshtein.DistIsLeast | crates/ipfrs-cli/src/shell.rs:20-43 | the recurrence's value is the length of some edit script and no script is shorter |
| Levenshtein.DistIsMetric | crates/ipfrs-cli/src/shell.rs:20-43 | it is zero only between equal strings, symmetric, and satisfies the triangle inequality |
| Levenshtein.CorrectIff | crates/ipfrs-cli/src/shell.rs:20-22 | the function returns the edit distance if and only if both strings are ASCII or they are equal, since the matrix is sized by bytes and filled by characters |
| Levenshtein.AccentedLetter | crates/ipfrs-cli/src/shell.rs:20-43 | a two-byte letter is reported 2 edits from the empty string and 0 from a plain letter; both distances are 1 |
| Levenshtein.AsciiIff | crates/ipfrs-cli/src/shell.rs:21-22 | byte length equals character count if and only if the string is ASCII |
| Levenshtein.LevenshteinDistance | crates/ipfrs-cli/src/shell.rs:20-43 | the matrix loops return the edit distance when byte and character counts agree; otherwise the other string's byte length if one is empty, and 0 if neither is |
| Levenshtein.Initialise | crates/ipfrs-cli/src/shell.rs:23-30 | the first row and column count up and all other cells are zero |
| Levenshtein.SetCell | crates/ipfrs-cli/src/shell.rs:32-40 | writing one cell extends the part of the matrix that holds prefix distances |
| Levenshtein.Attained | crates/ipfrs-cli/src/shell.rs:32-40 | a script of that length exists |
| Levenshtein.Lipschitz | crates/ipfrs-cli/src/shell.rs:32-40 | one edit anywhere in a string changes the value by at most one |
| Levenshtein.NoShorter | crates/ipfrs-cli/src/shell.rs:32-40 | a script of n edits bounds the value by n |
| Traversal.TraverseBfs | crates/ipfrs-core/src/dag.rs:430-454 | the queue loop returns the nodes row by row, each row in order |
| Traversal.TraverseDfs | crates/ipfrs-core/src/dag.rs:465-488 | the accumulating recursion returns the preorder |
| WalkOrders.PreorderPositions | crates/ipfrs-core/src/dag.rs:472-488 | the root is first, and the nodes of each child form one block, its own depth-first order, after the root and the nodes of the children before it |
| WalkOrders.Example | crates/ipfrs-core/src/dag.rs:430-488 | both orders of `[a, [b], c]` |
| WalkOrders.ChildrenAre | crates/ipfrs-core/src/dag.rs:440-449 | children are list items in order and map values in key order |
| Traversal.BfsPermutesDfs | crates/ipfrs-core/src/dag.rs:430-488 | breadth-first output is a permutation of the preorder, and its d-th row is exactly the nodes at depth d, none missing |
| Traversal.RowsPermutePreorder | crates/ipfrs-core/src/dag.rs:430-488 | the same for any forest |
| Traversal.RowsAre | crates/ipfrs-core/src/dag.rs:435-451 | row d is the nodes d steps down, and there are no rows beyond the deepest |
| Traversal.CollectAllLinks | crates/ipfrs-core/src/dag.rs:128-161 | the recursion appends the links below a value |
| Traversal.LinksAreDfsLinks | crates/ipfrs-core/src/dag.rs:105-109 | those are the preorder filtered to links |
| Traversal.CalculateFanout | crates/ipfrs-core/src/dag.rs:756-777 | the recursion adds to each level the nodes one level further down and grows the list exactly as far as there are nodes |
| Traversal.FanoutByLevel | crates/ipfrs-core/src/dag.rs:749-753 | fan-out at level d is the number of nodes at level d+1, with exactly as many levels as there are rows of nodes |
| Traversal.FindPathsToCid | crates/ipfrs-core/src/dag.rs:382-387 | the paths are pairwise different, each resolves to the target link, and there is one for each occurrence in the preorder |
| Traversal.FindPathsRecursive | crates/ipfrs-core/src/dag.rs:390-416 | the recursion appends the paths below a value, each under the current path |
| Traversal.PathsResolve | crates/ipfrs-core/src/dag.rs:390-416 | every path resolves to the target |
| Traversal.PathsCount | crates/ipfrs-core/src/dag.rs:390-416 | as many paths as occurrences |
| Traversal.PathsDiffer | crates/ipfrs-core/src/dag.rs:390-416 | paths are pairwise different when sibling keys are |
| Traversal.IndexKeyInjective | crates/ipfrs-core/src/dag.rs:402 | the path segments of different list positions differ |
| WalkOrders.IndexKeys | crates/ipfrs-core/src/dag.rs:402 | the segments "[0]" and "[12]" |
| WalkOrders.PathsExample | crates/ipfrs-core/src/dag.rs:390-416 | the paths of `[x, {k: x}]` to x, in order |
| Traversal.RepresentableKeysDistinct | crates/ipfrs-core/src/dag.rs:408-413 | siblings in a map have different keys |

## Left out

- CID strings, multibase and the hash functions behind a CID; the CID byte form follows the multiformats specification.
- Chunking.Chunk: the counts and percentages of repeated chunks are not modelled; they do not influence the blocks. Several pieces of legal size with one link a node are excluded: the source does not return then.
- Rabin.NewChunker: the mask uses the integer floor of the base-2 logarithm where the source rounds a 64-bit float; the two agree on the chunk sizes allowed.
- DagCborCodec.Reader.ReadExact: after a failure the position of the reader is not specified.
- Running out of memory on an allocation of up to `isize::MAX` bytes, and out of stack in the unlimited recursion of `decode_dag_cbor` and the `dag.rs` helpers on deeply nested input: both depend on the machine.
- BlockCaches.BlockCache.Insert: sizes are unbounded, so overflow of the 64-bit sum of cached sizes is not modelled.
- CarArchive.CarWriter.WriteBlock: a section is assumed no longer than `isize::MAX` bytes, and errors of the underlying stream are not modelled.
- RoundTrip.ChunkingSucceeds: 13000 links a node is a safe bound, not the exact one.
- DAG-JSON, JSON and JOSE translations with their base64.
- `parallel_chunking.rs`: its parent nodes are raw blocks with zero sizes, so reading back is not a property it has.
- The remaining statistics of `dag.rs` (averages, widths, node types, links by depth), filters, maps, pruning and merging, `is_dag` and `topological_sort`: easy recursions, or functions that do not follow links.
- Streaming compression, tensors, Arrow and SafeTensors, pools, metrics, configuration files, networking and the rest of the CLI.
- Locks, async and work stealing: each cache method holds one lock throughout, so its steps are sequential.
