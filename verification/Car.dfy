/**
 CAR archives: a varint-framed DAG-CBOR header with the roots, then one framed
 section per block: identifier, compression flag, data.
 */
module CarArchive {
  import opened Basics
  import opened Cids
  import opened Blocks
  import opened IpldModel
  import opened DagCbor
  import Chunking

  const CAR_VERSION: u64 := 1

  // ----------------------------------------------------------------- varints

  /** `write_varint`. */
  method WriteVarint(value: u64) returns (buf: Bytes)
    ensures buf == Varint(value) && |buf| <= 10
  {
    buf := [];
    var v: nat := value;
    while v >= 128
      invariant buf + Varint(v) == Varint(value)
      decreases v
    {
      buf := buf + [128 + v % 128];
      v := v / 128;
    }
    buf := buf + [v];
    assert Pow128(10) == 128 * 128 * 128 * 128 * 128 * 128 * 128 * 128 * 128 * 128;
    VarintLength(value, 10);
  }

  datatype VarintRead = EndOfInput | Malformed(error: Error) | Value(value: u64, rest: Bytes)

  /**
   The groups from `shift` on. The bits below `shift` are in `acc`, so the OR of
   the source is an addition; a shift drops what leaves 64 bits.
   */
  function ReadVarintFrom(bs: Bytes, shift: nat, acc: nat): (r: VarintRead)
    ensures r.Value? ==> |r.rest| < |bs|
    ensures r.EndOfInput? ==> bs == [] && shift == 0
    ensures r.Malformed? ==> r.error != Panic
    decreases |bs|
  {
    if bs == [] then (if shift == 0 then EndOfInput else Malformed(Io))
    else
      var acc' := (acc + bs[0] % 128 * Pow2(shift)) % TWO_64;
      if bs[0] < 128 then Value(acc', bs[1..])
      else if shift + 7 >= 64 then Malformed(Deserialization)
      else ReadVarintFrom(bs[1..], shift + 7, acc')
  }

  /** `read_varint_opt`. */
  method ReadVarintOpt(bs: Bytes) returns (r: VarintRead)
    ensures r == ReadVarintFrom(bs, 0, 0)
  {
    var result: nat, shift, rest := 0, 0, bs;
    for k := 0 to 10
      invariant shift == 7 * k && shift < 64
      invariant ReadVarintFrom(bs, 0, 0) == ReadVarintFrom(rest, shift, result)
    {
      if rest == [] {
        return if shift == 0 then EndOfInput else Malformed(Io);
      }
      var byte := rest[0];
      rest := rest[1..];
      result := (result + byte % 128 * Pow2(shift)) % TWO_64;
      if byte < 128 {
        return Value(result, rest);
      }
      shift := shift + 7;
      if shift >= 64 {
        return Malformed(Deserialization);
      }
    }
    assert false;
    r := Malformed(Deserialization);
  }

  lemma {:induction false} Pow2Sum(a: nat, b: nat)
    ensures Pow2(a + b) == Pow2(a) * Pow2(b)
    decreases b
  {
    if b > 0 {
      Pow2Sum(a, b - 1);
    }
  }

  lemma Pow2Of7And64()
    ensures Pow2(7) == 128 && Pow2(64) == TWO_64
  {
    assert Pow2(7) == 128 && Pow2(8) == 256;
    hide Pow2;
    Pow2Sum(8, 8);
    assert Pow2(16) == 65536;
    Pow2Sum(16, 16);
    assert Pow2(32) == 0x1_0000_0000;
    Pow2Sum(32, 32);
  }

  lemma GroupArithmetic(n: nat, p: nat, acc: nat)
    requires n >= 128 && acc + n * p < TWO_64
    ensures acc + n % 128 * p + n / 128 * (128 * p) == acc + n * p
    ensures 128 * p <= n * p
    ensures acc + n % 128 * p < TWO_64
  {
    var q, m := n / 128, n % 128;
    assert n == 128 * q + m;
    Distribute(128 * q, m, p);
    Reassociate(q, p);
    Grow(1, q, 128 * p);
    Grow(0, m, p);
  }

  lemma Distribute(a: nat, b: nat, p: nat)
    ensures (a + b) * p == a * p + b * p
  {
  }

  lemma Reassociate(q: nat, p: nat)
    ensures 128 * q * p == q * (128 * p)
  {
  }

  lemma Grow(a: nat, b: nat, p: nat)
    requires a <= b
    ensures a * p <= b * p
  {
  }

  lemma LastGroup(b: byte, shift: nat, acc: nat, suffix: Bytes)
    requires b < 128 && acc + b * Pow2(shift) < TWO_64
    ensures ReadVarintFrom([b] + suffix, shift, acc) == Value(acc + b * Pow2(shift), suffix)
  {
    hide Pow2;
    assert b % 128 == b;
    assert ([b] + suffix)[1..] == suffix;
  }

  lemma OneGroup(m: nat, shift: nat, acc: nat, rest: Bytes)
    requires m < 128 && shift + 7 < 64 && acc + m * Pow2(shift) < TWO_64
    ensures ReadVarintFrom([128 + m] + rest, shift, acc) == ReadVarintFrom(rest, shift + 7, acc + m * Pow2(shift))
  {
    hide Pow2;
    var bs := [128 + m] + rest;
    assert bs[0] % 128 == m;
    assert bs[1..] == rest;
    ContinuedGroup(bs, shift, acc, m * Pow2(shift));
  }

  lemma ContinuedGroup(bs: Bytes, shift: nat, acc: nat, value: nat)
    requires bs != [] && bs[0] >= 128 && shift + 7 < 64
    requires value == bs[0] % 128 * Pow2(shift) && acc + value < TWO_64
    ensures ReadVarintFrom(bs, shift, acc) == ReadVarintFrom(bs[1..], shift + 7, acc + value)
  {
    hide Pow2;
  }

  /** Reading after writing, for the part of a value above `shift`. */
  lemma {:induction false} VarintReadBack(n: nat, shift: nat, acc: nat, suffix: Bytes)
    requires acc + n * Pow2(shift) < TWO_64
    ensures ReadVarintFrom(Varint(n) + suffix, shift, acc) == Value(acc + n * Pow2(shift), suffix)
    decreases n
  {
    hide Pow2, ReadVarintFrom;
    if n < 128 {
      LastGroup(n, shift, acc, suffix);
    } else {
      var rest := Varint(n / 128) + suffix;
      assert Varint(n) + suffix == [128 + n % 128] + rest;
      GroupArithmetic(n, Pow2(shift), acc);
      MoreGroups(n, shift, acc);
      OneGroup(n % 128, shift, acc, rest);
      VarintReadBack(n / 128, shift + 7, acc + n % 128 * Pow2(shift), suffix);
    }
  }

  /** A value with another group to come still has room for it. */
  lemma MoreGroups(n: nat, shift: nat, acc: nat)
    requires n >= 128 && acc + n * Pow2(shift) < TWO_64
    ensures Pow2(shift + 7) == 128 * Pow2(shift) && shift + 7 < 64
  {
    hide Pow2;
    GroupArithmetic(n, Pow2(shift), acc);
    Pow2Of7And64();
    Pow2Sum(shift, 7);
    if shift + 7 >= 64 {
      Pow2Monotone(64, shift + 7);
    }
  }

  /** `read_varint_opt` after `write_varint`, for every 64-bit value. */
  lemma CarVarintRoundTrip(n: u64, suffix: Bytes)
    ensures ReadVarintFrom(Varint(n) + suffix, 0, 0) == Value(n, suffix)
  {
    VarintReadBack(n, 0, 0, suffix);
  }

  // ------------------------------------------------------------------ header

  const KEY_ROOTS: Bytes := [0x72, 0x6F, 0x6F, 0x74, 0x73]
  const KEY_VERSION: Bytes := [0x76, 0x65, 0x72, 0x73, 0x69, 0x6F, 0x6E]

  datatype CarHeader = CarHeader(version: u64, roots: seq<Cid>)

  function LinksOf(roots: seq<Cid>): (r: seq<Ipld>)
    ensures |r| == |roots|
    ensures forall i :: 0 <= i < |r| ==> r[i] == Link(roots[i])
  {
    seq(|roots|, i requires 0 <= i < |roots| => Link(roots[i]))
  }

  function HeaderIpld(header: CarHeader): Ipld {
    Map(Insert(Insert([], KEY_VERSION, Integer(header.version)), KEY_ROOTS, List(LinksOf(header.roots))))
  }

  /** `CarHeader::encode`. */
  function EncodeHeader(header: CarHeader): Bytes {
    ToDagCbor(HeaderIpld(header))
  }

  function RootsFrom(items: seq<Ipld>): Result<seq<Cid>> {
    if items == [] then Ok([])
    else if !items[0].Link? then Err(Deserialization)
    else match RootsFrom(items[1..])
      case Err(e) => Err(e)
      case Ok(rs) => Ok([items[0].cid] + rs)
  }

  /** `CarHeader::decode`. */
  function DecodeHeader(pf: Platform, bs: Bytes): Result<CarHeader> {
    match FromDagCbor(pf, bs)
    case Err(e) => Err(e)
    case Ok(v) =>
      if !v.Map? then Err(Deserialization)
      else match Lookup(v.entries, KEY_VERSION)
        case Some(Integer(i)) =>
          if i % TWO_64 != CAR_VERSION then Err(Deserialization)
          else (match Lookup(v.entries, KEY_ROOTS)
                case Some(List(items)) =>
                  (match RootsFrom(items)
                   case Err(e) => Err(e)
                   case Ok(roots) => Ok(CarHeader(CAR_VERSION, roots)))
                case _ => Err(Deserialization))
        case _ => Err(Deserialization)
  }

  lemma {:induction false} RootsFromLinks(roots: seq<Cid>)
    ensures RootsFrom(LinksOf(roots)) == Ok(roots)
  {
    if roots != [] {
      RootsFromLinks(roots[1..]);
      assert LinksOf(roots)[1..] == LinksOf(roots[1..]);
      assert roots == [roots[0]] + roots[1..];
    }
  }

  lemma HeaderKeys()
    ensures ValidText(KEY_ROOTS) && ValidText(KEY_VERSION)
    ensures Less(KEY_ROOTS, KEY_VERSION) && !Less(KEY_VERSION, KEY_ROOTS) && KEY_ROOTS != KEY_VERSION
  {
    hide ValidUtf8;
    AsciiIsUtf8(KEY_ROOTS);
    AsciiIsUtf8(KEY_VERSION);
  }

  /** Inserting the smaller key second gives the same two-entry map. */
  lemma TwoKeysReversed(k: Bytes, v: Ipld, l: Bytes, w: Ipld)
    requires Less(k, l) && k != l
    ensures Insert(Insert([], l, w), k, v) == [Entry(k, v), Entry(l, w)]
  {
    hide Less;
    assert Insert([], l, w) == [Entry(l, w)];
  }

  lemma HeaderShape(header: CarHeader)
    ensures HeaderIpld(header)
         == Map([Entry(KEY_ROOTS, List(LinksOf(header.roots))), Entry(KEY_VERSION, Integer(header.version))])
  {
    hide Less, Insert, KEY_ROOTS, KEY_VERSION, LinksOf;
    HeaderKeys();
    TwoKeysReversed(KEY_ROOTS, List(LinksOf(header.roots)), KEY_VERSION, Integer(header.version));
  }

  /** A header for any roots decodes to itself. */
  lemma HeaderRoundTrip(pf: Platform, roots: seq<Cid>)
    requires pf.ListFits(|roots|)
    ensures DecodeHeader(pf, EncodeHeader(CarHeader(CAR_VERSION, roots))) == Ok(CarHeader(CAR_VERSION, roots))
  {
    hide Less, Insert, Lookup, KEY_ROOTS, KEY_VERSION, HeaderIpld, ToDagCbor, FromDagCbor, ValidText, RootsFrom;
    var header := CarHeader(CAR_VERSION, roots);
    var items := LinksOf(roots);
    HeaderKeys();
    HeaderShape(header);
    forall i | 0 <= i < |items| ensures Representable(pf, items[i]) && IntegersFit(items[i]) {
      assert items[i] == Link(roots[i]);
    }
    ListRepresentable(pf, items);
    PairRepresentable(pf, KEY_ROOTS, List(items), KEY_VERSION, Integer(CAR_VERSION));
    RoundTripIff(pf, HeaderIpld(header));
    TwoKeys(KEY_ROOTS, List(items), KEY_VERSION, Integer(CAR_VERSION));
    RootsFromLinks(roots);
  }

  // ------------------------------------------------------------- compression

  datatype Algorithm = NoCompression | Zstd | Lz4

  /** The external compressors; `None` is failure. */
  datatype Codecs = Codecs(zstd: (Bytes, nat) -> Option<Bytes>, unzstd: Bytes -> Option<Bytes>,
                           lz4: (Bytes, nat) -> Option<Bytes>, unlz4: Bytes -> Option<Bytes>)

  /** Each decompressor undoes its compressor, and Zstd rejects what LZ4 wrote. */
  ghost predicate Faithful(codecs: Codecs) {
    (forall d, l :: codecs.zstd(d, l).Some? ==> codecs.unzstd(codecs.zstd(d, l).value) == Some(d))
    && (forall d, l :: codecs.lz4(d, l).Some? ==>
          codecs.unlz4(codecs.lz4(d, l).value) == Some(d) && codecs.unzstd(codecs.lz4(d, l).value) == None)
  }

  /** `compress`. */
  function Compress(codecs: Codecs, data: Bytes, algorithm: Algorithm, level: nat): Result<Bytes> {
    if level > 9 then Err(InvalidInput)
    else match algorithm
      case NoCompression => Ok(data)
      case Zstd => FromOption(codecs.zstd(data, level))
      case Lz4 => FromOption(codecs.lz4(data, level))
  }

  function FromOption<T>(o: Option<T>): Result<T> {
    if o.Some? then Ok(o.value) else Err(Internal)
  }

  /** The reader's decompression: Zstd first, LZ4 if that fails. */
  function Decompress(codecs: Codecs, raw: Bytes): Result<Bytes> {
    match codecs.unzstd(raw)
    case Some(d) => Ok(d)
    case None => FromOption(codecs.unlz4(raw))
  }

  // ---------------------------------------------------------------- sections

  type Compression = Option<(Algorithm, int)>

  /** The flag byte and the stored data of a block. */
  function Stored(codecs: Codecs, comp: Compression, data: Bytes): Result<(byte, Bytes)> {
    match comp
    case None => Ok((0, data))
    case Some((algorithm, level)) =>
      match Compress(codecs, data, algorithm, level % 256)
      case Err(e) => Err(e)
      case Ok(c) => Ok((if algorithm == NoCompression then 0 else 1, c))
  }

  /** What `write_block` appends. */
  function Section(codecs: Codecs, comp: Compression, block: Block): Result<Bytes> {
    match Stored(codecs, comp, block.data)
    case Err(e) => Err(e)
    case Ok((flag, data)) =>
      var payload := CidBytes(block.cid) + ([flag] + data);
      Ok(Varint(|payload|) + payload)
  }

  datatype CarStats = CarStats(blocksProcessed: nat, uncompressedBytes: nat, compressedBytes: nat, blocksCompressed: nat)

  class CarWriter {
    var out: Bytes
    var headerWritten: bool
    const compression: Compression
    const codecs: Codecs
    var stats: CarStats

    /** `CarWriterBuilder::build`: the header is written at once. */
    constructor (codecs: Codecs, compression: Compression, roots: seq<Cid>)
      requires |EncodeHeader(CarHeader(CAR_VERSION, roots))| <= MAX_ALLOC
      ensures headerWritten && this.codecs == codecs && this.compression == compression
      ensures var h := EncodeHeader(CarHeader(CAR_VERSION, roots));
              out == Varint(|h|) + h
      ensures stats == CarStats(0, 0, 0, 0)
    {
      hide EncodeHeader;
      this.codecs := codecs;
      this.compression := compression;
      stats := CarStats(0, 0, 0, 0);
      var headerBytes := EncodeHeader(CarHeader(CAR_VERSION, roots));
      var length := WriteVarint(|headerBytes|);
      out := length + headerBytes;
      headerWritten := true;
    }

    /** `write_block`: a section is appended, or nothing is written. */
    method WriteBlock(block: Block) returns (r: Result<()>)
      requires Section(codecs, compression, block).Ok? ==> |Section(codecs, compression, block).value| <= MAX_ALLOC
      modifies this
      ensures headerWritten == old(headerWritten)
      ensures !headerWritten ==> r == Err(InvalidData) && out == old(out) && stats == old(stats)
      ensures headerWritten ==>
                match Section(codecs, compression, block)
                case Err(e) => r == Err(e) && out == old(out)
                case Ok(section) => r == Ok(()) && out == old(out) + section
      ensures headerWritten ==>
                stats.blocksProcessed == old(stats).blocksProcessed + 1
                && stats.uncompressedBytes == old(stats).uncompressedBytes + |block.data|
      ensures r.Ok? ==> var (flag, data) := Stored(codecs, compression, block.data).value;
                        stats.compressedBytes == old(stats).compressedBytes + |data|
                        && stats.blocksCompressed == old(stats).blocksCompressed + flag
      ensures r.Err? ==> stats.compressedBytes == old(stats).compressedBytes
                         && stats.blocksCompressed == old(stats).blocksCompressed
    {
      hide Compress, CidBytes;
      if !headerWritten {
        return Err(InvalidData);
      }
      stats := stats.(blocksProcessed := stats.blocksProcessed + 1,
                      uncompressedBytes := stats.uncompressedBytes + |block.data|);
      var stored := Stored(codecs, compression, block.data);
      if stored.Err? {
        return Err(stored.error);
      }
      var (flag, finalData) := stored.value;
      stats := stats.(blocksCompressed := stats.blocksCompressed + flag,
                      compressedBytes := stats.compressedBytes + |finalData|);
      var cidBytes := CidBytes(block.cid);
      var totalLen := |cidBytes| + 1 + |finalData|;
      assert |cidBytes + ([flag] + finalData)| == totalLen;
      var length := WriteVarint(totalLen);
      out := out + length;
      out := out + cidBytes;
      out := out + [flag];
      out := out + finalData;
      assert out == old(out) + (Varint(totalLen) + (cidBytes + ([flag] + finalData)));
      r := Ok(());
    }
  }

  // ------------------------------------------------------------------ reader

  datatype BlockRead = NoMore | Failed(error: Error) | Next(block: Block, rest: Bytes)

  /** The block inside a section's payload. */
  function OpenPayload(sha: Sha256, codecs: Codecs, payload: Bytes): Result<Block> {
    match ReadCid(payload)
    case Fails(_) => Err(CidError)
    case Got(cid, cursor) =>
      if cursor == [] then Err(Deserialization)
      else
        var flagged := cursor[0] == 0 || cursor[0] == 1;
        var raw := if flagged then cursor[1..] else cursor;
        var data := if cursor[0] == 1 then Decompress(codecs, raw) else Ok(raw);
        if data.Err? then Err(data.error)
        else match NewBlock(sha, data.value)
          case Err(e) => Err(e)
          case Ok(block) => if block.cid == cid then Ok(block) else Err(InvalidData)
  }

  /** `read_block`. */
  function ReadSection(sha: Sha256, codecs: Codecs, bs: Bytes): (r: BlockRead)
    ensures r.Next? ==> |r.rest| < |bs|
  {
    match ReadVarintFrom(bs, 0, 0)
    case EndOfInput => NoMore
    case Malformed(e) => Failed(e)
    case Value(n, rest) =>
      if n > MAX_ALLOC then Failed(Panic)
      else if |rest| < n then Failed(Io)
      else match OpenPayload(sha, codecs, rest[..n])
        case Err(e) => Failed(e)
        case Ok(block) => Next(block, rest[n..])
  }

  /** `read_all_blocks`. */
  function ReadAll(sha: Sha256, codecs: Codecs, bs: Bytes): Result<seq<Block>>
    decreases |bs|
  {
    match ReadSection(sha, codecs, bs)
    case NoMore => Ok([])
    case Failed(e) => Err(e)
    case Next(block, rest) =>
      match ReadAll(sha, codecs, rest)
      case Err(e) => Err(e)
      case Ok(blocks) => Ok([block] + blocks)
  }

  /** `CarReader::new`: the roots, and the stream after the header. */
  function Open(pf: Platform, bs: Bytes): Result<(seq<Cid>, Bytes)> {
    match ReadVarintFrom(bs, 0, 0)
    case EndOfInput => Err(Deserialization)
    case Malformed(e) => Err(e)
    case Value(n, rest) =>
      if n > MAX_ALLOC then Err(Panic)
      else if |rest| < n then Err(Io)
      else match DecodeHeader(pf, rest[..n])
        case Err(e) => Err(e)
        case Ok(header) => Ok((header.roots, rest[n..]))
  }

  class CarReader {
    const sha: Sha256
    const codecs: Codecs
    var rest: Bytes

    constructor (sha: Sha256, codecs: Codecs, rest: Bytes)
      ensures this.sha == sha && this.codecs == codecs && this.rest == rest
    {
      this.sha := sha;
      this.codecs := codecs;
      this.rest := rest;
    }

    method ReadBlock() returns (r: Result<Option<Block>>)
      modifies this
      ensures match ReadSection(sha, codecs, old(rest))
              case NoMore => r == Ok(None) && rest == old(rest) == []
              case Failed(e) => r == Err(e)
              case Next(block, rest') => r == Ok(Some(block)) && rest == rest'
    {
      hide OpenPayload;
      var len := ReadVarintOpt(rest);
      if len.EndOfInput? {
        return Ok(None);
      }
      if len.Malformed? {
        return Err(len.error);
      }
      if len.value > MAX_ALLOC {
        return Err(Panic);
      }
      if |len.rest| < len.value {
        return Err(Io);
      }
      rest := len.rest[len.value..];
      var block := OpenPayload(sha, codecs, len.rest[..len.value]);
      r := if block.Err? then Err(block.error) else Ok(Some(block.value));
    }

    method ReadAllBlocks() returns (r: Result<seq<Block>>)
      modifies this
      ensures r == ReadAll(sha, codecs, old(rest))
    {
      hide ReadSection;
      var blocks: seq<Block> := [];
      ghost var goal := ReadAll(sha, codecs, rest);
      assert goal.Ok? ==> [] + goal.value == goal.value;
      while true
        invariant var more := ReadAll(sha, codecs, rest);
                  goal == if more.Ok? then Ok(blocks + more.value) else more
        decreases |rest|
      {
        ghost var before := rest;
        SectionShrinks(sha, codecs, before);
        var block := ReadBlock();
        if block.Err? {
          return Err(block.error);
        }
        if block.value.None? {
          assert blocks + [] == blocks;
          return Ok(blocks);
        }
        ghost var more := ReadAll(sha, codecs, rest);
        if more.Ok? {
          assert blocks + ([block.value.value] + more.value) == blocks + [block.value.value] + more.value;
        }
        blocks := blocks + [block.value.value];
      }
    }
  }

  /** `CarReader::new`: the header is read and checked, and the reader stands after it. */
  method OpenArchive(sha: Sha256, pf: Platform, codecs: Codecs, bytes: Bytes) returns (r: Result<(seq<Cid>, CarReader)>)
    ensures match Open(pf, bytes)
            case Err(e) => r == Err(e)
            case Ok((roots, stream)) =>
              r.Ok? && r.value.0 == roots && fresh(r.value.1)
              && r.value.1.rest == stream && r.value.1.sha == sha && r.value.1.codecs == codecs
  {
    hide DecodeHeader;
    var len := ReadVarintOpt(bytes);
    if len.EndOfInput? {
      return Err(Deserialization);
    }
    if len.Malformed? {
      return Err(len.error);
    }
    if len.value > MAX_ALLOC {
      return Err(Panic);
    }
    if |len.rest| < len.value {
      return Err(Io);
    }
    var header := DecodeHeader(pf, len.rest[..len.value]);
    if header.Err? {
      return Err(header.error);
    }
    var reader := new CarReader(sha, codecs, len.rest[len.value..]);
    r := Ok((header.value.roots, reader));
  }

  /** Reading a section panics exactly when its length prefix cannot be allocated. */
  lemma SectionPanicsIff(sha: Sha256, codecs: Codecs, bs: Bytes)
    ensures ReadSection(sha, codecs, bs) == Failed(Panic)
       <==> var len := ReadVarintFrom(bs, 0, 0); len.Value? && len.value > MAX_ALLOC
  {
    hide ReadVarintFrom, OpenPayload;
    var len := ReadVarintFrom(bs, 0, 0);
    if len.Value? && len.value <= |len.rest| {
      PayloadNeverPanics(sha, codecs, len.rest[..len.value]);
    }
  }

  lemma PayloadNeverPanics(sha: Sha256, codecs: Codecs, payload: Bytes)
    ensures OpenPayload(sha, codecs, payload) != Err(Panic)
  {
    hide ReadCid, CidOf;
  }

  /** Opening panics exactly on such a prefix, or when decoding the header comes to an oversized head. */
  lemma OpenPanicsIff(pf: Platform, bs: Bytes)
    ensures Open(pf, bs) == Err(Panic)
       <==> var len := ReadVarintFrom(bs, 0, 0);
            len.Value?
            && (len.value > MAX_ALLOC
                || (len.value <= |len.rest|
                    && exists at :: Reaches(pf, len.rest[..len.value], at) && Oversized(pf, at)))
  {
    hide ReadVarintFrom, DecodeHeader, Reaches, Oversized;
    var len := ReadVarintFrom(bs, 0, 0);
    if len.Value? && len.value <= |len.rest| {
      var header := len.rest[..len.value];
      HeaderPanicsIff(pf, header);
      CrashIff(pf, header);
    }
  }

  lemma HeaderPanicsIff(pf: Platform, header: Bytes)
    ensures DecodeHeader(pf, header) == Err(Panic) <==> FromDagCbor(pf, header) == Err(Panic)
  {
    hide FromDagCbor, Lookup, RootsFrom, KEY_ROOTS, KEY_VERSION;
    forall items: seq<Ipld> ensures RootsFrom(items) != Err(Panic) {
      RootsNeverPanic(items);
    }
  }

  lemma {:induction false} RootsNeverPanic(items: seq<Ipld>)
    ensures RootsFrom(items) != Err(Panic)
  {
    if items != [] {
      RootsNeverPanic(items[1..]);
    }
  }

  /** Any length prefix above `isize::MAX`, whatever follows, makes both calls panic. */
  lemma HugePrefixPanics(sha: Sha256, pf: Platform, codecs: Codecs, n: u64, suffix: Bytes)
    requires n > MAX_ALLOC
    ensures ReadSection(sha, codecs, Varint(n) + suffix) == Failed(Panic)
    ensures Open(pf, Varint(n) + suffix) == Err(Panic)
  {
    hide ReadVarintFrom, Varint, OpenPayload, DecodeHeader;
    CarVarintRoundTrip(n, suffix);
  }

  lemma SectionShrinks(sha: Sha256, codecs: Codecs, bs: Bytes)
    ensures ReadSection(sha, codecs, bs).Next? ==> |ReadSection(sha, codecs, bs).rest| < |bs|
  {
  }

  // -------------------------------------------------------------- round trip

  /** The block carries the identifier `Block::new` would give it, and is of legal size. */
  predicate Default(sha: Sha256, block: Block) {
    ValidSize(block.data) && block.cid == CidOf(sha, RAW, block.data)
  }

  lemma StoredOpens(codecs: Codecs, comp: Compression, data: Bytes)
    requires Faithful(codecs) && Stored(codecs, comp, data).Ok?
    ensures var (flag, stored) := Stored(codecs, comp, data).value;
            (flag == 0 && stored == data) || (flag == 1 && Decompress(codecs, stored) == Ok(data))
  {
  }

  /** A written payload opens to its block exactly when the block carries its default identifier. */
  lemma PayloadOpensIff(sha: Sha256, codecs: Codecs, comp: Compression, block: Block)
    requires Faithful(codecs) && Stored(codecs, comp, block.data).Ok?
    ensures var (flag, stored) := Stored(codecs, comp, block.data).value;
            var r := OpenPayload(sha, codecs, CidBytes(block.cid) + ([flag] + stored));
            if Default(sha, block) then r == Ok(block) else r.Err?
  {
    hide ReadCid, CidBytes, Stored, Decompress, Faithful, CidOf;
    StoredOpens(codecs, comp, block.data);
    var (flag, stored) := Stored(codecs, comp, block.data).value;
    CidRoundTrip(block.cid, [flag] + stored);
    assert ([flag] + stored)[1..] == stored;
  }

  lemma SectionReads(sha: Sha256, codecs: Codecs, comp: Compression, block: Block, suffix: Bytes)
    requires Faithful(codecs) && Section(codecs, comp, block).Ok?
    requires |Section(codecs, comp, block).value| <= MAX_ALLOC
    ensures var r := ReadSection(sha, codecs, Section(codecs, comp, block).value + suffix);
            if Default(sha, block) then r == Next(block, suffix) else r.Failed?
  {
    hide Stored, OpenPayload, CidBytes, Faithful, Default, Varint, ReadVarintFrom;
    PayloadOpensIff(sha, codecs, comp, block);
    var (flag, stored) := Stored(codecs, comp, block.data).value;
    var payload := CidBytes(block.cid) + ([flag] + stored);
    var section := Section(codecs, comp, block).value;
    assert section + suffix == Varint(|payload|) + (payload + suffix);
    CarVarintRoundTrip(|payload|, payload + suffix);
    assert (payload + suffix)[..|payload|] == payload && (payload + suffix)[|payload|..] == suffix;
  }

  /** All sections can be written, and are of a length a machine can hold. */
  predicate Writable(codecs: Codecs, comp: Compression, blocks: seq<Block>) {
    forall i :: 0 <= i < |blocks| ==>
      Section(codecs, comp, blocks[i]).Ok? && |Section(codecs, comp, blocks[i]).value| <= MAX_ALLOC
  }

  function Sections(codecs: Codecs, comp: Compression, blocks: seq<Block>): Bytes
    requires Writable(codecs, comp, blocks)
  {
    if blocks == [] then []
    else Section(codecs, comp, blocks[0]).value + Sections(codecs, comp, blocks[1..])
  }

  /** The whole archive `CarWriter` produces. */
  function Archive(codecs: Codecs, comp: Compression, roots: seq<Cid>, blocks: seq<Block>): Bytes
    requires Writable(codecs, comp, blocks)
  {
    var h := EncodeHeader(CarHeader(CAR_VERSION, roots));
    Varint(|h|) + h + Sections(codecs, comp, blocks)
  }

  lemma {:induction false} SectionsReadIff(sha: Sha256, codecs: Codecs, comp: Compression, blocks: seq<Block>)
    requires Faithful(codecs) && Writable(codecs, comp, blocks)
    ensures var r := ReadAll(sha, codecs, Sections(codecs, comp, blocks));
            if forall i :: 0 <= i < |blocks| ==> Default(sha, blocks[i]) then r == Ok(blocks) else r.Err?
  {
    hide Section, ReadSection, Faithful, Default;
    if blocks == [] {
      EmptyStream(sha, codecs);
    } else {
      var tail := blocks[1..];
      SectionReads(sha, codecs, comp, blocks[0], Sections(codecs, comp, tail));
      SectionsReadIff(sha, codecs, comp, tail);
      assert blocks == [blocks[0]] + tail;
      if Default(sha, blocks[0]) && !(forall i :: 0 <= i < |blocks| ==> Default(sha, blocks[i])) {
        var i :| 0 <= i < |blocks| && !Default(sha, blocks[i]);
        assert tail[i - 1] == blocks[i];
      }
    }
  }

  lemma EmptyStream(sha: Sha256, codecs: Codecs)
    ensures ReadSection(sha, codecs, []) == NoMore
  {
  }

  /**
   An archive opens to its roots, and its blocks read back in order to the end
   of the stream exactly when every block carries its default raw SHA-256
   identifier; one that does not makes the read fail.
   */
  lemma ArchiveRoundTripIff(sha: Sha256, pf: Platform, codecs: Codecs, comp: Compression, roots: seq<Cid>, blocks: seq<Block>)
    requires Faithful(codecs) && Writable(codecs, comp, blocks) && pf.ListFits(|roots|)
    requires |EncodeHeader(CarHeader(CAR_VERSION, roots))| <= MAX_ALLOC
    ensures Open(pf, Archive(codecs, comp, roots, blocks)).Ok?
    ensures var (openedRoots, stream) := Open(pf, Archive(codecs, comp, roots, blocks)).value;
            openedRoots == roots
            && (ReadAll(sha, codecs, stream) == Ok(blocks) <==> forall i :: 0 <= i < |blocks| ==> Default(sha, blocks[i]))
            && (ReadAll(sha, codecs, stream) == Ok(blocks) || ReadAll(sha, codecs, stream).Err?)
  {
    hide EncodeHeader, DecodeHeader, Sections, Varint, ReadVarintFrom, ReadAll, Default, Faithful, Section;
    var h := EncodeHeader(CarHeader(CAR_VERSION, roots));
    var body := Sections(codecs, comp, blocks);
    assert Archive(codecs, comp, roots, blocks) == Varint(|h|) + (h + body);
    CarVarintRoundTrip(|h|, h + body);
    assert (h + body)[..|h|] == h && (h + body)[|h|..] == body;
    HeaderRoundTrip(pf, roots);
    SectionsReadIff(sha, codecs, comp, blocks);
  }

  lemma {:induction false} SectionsSnoc(codecs: Codecs, comp: Compression, blocks: seq<Block>, i: nat)
    requires Writable(codecs, comp, blocks) && i < |blocks|
    ensures Sections(codecs, comp, blocks[..i + 1])
         == Sections(codecs, comp, blocks[..i]) + Section(codecs, comp, blocks[i]).value
    decreases |blocks|
  {
    hide Section;
    var s := blocks[..i + 1];
    if i == 0 {
      assert s[1..] == [] && blocks[..0] == [];
    } else {
      assert s[1..] == blocks[1..][..i] && blocks[..i][1..] == blocks[1..][..i - 1];
      SectionsSnoc(codecs, comp, blocks[1..], i - 1);
    }
  }

  /** Writing blocks one by one and reading the result returns roots and blocks exactly when all carry default CIDs. */
  method ArchiveAndRead(sha: Sha256, pf: Platform, codecs: Codecs, comp: Compression, roots: seq<Cid>, blocks: seq<Block>)
    returns (openedRoots: seq<Cid>, read: Result<seq<Block>>)
    requires Faithful(codecs) && Writable(codecs, comp, blocks) && pf.ListFits(|roots|)
    requires |EncodeHeader(CarHeader(CAR_VERSION, roots))| <= MAX_ALLOC
    ensures openedRoots == roots
    ensures read == Ok(blocks) <==> forall i :: 0 <= i < |blocks| ==> Default(sha, blocks[i])
    ensures read == Ok(blocks) || read.Err?
  {
    hide EncodeHeader, Section, Stored, Open, ReadAll, Varint, Faithful, Default;
    var writer := new CarWriter(codecs, comp, roots);
    ghost var start := writer.out;
    for i := 0 to |blocks|
      invariant writer.headerWritten && writer.codecs == codecs && writer.compression == comp
      invariant writer.out == start + Sections(codecs, comp, blocks[..i])
    {
      var written := writer.WriteBlock(blocks[i]);
      SectionsSnoc(codecs, comp, blocks, i);
    }
    assert blocks[..|blocks|] == blocks;
    assert writer.out == Archive(codecs, comp, roots, blocks);
    ArchiveRoundTripIff(sha, pf, codecs, comp, roots, blocks);
    var archive := OpenArchive(sha, pf, codecs, writer.out);
    openedRoots := archive.value.0;
    read := archive.value.1.ReadAllBlocks();
  }

  /** In particular no archive with a DAG-CBOR block, such as the chunker's link nodes, reads back. */
  lemma LinkNodesDoNotReadBack(sha: Sha256, codecs: Codecs, comp: Compression, blocks: seq<Block>, i: nat, data: Bytes)
    requires Faithful(codecs) && Writable(codecs, comp, blocks)
    requires i < |blocks| && blocks[i] == Block(CidOf(sha, DAG_CBOR, data), data)
    ensures ReadAll(sha, codecs, Sections(codecs, comp, blocks)).Err?
  {
    hide ReadAll, Sections, Section, Faithful;
    assert !Default(sha, blocks[i]);
    SectionsReadIff(sha, codecs, comp, blocks);
  }

  /** The archive of a chunked file reads back exactly when the file is a single chunk. */
  lemma ChunkedArchiveIff(sha: Sha256, codecs: Codecs, comp: Compression, config: Chunking.Config, data: Bytes)
    requires config.Valid() && data != [] && Chunking.Builds(config, data)
    requires Chunking.BlocksFit(Chunking.Chunked(sha, config, data).blocks)
    requires Faithful(codecs) && Writable(codecs, comp, Chunking.Chunked(sha, config, data).blocks)
    ensures var blocks := Chunking.Chunked(sha, config, data).blocks;
            ReadAll(sha, codecs, Sections(codecs, comp, blocks)) == Ok(blocks) <==> |Chunking.Pieces(config, data)| == 1
  {
    hide ReadAll, Sections, Section, Faithful, Writable, Chunking.Pieces;
    var pieces, blocks := Chunking.Pieces(config, data), Chunking.Chunked(sha, config, data).blocks;
    if |pieces| == 1 {
      Chunking.LeafBlock(sha, pieces[0]);
      Chunking.OneLeafBlocks(sha, pieces[0], config.maxLinks);
      assert Chunking.Leaves(pieces) == Chunking.Leaves([pieces[0]]);
      assert blocks == [Block(CidOf(sha, RAW, pieces[0]), pieces[0])];
      SectionsReadIff(sha, codecs, comp, blocks);
    } else {
      var i, bytes := Chunking.SomeNodeBlock(sha, Chunking.Leaves(pieces), config.maxLinks);
      LinkNodesDoNotReadBack(sha, codecs, comp, blocks, i, bytes);
    }
  }
}
