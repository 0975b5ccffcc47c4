/** Content-addressed blocks. */
module Blocks {
  import opened Basics
  import opened Cids

  const MIN_BLOCK_SIZE: nat := 1
  const MAX_BLOCK_SIZE: nat := 2 * 1024 * 1024

  datatype Block = Block(cid: Cid, data: Bytes)

  predicate ValidSize(data: Bytes) {
    MIN_BLOCK_SIZE <= |data| <= MAX_BLOCK_SIZE
  }

  /** The identifier `CidBuilder` computes: version 1, SHA2-256. */
  function CidOf(sha: Sha256, codec: u64, data: Bytes): Cid {
    V1(codec, SHA2_256, sha(data))
  }

  /** `BlockBuilder::build`; `Block::new` is the case of the raw codec. */
  function BuildBlock(sha: Sha256, codec: u64, data: Bytes): Result<Block> {
    if ValidSize(data) then Ok(Block(CidOf(sha, codec, data), data)) else Err(InvalidData)
  }

  function NewBlock(sha: Sha256, data: Bytes): Result<Block> {
    BuildBlock(sha, RAW, data)
  }
}
