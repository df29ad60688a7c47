/** Blocks of the chain and their computed identity (blocktrain/blocktrain.go). */
module Blocks {
  import opened Primitives
  import opened MerkleTree

  /** A sealed block. The timestamp is time.Time reduced to its UnixNano value,
      the only part of it the ledger ever reads. */
  datatype Block = Block(timestamp: int, prevHash: Bytes, txHash: Bytes)

  /** The bytes Block.Hash digests: TXHash ‖ decimal(Timestamp nanos) ‖ PrevHash,
      built as a fresh sequence, so TXHash itself is never written to. */
  function HashInput(b: Block): Bytes {
    b.txHash + FormatInt(b.timestamp) + b.prevHash
  }

  /** The hash input splits back into the three fields around the decimal
      timestamp. */
  lemma HashInputParts(b: Block)
    ensures var r := HashInput(b);
      && |r| == |b.txHash| + |FormatInt(b.timestamp)| + |b.prevHash|
      && r[..|b.txHash|] == b.txHash
      && r[|b.txHash|..|r| - |b.prevHash|] == FormatInt(b.timestamp)
      && r[|r| - |b.prevHash|..] == b.prevHash
  {
  }

  /** Block.Hash: the block's identity, a 32-byte digest of all three fields. */
  function BlockHash(b: Block): (h: Bytes)
    ensures |h| == 32
  {
    Hash(HashInput(b))
  }

  /** Two blocks whose hash fields are digests (32 bytes long) are digested
      from the same bytes only if they are the same block: the hash input
      encodes the block without ambiguity. */
  lemma HashInputInjective(a: Block, b: Block)
    requires |a.txHash| == 32 && |a.prevHash| == 32
    requires |b.txHash| == 32 && |b.prevHash| == 32
    requires HashInput(a) == HashInput(b)
    ensures a == b
  {
    HashInputParts(a);
    HashInputParts(b);
    FormatIntInjective(a.timestamp, b.timestamp);
  }

  /** NewBlock(tx, prevBlock): a block over the tree root, linked to the
      previous block's hash, stamped with the current time `now`. */
  function NewBlock(tx: Tree, prevBlock: Block, now: int): (b: Block)
    requires tx.Node?
    ensures b.prevHash == BlockHash(prevBlock) && |b.prevHash| == 32
    ensures b.txHash == tx.hash && b.timestamp == now
  {
    Block(now, BlockHash(prevBlock), tx.hash)
  }
}
