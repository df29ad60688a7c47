/** The chain of blocktrain/blocktrain.go: the pending buffer, sealing a full
    buffer into a stored tree and a linked block, and verification by a scan
    of the buffer and a walk back along the blocks. */
module BlockTrain {
  import opened Primitives
  import opened MerkleTree
  import opened Merkle
  import opened Blocks
  import opened RamStore

  /** The number of pending items sealed together into one block. */
  const BufferSize: nat := 4

  datatype VerificationStatus = InBuffer | InBufferInvalid | Invalid | UnknownTxID | Verified

  /** StatusToString: the user-facing text of each status. */
  function StatusToString(status: VerificationStatus): (s: string)
    ensures s != []
  {
    match status
    case InBuffer => "In buffer (not yet in a block)"
    case InBufferInvalid => "In buffer (not yet in a block) / Invalid (data-txID mismatch)"
    case Invalid => "Invalid"
    case UnknownTxID => "Unknown transaction ID"
    case Verified => "Verified"
  }

  /** The five statuses read differently. */
  lemma StatusStringsDistinct(a: VerificationStatus, b: VerificationStatus)
    requires a != b
    ensures StatusToString(a) != StatusToString(b)
  {
  }

  // ---------------------------------------------------------------------------
  // What Verify answers
  // ---------------------------------------------------------------------------

  /** The status decided by the first buffered item carrying txID, compared
      byte for byte with the claimed data; None when no item carries txID. */
  function BufferStatus(buffer: seq<MerkleData>, txID: Bytes, data: Bytes): Option<VerificationStatus>
    decreases |buffer|
  {
    if buffer == [] then None
    else if buffer[0].txID == txID then Some(if buffer[0].data == data then InBuffer else InBufferInvalid)
    else BufferStatus(buffer[1..], txID, data)
  }

  /** A store lookup: the entry under key, None when there is none. */
  function Lookup<V>(m: map<Bytes, V>, key: Bytes): Option<V> {
    if key in m then Some(m[key]) else None
  }

  /** The tree of the block is in the store. */
  predicate HasTree(b: Block, trees: map<Bytes, Tree>) {
    b.txHash in trees && trees[b.txHash].Node?
  }

  /** The tree of every stored block is in the store. */
  predicate TreesPresent(blocks: map<Bytes, Block>, trees: map<Bytes, Tree>) {
    forall h :: h in blocks ==> HasTree(blocks[h], trees)
  }

  /** The answer of a tree that contains txID: its checker's verdict. */
  function TreeStatus(tree: Tree, txID: Bytes, data: Bytes): VerificationStatus
    requires tree.Node?
  {
    if Authentic(tree, txID, data) then Verified else Invalid
  }

  /** Where the walk of Verify ends: at the tree of a block that contains
      txID, or past the oldest block. */
  datatype Outcome = Found(tree: Tree) | NotFound

  /** The walk of Verify from `block` back along PrevHash, following at most
      `fuel` links to stored blocks: the tree of the newest block that
      contains txID, NotFound past the oldest block, None when the fuel runs
      out first. */
  function SealedOutcome(blocks: map<Bytes, Block>, trees: map<Bytes, Tree>, block: Option<Block>,
                         txID: Bytes, fuel: nat): (r: Option<Outcome>)
    requires TreesPresent(blocks, trees)
    requires block.Some? ==> HasTree(block.value, trees)
    ensures r.Some? && r.value.Found? ==> r.value.tree.Node? && Contains(r.value.tree, txID)
    decreases fuel
  {
    match block
    case None => Some(NotFound)
    case Some(b) =>
      var tree := trees[b.txHash];
      if Contains(tree, txID) then Some(Found(tree))
      else if b.prevHash !in blocks then Some(NotFound)
      else if fuel == 0 then None
      else SealedOutcome(blocks, trees, Lookup(blocks, b.prevHash), txID, fuel - 1)
  }

  /** The sealed part of Verify's answer: the verdict of the tree the walk
      ends at, UnknownTxID past the oldest block. */
  function SealedStatus(blocks: map<Bytes, Block>, trees: map<Bytes, Tree>, block: Option<Block>,
                        txID: Bytes, data: Bytes, fuel: nat): Option<VerificationStatus>
    requires TreesPresent(blocks, trees)
    requires block.Some? ==> HasTree(block.value, trees)
  {
    match SealedOutcome(blocks, trees, block, txID, fuel)
    case None => None
    case Some(NotFound) => Some(UnknownTxID)
    case Some(Found(tree)) => Some(TreeStatus(tree, txID, data))
  }

  /** The blocks from `block` back along PrevHash, newest first, ending where
      the store has no block under PrevHash; None if that takes more than
      `fuel` links. */
  function Walk(blocks: map<Bytes, Block>, block: Option<Block>, fuel: nat): Option<seq<Block>>
    decreases fuel
  {
    match block
    case None => Some([])
    case Some(b) =>
      if fuel == 0 then (if b.prevHash in blocks then None else Some([b]))
      else match Walk(blocks, Lookup(blocks, b.prevHash), fuel - 1)
        case None => None
        case Some(rest) => Some([b] + rest)
  }

  /** A walk is empty exactly when it starts from no block, starts at its
      starting block, and ends at a block whose PrevHash has no stored block. */
  lemma {:induction false} WalkEnds(blocks: map<Bytes, Block>, block: Option<Block>, fuel: nat, chain: seq<Block>)
    requires Walk(blocks, block, fuel) == Some(chain)
    ensures block.None? <==> chain == []
    ensures block.Some? ==> chain[0] == block.value
    ensures chain != [] ==> chain[|chain| - 1].prevHash !in blocks
    decreases fuel
  {
    if block.Some? && fuel > 0 {
      var b := block.value;
      var next := Lookup(blocks, b.prevHash);
      var rest := Walk(blocks, next, fuel - 1).value;
      assert chain == [b] + rest;
      WalkEnds(blocks, next, fuel - 1, rest);
    }
  }

  /** Each later block of a walk is the block stored under the PrevHash of
      the block before it. */
  lemma {:induction false} WalkStoredAt(blocks: map<Bytes, Block>, block: Option<Block>, fuel: nat,
                                        chain: seq<Block>, i: nat)
    requires Walk(blocks, block, fuel) == Some(chain)
    requires 0 < i < |chain|
    ensures chain[i - 1].prevHash in blocks && blocks[chain[i - 1].prevHash] == chain[i]
    decreases fuel
  {
    var b := block.value;
    var next := Lookup(blocks, b.prevHash);
    var rest := Walk(blocks, next, fuel - 1).value;
    assert chain == [b] + rest;
    WalkEnds(blocks, next, fuel - 1, rest);
    if i > 1 {
      WalkStoredAt(blocks, next, fuel - 1, rest, i - 1);
      assert chain[i - 1] == rest[i - 2];
    }
  }

  /** In a store that files every block under its hash, a walk is a chain of
      stored blocks, each one's PrevHash the hash of the next. */
  lemma WalkLinked(blocks: map<Bytes, Block>, block: Option<Block>, fuel: nat, chain: seq<Block>)
    requires forall h :: h in blocks ==> BlockHash(blocks[h]) == h
    requires Walk(blocks, block, fuel) == Some(chain)
    ensures forall i :: 0 < i < |chain| ==> chain[i] in blocks.Values && chain[i - 1].prevHash == BlockHash(chain[i])
  {
    forall i | 0 < i < |chain|
      ensures chain[i] in blocks.Values && chain[i - 1].prevHash == BlockHash(chain[i])
    {
      WalkStoredAt(blocks, block, fuel, chain, i);
      var h := chain[i - 1].prevHash;
      assert BlockHash(blocks[h]) == h;
    }
  }

  /** One step of the walk: a block not containing txID hands over to the
      block stored under its PrevHash. */
  lemma SealedStep(blocks: map<Bytes, Block>, trees: map<Bytes, Tree>, b: Block, txID: Bytes, fuel: nat)
    requires TreesPresent(blocks, trees) && HasTree(b, trees)
    requires !Contains(trees[b.txHash], txID) && b.prevHash in blocks && fuel > 0
    ensures HasTree(blocks[b.prevHash], trees)
    ensures SealedOutcome(blocks, trees, Some(b), txID, fuel)
         == SealedOutcome(blocks, trees, Some(blocks[b.prevHash]), txID, fuel - 1)
  {
  }

  /** The walk past a block whose tree does not contain txID goes on at the
      block stored under its PrevHash, or ends with UnknownTxID. */
  lemma SealedNext(blocks: map<Bytes, Block>, trees: map<Bytes, Tree>, b: Block, txID: Bytes, fuel: nat)
    requires TreesPresent(blocks, trees) && HasTree(b, trees)
    requires !Contains(trees[b.txHash], txID)
    requires SealedOutcome(blocks, trees, Some(b), txID, fuel).Some?
    ensures var next := Lookup(blocks, b.prevHash);
      && (next.Some? ==> fuel > 0 && HasTree(next.value, trees))
      && SealedOutcome(blocks, trees, Some(b), txID, fuel)
         == SealedOutcome(blocks, trees, next, txID, if next.Some? then fuel - 1 else fuel)
  {
  }

  lemma WalkStep(blocks: map<Bytes, Block>, b: Block, fuel: nat)
    requires Walk(blocks, Some(b), fuel).Some?
    ensures var chain := Walk(blocks, Some(b), fuel).value;
      && chain != [] && chain[0] == b
      && (|chain| == 1 ==> b.prevHash !in blocks)
      && (|chain| > 1 ==>
            b.prevHash in blocks && fuel > 0 &&
            Walk(blocks, Some(blocks[b.prevHash]), fuel - 1) == Some(chain[1..]))
  {
    if fuel > 0 {
      var rest := Walk(blocks, Lookup(blocks, b.prevHash), fuel - 1).value;
      assert ([b] + rest)[1..] == rest;
    }
  }

  /** The sealed part of Verify finds txID at the newest block of the walk
      whose tree contains it, and answers by checking that tree. */
  lemma {:induction false} SealedOutcomeFound(blocks: map<Bytes, Block>, trees: map<Bytes, Tree>, b: Block,
                                             txID: Bytes, fuel: nat, chain: seq<Block>, j: nat)
    requires TreesPresent(blocks, trees) && HasTree(b, trees)
    requires Walk(blocks, Some(b), fuel) == Some(chain)
    requires j < |chain| && HasTree(chain[j], trees) && Contains(trees[chain[j].txHash], txID)
    requires forall k :: 0 <= k < j ==> HasTree(chain[k], trees) && !Contains(trees[chain[k].txHash], txID)
    ensures SealedOutcome(blocks, trees, Some(b), txID, fuel) == Some(Found(trees[chain[j].txHash]))
    decreases fuel
  {
    WalkStep(blocks, b, fuel);
    if j > 0 {
      var rest := chain[1..];
      assert chain[0] == b;
      SealedStep(blocks, trees, b, txID, fuel);
      forall k | 0 <= k < j - 1
        ensures HasTree(rest[k], trees) && !Contains(trees[rest[k].txHash], txID)
      {
        assert rest[k] == chain[k + 1];
      }
      assert rest[j - 1] == chain[j];
      SealedOutcomeFound(blocks, trees, blocks[b.prevHash], txID, fuel - 1, rest, j - 1);
    }
  }

  /** When no block of the walk has a tree containing txID, the sealed part of
      Verify answers UnknownTxID. */
  lemma {:induction false} SealedOutcomeUnknown(blocks: map<Bytes, Block>, trees: map<Bytes, Tree>, b: Block,
                                               txID: Bytes, fuel: nat, chain: seq<Block>)
    requires TreesPresent(blocks, trees) && HasTree(b, trees)
    requires Walk(blocks, Some(b), fuel) == Some(chain)
    requires forall k :: 0 <= k < |chain| ==> HasTree(chain[k], trees) && !Contains(trees[chain[k].txHash], txID)
    ensures SealedOutcome(blocks, trees, Some(b), txID, fuel) == Some(NotFound)
    decreases fuel
  {
    WalkStep(blocks, b, fuel);
    assert chain[0] == b;
    if |chain| > 1 {
      var rest := chain[1..];
      SealedStep(blocks, trees, b, txID, fuel);
      forall k | 0 <= k < |rest|
        ensures HasTree(rest[k], trees) && !Contains(trees[rest[k].txHash], txID)
      {
        assert rest[k] == chain[k + 1];
      }
      SealedOutcomeUnknown(blocks, trees, blocks[b.prevHash], txID, fuel - 1, rest);
    }
  }

  /** Verify's answer: the buffer decides first, then the walk. */
  function ExpectedStatus(buffer: seq<MerkleData>, blocks: map<Bytes, Block>, trees: map<Bytes, Tree>,
                          latest: Option<Block>, txID: Bytes, data: Bytes, fuel: nat): Option<VerificationStatus>
    requires TreesPresent(blocks, trees) && (latest.Some? ==> HasTree(latest.value, trees))
  {
    match BufferStatus(buffer, txID, data)
    case Some(s) => Some(s)
    case None => SealedStatus(blocks, trees, latest, txID, data, fuel)
  }

  /** The first buffered item carrying txID decides, InBuffer exactly when its
      data equals the claimed data byte for byte. */
  lemma {:induction false} BufferStatusFirst(buffer: seq<MerkleData>, txID: Bytes, data: Bytes, i: nat)
    requires i < |buffer| && buffer[i].txID == txID
    requires forall k :: 0 <= k < i ==> buffer[k].txID != txID
    ensures BufferStatus(buffer, txID, data) == Some(if buffer[i].data == data then InBuffer else InBufferInvalid)
    decreases i
  {
    if i > 0 {
      BufferStatusFirst(buffer[1..], txID, data, i - 1);
    }
  }

  /** The buffer decides nothing exactly when no item carries txID. */
  lemma {:induction false} BufferStatusAbsent(buffer: seq<MerkleData>, txID: Bytes, data: Bytes)
    ensures BufferStatus(buffer, txID, data).None? <==> forall k :: 0 <= k < |buffer| ==> buffer[k].txID != txID
    decreases |buffer|
  {
    if buffer != [] {
      BufferStatusAbsent(buffer[1..], txID, data);
      if buffer[0].txID != txID {
        assert forall k :: 1 <= k < |buffer| ==> buffer[k] == buffer[1..][k - 1];
      }
    }
  }

  /** The first block's PrevHash: the seed, or the hash of the latest block. */
  function PrevHashFor(latest: Option<Block>, seedHash: Bytes): Bytes {
    if latest.None? then seedHash else BlockHash(latest.value)
  }

  /** Each block of a history links to the one sealed before it, the first
      to the seed. */
  ghost predicate Linked(sealed: seq<Block>, seedHash: Bytes) {
    && (sealed != [] ==> sealed[0].prevHash == seedHash)
    && forall i, j :: 0 <= i && j == i + 1 && j < |sealed| ==> sealed[j].prevHash == BlockHash(sealed[i])
  }

  /** The sealed part of a chain: the history links back to the seed, the
      latest block is the last of the history and its tree is stored, and
      every stored block has its tree stored. */
  ghost predicate Ledger(blocks: map<Bytes, Block>, trees: map<Bytes, Tree>, seedHash: Bytes, latest: Option<Block>,
                         sealed: seq<Block>) {
    && TreesPresent(blocks, trees)
    && Linked(sealed, seedHash)
    && latest == (if sealed == [] then None else Some(sealed[|sealed| - 1]))
    && (latest.Some? ==> HasTree(latest.value, trees))
  }

  lemma LinkedExtend(sealed: seq<Block>, seedHash: Bytes, block: Block)
    requires Linked(sealed, seedHash)
    requires block.prevHash == PrevHashFor(if sealed == [] then None else Some(sealed[|sealed| - 1]), seedHash)
    ensures Linked(sealed + [block], seedHash)
  {
  }

  lemma TreesPresentExtend(blocks: map<Bytes, Block>, trees: map<Bytes, Tree>, tree: Tree, block: Block)
    requires TreesPresent(blocks, trees) && tree.Node? && block.txHash == tree.hash
    ensures TreesPresent(blocks[BlockHash(block) := block], trees[tree.hash := tree])
  {
  }

  /** Sealing a batch extends the ledger by one block over the batch's tree,
      linked to the latest block, or to the seed for the first block: the
      block is stored under its hash, the tree under its root hash, and the
      history grows by the block. */
  lemma SealExtendsLedger(blocks: map<Bytes, Block>, trees: map<Bytes, Tree>, seedHash: Bytes, latest: Option<Block>,
                          sealed: seq<Block>, tree: Tree, block: Block,
                          blocks': map<Bytes, Block>, trees': map<Bytes, Tree>, latest': Option<Block>, sealed': seq<Block>)
    requires Ledger(blocks, trees, seedHash, latest, sealed)
    requires tree.Node? && block.prevHash == PrevHashFor(latest, seedHash) && block.txHash == tree.hash
    requires blocks' == blocks[BlockHash(block) := block] && trees' == trees[tree.hash := tree]
    requires latest' == Some(block) && sealed' == sealed + [block]
    ensures Ledger(blocks', trees', seedHash, latest', sealed')
  {
    LinkedExtend(sealed, seedHash, block);
    TreesPresentExtend(blocks, trees, tree, block);
  }

  // ---------------------------------------------------------------------------
  // The chain
  // ---------------------------------------------------------------------------

  /** A *Chain running against the in-memory store. The ghost history
      `sealed` lists the blocks in sealing order. */
  class Chain {
    const store: RAMStore
    const seedHash: Bytes
    var buffer: seq<MerkleData>
    var latestBlock: Option<Block>
    ghost var sealed: seq<Block>

    ghost predicate Valid()
      reads this, store
    {
      && store.Valid()
      && |seedHash| == 32
      && |buffer| < BufferSize
      && Ledger(store.blockstore, store.txstore, seedHash, latestBlock, sealed)
    }

    /** Genesis(store), the random seed passed in as `seed`. The store must
        hold a tree for every block it holds, as a fresh store does. */
    constructor Genesis(store: RAMStore, seed: Bytes)
      requires store.Valid() && TreesPresent(store.blockstore, store.txstore)
      requires |seed| == 32
      ensures Valid()
      ensures this.store == store && seedHash == seed
      ensures buffer == [] && latestBlock == None && sealed == []
    {
      this.store := store;
      seedHash := seed;
      buffer := [];
      latestBlock := None;
      sealed := [];
    }

    /** Commit(data): the txID and the current time are passed in. The data is
        stored under txID and buffered; a buffer that becomes full is sealed
        into a stored tree and a stored block linked to the previous one (or
        to the seed), and cleared. */
    method Commit(data: Bytes, txID: Bytes, now: int) returns (id: Bytes)
      requires Valid()
      modifies this, store
      ensures Valid() && id == txID
      ensures store.datastore == old(store.datastore)[txID := data]
      ensures |old(buffer)| + 1 < BufferSize ==>
        && buffer == old(buffer) + [MerkleData(data, txID)]
        && latestBlock == old(latestBlock) && sealed == old(sealed)
        && store.txstore == old(store.txstore) && store.blockstore == old(store.blockstore)
      ensures |old(buffer)| + 1 == BufferSize ==>
        var batch := old(buffer) + [MerkleData(data, txID)];
        var tree := MerkleRoot(batch);
        var block := Block(now, PrevHashFor(old(latestBlock), seedHash), tree.hash);
        && buffer == []
        && latestBlock == Some(block)
        && sealed == old(sealed) + [block]
        && store.txstore == old(store.txstore)[tree.hash := tree]
        && store.blockstore == old(store.blockstore)[BlockHash(block) := block]
    {
      id := txID;
      buffer := buffer + [MerkleData(data, txID)];
      store.InsertData(data, txID);

      if |buffer| == BufferSize {
        var tx := NewMerkleTree(buffer);
        Seal(tx, now);
      }
    }

    /** The sealing step of Commit: the full buffer becomes a stored tree and
        a stored block linked to the latest block or to the seed, the block
        becomes the latest one and the buffer is cleared. */
    method Seal(tx: Tree, now: int)
      requires store.Valid() && |seedHash| == 32 && tx.Node?
      requires Ledger(store.blockstore, store.txstore, seedHash, latestBlock, sealed)
      modifies this, store
      ensures Valid() && store.datastore == old(store.datastore)
      ensures var tree := tx;
        var block := Block(now, PrevHashFor(old(latestBlock), seedHash), tree.hash);
        && buffer == []
        && latestBlock == Some(block)
        && sealed == old(sealed) + [block]
        && store.txstore == old(store.txstore)[tree.hash := tree]
        && store.blockstore == old(store.blockstore)[BlockHash(block) := block]
    {
      ghost var blocks0, trees0, latest0, sealed0 := store.blockstore, store.txstore, latestBlock, sealed;
      store.InsertTree(tx);

      var block: Block;
      if latestBlock.None? {
        block := Block(now, seedHash, tx.hash);
      } else {
        block := NewBlock(tx, latestBlock.value, now);
      }
      assert block == Block(now, PrevHashFor(latest0, seedHash), tx.hash);
      latestBlock := Some(block);
      store.InsertBlock(block);
      sealed := sealed + [block];
      buffer := [];
      SealExtendsLedger(blocks0, trees0, seedHash, latest0, sealed0, tx, block,
                        store.blockstore, store.txstore, latestBlock, sealed);
    }

    /** Retrieve(txID): the data stored under txID, nil when there is none. */
    method Retrieve(txID: Bytes) returns (data: Option<Bytes>)
      ensures data == Lookup(store.datastore, txID)
    {
      data := store.GetData(txID);
    }

    /** Verify(txID, data). The source's walk along PrevHash ends only if it
        reaches a block whose tree contains txID or a PrevHash with no stored
        block; the ghost `fuel` bounds the links it follows on the way. */
    method Verify(txID: Bytes, data: Bytes, ghost fuel: nat) returns (status: VerificationStatus)
      requires TreesPresent(store.blockstore, store.txstore)
      requires latestBlock.Some? ==> HasTree(latestBlock.value, store.txstore)
      requires BufferStatus(buffer, txID, data).None? ==>
                 SealedOutcome(store.blockstore, store.txstore, latestBlock, txID, fuel).Some?
      ensures Some(status) == ExpectedStatus(buffer, store.blockstore, store.txstore, latestBlock, txID, data, fuel)
    {
      for i := 0 to |buffer|
        invariant BufferStatus(buffer[i..], txID, data) == BufferStatus(buffer, txID, data)
      {
        assert buffer[i..][1..] == buffer[i + 1..];
        if txID == buffer[i].txID {
          var eq := ByteSliceEqual(buffer[i].data, data);
          if eq {
            return InBuffer;
          }
          return InBufferInvalid;
        }
      }
      assert buffer[|buffer|..] == [];
      status := VerifySealed(txID, data, fuel);
    }

    /** The second half of Verify: the walk from the latest block back along
        PrevHash. */
    method VerifySealed(txID: Bytes, data: Bytes, ghost fuel: nat) returns (status: VerificationStatus)
      requires TreesPresent(store.blockstore, store.txstore)
      requires latestBlock.Some? ==> HasTree(latestBlock.value, store.txstore)
      requires SealedOutcome(store.blockstore, store.txstore, latestBlock, txID, fuel).Some?
      ensures Some(status) == SealedStatus(store.blockstore, store.txstore, latestBlock, txID, data, fuel)
    {
      ghost var blocks, trees := store.blockstore, store.txstore;
      ghost var expected := SealedOutcome(blocks, trees, latestBlock, txID, fuel);
      ghost var goal := SealedStatus(blocks, trees, latestBlock, txID, data, fuel);
      var block := latestBlock;
      ghost var f := fuel;
      while block.Some?
        invariant block.Some? ==> HasTree(block.value, trees)
        invariant SealedOutcome(blocks, trees, block, txID, f) == expected
        decreases if block.Some? then f + 1 else 0
      {
        var b := block.value;
        var tree := store.GetTree(b.txHash);
        if Contains(tree, txID) {
          assert expected == Some(Found(tree));
          assert goal == Some(TreeStatus(tree, txID, data));
          var verified := Merkle.Verify(tree, txID, data);
          if verified {
            return Verified;
          }
          return Invalid;
        }
        var next := store.GetBlock(b.prevHash);
        assert next.Some? ==> f > 0 && HasTree(next.value, trees) && SealedOutcome(blocks, trees, next, txID, f - 1) == expected
        by {
          SealedNext(blocks, trees, b, txID, f);
        }
        block := next;
        if block.Some? {
          f := f - 1;
        }
      }
      assert expected == Some(NotFound);
      assert goal == Some(UnknownTxID);
      return UnknownTxID;
    }
  }

  /** Commit then Retrieve under the returned txID gives back the data, and
      the chain stays valid. */
  method CommitThenRetrieve(c: Chain, data: Bytes, txID: Bytes, now: int) returns (id: Bytes, got: Option<Bytes>)
    requires c.Valid()
    modifies c, c.store
    ensures c.Valid() && id == txID && got == Some(data)
  {
    id := c.Commit(data, txID, now);
    got := c.Retrieve(id);
  }

  /** Commit of a whole batch on an empty buffer: the first three items are
      buffered, the fourth seals the batch, and the latest block then carries
      the tree built over it. */
  method CommitBatch(c: Chain, batch: seq<MerkleData>, now: int)
    requires c.Valid() && c.buffer == [] && |batch| == BufferSize
    modifies c, c.store
    ensures c.Valid() && c.buffer == [] && c.latestBlock.Some?
    ensures Lookup(c.store.txstore, c.latestBlock.value.txHash) == Some(MerkleRoot(batch))
  {
    for k := 0 to BufferSize - 1
      invariant c.Valid() && c.buffer == batch[..k]
    {
      TakeSnoc(batch, k);
      var _ := c.Commit(batch[k].data, batch[k].txID, now);
    }
    SplitLast(batch);
    var _ := c.Commit(batch[BufferSize - 1].data, batch[BufferSize - 1].txID, now);
  }

  /** After a batch is committed on an empty buffer, Verify answers Verified
      for each item whose txID is non-empty and unique in the batch. */
  method CommitBatchThenVerify(c: Chain, batch: seq<MerkleData>, now: int, i: nat) returns (status: VerificationStatus)
    requires c.Valid() && c.buffer == [] && |batch| == BufferSize && i < BufferSize
    requires batch[i].txID != []
    requires forall j :: 0 <= j < |batch| && j != i ==> batch[j].txID != batch[i].txID
    modifies c, c.store
    ensures status == Verified
  {
    CommitBatch(c, batch, now);
    LatestBatchVerified(c, batch, i);
    status := c.Verify(batch[i].txID, batch[i].data, 0);
  }

  /** A block whose tree contains txID decides the walk at once. */
  lemma NewestTreeDecides(blocks: map<Bytes, Block>, trees: map<Bytes, Tree>, b: Block, txID: Bytes)
    requires TreesPresent(blocks, trees) && HasTree(b, trees) && Contains(trees[b.txHash], txID)
    ensures SealedOutcome(blocks, trees, Some(b), txID, 0) == Some(Found(trees[b.txHash]))
  {
  }

  /** Once a batch is sealed, so that the tree stored for the latest block is
      the tree built over it, Verify answers Verified for each of its items
      whose txID is non-empty, unique in the batch and not pending, without
      following any link. */
  lemma LatestBatchVerified(c: Chain, batch: seq<MerkleData>, i: nat)
    requires c.Valid() && |batch| == BufferSize && i < BufferSize
    requires c.latestBlock.Some? && Lookup(c.store.txstore, c.latestBlock.value.txHash) == Some(MerkleRoot(batch))
    requires batch[i].txID != []
    requires forall j :: 0 <= j < |batch| && j != i ==> batch[j].txID != batch[i].txID
    requires forall k :: 0 <= k < |c.buffer| ==> c.buffer[k].txID != batch[i].txID
    ensures SealedOutcome(c.store.blockstore, c.store.txstore, c.latestBlock, batch[i].txID, 0)
            == Some(Found(MerkleRoot(batch)))
    ensures ExpectedStatus(c.buffer, c.store.blockstore, c.store.txstore, c.latestBlock,
                           batch[i].txID, batch[i].data, 0) == Some(Verified)
  {
    var item := batch[i];
    var b := c.latestBlock.value;
    BufferStatusAbsent(c.buffer, item.txID, item.data);
    BuiltTreeContainsAll(batch, i);
    BuiltTreeVerifies(batch, i);
    NewestTreeDecides(c.store.blockstore, c.store.txstore, b, item.txID);
  }

  /** The empty txID after a seal: every internal node carries it, so the
      walk stops at the latest block, whose tree has no leaf with it when the
      batch's ids are non-empty; Verify answers Invalid, not UnknownTxID. */
  lemma LatestBatchEmptyIdInvalid(c: Chain, batch: seq<MerkleData>, data: Bytes)
    requires c.Valid() && |batch| == BufferSize
    requires c.latestBlock.Some? && Lookup(c.store.txstore, c.latestBlock.value.txHash) == Some(MerkleRoot(batch))
    requires forall j :: 0 <= j < |batch| ==> batch[j].txID != []
    requires forall k :: 0 <= k < |c.buffer| ==> c.buffer[k].txID != []
    ensures ExpectedStatus(c.buffer, c.store.blockstore, c.store.txstore, c.latestBlock, [], data, 0)
            == Some(Invalid)
  {
    BufferStatusAbsent(c.buffer, [], data);
    EmptyIdContainedNotAuthentic(batch, data);
    NewestTreeDecides(c.store.blockstore, c.store.txstore, c.latestBlock.value, []);
  }

  /** A pending item is answered InBuffer with its own data and
      InBufferInvalid with any other, when no earlier pending item carries
      the same txID. */
  lemma PendingItemStatus(c: Chain, i: nat, claimed: Bytes)
    requires c.Valid() && i < |c.buffer|
    requires forall k :: 0 <= k < i ==> c.buffer[k].txID != c.buffer[i].txID
    ensures ExpectedStatus(c.buffer, c.store.blockstore, c.store.txstore, c.latestBlock,
                           c.buffer[i].txID, claimed, 0)
            == Some(if claimed == c.buffer[i].data then InBuffer else InBufferInvalid)
  {
    BufferStatusFirst(c.buffer, c.buffer[i].txID, claimed, i);
  }
}
