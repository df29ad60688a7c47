# BlockTrain ledger engine in Dafny

This project models the core of BlockTrain. BlockTrain is a small append-only ledger:

- committed data items are buffered;
- every four items are sealed into a Merkle tree;
- the tree's root hash goes into a block, which links to the previous block's hash (or to a random seed for the first block);
- blocks, trees and raw data are kept in a key-value store;
- `Verify(txID, data)` answers one of five statuses:
  - from the pending buffer;
  - or by walking the blocks back from the newest and checking the first tree that contains the id.

The model is organised by source file:

| module | file | source |
|---|---|---|
| `Primitives` | `primitives.dfy` | byte strings, the abstract 32-byte hash `Hash`, `strconv.FormatInt` as `FormatInt` with its read-back, and `byteSliceEqual` (blocktrain/blocktrain.go) |
| `MerkleTree` | `merkletree.dfy` | `MerkleNode` as the datatype `Tree` (`Nil` is the nil pointer), `MerkleData`, and positions (`seq<bool>`, false = left) that stand in for node identity |
| `MerkleStack` | `merklestack.dfy` | the slice-backed `stack` as a class whose `elems` the methods reassign (blocktrain/merklestack.go) |
| `Merkle` | `merkle.dfy` | `NewMerkleTree` (three loops), `Contains`, and `Verify` (depth-first search over an explicit stack, then the ancestor check) (blocktrain/merkle.go) |
| `Blocks` | `blocks.dfy` | `Block`, `Block.Hash` and `NewBlock` |
| `RamStore` | `ramstore.dfy` | `RAMStore` as a class with three map fields (ramstore/ramstore.go) |
| `BlockTrain` | `chain.dfy` | `VerificationStatus`, `StatusToString`, and the `Chain` class: `Genesis`, `Commit`, `Retrieve`, `Verify` |

How the model is specified:

- Each imperative routine is a method proved against a specification function:
  - `NewMerkleTree` against `MerkleRoot`, built from `LeafLevel`, `Collapse` and `Reduce`;
  - the tree's `Verify` against `Authentic`, which uses `Find`, the first matching leaf from left to right;
  - the chain's `Verify` against `ExpectedStatus`, which uses `BufferStatus` and `SealedOutcome`.
- Lemmas then state what the source promises of those functions:
  - a built tree contains and verifies every item of its batch;
  - the search finds exactly the first matching leaf;
  - the walk stops at the newest block whose tree contains the id;
  - the ledger stays linked from block to block back to the seed.
- The chain's `Valid()` invariant holds outside `Commit`:
  - fewer than `BufferSize` items are pending;
  - the seed is 32 bytes;
  - the store files every tree under its root hash and every block under its hash;
  - every stored block has its tree stored;
  - the ghost history `sealed` is linked, with the latest block as its last element.

Where the specification of the system and the code disagree, the model follows the code:

- **One-item batch.** The specification asks for an "invalid batch" error. The code dereferences the nil children of the lone leaf (blocktrain/merkle.go:64-68). `MerkleRoot` and `NewMerkleTree` therefore require that the batch does not hold exactly one item. `Commit` only builds trees over `BufferSize` (4) items, so the chain never meets this case.
- **The empty txID.** The design says internal nodes never match a txID. `Contains` (blocktrain/merkle.go:76-92) also compares the txID of internal nodes, which is empty. So once a block exists, `Verify` of the empty txID stops at the latest block. The tree's search then finds no leaf with it, and the answer is `Invalid` rather than `UnknownTxID`. Merkle.EmptyIdContainedNotAuthentic and BlockTrain.LatestBatchEmptyIdInvalid state this.
- **`Verify` and shared tree state.** The specification says `Verify` must not mutate shared tree state. The code sets and clears a `visited` flag on every node. The model keeps the visited nodes as a local set of positions, which is what `unvisit` resetting the flags amounts to, so the tree is never modified.

## Model

| member | source | states |
|---|---|---|
| Primitives.ByteSliceEqual | blocktrain/blocktrain.go:205-217 | true exactly when the lengths agree and the bytes agree at every index, i.e. exactly when the two slices are equal |
| Primitives.NatDigits | blocktrain/blocktrain.go:84 | the decimal digits of a natural number: at least one digit, all ASCII digits, no leading zero |
| Primitives.FormatInt | blocktrain/blocktrain.go:84 | strconv.FormatInt(n, 10): a leading '-' exactly for negative n, digits elsewhere |
| Primitives.ParseNatDigits | blocktrain/blocktrain.go:84 | reading back the digits of n gives n |
| Primitives.FormatIntRoundTrip | blocktrain/blocktrain.go:84 | reading back FormatInt(n) gives n |
| Primitives.FormatIntInjective | blocktrain/blocktrain.go:84 | distinct timestamps have distinct decimal forms |
| Blocks.BlockHash | blocktrain/blocktrain.go:82-87 | Block.Hash: a 32-byte digest of TXHash ‖ decimal(Timestamp) ‖ PrevHash, built as a fresh sequence |
| Blocks.HashInputParts | blocktrain/blocktrain.go:83-85 | the hash input splits back into TXHash, the decimal timestamp and PrevHash |
| Blocks.HashInputInjective | blocktrain/blocktrain.go:82-87 | two blocks with 32-byte hash fields and the same hash input are the same block |
| Blocks.NewBlock | blocktrain/blocktrain.go:89-99 | the new block links to the previous block's hash, carries the tree's root hash and the time passed in |
| MerkleStack.Stack.constructor | blocktrain/merkle.go:97 | make(stack, 0) is the empty stack |
| MerkleStack.Stack.Push | blocktrain/merklestack.go:5-7 | the node is appended at the top |
| MerkleStack.Stack.Pop | blocktrain/merklestack.go:9-17 | an empty stack yields nil and stays empty; otherwise the top is returned and exactly it is removed |
| MerkleStack.Stack.Top | blocktrain/merklestack.go:19-26 | nil on an empty stack, else the last element; it has no modifies clause, so it cannot change the stack |
| MerkleStack.PushTopPop | blocktrain/merklestack.go:5-26 | Push(v) then Top() sees v, and Pop() then returns v and restores the original stack |
| MerkleStack.EmptyStack | blocktrain/merklestack.go:9-26 | Pop and Top on an empty stack return nil |
| MerkleTree.AtConcat | blocktrain/merkle.go:8-15 | walking down p then q reaches the node at p ‖ q |
| MerkleTree.AtInPositions | blocktrain/merkle.go:8-15 | every position that reaches a node is among the tree's positions, a finite set |
| Merkle.LeafLevel | blocktrain/merkle.go:29-33 | one leaf per item, in batch order |
| Merkle.Pairs | blocktrain/merkle.go:39-55 | ⌊n/2⌋ parents, all real nodes |
| Merkle.PairsAt | blocktrain/merkle.go:41-55 | parent i of a round is built over nodes 2i and 2i+1 |
| Merkle.PairsFrom | blocktrain/merkle.go:41-55 | a sequence holding the parent over nodes 2i and 2i+1 at each index i is the round's list of parents |
| Merkle.PairsOdd | blocktrain/merkle.go:57-59 | the unpaired last node of an odd level takes no part in the pairing |
| Merkle.Collapse | blocktrain/merkle.go:35-62 | one round turns n nodes into ⌊n/2⌋ + (n mod 2) nodes, fewer while n > 1, with the odd last node carried unchanged to the end |
| Merkle.Reduce | blocktrain/merkle.go:35-62 | rounds end with one node; from two or more nodes it is an internal node with empty txID whose hash is H(left.Hash ‖ right.Hash) |
| Merkle.MerkleRoot | blocktrain/merkle.go:22-74 | the built tree is nil exactly for the empty batch |
| Merkle.NewMerkleTree | blocktrain/merkle.go:22-74 | the three loops compute MerkleRoot(data) |
| Merkle.CollapseLevel | blocktrain/merkle.go:37-61 | one pass of the outer loop computes Collapse(list) |
| Merkle.PairParents | blocktrain/merkle.go:39-55 | the inner loop over the fresh array computes Pairs(list) |
| Merkle.PairsPreserve | blocktrain/merkle.go:41-55 | pairing an even level keeps every node well formed and the leaves in order |
| Merkle.CollapsePreserves | blocktrain/merkle.go:35-62 | a round keeps every node well formed and the leaves in order |
| Merkle.ReducePreserves | blocktrain/merkle.go:35-62 | all rounds together keep the nodes well formed and the leaves in order |
| Merkle.LeafLevelFlatten | blocktrain/merkle.go:29-33 | the leaf level read left to right is itself |
| Merkle.BuiltTreeShape | blocktrain/merkle.go:22-74 | for two or more items the root is internal and well formed: every internal node has two children, empty txID and hash H(left.Hash ‖ right.Hash); leaf i has hash H(Data ‖ TxID), carries TxID and has no children; the final rehash of the root changes nothing |
| Merkle.ContainsSound | blocktrain/merkle.go:76-92 | Contains(id) holds only if some node of the subtree carries id |
| Merkle.ContainsComplete | blocktrain/merkle.go:76-92 | Contains(id) holds if some node of the subtree carries id |
| Merkle.LeavesContained | blocktrain/merkle.go:76-92 | every leaf's txID is found by Contains |
| Merkle.BuiltTreeContainsAll | blocktrain/merkle.go:22-92 | for a batch of two or more items every input txID is Contains-true in the built tree |
| Merkle.FindSound | blocktrain/merkle.go:100-123 | the position the search stops at is a leaf carrying txID |
| Merkle.FindComplete | blocktrain/merkle.go:100-123 | if some leaf carries txID the search stops at a leaf |
| Merkle.FindLeftmost | blocktrain/merkle.go:100-123 | a leaf carrying txID with no leaf carrying txID before it, left to right, is where the search stops |
| Merkle.FindFirst | blocktrain/merkle.go:100-123 | no leaf before the one the search stops at carries txID |
| Merkle.LeavesFound | blocktrain/merkle.go:100-123 | the txID of every leaf is found by the search |
| Merkle.SearchStart | blocktrain/merkle.go:168-176 | the search starts at the root with nothing visited, which is the state unvisit establishes |
| Merkle.Search | blocktrain/merkle.go:97-123 | the DFS loop stops with the stack empty exactly when no leaf carries txID; otherwise it stops on the first matching leaf from left to right, with the stack holding the nodes from the root down to it |
| Merkle.SearchStep | blocktrain/merkle.go:100-122 | one pass of the DFS loop: a leaf carrying txID on top ends the search with the stack as its root path; otherwise the top is marked visited and its first unvisited child pushed, or it is popped, keeping the search state and lowering the termination measure |
| Merkle.TopOfPath | blocktrain/merkle.go:101 | during the DFS the top of the stack is the node at the current position |
| Merkle.FoundStep | blocktrain/merkle.go:104-107 | a leaf carrying txID on top of the stack is the first match |
| Merkle.PushStep | blocktrain/merkle.go:113-120 | pushing an unvisited child keeps the stack a root-to-node path and the search state, and the termination measure decreases |
| Merkle.PopStep | blocktrain/merkle.go:104-122 | popping a non-matching leaf or a finished node keeps the search state, and the termination measure decreases |
| Merkle.PopResumes | blocktrain/merkle.go:104-122 | popping a non-matching leaf, or a node whose children are done, leaves what the search still has to look at unchanged |
| Merkle.FreshInnerPushes | blocktrain/merkle.go:113-122 | an internal node with no child left to push has been entered before |
| Merkle.Descend | blocktrain/merkle.go:113-120 | going down into a child keeps the search state |
| Merkle.Retreat | blocktrain/merkle.go:109-122 | going back up to the parent keeps the search state |
| Merkle.NodeRehashes | blocktrain/merkle.go:140-162 | one ancestor's digest equals its stored hash exactly when it rehashes correctly, a child carrying txID contributing the leaf hash |
| Merkle.CheckAncestors | blocktrain/merkle.go:137-165 | true exactly when every ancestor of the found leaf rehashes to its stored hash |
| Merkle.AuthenticAt | blocktrain/merkle.go:125-165 | once the first match is known, Authentic is the leaf hash check and the ancestor checks |
| Merkle.Verify | blocktrain/merkle.go:94-166 | node.Verify returns Authentic(root, txID, data): the first leaf carrying txID exists, stores H(data ‖ txID), and every node above it rehashes to its stored hash |
| Merkle.NoLeafNotAuthentic | blocktrain/merkle.go:125-127 | Verify is false when no leaf carries txID |
| Merkle.WrongLeafHashNotAuthentic | blocktrain/merkle.go:129-133 | Verify is false when the first leaf carrying txID, left to right, stores another hash than H(data ‖ txID), even when a later leaf with that txID stores the right one |
| Merkle.LeavesAgreeAuthentic | blocktrain/merkle.go:94-166 | on a well-formed tree whose leaves for txID all store H(data ‖ txID), Verify is true |
| Merkle.RehashesAlong | blocktrain/merkle.go:137-163 | in such a tree every node above a position rehashes correctly |
| Merkle.BuiltTreeVerifies | blocktrain/merkle.go:94-166 | on a tree built from two or more items, Verify(txID, data) is true for every item whose txID is non-empty and unique in the batch |
| Merkle.EmptyIdContainedNotAuthentic | blocktrain/merkle.go:76-92 | the empty txID is Contains-true at the root of a built tree, since internal nodes carry it, yet Verify rejects every claim for it when the items' txIDs are non-empty |
| Merkle.BuiltTreeRejectsTampered | blocktrain/merkle.go:129-133 | on a built tree, a claim whose data hashes differently from the item's data is rejected |
| RamStore.RAMStore.constructor | ramstore/ramstore.go:13-19 | NewRAMStore starts with all three maps empty |
| RamStore.RAMStore.InsertTree | ramstore/ramstore.go:21-23 | the tree is filed under its root hash; only that key of the tree map changes |
| RamStore.RAMStore.InsertBlock | ramstore/ramstore.go:25-27 | the block is filed under its hash; only that key of the block map changes |
| RamStore.RAMStore.InsertData | ramstore/ramstore.go:29-31 | the data is filed under txID, replacing an earlier entry; only that key changes |
| RamStore.RAMStore.GetTree | ramstore/ramstore.go:33-40 | the tree filed under the hash, nil when none is |
| RamStore.RAMStore.GetBlock | ramstore/ramstore.go:42-49 | the block filed under the hash, nil when none is |
| RamStore.RAMStore.GetData | ramstore/ramstore.go:51-57 | the data filed under txID, nil when none is |
| RamStore.ReadAfterWrite | ramstore/ramstore.go:21-57 | each get returns what the insert filed; a second InsertData under the same txID overwrites the first; other keys are untouched |
| RamStore.EmptyLookups | ramstore/ramstore.go:13-57 | every get on a fresh store returns nil |
| BlockTrain.StatusToString | blocktrain/blocktrain.go:49-64 | every status has a non-empty text |
| BlockTrain.StatusStringsDistinct | blocktrain/blocktrain.go:49-64 | the five statuses have five different texts |
| BlockTrain.BufferStatusFirst | blocktrain/blocktrain.go:147-155 | the first buffered item carrying txID decides: InBuffer exactly when its data equals the claim byte for byte, else InBufferInvalid |
| BlockTrain.BufferStatusAbsent | blocktrain/blocktrain.go:147-155 | the buffer decides nothing exactly when no buffered item carries txID |
| BlockTrain.SealedOutcome | blocktrain/blocktrain.go:157-172 | the walk ends either at a real tree that contains txID, or past the oldest block |
| BlockTrain.WalkEnds | blocktrain/blocktrain.go:157-170 | the walk along PrevHash starts at the latest block and ends at a block whose PrevHash has no stored block |
| BlockTrain.WalkStoredAt | blocktrain/blocktrain.go:169 | each later block of the walk is the block stored under the PrevHash of the one before it |
| BlockTrain.WalkLinked | blocktrain/blocktrain.go:157-170 | in a store that files blocks under their hash, each block's PrevHash is the hash of the next block of the walk |
| BlockTrain.WalkStep | blocktrain/blocktrain.go:158-170 | a walk from a block is that block followed by the walk from the block under its PrevHash |
| BlockTrain.SealedStep | blocktrain/blocktrain.go:159-169 | a block whose tree lacks txID hands the walk over to the block stored under its PrevHash |
| BlockTrain.SealedNext | blocktrain/blocktrain.go:159-170 | past a block whose tree lacks txID the walk goes on at GetBlock(PrevHash), or ends |
| BlockTrain.SealedOutcomeFound | blocktrain/blocktrain.go:158-167 | the walk decides at the newest block of the chain whose tree contains txID |
| BlockTrain.SealedOutcomeUnknown | blocktrain/blocktrain.go:158-172 | when no tree along the chain contains txID the answer is UnknownTxID |
| BlockTrain.NewestTreeDecides | blocktrain/blocktrain.go:159-167 | a block whose tree contains txID decides at once, following no link |
| BlockTrain.LinkedExtend | blocktrain/blocktrain.go:120-128 | a block linked to the seed (first) or to the latest block's hash extends a linked history |
| BlockTrain.TreesPresentExtend | blocktrain/blocktrain.go:117-130 | storing a block together with its tree keeps every stored block's tree present |
| BlockTrain.SealExtendsLedger | blocktrain/blocktrain.go:116-137 | sealing extends the ledger by one linked block over the stored tree |
| BlockTrain.Chain.Genesis | blocktrain/blocktrain.go:66-80 | an empty buffer, no latest block, the 32-byte seed as SeedHash, and a valid chain |
| BlockTrain.Chain.Commit | blocktrain/blocktrain.go:101-140 | stores data under txID; appends the item while the buffer is not full; on the fourth item, seals the batch in order into a tree with a block over its root hash, linked to the seed or to the latest block's hash and filed under its hash; clears the buffer; the chain stays valid |
| BlockTrain.Chain.Seal | blocktrain/blocktrain.go:116-137 | the tree is filed under its root hash; the new block links to the seed or to the latest block's hash, is filed under its hash and becomes the latest; the buffer is cleared |
| BlockTrain.Chain.Retrieve | blocktrain/blocktrain.go:142-144 | the data stored under txID, nil when there is none |
| BlockTrain.CommitThenRetrieve | blocktrain/blocktrain.go:101-144 | Retrieve under the txID Commit returned gives back the committed data |
| BlockTrain.Chain.Verify | blocktrain/blocktrain.go:146-173 | the buffer scan, then the walk, answer ExpectedStatus: the first buffered match decides, otherwise the tree of the newest block containing txID decides, otherwise UnknownTxID |
| BlockTrain.Chain.VerifySealed | blocktrain/blocktrain.go:157-172 | the walk loop answers SealedStatus: Verified or Invalid by the tree's Verify at the first containing block, UnknownTxID past the oldest block |
| BlockTrain.LatestBatchVerified | blocktrain/blocktrain.go:116-167 | after a batch is sealed, the walk stops at the latest block with the batch's tree, and Verify answers Verified for each of its items with a non-empty id that is unique in the batch and not pending |
| BlockTrain.LatestBatchEmptyIdInvalid | blocktrain/blocktrain.go:157-167 | after a batch with non-empty ids is sealed, Verify of the empty txID answers Invalid, not UnknownTxID |
| BlockTrain.CommitBatch | blocktrain/blocktrain.go:101-137 | four Commits on an empty buffer leave the buffer empty and the latest block over the tree built from the four items, in order |
| BlockTrain.CommitBatchThenVerify | blocktrain/blocktrain.go:101-173 | after four Commits on an empty buffer, Verify answers Verified for each item whose txID is non-empty and unique in the batch |
| BlockTrain.PendingItemStatus | blocktrain/blocktrain.go:147-155 | a pending item is answered InBuffer with its own data and InBufferInvalid with any other |

## Left out

- Primitives.Hash: SHA-256 is an uninterpreted total function whose only known property is a 32-byte result. Nothing, in particular no collision resistance, is assumed. A lemma that needs two inputs to hash differently takes that as a precondition (Merkle.BuiltTreeRejectsTampered).
- Randomness and the clock are parameters:
  - `Genesis` receives the 32-byte seed instead of reading `crypto/rand`; its panic on a short read is not modelled.
  - `Commit` and `NewBlock` receive the current time as `now`.
- The txID derivation (a double SHA-256 of the data and the time, then base32, blocktrain/blocktrain.go:102-104) is not modelled. `Commit` receives the txID as a parameter and returns it.
- Logging (`Log`, `fmt.Println`), `PrintChain`, `PrintBlock`, `PrintRecursive`, and the interactive shell in choo/choo.go are diagnostic I/O. choo/choo.go is not part of this model.
- BlockTrain.StatusToString: the `default` branch ("Unknown status") is unreachable, because the datatype has exactly the five statuses; a Go `VerificationStatus` is an int and can hold other values.
- BlockTrain.Chain.Verify: the Go walk along PrevHash stops only at a block whose tree contains the id, or at a PrevHash with no stored block. A hash cycle in the store would make it loop forever. The model takes a ghost `fuel` and requires the walk to end within that many links.
- BlockTrain.Chain.Verify: it requires every stored block's tree to be in the store, since the source calls `Contains` on a nil `GetTree` result and panics. A valid chain satisfies this.
- Merkle.NewMerkleTree: it requires the batch not to hold exactly one item, where the source dereferences nil children. Merkle.MerkleRoot carries the same precondition.
- Blocks.Block: the timestamp is the UnixNano value as an unbounded `int`. Go's int64 nanosecond count, and its overflow after the year 2262, are not modelled.
- Blocks.BlockHash: the hash input is a fresh concatenation. Go's `append` on `block.TXHash` could write into TXHash's backing array if it had spare capacity; digests made by `Hash` have none.
- Node identity and aliasing: trees, blocks and byte slices are values. A tree filed in the store and shared through pointers, the `visited` flags written in place, and `unvisit` are modelled by a local set of positions in Merkle.Verify, so the tree is never updated.
- The store is reached only through `RAMStore`. The `DataStore` interface with other implementations is not modelled. The Go map keys are `string(hash)`, here the byte sequence itself.
- BlockTrain.Chain.Seal: it is a helper for the sealing branch of `Commit` (blocktrain/blocktrain.go:116-137). `Commit` builds the tree with `NewMerkleTree` and passes it in.
- BlockTrain.Chain.Valid: the ghost history `sealed` records the sealed blocks but not the batches they were built from.
- RamStore.RAMStore.GetTree and RamStore.RAMStore.GetBlock state only the lookup. That the result sits under its own hash follows from `Valid()` and is not restated.
- Concurrency: the source has no locking, and the model is sequential.
