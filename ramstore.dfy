/** The in-memory DataStore of ramstore/ramstore.go: three maps from byte
    strings to trees, blocks and raw data. A missing key reads as nil, which
    is Nil for a tree and None for a block or a data blob. */
module RamStore {
  import opened Primitives
  import opened MerkleTree
  import opened Blocks

  class RAMStore {
    var blockstore: map<Bytes, Block>
    var txstore: map<Bytes, Tree>
    var datastore: map<Bytes, Bytes>

    /** Every stored tree is a real node filed under its root hash, and every
        stored block is filed under its block hash. */
    predicate Valid()
      reads this
    {
      && (forall h :: h in txstore ==> txstore[h].Node? && txstore[h].hash == h)
      && (forall h :: h in blockstore ==> BlockHash(blockstore[h]) == h)
    }

    /** NewRAMStore */
    constructor ()
      ensures Valid()
      ensures blockstore == map[] && txstore == map[] && datastore == map[]
    {
      blockstore := map[];
      txstore := map[];
      datastore := map[];
    }

    /** InsertTree(root): files the tree under its root hash. The source
        dereferences root, so it must not be nil. */
    method InsertTree(root: Tree)
      requires Valid() && root.Node?
      modifies this
      ensures Valid()
      ensures txstore == old(txstore)[root.hash := root]
      ensures blockstore == old(blockstore) && datastore == old(datastore)
    {
      txstore := txstore[root.hash := root];
    }

    method InsertBlock(block: Block)
      requires Valid()
      modifies this
      ensures Valid()
      ensures blockstore == old(blockstore)[BlockHash(block) := block]
      ensures txstore == old(txstore) && datastore == old(datastore)
    {
      blockstore := blockstore[BlockHash(block) := block];
    }

    method InsertData(data: Bytes, txID: Bytes)
      requires Valid()
      modifies this
      ensures Valid()
      ensures datastore == old(datastore)[txID := data]
      ensures blockstore == old(blockstore) && txstore == old(txstore)
    {
      datastore := datastore[txID := data];
    }

    /** GetTree(hash): the tree filed under hash; nil when none is. */
    method GetTree(hash: Bytes) returns (tree: Tree)
      ensures hash in txstore ==> tree == txstore[hash]
      ensures hash !in txstore ==> tree == Nil
    {
      if hash in txstore {
        return txstore[hash];
      }
      return Nil;
    }

    /** GetBlock(hash): the block filed under hash; nil when none is. */
    method GetBlock(hash: Bytes) returns (block: Option<Block>)
      ensures hash in blockstore ==> block == Some(blockstore[hash])
      ensures hash !in blockstore ==> block == None
    {
      if hash in blockstore {
        return Some(blockstore[hash]);
      }
      return None;
    }

    /** GetData(txID): the data last inserted under txID; nil when none was. */
    method GetData(txID: Bytes) returns (data: Option<Bytes>)
      ensures txID in datastore ==> data == Some(datastore[txID])
      ensures txID !in datastore ==> data == None
    {
      if txID in datastore {
        return Some(datastore[txID]);
      }
      return None;
    }
  }

  /** Read-after-write on each map, the overwrite of a data entry by a second
      insert under the same txID, and that inserts touch no other key. */
  method ReadAfterWrite(store: RAMStore, root: Tree, block: Block, d1: Bytes, d2: Bytes, txID: Bytes, other: Bytes)
    returns (tree: Tree, got: Option<Block>, data: Option<Bytes>, untouched: Option<Bytes>)
    requires store.Valid() && root.Node? && other != txID
    modifies store
    ensures tree == root && got == Some(block) && data == Some(d2)
    ensures untouched == (if other in old(store.datastore) then Some(old(store.datastore)[other]) else None)
  {
    store.InsertTree(root);
    tree := store.GetTree(root.hash);
    store.InsertBlock(block);
    got := store.GetBlock(BlockHash(block));
    store.InsertData(d1, txID);
    store.InsertData(d2, txID);
    data := store.GetData(txID);
    untouched := store.GetData(other);
  }

  /** A fresh store answers nil to every lookup. */
  method EmptyLookups(treeHash: Bytes, blockHash: Bytes, txID: Bytes)
    returns (tree: Tree, block: Option<Block>, data: Option<Bytes>)
    ensures tree == Nil && block == None && data == None
  {
    var store := new RAMStore();
    tree := store.GetTree(treeHash);
    block := store.GetBlock(blockHash);
    data := store.GetData(txID);
  }
}
