/** The Merkle tree node and batch item of blocktrain/merkle.go, and positions
    inside a tree (which stand in for node identity). */
module MerkleTree {
  import opened Primitives

  /** A *MerkleNode: Nil is the nil pointer. Leaves carry a txID; internal
      nodes built by the tree builder carry the empty txID. */
  datatype Tree = Nil | Node(hash: Bytes, txID: Bytes, left: Tree, right: Tree)

  /** One pending item: the raw data and the txID it was committed under. */
  datatype MerkleData = MerkleData(data: Bytes, txID: Bytes)

  /** A node with neither child. */
  predicate IsLeaf(t: Tree) {
    t.Node? && t.left.Nil? && t.right.Nil?
  }

  /** A position in a tree: the turns from the root, false for left, true for right. */
  type Pos = seq<bool>

  function Child(t: Tree, right: bool): (c: Tree)
    ensures c != Nil ==> c < t
  {
    if t.Nil? then Nil else if right then t.right else t.left
  }

  /** The subtree at position p, or Nil when p leaves the tree. */
  function At(t: Tree, p: Pos): (r: Tree)
    ensures t.Nil? ==> r.Nil?
    decreases p
  {
    if p == [] then t else At(Child(t, p[0]), p[1..])
  }

  lemma {:induction false} AtConcat(t: Tree, p: Pos, q: Pos)
    ensures At(t, p + q) == At(At(t, p), q)
    decreases p
  {
    if p != [] {
      assert (p + q)[1..] == p[1..] + q;
      AtConcat(Child(t, p[0]), p[1..], q);
    } else {
      assert p + q == q;
    }
  }

  /** Walking one more step down is taking a child of the node reached. */
  lemma AtSnoc(t: Tree, p: Pos, c: bool)
    ensures At(t, p + [c]) == Child(At(t, p), c)
  {
    AtConcat(t, p, [c]);
  }

  /** A nonempty sequence is its prefix and its last element; for a position,
      its parent's position and one more turn. */
  lemma TakeSnoc<T>(s: seq<T>, k: nat)
    requires k < |s|
    ensures s[..k + 1] == s[..k] + [s[k]]
  {
  }

  lemma SplitLast<T>(p: seq<T>)
    requires p != []
    ensures p == p[..|p| - 1] + [p[|p| - 1]]
  {
  }

  /** Every prefix of the position of a node is the position of a node. */
  lemma AtPrefix(t: Tree, p: Pos, k: nat)
    requires k <= |p|
    requires At(t, p).Node?
    ensures At(t, p[..k]).Node?
  {
    assert p == p[..k] + p[k..];
    AtConcat(t, p[..k], p[k..]);
  }

  /** The positions of all the nodes of t. */
  function Positions(t: Tree): set<Pos>
    decreases t
  {
    if t.Nil? then {}
    else {[]} + (set q | q in Positions(t.left) :: [false] + q)
              + (set q | q in Positions(t.right) :: [true] + q)
  }

  lemma {:induction false} AtInPositions(t: Tree, q: Pos)
    requires At(t, q).Node?
    ensures q in Positions(t)
    decreases q
  {
    if q != [] {
      assert t.Node?;
      AtInPositions(Child(t, q[0]), q[1..]);
      assert q == [q[0]] + q[1..];
    }
  }
}
