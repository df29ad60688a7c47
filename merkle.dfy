/** The Merkle tree builder and checker of blocktrain/merkle.go. */
module Merkle {
  import opened Primitives
  import opened MerkleTree
  import opened MerkleStack

  // ---------------------------------------------------------------------------
  // Building a tree: NewMerkleTree
  // ---------------------------------------------------------------------------

  /** The leaf committing to one item: H(data ‖ txID). */
  function Leaf(d: MerkleData): Tree {
    Node(Hash(d.data + d.txID), d.txID, Nil, Nil)
  }

  /** An internal node over two nodes: H(left.Hash ‖ right.Hash), empty txID. */
  function Parent(l: Tree, r: Tree): Tree
    requires l.Node? && r.Node?
  {
    Node(Hash(l.hash + r.hash), [], l, r)
  }

  function LeafLevel(data: seq<MerkleData>): (level: seq<Tree>)
    ensures |level| == |data|
    ensures AllNodes(level)
  {
    seq(|data|, i requires 0 <= i < |data| => Leaf(data[i]))
  }

  /** The parents of the ⌊n/2⌋ adjacent pairs of a level, in order. */
  function Pairs(level: seq<Tree>): (ps: seq<Tree>)
    requires AllNodes(level)
    ensures |ps| == |level| / 2
    ensures AllNodes(ps)
    decreases |level|
  {
    if |level| < 2 then [] else [Parent(level[0], level[1])] + Pairs(level[2..])
  }

  /** The parent over nodes 2k and 2k+1 of a level. */
  function ParentAt(level: seq<Tree>, k: nat): Tree
    requires AllNodes(level) && k < |level| / 2
  {
    Parent(level[2 * k], level[2 * k + 1])
  }

  /** Dropping the first pair of a level shifts its parents down by one. */
  lemma ParentShift(level: seq<Tree>, i: nat)
    requires AllNodes(level) && 0 < i < |level| / 2
    ensures ParentAt(level[2..], i - 1) == ParentAt(level, i)
  {
    assert level[2..][2 * (i - 1)] == level[2 * i];
    assert level[2..][2 * (i - 1) + 1] == level[2 * i + 1];
  }

  /** Parent i of a round is built over nodes 2i and 2i+1 of the level. */
  lemma {:induction false} PairsAt(level: seq<Tree>, i: nat)
    requires AllNodes(level) && i < |level| / 2
    ensures Pairs(level)[i] == ParentAt(level, i)
    decreases i
  {
    if i > 0 {
      PairsAt(level[2..], i - 1);
      ParentShift(level, i);
    }
  }

  /** A sequence holding, at each index i, the parent over nodes 2i and 2i+1
      is the round's sequence of parents. */
  lemma PairsFrom(level: seq<Tree>, parents: seq<Tree>)
    requires AllNodes(level) && |parents| == |level| / 2
    requires forall k :: 0 <= k < |parents| ==> parents[k] == ParentAt(level, k)
    ensures parents == Pairs(level)
  {
    forall k | 0 <= k < |parents|
      ensures parents[k] == Pairs(level)[k]
    {
      PairsAt(level, k);
    }
  }

  predicate AllNodes(level: seq<Tree>) {
    forall i :: 0 <= i < |level| ==> level[i].Node?
  }

  /** One collapse round: the pairs' parents, then the unpaired last node of an
      odd level carried over unchanged. */
  function Collapse(level: seq<Tree>): (next: seq<Tree>)
    requires AllNodes(level)
    ensures |next| == |level| / 2 + |level| % 2
    ensures |level| > 1 ==> |next| < |level|
    ensures |level| % 2 == 1 ==> next[|next| - 1] == level[|level| - 1]
    ensures AllNodes(next)
  {
    Pairs(level) + (if |level| % 2 == 1 then [level[|level| - 1]] else [])
  }

  /** Collapse rounds until at most one node is left. */
  function Reduce(level: seq<Tree>): (r: seq<Tree>)
    requires AllNodes(level)
    ensures |level| >= 1 ==> |r| == 1
    ensures |level| >= 2 ==> r[0].Node? && r[0].left.Node? && r[0].right.Node? && r[0].txID == []
                              && r[0].hash == Hash(r[0].left.hash + r[0].right.hash)
    decreases |level|
  {
    if |level| <= 1 then level else Reduce(Collapse(level))
  }

  /** The final step of the builder: the root hash recomputed from its children. */
  function RehashRoot(root: Tree): Tree
    requires root.Node? && root.left.Node? && root.right.Node?
  {
    root.(hash := Hash(root.left.hash + root.right.hash))
  }

  /** The tree NewMerkleTree builds; nil for an empty batch. A batch of one item
      makes the source dereference nil children, so it is excluded. */
  function MerkleRoot(data: seq<MerkleData>): (root: Tree)
    requires |data| != 1
    ensures root.Nil? <==> |data| == 0
  {
    if |data| == 0 then Nil else RehashRoot(Reduce(LeafLevel(data))[0])
  }

  method NewMerkleTree(data: seq<MerkleData>) returns (root: Tree)
    requires |data| != 1
    ensures root == MerkleRoot(data)
  {
    if |data| == 0 {
      return Nil;
    }
    var list: seq<Tree> := [];
    for j := 0 to |data|
      invariant |list| == j
      invariant forall k :: 0 <= k < j ==> list[k] == Leaf(data[k])
    {
      var chkSum := Hash(data[j].data + data[j].txID);
      list := list + [Node(chkSum, data[j].txID, Nil, Nil)];
    }
    assert list == LeafLevel(data);
    while |list| > 1
      invariant |list| >= 1 && AllNodes(list)
      invariant Reduce(list) == Reduce(LeafLevel(data))
      decreases |list|
    {
      list := CollapseLevel(list);
    }
    root := list[0];
    var toHash := root.left.hash + root.right.hash;
    root := root.(hash := Hash(toHash));
  }

  /** One round of the builder's outer loop: the parents of the adjacent
      pairs, then the unpaired last node of an odd level. */
  method CollapseLevel(list: seq<Tree>) returns (tmpList: seq<Tree>)
    requires AllNodes(list)
    ensures tmpList == Collapse(list)
  {
    tmpList := PairParents(list);
    if |list| % 2 == 1 {
      tmpList := tmpList + [list[|list| - 1]];
    }
  }

  /** The inner loop of a round: parent i over nodes 2i and 2i+1, hashed
      from its children's hashes, written into a fresh array. */
  method PairParents(list: seq<Tree>) returns (parents: seq<Tree>)
    requires AllNodes(list)
    ensures parents == Pairs(list)
  {
    var count := |list| / 2;
    var tmp := new Tree[count];
    for i := 0 to count
      invariant forall k :: 0 <= k < i ==> tmp[k] == ParentAt(list, k)
    {
      var node := Node([], [], list[2 * i], list[2 * i + 1]);
      var toHash := node.left.hash + node.right.hash;
      node := node.(hash := Hash(toHash));
      tmp[i] := node;
    }
    parents := tmp[..];
    PairsFrom(list, parents);
  }

  // ---------------------------------------------------------------------------
  // Shape of a built tree
  // ---------------------------------------------------------------------------

  /** Every internal node has two children, the empty txID and the hash of its
      children's hashes; the leaves are the nodes without children. */
  predicate WellFormed(t: Tree)
    decreases t
  {
    t.Node? &&
    (IsLeaf(t) ||
     (t.left.Node? && t.right.Node? && t.txID == [] &&
      t.hash == Hash(t.left.hash + t.right.hash) &&
      WellFormed(t.left) && WellFormed(t.right)))
  }

  /** The leaves from left to right. */
  function Leaves(t: Tree): (r: seq<Tree>)
    ensures forall i :: 0 <= i < |r| ==> IsLeaf(r[i])
    decreases t
  {
    if t.Nil? then [] else if IsLeaf(t) then [t] else Leaves(t.left) + Leaves(t.right)
  }

  /** The leaves of a whole level, left to right. */
  function Flatten(level: seq<Tree>): seq<Tree>
    decreases |level|
  {
    if level == [] then [] else Leaves(level[0]) + Flatten(level[1..])
  }

  predicate AllWellFormed(level: seq<Tree>) {
    forall i :: 0 <= i < |level| ==> WellFormed(level[i])
  }

  lemma {:induction false} FlattenConcat(a: seq<Tree>, b: seq<Tree>)
    ensures Flatten(a + b) == Flatten(a) + Flatten(b)
    decreases |a|
  {
    if a == [] {
      assert a + b == b;
    } else {
      assert (a + b)[1..] == a[1..] + b;
      FlattenConcat(a[1..], b);
    }
  }

  lemma FlattenOne(a: Tree)
    ensures Flatten([a]) == Leaves(a)
  {
    assert [a][1..] == [];
  }

  lemma FlattenTwo(a: Tree, b: Tree)
    ensures Flatten([a, b]) == Leaves(a) + Leaves(b)
  {
    assert [a, b][1..] == [b];
    FlattenOne(b);
  }

  lemma ParentLeaves(a: Tree, b: Tree)
    requires WellFormed(a) && WellFormed(b)
    ensures WellFormed(Parent(a, b))
    ensures Leaves(Parent(a, b)) == Leaves(a) + Leaves(b)
  {
  }

  lemma FlattenCons(a: Tree, s: seq<Tree>)
    ensures Flatten([a] + s) == Leaves(a) + Flatten(s)
  {
    assert ([a] + s)[1..] == s;
  }

  lemma FlattenCons2(level: seq<Tree>)
    requires |level| >= 2
    ensures Flatten(level) == Leaves(level[0]) + Leaves(level[1]) + Flatten(level[2..])
  {
    var t := level[1..];
    assert t[1..] == level[2..];
    assert Flatten(t) == Leaves(level[1]) + Flatten(level[2..]);
  }

  /** Pairing an even level keeps every node well formed and the leaves in order. */
  lemma {:induction false} PairsPreserve(level: seq<Tree>)
    requires AllWellFormed(level) && |level| % 2 == 0
    ensures AllWellFormed(Pairs(level))
    ensures Flatten(Pairs(level)) == Flatten(level)
    decreases |level|
  {
    if |level| >= 2 {
      var rest := level[2..];
      var p := Parent(level[0], level[1]);
      PairsPreserve(rest);
      ParentLeaves(level[0], level[1]);
      FlattenCons(p, Pairs(rest));
      FlattenCons2(level);
      var ps := Pairs(level);
      forall i | 0 <= i < |ps|
        ensures WellFormed(ps[i])
      {
        if i > 0 {
          assert ps[i] == Pairs(rest)[i - 1];
        }
      }
    }
  }

  /** The unpaired last node of an odd level takes no part in the pairs. */
  lemma PairsOdd(level: seq<Tree>)
    requires AllNodes(level) && |level| % 2 == 1
    ensures Pairs(level) == Pairs(level[..|level| - 1])
  {
    var init := level[..|level| - 1];
    var ps, qs := Pairs(level), Pairs(init);
    assert |ps| == |qs| by {
      OddHalf(|level|);
    }
    forall i | 0 <= i < |ps|
      ensures ps[i] == qs[i]
    {
      PairsOddAt(level, i);
    }
  }

  lemma OddHalf(n: nat)
    requires n % 2 == 1
    ensures (n - 1) / 2 == n / 2
  {
  }

  lemma PairsOddAt(level: seq<Tree>, i: nat)
    requires AllNodes(level) && |level| % 2 == 1 && i < |level| / 2
    ensures Pairs(level)[i] == Pairs(level[..|level| - 1])[i]
  {
    var init := level[..|level| - 1];
    PairsAt(level, i);
    PairsAt(init, i);
    assert init[2 * i] == level[2 * i] && init[2 * i + 1] == level[2 * i + 1];
  }

  /** A collapse round keeps every node well formed and the leaves in order. */
  lemma CollapsePreserves(level: seq<Tree>)
    requires AllWellFormed(level)
    ensures AllWellFormed(Collapse(level))
    ensures Flatten(Collapse(level)) == Flatten(level)
  {
    if |level| % 2 == 1 {
      var init := level[..|level| - 1];
      var last := level[|level| - 1];
      PairsOdd(level);
      PairsPreserve(init);
      SplitLast(level);
      FlattenConcat(init, [last]);
      FlattenConcat(Pairs(init), [last]);
    } else {
      PairsPreserve(level);
      assert Collapse(level) == Pairs(level);
    }
  }

  lemma {:induction false} ReducePreserves(level: seq<Tree>)
    requires AllWellFormed(level)
    ensures AllNodes(level)
    ensures AllWellFormed(Reduce(level))
    ensures Flatten(Reduce(level)) == Flatten(level)
    decreases |level|
  {
    if |level| > 1 {
      CollapsePreserves(level);
      ReducePreserves(Collapse(level));
    }
  }

  /** For a batch of at least two items the builder yields a well-formed,
      internal root whose leaves are the items' leaves in batch order: leaf i
      has hash H(data ‖ txID), carries txID and has no children. Recomputing the
      root hash at the end changes nothing. */
  lemma BuiltTreeShape(data: seq<MerkleData>)
    requires |data| >= 2
    ensures WellFormed(MerkleRoot(data)) && !IsLeaf(MerkleRoot(data))
    ensures MerkleRoot(data) == Reduce(LeafLevel(data))[0]
    ensures |Leaves(MerkleRoot(data))| == |data|
    ensures forall i :: 0 <= i < |data| ==>
              Leaves(MerkleRoot(data))[i] == Node(Hash(data[i].data + data[i].txID), data[i].txID, Nil, Nil)
  {
    var level := LeafLevel(data);
    assert AllWellFormed(level);
    ReducePreserves(level);
    var r := Reduce(level);
    assert r == [r[0]];
    assert Flatten(r) == Leaves(r[0]) by {
      assert r[1..] == [];
    }
    LeafLevelFlatten(data);
  }

  lemma {:induction false} LeafLevelFlatten(data: seq<MerkleData>)
    ensures Flatten(LeafLevel(data)) == LeafLevel(data)
    decreases |data|
  {
    if data != [] {
      assert LeafLevel(data)[1..] == LeafLevel(data[1..]);
      LeafLevelFlatten(data[1..]);
      assert LeafLevel(data) == [Leaf(data[0])] + LeafLevel(data[1..]);
    }
  }

  // ---------------------------------------------------------------------------
  // Contains
  // ---------------------------------------------------------------------------

  /** node.Contains(txID): the node or a descendant carries txID. The source
      calls it on a non-nil node only. */
  predicate Contains(node: Tree, txID: Bytes)
    requires node.Node?
    decreases node
  {
    node.txID == txID
    || (node.left.Node? && Contains(node.left, txID))
    || (node.right.Node? && Contains(node.right, txID))
  }

  /** Contains finds only ids that some node of the subtree carries ... */
  lemma {:induction false} ContainsSound(t: Tree, txID: Bytes)
    requires t.Node? && Contains(t, txID)
    ensures exists q :: At(t, q).Node? && At(t, q).txID == txID
    decreases t
  {
    if t.txID == txID {
      assert At(t, []) == t;
    } else {
      var c := t.left.Node? && Contains(t.left, txID);
      var sub := if c then t.left else t.right;
      ContainsSound(sub, txID);
      var q :| At(sub, q).Node? && At(sub, q).txID == txID;
      assert At(t, [!c] + q) == At(sub, q) by {
        assert ([!c] + q)[1..] == q;
      }
    }
  }

  /** ... and finds every id that some node of the subtree carries. */
  lemma {:induction false} ContainsComplete(t: Tree, txID: Bytes, q: Pos)
    requires At(t, q).Node? && At(t, q).txID == txID
    ensures t.Node? && Contains(t, txID)
    decreases q
  {
    if q != [] {
      assert t.Node?;
      ContainsComplete(Child(t, q[0]), txID, q[1..]);
    }
  }

  /** Every leaf of a tree is found by Contains. */
  lemma {:induction false} LeavesContained(t: Tree, j: nat)
    requires j < |Leaves(t)|
    ensures t.Node? && Contains(t, Leaves(t)[j].txID)
    decreases t
  {
    if !IsLeaf(t) {
      var nl := |Leaves(t.left)|;
      if j < nl {
        LeavesContained(t.left, j);
      } else {
        LeavesContained(t.right, j - nl);
      }
    }
  }

  /** Every txID of a batch of at least two items is found in the built tree. */
  lemma BuiltTreeContainsAll(data: seq<MerkleData>, i: nat)
    requires |data| >= 2 && i < |data|
    ensures MerkleRoot(data).Node? && Contains(MerkleRoot(data), data[i].txID)
  {
    BuiltTreeShape(data);
    LeavesContained(MerkleRoot(data), i);
  }

  // ---------------------------------------------------------------------------
  // The checker: what Verify computes
  // ---------------------------------------------------------------------------

  function Or(a: Option<Pos>, b: Option<Pos>): Option<Pos> {
    if a.Some? then a else b
  }

  function Prefixed(p: Pos, r: Option<Pos>): Option<Pos> {
    match r
    case None => None
    case Some(q) => Some(p + q)
  }

  /** The position of the first leaf, left to right, that carries txID. */
  function Find(t: Tree, txID: Bytes): Option<Pos>
    decreases t
  {
    if t.Nil? then None
    else if IsLeaf(t) then (if t.txID == txID then Some([]) else None)
    else Or(Prefixed([false], Find(t.left, txID)), Prefixed([true], Find(t.right, txID)))
  }

  /** Find within the subtree at p, as a position of the whole tree. */
  function FindAt(root: Tree, p: Pos, txID: Bytes): Option<Pos> {
    Prefixed(p, Find(At(root, p), txID))
  }

  /** What a depth-first search still has to look at once it has finished the
      subtree at p: the right siblings of the left turns of p, deepest first. */
  function Resume(root: Tree, p: Pos, txID: Bytes): Option<Pos>
    decreases |p|
  {
    if p == [] then None
    else if p[|p| - 1] then Resume(root, p[..|p| - 1], txID)
    else Or(FindAt(root, p[..|p| - 1] + [true], txID), Resume(root, p[..|p| - 1], txID))
  }

  /** The bytes a parent is rehashed from for one child: the freshly computed
      leaf hash for a child carrying txID, else the child's stored hash. */
  function ChildInput(c: Tree, txID: Bytes, dataHash: Bytes): Bytes {
    if c.Nil? then [] else if c.txID == txID then dataHash else c.hash
  }

  predicate Rehashes(n: Tree, txID: Bytes, dataHash: Bytes) {
    n.Nil? || Hash(ChildInput(n.left, txID, dataHash) + ChildInput(n.right, txID, dataHash)) == n.hash
  }

  /** node.Verify(txID, data): the first leaf carrying txID exists and stores
      H(data ‖ txID), and every node above it rehashes to its stored hash. */
  predicate Authentic(root: Tree, txID: Bytes, data: Bytes) {
    match Find(root, txID)
    case None => false
    case Some(p) =>
      var dataHash := Hash(data + txID);
      At(root, p).Node? && At(root, p).hash == dataHash &&
      forall k :: 0 <= k < |p| ==> Rehashes(At(root, p[..k]), txID, dataHash)
  }

  // ---------------------------------------------------------------------------
  // Facts about Find
  // ---------------------------------------------------------------------------

  lemma {:induction false} FindSound(t: Tree, txID: Bytes)
    requires Find(t, txID).Some?
    ensures IsLeaf(At(t, Find(t, txID).value)) && At(t, Find(t, txID).value).txID == txID
    decreases t
  {
    if !IsLeaf(t) {
      var fl := Find(t.left, txID);
      var c := !fl.Some?;
      var sub := if c then t.right else t.left;
      FindSound(sub, txID);
      var q := Find(sub, txID).value;
      assert Find(t, txID).value == [c] + q;
      assert ([c] + q)[1..] == q;
    }
  }

  lemma {:induction false} FindComplete(t: Tree, txID: Bytes, q: Pos)
    requires IsLeaf(At(t, q)) && At(t, q).txID == txID
    ensures Find(t, txID).Some?
    decreases q
  {
    if q != [] {
      assert t.Node?;
      if !IsLeaf(t) {
        FindComplete(Child(t, q[0]), txID, q[1..]);
      }
    }
  }

  lemma {:induction false} LeavesFound(t: Tree, j: nat)
    requires j < |Leaves(t)|
    ensures Find(t, Leaves(t)[j].txID).Some?
    decreases t
  {
    if !IsLeaf(t) {
      var nl := |Leaves(t.left)|;
      if j < nl {
        LeavesFound(t.left, j);
      } else {
        LeavesFound(t.right, j - nl);
      }
    }
  }

  lemma FindAtLeaf(root: Tree, p: Pos, txID: Bytes)
    requires IsLeaf(At(root, p))
    ensures FindAt(root, p, txID) == if At(root, p).txID == txID then Some(p) else None
  {
    assert p + [] == p;
  }

  lemma PrefixedPrefixed(p: Pos, c: bool, r: Option<Pos>)
    ensures Prefixed(p, Prefixed([c], r)) == Prefixed(p + [c], r)
  {
    if r.Some? {
      assert p + ([c] + r.value) == p + [c] + r.value;
    }
  }

  lemma PrefixedOr(p: Pos, a: Option<Pos>, b: Option<Pos>)
    ensures Prefixed(p, Or(a, b)) == Or(Prefixed(p, a), Prefixed(p, b))
  {
  }

  lemma FindAtSplit(root: Tree, p: Pos, txID: Bytes)
    requires At(root, p).Node? && !IsLeaf(At(root, p))
    ensures FindAt(root, p, txID) == Or(FindAt(root, p + [false], txID), FindAt(root, p + [true], txID))
  {
    var n := At(root, p);
    AtSnoc(root, p, false);
    AtSnoc(root, p, true);
    var l := Find(n.left, txID);
    var r := Find(n.right, txID);
    assert Find(n, txID) == Or(Prefixed([false], l), Prefixed([true], r));
    PrefixedOr(p, Prefixed([false], l), Prefixed([true], r));
    PrefixedPrefixed(p, false, l);
    PrefixedPrefixed(p, true, r);
  }

  lemma ResumeSnoc(root: Tree, p: Pos, c: bool, txID: Bytes)
    ensures Resume(root, p + [c], txID) ==
            if c then Resume(root, p, txID) else Or(FindAt(root, p + [true], txID), Resume(root, p, txID))
  {
    assert (p + [c])[..|p|] == p;
  }

  // ---------------------------------------------------------------------------
  // Preorder on positions, for the depth-first search
  // ---------------------------------------------------------------------------

  predicate Prefix(p: Pos, q: Pos) {
    |p| <= |q| && q[..|p|] == p
  }

  /** q comes before p in preorder and is not inside p's subtree. */
  predicate Before(q: Pos, p: Pos)
    decreases |q|
  {
    |p| > 0 && (q == [] || (!q[0] && p[0]) || (q[0] == p[0] && Before(q[1..], p[1..])))
  }

  lemma {:induction false} BeforeExtend(q: Pos, p: Pos, c: bool)
    requires Before(q, p)
    ensures Before(q, p + [c])
    decreases |q|
  {
    if q != [] && q[0] == p[0] && Before(q[1..], p[1..]) {
      BeforeExtend(q[1..], p[1..], c);
      assert (p + [c])[1..] == p[1..] + [c];
    }
  }

  lemma {:induction false} BeforeChild(p: Pos, c: bool)
    ensures Before(p, p + [c])
    decreases |p|
  {
    if p != [] {
      BeforeChild(p[1..], c);
      assert (p + [c])[1..] == p[1..] + [c];
    }
  }

  lemma {:induction false} LeftBeforeRight(p: Pos, q: Pos)
    requires Prefix(p + [false], q)
    ensures Before(q, p + [true])
    decreases |p|
  {
    if p != [] {
      assert (p + [false])[1..] == p[1..] + [false];
      assert (p + [true])[1..] == p[1..] + [true];
      LeftBeforeRight(p[1..], q[1..]);
    }
  }

  lemma {:induction false} BeforeParent(q: Pos, p: Pos, c: bool)
    requires Before(q, p + [c])
    ensures Before(q, p) || Prefix(p, q)
    decreases |q|
  {
    if p != [] && q != [] && q[0] == p[0] {
      assert (p + [c])[1..] == p[1..] + [c];
      BeforeParent(q[1..], p[1..], c);
      assert Prefix(p[1..], q[1..]) ==> Prefix(p, q);
    }
  }

  lemma {:induction false} InsideNotBefore(p: Pos, q: Pos)
    requires Prefix(p, q)
    ensures !Before(q, p)
    decreases |p|
  {
    if p != [] {
      InsideNotBefore(p[1..], q[1..]);
    }
  }

  lemma RightNotSeen(p: Pos, q: Pos)
    requires Prefix(p + [true], q)
    ensures !Before(q, p + [false]) && !Prefix(p + [false], q)
  {
    if Before(q, p + [false]) {
      BeforeParent(q, p, false);
      if Before(q, p) {
        assert Prefix(p, q);
        InsideNotBefore(p, q);
      }
      assert q[..|p| + 1] == p + [true];
      RightSiblingNotBefore(p, q);
    }
    assert q[|p|] == true;
  }

  lemma {:induction false} RightSiblingNotBefore(p: Pos, q: Pos)
    requires Prefix(p + [true], q)
    ensures !Before(q, p + [false])
    decreases |p|
  {
    if p != [] {
      assert (p + [false])[1..] == p[1..] + [false];
      assert (p + [true])[1..] == p[1..] + [true];
      RightSiblingNotBefore(p[1..], q[1..]);
    } else {
      assert q[0] == true;
      assert !Before(q[1..], []);
    }
  }

  // ---------------------------------------------------------------------------
  // Verify
  // ---------------------------------------------------------------------------

  /** The node stack holds the nodes on the root-to-top path. */
  ghost predicate StackIsPath(root: Tree, elems: seq<Tree>, path: Pos) {
    |elems| == |path| + 1 &&
    forall k :: 0 <= k < |elems| ==> elems[k] == At(root, path[..k])
  }

  /** The nodes the search has not entered yet, the top node counting as entered. */
  function Unseen(root: Tree, visited: set<Pos>, path: Pos): set<Pos> {
    Positions(root) - (visited + {path})
  }

  /** The search's termination measure: entering a node shrinks Unseen and
      grows the stack by one; leaving a node shrinks the stack. */
  function Measure(root: Tree, visited: set<Pos>, path: Pos, depth: nat): nat {
    2 * |Unseen(root, visited, path)| + depth
  }

  ghost predicate Searching(root: Tree, txID: Bytes, elems: seq<Tree>, path: Pos, visited: set<Pos>) {
    StackIsPath(root, elems, path) && SearchState(root, txID, path, visited)
  }

  /** The search starts at the root with nothing visited. */
  lemma SearchStart(root: Tree, txID: Bytes)
    requires root.Node?
    ensures Searching(root, txID, [root], [], {})
  {
    assert FindAt(root, [], txID) == Find(root, txID) by {
      match Find(root, txID)
      case Some(q) => assert [] + q == q;
      case None =>
    }
  }

  /** The search state at the top of the loop, the top node being at `path`. */
  ghost predicate SearchState(root: Tree, txID: Bytes, path: Pos, visited: set<Pos>) {
    && At(root, path).Node?
    && (forall k :: 0 <= k < |path| ==> path[..k] in visited)
    && (forall k :: 0 <= k < |path| && path[k] && At(root, path[..k] + [false]).Node? ==>
          path[..k] + [false] in visited)
    && (forall q :: q in visited ==> At(root, q).Node?)
    && (forall q :: q in visited ==> Before(q, path) || Prefix(path, q))
    && (path !in visited ==> forall q :: q in visited ==> Before(q, path))
    && (path in visited ==>
          (At(root, path + [false]).Node? ==> path + [false] in visited) &&
          (At(root, path + [false]).Nil? ==> path + [true] in visited))
    && (path in visited && path + [true] !in visited ==>
          forall q :: q in visited ==> !Prefix(path + [true], q))
    && Find(root, txID) ==
         if path !in visited then Or(FindAt(root, path, txID), Resume(root, path, txID))
         else Resume(root, path + [path + [true] in visited], txID)
  }

  /** node.Verify(txID, data). The `visited` flags become a local set of
      positions (unvisit is its fresh empty value), so the tree is unchanged.
      The search loop is Search and the loop over the ancestors is
      CheckAncestors. */
  method Verify(root: Tree, txID: Bytes, data: Bytes) returns (ok: bool)
    requires root.Node?
    ensures ok == Authentic(root, txID, data)
  {
    var stack := new Stack();
    stack.Push(root);
    var path := Search(root, txID, stack);

    if |stack.elems| == 0 {
      return false;
    }

    // The top is the first leaf carrying txID; the stack is its root path.
    var dataHash := Hash(data + txID);
    AuthenticAt(root, txID, data, path);
    assert path[..|path|] == path;
    var top := stack.Top();
    var eq := ByteSliceEqual(top.hash, dataHash);
    if !eq {
      return false;
    }
    var _ := stack.Pop();
    ok := CheckAncestors(root, stack, path, txID, dataHash);
  }

  /** The depth-first search of node.Verify, from a stack holding the root:
      it stops on the first leaf, left to right, carrying txID, with the
      stack holding the nodes from the root down to it, or ends with an
      empty stack when no leaf carries txID. */
  method Search(root: Tree, txID: Bytes, stack: Stack) returns (path: Pos)
    requires root.Node? && stack.elems == [root]
    modifies stack
    ensures stack.elems == [] <==> Find(root, txID) == None
    ensures stack.elems != [] ==>
      && Find(root, txID) == Some(path)
      && |stack.elems| == |path| + 1
      && forall k :: 0 <= k < |stack.elems| ==> stack.elems[k] == At(root, path[..k])
  {
    var visited: set<Pos> := {};
    path := [];
    SearchStart(root, txID);

    while |stack.elems| > 0
      invariant stack.elems == [] ==> Find(root, txID) == None
      invariant stack.elems != [] ==> Searching(root, txID, stack.elems, path, visited)
      decreases Measure(root, visited, path, |stack.elems|)
    {
      var found;
      path, visited, found := SearchStep(root, txID, stack, path, visited);
      if found {
        break;
      }
    }
  }

  /** One pass of the search loop: a leaf carrying txID on top ends the
      search; otherwise the top is marked visited, and its first unvisited
      child is pushed or, when there is none, it is popped. */
  method SearchStep(root: Tree, txID: Bytes, stack: Stack, path: Pos, visited: set<Pos>)
    returns (path': Pos, visited': set<Pos>, found: bool)
    requires stack.elems != [] && Searching(root, txID, stack.elems, path, visited)
    modifies stack
    ensures found ==>
      && stack.elems == old(stack.elems) && path' == path
      && Find(root, txID) == Some(path)
      && |stack.elems| == |path| + 1
      && forall k :: 0 <= k < |stack.elems| ==> stack.elems[k] == At(root, path[..k])
    ensures !found ==>
      && (stack.elems == [] ==> Find(root, txID) == None)
      && (stack.elems != [] ==> Searching(root, txID, stack.elems, path', visited'))
      && Measure(root, visited', path', |stack.elems|) < Measure(root, visited, path, |old(stack.elems)|)
  {
    ghost var elems := stack.elems;
    var n := stack.Top();
    TopOfPath(root, txID, elems, path, visited);
    visited' := visited + {path};
    path' := path;
    found := false;

    if n.left.Nil? && n.right.Nil? {
      if n.txID == txID {
        FoundStep(root, txID, elems, path, visited);
        found := true;
        return;
      }
      PopStep(root, txID, elems, path, visited);
      var _ := stack.Pop();
      if |path| > 0 {
        path' := path[..|path| - 1];
      }
      return;
    }

    if n.left.Node? && path + [false] !in visited' {
      PushStep(root, txID, elems, path, visited, false);
      stack.Push(n.left);
      path' := path + [false];
      return;
    }
    if n.right.Node? && path + [true] !in visited' {
      PushStep(root, txID, elems, path, visited, true);
      stack.Push(n.right);
      path' := path + [true];
      return;
    }

    PopStep(root, txID, elems, path, visited);
    var _ := stack.Pop();
    if |path| > 0 {
      path' := path[..|path| - 1];
    }
  }

  /** Authentic, once the first leaf carrying txID is known to be at target. */
  lemma AuthenticAt(root: Tree, txID: Bytes, data: Bytes, target: Pos)
    requires Find(root, txID) == Some(target)
    ensures At(root, target).Node?
    ensures Authentic(root, txID, data) <==>
      At(root, target).hash == Hash(data + txID) &&
      forall k :: 0 <= k < |target| ==> Rehashes(At(root, target[..k]), txID, Hash(data + txID))
  {
    FindSound(root, txID);
  }

  /** The second half of node.Verify: pops the ancestors of the found leaf,
      deepest first, and checks that each rehashes to its stored hash, the
      child carrying txID contributing the freshly computed leaf hash. */
  method CheckAncestors(root: Tree, stack: Stack, target: Pos, txID: Bytes, dataHash: Bytes) returns (ok: bool)
    requires At(root, target).Node?
    requires |stack.elems| == |target|
    requires forall k :: 0 <= k < |stack.elems| ==> stack.elems[k] == At(root, target[..k])
    modifies stack
    ensures ok == forall k :: 0 <= k < |target| ==> Rehashes(At(root, target[..k]), txID, dataHash)
  {
    ghost var ancestors := stack.elems;
    while |stack.elems| > 0
      invariant |stack.elems| <= |target| && stack.elems == ancestors[..|stack.elems|]
      invariant RehashedFrom(root, target, |stack.elems|, txID, dataHash)
      decreases |stack.elems|
    {
      ghost var j := |stack.elems| - 1;
      var n := stack.Pop();
      assert n == ancestors[j] == At(root, target[..j]);
      AtPrefix(root, target, j);
      var eq := NodeRehashes(n, txID, dataHash);
      if !eq {
        return false;
      }
      RehashedStep(root, target, j, txID, dataHash);
    }
    return true;
  }

  /** One step of the ancestor check: hashes the node's children, the child
      carrying txID contributing the freshly computed leaf hash, and compares
      the digest with the node's stored hash. */
  method NodeRehashes(n: Tree, txID: Bytes, dataHash: Bytes) returns (ok: bool)
    requires n.Node?
    ensures ok == Rehashes(n, txID, dataHash)
  {
    var toHash: Bytes := [];
    if n.left.Node? {
      if n.left.txID == txID {
        toHash := toHash + dataHash;
      } else {
        toHash := toHash + n.left.hash;
      }
    }
    assert toHash == ChildInput(n.left, txID, dataHash);
    if n.right.Node? {
      if n.right.txID == txID {
        toHash := toHash + dataHash;
      } else {
        toHash := toHash + n.right.hash;
      }
    }
    assert toHash == ChildInput(n.left, txID, dataHash) + ChildInput(n.right, txID, dataHash);
    var chkSum := Hash(toHash);
    ok := ByteSliceEqual(chkSum, n.hash);
  }

  /** Every ancestor of the target at depth from or more rehashes correctly. */
  predicate RehashedFrom(root: Tree, target: Pos, from: nat, txID: Bytes, dataHash: Bytes) {
    forall k :: from <= k < |target| ==> Rehashes(At(root, target[..k]), txID, dataHash)
  }

  lemma RehashedStep(root: Tree, target: Pos, j: nat, txID: Bytes, dataHash: Bytes)
    requires j < |target|
    requires RehashedFrom(root, target, j + 1, txID, dataHash)
    requires Rehashes(At(root, target[..j]), txID, dataHash)
    ensures RehashedFrom(root, target, j, txID, dataHash)
  {
  }

  /** The node on top of the stack is the node at `path`. */
  lemma TopOfPath(root: Tree, txID: Bytes, elems: seq<Tree>, path: Pos, visited: set<Pos>)
    requires Searching(root, txID, elems, path, visited)
    ensures elems[|elems| - 1] == At(root, path) && At(root, path).Node?
  {
    assert path[..|path|] == path;
  }

  /** A leaf carrying txID reached by the search is the first such leaf. */
  lemma FoundStep(root: Tree, txID: Bytes, elems: seq<Tree>, path: Pos, before: set<Pos>)
    requires Searching(root, txID, elems, path, before)
    requires IsLeaf(At(root, path)) && At(root, path).txID == txID
    ensures Find(root, txID) == Some(path)
    ensures |elems| == |path| + 1
    ensures forall k :: 0 <= k < |elems| ==> elems[k] == At(root, path[..k])
  {
    AtSnoc(root, path, false);
    AtSnoc(root, path, true);
    FindAtLeaf(root, path, txID);
  }

  /** The loop step that pops the top node: a leaf not carrying txID, or an
      inner node none of whose children can still be pushed. */
  lemma PopStep(root: Tree, txID: Bytes, elems: seq<Tree>, path: Pos, before: set<Pos>)
    requires Searching(root, txID, elems, path, before)
    requires var n := At(root, path);
      (IsLeaf(n) && n.txID != txID) ||
      (!IsLeaf(n) && (n.left.Nil? || path + [false] in before + {path})
                  && (n.right.Nil? || path + [true] in before + {path}))
    ensures path == [] ==> Find(root, txID) == None
    ensures path != [] ==>
      && Searching(root, txID, elems[..|elems| - 1], path[..|path| - 1], before + {path})
      && Measure(root, before + {path}, path[..|path| - 1], |elems| - 1) < Measure(root, before, path, |elems|)
  {
    PopResumes(root, txID, path, before);
    Retreat(root, txID, path, before);
    if path != [] {
      StackPop(root, elems, path);
      assert path[..|path| - 1] in before;
      SetAbsorb(Positions(root), before + {path}, path[..|path| - 1]);
    }
  }

  /** A non-matching leaf, or a node whose children are done, adds nothing
      to what the search still has to look at. */
  lemma PopResumes(root: Tree, txID: Bytes, path: Pos, before: set<Pos>)
    requires SearchState(root, txID, path, before)
    requires var n := At(root, path);
      (IsLeaf(n) && n.txID != txID) ||
      (!IsLeaf(n) && (n.left.Nil? || path + [false] in before + {path})
                  && (n.right.Nil? || path + [true] in before + {path}))
    ensures Find(root, txID) == Resume(root, path, txID)
  {
    AtSnoc(root, path, false);
    AtSnoc(root, path, true);
    if IsLeaf(At(root, path)) {
      FindAtLeaf(root, path, txID);
      assert path !in before;
    } else {
      assert path + [false] != path && path + [true] != path;
      FreshInnerPushes(root, path, before);
      ResumeSnoc(root, path, true, txID);
      ResumeSnoc(root, path, false, txID);
    }
  }

  /** The loop step that pushes the unvisited child c of the top node. */
  lemma PushStep(root: Tree, txID: Bytes, elems: seq<Tree>, path: Pos, before: set<Pos>, c: bool)
    requires Searching(root, txID, elems, path, before)
    requires Child(At(root, path), c).Node? && path + [c] !in before + {path}
    requires c ==> At(root, path).left.Nil? || path + [false] in before + {path}
    ensures Searching(root, txID, elems + [Child(At(root, path), c)], path + [c], before + {path})
    ensures Measure(root, before + {path}, path + [c], |elems| + 1) < Measure(root, before, path, |elems|)
  {
    AtSnoc(root, path, false);
    AtSnoc(root, path, c);
    AtInPositions(root, path + [c]);
    Descend(root, txID, path, before, c);
    TopOfPath(root, txID, elems, path, before);
    StackPush(root, elems, path, c);
    assert Unseen(root, before + {path}, path + [c]) == Unseen(root, before, path) - {path + [c]};
  }

  lemma SetAbsorb<T>(all: set<T>, s: set<T>, x: T)
    requires x in s
    ensures all - (s + {x}) == all - s
  {
  }

  /** A node entered for the first time has no visited child, so when no
      child can be pushed an inner node must have been entered before. */
  lemma FreshInnerPushes(root: Tree, path: Pos, visited: set<Pos>)
    requires At(root, path).Node? && !IsLeaf(At(root, path))
    requires path !in visited ==> forall q :: q in visited ==> Before(q, path)
    requires At(root, path + [false]).Nil? || path + [false] in visited
    requires At(root, path + [true]).Nil? || path + [true] in visited
    ensures path in visited
  {
    AtSnoc(root, path, false);
    AtSnoc(root, path, true);
    if path !in visited {
      if At(root, path + [false]).Node? {
        InsideNotBefore(path, path + [false]);
      } else {
        InsideNotBefore(path, path + [true]);
      }
    }
  }

  lemma StackPush(root: Tree, elems: seq<Tree>, path: Pos, c: bool)
    requires StackIsPath(root, elems, path)
    ensures StackIsPath(root, elems + [Child(elems[|path|], c)], path + [c])
  {
    assert path[..|path|] == path;
    AtSnoc(root, path, c);
    forall k | 0 <= k <= |path| ensures (path + [c])[..k] == path[..k] { }
    assert (path + [c])[..|path| + 1] == path + [c];
  }

  lemma StackPop(root: Tree, elems: seq<Tree>, path: Pos)
    requires StackIsPath(root, elems, path) && path != []
    ensures StackIsPath(root, elems[..|elems| - 1], path[..|path| - 1])
  {
    var p' := path[..|path| - 1];
    forall k | 0 <= k <= |p'| ensures p'[..k] == path[..k] { }
  }

  /** Going down into the child c of the top node, which is not yet visited. */
  lemma Descend(root: Tree, txID: Bytes, path: Pos, before: set<Pos>, c: bool)
    requires SearchState(root, txID, path, before)
    requires At(root, path + [c]).Node?
    requires path + [c] !in before
    requires c ==> At(root, path + [false]).Nil? || path + [false] in before + {path}
    ensures SearchState(root, txID, path + [c], before + {path})
  {
    DescendGuards(root, path, before, c);
    DescendPrefixes(root, path, before, c);
    DescendOrder(path, before, c);
    DescendFind(root, txID, path, before, c);
    assert path + [c] !in before + {path} by { assert |path + [c]| != |path|; }
    FreshState(root, txID, path + [c], before + {path});
  }

  /** Going down into child c: the top node was entered before only if c is
      its right child, and a right child is entered first only past a missing
      left child. */
  lemma DescendGuards(root: Tree, path: Pos, before: set<Pos>, c: bool)
    requires path !in before ==> forall q :: q in before ==> Before(q, path)
    requires path in before ==>
               (At(root, path + [false]).Node? ==> path + [false] in before) &&
               (At(root, path + [false]).Nil? ==> path + [true] in before)
    requires At(root, path + [c]).Node?
    requires path + [c] !in before
    requires c ==> At(root, path + [false]).Nil? || path + [false] in before + {path}
    ensures path in before ==> c && path + [true] !in before
    ensures path !in before && c ==> At(root, path + [false]).Nil?
  {
    if path !in before && c && At(root, path + [false]).Node? {
      InsideNotBefore(path, path + [false]);
    }
  }

  /** The search state at a position not yet entered, with everything
      entered before it in preorder. */
  lemma FreshState(root: Tree, txID: Bytes, p: Pos, v: set<Pos>)
    requires At(root, p).Node? && p !in v
    requires forall k :: 0 <= k < |p| ==> p[..k] in v
    requires forall k :: 0 <= k < |p| && p[k] && At(root, p[..k] + [false]).Node? ==> p[..k] + [false] in v
    requires forall q :: q in v ==> At(root, q).Node?
    requires forall q :: q in v ==> Before(q, p)
    requires Find(root, txID) == Or(FindAt(root, p, txID), Resume(root, p, txID))
    ensures SearchState(root, txID, p, v)
  {
  }

  /** Entering a child leaves the first match where it was: in the child's
      subtree or after it. */
  lemma DescendFind(root: Tree, txID: Bytes, path: Pos, before: set<Pos>, c: bool)
    requires At(root, path + [c]).Node?
    requires Find(root, txID) ==
               if path !in before then Or(FindAt(root, path, txID), Resume(root, path, txID))
               else Resume(root, path + [path + [true] in before], txID)
    requires path in before ==> c && path + [true] !in before
    requires path !in before && c ==> At(root, path + [false]).Nil?
    ensures Find(root, txID) == Or(FindAt(root, path + [c], txID), Resume(root, path + [c], txID))
  {
    AtSnoc(root, path, false);
    AtSnoc(root, path, true);
    ResumeSnoc(root, path, c, txID);
    ResumeSnoc(root, path, false, txID);
    if path !in before {
      FindAtSplit(root, path, txID);
    }
  }

  /** Entering a child keeps every ancestor of the top node entered, and the
      left sibling of every right turn on its path. */
  lemma DescendPrefixes(root: Tree, path: Pos, before: set<Pos>, c: bool)
    requires forall k :: 0 <= k < |path| ==> path[..k] in before
    requires forall k :: 0 <= k < |path| && path[k] && At(root, path[..k] + [false]).Node? ==>
               path[..k] + [false] in before
    requires c ==> At(root, path + [false]).Nil? || path + [false] in before + {path}
    ensures var p := path + [c];
      forall k :: 0 <= k < |p| ==> p[..k] in before + {path}
    ensures var p := path + [c];
      forall k :: 0 <= k < |p| && p[k] && At(root, p[..k] + [false]).Node? ==> p[..k] + [false] in before + {path}
  {
    var p := path + [c];
    forall k | 0 <= k < |p| ensures p[..k] in before + {path} {
      if k == |path| {
        assert p[..k] == path;
      } else {
        assert p[..k] == path[..k];
      }
    }
    forall k | 0 <= k < |p| && p[k] && At(root, p[..k] + [false]).Node?
      ensures p[..k] + [false] in before + {path}
    {
      if k == |path| {
        assert p[..k] == path;
      } else {
        assert p[..k] == path[..k];
      }
    }
  }

  /** Entering a child puts every entered position, the parent included,
      before the child in preorder. */
  lemma DescendOrder(path: Pos, before: set<Pos>, c: bool)
    requires forall q :: q in before ==> Before(q, path) || Prefix(path, q)
    requires path !in before ==> forall q :: q in before ==> Before(q, path)
    requires path in before && path + [true] !in before ==> forall q :: q in before ==> !Prefix(path + [true], q)
    requires path in before ==> c
    requires path + [c] !in before
    ensures forall q :: q in before + {path} ==> Before(q, path + [c])
  {
    var p := path + [c];
    forall q | q in before + {path} ensures Before(q, p) {
      if q == path {
        BeforeChild(path, c);
      } else if Before(q, path) {
        BeforeExtend(q, path, c);
      } else {
        assert path in before && c && Prefix(path, q);
        assert q[..|path| + 1] == path + [q[|path|]];
        assert q[|path|] == false;
        LeftBeforeRight(path, q);
      }
    }
  }

  /** Returning from the top node, whose subtree holds no match, to its parent. */
  lemma Retreat(root: Tree, txID: Bytes, path: Pos, before: set<Pos>)
    requires SearchState(root, txID, path, before)
    requires Find(root, txID) == Resume(root, path, txID)
    ensures path == [] ==> Find(root, txID) == None
    ensures path != [] ==> SearchState(root, txID, path[..|path| - 1], before + {path})
  {
    if path != [] {
      var v := before + {path};
      var p' := path[..|path| - 1];
      var c := path[|path| - 1];
      SplitLast(path);
      AtPrefix(root, path, |p'|);
      AtSnoc(root, p', false);
      RetreatPrefixes(root, path, before);
      RetreatOrder(path, before);
      if !c {
        RetreatRight(path, before);
        assert p' + [p' + [true] in v] == path;
      } else {
        assert path[..|p'|] == p';
        assert p' + [p' + [true] in v] == path;
      }
      EnteredState(root, txID, p', v);
    }
  }

  /** The search state at a position already entered. */
  lemma EnteredState(root: Tree, txID: Bytes, p: Pos, v: set<Pos>)
    requires At(root, p).Node? && p in v
    requires forall k :: 0 <= k < |p| ==> p[..k] in v
    requires forall k :: 0 <= k < |p| && p[k] && At(root, p[..k] + [false]).Node? ==> p[..k] + [false] in v
    requires forall q :: q in v ==> At(root, q).Node?
    requires forall q :: q in v ==> Before(q, p) || Prefix(p, q)
    requires At(root, p + [false]).Node? ==> p + [false] in v
    requires At(root, p + [false]).Nil? ==> p + [true] in v
    requires p + [true] !in v ==> forall q :: q in v ==> !Prefix(p + [true], q)
    requires Find(root, txID) == Resume(root, p + [p + [true] in v], txID)
    ensures SearchState(root, txID, p, v)
  {
  }

  /** The positions above the parent stay entered, and so do the left
      siblings of its right turns. */
  lemma RetreatPrefixes(root: Tree, path: Pos, before: set<Pos>)
    requires path != []
    requires forall k :: 0 <= k < |path| ==> path[..k] in before
    requires forall k :: 0 <= k < |path| && path[k] && At(root, path[..k] + [false]).Node? ==>
               path[..k] + [false] in before
    ensures var p' := path[..|path| - 1];
      && p' in before
      && (forall k :: 0 <= k < |p'| ==> p'[..k] in before + {path})
      && (forall k :: 0 <= k < |p'| && p'[k] && At(root, p'[..k] + [false]).Node? ==>
            p'[..k] + [false] in before + {path})
  {
    var p' := path[..|path| - 1];
    assert path[..|p'|] == p';
    forall k | 0 <= k < |p'| ensures p'[..k] == path[..k] && p'[k] == path[k] { }
  }

  /** Every entered position is before the parent or inside its subtree. */
  lemma RetreatOrder(path: Pos, before: set<Pos>)
    requires path != []
    requires forall q :: q in before ==> Before(q, path) || Prefix(path, q)
    ensures forall q :: q in before + {path} ==> Before(q, path[..|path| - 1]) || Prefix(path[..|path| - 1], q)
  {
    var p' := path[..|path| - 1];
    var c := path[|path| - 1];
    assert path == p' + [c];
    forall q | q in before + {path} ensures Before(q, p') || Prefix(p', q) {
      if q == path {
        assert q[..|p'|] == p';
      } else if Before(q, path) {
        BeforeParent(q, p', c);
      } else {
        assert q[..|path|] == path;
        assert q[..|p'|] == p';
      }
    }
  }

  /** Leaving a left child: nothing entered so far lies in the right sibling. */
  lemma RetreatRight(path: Pos, before: set<Pos>)
    requires path != [] && path[|path| - 1] == false
    requires forall q :: q in before ==> Before(q, path) || Prefix(path, q)
    ensures var p' := path[..|path| - 1];
      p' + [true] !in before + {path} && forall q :: q in before + {path} ==> !Prefix(p' + [true], q)
  {
    var p' := path[..|path| - 1];
    assert path == p' + [false];
    forall q | q in before + {path} ensures !Prefix(p' + [true], q) {
      if q == path {
        assert path[|p'|] == false;
      } else if Prefix(p' + [true], q) {
        RightNotSeen(p', q);
        assert false;
      }
    }
    assert Prefix(p' + [true], p' + [true]);
  }

  // ---------------------------------------------------------------------------
  // Verify on a built tree
  // ---------------------------------------------------------------------------

  /** Every node of t carrying txID stores the hash dataHash. */
  predicate HashesAgree(t: Tree, txID: Bytes, dataHash: Bytes)
    decreases t
  {
    t.Nil? ||
    ((t.txID == txID ==> t.hash == dataHash) &&
     HashesAgree(t.left, txID, dataHash) && HashesAgree(t.right, txID, dataHash))
  }

  /** A subtree of a well-formed tree is well formed. */
  lemma {:induction false} WellFormedAt(t: Tree, q: Pos)
    requires WellFormed(t) && At(t, q).Node?
    ensures WellFormed(At(t, q))
    decreases q
  {
    if q != [] {
      WellFormedAt(Child(t, q[0]), q[1..]);
    }
  }

  /** A leaf reached by a position is one of the leaves of the tree. */
  lemma {:induction false} LeafInLeaves(t: Tree, q: Pos)
    requires IsLeaf(At(t, q))
    ensures At(t, q) in Leaves(t)
    decreases q
  {
    if q != [] {
      assert t.Node? && !IsLeaf(t);
      LeafInLeaves(Child(t, q[0]), q[1..]);
    }
  }

  /** In a well-formed tree only leaves can carry a non-empty txID, so the
      leaves decide HashesAgree. */
  lemma {:induction false} AgreeFromLeaves(t: Tree, txID: Bytes, dataHash: Bytes)
    requires WellFormed(t) && txID != []
    requires forall l :: l in Leaves(t) && l.txID == txID ==> l.hash == dataHash
    ensures HashesAgree(t, txID, dataHash)
    decreases t
  {
    if !IsLeaf(t) {
      AgreeFromLeaves(t.left, txID, dataHash);
      AgreeFromLeaves(t.right, txID, dataHash);
    }
  }

  /** Every inner node of a well-formed tree rehashes to its stored hash when
      the nodes carrying txID already store dataHash. */
  lemma {:induction false} AgreeRehashes(t: Tree, txID: Bytes, dataHash: Bytes, q: Pos)
    requires WellFormed(t) && HashesAgree(t, txID, dataHash)
    requires At(t, q).Node? && !IsLeaf(At(t, q))
    ensures Rehashes(At(t, q), txID, dataHash)
    decreases q
  {
    if q != [] {
      AgreeRehashes(Child(t, q[0]), txID, dataHash, q[1..]);
    }
  }

  /** The leaf of a built tree carrying the txID of item i is item i's leaf,
      when no other item of the batch carries that txID. */
  /** The empty txID: Contains matches the root of a built tree, whose txID
      is empty like that of every internal node, yet when every item has a
      non-empty txID no leaf carries it, so Verify rejects every claim. */
  lemma EmptyIdContainedNotAuthentic(data: seq<MerkleData>, d: Bytes)
    requires |data| >= 2
    requires forall i :: 0 <= i < |data| ==> data[i].txID != []
    ensures MerkleRoot(data).Node? && Contains(MerkleRoot(data), [])
    ensures !Authentic(MerkleRoot(data), [], d)
  {
    var root := MerkleRoot(data);
    BuiltTreeShape(data);
    forall q | IsLeaf(At(root, q))
      ensures At(root, q).txID != []
    {
      LeafInLeaves(root, q);
      var j :| 0 <= j < |Leaves(root)| && Leaves(root)[j] == At(root, q);
    }
    NoLeafNotAuthentic(root, [], d);
  }

  lemma BuiltLeafIsItem(data: seq<MerkleData>, i: nat, l: Tree)
    requires |data| >= 2 && i < |data|
    requires forall j :: 0 <= j < |data| && j != i ==> data[j].txID != data[i].txID
    requires l in Leaves(MerkleRoot(data)) && l.txID == data[i].txID
    ensures l == Leaf(data[i])
  {
    BuiltTreeShape(data);
    var j :| 0 <= j < |Leaves(MerkleRoot(data))| && Leaves(MerkleRoot(data))[j] == l;
  }

  /** On a tree built from a batch, Verify accepts every item with its own
      data, provided its txID is non-empty and unique within the batch. */
  lemma BuiltTreeVerifies(data: seq<MerkleData>, i: nat)
    requires |data| >= 2 && i < |data|
    requires data[i].txID != []
    requires forall j :: 0 <= j < |data| && j != i ==> data[j].txID != data[i].txID
    ensures Authentic(MerkleRoot(data), data[i].txID, data[i].data)
  {
    var root := MerkleRoot(data);
    var txID := data[i].txID;
    BuiltTreeShape(data);
    forall l | l in Leaves(root) && l.txID == txID
      ensures l.hash == Hash(data[i].data + txID)
    {
      BuiltLeafIsItem(data, i, l);
    }
    LeavesFound(root, i);
    LeavesAgreeAuthentic(root, txID, data[i].data);
  }

  /** On a well-formed tree in which txID has a leaf, and every leaf carrying
      txID stores H(data ‖ txID), Verify accepts (txID, data). */
  lemma LeavesAgreeAuthentic(root: Tree, txID: Bytes, data: Bytes)
    requires WellFormed(root) && txID != [] && Find(root, txID).Some?
    requires forall l :: l in Leaves(root) && l.txID == txID ==> l.hash == Hash(data + txID)
    ensures Authentic(root, txID, data)
  {
    var dataHash := Hash(data + txID);
    AgreeFromLeaves(root, txID, dataHash);
    var p := Find(root, txID).value;
    FindSound(root, txID);
    LeafInLeaves(root, p);
    RehashesAlong(root, txID, dataHash, p);
    AuthenticAt(root, txID, data, p);
  }

  /** In a well-formed tree whose hashes agree with dataHash for txID, every
      node strictly above a position rehashes correctly. */
  lemma RehashesAlong(root: Tree, txID: Bytes, dataHash: Bytes, p: Pos)
    requires WellFormed(root) && HashesAgree(root, txID, dataHash) && At(root, p).Node?
    ensures forall k :: 0 <= k < |p| ==> Rehashes(At(root, p[..k]), txID, dataHash)
  {
    forall k | 0 <= k < |p|
      ensures Rehashes(At(root, p[..k]), txID, dataHash)
    {
      AboveIsInternal(root, p, k);
      AgreeRehashes(root, txID, dataHash, p[..k]);
    }
  }

  /** Every node strictly above a node has a child, so it is not a leaf. */
  lemma AboveIsInternal(t: Tree, p: Pos, k: nat)
    requires At(t, p).Node? && k < |p|
    ensures At(t, p[..k]).Node? && !IsLeaf(At(t, p[..k]))
  {
    AtPrefix(t, p, k + 1);
    assert p[..k + 1] == p[..k] + [p[k]];
    AtSnoc(t, p[..k], p[k]);
  }

  /** On a tree built from a batch, Verify rejects a claim for item i's txID
      whose data hashes differently from item i's data. */
  lemma BuiltTreeRejectsTampered(data: seq<MerkleData>, i: nat, claimed: Bytes)
    requires |data| >= 2 && i < |data|
    requires forall j :: 0 <= j < |data| && j != i ==> data[j].txID != data[i].txID
    requires Hash(claimed + data[i].txID) != Hash(data[i].data + data[i].txID)
    ensures !Authentic(MerkleRoot(data), data[i].txID, claimed)
  {
    var root := MerkleRoot(data);
    BuiltTreeShape(data);
    LeavesFound(root, i);
    var p := Find(root, data[i].txID).value;
    FindSound(root, data[i].txID);
    LeafInLeaves(root, p);
    BuiltLeafIsItem(data, i, At(root, p));
  }

  /** Verify fails when no leaf of the tree carries txID. */
  lemma NoLeafNotAuthentic(root: Tree, txID: Bytes, data: Bytes)
    requires forall q :: IsLeaf(At(root, q)) ==> At(root, q).txID != txID
    ensures !Authentic(root, txID, data)
  {
    if Find(root, txID).Some? {
      FindSound(root, txID);
    }
  }

  /** Find stops at the leftmost leaf carrying txID: a matching leaf with no
      matching leaf before it is what Find returns. */
  lemma {:induction false} FindLeftmost(t: Tree, txID: Bytes, p: Pos)
    requires IsLeaf(At(t, p)) && At(t, p).txID == txID
    requires forall q :: Before(q, p) && IsLeaf(At(t, q)) ==> At(t, q).txID != txID
    ensures Find(t, txID) == Some(p)
    decreases p
  {
    if p != [] {
      var c, p' := p[0], p[1..];
      assert p == [c] + p';
      var sub := Child(t, c);
      assert At(t, p) == At(sub, p');
      forall q' | Before(q', p') && IsLeaf(At(sub, q'))
        ensures At(sub, q').txID != txID
      {
        assert ([c] + q')[1..] == q';
        assert Before([c] + q', p) && At(t, [c] + q') == At(sub, q');
      }
      FindLeftmost(sub, txID, p');
      if c {
        if Find(t.left, txID).Some? {
          FindSound(t.left, txID);
          var q := [false] + Find(t.left, txID).value;
          assert q[1..] == Find(t.left, txID).value;
          assert Before(q, p) && At(t, q) == At(t.left, q[1..]);
        }
      }
    }
  }

  /** Conversely, no leaf before the one Find returns carries txID. */
  lemma {:induction false} FindFirst(t: Tree, txID: Bytes, p: Pos, q: Pos)
    requires Find(t, txID) == Some(p)
    requires Before(q, p) && IsLeaf(At(t, q))
    ensures At(t, q).txID != txID
    decreases t
  {
    FindSound(t, txID);
    assert p != [];
    if q != [] {
      var c := !Find(t.left, txID).Some?;
      var sub := Child(t, c);
      assert p == [c] + Find(sub, txID).value;
      assert At(t, q) == At(Child(t, q[0]), q[1..]);
      if q[0] == c {
        assert p[1..] == Find(sub, txID).value;
        FindFirst(sub, txID, Find(sub, txID).value, q[1..]);
      } else if At(t, q).txID == txID {
        FindComplete(t.left, txID, q[1..]);
      }
    }
  }

  /** Verify fails when the first leaf carrying txID, left to right, stores
      another hash than H(data ‖ txID), even if a later leaf with that txID
      stores the right one. */
  lemma WrongLeafHashNotAuthentic(root: Tree, txID: Bytes, data: Bytes, p: Pos)
    requires IsLeaf(At(root, p)) && At(root, p).txID == txID
    requires forall q :: Before(q, p) && IsLeaf(At(root, q)) ==> At(root, q).txID != txID
    requires At(root, p).hash != Hash(data + txID)
    ensures !Authentic(root, txID, data)
  {
    FindLeftmost(root, txID, p);
  }
}
