/** The slice-backed node stack of blocktrain/merklestack.go. */
module MerkleStack {
  import opened MerkleTree

  /** A `stack` value: the slice is the sequence `elems`, its end is the top.
      Pop and Top give the nil node on an empty stack. */
  class Stack {
    var elems: seq<Tree>

    /** make(stack, 0) */
    constructor ()
      ensures elems == []
    {
      elems := [];
    }

    method Push(v: Tree)
      modifies this
      ensures elems == old(elems) + [v]
    {
      elems := elems + [v];
    }

    method Pop() returns (r: Tree)
      modifies this
      ensures old(elems) == [] ==> r == Nil && elems == []
      ensures old(elems) != [] ==> r == old(elems)[|old(elems)| - 1]
      ensures old(elems) != [] ==> elems == old(elems)[..|old(elems)| - 1]
    {
      if |elems| == 0 {
        return Nil;
      }
      r := elems[|elems| - 1];
      elems := elems[..|elems| - 1];
    }

    /** Top reads the stack and, having no modifies clause, cannot change it. */
    method Top() returns (r: Tree)
      ensures elems == [] ==> r == Nil
      ensures elems != [] ==> r == elems[|elems| - 1]
    {
      if |elems| == 0 {
        return Nil;
      }
      r := elems[|elems| - 1];
    }
  }

  /** Push then Top sees the pushed node on a one-longer stack; Pop then
      returns it and restores the stack. */
  method PushTopPop(s: Stack, v: Tree) returns (top: Tree, popped: Tree)
    modifies s
    ensures top == v && popped == v
    ensures s.elems == old(s.elems)
  {
    s.Push(v);
    assert |s.elems| == |old(s.elems)| + 1;
    top := s.Top();
    popped := s.Pop();
    assert s.elems == (old(s.elems) + [v])[..|old(s.elems)|];
  }

  /** Pop and Top on an empty stack yield nil and leave it empty. */
  method EmptyStack() returns (popped: Tree, top: Tree)
    ensures popped == Nil && top == Nil
  {
    var s := new Stack();
    popped := s.Pop();
    top := s.Top();
    assert s.elems == [];
  }
}
