/**
  The public face of the tree: an object holding a root pointer.  Its contents
  are a sorted sequence of nodes, and each method performs the `SortedMap` step
  of the same name on them.
 */
module TimeoutTree {
  import opened Keys
  import opened TimeoutNode
  import T = AvlTheory
  import A = AvlTree
  import C = AvlCheck
  import M = SortedMap

  /** What a valid tree object maintains about its shape. */
  ghost predicate Good(t: T.Tree) {
    T.Avl(t) && T.Distinct(t) && T.Sorted(T.Inorder(t))
  }

  lemma {:induction false} InsertFacts(t: T.Tree, e: T.Entry)
    requires Good(t) && e.node !in T.Nodes(t)
    ensures Good(T.Insert(t, e))
    ensures M.Step(T.Inorder(t), M.InsertOp(e)) == (T.Inorder(T.Insert(t, e)), M.Inserted(T.Find(t, e.key) == null))
    ensures T.Nodes(T.Insert(t, e)) == if T.Find(t, e.key) == null then T.Nodes(t) + {e.node} else T.Nodes(t)
  {
    T.InsertKeepsBalance(t, e);
    T.InsertRefinesSequence(t, e);
    T.SeqInsertIsMapUpdate(T.Inorder(t), e);
    T.InsertNodes(t, e);
    T.RemoveKeyRefinesSequence(t, e.key);
    if T.Find(t, e.key) == null {
      T.HoldsIsMembership(T.Inorder(t), e.key);
      T.NodesAreEntries(T.Insert(t, e));
      assert e in T.SeqInsert(T.Inorder(t), e);
    }
  }

  lemma {:induction false} RemoveFacts(t: T.Tree, k: Key)
    requires Good(t)
    ensures Good(T.RemoveKey(t, k))
    ensures M.Step(T.Inorder(t), M.RemoveOp(k)) == (T.Inorder(T.RemoveKey(t, k)), M.Found(T.Find(t, k)))
    ensures T.Nodes(T.RemoveKey(t, k)) == T.Nodes(t) - {T.Find(t, k)}
  {
    T.RemoveKeyKeepsBalance(t, k);
    T.RemoveKeyRefinesSequence(t, k);
    M.StepRefinesMap(T.Inorder(t), M.RemoveOp(k));
    T.RemoveKeyNodes(t, k);
  }

  lemma {:induction false} RemoveMinFacts(t: T.Tree)
    requires Good(t) && t.Bin?
    ensures Good(T.RemoveMin(t))
    ensures T.Inorder(t) != [] && T.Inorder(T.RemoveMin(t)) == T.Inorder(t)[1..]
    ensures T.Inorder(t)[0] == T.MinEntry(t)
    ensures T.Nodes(T.RemoveMin(t)) == T.Nodes(t) - {T.MinEntry(t).node}
  {
    T.RemoveMinFacts(t);
    M.StepRefinesMap(T.Inorder(t), M.RemoveMinOp);
    assert T.Inorder(t)[1..] == T.Inorder(T.RemoveMin(t));
  }

  lemma {:induction false} RemoveMaxFacts(t: T.Tree)
    requires Good(t) && t.Bin?
    ensures Good(T.RemoveMax(t))
    ensures T.Inorder(t) != [] && T.Inorder(T.RemoveMax(t)) == T.Inorder(t)[..|T.Inorder(t)| - 1]
    ensures T.Inorder(t)[|T.Inorder(t)| - 1] == T.MaxEntry(t)
    ensures T.Nodes(T.RemoveMax(t)) == T.Nodes(t) - {T.MaxEntry(t).node}
  {
    T.RemoveMaxFacts(t);
    M.StepRefinesMap(T.Inorder(t), M.RemoveMaxOp);
    assert T.Inorder(t)[..|T.Inorder(t)| - 1] == T.Inorder(T.RemoveMax(t));
  }

  class Tree {
    var root: Node?
    ghost var shape: T.Tree

    ghost predicate Valid()
      reads this, T.Nodes(shape)
    {
      A.Models(root, shape) && Good(shape)
    }

    ghost function Contents(): seq<T.Entry>
      reads this
    {
      T.Inorder(shape)
    }

    ghost function Nodes(): set<Node>
      reads this
    {
      T.Nodes(shape)
    }

    /** The self-checks accept every valid tree, and its stored height is small. */
    lemma PassesChecks()
      requires Valid()
      ensures C.Shaped(root, shape) && C.Check(root, shape) && C.Balanced(root, shape)
      ensures C.Count(root, shape) == |Contents()| && C.CountHeight(root, shape) == A.GetHeight(root)
      ensures |Contents()| >= T.Fib(A.GetHeight(root) + 2) - 1
      ensures |Contents()| < 0x8000_0000 ==> A.GetHeight(root) <= 44
    {
      C.ValidTreesPass(root, shape);
      C.CountsAreExact(root, shape);
      A.HeightIsStored(shape);
      T.HeightBound(shape);
      if |Contents()| < 0x8000_0000 {
        T.HeightOfIntSizedTree(shape);
      }
    }

    /** `init`. */
    constructor ()
      ensures Valid() && Contents() == [] && Nodes() == {}
    {
      root := null;
      shape := T.Leaf;
    }

    /** `insert`. */
    method Insert(node: Node) returns (inserted: bool)
      requires Valid() && node !in Nodes() && node.left == null && node.right == null
      modifies this, (Nodes() + {node})`left, (Nodes() + {node})`right, (Nodes() + {node})`height
      ensures Valid()
      ensures M.Step(old(Contents()), M.InsertOp(T.Entry(node, node.key))) == (Contents(), M.Inserted(inserted))
      ensures Nodes() == if inserted then old(Nodes()) + {node} else old(Nodes())
    {
      ghost var e := T.Entry(node, node.key);
      InsertFacts(shape, e);
      var changed;
      root, inserted, changed := A.InsertNode(root, node, shape, e);
      shape := T.Insert(shape, e);
    }

    /** `remove`. */
    method Remove(key: Key) returns (removed: Node?)
      requires Valid()
      modifies this, Nodes()`left, Nodes()`right, Nodes()`height
      ensures Valid()
      ensures M.Step(old(Contents()), M.RemoveOp(key)) == (Contents(), M.Found(removed))
      ensures Nodes() == old(Nodes()) - {removed}
    {
      RemoveFacts(shape, key);
      root, removed := A.RemoveKey(root, key, shape);
      shape := T.RemoveKey(shape, key);
    }

    /** `get_min`. */
    method GetMin() returns (min: Node?)
      requires Valid()
      ensures M.Step(Contents(), M.GetMinOp) == (Contents(), M.Found(min))
      ensures min == M.First(Contents())
    {
      if shape.Bin? { RemoveMinFacts(shape); }
      min := A.GetMin(root, shape);
    }

    /** `get_max`. */
    method GetMax() returns (max: Node?)
      requires Valid()
      ensures M.Step(Contents(), M.GetMaxOp) == (Contents(), M.Found(max))
    {
      if shape.Bin? { RemoveMaxFacts(shape); }
      max := A.GetMax(root, shape);
    }

    /** `remove_min`. */
    method RemoveMin()
      requires Valid() && Contents() != []
      modifies this, Nodes()`left, Nodes()`right, Nodes()`height
      ensures Valid()
      ensures M.Step(old(Contents()), M.RemoveMinOp) == (Contents(), M.Done)
      ensures shape == T.RemoveMin(old(shape))
      ensures Nodes() == old(Nodes()) - {old(Contents())[0].node}
    {
      RemoveMinFacts(shape);
      var changed;
      root, changed := A.RemoveMin(root, shape);
      shape := T.RemoveMin(shape);
    }

    /** `remove_max`. */
    method RemoveMax()
      requires Valid() && Contents() != []
      modifies this, Nodes()`left, Nodes()`right, Nodes()`height
      ensures Valid()
      ensures M.Step(old(Contents()), M.RemoveMaxOp) == (Contents(), M.Done)
      ensures shape == T.RemoveMax(old(shape))
      ensures Nodes() == old(Nodes()) - {old(Contents())[|old(Contents())| - 1].node}
    {
      RemoveMaxFacts(shape);
      var changed;
      root, changed := A.RemoveMax(root, shape);
      shape := T.RemoveMax(shape);
    }

    /** `pop_min`: it builds the very tree that `remove_min` builds. */
    method PopMin() returns (min: Node?)
      requires Valid()
      modifies this, Nodes()`left, Nodes()`right, Nodes()`height
      ensures Valid()
      ensures M.Step(old(Contents()), M.PopMinOp) == (Contents(), M.Found(min))
      ensures old(shape).Bin? ==> shape == T.RemoveMin(old(shape))
      ensures Nodes() == old(Nodes()) - {min}
    {
      if root == null {
        return null;
      }
      RemoveMinFacts(shape);
      var changed;
      root, min, changed := A.PopMin(root, shape);
      shape := T.RemoveMin(shape);
    }

    /** `pop_max`. */
    method PopMax() returns (max: Node?)
      requires Valid()
      modifies this, Nodes()`left, Nodes()`right, Nodes()`height
      ensures Valid()
      ensures M.Step(old(Contents()), M.PopMaxOp) == (Contents(), M.Found(max))
      ensures old(shape).Bin? ==> shape == T.RemoveMax(old(shape))
      ensures Nodes() == old(Nodes()) - {max}
    {
      if root == null {
        return null;
      }
      RemoveMaxFacts(shape);
      var changed;
      root, max, changed := A.PopMax(root, shape);
      shape := T.RemoveMax(shape);
    }
  }
}
