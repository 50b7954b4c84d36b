/**
  The self-checks of the tree: `count_`, `count_height_`, `balanced_` and
  `check_` walk the nodes as they are, whatever heights they store.
 */
module AvlCheck {
  import opened Keys
  import opened TimeoutNode
  import T = AvlTheory
  import A = AvlTree

  /** The links and keys are those of `t`; nothing is said about stored heights. */
  ghost predicate Shaped(p: Node?, t: T.Tree)
    reads T.Nodes(t)
    decreases t
  {
    match t
    case Leaf => p == null
    case Bin(l, e, r) =>
      && p == e.node && e.node.key == e.key
      && e.node.left == T.Root(l) && e.node.right == T.Root(r)
      && Shaped(e.node.left, l) && Shaped(e.node.right, r)
  }

  function Count(p: Node?, ghost t: T.Tree): int
    requires Shaped(p, t)
    reads T.Nodes(t)
    decreases t
  {
    if p == null then 0 else Count(p.left, t.left) + Count(p.right, t.right) + 1
  }

  function CountHeight(p: Node?, ghost t: T.Tree): int
    requires Shaped(p, t)
    reads T.Nodes(t)
    decreases t
  {
    if p == null then 0 else T.Max(CountHeight(p.left, t.left), CountHeight(p.right, t.right)) + 1
  }

  lemma {:induction false} ChildrenAreNodes(t: T.Tree)
    ensures t.Bin? && t.left.Bin? ==> t.left.entry.node in T.Nodes(t)
    ensures t.Bin? && t.right.Bin? ==> t.right.entry.node in T.Nodes(t)
  {
    if t.Bin? {
      assert t.left.Bin? ==> t.left.entry.node in T.Nodes(t.left);
      assert t.right.Bin? ==> t.right.entry.node in T.Nodes(t.right);
    }
  }

  predicate Balanced(p: Node?, ghost t: T.Tree)
    requires Shaped(p, t)
    reads T.Nodes(t)
    decreases t
  {
    ChildrenAreNodes(t);
    p == null
    || (-1 <= A.GetBias(p) <= 1 && Balanced(p.left, t.left) && Balanced(p.right, t.right))
  }

  predicate Check(p: Node?, ghost t: T.Tree)
    requires Shaped(p, t)
    reads T.Nodes(t)
    decreases t
  {
    ChildrenAreNodes(t);
    p == null
    || (&& (p.left != null ==> Compare(p.left.key, p.key) < 0)
        && (p.right != null ==> Compare(p.key, p.right.key) <= 0)
        && CountHeight(p, t) == p.height
        && Check(p.left, t.left) && Check(p.right, t.right))
  }

  /** Counting nodes and levels is right on any links. */
  lemma {:induction false} CountsAreExact(p: Node?, t: T.Tree)
    requires Shaped(p, t)
    ensures Count(p, t) == |T.Inorder(t)| && CountHeight(p, t) == T.Height(t)
    decreases t
  {
    if p != null {
      CountsAreExact(p.left, t.left);
      CountsAreExact(p.right, t.right);
    }
  }

  /**
    On a tree that `check_` accepts, the stored-height test `balanced_` is true
    AVL balance as measured by counting levels.
   */
  lemma {:induction false} CheckedBalanceIsAvl(p: Node?, t: T.Tree)
    requires Shaped(p, t) && Check(p, t)
    ensures Balanced(p, t) <==> T.Avl(t)
    ensures A.GetHeight(p) == CountHeight(p, t)
    decreases t
  {
    CountsAreExact(p, t);
    if p != null {
      CheckedBalanceIsAvl(p.left, t.left);
      CheckedBalanceIsAvl(p.right, t.right);
      CountsAreExact(p.left, t.left);
      CountsAreExact(p.right, t.right);
    }
  }

  /** Every valid tree passes both tests. */
  lemma {:induction false} ValidTreesPass(p: Node?, t: T.Tree)
    requires A.Models(p, t) && T.Avl(t) && T.Sorted(T.Inorder(t))
    ensures Shaped(p, t) && Check(p, t) && Balanced(p, t)
    decreases t
  {
    if p != null {
      T.SortedParts(T.Inorder(t.left), t.entry, T.Inorder(t.right));
      ValidTreesPass(p.left, t.left);
      ValidTreesPass(p.right, t.right);
      CountsAreExact(p, t);
      A.HeightIsStored(t);
      RootKeyIn(t.left);
      RootKeyIn(t.right);
    }
  }

  lemma {:induction false} RootKeyIn(t: T.Tree)
    ensures t.Bin? ==> t.entry in T.Inorder(t)
  {
  }

  // ---------- What `check_` says about the order ----------

  /** Every key lies between its two neighbours in the order: the last one on its left and the first on its right. */
  ghost predicate Neighbours(t: T.Tree) {
    match t
    case Leaf => true
    case Bin(l, e, r) =>
      && Neighbours(l) && Neighbours(r)
      && (l.Bin? ==> Less(T.MaxEntry(l).key, e.key))
      && (r.Bin? ==> Less(e.key, T.MinEntry(r).key))
  }

  /**
    The comparisons that `check_` leaves out.  It compares a key with its direct
    children, so it misses a neighbour that is deeper down, and it accepts a right
    child with an equal key.
   */
  ghost predicate OmissionsHold(t: T.Tree) {
    match t
    case Leaf => true
    case Bin(l, e, r) =>
      && OmissionsHold(l) && OmissionsHold(r)
      && (l.Bin? && l.right.Bin? ==> Less(T.MaxEntry(l.right).key, e.key))
      && (r.Bin? && r.left.Bin? ==> Less(e.key, T.MinEntry(r.left).key))
      && (r.Bin? && r.left.Leaf? ==> e.key != r.entry.key)
  }

  lemma {:induction false} SortedJoin(a: seq<T.Entry>, x: T.Entry, b: seq<T.Entry>)
    requires T.Sorted(a) && T.Sorted(b)
    requires a != [] ==> Less(a[|a| - 1].key, x.key)
    requires b != [] ==> Less(x.key, b[0].key)
    ensures T.Sorted(a + [x] + b)
  {
    forall e | e in a ensures Less(e.key, x.key) {
      var i :| 0 <= i < |a| && a[i] == e;
      assert i < |a| - 1 ==> Less(a[i].key, a[|a| - 1].key);
    }
    forall e | e in b ensures Less(x.key, e.key) {
      var i :| 0 <= i < |b| && b[i] == e;
      assert i > 0 ==> Less(b[0].key, b[i].key);
    }
    T.SortedWhole(a, x, b);
  }

  /** The extremes stand at the ends of the order. */
  lemma {:induction false} ExtremesAreEnds(t: T.Tree)
    requires t.Bin?
    ensures T.Inorder(t) != []
    ensures T.Inorder(t)[0] == T.MinEntry(t) && T.Inorder(t)[|T.Inorder(t)| - 1] == T.MaxEntry(t)
  {
    T.RemoveMinFacts(t);
    T.RemoveMaxFacts(t);
  }

  /** A tree is sorted if and only if every key lies between its neighbours. */
  lemma {:induction false} SortedIffNeighbours(t: T.Tree)
    ensures T.Sorted(T.Inorder(t)) <==> Neighbours(t)
  {
    if t.Bin? {
      var a, b := T.Inorder(t.left), T.Inorder(t.right);
      SortedIffNeighbours(t.left);
      SortedIffNeighbours(t.right);
      if t.left.Bin? { ExtremesAreEnds(t.left); }
      if t.right.Bin? { ExtremesAreEnds(t.right); }
      if T.Sorted(T.Inorder(t)) {
        T.SortedParts(a, t.entry, b);
      }
      if Neighbours(t) {
        SortedJoin(a, t.entry, b);
      }
    }
  }

  /**
    A tree that `check_` accepts is sorted if and only if the comparisons that it
    leaves out hold as well.
   */
  lemma {:induction false} CheckedIsSortedIff(p: Node?, t: T.Tree)
    requires Shaped(p, t) && Check(p, t)
    ensures T.Sorted(T.Inorder(t)) <==> OmissionsHold(t)
  {
    SortedIffNeighbours(t);
    NeighboursIffOmissions(p, t);
  }

  lemma {:induction false} NeighboursIffOmissions(p: Node?, t: T.Tree)
    requires Shaped(p, t) && Check(p, t)
    ensures Neighbours(t) <==> OmissionsHold(t)
    decreases t
  {
    if p != null {
      NeighboursIffOmissions(p.left, t.left);
      NeighboursIffOmissions(p.right, t.right);
      assert t.left.Bin? ==> p.left.key == t.left.entry.key;
      assert t.right.Bin? ==> p.right.key == t.right.entry.key;
    }
  }

  /** No left child has a right subtree and no right child a left one. */
  predicate OuterOnly(t: T.Tree) {
    match t
    case Leaf => true
    case Bin(l, _, r) =>
      && OuterOnly(l) && OuterOnly(r)
      && (l.Bin? ==> l.right.Leaf?) && (r.Bin? ==> r.left.Leaf?)
  }

  /** In such a shape all that `check_` misses is equal keys: the order it accepts is sorted up to these. */
  lemma {:induction false} OuterShapesAreSortedIff(p: Node?, t: T.Tree)
    requires Shaped(p, t) && Check(p, t) && OuterOnly(t)
    ensures T.Sorted(T.Inorder(t)) <==> RightEdgesStrict(t)
  {
    CheckedIsSortedIff(p, t);
    OnlyEqualKeysAreMissed(t);
  }

  predicate RightEdgesStrict(t: T.Tree) {
    match t
    case Leaf => true
    case Bin(l, e, r) => RightEdgesStrict(l) && RightEdgesStrict(r) && (r.Bin? ==> e.key != r.entry.key)
  }

  lemma {:induction false} OnlyEqualKeysAreMissed(t: T.Tree)
    requires OuterOnly(t)
    ensures OmissionsHold(t) <==> RightEdgesStrict(t)
  {
    if t.Bin? {
      OnlyEqualKeysAreMissed(t.left);
      OnlyEqualKeysAreMissed(t.right);
    }
  }

  // ---------- Two trees that are accepted and not sorted ----------

  lemma EmptyPasses()
    ensures Shaped(null, T.Leaf) && Check(null, T.Leaf) && Balanced(null, T.Leaf) && CountHeight(null, T.Leaf) == 0
  {
  }

  /** One level of the checks. */
  lemma {:induction false} NodePasses(n: Node, t: T.Tree)
    requires t.Bin? && t.entry == T.Entry(n, n.key)
    requires n.left == T.Root(t.left) && n.right == T.Root(t.right)
    requires Shaped(n.left, t.left) && Check(n.left, t.left) && Balanced(n.left, t.left)
    requires Shaped(n.right, t.right) && Check(n.right, t.right) && Balanced(n.right, t.right)
    requires n.left != null ==> Less(n.left.key, n.key)
    requires n.right != null ==> Compare(n.key, n.right.key) <= 0
    requires -1 <= A.GetHeight(n.left) - A.GetHeight(n.right) <= 1
    requires n.height == T.Max(CountHeight(n.left, t.left), CountHeight(n.right, t.right)) + 1
    ensures Shaped(n, t) && Check(n, t) && Balanced(n, t) && CountHeight(n, t) == n.height
  {
  }

  lemma {:induction false} LeafPasses(n: Node, t: T.Tree)
    requires t == T.Bin(T.Leaf, T.Entry(n, n.key), T.Leaf)
    requires n.left == null && n.right == null && n.height == 1
    ensures Shaped(n, t) && Check(n, t) && Balanced(n, t) && CountHeight(n, t) == 1
    ensures T.Inorder(t) == [T.Entry(n, n.key)]
  {
    EmptyPasses();
    NodePasses(n, t);
    assert T.Inorder(t) == T.Inorder(T.Leaf) + [t.entry] + T.Inorder(T.Leaf);
  }

  method Build(key: Key, left: Node?, right: Node?, height: int) returns (n: Node)
    ensures fresh(n) && n.key == key && n.left == left && n.right == right && n.height == height
  {
    n := new Node(key);
    n.left, n.right, n.height := left, right, height;
  }

  /**
    Nodes written by hand, which no sequence of operations links in this way:
    `check_` accepts four nodes in which a key right of the root's left child
    exceeds the root's key.
   */
  method CheckAcceptsUnsorted() returns (root: Node, t: T.Tree)
    ensures Shaped(root, t) && Check(root, t) && Balanced(root, t)
    ensures !T.Sorted(T.Inorder(t))
  {
    var stray := Build(Key(0, 9), null, null, 1);
    var right := Build(Key(0, 7), null, null, 1);
    var left := Build(Key(0, 3), null, stray, 2);
    root := Build(Key(0, 5), left, right, 3);
    var ts := T.Bin(T.Leaf, T.Entry(stray, stray.key), T.Leaf);
    var tr := T.Bin(T.Leaf, T.Entry(right, right.key), T.Leaf);
    var tl := T.Bin(T.Leaf, T.Entry(left, left.key), ts);
    t := T.Bin(tl, T.Entry(root, root.key), tr);
    EmptyPasses();
    LeafPasses(stray, ts);
    LeafPasses(right, tr);
    hide Check, Balanced, CountHeight, Shaped;
    NodePasses(left, tl);
    NodePasses(root, t);
    assert T.Inorder(t) == T.Inorder(tl) + [t.entry] + T.Inorder(tr);
    assert T.Inorder(t)[1].key == Key(0, 9) && T.Inorder(t)[2].key == Key(0, 5);
  }

  /** Nor does it mind two nodes with one key. */
  method CheckAcceptsEqualKeys(key: Key) returns (root: Node, t: T.Tree)
    ensures Shaped(root, t) && Check(root, t) && Balanced(root, t)
    ensures |T.Inorder(t)| == 2 && T.Inorder(t)[0].key == T.Inorder(t)[1].key
  {
    var right := Build(key, null, null, 1);
    root := Build(key, null, right, 2);
    var tr := T.Bin(T.Leaf, T.Entry(right, key), T.Leaf);
    t := T.Bin(T.Leaf, T.Entry(root, key), tr);
    EmptyPasses();
    LeafPasses(right, tr);
    hide Check, Balanced, CountHeight, Shaped;
    NodePasses(root, t);
    assert T.Inorder(t) == T.Inorder(T.Leaf) + [t.entry] + T.Inorder(tr);
    assert T.Inorder(t) == [t.entry, tr.entry];
  }
}
