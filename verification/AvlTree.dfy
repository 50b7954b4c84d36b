/**
  The intrusive AVL tree of `avltree.h`: nodes are rewritten in place, heights
  are stored, and recursions skip the write-back of a link when an out-flag
  says that nothing changed.  Every method is proved against `AvlTheory`, which
  has none of these shortcuts.

  A ghost tree value says which shape a pointer is the root of.  `Models` ties
  the two: the links and keys agree, every stored height is exact, and no node
  occurs twice.
 */
module AvlTree {
  import opened Keys
  import opened TimeoutNode
  import T = AvlTheory

  /** The fields of the nodes of `t` say what `t` says. */
  ghost predicate Stored(t: T.Tree)
    reads T.Nodes(t)
  {
    match t
    case Leaf => true
    case Bin(l, e, r) =>
      && e.node.key == e.key && e.node.left == T.Root(l) && e.node.right == T.Root(r)
      && e.node.height == T.Height(t)
      && Stored(l) && Stored(r)
  }

  /** Like `Stored` for the tree with root `e`, except that the root's stored height may be stale. */
  ghost predicate Linked(l: T.Tree, e: T.Entry, r: T.Tree)
    reads T.Nodes(l) + {e.node} + T.Nodes(r)
  {
    && e.node.key == e.key && e.node.left == T.Root(l) && e.node.right == T.Root(r)
    && Stored(l) && Stored(r)
  }

  /** `p` is the root of a well-formed tree of shape `t`. */
  ghost predicate Models(p: Node?, t: T.Tree)
    reads T.Nodes(t)
  {
    p == T.Root(t) && Stored(t) && T.Distinct(t)
  }

  /** The node of an entry stores the entry's key. */
  lemma {:induction false} EntriesAreStored(t: T.Tree)
    requires Stored(t)
    ensures forall e | e in T.Inorder(t) :: e.node.key == e.key
  {
    if t.Bin? {
      EntriesAreStored(t.left);
      EntriesAreStored(t.right);
    }
  }

  // ---------- Heights and rotations ----------

  function GetHeight(p: Node?): int
    reads p
  {
    if p == null then 0 else p.height
  }

  function GetBias(p: Node?): int
    reads p, if p == null then {} else {p.left, p.right}
  {
    if p == null then 0 else GetHeight(p.left) - GetHeight(p.right)
  }

  lemma {:induction false} HeightIsStored(t: T.Tree)
    requires Stored(t)
    ensures GetHeight(T.Root(t)) == T.Height(t)
    ensures GetBias(T.Root(t)) == T.Bias(t)
  {
    if t.Bin? {
      assert t.left.Bin? ==> t.left.entry.node.height == T.Height(t.left);
      assert t.right.Bin? ==> t.right.entry.node.height == T.Height(t.right);
    }
  }

  method Refresh(n: Node, ghost l: T.Tree, ghost e: T.Entry, ghost r: T.Tree)
    requires n == e.node && Linked(l, e, r) && n !in T.Nodes(l) && n !in T.Nodes(r)
    modifies n`height
    ensures Stored(T.Bin(l, e, r))
  {
    HeightIsStored(l);
    HeightIsStored(r);
    n.height := T.Max(GetHeight(n.left), GetHeight(n.right)) + 1;
  }

  /** What a rotation finds in the fields and subtrees of its two nodes. */
  lemma {:induction false} TakeApart(l: T.Tree, e: T.Entry, r: T.Tree)
    requires Linked(l, e, r) && T.Distinct(T.Bin(l, e, r))
    ensures e.node.key == e.key && e.node.left == T.Root(l) && e.node.right == T.Root(r)
    ensures Stored(l) && Stored(r)
    ensures l.Bin? ==> Linked(l.left, l.entry, l.right) && T.Distinct(l)
    ensures r.Bin? ==> Linked(r.left, r.entry, r.right) && T.Distinct(r)
  {
  }

  lemma {:induction false} PutTogether(l: T.Tree, e: T.Entry, r: T.Tree)
    requires e.node.key == e.key && e.node.left == T.Root(l) && e.node.right == T.Root(r)
    requires Stored(l) && Stored(r)
    ensures Linked(l, e, r)
    ensures e.node.height == T.Height(T.Bin(l, e, r)) ==> Stored(T.Bin(l, e, r))
  {
  }

  lemma {:induction false} Rotated(t: T.Tree)
    requires t.Bin? && T.Distinct(t)
    ensures t.right.Bin? ==>
              && T.RotateLeft(t) == T.Bin(T.Bin(t.left, t.entry, t.right.left), t.right.entry, t.right.right)
              && T.Distinct(T.RotateLeft(t)) && T.Root(T.RotateLeft(t)) == t.right.entry.node
    ensures t.left.Bin? ==>
              && T.RotateRight(t) == T.Bin(t.left.left, t.left.entry, T.Bin(t.left.right, t.entry, t.right))
              && T.Distinct(T.RotateRight(t)) && T.Root(T.RotateRight(t)) == t.left.entry.node
    ensures forall l, e, r :: T.Root(T.Bin(l, e, r)) == e.node
  {
    T.RotationKeepsOrder(t);
  }

  lemma {:induction false} ModelsStored(t: T.Tree)
    requires Stored(t) && T.Distinct(t)
    ensures Models(T.Root(t), t)
  {
  }

  /** The new root's height is the shortcut; the precondition is what makes it exact. */
  method RotateLeft(a: Node, ghost t: T.Tree) returns (c: Node)
    requires t.Bin? && t.right.Bin? && a == t.entry.node
    requires Linked(t.left, t.entry, t.right) && T.Distinct(t)
    requires T.LeftShortcutExact(t)
    modifies {a, t.right.entry.node}`left, {a, t.right.entry.node}`right, {a, t.right.entry.node}`height
    ensures Models(c, T.RotateLeft(t))
  {
    hide *;
    ghost var x, y, z := t.left, t.right.left, t.right.right;
    assert t == T.Bin(x, t.entry, t.right);
    TakeApart(x, t.entry, t.right);
    TakeApart(y, t.right.entry, z);
    T.GrandchildrenApart(t);
    T.ShortcutExactness(t);
    Rotated(t);
    c := a.right;
    assert c == t.right.entry.node;
    var d := c.left;
    c.left := a;
    a.right := d;
    assert Stored(x) && Stored(y) && Stored(z) && allocated(T.Nodes(z));
    PutTogether(x, t.entry, y);
    Refresh(a, x, t.entry, y);
    RootIsExact(x, t.entry, y);
    c.height := a.height + 1;
    assert Stored(T.Bin(x, t.entry, y)) && Stored(z);
    PutTogether(T.Bin(x, t.entry, y), t.right.entry, z);
    ModelsStored(T.RotateLeft(t));
  }

  method RotateRight(a: Node, ghost t: T.Tree) returns (b: Node)
    requires t.Bin? && t.left.Bin? && a == t.entry.node
    requires Linked(t.left, t.entry, t.right) && T.Distinct(t)
    requires T.RightShortcutExact(t)
    modifies {a, t.left.entry.node}`left, {a, t.left.entry.node}`right, {a, t.left.entry.node}`height
    ensures Models(b, T.RotateRight(t))
  {
    hide *;
    ghost var x, y, z := t.left.left, t.left.right, t.right;
    assert t == T.Bin(t.left, t.entry, z);
    TakeApart(t.left, t.entry, z);
    TakeApart(x, t.left.entry, y);
    T.GrandchildrenApart(t);
    T.ShortcutExactness(t);
    Rotated(t);
    b := a.left;
    assert b == t.left.entry.node;
    var d := b.right;
    b.right := a;
    a.left := d;
    assert Stored(x) && Stored(y) && Stored(z) && allocated(T.Nodes(x));
    PutTogether(y, t.entry, z);
    Refresh(a, y, t.entry, z);
    RootIsExact(y, t.entry, z);
    b.height := a.height + 1;
    assert Stored(T.Bin(y, t.entry, z)) && Stored(x);
    PutTogether(x, t.left.entry, T.Bin(y, t.entry, z));
    ModelsStored(T.RotateRight(t));
  }

  lemma {:induction false} RootIsExact(l: T.Tree, e: T.Entry, r: T.Tree)
    requires Stored(T.Bin(l, e, r))
    ensures e.node.height == T.Height(T.Bin(l, e, r)) && T.Root(T.Bin(l, e, r)) == e.node
    ensures T.Nodes(T.Bin(l, e, r)) == T.Nodes(l) + {e.node} + T.Nodes(r)
  {
  }

  method RotateLeftRight(node: Node, ghost t: T.Tree) returns (b: Node)
    requires t.Bin? && t.left.Bin? && t.left.right.Bin? && node == t.entry.node
    requires Linked(t.left, t.entry, t.right) && T.Distinct(t)
    requires T.LeftShortcutExact(t.left)
    requires T.RightShortcutExact(T.Bin(T.RotateLeft(t.left), t.entry, t.right))
    modifies {node, t.left.entry.node, t.left.right.entry.node}`left
    modifies {node, t.left.entry.node, t.left.right.entry.node}`right
    modifies {node, t.left.entry.node, t.left.right.entry.node}`height
    ensures Models(b, T.RotateRight(T.Bin(T.RotateLeft(t.left), t.entry, t.right)))
  {
    assert allocated(T.Nodes(t.right));
    T.RotationKeepsOrder(t.left);
    var left := RotateLeft(node.left, t.left);
    node.left := left;
    b := RotateRight(node, T.Bin(T.RotateLeft(t.left), t.entry, t.right));
  }

  method RotateRightLeft(node: Node, ghost t: T.Tree) returns (c: Node)
    requires t.Bin? && t.right.Bin? && t.right.left.Bin? && node == t.entry.node
    requires Linked(t.left, t.entry, t.right) && T.Distinct(t)
    requires T.RightShortcutExact(t.right)
    requires T.LeftShortcutExact(T.Bin(t.left, t.entry, T.RotateRight(t.right)))
    modifies {node, t.right.entry.node, t.right.left.entry.node}`left
    modifies {node, t.right.entry.node, t.right.left.entry.node}`right
    modifies {node, t.right.entry.node, t.right.left.entry.node}`height
    ensures Models(c, T.RotateLeft(T.Bin(t.left, t.entry, T.RotateRight(t.right))))
  {
    assert allocated(T.Nodes(t.left));
    T.RotationKeepsOrder(t.right);
    var right := RotateRight(node.right, t.right);
    node.right := right;
    c := RotateLeft(node, T.Bin(t.left, t.entry, T.RotateRight(t.right)));
  }

  /**
    `balance_left_`.  A rotation leaves the flag as it was passed in; otherwise
    the flag tells whether the stored height was stale.
   */
  method BalanceLeft(node: Node, flag: bool, ghost l: T.Tree, ghost e: T.Entry, ghost r: T.Tree)
    returns (root: Node, changed: bool)
    requires node == e.node && Linked(l, e, r) && T.Distinct(T.Bin(l, e, r)) && T.Avl(l) && T.Avl(r)
    requires T.Height(l) - T.Height(r) <= 2
    modifies ({node} + T.Nodes(l))`left, ({node} + T.Nodes(l))`right, ({node} + T.Nodes(l))`height
    ensures Models(root, T.BalanceLeft(l, e, r))
    ensures T.Height(l) - T.Height(r) == 2 ==> changed == flag
    ensures T.Height(l) - T.Height(r) < 2 ==>
              root == node && (changed <==> root.height != old(node.height))
  {
    T.ShortcutAtCallSites(l, e, r);
    var height := node.height;
    Refresh(node, l, e, r);
    HeightIsStored(T.Bin(l, e, r));
    HeightIsStored(l);
    HeightIsStored(r);
    T.BalanceKeepsOrder(l, e, r);
    root, changed := node, flag;
    if GetBias(node) >= 2 {
      if GetBias(node.left) >= 0 {
        root := RotateRight(node, T.Bin(l, e, r));
      } else {
        root := RotateLeftRight(node, T.Bin(l, e, r));
      }
    } else {
      changed := node.height != height;
    }
  }

  method BalanceRight(node: Node, flag: bool, ghost l: T.Tree, ghost e: T.Entry, ghost r: T.Tree)
    returns (root: Node, changed: bool)
    requires node == e.node && Linked(l, e, r) && T.Distinct(T.Bin(l, e, r)) && T.Avl(l) && T.Avl(r)
    requires T.Height(r) - T.Height(l) <= 2
    modifies ({node} + T.Nodes(r))`left, ({node} + T.Nodes(r))`right, ({node} + T.Nodes(r))`height
    ensures Models(root, T.BalanceRight(l, e, r))
    ensures T.Height(r) - T.Height(l) == 2 ==> changed == flag
    ensures T.Height(r) - T.Height(l) < 2 ==>
              root == node && (changed <==> root.height != old(node.height))
  {
    T.ShortcutAtCallSites(l, e, r);
    var height := node.height;
    Refresh(node, l, e, r);
    HeightIsStored(T.Bin(l, e, r));
    HeightIsStored(l);
    HeightIsStored(r);
    T.BalanceKeepsOrder(l, e, r);
    root, changed := node, flag;
    if GetBias(node) <= -2 {
      if GetBias(node.right) <= 0 {
        root := RotateLeft(node, T.Bin(l, e, r));
      } else {
        root := RotateRightLeft(node, T.Bin(l, e, r));
      }
    } else {
      changed := node.height != height;
    }
  }

  // ---------- Re-attaching a rebuilt subtree ----------

  /** `node` still has the links and the height of the tree with subtrees `l` and `r`. */
  ghost predicate Fits(node: Node, l: T.Tree, x: T.Entry, r: T.Tree)
    reads node
  {
    && node == x.node && node.key == x.key
    && node.left == T.Root(l) && node.right == T.Root(r)
    && node.height == T.Height(T.Bin(l, x, r)) && T.Avl(T.Bin(l, x, r))
  }

  /** A false flag promises the same root pointer and the same height. */
  ghost predicate Honest(flag: bool, t: T.Tree, t': T.Tree) {
    !flag ==> T.Root(t') == T.Root(t) && T.Height(t') == T.Height(t)
  }

  /** Insertion's return path on the left: the link is skipped when `changed` is false. */
  method AttachGrownLeft(node: Node, left: Node?, flag: bool,
                         ghost l: T.Tree, ghost l': T.Tree, ghost x: T.Entry, ghost r: T.Tree)
    returns (root: Node, changed: bool)
    requires Fits(node, l, x, r) && Stored(r) && Models(left, l') && T.Distinct(T.Bin(l', x, r)) && T.Avl(l')
    requires T.Height(l) <= T.Height(l') <= T.Height(l) + 1 && Honest(flag, l, l')
    modifies ({node} + T.Nodes(l'))`left, ({node} + T.Nodes(l'))`right, ({node} + T.Nodes(l'))`height
    ensures Models(root, T.BalanceLeft(l', x, r))
    ensures Honest(changed, T.Bin(l, x, r), T.BalanceLeft(l', x, r))
    ensures !flag ==> !changed
  {
    if flag {
      node.left := left;
      root, changed := BalanceLeft(node, flag, l', x, r);
    } else {
      root, changed := node, flag;
    }
  }

  /** Insertion's return path on the right: here the link is skipped when nothing was inserted. */
  method AttachGrownRight(node: Node, right: Node?, inserted: bool, flag: bool,
                          ghost l: T.Tree, ghost x: T.Entry, ghost r: T.Tree, ghost r': T.Tree)
    returns (root: Node, changed: bool)
    requires Fits(node, l, x, r) && Stored(l) && Models(right, r') && T.Distinct(T.Bin(l, x, r')) && T.Avl(r')
    requires T.Height(r) <= T.Height(r') <= T.Height(r) + 1 && Honest(flag, r, r')
    requires !inserted ==> !flag
    modifies ({node} + T.Nodes(r'))`left, ({node} + T.Nodes(r'))`right, ({node} + T.Nodes(r'))`height
    ensures Models(root, T.BalanceRight(l, x, r'))
    ensures Honest(changed, T.Bin(l, x, r), T.BalanceRight(l, x, r'))
    ensures !inserted ==> !changed
  {
    if inserted {
      node.right := right;
      root, changed := BalanceRight(node, flag, l, x, r');
    } else {
      root, changed := node, flag;
    }
  }

  /** The return path of `pop_min_` and `remove_min_`. */
  method AttachShrunkLeft(node: Node, left: Node?, flag: bool,
                          ghost l: T.Tree, ghost l': T.Tree, ghost x: T.Entry, ghost r: T.Tree)
    returns (root: Node, changed: bool)
    requires Fits(node, l, x, r) && Stored(r) && Models(left, l') && T.Distinct(T.Bin(l', x, r)) && T.Avl(l')
    requires T.Height(l) - 1 <= T.Height(l') <= T.Height(l) && Honest(flag, l, l')
    modifies ({node} + T.Nodes(r))`left, ({node} + T.Nodes(r))`right, ({node} + T.Nodes(r))`height
    ensures Models(root, T.BalanceRight(l', x, r))
    ensures Honest(changed, T.Bin(l, x, r), T.BalanceRight(l', x, r))
  {
    if flag {
      node.left := left;
      root, changed := BalanceRight(node, flag, l', x, r);
    } else {
      root, changed := node, flag;
    }
  }

  /** The return path of `pop_max_` and `remove_max_`. */
  method AttachShrunkRight(node: Node, right: Node?, flag: bool,
                           ghost l: T.Tree, ghost x: T.Entry, ghost r: T.Tree, ghost r': T.Tree)
    returns (root: Node, changed: bool)
    requires Fits(node, l, x, r) && Stored(l) && Models(right, r') && T.Distinct(T.Bin(l, x, r')) && T.Avl(r')
    requires T.Height(r) - 1 <= T.Height(r') <= T.Height(r) && Honest(flag, r, r')
    modifies ({node} + T.Nodes(l))`left, ({node} + T.Nodes(l))`right, ({node} + T.Nodes(l))`height
    ensures Models(root, T.BalanceLeft(l, x, r'))
    ensures Honest(changed, T.Bin(l, x, r), T.BalanceLeft(l, x, r'))
  {
    if flag {
      node.right := right;
      root, changed := BalanceLeft(node, flag, l, x, r');
    } else {
      root, changed := node, flag;
    }
  }

  /** The return path of `remove_key_` on the left: the link is always written. */
  method AttachReducedLeft(node: Node, left: Node?, reduced: bool,
                           ghost l: T.Tree, ghost l': T.Tree, ghost x: T.Entry, ghost r: T.Tree)
    returns (root: Node)
    requires Fits(node, l, x, r) && Stored(r) && Models(left, l') && T.Distinct(T.Bin(l', x, r)) && T.Avl(l')
    requires T.Height(l) - 1 <= T.Height(l') <= T.Height(l) && (!reduced ==> l' == l)
    modifies ({node} + T.Nodes(r))`left, ({node} + T.Nodes(r))`right, ({node} + T.Nodes(r))`height
    ensures Models(root, T.BalanceRight(l', x, r))
  {
    node.left := left;
    root := node;
    if reduced {
      var changed := false;
      root, changed := BalanceRight(node, changed, l', x, r);
    }
  }

  method AttachReducedRight(node: Node, right: Node?, reduced: bool,
                            ghost l: T.Tree, ghost x: T.Entry, ghost r: T.Tree, ghost r': T.Tree)
    returns (root: Node)
    requires Fits(node, l, x, r) && Stored(l) && Models(right, r') && T.Distinct(T.Bin(l, x, r')) && T.Avl(r')
    requires T.Height(r) - 1 <= T.Height(r') <= T.Height(r) && (!reduced ==> r' == r)
    modifies ({node} + T.Nodes(l))`left, ({node} + T.Nodes(l))`right, ({node} + T.Nodes(l))`height
    ensures Models(root, T.BalanceLeft(l, x, r'))
  {
    node.right := right;
    root := node;
    if reduced {
      var changed := false;
      root, changed := BalanceLeft(node, changed, l, x, r');
    }
  }

  // ---------- Insertion ----------

  /** What a node of a well-formed AVL tree knows about its two subtrees. */
  lemma {:induction false} Open(node: Node, t: T.Tree)
    requires Models(node, t) && T.Avl(t)
    ensures t.Bin? && Fits(node, t.left, t.entry, t.right)
    ensures Models(node.left, t.left) && Models(node.right, t.right)
    ensures T.Avl(t.left) && T.Avl(t.right) && T.Distinct(t)
    ensures T.Nodes(t) == T.Nodes(t.left) + {node} + T.Nodes(t.right)
    ensures node !in T.Nodes(t.left) && node !in T.Nodes(t.right) && T.Nodes(t.left) !! T.Nodes(t.right)
  {
  }

  lemma {:induction false} InsertStep(l: T.Tree, x: T.Entry, r: T.Tree, e: T.Entry)
    requires T.Avl(l) && T.Avl(r) && T.Distinct(T.Bin(l, x, r)) && e.node !in T.Nodes(T.Bin(l, x, r))
    ensures T.Nodes(T.Insert(l, e)) <= T.Nodes(l) + {e.node} && T.Nodes(T.Insert(r, e)) <= T.Nodes(r) + {e.node}
    ensures T.Distinct(T.Bin(T.Insert(l, e), x, r)) && T.Distinct(T.Bin(l, x, T.Insert(r, e)))
    ensures T.Avl(T.Insert(l, e)) && T.Height(l) <= T.Height(T.Insert(l, e)) <= T.Height(l) + 1
    ensures T.Avl(T.Insert(r, e)) && T.Height(r) <= T.Height(T.Insert(r, e)) <= T.Height(r) + 1
  {
    T.InsertKeepsBalance(l, e);
    T.InsertKeepsBalance(r, e);
    T.InsertNodes(l, e);
    T.InsertNodes(r, e);
  }

  /**
    `insert_node_`.  A false `changed` means that the link and the height above
    are still right.
   */
  method InsertNode(node: Node?, newNode: Node, ghost t: T.Tree, ghost e: T.Entry)
    returns (root: Node, inserted: bool, changed: bool)
    requires Models(node, t) && T.Avl(t)
    requires e == T.Entry(newNode, newNode.key)
    requires newNode !in T.Nodes(t) && newNode.left == null && newNode.right == null
    modifies (T.Nodes(t) + {newNode})`left, (T.Nodes(t) + {newNode})`right, (T.Nodes(t) + {newNode})`height
    ensures Models(root, T.Insert(t, e))
    ensures inserted <==> T.Find(t, e.key) == null
    ensures Honest(changed, t, T.Insert(t, e))
    ensures !inserted ==> !changed
    decreases t
  {
    if node == null {
      inserted, changed := true, true;
      newNode.height := 1;
      return newNode, inserted, changed;
    }
    Open(node, t);
    ghost var l, x, r := t.left, t.entry, t.right;
    assert allocated(T.Nodes(l)) && allocated(T.Nodes(r));
    var ret := Compare(newNode.key, node.key);
    if ret < 0 {
      var left;
      left, inserted, changed := InsertNode(node.left, newNode, l, e);
      assert Stored(r);
      InsertStep(l, x, r, e);
      root, changed := AttachGrownLeft(node, left, changed, l, T.Insert(l, e), x, r);
    } else if ret > 0 {
      var right;
      right, inserted, changed := InsertNode(node.right, newNode, r, e);
      assert Stored(l);
      InsertStep(l, x, r, e);
      root, changed := AttachGrownRight(node, right, inserted, changed, l, x, r, T.Insert(r, e));
    } else {
      inserted, changed := false, false;
      root := node;
    }
  }

  // ---------- Removing an extreme ----------

  lemma {:induction false} RemoveMinStep(l: T.Tree, x: T.Entry, r: T.Tree)
    requires l.Bin? && T.Avl(l) && T.Distinct(T.Bin(l, x, r))
    ensures T.Nodes(T.RemoveMin(l)) <= T.Nodes(l) && T.Distinct(T.Bin(T.RemoveMin(l), x, r))
    ensures T.Avl(T.RemoveMin(l)) && T.Height(l) - 1 <= T.Height(T.RemoveMin(l)) <= T.Height(l)
  {
    T.RemoveMinFacts(l);
  }

  lemma {:induction false} RemoveMaxStep(l: T.Tree, x: T.Entry, r: T.Tree)
    requires r.Bin? && T.Avl(r) && T.Distinct(T.Bin(l, x, r))
    ensures T.Nodes(T.RemoveMax(r)) <= T.Nodes(r) && T.Distinct(T.Bin(l, x, T.RemoveMax(r)))
    ensures T.Avl(T.RemoveMax(r)) && T.Height(r) - 1 <= T.Height(T.RemoveMax(r)) <= T.Height(r)
  {
    T.RemoveMaxFacts(r);
  }

  /** `pop_min_`. */
  method PopMin(node: Node, ghost t: T.Tree) returns (root: Node?, min: Node, changed: bool)
    requires Models(node, t) && T.Avl(t)
    modifies T.Nodes(t)`left, T.Nodes(t)`right, T.Nodes(t)`height
    ensures Models(root, T.RemoveMin(t)) && min == T.MinEntry(t).node
    ensures Honest(changed, t, T.RemoveMin(t))
    decreases t
  {
    Open(node, t);
    ghost var l, x, r := t.left, t.entry, t.right;
    if node.left == null {
      return node.right, node, true;
    }
    assert allocated(T.Nodes(r));
    var left;
    left, min, changed := PopMin(node.left, l);
    assert Stored(r);
    RemoveMinStep(l, x, r);
    root, changed := AttachShrunkLeft(node, left, changed, l, T.RemoveMin(l), x, r);
  }

  /** `pop_max_`. */
  method PopMax(node: Node, ghost t: T.Tree) returns (root: Node?, max: Node, changed: bool)
    requires Models(node, t) && T.Avl(t)
    modifies T.Nodes(t)`left, T.Nodes(t)`right, T.Nodes(t)`height
    ensures Models(root, T.RemoveMax(t)) && max == T.MaxEntry(t).node
    ensures Honest(changed, t, T.RemoveMax(t))
    decreases t
  {
    Open(node, t);
    ghost var l, x, r := t.left, t.entry, t.right;
    if node.right == null {
      return node.left, node, true;
    }
    assert allocated(T.Nodes(l));
    var right;
    right, max, changed := PopMax(node.right, r);
    assert Stored(l);
    RemoveMaxStep(l, x, r);
    root, changed := AttachShrunkRight(node, right, changed, l, x, r, T.RemoveMax(r));
  }

  /** `remove_min_`. */
  method RemoveMin(node: Node, ghost t: T.Tree) returns (root: Node?, changed: bool)
    requires Models(node, t) && T.Avl(t)
    modifies T.Nodes(t)`left, T.Nodes(t)`right, T.Nodes(t)`height
    ensures Models(root, T.RemoveMin(t))
    ensures Honest(changed, t, T.RemoveMin(t))
    decreases t
  {
    Open(node, t);
    ghost var l, x, r := t.left, t.entry, t.right;
    if node.left == null {
      return node.right, true;
    }
    assert allocated(T.Nodes(r));
    var left;
    left, changed := RemoveMin(node.left, l);
    assert Stored(r);
    RemoveMinStep(l, x, r);
    root, changed := AttachShrunkLeft(node, left, changed, l, T.RemoveMin(l), x, r);
  }

  /** `remove_max_`. */
  method RemoveMax(node: Node, ghost t: T.Tree) returns (root: Node?, changed: bool)
    requires Models(node, t) && T.Avl(t)
    modifies T.Nodes(t)`left, T.Nodes(t)`right, T.Nodes(t)`height
    ensures Models(root, T.RemoveMax(t))
    ensures Honest(changed, t, T.RemoveMax(t))
    decreases t
  {
    Open(node, t);
    ghost var l, x, r := t.left, t.entry, t.right;
    if node.right == null {
      return node.left, true;
    }
    assert allocated(T.Nodes(l));
    var right;
    right, changed := RemoveMax(node.right, r);
    assert Stored(l);
    RemoveMaxStep(l, x, r);
    root, changed := AttachShrunkRight(node, right, changed, l, x, r, T.RemoveMax(r));
  }

  // ---------- Removing a key ----------

  lemma {:induction false} RemoveKeyStep(l: T.Tree, x: T.Entry, r: T.Tree, k: Key)
    requires T.Avl(l) && T.Avl(r) && T.Distinct(T.Bin(l, x, r))
    ensures T.Nodes(T.RemoveKey(l, k)) <= T.Nodes(l) && T.Nodes(T.RemoveKey(r, k)) <= T.Nodes(r)
    ensures T.Distinct(T.Bin(T.RemoveKey(l, k), x, r)) && T.Distinct(T.Bin(l, x, T.RemoveKey(r, k)))
    ensures T.Avl(T.RemoveKey(l, k)) && T.Height(l) - 1 <= T.Height(T.RemoveKey(l, k)) <= T.Height(l)
    ensures T.Avl(T.RemoveKey(r, k)) && T.Height(r) - 1 <= T.Height(T.RemoveKey(r, k)) <= T.Height(r)
    ensures T.Find(l, k) == null ==> T.RemoveKey(l, k) == l
    ensures T.Find(r, k) == null ==> T.RemoveKey(r, k) == r
  {
    T.RemoveKeyKeepsBalance(l, k);
    T.RemoveKeyKeepsBalance(r, k);
    T.RemoveKeyNodes(l, k);
    T.RemoveKeyNodes(r, k);
  }

  lemma {:induction false} MaxEntryIsStored(t: T.Tree)
    requires t.Bin? && Stored(t)
    ensures T.MaxEntry(t).node.key == T.MaxEntry(t).key
  {
    if t.right.Bin? {
      MaxEntryIsStored(t.right);
    }
  }

  lemma {:induction false} RemoveRootStep(l: T.Tree, x: T.Entry, r: T.Tree)
    requires l.Bin? && T.Avl(T.Bin(l, x, r)) && T.Distinct(T.Bin(l, x, r))
    ensures var m := T.MaxEntry(l);
            && T.RemoveRoot(T.Bin(l, x, r)) == T.BalanceRight(T.RemoveMax(l), m, r)
            && m.node in T.Nodes(l) && m.node !in T.Nodes(T.RemoveMax(l)) && m.node !in T.Nodes(r)
            && T.Nodes(T.RemoveMax(l)) <= T.Nodes(l)
            && T.Avl(T.RemoveMax(l)) && T.Distinct(T.Bin(T.RemoveMax(l), m, r))
            && T.Height(r) - T.Height(T.RemoveMax(l)) <= 2
  {
    T.RemoveMaxFacts(l);
  }

  /**
    The found-it branch of `remove_key_`: the in-order predecessor takes the
    node's place, and rebalancing repairs the height it brings along.
   */
  method RemoveRoot(node: Node, ghost t: T.Tree) returns (root: Node?)
    requires Models(node, t) && T.Avl(t)
    modifies T.Nodes(t)`left, T.Nodes(t)`right, T.Nodes(t)`height
    ensures Models(root, T.RemoveRoot(t))
  {
    Open(node, t);
    ghost var l, x, r := t.left, t.entry, t.right;
    if node.left == null {
      return node.right;
    }
    assert allocated(T.Nodes(r));
    MaxEntryIsStored(l);
    RemoveRootStep(l, x, r);
    ghost var m := T.MaxEntry(l);
    assert allocated(m.node);
    hide T.Distinct, T.Avl, T.Height, T.Inorder, T.BalanceRight, T.RemoveMax, T.RemoveRoot;
    var left, promotion, changed := PopMax(node.left, l);
    assert Stored(r) && promotion == m.node && promotion.key == m.key;
    promotion.left := left;
    promotion.right := node.right;
    root, changed := BalanceRight(promotion, changed, T.RemoveMax(l), m, r);
  }

  /** `remove_key_`. */
  method RemoveKey(node: Node?, key: Key, ghost t: T.Tree) returns (root: Node?, removed: Node?)
    requires Models(node, t) && T.Avl(t)
    modifies T.Nodes(t)`left, T.Nodes(t)`right, T.Nodes(t)`height
    ensures Models(root, T.RemoveKey(t, key))
    ensures removed == T.Find(t, key)
    decreases t
  {
    if node == null {
      return null, null;
    }
    Open(node, t);
    ghost var l, x, r := t.left, t.entry, t.right;
    assert allocated(T.Nodes(l)) && allocated(T.Nodes(r));
    var ret := Compare(key, node.key);
    if ret < 0 {
      var left;
      left, removed := RemoveKey(node.left, key, l);
      assert Stored(r);
      RemoveKeyStep(l, x, r, key);
      root := AttachReducedLeft(node, left, removed != null, l, T.RemoveKey(l, key), x, r);
    } else if ret > 0 {
      var right;
      right, removed := RemoveKey(node.right, key, r);
      assert Stored(l);
      RemoveKeyStep(l, x, r, key);
      root := AttachReducedRight(node, right, removed != null, l, x, r, T.RemoveKey(r, key));
    } else {
      removed := node;
      root := RemoveRoot(node, t);
    }
  }

  // ---------- Looking at the extremes ----------

  /** `get_min_`. */
  method GetMin(node: Node?, ghost t: T.Tree) returns (min: Node?)
    requires Models(node, t)
    ensures min == if t.Leaf? then null else T.MinEntry(t).node
  {
    if node == null {
      return null;
    }
    min := node;
    ghost var u := t;
    while min.left != null
      invariant u.Bin? && Models(min, u) && T.MinEntry(u) == T.MinEntry(t)
      decreases u
    {
      min := min.left;
      u := u.left;
    }
  }

  /** `get_max_`. */
  method GetMax(node: Node?, ghost t: T.Tree) returns (max: Node?)
    requires Models(node, t)
    ensures max == if t.Leaf? then null else T.MaxEntry(t).node
  {
    if node == null {
      return null;
    }
    max := node;
    ghost var u := t;
    while max.right != null
      invariant u.Bin? && Models(max, u) && T.MaxEntry(u) == T.MaxEntry(t)
      decreases u
    {
      max := max.right;
      u := u.right;
    }
  }
}
