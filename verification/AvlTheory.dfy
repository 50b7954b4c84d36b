/**
  The node type of the intrusive tree.
 */
module TimeoutNode {
  import opened Keys

  /** `xf_timeout_t`.  `callback` stands for the procedure and its context. */
  class Node {
    var left: Node?
    var right: Node?
    var height: int
    var key: Key
    var callback: int

    constructor (key: Key)
      ensures this.key == key && left == null && right == null && height == 0
    {
      this.key := key;
      left, right, height, callback := null, null, 0, 0;
    }
  }
}

/**
  Height-balanced trees as values: what the pointer code of `avltree.h` is
  meant to compute.  Heights are recomputed here instead of being stored, every
  path is rebuilt, and there are no out-flags.
 */
module AvlTheory {
  import opened Keys
  import opened TimeoutNode

  datatype Entry = Entry(node: Node, key: Key)

  datatype Tree = Leaf | Bin(left: Tree, entry: Entry, right: Tree)

  // ---------- Observations ----------

  function Max(a: int, b: int): int {
    if a < b then b else a
  }

  function Height(t: Tree): nat {
    match t
    case Leaf => 0
    case Bin(l, _, r) => Max(Height(l), Height(r)) + 1
  }

  function Bias(t: Tree): int {
    match t
    case Leaf => 0
    case Bin(l, _, r) => Height(l) - Height(r)
  }

  function Inorder(t: Tree): seq<Entry> {
    match t
    case Leaf => []
    case Bin(l, e, r) => Inorder(l) + [e] + Inorder(r)
  }

  function Nodes(t: Tree): set<Node> {
    match t
    case Leaf => {}
    case Bin(l, e, r) => Nodes(l) + {e.node} + Nodes(r)
  }

  function Root(t: Tree): Node? {
    if t.Leaf? then null else t.entry.node
  }

  /** No node occurs twice. */
  predicate Distinct(t: Tree) {
    match t
    case Leaf => true
    case Bin(l, e, r) =>
      && Distinct(l) && Distinct(r) && Nodes(l) !! Nodes(r)
      && e.node !in Nodes(l) && e.node !in Nodes(r)
  }

  predicate Avl(t: Tree) {
    match t
    case Leaf => true
    case Bin(l, _, r) => Avl(l) && Avl(r) && -1 <= Height(l) - Height(r) <= 1
  }

  ghost predicate Sorted(s: seq<Entry>) {
    forall i, j | 0 <= i < j < |s| :: Less(s[i].key, s[j].key)
  }

  // ---------- The reference: a sorted sequence ----------

  /** How many leading entries have a key below `k`. */
  function Rank(s: seq<Entry>, k: Key): (i: nat)
    ensures i <= |s|
    ensures forall j | 0 <= j < i :: Less(s[j].key, k)
    ensures i < |s| ==> !Less(s[i].key, k)
  {
    if s == [] || !Less(s[0].key, k) then 0 else 1 + Rank(s[1..], k)
  }

  predicate Holds(s: seq<Entry>, k: Key) {
    Rank(s, k) < |s| && s[Rank(s, k)].key == k
  }

  function SeqInsert(s: seq<Entry>, e: Entry): seq<Entry> {
    var i := Rank(s, e.key);
    if Holds(s, e.key) then s else s[..i] + [e] + s[i..]
  }

  function SeqRemove(s: seq<Entry>, k: Key): seq<Entry> {
    var i := Rank(s, k);
    if Holds(s, k) then s[..i] + s[i + 1..] else s
  }

  ghost function KeySet(s: seq<Entry>): set<Key> {
    set e | e in s :: e.key
  }

  lemma {:induction false} RankUnique(s: seq<Entry>, k: Key, i: nat)
    requires i <= |s|
    requires forall j | 0 <= j < i :: Less(s[j].key, k)
    requires i < |s| ==> !Less(s[i].key, k)
    ensures Rank(s, k) == i
  {
  }

  /** On a sorted sequence `Holds` is membership of the key. */
  lemma {:induction false} HoldsIsMembership(s: seq<Entry>, k: Key)
    requires Sorted(s)
    ensures Holds(s, k) <==> k in KeySet(s)
    ensures forall e | e in s && e.key == k :: Holds(s, k) && e == s[Rank(s, k)]
  {
    forall j | 0 <= j < |s| && s[j].key == k
      ensures Rank(s, k) == j
    {
      RankUnique(s, k, j);
    }
    if Holds(s, k) {
      assert s[Rank(s, k)] in s;
    }
  }

  /** A key between all those on its left and all those on its right. */
  lemma {:induction false} SortedWhole(a: seq<Entry>, x: Entry, b: seq<Entry>)
    requires Sorted(a) && Sorted(b)
    requires forall e | e in a :: Less(e.key, x.key)
    requires forall e | e in b :: Less(x.key, e.key)
    ensures Sorted(a + [x] + b)
  {
    var s := a + [x] + b;
    assert forall i | 0 <= i < |s| :: s[i] == if i < |a| then a[i] else if i == |a| then x else b[i - |a| - 1];
    forall i, j | 0 <= i < j < |s| ensures Less(s[i].key, s[j].key) {
      if i < |a| { assert Less(a[i].key, x.key); }
      if j > |a| { assert Less(x.key, b[j - |a| - 1].key); }
    }
  }

  lemma {:induction false} SortedCuts(s: seq<Entry>, k: Key)
    requires Sorted(s) && !Holds(s, k)
    ensures var i := Rank(s, k);
            && Sorted(s[..i]) && Sorted(s[i..])
            && (forall e | e in s[..i] :: Less(e.key, k)) && (forall e | e in s[i..] :: Less(k, e.key))
  {
    var i := Rank(s, k);
    forall e | e in s[i..] ensures Less(k, e.key) {
      var j :| i <= j < |s| && s[j] == e;
      if j > i { assert Less(s[i].key, s[j].key); }
    }
  }

  lemma {:induction false} MembersOfMiddle(a: seq<Entry>, x: Entry, b: seq<Entry>)
    ensures forall e :: e in a + [x] + b <==> e in a + b || e == x
    ensures KeySet(a + [x] + b) == KeySet(a + b) + {x.key}
  {
    forall e ensures e in a + [x] + b <==> e in a + b || e == x {
      assert e in a + [x] + b <==> e in a || e == x || e in b;
    }
    forall k ensures k in KeySet(a + [x] + b) <==> k in KeySet(a + b) + {x.key} {
      if k in KeySet(a + b) {
        var e :| e in a + b && e.key == k;
        assert e in a + [x] + b;
      }
      assert x in a + [x] + b;
    }
  }

  /** The sorted sequence behaves as a map from keys to nodes: insertion. */
  lemma {:induction false} SeqInsertIsMapUpdate(s: seq<Entry>, e: Entry)
    requires Sorted(s)
    ensures Sorted(SeqInsert(s, e))
    ensures KeySet(SeqInsert(s, e)) == KeySet(s) + {e.key}
    ensures e.key !in KeySet(s) ==> |SeqInsert(s, e)| == |s| + 1
    ensures forall x :: x in SeqInsert(s, e) <==> x in s || (x == e && e.key !in KeySet(s))
  {
    HoldsIsMembership(s, e.key);
    if !Holds(s, e.key) {
      var i := Rank(s, e.key);
      SortedCuts(s, e.key);
      SortedWhole(s[..i], e, s[i..]);
      MembersOfMiddle(s[..i], e, s[i..]);
      assert s == s[..i] + s[i..];
    }
  }

  lemma {:induction false} TakingOutMiddle(a: seq<Entry>, x: Entry, b: seq<Entry>)
    requires Sorted(a + [x] + b)
    ensures Sorted(a + b)
    ensures forall e :: e in a + b <==> e in a + [x] + b && e.key != x.key
  {
    SortedParts(a, x, b);
    forall e ensures e in a + [x] + b <==> e in a + b || e == x {
      assert e in a + b <==> e in a || e in b;
    }
    forall m, n | 0 <= m < n < |a + b| ensures Less((a + b)[m].key, (a + b)[n].key) {
      if m < |a| <= n {
        assert a[m] in a && b[n - |a|] in b;
      }
    }
  }

  /** The sorted sequence behaves as a map from keys to nodes: removal. */
  lemma {:induction false} SeqRemoveIsMapRemove(s: seq<Entry>, k: Key)
    requires Sorted(s)
    ensures Sorted(SeqRemove(s, k))
    ensures KeySet(SeqRemove(s, k)) == KeySet(s) - {k}
    ensures k in KeySet(s) ==> |SeqRemove(s, k)| == |s| - 1
    ensures forall x :: x in SeqRemove(s, k) <==> x in s && x.key != k
  {
    HoldsIsMembership(s, k);
    var i := Rank(s, k);
    var s' := SeqRemove(s, k);
    if Holds(s, k) {
      assert s == s[..i] + [s[i]] + s[i + 1..];
      TakingOutMiddle(s[..i], s[i], s[i + 1..]);
    } else {
      forall x | x in s ensures x.key != k {
        assert x.key in KeySet(s);
      }
    }
    forall j ensures j in KeySet(s') <==> j in KeySet(s) && j != k {
      if j in KeySet(s) && j != k {
        var x :| x in s && x.key == j;
        assert x in s';
      }
    }
  }

  lemma {:induction false} SortedParts(a: seq<Entry>, x: Entry, b: seq<Entry>)
    requires Sorted(a + [x] + b)
    ensures Sorted(a) && Sorted(b)
    ensures forall e | e in a :: Less(e.key, x.key)
    ensures forall e | e in b :: Less(x.key, e.key)
  {
    var s := a + [x] + b;
    assert s[|a|] == x;
    forall i | 0 <= i < |a| ensures s[i] == a[i] && Less(a[i].key, x.key) {
      assert Less(s[i].key, s[|a|].key);
    }
    forall i | 0 <= i < |b| ensures s[|a| + 1 + i] == b[i] && Less(x.key, b[i].key) {
      assert Less(s[|a|].key, s[|a| + 1 + i].key);
    }
    forall i, j | 0 <= i < j < |a| ensures Less(a[i].key, a[j].key) {
      assert Less(s[i].key, s[j].key);
    }
    forall i, j | 0 <= i < j < |b| ensures Less(b[i].key, b[j].key) {
      assert Less(s[|a| + 1 + i].key, s[|a| + 1 + j].key);
    }
  }

  /** In a sorted sequence split around `x`, a key below `x` is looked for on the left. */
  lemma {:induction false} RankLeftOf(a: seq<Entry>, x: Entry, b: seq<Entry>, k: Key)
    requires Sorted(a + [x] + b) && !Less(x.key, k)
    ensures Rank(a + [x] + b, k) == Rank(a, k)
    ensures Less(k, x.key) ==> (Holds(a + [x] + b, k) <==> Holds(a, k))
    ensures k == x.key ==> Rank(a, k) == |a| && Holds(a + [x] + b, k)
  {
    SortedParts(a, x, b);
    var s := a + [x] + b;
    var i := Rank(a, k);
    assert forall j | 0 <= j < |a| :: s[j] == a[j];
    assert s[|a|] == x;
    RankUnique(s, k, i);
    assert i < |a| ==> a[i] in a;
  }

  lemma {:induction false} RankRightOf(a: seq<Entry>, x: Entry, b: seq<Entry>, k: Key)
    requires Sorted(a + [x] + b) && Less(x.key, k)
    ensures Rank(a + [x] + b, k) == |a| + 1 + Rank(b, k)
    ensures Holds(a + [x] + b, k) <==> Holds(b, k)
  {
    SortedParts(a, x, b);
    var s := a + [x] + b;
    var i := Rank(b, k);
    forall j | 0 <= j < |a| + 1 + i ensures Less(s[j].key, k) {
      if j < |a| {
        assert s[j] in a;
      } else if j > |a| {
        assert s[j] == b[j - |a| - 1];
      }
    }
    assert i < |b| ==> s[|a| + 1 + i] == b[i];
    RankUnique(s, k, |a| + 1 + i);
  }

  /** Insertion and removal act inside one side of a split sequence. */
  lemma {:induction false} InsertLeftOf(a: seq<Entry>, x: Entry, b: seq<Entry>, e: Entry)
    requires Sorted(a + [x] + b) && Less(e.key, x.key)
    ensures SeqInsert(a + [x] + b, e) == SeqInsert(a, e) + [x] + b
  {
    RankLeftOf(a, x, b, e.key);
    var i := Rank(a, e.key);
    if !Holds(a, e.key) {
      assert (a + [x] + b)[..i] + [e] + (a + [x] + b)[i..] == (a[..i] + [e] + a[i..]) + [x] + b;
    }
  }

  lemma {:induction false} RemoveLeftOf(a: seq<Entry>, x: Entry, b: seq<Entry>, k: Key)
    requires Sorted(a + [x] + b) && Less(k, x.key)
    ensures SeqRemove(a + [x] + b, k) == SeqRemove(a, k) + [x] + b
  {
    RankLeftOf(a, x, b, k);
    var i := Rank(a, k);
    if Holds(a, k) {
      assert (a + [x] + b)[..i] + (a + [x] + b)[i + 1..] == (a[..i] + a[i + 1..]) + [x] + b;
    }
  }

  lemma {:induction false} InsertRightOf(a: seq<Entry>, x: Entry, b: seq<Entry>, e: Entry)
    requires Sorted(a + [x] + b) && Less(x.key, e.key)
    ensures SeqInsert(a + [x] + b, e) == a + [x] + SeqInsert(b, e)
  {
    RankRightOf(a, x, b, e.key);
    if !Holds(b, e.key) {
      InsertAfter(a + [x], b, Rank(b, e.key), e);
    }
  }

  lemma {:induction false} RemoveRightOf(a: seq<Entry>, x: Entry, b: seq<Entry>, k: Key)
    requires Sorted(a + [x] + b) && Less(x.key, k)
    ensures SeqRemove(a + [x] + b, k) == a + [x] + SeqRemove(b, k)
  {
    RankRightOf(a, x, b, k);
    if Holds(b, k) {
      RemoveAfter(a + [x], b, Rank(b, k));
    }
  }

  lemma {:induction false} InsertAfter(p: seq<Entry>, b: seq<Entry>, i: nat, e: Entry)
    requires i <= |b|
    ensures (p + b)[..|p| + i] + [e] + (p + b)[|p| + i..] == p + (b[..i] + [e] + b[i..])
  {
  }

  lemma {:induction false} RemoveAfter(p: seq<Entry>, b: seq<Entry>, i: nat)
    requires i < |b|
    ensures (p + b)[..|p| + i] + (p + b)[|p| + i + 1..] == p + (b[..i] + b[i + 1..])
  {
  }

  function NodeSet(s: seq<Entry>): set<Node> {
    set e | e in s :: e.node
  }

  lemma {:induction false} NodesAreEntries(t: Tree)
    ensures Nodes(t) == NodeSet(Inorder(t))
  {
    if t.Bin? {
      NodesAreEntries(t.left);
      NodesAreEntries(t.right);
      var a, b := Inorder(t.left), Inorder(t.right);
      assert forall e :: e in a + [t.entry] + b <==> e in a || e == t.entry || e in b;
    }
  }

  // ---------- Rotations and rebalancing ----------

  function RotateLeft(t: Tree): Tree
    requires t.Bin? && t.right.Bin?
  {
    Bin(Bin(t.left, t.entry, t.right.left), t.right.entry, t.right.right)
  }

  function RotateRight(t: Tree): Tree
    requires t.Bin? && t.left.Bin?
  {
    Bin(t.left.left, t.left.entry, Bin(t.left.right, t.entry, t.right))
  }

  function BalanceLeft(l: Tree, e: Entry, r: Tree): Tree {
    if Height(l) - Height(r) < 2 then Bin(l, e, r)
    else if Bias(l) >= 0 then RotateRight(Bin(l, e, r))
    else RotateRight(Bin(RotateLeft(l), e, r))
  }

  function BalanceRight(l: Tree, e: Entry, r: Tree): Tree {
    if Height(l) - Height(r) > -2 then Bin(l, e, r)
    else if Bias(r) <= 0 then RotateLeft(Bin(l, e, r))
    else RotateLeft(Bin(l, e, RotateRight(r)))
  }

  /** When giving the new root the height of its new child plus one is exact. */
  predicate LeftShortcutExact(t: Tree)
    requires t.Bin? && t.right.Bin?
  {
    Height(t.right.right) <= Max(Height(t.left), Height(t.right.left)) + 1
  }

  predicate RightShortcutExact(t: Tree)
    requires t.Bin? && t.left.Bin?
  {
    Height(t.left.left) <= Max(Height(t.left.right), Height(t.right)) + 1
  }

  /**
    The shortcut equals the true height exactly under those conditions, which a
    caller can read off the heights of the grandchildren.
   */
  lemma {:induction false} ShortcutExactness(t: Tree)
    requires t.Bin?
    ensures t.right.Bin? ==>
              (LeftShortcutExact(t) <==> Height(RotateLeft(t)) == Height(RotateLeft(t).left) + 1)
    ensures t.left.Bin? ==>
              (RightShortcutExact(t) <==> Height(RotateRight(t)) == Height(RotateRight(t).right) + 1)
  {
    if t.right.Bin? {
      assert RotateLeft(t).left.right == t.right.left;
      assert Height(RotateLeft(t)) == Max(Height(RotateLeft(t).left), Height(t.right.right)) + 1;
    }
    if t.left.Bin? {
      assert RotateRight(t).right.left == t.left.right;
      assert Height(RotateRight(t)) == Max(Height(t.left.left), Height(RotateRight(t).right)) + 1;
    }
  }

  /**
    Every rotation that rebalancing performs on a tree one unit out of balance
    meets the condition: the single rotations, with a zero-bias child included,
    and both halves of the double rotations.
   */
  lemma {:induction false} ShortcutAtCallSites(l: Tree, e: Entry, r: Tree)
    requires Avl(l) && Avl(r)
    ensures Height(l) - Height(r) == 2 ==>
              && (Bias(l) >= 0 ==> RightShortcutExact(Bin(l, e, r)))
              && (Bias(l) < 0 ==> LeftShortcutExact(l) && RightShortcutExact(Bin(RotateLeft(l), e, r)))
    ensures Height(l) - Height(r) == -2 ==>
              && (Bias(r) <= 0 ==> LeftShortcutExact(Bin(l, e, r)))
              && (Bias(r) > 0 ==> RightShortcutExact(r) && LeftShortcutExact(Bin(l, e, RotateRight(r))))
  {
  }

  /** Rebalancing never changes the in-order sequence or the set of nodes. */
  lemma {:induction false} BalanceKeepsOrder(l: Tree, e: Entry, r: Tree)
    ensures Inorder(BalanceLeft(l, e, r)) == Inorder(l) + [e] + Inorder(r)
    ensures Inorder(BalanceRight(l, e, r)) == Inorder(l) + [e] + Inorder(r)
    ensures Nodes(BalanceLeft(l, e, r)) == Nodes(l) + {e.node} + Nodes(r)
    ensures Nodes(BalanceRight(l, e, r)) == Nodes(l) + {e.node} + Nodes(r)
    ensures Distinct(Bin(l, e, r)) ==> Distinct(BalanceLeft(l, e, r)) && Distinct(BalanceRight(l, e, r))
  {
    if Height(l) - Height(r) >= 2 {
      if Bias(l) < 0 { RotationKeepsOrder(l); RotationKeepsOrder(Bin(RotateLeft(l), e, r)); }
      RotationKeepsOrder(Bin(l, e, r));
    }
    if Height(l) - Height(r) <= -2 {
      if Bias(r) > 0 { RotationKeepsOrder(r); RotationKeepsOrder(Bin(l, e, RotateRight(r))); }
      RotationKeepsOrder(Bin(l, e, r));
    }
  }

  lemma {:induction false} RotationKeepsOrder(t: Tree)
    requires t.Bin?
    ensures t.right.Bin? ==>
              && Inorder(RotateLeft(t)) == Inorder(t) && Nodes(RotateLeft(t)) == Nodes(t)
              && (Distinct(t) ==> Distinct(RotateLeft(t)))
    ensures t.left.Bin? ==>
              && Inorder(RotateRight(t)) == Inorder(t) && Nodes(RotateRight(t)) == Nodes(t)
              && (Distinct(t) ==> Distinct(RotateRight(t)))
  {
    if t.right.Bin? {
      var a, b, c := Inorder(t.left), Inorder(t.right.left), Inorder(t.right.right);
      assert (a + [t.entry] + b) + [t.right.entry] + c == a + [t.entry] + (b + [t.right.entry] + c);
      if Distinct(t) {
        assert Distinct(t.right) && Nodes(t.right.left) + Nodes(t.right.right) <= Nodes(t.right);
        assert Distinct(Bin(t.left, t.entry, t.right.left));
      }
    }
    if t.left.Bin? {
      var a, b, c := Inorder(t.left.left), Inorder(t.left.right), Inorder(t.right);
      assert (a + [t.left.entry] + b) + [t.entry] + c == a + [t.left.entry] + (b + [t.entry] + c);
      if Distinct(t) {
        assert Distinct(t.left) && Nodes(t.left.left) + Nodes(t.left.right) <= Nodes(t.left);
        assert Distinct(Bin(t.left.right, t.entry, t.right));
      }
    }
  }

  lemma {:induction false} GrandchildrenApart(t: Tree)
    requires t.Bin? && Distinct(t)
    ensures var a := t.entry.node;
            a !in Nodes(t.left) && a !in Nodes(t.right)
            && (t.right.Bin? ==>
                  var c := t.right.entry.node;
                  c != a && c !in Nodes(t.left) && c !in Nodes(t.right.left) && c !in Nodes(t.right.right)
                  && a !in Nodes(t.right.left) && a !in Nodes(t.right.right))
            && (t.left.Bin? ==>
                  var b := t.left.entry.node;
                  b != a && b !in Nodes(t.right) && b !in Nodes(t.left.left) && b !in Nodes(t.left.right)
                  && a !in Nodes(t.left.left) && a !in Nodes(t.left.right))
  {
    assert t.right.Bin? ==> Nodes(t.right) == Nodes(t.right.left) + {t.right.entry.node} + Nodes(t.right.right);
    assert t.left.Bin? ==> Nodes(t.left) == Nodes(t.left.left) + {t.left.entry.node} + Nodes(t.left.right);
  }

  /**
    From subtrees that differ by at most two, rebalancing yields an AVL tree
    whose height is that of the taller subtree, or one more.
   */
  lemma {:induction false} BalanceLeftRestores(l: Tree, e: Entry, r: Tree)
    requires Avl(l) && Avl(r) && -1 <= Height(l) - Height(r) <= 2
    ensures Avl(BalanceLeft(l, e, r))
    ensures Max(Height(l), Height(r)) <= Height(BalanceLeft(l, e, r)) <= Max(Height(l), Height(r)) + 1
    ensures Height(l) - Height(r) == 2 ==>
              (Height(BalanceLeft(l, e, r)) == Height(l) + 1 <==> Bias(l) == 0)
  {
  }

  lemma {:induction false} BalanceRightRestores(l: Tree, e: Entry, r: Tree)
    requires Avl(l) && Avl(r) && -2 <= Height(l) - Height(r) <= 1
    ensures Avl(BalanceRight(l, e, r))
    ensures Max(Height(l), Height(r)) <= Height(BalanceRight(l, e, r)) <= Max(Height(l), Height(r)) + 1
    ensures Height(l) - Height(r) == -2 ==>
              (Height(BalanceRight(l, e, r)) == Height(r) + 1 <==> Bias(r) == 0)
  {
  }

  // ---------- Insertion ----------

  function Insert(t: Tree, e: Entry): Tree {
    match t
    case Leaf => Bin(Leaf, e, Leaf)
    case Bin(l, x, r) =>
      if Less(e.key, x.key) then BalanceLeft(Insert(l, e), x, r)
      else if Less(x.key, e.key) then BalanceRight(l, x, Insert(r, e))
      else t
  }

  /**
    Insertion keeps the balance and grows a tree by at most one level.  A tree
    that grew and had a root before leans to one side, which is why the
    zero-bias case of rebalancing cannot arise on insertion.
   */
  lemma {:induction false} InsertKeepsBalance(t: Tree, e: Entry)
    requires Avl(t)
    ensures Avl(Insert(t, e))
    ensures Height(t) <= Height(Insert(t, e)) <= Height(t) + 1
    ensures t.Bin? && Height(Insert(t, e)) == Height(t) + 1 ==> Bias(Insert(t, e)) != 0
    ensures Find(t, e.key) != null ==> Insert(t, e) == t
  {
    if t.Bin? {
      if Less(e.key, t.entry.key) {
        InsertKeepsBalance(t.left, e);
        BalanceLeftRestores(Insert(t.left, e), t.entry, t.right);
      } else if Less(t.entry.key, e.key) {
        InsertKeepsBalance(t.right, e);
        BalanceRightRestores(t.left, t.entry, Insert(t.right, e));
      }
    }
  }

  /** Tree insertion is insertion at the sorted position. */
  lemma {:induction false} InsertRefinesSequence(t: Tree, e: Entry)
    requires Sorted(Inorder(t))
    ensures Inorder(Insert(t, e)) == SeqInsert(Inorder(t), e)
  {
    if t.Bin? {
      var l, x, r := t.left, t.entry, t.right;
      SortedParts(Inorder(l), x, Inorder(r));
      if Less(e.key, x.key) {
        InsertRefinesSequence(l, e);
        BalanceKeepsOrder(Insert(l, e), x, r);
        InsertLeftOf(Inorder(l), x, Inorder(r), e);
      } else if Less(x.key, e.key) {
        InsertRefinesSequence(r, e);
        BalanceKeepsOrder(l, x, Insert(r, e));
        InsertRightOf(Inorder(l), x, Inorder(r), e);
      } else {
        RankLeftOf(Inorder(l), x, Inorder(r), e.key);
      }
    }
  }

  /** The nodes of the tree after an insertion. */
  lemma {:induction false} InsertNodes(t: Tree, e: Entry)
    ensures Nodes(t) <= Nodes(Insert(t, e)) <= Nodes(t) + {e.node}
    ensures Distinct(t) && e.node !in Nodes(t) ==> Distinct(Insert(t, e))
  {
    if t.Bin? {
      if Less(e.key, t.entry.key) {
        InsertNodes(t.left, e);
        BalanceKeepsOrder(Insert(t.left, e), t.entry, t.right);
      } else if Less(t.entry.key, e.key) {
        InsertNodes(t.right, e);
        BalanceKeepsOrder(t.left, t.entry, Insert(t.right, e));
      }
    }
  }

  // ---------- Removing an extreme ----------

  function MinEntry(t: Tree): Entry
    requires t.Bin?
  {
    if t.left.Leaf? then t.entry else MinEntry(t.left)
  }

  function MaxEntry(t: Tree): Entry
    requires t.Bin?
  {
    if t.right.Leaf? then t.entry else MaxEntry(t.right)
  }

  function RemoveMin(t: Tree): Tree
    requires t.Bin?
  {
    if t.left.Leaf? then t.right else BalanceRight(RemoveMin(t.left), t.entry, t.right)
  }

  function RemoveMax(t: Tree): Tree
    requires t.Bin?
  {
    if t.right.Leaf? then t.left else BalanceLeft(t.left, t.entry, RemoveMax(t.right))
  }

  lemma {:induction false} RemoveMinKeepsBalance(t: Tree)
    requires t.Bin? && Avl(t)
    ensures Avl(RemoveMin(t)) && Height(t) - 1 <= Height(RemoveMin(t)) <= Height(t)
  {
    if t.left.Bin? {
      RemoveMinKeepsBalance(t.left);
      BalanceRightRestores(RemoveMin(t.left), t.entry, t.right);
    }
  }

  lemma {:induction false} RemoveMaxKeepsBalance(t: Tree)
    requires t.Bin? && Avl(t)
    ensures Avl(RemoveMax(t)) && Height(t) - 1 <= Height(RemoveMax(t)) <= Height(t)
  {
    if t.right.Bin? {
      RemoveMaxKeepsBalance(t.right);
      BalanceLeftRestores(t.left, t.entry, RemoveMax(t.right));
    }
  }

  lemma {:induction false} RemoveMinFacts(t: Tree)
    requires t.Bin?
    ensures Inorder(t) == [MinEntry(t)] + Inorder(RemoveMin(t))
    ensures Avl(t) ==> Avl(RemoveMin(t)) && Height(t) - 1 <= Height(RemoveMin(t)) <= Height(t)
    ensures Nodes(t) == Nodes(RemoveMin(t)) + {MinEntry(t).node}
    ensures Distinct(t) ==> Distinct(RemoveMin(t)) && MinEntry(t).node !in Nodes(RemoveMin(t))
  {
    if Avl(t) {
      RemoveMinKeepsBalance(t);
    }
    hide Avl, Height, BalanceRight;
    if t.left.Bin? {
      RemoveMinFacts(t.left);
      BalanceKeepsOrder(RemoveMin(t.left), t.entry, t.right);
      assert [MinEntry(t)] + (Inorder(RemoveMin(t.left)) + [t.entry] + Inorder(t.right))
          == [MinEntry(t)] + Inorder(RemoveMin(t.left)) + [t.entry] + Inorder(t.right);
    }
  }

  lemma {:induction false} RemoveMaxFacts(t: Tree)
    requires t.Bin?
    ensures Inorder(t) == Inorder(RemoveMax(t)) + [MaxEntry(t)]
    ensures Avl(t) ==> Avl(RemoveMax(t)) && Height(t) - 1 <= Height(RemoveMax(t)) <= Height(t)
    ensures Nodes(t) == Nodes(RemoveMax(t)) + {MaxEntry(t).node}
    ensures Distinct(t) ==> Distinct(RemoveMax(t)) && MaxEntry(t).node !in Nodes(RemoveMax(t))
  {
    if Avl(t) {
      RemoveMaxKeepsBalance(t);
    }
    hide Avl, Height, BalanceLeft;
    if t.right.Bin? {
      RemoveMaxFacts(t.right);
      BalanceKeepsOrder(t.left, t.entry, RemoveMax(t.right));
      assert Inorder(t.left) + [t.entry] + (Inorder(RemoveMax(t.right)) + [MaxEntry(t)])
          == (Inorder(t.left) + [t.entry] + Inorder(RemoveMax(t.right))) + [MaxEntry(t)];
    }
  }

  // ---------- Removing a key ----------

  /** Removing the root: the in-order predecessor takes its place. */
  function RemoveRoot(t: Tree): Tree
    requires t.Bin?
  {
    if t.left.Leaf? then t.right
    else BalanceRight(RemoveMax(t.left), MaxEntry(t.left), t.right)
  }

  function RemoveKey(t: Tree, k: Key): Tree {
    match t
    case Leaf => Leaf
    case Bin(l, x, r) =>
      if Less(k, x.key) then BalanceRight(RemoveKey(l, k), x, r)
      else if Less(x.key, k) then BalanceLeft(l, x, RemoveKey(r, k))
      else RemoveRoot(t)
  }

  /** The node that a search for `k` ends at. */
  function Find(t: Tree, k: Key): Node? {
    match t
    case Leaf => null
    case Bin(l, x, r) =>
      if Less(k, x.key) then Find(l, k)
      else if Less(x.key, k) then Find(r, k)
      else x.node
  }

  lemma {:induction false} RemoveRootFacts(t: Tree)
    requires t.Bin?
    ensures Inorder(RemoveRoot(t)) == Inorder(t.left) + Inorder(t.right)
    ensures Avl(t) ==> Avl(RemoveRoot(t)) && Height(t) - 1 <= Height(RemoveRoot(t)) <= Height(t)
    ensures Nodes(RemoveRoot(t)) == Nodes(t.left) + Nodes(t.right)
    ensures Distinct(t) ==> Distinct(RemoveRoot(t))
  {
    if t.left.Bin? {
      RemoveMaxFacts(t.left);
      BalanceKeepsOrder(RemoveMax(t.left), MaxEntry(t.left), t.right);
      if Avl(t) {
        BalanceRightRestores(RemoveMax(t.left), MaxEntry(t.left), t.right);
      }
    }
  }

  /** Removal keeps the balance; an absent key leaves the very same tree. */
  lemma {:induction false} RemoveKeyKeepsBalance(t: Tree, k: Key)
    requires Avl(t)
    ensures Avl(RemoveKey(t, k))
    ensures Height(t) - 1 <= Height(RemoveKey(t, k)) <= Height(t)
    ensures Find(t, k) == null ==> RemoveKey(t, k) == t
  {
    if t.Bin? {
      if Less(k, t.entry.key) {
        RemoveKeyKeepsBalance(t.left, k);
        BalanceRightRestores(RemoveKey(t.left, k), t.entry, t.right);
      } else if Less(t.entry.key, k) {
        RemoveKeyKeepsBalance(t.right, k);
        BalanceLeftRestores(t.left, t.entry, RemoveKey(t.right, k));
      } else {
        RemoveRootFacts(t);
      }
    }
  }

  /** Tree removal takes exactly the entry found out of the sorted sequence. */
  lemma {:induction false} RemoveKeyRefinesSequence(t: Tree, k: Key)
    requires Sorted(Inorder(t))
    ensures Inorder(RemoveKey(t, k)) == SeqRemove(Inorder(t), k)
    ensures Find(t, k) != null <==> Holds(Inorder(t), k)
    ensures Holds(Inorder(t), k) ==> Inorder(t)[Rank(Inorder(t), k)].node == Find(t, k)
  {
    if t.Bin? {
      var x, a, b := t.entry, Inorder(t.left), Inorder(t.right);
      SortedParts(a, x, b);
      hide BalanceLeft, BalanceRight, RemoveRoot, SeqRemove, Rank, Sorted;
      if Less(k, x.key) {
        RemoveKeyRefinesSequence(t.left, k);
        BalanceKeepsOrder(RemoveKey(t.left, k), x, t.right);
        RemoveLeftOf(a, x, b, k);
        RankLeftOf(a, x, b, k);
      } else if Less(x.key, k) {
        RemoveKeyRefinesSequence(t.right, k);
        BalanceKeepsOrder(t.left, x, RemoveKey(t.right, k));
        RemoveRightOf(a, x, b, k);
        RankRightOf(a, x, b, k);
      } else {
        RemoveRootRefinesSequence(t);
      }
    }
  }

  lemma {:induction false} RemoveRootRefinesSequence(t: Tree)
    requires t.Bin? && Sorted(Inorder(t))
    ensures var s, k := Inorder(t), t.entry.key;
            Inorder(RemoveRoot(t)) == SeqRemove(s, k) && Holds(s, k) && s[Rank(s, k)] == t.entry
  {
    var x, a, b := t.entry, Inorder(t.left), Inorder(t.right);
    SortedParts(a, x, b);
    RemoveRootFacts(t);
    RankLeftOf(a, x, b, x.key);
    assert (a + [x] + b)[..|a|] == a && (a + [x] + b)[|a| + 1..] == b;
  }

  lemma {:induction false} RemoveKeyNodes(t: Tree, k: Key)
    ensures Nodes(RemoveKey(t, k)) <= Nodes(t)
    ensures Find(t, k) != null ==> Find(t, k) in Nodes(t)
    ensures Distinct(t) ==> Distinct(RemoveKey(t, k)) && Nodes(RemoveKey(t, k)) == Nodes(t) - {Find(t, k)}
  {
    if t.Bin? {
      if Less(k, t.entry.key) {
        RemoveKeyNodes(t.left, k);
        BalanceKeepsOrder(RemoveKey(t.left, k), t.entry, t.right);
      } else if Less(t.entry.key, k) {
        RemoveKeyNodes(t.right, k);
        BalanceKeepsOrder(t.left, t.entry, RemoveKey(t.right, k));
      } else {
        RemoveRootFacts(t);
      }
    }
  }

  // ---------- Logarithmic height ----------

  function Fib(n: nat): nat {
    if n < 2 then n else Fib(n - 1) + Fib(n - 2)
  }

  lemma {:induction false} FibMonotone(m: nat, n: nat)
    requires m <= n
    ensures Fib(m) <= Fib(n)
    decreases n - m
  {
    if m < n {
      FibMonotone(m + 1, n);
    }
  }

  /** An AVL tree of height `h` has at least `Fib(h + 2) - 1` nodes. */
  lemma {:induction false} HeightBound(t: Tree)
    requires Avl(t)
    ensures |Inorder(t)| >= Fib(Height(t) + 2) - 1
  {
    if t.Bin? {
      HeightBound(t.left);
      HeightBound(t.right);
      var h := Height(t);
      if Height(t.left) == h - 1 {
        FibMonotone(h, Height(t.right) + 2);
      } else {
        FibMonotone(h, Height(t.left) + 2);
      }
    }
  }

  /** Fewer than 2^31 nodes never stack more than 44 levels. */
  lemma {:induction false} HeightOfIntSizedTree(t: Tree)
    requires Avl(t) && |Inorder(t)| < 0x8000_0000
    ensures Height(t) <= 44
  {
    HeightBound(t);
    if Height(t) >= 45 {
      FibBeyondInt(Height(t) + 2);
    }
  }

  lemma {:induction false} FibTenOn(n: nat)
    ensures Fib(n + 10) == 34 * Fib(n) + 55 * Fib(n + 1)
    ensures Fib(n + 11) == 55 * Fib(n) + 89 * Fib(n + 1)
  {
    assert Fib(n + 4) == 2 * Fib(n) + 3 * Fib(n + 1);
    assert Fib(n + 5) == 3 * Fib(n) + 5 * Fib(n + 1);
    assert Fib(n + 8) == 13 * Fib(n) + 21 * Fib(n + 1);
    assert Fib(n + 9) == 21 * Fib(n) + 34 * Fib(n + 1);
  }

  lemma {:induction false} FibBeyondInt(n: nat)
    requires n >= 47
    ensures Fib(n) > 0x8000_0000
  {
    FibTenOn(7);
    FibTenOn(17);
    FibTenOn(27);
    FibTenOn(37);
    FibMonotone(47, n);
  }
}
