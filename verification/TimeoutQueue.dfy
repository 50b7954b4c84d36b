/**
  The timeout queue of `timeout.c`: timers in the tree, keyed by due tick and
  sequence number.  The poll lock is held during every method here except `Arm`,
  and except around each callback, where the firing loop gives it up.
 */
module TimeoutQueue {
  import opened Keys
  import opened TimeoutNode
  import T = AvlTheory
  import A = AvlTree
  import M = SortedMap
  import TT = TimeoutTree
  import P = TimerProtocol

  /**
    What other threads and callbacks may do while the lock is free: schedule a
    new node, or the `pick`-th of the nodes at hand outside the tree, such as the
    one that has just been fired; and cancel by any key.
   */
  datatype Request =
    | ScheduleRequest(pick: nat, ticks: int, timeout: int, callback: int)
    | CancelRequest(key: Key)

  /** The clock is never negative and timeouts are positive. */
  predicate Reasonable(r: Request) {
    r.ScheduleRequest? ==> r.ticks >= 0 && r.timeout > 0
  }

  /** The queue as far as it matters to others. */
  datatype Snap = Snap(pending: set<Key>, seqno: int, procedures: map<Key, int>)

  /** What a sequence of requests does. */
  function Effect(s: Snap, reqs: seq<Request>): Snap
    decreases |reqs|
  {
    if reqs == [] then s
    else Effect(match reqs[0]
                case ScheduleRequest(_, ticks, timeout, callback) =>
                  var key := Key(s.seqno, ticks + timeout);
                  Snap(s.pending + {key}, s.seqno + 1, s.procedures[key := callback])
                case CancelRequest(key) => s.(pending := s.pending - {key}),
                reqs[1..])
  }

  function CancelsOf(reqs: seq<Request>): set<Key> {
    set r | r in reqs && r.CancelRequest? :: r.key
  }

  function CancelsIn(script: seq<seq<Request>>): set<Key> {
    set reqs, r | reqs in script && r in reqs && r.CancelRequest? :: r.key
  }

  /** What happens during the i-th callback of a pass. */
  function Part(script: seq<seq<Request>>, i: nat): seq<Request> {
    if i < |script| then script[i] else []
  }

  /** One round: the least pending timer is due and leaves, its procedure is called, and what was asked for happens. */
  ghost predicate Round(s: Snap, key: Key, called: int, reqs: seq<Request>, s': Snap, ticks: int) {
    && IsLeast(key, s.pending) && key.timestamp <= ticks
    && key in s.procedures && called == s.procedures[key]
    && s' == Effect(s.(pending := s.pending - {key}), reqs)
  }

  /** The queue before the first round, between any two, and after the last. */
  ghost predicate Traced(trace: seq<Snap>, fired: seq<Key>, calls: seq<int>, script: seq<seq<Request>>, ticks: int) {
    && |trace| == |fired| + 1 && |calls| == |fired|
    && forall i | 0 <= i < |fired| :: Round(trace[i], fired[i], calls[i], Part(script, i), trace[i + 1], ticks)
  }

  ghost predicate AllReasonable(reqs: seq<Request>) {
    forall r | r in reqs :: Reasonable(r)
  }

  ghost predicate ReasonableScript(script: seq<seq<Request>>) {
    forall reqs | reqs in script :: AllReasonable(reqs)
  }

  /** The request is a timer whose deadline was computed before the pass sampled the clock. */
  predicate DueRequest(r: Request, ticks: int) {
    r.ScheduleRequest? && r.ticks + r.timeout <= ticks
  }

  /** Keys that a queue with this sequence counter can have handed out. */
  ghost predicate FreshKeys(ks: set<Key>, seqno: int) {
    && (forall k | k in ks :: 0 <= k.id < seqno && k.timestamp > 0)
    && (forall j, k | j in ks && k in ks && j.id == k.id :: j == k)
  }

  lemma BoundGrows(nodes: set<Node>, procedures: map<Key, int>, node: Node)
    requires Bound(nodes, procedures) && forall n | n in nodes :: n.key != node.key
    ensures Bound(nodes + {node}, procedures[node.key := node.callback])
  {
  }

  lemma BoundShrinks(nodes: set<Node>, procedures: map<Key, int>, nodes': set<Node>)
    requires Bound(nodes, procedures) && nodes' <= nodes
    ensures Bound(nodes', procedures)
  {
  }

  /** Every sequence number handed out has its node on record. */
  ghost predicate Recorded(s: seq<T.Entry>, issued: map<int, Node>, seqno: int) {
    && (forall i | 0 <= i < seqno :: i in issued)
    && (forall e | e in s :: e.key.id in issued && issued[e.key.id] == e.node)
  }

  /** Nodes at hand that are not in the tree, each once; `reach` holds these and those in the tree. */
  ghost predicate Outside(spare: seq<Node>, nodes: set<Node>, reach: set<Node>) {
    && (forall n | n in spare :: n !in nodes && n in reach) && nodes <= reach
    && (forall i, j | 0 <= i < j < |spare| :: spare[i] != spare[j])
  }

  /** Every node stores the procedure that it was scheduled with. */
  ghost predicate Bound(nodes: set<Node>, procedures: map<Key, int>)
    reads nodes`key, nodes`callback
  {
    forall n | n in nodes :: n.key in procedures && n.callback == procedures[n.key]
  }

  class Queue {
    const tree: TT.Tree
    var seqno: int
    // Which node each sequence number was given to, and which procedure each key was scheduled with.
    ghost var issued: map<int, Node>
    ghost var procedures: map<Key, int>

    ghost predicate Valid()
      reads this, tree, tree.Nodes()
    {
      && tree.Valid()
      && seqno >= 0
      && FreshKeys(Pending(), seqno)
      && Recorded(tree.Contents(), issued, seqno)
      && Bound(tree.Nodes(), procedures)
    }

    ghost function Pending(): set<Key>
      reads this, tree
    {
      T.KeySet(tree.Contents())
    }

    /** The sequence number in `node` was given to it, or it was never scheduled. */
    ghost predicate OwnsItsKey(node: Node)
      reads this, node
    {
      OwnedKey(node, issued)
    }

    /** `xf_timeout_init`. */
    constructor ()
      ensures Valid() && Pending() == {} && tree.Nodes() == {} && seqno == 0
      ensures fresh(tree) && procedures == map[]
    {
      tree := new TT.Tree();
      seqno := 0;
      issued, procedures := map[], map[];
    }

    /**
      `xf_timeout_schedule`; `ticks` is the clock read before the lock is taken,
      and `wake` tells whether the poll thread is woken.
     */
    method Schedule(node: Node, ticks: int, timeout: int, callback: int) returns (wake: bool)
      requires Valid() && node !in tree.Nodes()
      requires ticks >= 0 && timeout > 0
      modifies this, tree, node, tree.Nodes()`left, tree.Nodes()`right, tree.Nodes()`height
      ensures Valid()
      ensures node.key == Key(old(seqno), ticks + timeout) && seqno == old(seqno) + 1
      ensures node.callback == callback
      ensures M.Step(old(tree.Contents()), M.InsertOp(T.Entry(node, node.key))) == (tree.Contents(), M.Inserted(true))
      ensures node.key !in old(Pending()) && Pending() == old(Pending()) + {node.key}
      ensures wake <==> IsLeast(node.key, Pending())
      ensures tree.Nodes() == old(tree.Nodes()) + {node}
      ensures issued == old(issued)[old(seqno) := node]
      ensures procedures == old(procedures)[node.key := callback]
    {
      hide *;
      assert allocated(tree.Nodes());
      Arm(node, ticks, timeout, callback);
      Enlist(node);
      wake := IsMinimum(node);
    }

    /** The part of `xf_timeout_schedule` before the lock is taken. */
    static method Arm(node: Node, ticks: int, timeout: int, callback: int)
      modifies node
      ensures node.left == null && node.right == null && node.callback == callback
      ensures node.key == Key(old(node.key.id), ticks + timeout)
    {
      node.left := null;
      node.right := null;
      node.height := 0;
      node.callback := callback;
      node.key := node.key.(timestamp := ticks + timeout);
    }

    /** The insertion of `xf_timeout_schedule`, under the lock. */
    method Enlist(node: Node)
      requires Valid() && node !in tree.Nodes()
      requires node.left == null && node.right == null && node.key.timestamp > 0
      modifies this, tree, node`left, node`right, node`height, node`key
      modifies tree.Nodes()`left, tree.Nodes()`right, tree.Nodes()`height
      ensures Valid()
      ensures node.key == Key(old(seqno), old(node.key.timestamp)) && seqno == old(seqno) + 1
      ensures M.Step(old(tree.Contents()), M.InsertOp(T.Entry(node, node.key))) == (tree.Contents(), M.Inserted(true))
      ensures node.key !in old(Pending()) && Pending() == old(Pending()) + {node.key}
      ensures tree.Nodes() == old(tree.Nodes()) + {node}
      ensures issued == old(issued)[old(seqno) := node]
      ensures procedures == old(procedures)[node.key := node.callback]
    {
      hide Valid, FreshKeys, Recorded, Bound, T.SeqInsert, T.KeySet, T.Inorder, M.Step, A.Models, TT.Good;
      ghost var s, n := tree.Contents(), seqno;
      ghost var e := T.Entry(node, Key(seqno, node.key.timestamp));
      EnlistFacts(node, e);
      assert allocated(tree.Nodes());
      ghost var nodes := tree.Nodes();
      node.key := node.key.(id := seqno);
      seqno := seqno + 1;
      issued := issued[n := node];
      BoundGrows(nodes, procedures, node);
      procedures := procedures[node.key := node.callback];
      var inserted := tree.Insert(node);
      Rebuild(T.SeqInsert(s, e));
    }

    lemma EnlistFacts(node: Node, e: T.Entry)
      requires Valid() && node !in tree.Nodes() && node.key.timestamp > 0
      requires e == T.Entry(node, Key(seqno, node.key.timestamp))
      ensures var s := tree.Contents();
              && tree.Valid() && Pending() == T.KeySet(s) && seqno >= 0 && e.key !in T.KeySet(s)
              && Bound(tree.Nodes(), procedures) && (forall n | n in tree.Nodes() :: n.key != e.key)
              && M.Step(s, M.InsertOp(e)) == (T.SeqInsert(s, e), M.Inserted(true))
              && T.KeySet(T.SeqInsert(s, e)) == T.KeySet(s) + {e.key}
              && FreshKeys(T.KeySet(T.SeqInsert(s, e)), seqno + 1)
              && Recorded(T.SeqInsert(s, e), issued[seqno := e.node], seqno + 1)
    {
      T.NodesAreEntries(tree.shape);
      forall n | n in tree.Nodes() ensures n.key in Pending() {
        MemberOwnsItsKey(n);
      }
      hide T.SeqInsert, T.KeySet, FreshKeys, Recorded, T.Sorted, T.Holds, T.NodeSet;
      FreshInsertion(tree.Contents(), e, seqno, issued);
    }

    /** The wake-up test of `xf_timeout_schedule`: did the node become the minimum? */
    method IsMinimum(node: Node) returns (yes: bool)
      requires Valid() && node in tree.Nodes()
      ensures yes <==> IsLeast(node.key, Pending())
    {
      ghost var least := IsLeast(node.key, Pending());
      MinimumIsLeast(tree.Contents(), tree.shape, node);
      var min := tree.GetMin();
      yes := min == node;
      assert yes == least;
    }

    /**
      `xf_timeout_cancel`.  It removes by key, and so it hits the node that the
      number in the key was given to, if that very key is pending.  For a node
      that owns its key, or was never armed, this is the node itself or none.  A
      node that is armed for the first time does not own its key yet: see
      `ArmedKeyHits`.
     */
    method Cancel(node: Node) returns (found: bool)
      requires Valid()
      modifies this, tree, tree.Nodes()`left, tree.Nodes()`right, tree.Nodes()`height
      ensures Valid() && seqno == old(seqno) && issued == old(issued) && procedures == old(procedures)
      ensures found <==> node.key in old(Pending())
      ensures Pending() == old(Pending()) - {node.key}
      ensures found ==>
                && node.key.id in issued && issued[node.key.id] in old(tree.Nodes())
                && tree.Nodes() == old(tree.Nodes()) - {issued[node.key.id]}
      ensures !found ==> tree.Nodes() == old(tree.Nodes())
      ensures old(OwnsItsKey(node)) ==>
                (found <==> node in old(tree.Nodes())) && tree.Nodes() == old(tree.Nodes()) - {node}
    {
      if OwnsItsKey(node) {
        OwnersKey(tree.Contents(), tree.shape, issued, seqno, node);
      }
      ghost var owned, inTree := OwnsItsKey(node), node in tree.Nodes();
      hide *;
      var removed := Remove(node.key);
      found := removed != null;
    }

    /** The removal by key under the lock. */
    method Remove(key: Key) returns (removed: Node?)
      requires Valid()
      modifies this, tree, tree.Nodes()`left, tree.Nodes()`right, tree.Nodes()`height
      ensures Valid() && seqno == old(seqno) && issued == old(issued) && procedures == old(procedures)
      ensures removed != null <==> key in old(Pending())
      ensures Pending() == old(Pending()) - {key}
      ensures removed != null ==>
                && key.id in issued && removed == issued[key.id] && removed in old(tree.Nodes())
                && tree.Nodes() == old(tree.Nodes()) - {removed}
      ensures removed == null ==> tree.Nodes() == old(tree.Nodes())
    {
      hide *;
      ghost var s := tree.Contents();
      ghost var rest := T.SeqRemove(s, key);
      RemoveFacts(key);
      ghost var nodes := tree.Nodes();
      assert allocated(nodes);
      removed := tree.Remove(key);
      assert removed == null ==> nodes - {removed} == nodes;
      BoundShrinks(nodes, procedures, tree.Nodes());
      Rebuild(rest);
    }

    /** The answer to `XF_POLLING_GET_WAIT_TIMEOUT`. */
    method GetWaitTimeout(ticks: int) returns (timeout: int)
      requires Valid()
      ensures timeout == if Pending() == {} then P.MAX_WAIT else Least(Pending()).timestamp - ticks
    {
      ghost var s := tree.Contents();
      FirstIsLeast(s, tree.shape);
      var node := tree.GetMin();
      if node == null {
        timeout := P.MAX_WAIT;
      } else {
        timeout := node.key.timestamp - ticks;
      }
    }

    /** Take the minimum out of the tree, as the firing loop does before each callback. */
    method RemoveFront(ghost front: Node)
      requires Valid() && front in tree.Nodes() && IsLeast(front.key, Pending())
      modifies this, tree, tree.Nodes()`left, tree.Nodes()`right, tree.Nodes()`height
      ensures Valid() && seqno == old(seqno) && issued == old(issued) && procedures == old(procedures)
      ensures Pending() == old(Pending()) - {front.key}
      ensures tree.Nodes() == old(tree.Nodes()) - {front}
    {
      hide *;
      ghost var s := tree.Contents();
      RemoveFrontFacts(front);
      ghost var nodes := tree.Nodes();
      assert allocated(nodes);
      tree.RemoveMin();
      BoundShrinks(nodes, procedures, tree.Nodes());
      Rebuild(s[1..]);
    }

    lemma Rebuild(s: seq<T.Entry>)
      requires tree.Valid() && tree.Contents() == s
      requires seqno >= 0 && FreshKeys(T.KeySet(s), seqno) && Recorded(s, issued, seqno)
      requires Bound(tree.Nodes(), procedures)
      ensures Valid() && Pending() == T.KeySet(s)
    {
    }

    lemma MemberIsBound(node: Node)
      requires Valid() && node in tree.Nodes()
      ensures node.key in procedures && node.callback == procedures[node.key]
    {
    }

    lemma RemoveFacts(key: Key)
      requires Valid()
      ensures var s := tree.Contents();
              && tree.Valid() && Pending() == T.KeySet(s) && seqno >= 0 && Bound(tree.Nodes(), procedures)
              && T.KeySet(T.SeqRemove(s, key)) == T.KeySet(s) - {key}
              && FreshKeys(T.KeySet(T.SeqRemove(s, key)), seqno) && Recorded(T.SeqRemove(s, key), issued, seqno)
              && (T.Holds(s, key) <==> key in T.KeySet(s))
              && (T.Holds(s, key) ==>
                    && key.id in issued && s[T.Rank(s, key)].node == issued[key.id]
                    && s[T.Rank(s, key)].node in tree.Nodes())
              && M.Step(s, M.RemoveOp(key))
                 == (T.SeqRemove(s, key), M.Found(if T.Holds(s, key) then s[T.Rank(s, key)].node else null))
    {
      RemovalFacts(tree.Contents(), tree.shape, key, issued, seqno);
    }

    lemma RemoveFrontFacts(front: Node)
      requires Valid() && front in tree.Nodes() && IsLeast(front.key, Pending())
      ensures var s := tree.Contents();
              && tree.Valid() && Pending() == T.KeySet(s) && seqno >= 0 && Bound(tree.Nodes(), procedures)
              && s != [] && s[0].node == front && M.Step(s, M.RemoveMinOp) == (s[1..], M.Done)
              && T.KeySet(s[1..]) == T.KeySet(s) - {front.key}
              && FreshKeys(T.KeySet(s[1..]), seqno) && Recorded(s[1..], issued, seqno)
    {
      FrontFacts(tree.Contents(), tree.shape, issued, seqno, front);
    }

    /** A node in the tree owns its key. */
    lemma MemberOwnsItsKey(node: Node)
      requires Valid() && node in tree.Nodes()
      ensures OwnsItsKey(node) && node.key in Pending() && node.key != Key(0, 0)
    {
      T.NodesAreEntries(tree.shape);
      A.EntriesAreStored(tree.shape);
      var e :| e in tree.Contents() && e.node == node;
      assert e.key in Pending();
    }

    lemma NothingHappened()
      requires Valid()
      ensures Interfered(Pending(), seqno, Pending(), seqno, {}, {})
    {
    }

    /** The node with the least pending key, or nothing. */
    method Peek() returns (node: Node?)
      requires Valid()
      ensures node == null <==> Pending() == {}
      ensures node != null ==> node in tree.Nodes() && node.key == Least(Pending())
    {
      T.NodesAreEntries(tree.shape);
      FirstIsLeast(tree.Contents(), tree.shape);
      node := tree.GetMin();
    }

    /** A timer is scheduled on a spare node or a new one. */
    method RunSchedule(pick: nat, ticks: int, timeout: int, callback: int, spare: seq<Node>, ghost reach: set<Node>)
      returns (spare': seq<Node>, ghost reach': set<Node>, ghost key: Key)
      requires Valid() && Outside(spare, tree.Nodes(), reach) && ticks >= 0 && timeout > 0
      modifies this, tree, reach
      ensures Valid() && Outside(spare', tree.Nodes(), reach')
      ensures forall n | n in reach' :: n in reach || fresh(n)
      ensures key == Key(old(seqno), ticks + timeout) && seqno == old(seqno) + 1
      ensures Pending() == old(Pending()) + {key}
      ensures procedures == old(procedures)[key := callback]
    {
      assert allocated(tree.Nodes());
      ghost var nodes := tree.Nodes();
      var node;
      if pick < |spare| {
        node, spare' := spare[pick], spare[..pick] + spare[pick + 1..];
        reach' := reach;
        SpareIsPicked(spare, nodes, reach, pick);
      } else {
        node := new Node(Key(0, 0));
        spare' := spare;
        reach' := reach + {node};
        NewcomerIsPicked(spare, nodes, reach, node);
      }
      hide *;
      var wake := Schedule(node, ticks, timeout, callback);
      key := node.key;
    }

    /** Another thread, or a callback, uses the free lock once; `t` is any tick to count due timers by. */
    method RunRequest(r: Request, spare: seq<Node>, ghost reach: set<Node>, ghost t: int)
      returns (spare': seq<Node>, ghost reach': set<Node>, ghost scheduled: set<Key>, ghost cancelled: set<Key>)
      requires Valid() && Reasonable(r) && Outside(spare, tree.Nodes(), reach)
      modifies this, tree, reach
      ensures Valid() && seqno >= old(seqno) && Outside(spare', tree.Nodes(), reach')
      ensures forall n | n in reach' :: n in reach || fresh(n)
      ensures Interfered(old(Pending()), old(seqno), Pending(), seqno, scheduled, cancelled)
      ensures |P.Due(Pending(), t)| <= |P.Due(old(Pending()), t)| + DueRequests([r], t)
      ensures DueRequests([r], t) == 0 ==> forall k | k in scheduled :: k.timestamp > t
      ensures r.CancelRequest? ==>
                && Pending() == old(Pending()) - {r.key} && seqno == old(seqno) && procedures == old(procedures)
                && cancelled <= {r.key}
      ensures r.ScheduleRequest? ==>
                && Pending() == old(Pending()) + {Key(old(seqno), r.ticks + r.timeout)} && seqno == old(seqno) + 1
                && procedures == old(procedures)[Key(old(seqno), r.ticks + r.timeout) := r.callback]
                && cancelled == {}
    {
      hide *;
      ghost var before, n, nodes := Pending(), seqno, tree.Nodes();
      TreeIsWithin(spare, nodes, reach);
      NothingHappened();
      OneRequest(r, t);
      match r
      case ScheduleRequest(pick, ticks, timeout, callback) =>
        ghost var key;
        spare', reach', key := RunSchedule(pick, ticks, timeout, callback, spare, reach);
        scheduled, cancelled := {key}, {};
        AddingInterferes(before, n, key);
        DueAfterAdding(before, key, t);
      case CancelRequest(key) =>
        var removed := Remove(key);
        spare' := if removed == null then spare else spare + [removed];
        if removed != null {
          SpareGrows(spare, nodes, reach, removed);
        }
        reach' := reach;
        scheduled, cancelled := {}, if removed != null then {key} else {};
        RemovingInterferes(before, n, key);
        DueAfterRemoving(before, key, t);
    }

    method RunRequests(reqs: seq<Request>, spare: seq<Node>, ghost reach: set<Node>, ghost t: int)
      returns (spare': seq<Node>, ghost reach': set<Node>, ghost scheduled: set<Key>, ghost cancelled: set<Key>)
      requires Valid() && Outside(spare, tree.Nodes(), reach) && AllReasonable(reqs)
      modifies this, tree, reach
      ensures Valid() && seqno >= old(seqno) && Outside(spare', tree.Nodes(), reach')
      ensures forall n | n in reach' :: n in reach || fresh(n)
      ensures Interfered(old(Pending()), old(seqno), Pending(), seqno, scheduled, cancelled)
      ensures |P.Due(Pending(), t)| <= |P.Due(old(Pending()), t)| + DueRequests(reqs, t)
      ensures DueRequests(reqs, t) == 0 ==> forall k | k in scheduled :: k.timestamp > t
      ensures Snap(Pending(), seqno, procedures) == Effect(old(Snap(Pending(), seqno, procedures)), reqs)
      ensures cancelled <= CancelsOf(reqs)
    {
      hide *;
      NothingHappened();
      NoRequests(t);
      spare', reach', scheduled, cancelled := spare, reach, {}, {};
      var rest := reqs;
      while rest != []
        invariant Valid() && seqno >= old(seqno) && Outside(spare', tree.Nodes(), reach')
        invariant forall n | n in reach' :: n in reach || fresh(n)
        invariant AllReasonable(rest)
        invariant Interfered(old(Pending()), old(seqno), Pending(), seqno, scheduled, cancelled)
        invariant |P.Due(Pending(), t)| + DueRequests(rest, t) <= |P.Due(old(Pending()), t)| + DueRequests(reqs, t)
        invariant DueRequests(reqs, t) == 0 ==>
                    DueRequests(rest, t) == 0 && forall k | k in scheduled :: k.timestamp > t
        invariant Effect(Snap(Pending(), seqno, procedures), rest)
                  == Effect(old(Snap(Pending(), seqno, procedures)), reqs)
        invariant cancelled + CancelsOf(rest) <= CancelsOf(reqs)
        decreases |rest|
      {
        ghost var middle, m := Pending(), seqno;
        EffectUnfolds(Snap(Pending(), seqno, procedures), rest);
        MoreRequests(rest, t);
        ghost var s, c;
        spare', reach', s, c := RunRequest(rest[0], spare', reach', t);
        InterferenceComposes(old(Pending()), old(seqno), middle, m, Pending(), seqno, scheduled, cancelled, s, c);
        scheduled, cancelled := scheduled + s, cancelled + c;
        rest := rest[1..];
      }
      EffectUnfolds(Snap(Pending(), seqno, procedures), []);
    }

    /**
      One round of the firing loop: take the minimum out, run its callback with
      the lock free, and look at the new minimum.  The callback may schedule the
      fired node again.
     */
    method FireFront(front: Node, spare: seq<Node>, ghost reach: set<Node>, ghost t: int, now: seq<Request>)
      returns (node: Node?, called: int, spare': seq<Node>, ghost reach': set<Node>,
               ghost scheduled: set<Key>, ghost cancelled: set<Key>)
      requires Valid() && Outside(spare, tree.Nodes(), reach) && AllReasonable(now)
      requires Pending() != {} && front in tree.Nodes() && front.key == Least(Pending())
      modifies this, tree, reach
      ensures Valid() && Outside(spare', tree.Nodes(), reach')
      ensures forall n | n in reach' :: n in reach || fresh(n)
      ensures node == null <==> Pending() == {}
      ensures node != null ==> node in tree.Nodes() && node.key == Least(Pending())
      ensures IsLeast(Least(old(Pending())), old(Pending()))
      ensures Interfered(old(Pending()) - {Least(old(Pending()))}, old(seqno), Pending(), seqno, scheduled, cancelled)
      ensures Least(old(Pending())).timestamp <= t ==>
                |P.Due(Pending(), t)| <= |P.Due(old(Pending()), t)| - 1 + DueRequests(now, t)
      ensures DueRequests(now, t) == 0 ==> forall k | k in scheduled :: k.timestamp > t
      ensures var key := Least(old(Pending()));
              && key in old(procedures) && called == old(front.callback) == old(procedures)[key]
              && Snap(Pending(), seqno, procedures)
                 == Effect(Snap(old(Pending()) - {key}, old(seqno), old(procedures)), now)
      ensures cancelled <= CancelsOf(now)
    {
      hide *;
      MemberIsBound(front);
      LeastIsPending(Pending());
      DueAfterRemoving(Pending(), Least(Pending()), t);
      TreeIsWithin(spare, tree.Nodes(), reach);
      SpareGrows(spare, tree.Nodes(), reach, front);
      RemoveFront(front);
      called := front.callback;
      spare', reach', scheduled, cancelled := RunRequests(now, spare + [front], reach, t);
      assert allocated(tree.Nodes());
      node := Peek();
    }

    /** The same round in the account of a pass. */
    method PassRound(front: Node, spare: seq<Node>, ghost reach: set<Node>, now: seq<Request>,
                     ghost ticks: int, ghost clean: bool,
                     ghost begin: set<Key>, ghost scheduled: set<Key>, ghost fired: seq<Key>, ghost cancelled: set<Key>)
      returns (node: Node?, called: int, spare': seq<Node>, ghost reach': set<Node>,
               ghost scheduled': set<Key>, ghost cancelled': set<Key>)
      requires Valid() && Outside(spare, tree.Nodes(), reach) && AllReasonable(now)
      requires Pending() != {} && front in tree.Nodes() && front.key == Least(Pending())
      requires front.key.timestamp <= ticks && (clean ==> DueRequests(now, ticks) == 0)
      requires Accounted(begin, scheduled, Pending(), fired, cancelled, seqno, ticks, clean)
      modifies this, tree, reach
      ensures Valid() && Outside(spare', tree.Nodes(), reach')
      ensures forall n | n in reach' :: n in reach || fresh(n)
      ensures node == null <==> Pending() == {}
      ensures node != null ==> node in tree.Nodes() && node.key == Least(Pending())
      ensures Accounted(begin, scheduled', Pending(), fired + [old(front.key)], cancelled', seqno, ticks, clean)
      ensures |P.Due(Pending(), ticks)| <= |P.Due(old(Pending()), ticks)| - 1 + DueRequests(now, ticks)
      ensures cancelled' <= cancelled + CancelsOf(now)
      ensures Round(old(Snap(Pending(), seqno, procedures)), old(front.key), called, now,
                    Snap(Pending(), seqno, procedures), ticks)
    {
      hide *;
      ghost var pending, n, key := Pending(), seqno, front.key;
      ghost var s, c;
      ghost var before := Snap(pending, n, procedures);
      node, called, spare', reach', s, c := FireFront(front, spare, reach, ticks, now);
      FiringStep(begin, scheduled, pending, fired, cancelled, n, ticks, clean, key, Pending(), s, c, seqno);
      scheduled', cancelled' := scheduled + s, cancelled + c;
      RoundHolds(before, key, called, now, Snap(Pending(), seqno, procedures), ticks);
    }

    /** The firing loop.  `calls` are the procedures called, and `trace` is the queue between the rounds. */
    method FireDue(ticks: int, script: seq<seq<Request>>, spare: seq<Node>, ghost reach: set<Node>)
      returns (fired: seq<Key>, calls: seq<int>, ghost trace: seq<Snap>,
               ghost scheduled: set<Key>, ghost cancelled: set<Key>)
      requires Valid() && Outside(spare, tree.Nodes(), reach) && ReasonableScript(script)
      modifies this, tree, reach
      ensures Valid() && (forall n | n in tree.Nodes() :: n in reach || fresh(n))
      ensures Accounted(old(Pending()), scheduled, Pending(), fired, cancelled, seqno, ticks,
                        ScriptDue(script, ticks) == 0)
      ensures Pending() != {} ==> Least(Pending()).timestamp > ticks
      ensures |fired| <= |P.Due(old(Pending()), ticks)| + ScriptDue(script, ticks)
      ensures Traced(trace, fired, calls, script, ticks) && |trace| == |fired| + 1
      ensures trace[0] == old(Snap(Pending(), seqno, procedures))
      ensures trace[|fired|] == Snap(Pending(), seqno, procedures)
      ensures cancelled <= CancelsIn(script)
    {
      hide *;
      ghost var begin, clean := Pending(), ScriptDue(script, ticks) == 0;
      KeysAreFresh();
      PassBegins(begin, seqno, ticks, clean);
      fired, calls, scheduled, cancelled := [], [], {}, {};
      trace := [Snap(Pending(), seqno, procedures)];
      TraceBegins(trace, script, ticks);
      var rest, atHand := script, spare;
      ghost var within := reach;
      assert allocated(tree.Nodes());
      var node := Peek();
      while node != null && node.key.timestamp <= ticks
        invariant Valid() && Outside(atHand, tree.Nodes(), within)
        invariant forall n | n in within :: n in reach || fresh(n)
        invariant node == null <==> Pending() == {}
        invariant node != null ==> node in tree.Nodes() && node.key == Least(Pending())
        invariant Accounted(begin, scheduled, Pending(), fired, cancelled, seqno, ticks, clean)
        invariant ReasonableScript(rest) && rest == PartsFrom(script, |fired|)
        invariant |fired| + |P.Due(Pending(), ticks)| + ScriptDue(rest, ticks)
                  <= |P.Due(begin, ticks)| + ScriptDue(script, ticks)
        invariant clean ==> ScriptDue(rest, ticks) == 0
        invariant Traced(trace, fired, calls, script, ticks) && |trace| == |fired| + 1
        invariant trace[0] == old(Snap(Pending(), seqno, procedures))
        invariant trace[|fired|] == Snap(Pending(), seqno, procedures)
        invariant cancelled <= CancelsIn(script)
        decreases |P.Due(Pending(), ticks)| + ScriptDue(rest, ticks)
      {
        var key := node.key;
        MoreScript(rest, ticks);
        NextPart(script, |fired|);
        var called;
        node, called, atHand, within, scheduled, cancelled :=
          PassRound(node, atHand, within, Now(rest), ticks, clean, begin, scheduled, fired, cancelled);
        TraceGrows(trace, fired, calls, script, ticks, key, called, Snap(Pending(), seqno, procedures));
        trace := trace + [Snap(Pending(), seqno, procedures)];
        fired, calls, rest := fired + [key], calls + [called], Later(rest);
      }
      TreeIsWithin(atHand, tree.Nodes(), within);
    }

    lemma KeysAreFresh()
      requires Valid()
      ensures FreshKeys(Pending(), seqno)
    {
    }

    /**
      `XF_POLLING_PROCESS`: fire every timer due at the sampled clock.  The lock
      is free during each callback, when the next part of `script` happens; it may
      use the nodes in `spare`, and those that leave the tree meanwhile.
     */
    method ProcessPass(ticks: int, script: seq<seq<Request>>, spare: seq<Node>, ghost reach: set<Node>)
      returns (fired: seq<Key>, calls: seq<int>, ghost trace: seq<Snap>,
               ghost scheduled: set<Key>, ghost cancelled: set<Key>)
      requires Valid() && Outside(spare, tree.Nodes(), reach) && ReasonableScript(script)
      modifies this, tree, reach
      ensures Valid() && (forall n | n in tree.Nodes() :: n in reach || fresh(n))
      // Nothing due is left, and nothing is fired early or twice.
      ensures P.Due(Pending(), ticks) == {}
      ensures forall k | k in fired :: k.timestamp <= ticks
      ensures forall i, j | 0 <= i < j < |fired| :: fired[i] != fired[j]
      // Every timer is accounted for exactly once: all that was due is fired, but what somebody asked to cancel.
      ensures old(Pending()) + scheduled == Pending() + KeysOf(fired) + cancelled
      ensures Pending() !! KeysOf(fired) !! cancelled
      ensures cancelled <= CancelsIn(script)
      ensures KeysOf(fired) == P.Due(old(Pending()) + scheduled, ticks) - cancelled
      // Each round fires the least timer, calls its procedure, and lets the next part of the script happen.
      ensures Traced(trace, fired, calls, script, ticks) && |trace| == |fired| + 1
      ensures trace[0] == old(Snap(Pending(), seqno, procedures))
      ensures trace[|fired|] == Snap(Pending(), seqno, procedures)
      // Without latecomers whose deadline predates the sample, firing follows the key order.
      ensures ScriptDue(script, ticks) == 0 ==> forall i, j | 0 <= i < j < |fired| :: Less(fired[i], fired[j])
      ensures |fired| <= |P.Due(old(Pending()), ticks)| + ScriptDue(script, ticks)
    {
      hide *;
      fired, calls, trace, scheduled, cancelled := FireDue(ticks, script, spare, reach);
      PassEnds(old(Pending()), scheduled, Pending(), fired, cancelled, seqno, ticks, ScriptDue(script, ticks) == 0);
    }
  }

  // ---------- What happens in a round ----------

  lemma {:induction false} EffectUnfolds(s: Snap, reqs: seq<Request>)
    ensures reqs == [] ==> Effect(s, reqs) == s
    ensures reqs != [] && reqs[0].ScheduleRequest? ==>
              var key := Key(s.seqno, reqs[0].ticks + reqs[0].timeout);
              Effect(s, reqs)
              == Effect(Snap(s.pending + {key}, s.seqno + 1, s.procedures[key := reqs[0].callback]), reqs[1..])
    ensures reqs != [] && reqs[0].CancelRequest? ==>
              Effect(s, reqs) == Effect(s.(pending := s.pending - {reqs[0].key}), reqs[1..])
    ensures reqs != [] ==>
              CancelsOf(reqs) == (if reqs[0].CancelRequest? then {reqs[0].key} else {}) + CancelsOf(reqs[1..])
    ensures reqs == [] ==> CancelsOf(reqs) == {}
  {
  }

  lemma {:induction false} RoundHolds(s: Snap, key: Key, called: int, reqs: seq<Request>, s': Snap, ticks: int)
    requires IsLeast(key, s.pending) && key.timestamp <= ticks && key in s.procedures && called == s.procedures[key]
    requires s' == Effect(Snap(s.pending - {key}, s.seqno, s.procedures), reqs)
    ensures Round(s, key, called, reqs, s', ticks)
  {
  }

  lemma {:induction false} TraceBegins(trace: seq<Snap>, script: seq<seq<Request>>, ticks: int)
    requires |trace| == 1
    ensures Traced(trace, [], [], script, ticks) && PartsFrom(script, 0) == script
  {
  }

  lemma {:induction false} TraceGrows(trace: seq<Snap>, fired: seq<Key>, calls: seq<int>, script: seq<seq<Request>>,
                                      ticks: int, key: Key, called: int, s': Snap)
    requires Traced(trace, fired, calls, script, ticks) && |trace| == |fired| + 1
    requires Round(trace[|fired|], key, called, Part(script, |fired|), s', ticks)
    ensures Traced(trace + [s'], fired + [key], calls + [called], script, ticks)
  {
    var n := |fired|;
    forall i | 0 <= i < n + 1
      ensures Round((trace + [s'])[i], (fired + [key])[i], (calls + [called])[i],
                    Part(script, i), (trace + [s'])[i + 1], ticks)
    {
      if i < n {
        assert Round(trace[i], fired[i], calls[i], Part(script, i), trace[i + 1], ticks);
      }
    }
  }

  function PartsFrom(script: seq<seq<Request>>, i: nat): seq<seq<Request>> {
    if i <= |script| then script[i..] else []
  }

  lemma {:induction false} NextPart(script: seq<seq<Request>>, i: nat)
    ensures Now(PartsFrom(script, i)) == Part(script, i) && Later(PartsFrom(script, i)) == PartsFrom(script, i + 1)
    ensures CancelsOf(Part(script, i)) <= CancelsIn(script)
  {
  }

  // ---------- Nodes outside the tree ----------

  lemma {:induction false} TreeIsWithin(spare: seq<Node>, nodes: set<Node>, reach: set<Node>)
    requires Outside(spare, nodes, reach)
    ensures nodes <= reach
  {
  }

  lemma {:induction false} SpareIsPicked(spare: seq<Node>, nodes: set<Node>, reach: set<Node>, i: nat)
    requires Outside(spare, nodes, reach) && i < |spare|
    ensures spare[i] !in nodes && spare[i] in reach
    ensures Outside(spare[..i] + spare[i + 1..], nodes + {spare[i]}, reach)
  {
    var rest := spare[..i] + spare[i + 1..];
    forall j | 0 <= j < |rest| ensures rest[j] == spare[if j < i then j else j + 1] {
    }
  }

  lemma {:induction false} NewcomerIsPicked(spare: seq<Node>, nodes: set<Node>, reach: set<Node>, node: Node)
    requires Outside(spare, nodes, reach) && node !in reach
    ensures node !in nodes && Outside(spare, nodes + {node}, reach + {node})
  {
  }

  lemma {:induction false} SpareGrows(spare: seq<Node>, nodes: set<Node>, reach: set<Node>, node: Node)
    requires Outside(spare, nodes, reach) && node in nodes
    ensures Outside(spare + [node], nodes - {node}, reach)
  {
  }

  // ---------- Accounting for a pass ----------

  function KeysOf(s: seq<Key>): set<Key> {
    set k | k in s
  }

  function DueRequests(reqs: seq<Request>, t: int): nat {
    if reqs == [] then 0 else (if DueRequest(reqs[0], t) then 1 else 0) + DueRequests(reqs[1..], t)
  }

  lemma {:induction false} OneRequest(r: Request, t: int)
    ensures DueRequests([r], t) == if DueRequest(r, t) then 1 else 0
    ensures DueRequest(r, t) <==> r.ScheduleRequest? && r.ticks + r.timeout <= t
    ensures Reasonable(r) && r.ScheduleRequest? ==> r.ticks >= 0 && r.timeout > 0
  {
  }

  lemma {:induction false} NoRequests(t: int)
    ensures DueRequests([], t) == 0 && ScriptDue([], t) == 0
  {
  }

  lemma {:induction false} MoreRequests(reqs: seq<Request>, t: int)
    requires reqs != []
    ensures DueRequests(reqs, t) == DueRequests([reqs[0]], t) + DueRequests(reqs[1..], t)
    ensures AllReasonable(reqs) ==> Reasonable(reqs[0]) && AllReasonable(reqs[1..])
  {
  }

  /** How many timers in the script carry a deadline that predates the sampled clock. */
  function ScriptDue(script: seq<seq<Request>>, t: int): nat {
    if script == [] then 0 else DueRequests(script[0], t) + ScriptDue(script[1..], t)
  }

  /** How pending timers may change while the lock is free. */
  ghost predicate Interfered(pending: set<Key>, seqno: int, pending': set<Key>, seqno': int,
                             scheduled: set<Key>, cancelled: set<Key>)
  {
    && seqno <= seqno'
    && (forall k | k in pending :: k.id < seqno)
    && (forall k | k in scheduled :: seqno <= k.id < seqno')
    && pending + scheduled == pending' + cancelled && pending' !! cancelled
  }

  lemma {:induction false} AddingInterferes(pending: set<Key>, seqno: int, k: Key)
    requires Interfered(pending, seqno, pending, seqno, {}, {}) && k.id == seqno
    ensures Interfered(pending, seqno, pending + {k}, seqno + 1, {k}, {})
  {
  }

  lemma {:induction false} RemovingInterferes(pending: set<Key>, seqno: int, k: Key)
    requires Interfered(pending, seqno, pending, seqno, {}, {})
    ensures Interfered(pending, seqno, pending - {k}, seqno, {}, if k in pending then {k} else {})
  {
  }

  lemma {:induction false} InterferenceComposes(p0: set<Key>, n0: int, p1: set<Key>, n1: int, p2: set<Key>, n2: int,
                                                s1: set<Key>, c1: set<Key>, s2: set<Key>, c2: set<Key>)
    requires Interfered(p0, n0, p1, n1, s1, c1) && Interfered(p1, n1, p2, n2, s2, c2)
    ensures Interfered(p0, n0, p2, n2, s1 + s2, c1 + c2)
  {
    forall k | k in c1 ensures k !in p2 && k.id < n1 {
      assert k in p0 + s1;
    }
  }

  /** Where every timer of a pass is: still pending, fired, or cancelled. */
  ghost predicate Accounted(begin: set<Key>, scheduled: set<Key>, pending: set<Key>, fired: seq<Key>,
                            cancelled: set<Key>, seqno: int, ticks: int, clean: bool)
  {
    && begin + scheduled == pending + KeysOf(fired) + cancelled
    && pending !! KeysOf(fired) !! cancelled
    && (forall k | k in begin + scheduled :: k.id < seqno)
    && (forall k | k in fired :: k.timestamp <= ticks)
    && (forall i, j | 0 <= i < j < |fired| :: fired[i] != fired[j])
    && (clean ==>
          && (forall i, j | 0 <= i < j < |fired| :: Less(fired[i], fired[j]))
          && (forall f, k | f in fired && k in pending :: Less(f, k)))
  }

  /** One round of the firing loop keeps the account. */
  lemma {:induction false} FiringStep(begin: set<Key>, scheduled: set<Key>, pending: set<Key>, fired: seq<Key>,
                                      cancelled: set<Key>, seqno: int, ticks: int, clean: bool,
                                      m: Key, pending': set<Key>, s: set<Key>, c: set<Key>, seqno': int)
    requires Accounted(begin, scheduled, pending, fired, cancelled, seqno, ticks, clean)
    requires IsLeast(m, pending) && m.timestamp <= ticks
    requires Interfered(pending - {m}, seqno, pending', seqno', s, c)
    requires clean ==> forall k | k in s :: k.timestamp > ticks
    ensures Accounted(begin, scheduled + s, pending', fired + [m], cancelled + c, seqno', ticks, clean)
  {
    var fired' := fired + [m];
    assert KeysOf(fired') == KeysOf(fired) + {m};
    assert forall k | k in KeysOf(fired) + cancelled + pending :: k in begin + scheduled;
    forall i, j | 0 <= i < j < |fired'|
      ensures fired'[i] != fired'[j]
      ensures clean ==> Less(fired'[i], fired'[j])
    {
      assert fired'[i] == fired[i] && fired[i] in KeysOf(fired);
      if j < |fired| {
        assert fired'[j] == fired[j];
      }
    }
  }

  lemma {:induction false} LeastIsPending(ks: set<Key>)
    requires ks != {}
    ensures Least(ks) in ks && IsLeast(Least(ks), ks)
  {
  }

  lemma {:induction false} PassBegins(pending: set<Key>, seqno: int, ticks: int, clean: bool)
    requires FreshKeys(pending, seqno)
    ensures Accounted(pending, {}, pending, [], {}, seqno, ticks, clean)
  {
  }

  /** What happens during the next callback, and during those after it. */
  function Now(script: seq<seq<Request>>): seq<Request> {
    if script == [] then [] else script[0]
  }

  function Later(script: seq<seq<Request>>): seq<seq<Request>> {
    if script == [] then [] else script[1..]
  }

  lemma {:induction false} MoreScript(script: seq<seq<Request>>, t: int)
    ensures ScriptDue(script, t) == DueRequests(Now(script), t) + ScriptDue(Later(script), t)
    ensures ReasonableScript(script) ==> AllReasonable(Now(script)) && ReasonableScript(Later(script))
  {
  }

  /** What the account says once the least pending timer is not due. */
  lemma {:induction false} PassEnds(begin: set<Key>, scheduled: set<Key>, pending: set<Key>, fired: seq<Key>,
                                    cancelled: set<Key>, seqno: int, ticks: int, clean: bool)
    requires Accounted(begin, scheduled, pending, fired, cancelled, seqno, ticks, clean)
    requires pending != {} ==> Least(pending).timestamp > ticks
    ensures P.Due(pending, ticks) == {}
    ensures forall k | k in fired :: k.timestamp <= ticks
    ensures forall i, j | 0 <= i < j < |fired| :: fired[i] != fired[j]
    ensures begin + scheduled == pending + KeysOf(fired) + cancelled
    ensures pending !! KeysOf(fired) !! cancelled
    ensures KeysOf(fired) == P.Due(begin + scheduled, ticks) - cancelled
    ensures clean ==> forall i, j | 0 <= i < j < |fired| :: Less(fired[i], fired[j])
  {
  }

  lemma {:induction false} DueAfterAdding(ks: set<Key>, k: Key, t: int)
    ensures |P.Due(ks + {k}, t)| <= |P.Due(ks, t)| + (if k.timestamp <= t then 1 else 0)
  {
    assert P.Due(ks + {k}, t) == if k.timestamp <= t then P.Due(ks, t) + {k} else P.Due(ks, t);
  }

  lemma {:induction false} DueAfterRemoving(ks: set<Key>, k: Key, t: int)
    ensures |P.Due(ks - {k}, t)| <= |P.Due(ks, t)|
    ensures k in ks && k.timestamp <= t ==> |P.Due(ks - {k}, t)| == |P.Due(ks, t)| - 1
  {
    assert P.Due(ks - {k}, t) == P.Due(ks, t) - {k};
  }

  /** A key with the next sequence number is new, so inserting it always succeeds. */
  lemma {:induction false} FreshInsertion(s: seq<T.Entry>, e: T.Entry, seqno: int, issued: map<int, Node>)
    requires T.Sorted(s) && FreshKeys(T.KeySet(s), seqno) && Recorded(s, issued, seqno)
    requires e.node !in T.NodeSet(s)
    requires e.key.id == seqno >= 0 && e.key.timestamp > 0
    ensures e.key !in T.KeySet(s) && !T.Holds(s, e.key)
    ensures T.Sorted(T.SeqInsert(s, e)) && T.KeySet(T.SeqInsert(s, e)) == T.KeySet(s) + {e.key}
    ensures FreshKeys(T.KeySet(T.SeqInsert(s, e)), seqno + 1)
    ensures Recorded(T.SeqInsert(s, e), issued[seqno := e.node], seqno + 1)
  {
    NewNumberIsFresh(T.KeySet(s), e.key);
    T.HoldsIsMembership(s, e.key);
    T.SeqInsertIsMapUpdate(s, e);
    RecordsGrow(s, e, seqno, issued);
  }

  lemma {:induction false} NewNumberIsFresh(ks: set<Key>, k: Key)
    requires FreshKeys(ks, k.id) && k.id >= 0 && k.timestamp > 0
    ensures k !in ks && FreshKeys(ks + {k}, k.id + 1)
  {
  }

  lemma {:induction false} RecordsGrow(s: seq<T.Entry>, e: T.Entry, seqno: int, issued: map<int, Node>)
    requires FreshKeys(T.KeySet(s), seqno) && Recorded(s, issued, seqno) && e.key.id == seqno
    ensures Recorded(T.SeqInsert(s, e), issued[seqno := e.node], seqno + 1)
  {
    var issued' := issued[seqno := e.node];
    forall x | x in T.SeqInsert(s, e) ensures x.key.id in issued' && issued'[x.key.id] == x.node {
      if x in s {
        assert x.key in T.KeySet(s);
      }
    }
  }

  /** The first entry belongs to a given node exactly if that node has the least key. */
  lemma {:induction false} MinimumIsLeast(s: seq<T.Entry>, t: T.Tree, node: Node)
    requires T.Sorted(s) && s == T.Inorder(t) && A.Models(T.Root(t), t) && node in T.Nodes(t)
    ensures M.First(s) == node <==> IsLeast(node.key, T.KeySet(s))
  {
    T.NodesAreEntries(t);
    var e :| e in s && e.node == node;
    A.EntriesAreStored(t);
    M.ExtremesOfSorted(s);
    if M.First(s) == node {
      assert s[0] in s;
    }
    if IsLeast(node.key, T.KeySet(s)) {
      LeastUnique(T.KeySet(s), node.key, s[0].key);
      T.HoldsIsMembership(s, node.key);
    }
  }

  /** The node at the front stores the least pending key. */
  lemma {:induction false} FirstIsLeast(s: seq<T.Entry>, t: T.Tree)
    requires T.Sorted(s) && s == T.Inorder(t) && A.Models(T.Root(t), t)
    ensures s == [] <==> T.KeySet(s) == {}
    ensures M.First(s) == null <==> s == []
    ensures s != [] ==> s[0].key == s[0].node.key == Least(T.KeySet(s))
  {
    if s != [] {
      assert s[0] in s;
      A.EntriesAreStored(t);
      M.ExtremesOfSorted(s);
    }
  }

  lemma {:induction false} RemovalFacts(s: seq<T.Entry>, t: T.Tree, k: Key, issued: map<int, Node>, seqno: int)
    requires T.Sorted(s) && s == T.Inorder(t)
    requires FreshKeys(T.KeySet(s), seqno) && Recorded(s, issued, seqno)
    ensures T.KeySet(T.SeqRemove(s, k)) == T.KeySet(s) - {k}
    ensures FreshKeys(T.KeySet(T.SeqRemove(s, k)), seqno) && Recorded(T.SeqRemove(s, k), issued, seqno)
    ensures T.Holds(s, k) <==> k in T.KeySet(s)
    ensures T.Holds(s, k) ==>
              && k.id in issued && s[T.Rank(s, k)].node == issued[k.id]
              && s[T.Rank(s, k)].node in T.Nodes(t)
    ensures M.Step(s, M.RemoveOp(k)).0 == T.SeqRemove(s, k)
    ensures M.Step(s, M.RemoveOp(k)).1 == M.Found(if T.Holds(s, k) then s[T.Rank(s, k)].node else null)
  {
    T.SeqRemoveIsMapRemove(s, k);
    T.HoldsIsMembership(s, k);
    T.NodesAreEntries(t);
    if T.Holds(s, k) {
      assert s[T.Rank(s, k)] in s;
    }
  }

  lemma {:induction false} FrontFacts(s: seq<T.Entry>, t: T.Tree, issued: map<int, Node>, seqno: int, front: Node)
    requires T.Sorted(s) && s == T.Inorder(t) && A.Models(T.Root(t), t)
    requires FreshKeys(T.KeySet(s), seqno) && Recorded(s, issued, seqno)
    requires front in T.Nodes(t) && IsLeast(front.key, T.KeySet(s))
    ensures s != [] && s[0].node == front && M.Step(s, M.RemoveMinOp) == (s[1..], M.Done)
    ensures T.KeySet(s[1..]) == T.KeySet(s) - {front.key}
    ensures FreshKeys(T.KeySet(s[1..]), seqno) && Recorded(s[1..], issued, seqno)
  {
    FrontIsFirst(s, t, front);
    hide *;
    M.CutsAreRemovals(s);
    RemovalFacts(s, t, s[0].key, issued, seqno);
  }

  lemma {:induction false} FrontIsFirst(s: seq<T.Entry>, t: T.Tree, front: Node)
    requires T.Sorted(s) && s == T.Inorder(t) && A.Models(T.Root(t), t)
    requires front in T.Nodes(t) && IsLeast(front.key, T.KeySet(s))
    ensures s != [] && s[0].node == front && s[0].key == front.key
    ensures M.Step(s, M.RemoveMinOp) == (s[1..], M.Done)
  {
    MinimumIsLeast(s, t, front);
    FirstIsLeast(s, t);
  }

  /** The number in the node's key was given to it, or the key is still zero. */
  ghost predicate OwnedKey(node: Node, issued: map<int, Node>)
    reads node
  {
    node.key == Key(0, 0) || (node.key.id in issued && issued[node.key.id] == node)
  }

  /** A node that owns its key is in the tree exactly if its key is. */
  lemma {:induction false} OwnersKey(s: seq<T.Entry>, t: T.Tree, issued: map<int, Node>, seqno: int, node: Node)
    requires T.Sorted(s) && s == T.Inorder(t) && A.Models(T.Root(t), t)
    requires FreshKeys(T.KeySet(s), seqno) && Recorded(s, issued, seqno) && OwnedKey(node, issued)
    ensures node.key in T.KeySet(s) <==> node in T.Nodes(t)
    ensures node in T.Nodes(t) ==> node.key.id in issued && issued[node.key.id] == node
  {
    T.NodesAreEntries(t);
    A.EntriesAreStored(t);
    if node in T.Nodes(t) {
      var e :| e in s && e.node == node;
      assert e.key in T.KeySet(s);
    }
    if node.key in T.KeySet(s) {
      var e :| e in s && e.key == node.key;
      assert e.node == node;
    }
  }

  /**
    What searching for a node's key finds: the node that the number in the key
    was given to, if that very key is pending, and otherwise nothing.  So it finds
    another node than its own if and only if the key is pending and not owned.
   */
  lemma {:induction false} CancelHitsOwner(s: seq<T.Entry>, t: T.Tree, issued: map<int, Node>, seqno: int, node: Node)
    requires T.Sorted(s) && s == T.Inorder(t) && A.Models(T.Root(t), t)
    requires FreshKeys(T.KeySet(s), seqno) && Recorded(s, issued, seqno)
    ensures T.Holds(s, node.key) <==> node.key in T.KeySet(s)
    ensures T.Holds(s, node.key) ==> node.key.id in issued && s[T.Rank(s, node.key)].node == issued[node.key.id]
    ensures (T.Holds(s, node.key) && s[T.Rank(s, node.key)].node != node)
            <==> (node.key in T.KeySet(s) && !OwnedKey(node, issued))
  {
    RemovalFacts(s, t, node.key, issued, seqno);
  }

  /**
    A node that is armed for the first time and has no number yet carries the
    number zero.  Searching for its key finds something exactly if the first timer
    ever scheduled is still pending and has the same deadline; it finds that timer.
   */
  lemma {:induction false} ArmedKeyHits(s: seq<T.Entry>, t: T.Tree, issued: map<int, Node>, seqno: int, node: Node)
    requires T.Sorted(s) && s == T.Inorder(t) && A.Models(T.Root(t), t)
    requires FreshKeys(T.KeySet(s), seqno) && Recorded(s, issued, seqno)
    requires node !in T.Nodes(t) && node.key.id == 0
    ensures T.Holds(s, node.key)
            <==> 0 in issued && issued[0] in T.Nodes(t) && issued[0].key == node.key
    ensures T.Holds(s, node.key) ==> s[T.Rank(s, node.key)].node == issued[0] != node
  {
    RemovalFacts(s, t, node.key, issued, seqno);
    T.NodesAreEntries(t);
    A.EntriesAreStored(t);
    if T.Holds(s, node.key) {
      var e := s[T.Rank(s, node.key)];
      assert e in s && e.node == issued[0];
    }
    if 0 in issued && issued[0] in T.Nodes(t) && issued[0].key == node.key {
      var e :| e in s && e.node == issued[0];
      assert e.key in T.KeySet(s);
    }
  }

  /** The shortest case: the second node is cancelled while it is armed, and the first one is taken out. */
  method CancelWhileArmed(ticks: int, timeout: int) returns (queue: Queue, first: Node, second: Node, found: bool)
    requires ticks >= 0 && timeout > 0
    ensures queue.Valid() && first != second && found && queue.Pending() == {}
    ensures second.key == first.key
  {
    hide *;
    queue := new Queue();
    first := new Node(Key(0, 0));
    second := new Node(Key(0, 0));
    var wake := queue.Schedule(first, ticks, timeout, 0);
    assert queue.Pending() == {first.key};
    Queue.Arm(second, ticks, timeout, 0);
    found := queue.Cancel(second);
  }
}
