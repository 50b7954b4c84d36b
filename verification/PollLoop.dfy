/**
  The poll thread and its callers at work on the real queue: every method is
  one step of `TimerProtocol`, taken on the tree of nodes.  The ghost `state`
  is the protocol state that the queue stands for.
 */
module PollLoop {
  import opened Keys
  import opened TimeoutNode
  import P = TimerProtocol
  import TQ = TimeoutQueue

  function Min(a: int, b: int): int {
    if a > b then b else a
  }

  class Poller {
    const queue: TQ.Queue
    ghost var state: P.State

    ghost predicate Valid()
      reads this, queue, queue.tree, queue.tree.Nodes()
    {
      && queue.Valid()
      && state.pending == queue.Pending() && state.seqno == queue.seqno
      && P.Inv(state)
    }

    constructor (now: int)
      requires now >= 0
      ensures Valid() && P.Init(state) && state.clock == now
      ensures fresh(queue) && fresh(queue.tree) && queue.tree.Nodes() == {}
    {
      queue := new TQ.Queue();
      state := P.State(now, {}, 0, map[], P.Waking, {}, multiset{}, multiset{});
      new;
      P.InitEstablishesInv(state);
    }

    /** The clock moves on. */
    ghost method Tick(ticks: int)
      requires Valid() && ticks >= state.clock
      modifies this
      ensures Valid() && P.Next(old(state), P.Tick(ticks), state)
    {
      var s := state;
      assert allocated(queue.tree.Nodes());
      state := s.(clock := ticks);
      P.NextKeepsInv(s, P.Tick(ticks), state);
    }

    /** Scheduling, outside the lock: the deadline is computed from the clock. */
    method Arm(who: int, node: Node, timeout: int, ticks: int, callback: int)
      requires Valid() && node !in queue.tree.Nodes()
      requires ticks == state.clock && timeout > 0 && who !in state.armed
      modifies this, node
      ensures Valid() && P.Next(old(state), P.Arm(who, node.key.timestamp), state)
      ensures node.left == null && node.right == null && node.callback == callback
      ensures node.key == Key(old(node.key.id), ticks + timeout)
    {
      assert allocated(queue.tree.Nodes());
      TQ.Queue.Arm(node, ticks, timeout, callback);
      assert queue.tree.Valid();
      ghost var before := state;
      state := state.(armed := state.armed[who := node.key.timestamp]);
      P.NextKeepsInv(before, P.Arm(who, node.key.timestamp), state);
    }

    /** Scheduling, under the lock: `xf_poll_wakeup` if the node became the minimum. */
    method Enlist(who: int, node: Node) returns (wake: bool)
      requires Valid() && P.LockFree(state) && node !in queue.tree.Nodes()
      requires node.left == null && node.right == null
      requires who in state.armed && state.armed[who] == node.key.timestamp
      modifies this, queue, queue.tree, node`left, node`right, node`height, node`key
      modifies queue.tree.Nodes()`left, queue.tree.Nodes()`right, queue.tree.Nodes()`height
      ensures Valid() && P.Next(old(state), P.Enlist(who, node.key), state)
      ensures queue.tree.Nodes() == old(queue.tree.Nodes()) + {node}
      ensures wake <==> IsLeast(node.key, queue.Pending())
      ensures state.poll == if wake && old(state).poll.Sleeping? then old(state).poll.(signalled := true)
                            else old(state).poll
    {
      ghost var s := state;
      ghost var pending := queue.Pending() + {Key(queue.seqno, node.key.timestamp)};
      queue.Enlist(node);
      assert allocated(queue.tree.Nodes());
      wake := queue.IsMinimum(node);
      ghost var poll := if wake && s.poll.Sleeping? then s.poll.(signalled := true) else s.poll;
      state := s.(pending := pending, seqno := s.seqno + 1, issued := s.issued + {node.key},
                  armed := s.armed - {who}, poll := poll);
      P.NextKeepsInv(s, P.Enlist(who, node.key), state);
    }

    method Cancel(node: Node) returns (found: bool)
      requires Valid() && P.LockFree(state)
      modifies this, queue, queue.tree
      modifies queue.tree.Nodes()`left, queue.tree.Nodes()`right, queue.tree.Nodes()`height
      ensures Valid() && P.Next(old(state), P.Cancel(node.key, found), state)
      ensures found <==> node.key in old(queue.Pending())
      ensures queue.Pending() == old(queue.Pending()) - {node.key} && state.poll == old(state).poll
    {
      ghost var s := state;
      found := queue.Cancel(node);
      state := s.(pending := queue.Pending(),
                  cancelled := if found then s.cancelled + multiset{node.key} else s.cancelled);
      P.NextKeepsInv(s, P.Cancel(node.key, found), state);
    }

    /** `xf_poll_get_wait_timeout`: the least answer of the registered procedures, capped. */
    static method MinWait(answers: seq<int>) returns (min: int)
      ensures min == P.MAX_WAIT || min in answers
      ensures min <= P.MAX_WAIT
      ensures forall a | a in answers :: min <= a
    {
      min := P.MAX_WAIT;
      for i := 0 to |answers|
        invariant min == P.MAX_WAIT || min in answers
        invariant min <= P.MAX_WAIT
        invariant forall a | a in answers[..i] :: min <= a
      {
        assert answers[..i + 1] == answers[..i] + [answers[i]];
        if min > answers[i] {
          min := answers[i];
        }
      }
      assert answers[..|answers|] == answers;
    }

    /** One turn of `xf_poll_loop`: sleep for the returned time, or go on to fire. */
    method Decide(ticks: int) returns (timeout: int)
      requires Valid() && state.poll.Deciding? && ticks == state.clock
      modifies this
      ensures Valid() && P.Next(old(state), P.PollMove, state)
      ensures timeout > 0 <==> state.poll.Sleeping?
      ensures timeout > 0 ==> state.poll == P.Sleeping(ticks + timeout, false)
      ensures timeout > 0 <==> P.Due(state.pending, ticks) == {}
      ensures forall k | k in state.pending :: ticks + timeout <= k.timestamp
      ensures timeout <= P.MAX_WAIT
      ensures timeout < P.MAX_WAIT ==> (exists k :: k in state.pending && k.timestamp == ticks + timeout)
      ensures forall d | P.Admissible(state, d) :: d <= ticks + timeout
    {
      ghost var s := state;
      assert allocated(queue.tree.Nodes());
      var answer := queue.GetWaitTimeout(ticks);
      timeout := MinWait([answer]);
      assert timeout == Min(answer, P.MAX_WAIT) by {
        assert answer in [answer];
      }
      assert timeout == P.WaitTimeout(s.pending, ticks);
      state := s.(poll := if timeout > 0 then P.Sleeping(ticks + timeout, false) else P.Committed);
      P.NextKeepsInv(s, P.PollMove, state);
      P.WaitIsExact(s, state);
    }

    /** One round of the firing loop up to the point where the lock is given up, or the end of the pass. */
    method FireOrFinish(ticks: int) returns (node: Node?)
      requires Valid() && state.poll.Firing? && state.poll.sample == ticks
      modifies this, queue, queue.tree
      modifies queue.tree.Nodes()`left, queue.tree.Nodes()`right, queue.tree.Nodes()`height
      ensures Valid()
      ensures node != null ==>
                && P.Next(old(state), P.Fire(node.key), state)
                && IsLeast(node.key, old(queue.Pending())) && node.key.timestamp <= ticks
                && state.poll == P.InCallback(ticks, old(state).poll.count + 1)
      ensures node == null ==>
                && P.Next(old(state), P.PollMove, state)
                && P.Due(old(queue.Pending()), ticks) == {} && state == old(state).(poll := P.Deciding)
    {
      hide TQ.Queue.Valid, P.Inv;
      ghost var s := state;
      assert allocated(queue.tree.Nodes());
      node := queue.Peek();
      assert queue.Valid();
      if node == null || node.key.timestamp > ticks {
        node := null;
        state := s.(poll := P.Deciding);
        P.NextKeepsInv(s, P.PollMove, state);
      } else {
        queue.RemoveFront(node);
        state := s.(pending := queue.Pending(), fired := s.fired + multiset{node.key},
                    poll := P.InCallback(s.poll.sample, s.poll.count + 1));
        P.NextKeepsInv(s, P.Fire(node.key), state);
      }
    }

    /** The poll thread's other moves: waking up, sampling the clock, returning from a callback. */
    ghost method Advance()
      requires Valid()
      requires state.poll.Waking? || state.poll.Sleeping? || state.poll.Committed? || state.poll.InCallback?
      modifies this
      ensures Valid() && P.Next(old(state), P.PollMove, state)
      ensures state == old(state).(poll := state.poll)
      ensures old(state).poll.Waking? ==> state.poll.Deciding?
      ensures old(state).poll.Sleeping? ==> state.poll.Waking?
      ensures old(state).poll.Committed? ==> state.poll == P.Firing(state.clock, 0)
      ensures old(state).poll.InCallback? ==> state.poll == P.Firing(old(state).poll.sample, old(state).poll.count)
    {
      var s := state;
      state := s.(poll := match s.poll
                          case Sleeping(_, _) => P.Waking
                          case Committed => P.Firing(s.clock, 0)
                          case InCallback(sample, count) => P.Firing(sample, count)
                          case _ => P.Deciding);
      P.NextKeepsInv(s, P.PollMove, state);
    }
  }

  // ---------- A client ----------

  /** The state with one timer waiting. */
  function OneTimer(now: int, k: Key, poll: P.Poll): P.State {
    P.State(now, {k}, 1, map[], poll, {k}, multiset{}, multiset{})
  }

  method ScheduleOne(now: int, timeout: int) returns (poller: Poller, node: Node)
    requires now >= 0 && timeout > 0
    ensures fresh(poller) && fresh(poller.queue) && fresh(poller.queue.tree) && fresh(node)
    ensures poller.Valid() && poller.queue.tree.Nodes() == {node} && node.key == Key(0, now + timeout)
    ensures poller.state == OneTimer(now, node.key, P.Waking)
  {
    hide TQ.Queue.Valid, P.Inv;
    poller := new Poller(now);
    node := new Node(Key(0, 0));
    poller.Arm(0, node, timeout, now, 0);
    var wake := poller.Enlist(0, node);
    assert poller.state.armed == map[];
  }

  /** The poll thread goes to sleep, and wakes when its time is up. */
  method SleepUntilDue(poller: Poller, now: int, ghost k: Key) returns (wait: int)
    requires poller.Valid() && poller.state == OneTimer(now, k, P.Waking)
    requires now < k.timestamp <= now + P.MAX_WAIT
    modifies poller
    ensures poller.Valid() && wait == k.timestamp - now
    ensures poller.state == OneTimer(now + wait, k, P.Waking)
  {
    hide TQ.Queue.Valid, P.Inv;
    LeastOfOne(k);
    poller.Advance();
    wait := poller.Decide(now);
    poller.Tick(now + wait);
    poller.Advance();
  }

  /** It finds the timer due and fires it. */
  method FireWhenDue(poller: Poller, now: int, ghost k: Key) returns (fired: Node?)
    requires poller.Valid() && poller.state == OneTimer(now, k, P.Waking) && k.timestamp <= now
    modifies poller, poller.queue, poller.queue.tree
    modifies poller.queue.tree.Nodes()`left, poller.queue.tree.Nodes()`right, poller.queue.tree.Nodes()`height
    ensures poller.Valid() && fired != null && fired.key == k
    ensures poller.state == OneTimer(now, k, P.InCallback(now, 1)).(pending := {}, fired := multiset{k})
  {
    hide TQ.Queue.Valid, P.Inv;
    LeastOfOne(k);
    poller.Advance();
    var wait := poller.Decide(now);
    assert k in P.Due({k}, now);
    poller.Advance();
    fired := poller.FireOrFinish(now);
    assert k in P.Due({k}, now);
  }

  /** From scheduling to firing: the poll thread sleeps exactly until the deadline and then fires the timer. */
  method OneTimerFires(now: int, timeout: int) returns (poller: Poller, fired: Node?)
    requires now >= 0 && 0 < timeout <= P.MAX_WAIT
    ensures poller.Valid() && fired != null && fired.key == Key(0, now + timeout)
    ensures poller.state.clock == now + timeout && poller.state.pending == {}
    ensures poller.state.fired == multiset{fired.key}
  {
    hide *;
    var node;
    poller, node := ScheduleOne(now, timeout);
    var wait := SleepUntilDue(poller, now, node.key);
    fired := FireWhenDue(poller, now + wait, node.key);
    OneTimerFields(now + wait, fired.key);
  }

  lemma {:induction false} OneTimerFields(now: int, k: Key)
    ensures var s := OneTimer(now, k, P.InCallback(now, 1)).(pending := {}, fired := multiset{k});
            s.clock == now && s.pending == {} && s.fired == multiset{k}
  {
  }

  lemma {:induction false} LeastOfOne(k: Key)
    ensures Least({k}) == k
  {
  }
}
