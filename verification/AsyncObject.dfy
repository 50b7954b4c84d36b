/**
  The operations of a callback-type async as code: fields updated in place, the
  timer in the real queue, and the callback and the freeing as effects.

  Each operation performs a path of harmless `AsyncLifecycle` steps, creation
  included.  The ghost `view` is the async of that model; the actor that performs
  the operation is passed along.
 */
module AsyncObject {
  import opened Keys
  import opened TimeoutNode
  import L = AsyncLifecycle
  import TQ = TimeoutQueue

  const XF_ERROR_CANCEL := 2

  /** An async and one actor on it. */
  datatype Snap = Snap(x: L.Async, ac: L.Actor)

  /** A harmless step. */
  ghost predicate OneStep(i: nat, s: Snap, s': Snap) {
    || (L.LocalStep(i, s.x, s.ac, s'.x, s'.ac) && !L.EndsEarly(s.x, s.ac))
    || L.CancelTimerStep(i, s.x, s.ac, s.x.timer.InTree?, s'.x, s'.ac)
    || L.StoreStep(i, s.x, s.ac, s'.x.key.timestamp, s'.x, s'.ac)
    || L.EnlistStep(i, s.x, s.ac, s'.x.key, s'.x, s'.ac)
  }

  /** `s'` is reached from `s` by steps of actor `i` alone. */
  ghost predicate Path(i: nat, p: seq<Snap>, s: Snap, s': Snap) {
    && p != [] && p[0] == s && p[|p| - 1] == s'
    && forall k | 0 < k < |p| :: OneStep(i, p[k - 1], p[k])
  }

  /** A borrower has no reference to the async, but somebody else has. */
  ghost predicate Kept(s: Snap) {
    s.ac.borrower ==> s.x.ref > L.OwnerToken(s.x) + L.TimerToken(s.x)
  }

  /** What the lifecycle's invariant says about one actor and its async. */
  ghost predicate Right(i: nat, s: Snap) {
    L.Sound(s.x) && L.Agrees(i, s.ac, s.x) && L.Enough(s.x, s.ac) && Kept(s)
  }

  lemma {:induction false} StepKeepsRight(i: nat, s: Snap, s': Snap)
    requires Right(i, s) && OneStep(i, s, s')
    ensures Right(i, s') && s'.ac.handler == s.ac.handler
  {
    KindStays(i, s, s');
    var actors := seq(i + 1, _ => s.ac);
    if L.LocalStep(i, s.x, s.ac, s'.x, s'.ac) {
      L.LocalStepIsRight(i, s.ac.target, actors, s.x, s.ac, s'.x, s'.ac);
    } else if L.StoreStep(i, s.x, s.ac, s'.x.key.timestamp, s'.x, s'.ac) {
      L.StoreStepIsRight(i, s.ac.target, actors, s.x, s.ac, s'.x.key.timestamp, s'.x, s'.ac);
    } else if L.EnlistStep(i, s.x, s.ac, s'.x.key, s'.x, s'.ac) {
      L.EnlistStepIsRight(i, s.ac.target, actors, s.x, s.ac, s'.x.key, s'.x, s'.ac);
    } else {
      L.CancelTimerStepIsRight(i, s.ac.target, actors, s.x, s.ac, s.x.timer.InTree?, s'.x, s'.ac);
    }
  }

  lemma {:induction false} KindStays(i: nat, s: Snap, s': Snap)
    requires OneStep(i, s, s')
    ensures s'.ac.handler == s.ac.handler && s'.ac.borrower == s.ac.borrower
  {
  }

  lemma {:induction false} PathBegins(i: nat, s: Snap)
    ensures Path(i, [s], s, s)
  {
  }

  lemma {:induction false} PathExtends(i: nat, p: seq<Snap>, s: Snap, s': Snap, s'': Snap)
    requires Path(i, p, s, s') && OneStep(i, s', s'')
    ensures Path(i, p + [s''], s, s'')
  {
    var q := p + [s''];
    forall k | 0 < k < |q| ensures OneStep(i, q[k - 1], q[k]) {
      if k < |p| {
        assert OneStep(i, p[k - 1], p[k]);
      }
    }
  }

  class Async {
    const queue: TQ.Queue
    const timeout: Node
    var ref: int
    var canceled: bool
    var called: bool
    // Effects: the errors passed to the callback, and the object given back to the allocator.
    var completions: seq<int>
    var freed: bool
    ghost var view: L.Async
    ghost var path: seq<Snap>
    ghost var start: Snap

    /** The fields are what the view says, and the async waits exactly if its node is in the tree. */
    ghost predicate Linked()
      reads this, timeout, queue, queue.tree, queue.tree.Nodes()
    {
      && queue.Valid()
      && view.ref == ref && view.canceled == canceled && view.called == called && view.key == timeout.key
      && view.finishes == |completions| && (view.stage.Freed? <==> freed)
      && (view.timer.InTree? <==> timeout in queue.tree.Nodes())
      && (view.timer.InTree? ==> timeout.key in queue.Pending())
    }

    /**
      Moreover no step of others is harmful now: the timer's reference has been
      counted, and a pending key like the async's is the async's own.
     */
    ghost predicate Tied()
      reads this, timeout, queue, queue.tree, queue.tree.Nodes()
    {
      Linked() && !view.timer.Uncounted? && (view.timer.InTree? <==> timeout.key in queue.Pending())
    }

    /** Since `start`, actor `i` has come to `ac` by harmless steps of the lifecycle. */
    ghost predicate Made(i: nat, ac: L.Actor)
      reads this, timeout, queue, queue.tree, queue.tree.Nodes()
    {
      Linked() && Right(i, Snap(view, ac)) && Path(i, path, start, Snap(view, ac))
    }

    /** And others may act as well. */
    ghost predicate At(i: nat, ac: L.Actor)
      reads this, timeout, queue, queue.tree, queue.tree.Nodes()
    {
      Tied() && Made(i, ac)
    }

    /** `xf_async_new` up to the timer, by actor `i`. */
    constructor (queue: TQ.Queue, milliseconds: int, ghost i: nat, ghost a: nat)
      requires queue.Valid()
      ensures this.queue == queue && Made(i, Creator(a, milliseconds))
      ensures view == L.FreshAsync(if milliseconds > 0 then L.Uncounted(i) else L.NoTimer, L.NoParent)
      ensures milliseconds <= 0 ==> At(i, Creator(a, milliseconds))
      ensures fresh(timeout) && timeout.key == L.NO_KEY && completions == [] && !freed && ref == 1
      ensures !called && !canceled
    {
      assert allocated(queue.tree.Nodes());
      KeysArePositive(queue);
      this.queue := queue;
      ref, canceled, called, completions, freed := 1, false, false, [], false;
      timeout := new Node(L.NO_KEY);
      ghost var x := L.FreshAsync(if milliseconds > 0 then L.Uncounted(i) else L.NoTimer, L.NoParent);
      view := x;
      start := Snap(x, Creator(a, milliseconds));
      path := [Snap(x, Creator(a, milliseconds))];
      new;
      assert queue.Valid();
    }

    /** `xf_atomic_increment` in `xf_async_new`. */
    method CountTimer(ghost i: nat, ghost ac: L.Actor) returns (ghost ac': L.Actor)
      requires Made(i, ac) && ac.pc.Counting?
      modifies `ref, `view, `path
      ensures At(i, ac') && ref == old(ref) + 1 && ac' == ac.(pc := L.Storing(ac.pc.timeout))
      ensures view == old(view).(ref := ref, timer := L.Arming(i))
    {
      KeysArePositive(queue);
      ghost var before := Snap(view, ac);
      ref := ref + 1;
      view := view.(ref := ref, timer := L.Arming(i));
      ac' := ac.(pc := L.Storing(ac.pc.timeout));
      Record(i, before, ac');
    }

    /**
      `xf_timeout_schedule` up to the lock.  Others may act on the async from here
      on if and only if no timer is pending under the half-written key.
     */
    method StoreDeadline(milliseconds: int, ticks: int, ghost i: nat, ghost ac: L.Actor)
      returns (ghost ac': L.Actor)
      requires At(i, ac) && ac.pc == L.Storing(milliseconds)
      modifies `view, `path, timeout
      ensures Made(i, ac') && ac' == ac.(pc := L.Enlisting)
      ensures timeout.key == Key(0, ticks + milliseconds) && timeout.left == null && timeout.right == null
      ensures view == old(view).(key := timeout.key)
      ensures At(i, ac') <==> timeout.key !in queue.Pending()
      ensures queue.tree.Nodes() == old(queue.tree.Nodes()) && queue.Pending() == old(queue.Pending())
    {
      assert allocated(queue.tree.Nodes());
      ghost var before := Snap(view, ac);
      TQ.Queue.Arm(timeout, ticks, milliseconds, 0);
      assert queue.Valid();
      view := view.(key := timeout.key);
      ac' := ac.(pc := L.Enlisting);
      Record(i, before, ac');
    }

    /** The rest of `xf_timeout_schedule`. */
    method EnlistTimer(ghost i: nat, ghost ac: L.Actor) returns (wake: bool, ghost ac': L.Actor)
      requires Made(i, ac) && ac.pc.Enlisting? && timeout.key.timestamp > 0
      requires timeout.left == null && timeout.right == null
      modifies `view, `path, queue, queue.tree, timeout
      modifies queue.tree.Nodes()`left, queue.tree.Nodes()`right, queue.tree.Nodes()`height
      ensures At(i, ac') && ac' == ac.(pc := L.Idle)
      ensures timeout.key == Key(old(queue.seqno), old(timeout.key.timestamp))
      ensures view == old(view).(key := timeout.key, timer := L.InTree)
      ensures queue.Pending() == old(queue.Pending()) + {timeout.key}
      ensures queue.tree.Nodes() == old(queue.tree.Nodes()) + {timeout}
      ensures wake <==> IsLeast(timeout.key, queue.Pending())
    {
      hide TQ.Queue.Valid;
      ghost var before := Snap(view, ac);
      queue.Enlist(timeout);
      assert allocated(queue.tree.Nodes());
      wake := queue.IsMinimum(timeout);
      view := view.(key := timeout.key, timer := L.InTree);
      assert queue.Valid();
      ac' := ac.(pc := L.Idle);
      Record(i, before, ac');
    }

    /** The timer part of `xf_async_new`: a positive timeout takes a reference and schedules the timer. */
    method StartTimer(milliseconds: int, ticks: int, ghost i: nat, ghost ac: L.Actor) returns (ghost ac': L.Actor)
      requires Made(i, ac) && (milliseconds <= 0 ==> At(i, ac)) && ticks >= 0
      requires ac == Creator(ac.target, milliseconds)
      modifies `ref, `view, `path, queue, queue.tree, timeout
      modifies queue.tree.Nodes()`left, queue.tree.Nodes()`right, queue.tree.Nodes()`height
      ensures At(i, ac') && ac' == ac.(pc := L.Idle)
      ensures ref == old(ref) + if milliseconds > 0 then 1 else 0
      ensures milliseconds <= 0 ==> view == old(view) && queue.Pending() == old(queue.Pending())
      ensures milliseconds > 0 ==>
                && timeout.key == Key(old(queue.seqno), ticks + milliseconds)
                && view == old(view).(ref := old(ref) + 1, key := timeout.key, timer := L.InTree)
                && queue.Pending() == old(queue.Pending()) + {timeout.key}
      ensures queue.tree.Nodes() == old(queue.tree.Nodes()) + if milliseconds > 0 then {timeout} else {}
    {
      hide *;
      ac' := ac;
      assert allocated(queue.tree.Nodes());
      CreatorsPc(ac.target, milliseconds);
      if milliseconds > 0 {
        ac' := CountTimer(i, ac');
        ac' := StoreDeadline(milliseconds, ticks, i, ac');
        var wake;
        wake, ac' := EnlistTimer(i, ac');
      }
    }

    /** `xf_async_add_ref`, by a caller who knows that the async is alive. */
    method AddRef(ghost i: nat, ghost ac: L.Actor) returns (ghost ac': L.Actor)
      requires At(i, ac) && ac.pc.Idle? && !ac.handler && !ac.borrower && ref > 0
      modifies `ref, `view, `path
      ensures At(i, ac') && ref == old(ref) + 1 && ac' == ac.(refs := ac.refs + 1)
      ensures view == old(view).(ref := ref)
    {
      ghost var before := Snap(view, ac);
      ref := ref + 1;
      view := view.(ref := ref);
      ac' := ac.(refs := ac.refs + 1);
      Record(i, before, ac');
    }

    /** A holder of a reference starts an operation. */
    ghost method Start(i: nat, ac: L.Actor, pc: L.Pc) returns (ac': L.Actor)
      requires At(i, ac) && ac.pc.Idle? && !ac.handler && !ac.borrower && ac.refs + ac.open > 0
      requires || pc.NotifyTimer? || pc.CancelTimer? || pc.EnterTest?
               || (pc.Leaving? && ac.open > 0) || (pc.Dropping? && ac.refs > 0)
      modifies `path
      ensures At(i, ac') && ac' == ac.(pc := pc)
    {
      var before := Snap(view, ac);
      ac' := ac.(pc := pc);
      Record(i, before, ac');
    }

    /**
      The firing loop takes the node out and calls `async_timeout`: the timer's
      reference goes to the handler, which is actor `j`.
     */
    method HandOver(ghost i: nat, ghost ac: L.Actor, ghost j: nat) returns (ghost handler: L.Actor)
      requires At(i, ac) && ac.pc.Idle? && i != j
      requires L.Mine(i, view.owner) && L.MyTimer(i, view.timer) && L.MyStage(i, view.stage)
      requires view.timer.InTree? && IsLeast(timeout.key, queue.Pending())
      modifies `view, `start, `path, queue, queue.tree
      modifies queue.tree.Nodes()`left, queue.tree.Nodes()`right, queue.tree.Nodes()`height
      ensures queue.tree.Nodes() == old(queue.tree.Nodes()) - {timeout}
      ensures queue.Pending() == old(queue.Pending()) - {timeout.key}
      ensures At(j, handler) && handler == L.Actor(ac.target, true, false, 0, 0, L.Mark)
      ensures view == old(view).(timer := L.OwedBy(j))
    {
      hide TQ.Queue.Valid, Right, IsLeast, Path, OneStep, L.Mine, L.MyTimer, L.MyStage;
      assert allocated(queue.tree.Nodes());
      HandlerIsRight(i, Snap(view, ac), j);
      queue.RemoveFront(timeout);
      view := view.(timer := L.OwedBy(j));
      handler := L.Actor(ac.target, true, false, 0, 0, L.Mark);
      PathBegins(j, Snap(view, handler));
      start := Snap(view, handler);
      path := [start];
    }

    /** An operation of actor `i` starts where the async is now. */
    ghost method Begin(i: nat, ac: L.Actor)
      requires Tied() && Right(i, Snap(view, ac))
      modifies `start, `path
      ensures At(i, ac) && start == Snap(view, ac)
    {
      start := Snap(view, ac);
      path := [start];
    }

    /** The ghost record of one step. */
    ghost method Record(i: nat, before: Snap, ac: L.Actor)
      requires Linked() && Right(i, before) && Path(i, path, start, before) && OneStep(i, before, Snap(view, ac))
      modifies `path
      ensures Made(i, ac) && (Tied() <==> old(Tied()))
    {
      StepKeepsRight(i, before, Snap(view, ac));
      PathExtends(i, path, start, before, Snap(view, ac));
      path := path + [Snap(view, ac)];
    }

    /** `xf_timeout_cancel` on the async's timer. */
    method CancelTimer(ghost i: nat, ghost ac: L.Actor) returns (found: bool, ghost ac': L.Actor)
      requires At(i, ac) && (ac.pc.NotifyTimer? || ac.pc.CancelTimer? || ac.pc.DestroyTimer?)
      modifies `view, `path, queue, queue.tree
      modifies queue.tree.Nodes()`left, queue.tree.Nodes()`right, queue.tree.Nodes()`height
      ensures queue.tree.Nodes() <= old(queue.tree.Nodes())
      ensures queue.Pending() - {timeout.key} == old(queue.Pending()) - {timeout.key}
      ensures At(i, ac')
      ensures found == old(view).timer.InTree?
      ensures L.CancelTimerStep(i, old(view), ac, found, view, ac')
    {
      hide TQ.Queue.Valid, Path, Right, L.LocalStep, L.StoreStep, L.EnlistStep;
      ghost var before := Snap(view, ac);
      assert allocated(queue.tree.Nodes());
      if view.timer.InTree? {
        queue.MemberOwnsItsKey(timeout);
      }
      found := queue.Cancel(timeout);
      ac' := ac.(pc := match ac.pc
                       case NotifyTimer => if found then L.NotifyDropTimer else L.NotifyTest
                       case CancelTimer => if found then L.CancelDropTimer else L.Mark
                       case DestroyTimer(next) => L.DestroyFree(next)
                       case _ => ac.pc);
      view := if !found then view
              else view.(timer := if ac.pc.DestroyTimer? then L.Given else L.OwedBy(i));
      Record(i, before, ac');
    }

    /** The atomic decrement of `xf_async_release`; `x` and `next` say what else the step settles. */
    method Decrement(ghost i: nat, ghost ac: L.Actor, ghost x: L.Async, ghost next: L.Actor)
      returns (ghost ac': L.Actor)
      requires At(i, ac) && SameFields(x, view)
      requires GivesUp(i, Snap(view, ac), x, next)
      modifies `ref, `view, `path
      ensures At(i, ac') && ref == old(ref) - 1
      ensures (view, ac') == L.Release(i, x, next, next.pc)
    {
      ghost var before := Snap(view, ac);
      ReleaseShape(i, x, next);
      GiversStayTied(i, before, x, next);
      hide L.LocalStep, L.Release, L.Sound, L.Agrees, L.Enough, Path, TQ.Queue.Valid;
      ref := ref - 1;
      ghost var after := L.Release(i, x, next, next.pc);
      view, ac' := after.0, after.1;
      Record(i, before, ac');
    }

    /** The end of `xf_async_release` for the last reference. */
    method Destroy(ghost i: nat, ghost ac: L.Actor) returns (ghost ac': L.Actor)
      requires At(i, ac) && ac.pc.DestroyTimer?
      modifies `view, `path, `freed, queue, queue.tree
      modifies queue.tree.Nodes()`left, queue.tree.Nodes()`right, queue.tree.Nodes()`height
      ensures queue.tree.Nodes() <= old(queue.tree.Nodes())
      ensures queue.Pending() - {timeout.key} == old(queue.Pending()) - {timeout.key}
      ensures At(i, ac') && ac' == ac.(pc := L.Idle)
      ensures freed && view == old(view).(stage := L.Freed, frees := old(view).frees + 1)
    {
      hide TQ.Queue.Valid, Path, L.StoreStep, L.EnlistStep;
      var found;
      found, ac' := CancelTimer(i, ac);
      ghost var last := Snap(view, ac');
      freed := true;
      view := view.(stage := L.Freed, frees := view.frees + 1);
      ac' := ac'.(pc := ac'.pc.next);
      Record(i, last, ac');
    }

    /** `xf_async_release`. */
    method Release(ghost i: nat, ghost ac: L.Actor, ghost x: L.Async, ghost next: L.Actor)
      returns (ghost ac': L.Actor)
      requires At(i, ac) && SameFields(x, view)
      requires GivesUp(i, Snap(view, ac), x, next)
      modifies `ref, `view, `path, `freed, queue, queue.tree
      modifies queue.tree.Nodes()`left, queue.tree.Nodes()`right, queue.tree.Nodes()`height
      ensures queue.tree.Nodes() <= old(queue.tree.Nodes())
      ensures queue.Pending() - {timeout.key} == old(queue.Pending()) - {timeout.key}
      ensures At(i, ac') && ref == old(ref) - 1
      ensures ref > 0 ==> ac' == next && view == x.(ref := ref) && freed == old(freed)
      ensures ref <= 0 ==> ac' == next.(pc := L.Idle) && freed
                           && view == x.(ref := ref, stage := L.Freed, frees := x.frees + 1)
    {
      assert allocated(queue.tree.Nodes());
      ac' := Decrement(i, ac, x, next);
      if ref > 0 {
        return;
      }
      ac' := Destroy(i, ac');
    }
  
    /** The critical section of `_xf_async_async_notify`. */
    method TestCalled(ghost i: nat, ghost ac: L.Actor) returns (first: bool, ghost ac': L.Actor)
      requires At(i, ac) && ac.pc.NotifyTest?
      modifies `called, `view, `path
      ensures At(i, ac') && called && first == !old(called)
      ensures ac' == ac.(pc := if first then L.Completing else L.After(ac))
      ensures view == if !first then old(view)
                      else old(view).(called := true, owner := L.RunBy(i), starts := old(view).starts + 1)
    {
      ghost var before := Snap(view, ac);
      first := !called;
      if !called {
        called := true;
        view := view.(called := true, owner := L.RunBy(i), starts := view.starts + 1);
      }
      ac' := ac.(pc := if first then L.Completing else L.After(ac));
      Record(i, before, ac');
    }

    /** The callback runs; what it does to other objects is not modelled. */
    method Complete(error: int, ghost i: nat, ghost ac: L.Actor) returns (ghost ac': L.Actor)
      requires At(i, ac) && ac.pc.Completing?
      modifies `completions, `view, `path
      ensures At(i, ac') && completions == old(completions) + [error] && ac' == ac.(pc := L.DropOwner)
      ensures view == old(view).(owner := L.ToRelease(i), finishes := old(view).finishes + 1)
    {
      ghost var before := Snap(view, ac);
      completions := completions + [error];
      view := view.(owner := L.ToRelease(i), finishes := view.finishes + 1);
      ac' := ac.(pc := L.DropOwner);
      Record(i, before, ac');
    }

    /** The critical section of `_cancel`; `handedOn` says that a child or the pending I/O takes over. */
    method MarkCanceled(handedOn: bool, ghost i: nat, ghost ac: L.Actor) returns (ghost ac': L.Actor)
      requires At(i, ac) && ac.pc.Mark?
      modifies `canceled, `view, `path
      ensures At(i, ac') && canceled && view == old(view).(canceled := true)
      ensures ac' == ac.(pc := if handedOn then L.After(ac) else L.NotifyTimer)
    {
      ghost var before := Snap(view, ac);
      canceled := true;
      view := view.(canceled := true);
      ac' := ac.(pc := if handedOn then L.After(ac) else L.NotifyTimer);
      Record(i, before, ac');
    }

    /** `_xf_async_async_notify`. */
    method NotifyCallback(error: int, ghost i: nat, ghost ac: L.Actor) returns (ghost ac': L.Actor)
      requires At(i, ac) && ac.pc.NotifyTest?
      modifies `ref, `called, `completions, `freed, `view, `path, queue, queue.tree
      modifies queue.tree.Nodes()`left, queue.tree.Nodes()`right, queue.tree.Nodes()`height
      ensures queue.tree.Nodes() <= old(queue.tree.Nodes())
      ensures queue.Pending() - {timeout.key} == old(queue.Pending()) - {timeout.key}
      ensures At(i, ac') && called && !freed == !old(freed)
      ensures completions == if old(called) then old(completions) else old(completions) + [error]
      ensures ref == old(ref) - (if old(called) then 0 else 1)
      ensures ac' == ac.(pc := L.After(ac)) && view.timer == old(view).timer
    {
      var first;
      first, ac' := TestCalled(i, ac);
      if first {
        ac' := Complete(error, i, ac');
        StaysAlive(i, Snap(view, ac'));
        ac' := Release(i, ac', view.(owner := L.Released), ac'.(pc := L.After(ac)));
      }
    }

    /** `xf_async_notify`. */
    method Notify(error: int, ghost i: nat, ghost ac: L.Actor) returns (ghost ac': L.Actor)
      requires At(i, ac) && ac.pc.NotifyTimer?
      modifies `ref, `called, `completions, `freed, `view, `path, queue, queue.tree
      modifies queue.tree.Nodes()`left, queue.tree.Nodes()`right, queue.tree.Nodes()`height
      ensures queue.tree.Nodes() <= old(queue.tree.Nodes())
      ensures queue.Pending() - {timeout.key} == old(queue.Pending()) - {timeout.key}
      ensures At(i, ac') && ac' == ac.(pc := L.After(ac)) && !view.timer.InTree?
      ensures called && (freed <==> old(freed))
      ensures completions == if old(called) then old(completions) else old(completions) + [error]
      ensures ref == old(ref) - (if old(view).timer.InTree? then 1 else 0) - (if old(called) then 0 else 1)
    {
      hide TQ.Queue.Valid, Path, L.Sound, L.Agrees, L.Enough;
      var found;
      found, ac' := CancelTimer(i, ac);
      if found {
        StaysAlive(i, Snap(view, ac'));
        ac' := Release(i, ac', view.(timer := L.Given), ac'.(pc := L.NotifyTest));
      }
      ac' := NotifyCallback(error, i, ac');
    }
  
    /** `_cancel`. */
    method MarkAndNotify(handedOn: bool, ghost i: nat, ghost ac: L.Actor) returns (ghost ac': L.Actor)
      requires At(i, ac) && ac.pc.Mark?
      modifies `ref, `canceled, `called, `completions, `freed, `view, `path, queue, queue.tree
      modifies queue.tree.Nodes()`left, queue.tree.Nodes()`right, queue.tree.Nodes()`height
      ensures queue.tree.Nodes() <= old(queue.tree.Nodes())
      ensures queue.Pending() - {timeout.key} == old(queue.Pending()) - {timeout.key}
      ensures At(i, ac') && ac' == ac.(pc := L.After(ac)) && canceled && (freed <==> old(freed))
      ensures handedOn ==>
                && ref == old(ref) && called == old(called) && completions == old(completions)
                && view.timer == old(view).timer
      ensures !handedOn ==>
                && called && !view.timer.InTree?
                && completions == (if old(called) then old(completions) else old(completions) + [XF_ERROR_CANCEL])
                && ref == old(ref) - (if old(view).timer.InTree? then 1 else 0) - (if old(called) then 0 else 1)
    {
      assert allocated(queue.tree.Nodes());
      ac' := MarkCanceled(handedOn, i, ac);
      if !handedOn {
        ac' := Notify(XF_ERROR_CANCEL, i, ac');
      }
    }

    /** `xf_async_cancel`. */
    method Cancel(handedOn: bool, ghost i: nat, ghost ac: L.Actor) returns (ghost ac': L.Actor)
      requires At(i, ac) && ac.pc.CancelTimer?
      modifies `ref, `canceled, `called, `completions, `freed, `view, `path, queue, queue.tree
      modifies queue.tree.Nodes()`left, queue.tree.Nodes()`right, queue.tree.Nodes()`height
      ensures queue.tree.Nodes() <= old(queue.tree.Nodes())
      ensures queue.Pending() - {timeout.key} == old(queue.Pending()) - {timeout.key}
      ensures At(i, ac') && ac' == ac.(pc := L.After(ac)) && canceled && (freed <==> old(freed))
      ensures ref == old(ref) - (if old(view).timer.InTree? then 1 else 0) - (if handedOn || old(called) then 0 else 1)
      ensures completions == if handedOn || old(called) then old(completions) else old(completions) + [XF_ERROR_CANCEL]
      ensures !view.timer.InTree? && called == (old(called) || !handedOn)
    {
      hide TQ.Queue.Valid, Path, L.Sound, L.Agrees, L.Enough;
      var found;
      found, ac' := CancelTimer(i, ac);
      if found {
        StaysAlive(i, Snap(view, ac'));
        ac' := Release(i, ac', view.(timer := L.Given), ac'.(pc := L.Mark));
      }
      ac' := MarkAndNotify(handedOn, i, ac');
    }

    /** `async_timeout`: the handler gives up the timer's reference last, and may be the one to free. */
    method Expire(handedOn: bool, ghost i: nat, ghost ac: L.Actor) returns (ghost ac': L.Actor)
      requires At(i, ac) && ac.pc.Mark? && ac.handler
      modifies `ref, `canceled, `called, `completions, `freed, `view, `path, queue, queue.tree
      modifies queue.tree.Nodes()`left, queue.tree.Nodes()`right, queue.tree.Nodes()`height
      ensures queue.tree.Nodes() <= old(queue.tree.Nodes())
      ensures queue.Pending() - {timeout.key} == old(queue.Pending()) - {timeout.key}
      ensures At(i, ac') && ac'.pc.Idle? && canceled && !view.timer.InTree? && called == (old(called) || !handedOn)
      ensures ref == old(ref) - 1 - (if handedOn || old(called) then 0 else 1)
      ensures completions == if handedOn || old(called) then old(completions) else old(completions) + [XF_ERROR_CANCEL]
      ensures freed <==> old(freed) || ref == 0
    {
      HandlerHasTimer(i, Snap(view, ac));
      ac' := MarkAndNotify(handedOn, i, ac);
      HandlerHasTimer(i, Snap(view, ac'));
      ac' := Release(i, ac', view.(timer := L.Given), ac'.(pc := L.Idle));
    }

    /** `xf_async_enter`: on a cancelled async it notifies and says no. */
    method Enter(ghost i: nat, ghost ac: L.Actor) returns (entered: bool, ghost ac': L.Actor)
      requires At(i, ac) && ac.pc.EnterTest?
      modifies `ref, `called, `completions, `freed, `view, `path, queue, queue.tree
      modifies queue.tree.Nodes()`left, queue.tree.Nodes()`right, queue.tree.Nodes()`height
      ensures queue.tree.Nodes() <= old(queue.tree.Nodes())
      ensures queue.Pending() - {timeout.key} == old(queue.Pending()) - {timeout.key}
      ensures At(i, ac') && ac' == ac.(pc := L.Idle, open := ac.open + if entered then 1 else 0)
      ensures (freed <==> old(freed)) && entered == !canceled
      ensures entered ==>
                && ref == old(ref) + 1 && completions == old(completions) && called == old(called)
                && view == old(view).(ref := ref)
      ensures !entered ==>
                && called && !view.timer.InTree?
                && ref == old(ref) - (if old(view).timer.InTree? then 1 else 0) - (if old(called) then 0 else 1)
                && completions == if old(called) then old(completions) else old(completions) + [XF_ERROR_CANCEL]
    {
      ghost var before := Snap(view, ac);
      if canceled {
        ac' := ac.(pc := L.NotifyTimer);
        Record(i, before, ac');
        ac' := Notify(XF_ERROR_CANCEL, i, ac');
        return false, ac';
      }
      ref := ref + 1;
      view := view.(ref := view.ref + 1);
      ac' := ac.(open := ac.open + 1, pc := L.Idle);
      Record(i, before, ac');
      return true, ac';
    }

    /** `xf_async_leave`. */
    method Leave(ghost i: nat, ghost ac: L.Actor) returns (ghost ac': L.Actor)
      requires At(i, ac) && ac.pc.Leaving?
      modifies `ref, `freed, `view, `path, queue, queue.tree
      modifies queue.tree.Nodes()`left, queue.tree.Nodes()`right, queue.tree.Nodes()`height
      ensures queue.tree.Nodes() <= old(queue.tree.Nodes())
      ensures queue.Pending() - {timeout.key} == old(queue.Pending()) - {timeout.key}
      ensures At(i, ac') && ac' == ac.(open := ac.open - 1, pc := L.Idle)
      ensures ref == old(ref) - 1 && (freed <==> old(freed) || ref == 0)
      ensures ref > 0 ==> view == old(view).(ref := ref)
    {
      GiversAreAlive(i, Snap(view, ac));
      ac' := Release(i, ac, view, ac.(open := ac.open - 1, pc := L.Idle));
    }

    /** `xf_async_release` of a reference that the actor has taken. */
    method Drop(ghost i: nat, ghost ac: L.Actor) returns (ghost ac': L.Actor)
      requires At(i, ac) && ac.pc.Dropping?
      modifies `ref, `freed, `view, `path, queue, queue.tree
      modifies queue.tree.Nodes()`left, queue.tree.Nodes()`right, queue.tree.Nodes()`height
      ensures queue.tree.Nodes() <= old(queue.tree.Nodes())
      ensures queue.Pending() - {timeout.key} == old(queue.Pending()) - {timeout.key}
      ensures At(i, ac') && ac' == ac.(refs := ac.refs - 1, pc := L.Idle)
      ensures ref == old(ref) - 1 && (freed <==> old(freed) || ref == 0)
      ensures ref > 0 ==> view == old(view).(ref := ref)
    {
      GiversAreAlive(i, Snap(view, ac));
      ac' := Release(i, ac, view, ac.(refs := ac.refs - 1, pc := L.Idle));
    }
  }

  lemma {:induction false} GiversStayTied(i: nat, s: Snap, x: L.Async, next: L.Actor)
    requires Right(i, s) && SameFields(x, s.x) && GivesUp(i, s, x, next) && !s.x.timer.Uncounted?
    ensures !s.x.stage.Freed? && !x.timer.Uncounted? && !L.EndsEarly(s.x, s.ac)
  {
    ReleaseShape(i, x, next);
    var after := L.Release(i, x, next, next.pc);
    assert after.0.ref == s.x.ref - 1;
    assert L.GivesBack(s.ac.pc);
    GiversAreAlive(i, s);
  }

  lemma {:induction false} HandlerIsRight(i: nat, s: Snap, j: nat)
    requires Right(i, s) && s.ac.pc.Idle? && i != j && s.x.timer.InTree?
    requires L.Mine(i, s.x.owner) && L.MyTimer(i, s.x.timer) && L.MyStage(i, s.x.stage)
    ensures Right(j, Snap(s.x.(timer := L.OwedBy(j)), L.Actor(s.ac.target, true, false, 0, 0, L.Mark)))
  {
  }

  /** What a release leaves alone. */
  lemma {:induction false} ReleaseShape(i: nat, x: L.Async, next: L.Actor)
    ensures var after := L.Release(i, x, next, next.pc);
            && after.0 == x.(ref := x.ref - 1, stage := after.0.stage)
            && (after.0.stage == x.stage || after.0.stage == L.Dying(i))
            && (x.ref - 1 > 0 ==> after.0.stage == x.stage)
  {
  }

  /** The actor that creates async `a`. */
  function Creator(a: nat, milliseconds: int): L.Actor {
    L.Holder(a).(pc := if milliseconds > 0 then L.Counting(milliseconds) else L.Idle)
  }

  lemma {:induction false} CreatorsPc(a: nat, milliseconds: int)
    ensures Creator(a, milliseconds).pc == if milliseconds > 0 then L.Counting(milliseconds) else L.Idle
  {
  }

  lemma {:induction false} GiversAreAlive(i: nat, s: Snap)
    requires Right(i, s) && L.GivesBack(s.ac.pc)
    ensures s.x.ref >= 1 && !s.x.stage.Freed?
  {
  }

  lemma {:induction false} HandlerHasTimer(i: nat, s: Snap)
    requires Right(i, s) && s.ac.handler && !s.ac.pc.Idle? && !L.Destroying(s.ac.pc)
    ensures s.x.timer == L.OwedBy(i) && s.x.ref >= 1 && !s.x.stage.Freed?
  {
  }

  /** An actor inside a notification or cancellation has a reference besides the one it gives up. */
  lemma {:induction false} StaysAlive(i: nat, s: Snap)
    requires Right(i, s) && (s.ac.pc.NotifyDropTimer? || s.ac.pc.CancelDropTimer? || s.ac.pc.DropOwner?)
    ensures s.x.ref > 1
  {
  }

  lemma {:induction false} KeysArePositive(queue: TQ.Queue)
    requires queue.Valid()
    ensures L.NO_KEY !in queue.Pending()
  {
  }

  /** `x` differs from `y` only in who owes which reference. */
  ghost predicate SameFields(x: L.Async, y: L.Async) {
    x == y.(owner := x.owner, timer := x.timer) && (x.timer.InTree? <==> y.timer.InTree?)
    && (x.owner.ToRelease? || x.owner.Released? <==> y.owner.ToRelease? || y.owner.Released?)
  }

  /** Giving up a reference, with `x` and `next` as the rest of the step, is a step of the lifecycle. */
  ghost predicate GivesUp(i: nat, s: Snap, x: L.Async, next: L.Actor) {
    var after := L.Release(i, x, next, next.pc);
    L.LocalStep(i, s.x, s.ac, after.0, after.1)
  }

  // ---------- Clients ----------

  lemma {:induction false} FreshView(milliseconds: int)
    ensures var x := L.FreshAsync(if milliseconds > 0 then L.Uncounted(0) else L.NoTimer, L.NoParent);
            x.owner == L.Unclaimed && x.stage == L.Live && (milliseconds <= 0 ==> x.timer == L.NoTimer)
    ensures Creator(0, milliseconds).target == 0 && Creator(0, milliseconds).(pc := L.Idle) == L.Holder(0)
    ensures milliseconds <= 0 ==> Creator(0, milliseconds) == L.Holder(0)
  {
  }

  /** A new async, with or without a timer, in a queue of its own; actor 0 has created it. */
  method Create(milliseconds: int, ticks: int) returns (x: Async, ghost ac: L.Actor)
    requires ticks >= 0
    ensures fresh(x) && fresh(x.timeout) && fresh(x.queue) && fresh(x.queue.tree)
    ensures fresh(x.queue.tree.Nodes())
    ensures x.At(0, ac) && ac == L.Holder(0) && x.completions == [] && !x.freed && !x.called && !x.canceled
    ensures x.view.owner == L.Unclaimed && x.view.stage == L.Live
    ensures x.view.timer == (if milliseconds > 0 then L.InTree else L.NoTimer)
    ensures x.ref == if milliseconds > 0 then 2 else 1
    ensures milliseconds > 0 ==> x.queue.Pending() == {x.timeout.key}
  {
    hide *;
    var queue := new TQ.Queue();
    x := new Async(queue, milliseconds, 0, 0);
    FreshView(milliseconds);
    assert x.queue.Pending() == {} && x.queue.tree.Nodes() == {};
    ac := x.StartTimer(milliseconds, ticks, 0, Creator(0, milliseconds));
  }

  lemma {:induction false} HolderFields(a: nat)
    ensures L.Holder(a) == L.Actor(a, false, false, 0, 0, L.Idle)
  {
  }

  /**
    Create, take a reference, notify, release: the callback has run once, with the
    error, and the async is freed, whether or not it had a timer.
   */
  method NotifiedAndFreed(milliseconds: int, ticks: int, error: int) returns (x: Async)
    requires ticks >= 0
    ensures x.freed && x.completions == [error] && x.ref == 0
  {
    hide *;
    ghost var ac;
    HolderFields(0);
    x, ac := Create(milliseconds, ticks);
    ac := x.AddRef(0, ac);
    ac := x.Start(0, ac, L.NotifyTimer);
    Afterwards(ac);
    ac := x.Notify(error, 0, ac);
    ac := x.Start(0, ac, L.Dropping);
    ac := x.Drop(0, ac);
  }

  lemma {:induction false} Afterwards(ac: L.Actor)
    ensures !ac.handler ==> L.After(ac) == L.Idle
  {
  }

  /** Create with a timeout, and let it expire: the callback has been told once, and the async is freed. */
  method ExpiredAndFreed(milliseconds: int, ticks: int) returns (x: Async)
    requires ticks >= 0 && milliseconds > 0
    ensures x.freed && x.completions == [XF_ERROR_CANCEL] && x.ref == 0
  {
    ghost var ac;
    x, ac := Create(milliseconds, ticks);
    hide *;
    ac := x.HandOver(0, ac, 1);
    ac := x.Expire(false, 1, ac);
  }

  /** A holder enters and leaves an async that has not been cancelled. */
  method Visit(x: Async, ghost ac: L.Actor) returns (entered: bool)
    requires x.At(0, ac) && ac == L.Actor(0, false, false, 1, 0, L.Idle) && x.ref > 0 && !x.canceled
    modifies x`ref, x`called, x`completions, x`freed, x`view, x`path, x.queue, x.queue.tree
    modifies x.queue.tree.Nodes()`left, x.queue.tree.Nodes()`right, x.queue.tree.Nodes()`height
    ensures x.queue.tree.Nodes() <= old(x.queue.tree.Nodes())
    ensures entered && x.At(0, ac) && x.ref == old(x.ref) && x.view == old(x.view).(ref := x.ref)
    ensures x.called == old(x.called) && x.completions == old(x.completions) && x.freed == old(x.freed)
  {
    hide *;
    ghost var ac' := x.Start(0, ac, L.EnterTest);
    entered, ac' := x.Enter(0, ac');
    ac' := x.Start(0, ac', L.Leaving);
    ac' := x.Leave(0, ac');
  }

  /**
    Create, take a reference, enter and leave, cancel, try to enter again, release:
    the second entering is refused, the callback has run once, and the async is freed.
   */
  method CancelledAndFreed(milliseconds: int, ticks: int) returns (x: Async, first: bool, second: bool)
    requires ticks >= 0
    ensures first && !second && x.freed && x.completions == [XF_ERROR_CANCEL] && x.ref == 0
  {
    hide *;
    ghost var ac;
    HolderFields(0);
    x, ac := Create(milliseconds, ticks);
    ac := x.AddRef(0, ac);
    first := Visit(x, ac);
    ac := x.Start(0, ac, L.CancelTimer);
    Afterwards(ac);
    ac := x.Cancel(false, 0, ac);
    ac := x.Start(0, ac, L.EnterTest);
    second, ac := x.Enter(0, ac);
    ac := x.Start(0, ac, L.Dropping);
    ac := x.Drop(0, ac);
  }
}
