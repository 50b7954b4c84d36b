/**
  The shortest runs in which somebody acts on an async or cancels a plain timer
  before its creator has returned, or cancels a child through its parent's link
  without anybody keeping it alive: step by step from the initial state of
  `AsyncLifecycle`, and what they do to the references.
 */
module AsyncHazards {
  import opened Keys
  import P = TimerProtocol
  import opened AsyncLifecycle
  import opened AsyncRuns

  const TIMEOUT := 30000

  lemma {:induction false} RunExtends(states: seq<State>, moves: seq<Move>, m: Move, s': State)
    requires IsRun(states, moves) && Next(states[|moves|], m, s')
    ensures IsRun(states + [s'], moves + [m])
  {
    var states', moves' := states + [s'], moves + [m];
    forall i | 0 <= i < |moves'| ensures Next(states'[i], moves'[i], states'[i + 1]) {
      if i < |moves| {
        assert Next(states[i], moves[i], states[i + 1]);
      }
    }
  }

  ghost predicate Reached(s: State) {
    exists states, moves :: IsRun(states, moves) && states[|moves|] == s
  }

  lemma {:induction false} ReachedExtends(s: State, m: Move, s': State)
    requires Reached(s) && Next(s, m, s')
    ensures Reached(s')
  {
    var states, moves :| IsRun(states, moves) && states[|moves|] == s;
    RunExtends(states, moves, m, s');
    assert (states + [s'])[|moves + [m]|] == s';
  }

  /** One local step of one actor. */
  lemma {:induction false} LocalIsReached(s: State, i: nat, x': Async, ac': Actor)
    requires Reached(s) && i < |s.actors| && s.actors[i].target < |s.asyncs|
    requires LocalStep(i, s.asyncs[s.actors[i].target], s.actors[i], x', ac')
    ensures Reached(Put(s, i, x', ac').(
                    links := LinksAfter(s.links, s.asyncs[s.actors[i].target], s.actors[i])))
    ensures !s.actors[i].pc.DestroyFree? ==> Reached(Put(s, i, x', ac'))
  {
    var s' := Put(s, i, x', ac').(links := LinksAfter(s.links, s.asyncs[s.actors[i].target], s.actors[i]));
    hide Reached, LocalStep, LinksAfter;
    assert Next(s, LocalMove(i), s');
    ReachedExtends(s, LocalMove(i), s');
    if !s.actors[i].pc.DestroyFree? {
      LinksStay(s.links, s.asyncs[s.actors[i].target], s.actors[i]);
      assert s' == Put(s, i, x', ac');
    }
  }

  lemma {:induction false} LinksStay(links: map<nat, nat>, x: Async, ac: Actor)
    requires !ac.pc.DestroyFree?
    ensures LinksAfter(links, x, ac) == links
  {
  }

  /** A call to `xf_timeout_cancel` that finds nothing. */
  lemma {:induction false} MissIsReached(s: State, i: nat, ac': Actor)
    requires Reached(s) && i < |s.actors| && s.actors[i].target < |s.asyncs| && P.LockFree(s.t)
    requires var x := s.asyncs[s.actors[i].target];
             && x.key !in s.t.pending && x.key !in s.nodes
             && CancelTimerStep(i, x, s.actors[i], false, x, ac')
    ensures Reached(Put(s, i, s.asyncs[s.actors[i].target], ac'))
  {
    var x := s.asyncs[s.actors[i].target];
    assert P.CancelStep(s.t, x.key, false, s.t);
    assert s.nodes - {x.key} == s.nodes;
    hide Reached, CancelTimerStep;
    ReachedExtends(s, CancelMove(i, false), Put(s, i, x, ac'));
  }

  /** Everything is still empty. */
  function Beginning(): State {
    State(P.State(0, {}, 0, map[], P.Waking, {}, multiset{}, multiset{}), map[], [], [], [], map[])
  }

  lemma {:induction false} BeginningIsReached()
    ensures Reached(Beginning())
  {
    var moves: seq<Move> := [];
    assert IsRun([Beginning()], moves) && [Beginning()][|moves|] == Beginning();
  }

  // ---------- Stretches that occur in several runs ----------

  /** A new async with a timer has been linked to its parent. */
  function WithNew(s: State): State {
    s.(asyncs := s.asyncs + [FreshAsync(Uncounted(|s.actors|), NoParent)],
       actors := s.actors + [Holder(|s.asyncs|).(pc := Counting(TIMEOUT))])
  }

  /** Its creator has gone on to store the deadline. */
  function WithHalfWritten(s: State): State {
    var i, deadline := |s.actors|, s.t.clock + TIMEOUT;
    s.(t := s.t.(armed := s.t.armed[i := deadline]),
       asyncs := s.asyncs + [FreshAsync(Arming(i), NoParent).(ref := 2, key := Key(0, deadline))],
       actors := s.actors + [Holder(|s.asyncs|).(pc := Enlisting)])
  }

  /** Somebody has taken a reference to async `a` and is about to do `pc`. */
  function WithCaller(s: State, a: nat, pc: Pc): State
    requires a < |s.asyncs|
  {
    s.(asyncs := s.asyncs[a := s.asyncs[a].(ref := s.asyncs[a].ref + 1)],
       actors := s.actors + [Holder(a).(refs := 1, pc := pc)])
  }

  lemma {:induction false} HalfWrittenIsReached(s: State)
    requires Reached(s) && |s.actors| !in s.t.armed && s.t.clock >= 0
    ensures Reached(WithNew(s)) && Reached(WithHalfWritten(s))
  {
    var a, i := |s.asyncs|, |s.actors|;
    var s1 := WithNew(s);
    ReachedExtends(s, New(TIMEOUT, NoParent), s1);
    var x2 := s1.asyncs[a].(ref := 2, timer := Arming(i));
    var s2 := Put(s1, i, x2, s1.actors[i].(pc := Storing(TIMEOUT)));
    LocalIsReached(s1, i, x2, s1.actors[i].(pc := Storing(TIMEOUT)));
    DeadlineIsStored(s2, i);
    assert WithHalfWritten(s).asyncs == s2.asyncs[a := x2.(key := Key(0, s.t.clock + TIMEOUT))];
    assert WithHalfWritten(s).actors == s2.actors[i := s2.actors[i].(pc := Enlisting)];
  }

  lemma {:induction false} DeadlineIsStored(s: State, i: nat)
    requires Reached(s) && i < |s.actors| && s.actors[i].target < |s.asyncs| && i !in s.t.armed && s.t.clock >= 0
    requires s.actors[i].pc == Storing(TIMEOUT) && s.asyncs[s.actors[i].target].key == NO_KEY
    ensures var x, deadline := s.asyncs[s.actors[i].target], s.t.clock + TIMEOUT;
            Reached(Put(s, i, x.(key := Key(0, deadline)), s.actors[i].(pc := Enlisting)).(
                    t := s.t.(armed := s.t.armed[i := deadline])))
  {
    var x, deadline := s.asyncs[s.actors[i].target], s.t.clock + TIMEOUT;
    ReachedExtends(s, StoreMove(i), Put(s, i, x.(key := Key(0, deadline)), s.actors[i].(pc := Enlisting)).(
                                    t := s.t.(armed := s.t.armed[i := deadline])));
  }

  lemma {:induction false} CallerIsReached(s: State, a: nat, pc: Pc)
    requires Reached(s) && a < |s.asyncs| && s.asyncs[a].ref > 0 && (pc.CancelTimer? || pc.NotifyTimer?)
    ensures Reached(WithCaller(s, a, pc))
  {
    var i := |s.actors|;
    var s1 := s.(actors := s.actors + [Holder(a)]);
    ReachedExtends(s, NewActor(a), s1);
    var x2 := s.asyncs[a].(ref := s.asyncs[a].ref + 1);
    var s2 := Put(s1, i, x2, s1.actors[i].(refs := 1));
    LocalIsReached(s1, i, x2, s1.actors[i].(refs := 1));
    var s3 := WithCaller(s, a, pc);
    assert s3 == Put(s2, i, x2, s3.actors[i]);
    LocalIsReached(s2, i, x2, s3.actors[i]);
  }

  /** The creator has taken the poll lock and inserted the timer under its new key. */
  function WithEnlisted(s: State, i: nat, key: Key): State
    requires i < |s.actors| && s.actors[i].target < |s.asyncs|
  {
    Put(s, i, s.asyncs[s.actors[i].target].(key := key, timer := InTree), s.actors[i].(pc := Idle)).(
      t := s.t.(pending := s.t.pending + {key}, seqno := s.t.seqno + 1, issued := s.t.issued + {key},
                armed := s.t.armed - {i}),
      nodes := s.nodes[key := OfAsync(s.actors[i].target)])
  }

  const FIRST := Key(0, TIMEOUT)

  /** The first timer of the process waits. */
  function FirstWaits(): State {
    WithEnlisted(WithHalfWritten(Beginning()), 0, FIRST)
  }

  lemma {:induction false} FirstWaitsIsReached()
    ensures Reached(FirstWaits())
  {
    BeginningIsReached();
    HalfWrittenIsReached(Beginning());
    ReachedExtends(WithHalfWritten(Beginning()), EnlistMove(0, FIRST), FirstWaits());
  }

  // ---------- A cancellation that finds somebody else's timer ----------

  /** A second async with the same deadline is being made, and somebody is about to cancel it. */
  function SecondHalfWritten(): State {
    WithCaller(WithHalfWritten(FirstWaits()), 1, CancelTimer)
  }

  /** Cancelling the second one has found the first one's timer and released the second's reference. */
  function WrongReferenceReleased(): State {
    var s := SecondHalfWritten();
    Put(s, 2, s.asyncs[1].(timer := Given, ref := 2), s.actors[2].(pc := Mark)).(
      t := s.t.(pending := {}, cancelled := multiset{FIRST}), nodes := map[])
  }

  lemma {:induction false} WrongReferenceIsReleased()
    ensures Reached(WrongReferenceReleased())
  {
    FirstWaitsIsReached();
    HalfWrittenIsReached(FirstWaits());
    CallerIsReached(WithHalfWritten(FirstWaits()), 1, CancelTimer);
    CancelFindsAndReleases(SecondHalfWritten(), 2);
    assert SecondHalfWritten().t.pending - {FIRST} == {} && SecondHalfWritten().nodes - {FIRST} == map[];
  }

  /** A cancellation takes out what is pending under its async's key, and releases a reference for it. */
  lemma {:induction false} CancelFindsAndReleases(s: State, i: nat)
    requires Reached(s) && i < |s.actors| && s.actors[i].target < |s.asyncs| && P.LockFree(s.t)
    requires s.actors[i].pc.CancelTimer?
    requires var x := s.asyncs[s.actors[i].target]; x.ref == 3 && x.key in s.t.pending
    ensures var x := s.asyncs[s.actors[i].target];
            Reached(Put(s, i, x.(timer := Given, ref := 2), s.actors[i].(pc := Mark)).(
                    t := s.t.(pending := s.t.pending - {x.key}, cancelled := s.t.cancelled + multiset{x.key}),
                    nodes := s.nodes - {x.key}))
  {
    var x, ac := s.asyncs[s.actors[i].target], s.actors[i];
    var t1 := s.t.(pending := s.t.pending - {x.key}, cancelled := s.t.cancelled + multiset{x.key});
    var s1 := Put(s, i, x.(timer := OwedBy(i)), ac.(pc := CancelDropTimer)).(t := t1, nodes := s.nodes - {x.key});
    assert P.CancelStep(s.t, x.key, true, t1);
    ReachedExtends(s, CancelMove(i, true), s1);
    LocalIsReached(s1, i, x.(timer := Given, ref := 2), ac.(pc := Mark));
  }

  lemma {:induction false} HeldByThree(actors: seq<Actor>, a: nat)
    requires |actors| == 3
    ensures Held(actors, a) == Holding(actors[0], a) + Holding(actors[1], a) + Holding(actors[2], a)
  {
    var rest := actors[1..];
    assert Held(actors, a) == Holding(actors[0], a) + Held(rest, a);
    assert Held(rest, a) == Holding(actors[1], a) + Held(rest[1..], a);
    assert rest[1..] == [actors[2]] && [actors[2]][1..] == [];
  }

  /**
    The first timer of the process waits.  A second async is created in the same
    tick with the same timeout, and is cancelled before it has its number.  Once
    it is enlisted nevertheless, its count is one too low, and the first async
    waits for a timer that is gone.
   */
  lemma {:induction false} WrongTimerIsCancelled() returns (s: State)
    ensures Reached(s) && |s.asyncs| == 2
    ensures s.asyncs[1].timer.InTree? && s.asyncs[1].key in s.t.pending
    ensures s.asyncs[1].ref == OwnerToken(s.asyncs[1]) + TimerToken(s.asyncs[1]) + Held(s.actors, 1) - 1
    ensures s.asyncs[0].timer.InTree? && s.asyncs[0].key !in s.t.pending
  {
    WrongReferenceIsReleased();
    s := WithEnlisted(WrongReferenceReleased(), 1, Key(1, TIMEOUT));
    ReachedExtends(WrongReferenceReleased(), EnlistMove(1, Key(1, TIMEOUT)), s);
    HeldByThree(s.actors, 1);
  }

  // ---------- A notification that frees what the creator still uses ----------

  /** Actor `i` notifies an async for the first time; the callback runs. */
  lemma {:induction false} CallbackRuns(s: State, i: nat)
    requires Reached(s) && i < |s.actors| && s.actors[i].target < |s.asyncs| && P.LockFree(s.t)
    requires s.actors[i].pc.NotifyTimer? && !s.asyncs[s.actors[i].target].called
    requires s.asyncs[s.actors[i].target].key !in s.t.pending && s.asyncs[s.actors[i].target].key !in s.nodes
    ensures var x := s.asyncs[s.actors[i].target];
            var x' := x.(called := true, owner := ToRelease(i), starts := x.starts + 1, finishes := x.finishes + 1);
            Reached(Put(s, i, x', s.actors[i].(pc := DropOwner)))
  {
    hide Reached;
    var x, ac := s.asyncs[s.actors[i].target], s.actors[i];
    MissIsReached(s, i, ac.(pc := NotifyTest));
    var s1 := Put(s, i, x, ac.(pc := NotifyTest));
    var x2 := x.(called := true, owner := RunBy(i), starts := x.starts + 1);
    LocalIsReached(s1, i, x2, ac.(pc := Completing));
    var s2 := Put(s1, i, x2, ac.(pc := Completing));
    var x3 := x2.(owner := ToRelease(i), finishes := x.finishes + 1);
    LocalIsReached(s2, i, x3, ac.(pc := DropOwner));
    assert Put(s2, i, x3, ac.(pc := DropOwner)) == Put(s, i, x3, ac.(pc := DropOwner));
  }

  /** Its runner releases the creation reference, which is not the last one. */
  lemma {:induction false} OwnerIsReleased(s: State, i: nat)
    requires Reached(s) && i < |s.actors| && s.actors[i].target < |s.asyncs|
    requires s.actors[i].pc.DropOwner? && !s.actors[i].handler && s.asyncs[s.actors[i].target].ref == 2
    ensures Reached(Put(s, i, s.asyncs[s.actors[i].target].(owner := Released, ref := 1),
                        s.actors[i].(pc := Idle)))
  {
    hide Reached;
    LocalIsReached(s, i, s.asyncs[s.actors[i].target].(owner := Released, ref := 1), s.actors[i].(pc := Idle));
  }

  /** Actor `i` gives up the only reference to its async. */
  lemma {:induction false} LastReferenceGoes(s: State, i: nat)
    requires Reached(s) && i < |s.actors| && s.actors[i].target < |s.asyncs|
    requires s.actors[i] == Holder(s.actors[i].target).(refs := 1)
    requires s.asyncs[s.actors[i].target].ref == 1
    ensures Reached(Put(s, i, s.asyncs[s.actors[i].target].(ref := 0, stage := Dying(i)),
                        s.actors[i].(refs := 0, pc := DestroyTimer(Idle))))
  {
    hide Reached;
    var x, ac := s.asyncs[s.actors[i].target], s.actors[i];
    LocalIsReached(s, i, x, ac.(pc := Dropping));
    var s1 := Put(s, i, x, ac.(pc := Dropping));
    var x2, ac2 := x.(ref := 0, stage := Dying(i)), ac.(refs := 0, pc := DestroyTimer(Idle));
    LocalIsReached(s1, i, x2, ac2);
    assert Put(s1, i, x2, ac2) == Put(s, i, x2, ac2);
  }

  /** The last release goes on to free the async, and clears its parent's link. */
  lemma {:induction false} DyingIsFreed(s: State, i: nat)
    requires Reached(s) && i < |s.actors| && s.actors[i].target < |s.asyncs| && P.LockFree(s.t)
    requires s.actors[i].pc == DestroyTimer(Idle)
    requires s.asyncs[s.actors[i].target].key !in s.t.pending && s.asyncs[s.actors[i].target].key !in s.nodes
    ensures var x := s.asyncs[s.actors[i].target];
            Reached(Put(s, i, x.(stage := Freed, frees := x.frees + 1), s.actors[i].(pc := Idle)).(
                    links := if x.parent.ChildOf? then s.links - {x.parent.id} else s.links))
  {
    hide Reached;
    var x, ac := s.asyncs[s.actors[i].target], s.actors[i];
    MissIsReached(s, i, ac.(pc := DestroyFree(Idle)));
    var s1 := Put(s, i, x, ac.(pc := DestroyFree(Idle)));
    var x2 := x.(stage := Freed, frees := x.frees + 1);
    LocalIsReached(s1, i, x2, ac.(pc := Idle));
    assert Put(s1, i, x2, ac.(pc := Idle)).asyncs == Put(s, i, x2, ac.(pc := Idle)).asyncs;
    assert Put(s1, i, x2, ac.(pc := Idle)).actors == Put(s, i, x2, ac.(pc := Idle)).actors;
  }

  /** Actor `i` notifies an async of two references and then gives up the other: the async is freed. */
  lemma {:induction false} NotifiedAndDropped(s: State, i: nat) returns (s': State)
    requires Reached(s) && i < |s.actors| && s.actors[i].target < |s.asyncs| && P.LockFree(s.t)
    requires s.actors[i] == Holder(s.actors[i].target).(refs := 1, pc := NotifyTimer)
    requires var x := s.asyncs[s.actors[i].target];
             && !x.called && x.ref == 2 && x.key !in s.t.pending && x.key !in s.nodes
    ensures Reached(s') && |s'.asyncs| == |s.asyncs| && s'.asyncs[s.actors[i].target].stage.Freed?
    ensures |s'.actors| == |s.actors| && forall j | 0 <= j < |s.actors| && j != i :: s'.actors[j] == s.actors[j]
  {
    hide Reached;
    var a := s.actors[i].target;
    var x, ac := s.asyncs[a], s.actors[i];
    CallbackRuns(s, i);
    var x1 := x.(called := true, owner := ToRelease(i), starts := x.starts + 1, finishes := x.finishes + 1);
    var s1 := Put(s, i, x1, ac.(pc := DropOwner));
    OwnerIsReleased(s1, i);
    var x2 := x1.(owner := Released, ref := 1);
    var s2 := Put(s1, i, x2, ac.(pc := Idle));
    LastReferenceGoes(s2, i);
    var x3, ac3 := x2.(ref := 0, stage := Dying(i)), ac.(refs := 0, pc := DestroyTimer(Idle));
    var s3 := Put(s2, i, x3, ac3);
    DyingIsFreed(s3, i);
    s' := Put(s3, i, x3.(stage := Freed, frees := x.frees + 1), ac3.(pc := Idle)).(
      links := if x.parent.ChildOf? then s.links - {x.parent.id} else s.links);
  }

  /**
    A new async is notified before its creator has counted the timer's reference:
    the notification and the caller give up the two references there are, and the
    async is freed under the creator's hands.
   */
  lemma {:induction false} CreatorCountsOnFreed() returns (s: State)
    ensures Reached(s) && |s.asyncs| == 1 && |s.actors| == 2
    ensures s.actors[0].pc.Counting? && s.actors[0].target == 0 && s.asyncs[0].stage.Freed?
  {
    BeginningIsReached();
    HalfWrittenIsReached(Beginning());
    CallerIsReached(WithNew(Beginning()), 0, NotifyTimer);
    s := NotifiedAndDropped(WithCaller(WithNew(Beginning()), 0, NotifyTimer), 1);
  }

  // ---------- A cancellation through the parent's link ----------

  /** A parent and its child, both without timers. */
  function ParentAndChild(): State {
    Beginning().(asyncs := [FreshAsync(NoTimer, NoParent), FreshAsync(NoTimer, ChildOf(0))],
                 actors := [Holder(0), Holder(1)], links := map[0 := 1])
  }

  lemma {:induction false} ParentAndChildAreReached()
    ensures Reached(ParentAndChild())
  {
    BeginningIsReached();
    var s1 := Beginning().(asyncs := [FreshAsync(NoTimer, NoParent)], actors := [Holder(0)]);
    ReachedExtends(Beginning(), New(0, NoParent), s1);
    ReachedExtends(s1, New(0, ChildOf(0)), ParentAndChild());
  }

  /**
    Cancelling the parent has found the child, and takes no reference to it.
    Meanwhile somebody else notifies the child and gives up its reference: the child
    is freed, and the cancellation still has all its steps on it before it.
   */
  lemma {:induction false} BorrowedIsFreed() returns (s: State)
    ensures Reached(s) && |s.asyncs| == 2 && |s.actors| == 4
    ensures s.actors[3].borrower && s.actors[3].target == 1 && s.actors[3].pc.CancelTimer?
    ensures s.asyncs[1].stage.Freed?
  {
    ParentAndChildAreReached();
    CallerIsReached(ParentAndChild(), 1, NotifyTimer);
    var s1 := WithCaller(ParentAndChild(), 1, NotifyTimer);
    var s2 := s1.(actors := s1.actors + [Actor(1, false, true, 0, 0, CancelTimer)]);
    ReachedExtends(s1, Borrow(0), s2);
    s := NotifiedAndDropped(s2, 2);
  }

  // ---------- A plain timer that takes out an async's ----------

  /**
    An async's timer is the first of the process and waits.  A plain timer with the
    same deadline is cancelled while it is being scheduled: the cancellation says
    that it found its timer, and the async's is gone.
   */
  lemma {:induction false} PlainCancelTakesAsyncs() returns (s: State)
    ensures Reached(s) && |s.asyncs| == 1 && |s.plains| == 1 && s.plains[0].half
    ensures s.asyncs[0].timer.InTree? && s.asyncs[0].key !in s.t.pending && s.t.cancelled == multiset{s.plains[0].key}
  {
    FirstWaitsIsReached();
    s := CancelledWhileStored(FirstWaits());
  }

  /** A plain timer is stored with the deadline of a pending timer of number zero, and is cancelled. */
  lemma {:induction false} CancelledWhileStored(s: State) returns (s': State)
    requires Reached(s) && P.LockFree(s.t) && s.t.armed == map[] && s.t.clock >= 0 && s.plains == []
    requires NO_KEY !in s.nodes
    requires Key(0, s.t.clock + TIMEOUT) in s.t.pending
    ensures Reached(s') && s'.asyncs == s.asyncs && s'.plains == [Plain(Key(0, s.t.clock + TIMEOUT), true)]
    ensures s'.t.pending == s.t.pending - {Key(0, s.t.clock + TIMEOUT)}
    ensures s'.t.cancelled == s.t.cancelled + multiset{Key(0, s.t.clock + TIMEOUT)}
  {
    var key := Key(0, s.t.clock + TIMEOUT);
    var s1 := s.(plains := [Plain(NO_KEY, false)]);
    ReachedExtends(s, NewPlain, s1);
    DeadlineOfPlain(s1);
    var s2 := s1.(t := s1.t.(armed := s1.t.armed[PlainScheduler(0) := key.timestamp]), plains := [Plain(key, true)]);
    s' := s2.(t := s2.t.(pending := s.t.pending - {key}, cancelled := s.t.cancelled + multiset{key}),
              nodes := s2.nodes - {key});
    ReachedExtends(s2, CancelPlain(0, true), s');
  }

  lemma {:induction false} DeadlineOfPlain(s: State)
    requires Reached(s) && s.t.armed == map[] && s.t.clock >= 0 && s.plains == [Plain(NO_KEY, false)]
    requires !Queued(s, 0)
    ensures var key := Key(0, s.t.clock + TIMEOUT);
            Reached(s.(t := s.t.(armed := s.t.armed[PlainScheduler(0) := key.timestamp]), plains := [Plain(key, true)]))
  {
    var key := Key(0, s.t.clock + TIMEOUT);
    var s' := s.(t := s.t.(armed := s.t.armed[PlainScheduler(0) := key.timestamp]), plains := [Plain(key, true)]);
    ReachedExtends(s, StorePlain(0, TIMEOUT), s');
  }
}
