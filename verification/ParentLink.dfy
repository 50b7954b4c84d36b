/**
  The links from parents to children in the lifecycle: every careful run is, for
  each parent, a run of `ChildLink`, and cancelling a child through its parent's
  link is safe as long as the child's count stays above zero.
 */
module ParentLink {
  import opened Keys
  import C = ChildLink
  import P = TimerProtocol
  import opened AsyncLifecycle
  import opened AsyncInvariant
  import opened AsyncRuns

  /** The children of `p` that have not been freed. */
  function Children(asyncs: seq<Async>, p: nat): set<nat> {
    set c: nat | c < |asyncs| && asyncs[c].parent == ChildOf(p) && !asyncs[c].stage.Freed?
  }

  function FamilyOf(s: State, p: nat): C.Family {
    C.Family(if p in s.links then C.Child(s.links[p]) else C.NoChild, Children(s.asyncs, p))
  }

  /** The move frees child `c` of `p`. */
  predicate Frees(s: State, m: Move, p: nat) {
    && m.LocalMove? && m.i < |s.actors| && s.actors[m.i].pc.DestroyFree?
    && s.actors[m.i].target < |s.asyncs| && s.asyncs[s.actors[m.i].target].parent == ChildOf(p)
  }

  /** What the move does to the children of `p`. */
  function StepOf(s: State, m: Move, p: nat): C.Step {
    if m.New? && m.parent == ChildOf(p) then C.Start(|s.asyncs|)
    else if Frees(s, m, p) then C.Finish(s.actors[m.i].target)
    else C.Stay
  }

  lemma {:induction false} StepKeepsFamily(i: nat, x: Async, ac: Actor, hit: bool, key: Key, x': Async, ac': Actor)
    requires Sound(x) && Agrees(i, ac, x) && Enough(x, ac)
    requires || LocalStep(i, x, ac, x', ac')
             || CancelTimerStep(i, x, ac, hit, x', ac')
             || StoreStep(i, x, ac, key.timestamp, x', ac')
             || EnlistStep(i, x, ac, key, x', ac')
    ensures x'.parent == x.parent
    ensures x'.stage.Freed? <==> x.stage.Freed? || (ac.pc.DestroyFree? && LocalStep(i, x, ac, x', ac'))
    ensures ac.pc.DestroyFree? ==> !x.stage.Freed?
  {
  }

  /** A move of one actor, as its async's parent sees it. */
  lemma {:induction false} ActorMoveIsStep(s: State, m: Move, s': State, p: nat)
    requires Inv(s) && Next(s, m, s') && ByActor(m)
    ensures FamilyOf(s', p) == C.After(FamilyOf(s, p), StepOf(s, m, p))
    ensures StepOf(s, m, p).Finish? ==> StepOf(s, m, p).id in Children(s.asyncs, p)
  {
    hide QueueInv, Sound, Agrees, Names, Conserved, Enough, Children;
    hide LocalStep, P.Next;
    var a, ac := s.actors[m.i].target, s.actors[m.i];
    var x, x' := s.asyncs[a], s'.asyncs[a];
    EnoughForActor(s, m.i);
    StepKeepsFamily(m.i, x, ac, m.CancelMove? && m.hit, x'.key, x', s'.actors[m.i]);
    FamilyAfter(s.asyncs, a, x', p, Frees(s, m, p));
    if Frees(s, m, p) {
      assert s'.links == s.links - {p};
    }
  }

  lemma {:induction false} FamilyAfter(asyncs: seq<Async>, a: nat, x: Async, p: nat, frees: bool)
    requires a < |asyncs| && x.parent == asyncs[a].parent && (frees ==> x.parent == ChildOf(p))
    requires x.parent == ChildOf(p) ==> (x.stage.Freed? <==> asyncs[a].stage.Freed? || frees)
    ensures Children(asyncs[a := x], p) == if frees then Children(asyncs, p) - {a} else Children(asyncs, p)
    ensures !asyncs[a].stage.Freed? && x.parent == ChildOf(p) ==> a in Children(asyncs, p)
  {
  }

  lemma {:induction false} FiringIsNoStep(s: State, key: Key, s': State, p: nat)
    requires Next(s, FireMove(key), s')
    ensures FamilyOf(s', p) == FamilyOf(s, p)
  {
    assert s' == Fired(s.(t := s'.t, nodes := s.nodes - {key}), s.nodes[key]);
    hide Next, Children;
    if s.nodes[key].OfAsync? && s.nodes[key].id < |s.asyncs| {
      var a := s.nodes[key].id;
      FamilyAfter(s.asyncs, a, s'.asyncs[a], p, false);
    }
  }

  /** Every harmless or harmful step from a sound state is one step of the parent's family. */
  lemma {:induction false} MoveIsStep(s: State, m: Move, s': State, p: nat)
    requires Inv(s) && Next(s, m, s')
    ensures FamilyOf(s', p) == C.After(FamilyOf(s, p), StepOf(s, m, p))
    ensures StepOf(s, m, p).Finish? ==> StepOf(s, m, p).id in Children(s.asyncs, p)
    ensures StepOf(s, m, p).Start? ==> StepOf(s, m, p).id !in Children(s.asyncs, p)
  {
    if ByActor(m) {
      ActorMoveIsStep(s, m, s', p);
    } else if m.FireMove? {
      FiringIsNoStep(s, m.key, s', p);
    } else if m.New? {
      hide Inv;
      assert Children(s'.asyncs, p)
          == if m.parent == ChildOf(p) then Children(s.asyncs, p) + {|s.asyncs|} else Children(s.asyncs, p);
    }
  }

  /** A run as the family of `p` sees it. */
  function Story(states: seq<State>, moves: seq<Move>, p: nat): (steps: seq<C.Step>)
    requires |states| == |moves| + 1
    ensures |steps| == |moves|
  {
    seq(|moves|, n requires 0 <= n < |moves| => StepOf(states[n], moves[n], p))
  }

  lemma {:induction false} RunsTellStories(states: seq<State>, moves: seq<Move>, n: nat, p: nat)
    requires IsRun(states, moves) && Careful(states, moves) && n < |states|
    ensures C.Run(Story(states, moves, p)[..n]) == FamilyOf(states[n], p)
  {
    var steps := Story(states, moves, p);
    if n == 0 {
      assert Children(states[0].asyncs, p) == {};
    } else {
      RunsTellStories(states, moves, n - 1, p);
      RunsKeepInv(states, moves, n - 1);
      MoveIsStep(states[n - 1], moves[n - 1], states[n], p);
      C.OneStep(steps, n - 1);
    }
  }

  lemma {:induction false} StoriesArePossible(states: seq<State>, moves: seq<Move>, p: nat)
    requires IsRun(states, moves) && Careful(states, moves)
    ensures C.Possible(Story(states, moves, p))
  {
    var steps := Story(states, moves, p);
    forall n | 0 <= n < |steps|
      ensures steps[n].Finish? ==> steps[n].id in C.LiveAt(steps, n)
      ensures steps[n].Start? ==> steps[n].id !in C.LiveAt(steps, n)
    {
      RunsTellStories(states, moves, n, p);
      RunsKeepInv(states, moves, n);
      MoveIsStep(states[n], moves[n], states[n + 1], p);
    }
  }

  /** In every state of a careful run a parent's link names no async but a child of its that has not been freed. */
  lemma {:induction false} LinksNameTheUnfreed(states: seq<State>, moves: seq<Move>, n: nat, p: nat)
    requires IsRun(states, moves) && Careful(states, moves) && n < |states| && p in states[n].links
    ensures var c := states[n].links[p];
            c < |states[n].asyncs| && states[n].asyncs[c].parent == ChildOf(p) && !states[n].asyncs[c].stage.Freed?
  {
    RunsTellStories(states, moves, n, p);
    C.LinkIsRightIff(Story(states, moves, p)[..n]);
    assert FamilyOf(states[n], p).link == C.Child(states[n].links[p]);
  }

  /**
    In a careful run cancelling `p` gets through to a child whenever one has not been
    freed, if and only if every child of `p` is freed while no other is left.
   */
  lemma {:induction false} LinkReachesIff(states: seq<State>, moves: seq<Move>, p: nat)
    requires IsRun(states, moves) && Careful(states, moves)
    ensures (forall n | 0 <= n < |states| :: Children(states[n].asyncs, p) != {} ==> p in states[n].links)
            <==> (forall n | 0 <= n < |moves| && Frees(states[n], moves[n], p) ::
                    Children(states[n].asyncs, p) == {states[n].actors[moves[n].i].target})
  {
    var steps := Story(states, moves, p);
    StoriesArePossible(states, moves, p);
    C.AlwaysRightIff(steps);
    forall n | 0 <= n < |states|
      ensures C.Reaches(C.Run(steps[..n])) <==> (Children(states[n].asyncs, p) != {} ==> p in states[n].links)
    {
      RunsTellStories(states, moves, n, p);
      C.LinkIsRightIff(steps[..n]);
    }
    forall n | 0 <= n < |moves|
      ensures C.LiveAt(steps, n) == Children(states[n].asyncs, p)
      ensures Frees(states[n], moves[n], p) <==> steps[n].Finish?
      ensures steps[n].Finish? ==> steps[n].id == states[n].actors[moves[n].i].target
    {
      RunsTellStories(states, moves, n, p);
    }
  }

  // ---------- Cancelling a child through the link ----------

  /** An actor stays on its async and does not change its kind. */
  lemma {:induction false} ActorsPersist(s: State, m: Move, s': State, j: nat)
    requires Next(s, m, s') && j < |s.actors|
    ensures j < |s'.actors| && s'.actors[j].target == s.actors[j].target
    ensures s'.actors[j].borrower == s.actors[j].borrower
  {
    if ByActor(m) && m.i == j {
      ActorPersists(j, s.asyncs[s.actors[j].target], s.actors[j], m.CancelMove? && m.hit,
                    s'.asyncs[s.actors[j].target].key, s'.asyncs[s.actors[j].target], s'.actors[j]);
    }
  }

  lemma {:induction false} ActorPersists(i: nat, x: Async, ac: Actor, hit: bool, key: Key, x': Async, ac': Actor)
    requires || LocalStep(i, x, ac, x', ac')
             || CancelTimerStep(i, x, ac, hit, x', ac')
             || StoreStep(i, x, ac, key.timestamp, x', ac')
             || EnlistStep(i, x, ac, key, x', ac')
    ensures ac'.target == ac.target && ac'.borrower == ac.borrower
  {
  }

  lemma {:induction false} BorrowerPersists(states: seq<State>, moves: seq<Move>, m: nat, n: nat)
    requires IsRun(states, moves) && m < n < |states| && moves[m].Borrow?
    ensures var j := |states[m].actors|;
            && moves[m].from in states[m].links && j < |states[n].actors|
            && states[n].actors[j].target == states[m].links[moves[m].from] && states[n].actors[j].borrower
  {
    assert Next(states[m], moves[m], states[m + 1]);
    if m + 1 < n {
      BorrowerPersists(states, moves, m, n - 1);
      assert Next(states[n - 1], moves[n - 1], states[n]);
      ActorsPersist(states[n - 1], moves[n - 1], states[n], |states[m].actors|);
    }
  }

  /**
    In a careful run an async that is found through its parent's link is alive when
    it is found, and stays alive until the cancellation is over.
   */
  lemma {:induction false} BorrowedStaysAlive(states: seq<State>, moves: seq<Move>, m: nat, n: nat)
    requires IsRun(states, moves) && Careful(states, moves) && m < n < |states| && moves[m].Borrow?
    ensures moves[m].from in states[m].links && states[m].links[moves[m].from] < |states[m].asyncs|
    ensures states[m].asyncs[states[m].links[moves[m].from]].stage.Live?
    ensures var j, c := |states[m].actors|, states[m].links[moves[m].from];
            && j < |states[n].actors| && c < |states[n].asyncs|
            && (Exposed(states[n].actors[j]) ==> states[n].asyncs[c].stage.Live?)
  {
    assert Next(states[m], moves[m], states[m + 1]) && !Harmful(states[m], moves[m]);
    BorrowerPersists(states, moves, m, n);
    NobodyTouchesFreed(states, moves, n, |states[m].actors|);
  }

  /** Finding a child through the link does no harm if and only if its count is not zero yet. */
  lemma {:induction false} BorrowIsHarmlessIff(states: seq<State>, moves: seq<Move>, n: nat, s': State, p: nat)
    requires IsRun(states, moves) && Careful(states, moves) && n < |states| && Next(states[n], Borrow(p), s')
    ensures Inv(s') <==> states[n].asyncs[states[n].links[p]].ref > 0
  {
    RunsKeepInv(states, moves, n);
    InvSurvivesIffHarmless(states[n], Borrow(p), s');
    assert Sound(states[n].asyncs[states[n].links[p]]);
  }

  /**
    While a cancellation through the link is under way, a release by somebody else
    does no harm if and only if it is not the last one.
   */
  lemma {:induction false} ReleaseIsHarmlessIff(s: State, i: nat, j: nat, s': State)
    requires Inv(s) && Next(s, LocalMove(i), s') && GivesBack(s.actors[i].pc)
    requires j < |s.actors| && j != i && s.actors[j].target == s.actors[i].target
    requires s.actors[j].borrower && Exposed(s.actors[j])
    ensures Inv(s') <==> s.asyncs[s.actors[i].target].ref > 1
  {
    InvSurvivesIffHarmless(s, LocalMove(i), s');
    EnoughForActor(s, i);
    assert Agrees(j, s.actors[j], s.asyncs[s.actors[j].target]);
  }
}
