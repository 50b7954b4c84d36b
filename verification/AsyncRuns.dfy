/**
  Whole runs of the lifecycle.  What concerns the callback holds in every run; the
  references are in order throughout a run if and only if no step of it is harmful.
  In runs that are harmed somebody may act on an async that has been freed; its
  fields are taken to keep their values.
 */
module AsyncRuns {
  import opened Keys
  import P = TimerProtocol
  import opened AsyncLifecycle
  import opened AsyncInvariant

  ghost predicate IsRun(states: seq<State>, moves: seq<Move>) {
    && |states| == |moves| + 1
    && Init(states[0])
    && forall i | 0 <= i < |moves| :: Next(states[i], moves[i], states[i + 1])
  }

  // ---------- The callback, whatever else happens ----------

  /** This much holds in every state of every run, harmed or not. */
  ghost predicate CallbackInv(asyncs: seq<Async>, actors: seq<Actor>) {
    && (forall a | 0 <= a < |asyncs| :: CallbackSound(asyncs[a]) && RunnerNamed(asyncs[a], a, actors))
    && (forall i | 0 <= i < |actors| ::
          && actors[i].target < |asyncs|
          && CallbackAgrees(i, actors[i], asyncs[actors[i].target])
          && (Destroying(actors[i].pc) ==> GoesElsewhere(actors[i].pc.next)))
  }

  predicate GoesElsewhere(pc: Pc) {
    !pc.Completing? && !pc.DropOwner? && !Destroying(pc)
  }

  predicate RunnerNamed(x: Async, a: nat, actors: seq<Actor>) {
    x.owner.RunBy? || x.owner.ToRelease? ==> x.owner.who < |actors| && actors[x.owner.who].target == a
  }

  /** What one actor's step does to what concerns the callback, and which marks it may not undo. */
  ghost predicate CallbackStep(i: nat, x: Async, ac: Actor, x': Async, ac': Actor) {
    && ac'.target == ac.target && CallbackSound(x') && CallbackAgrees(i, ac', x')
    && (Destroying(ac'.pc) ==> GoesElsewhere(ac'.pc.next))
    && (x'.owner == x.owner || (Mine(i, x.owner) && Mine(i, x'.owner)))
    && MarksStay(x, x')
  }

  /** What happened to the async is not undone. */
  ghost predicate MarksStay(x: Async, x': Async) {
    && (x.canceled ==> x'.canceled) && (x.called ==> x'.called)
    && x.starts <= x'.starts && x.finishes <= x'.finishes && x.frees <= x'.frees
    && (x.owner.Released? ==> x'.owner.Released?)
  }

  lemma {:induction false} ReleaseKeepsCallback(i: nat, x: Async, ac: Actor, next: Pc)
    requires CallbackSound(x) && GoesElsewhere(next) && x.owner != RunBy(i) && x.owner != ToRelease(i)
    ensures CallbackStep(i, x, ac, Release(i, x, ac, next).0, Release(i, x, ac, next).1)
  {
  }

  lemma {:induction false} LocalStepKeepsCallback(i: nat, x: Async, ac: Actor, x': Async, ac': Actor)
    requires CallbackSound(x) && CallbackAgrees(i, ac, x) && LocalStep(i, x, ac, x', ac')
    requires Destroying(ac.pc) ==> GoesElsewhere(ac.pc.next)
    ensures CallbackStep(i, x, ac, x', ac')
  {
    match ac.pc
    case NotifyDropTimer => ReleaseKeepsCallback(i, x.(timer := Given), ac, NotifyTest);
    case DropOwner => ReleaseKeepsCallback(i, x.(owner := Released), ac, After(ac));
    case CancelDropTimer => ReleaseKeepsCallback(i, x.(timer := Given), ac, Mark);
    case Leaving => ReleaseKeepsCallback(i, x, ac.(open := ac.open - 1), Idle);
    case Dropping => ReleaseKeepsCallback(i, x, ac.(refs := ac.refs - 1), Idle);
    case HandlerDrop => ReleaseKeepsCallback(i, x.(timer := Given), ac, Idle);
    case _ => hide Release;
  }

  lemma {:induction false} QueueStepKeepsCallback(
    i: nat, x: Async, ac: Actor, hit: bool, key: Key, x': Async, ac': Actor)
    requires CallbackSound(x) && CallbackAgrees(i, ac, x)
    requires Destroying(ac.pc) ==> GoesElsewhere(ac.pc.next)
    requires || CancelTimerStep(i, x, ac, hit, x', ac')
             || StoreStep(i, x, ac, key.timestamp, x', ac')
             || EnlistStep(i, x, ac, key, x', ac')
    ensures CallbackStep(i, x, ac, x', ac')
  {
  }

  lemma {:induction false} PutKeepsCallback(asyncs: seq<Async>, actors: seq<Actor>, i: nat, x': Async, ac': Actor)
    requires CallbackInv(asyncs, actors) && i < |actors|
    requires CallbackStep(i, asyncs[actors[i].target], actors[i], x', ac')
    ensures CallbackInv(asyncs[actors[i].target := x'], actors[i := ac'])
  {
    var asyncs', actors' := asyncs[actors[i].target := x'], actors[i := ac'];
    forall b | 0 <= b < |asyncs'| ensures CallbackSound(asyncs'[b]) && RunnerNamed(asyncs'[b], b, actors') {
      assert RunnerNamed(asyncs[b], b, actors);
    }
    forall j | 0 <= j < |actors'|
      ensures && actors'[j].target < |asyncs'|
              && CallbackAgrees(j, actors'[j], asyncs'[actors'[j].target])
              && (Destroying(actors'[j].pc) ==> GoesElsewhere(actors'[j].pc.next))
    {
      assert CallbackAgrees(j, actors[j], asyncs[actors[j].target]);
    }
  }

  /** Neither a new actor nor what a step does to a timer concerns the callback. */
  lemma {:induction false} JoinKeepsCallback(asyncs: seq<Async>, actors: seq<Actor>, asyncs': seq<Async>, ac: Actor)
    requires CallbackInv(asyncs, actors) && |asyncs| <= |asyncs'| && ac.target < |asyncs'|
    requires forall a | 0 <= a < |asyncs| :: asyncs'[a] == asyncs[a].(timer := asyncs'[a].timer)
    requires forall a | |asyncs| <= a < |asyncs'| :: CallbackSound(asyncs'[a]) && asyncs'[a].owner.Unclaimed?
    requires GoesElsewhere(ac.pc)
    ensures CallbackInv(asyncs', actors + [ac])
  {
    var actors' := actors + [ac];
    forall b | 0 <= b < |asyncs'| ensures CallbackSound(asyncs'[b]) && RunnerNamed(asyncs'[b], b, actors') {
      if b < |asyncs| {
        assert CallbackSound(asyncs[b]) && RunnerNamed(asyncs[b], b, actors);
      }
    }
    forall j | 0 <= j < |actors'|
      ensures && actors'[j].target < |asyncs'|
              && CallbackAgrees(j, actors'[j], asyncs'[actors'[j].target])
              && (Destroying(actors'[j].pc) ==> GoesElsewhere(actors'[j].pc.next))
    {
      if j < |actors| {
        assert CallbackAgrees(j, actors[j], asyncs[actors[j].target]);
      } else if ac.target < |asyncs| {
        assert RunnerNamed(asyncs[ac.target], ac.target, actors);
      }
    }
  }

  /** The actor's own moves. */
  predicate ByActor(m: Move) {
    m.StoreMove? || m.EnlistMove? || m.LocalMove? || m.CancelMove?
  }

  lemma {:induction false} ActorKeepsCallback(s: State, m: Move, s': State)
    requires CallbackInv(s.asyncs, s.actors) && Next(s, m, s') && ByActor(m)
    ensures CallbackInv(s'.asyncs, s'.actors)
    ensures var a := s.actors[m.i].target;
            a < |s.asyncs| && s'.asyncs == s.asyncs[a := s'.asyncs[a]] && MarksStay(s.asyncs[a], s'.asyncs[a])
  {
    var i := m.i;
    var x, ac := s.asyncs[s.actors[i].target], s.actors[i];
    var x', ac' := s'.asyncs[ac.target], s'.actors[i];
    assert CallbackSound(x) && CallbackAgrees(i, ac, x);
    if m.LocalMove? {
      LocalStepKeepsCallback(i, x, ac, x', ac');
    } else {
      QueueStepKeepsCallback(i, x, ac, m.CancelMove? && m.hit, x'.key, x', ac');
    }
    PutKeepsCallback(s.asyncs, s.actors, i, x', ac');
  }

  lemma {:induction false} NextKeepsCallback(s: State, m: Move, s': State)
    requires CallbackInv(s.asyncs, s.actors) && Next(s, m, s')
    ensures CallbackInv(s'.asyncs, s'.actors)
    ensures |s.asyncs| <= |s'.asyncs| && forall a | 0 <= a < |s.asyncs| :: MarksStay(s.asyncs[a], s'.asyncs[a])
  {
    if ByActor(m) {
      ActorKeepsCallback(s, m, s');
    } else if s'.actors != s.actors {
      JoinKeepsCallback(s.asyncs, s.actors, s'.asyncs, s'.actors[|s.actors|]);
    }
  }

  /** Every pending timer has its node in the tree, so whatever is fired has its procedure called. */
  lemma {:induction false} NextKeepsStock(s: State, m: Move, s': State)
    requires Stocked(s.t, s.nodes, |s.asyncs|, |s.plains|) && Next(s, m, s')
    ensures Stocked(s'.t, s'.nodes, |s'.asyncs|, |s'.plains|)
  {
  }

  lemma {:induction false} RunsKeepCallback(states: seq<State>, moves: seq<Move>, n: nat)
    requires IsRun(states, moves) && n < |states|
    ensures CallbackInv(states[n].asyncs, states[n].actors)
    ensures Stocked(states[n].t, states[n].nodes, |states[n].asyncs|, |states[n].plains|)
  {
    if n > 0 {
      RunsKeepCallback(states, moves, n - 1);
      NextKeepsCallback(states[n - 1], moves[n - 1], states[n]);
      NextKeepsStock(states[n - 1], moves[n - 1], states[n]);
    }
  }

  /** The callback starts at most once, and has run to its end once its runner goes on to release. */
  lemma {:induction false} CallbackRunsAtMostOnce(states: seq<State>, moves: seq<Move>, n: nat, a: nat)
    requires IsRun(states, moves) && n < |states| && a < |states[n].asyncs|
    ensures var x := states[n].asyncs[a];
            && x.finishes <= x.starts <= 1
            && (x.called <==> x.starts == 1)
            && (x.owner.ToRelease? || x.owner.Released? ==> x.finishes == 1)
            && (x.called && x.finishes == 0 ==>
                  x.owner.RunBy? && x.owner.who < |states[n].actors| && states[n].actors[x.owner.who].pc.Completing?)
  {
    RunsKeepCallback(states, moves, n);
    var s := states[n];
    var x := s.asyncs[a];
    assert CallbackSound(x) && RunnerNamed(x, a, s.actors);
    if x.owner.RunBy? {
      assert CallbackAgrees(x.owner.who, s.actors[x.owner.who], x);
    }
  }

  /** In every run every pending key has its node in the tree; a firing is never left without its handler. */
  lemma {:induction false} EveryTimerHasItsNode(states: seq<State>, moves: seq<Move>, n: nat)
    requires IsRun(states, moves) && n < |moves|
    ensures states[n].nodes.Keys == states[n].t.pending
    ensures moves[n].FireMove? ==>
              var s, s', key := states[n], states[n + 1], moves[n].key;
              && key in s.nodes
              && match s.nodes[key]
                 case OfAsync(a) =>
                   && a < |s.asyncs| && s'.asyncs[a].timer == OwedBy(|s.actors|)
                   && s'.actors == s.actors + [Actor(a, true, false, 0, 0, Mark)]
                 case OfPlain(j) => j < |s.plains| && s'.actors == s.actors
  {
    RunsKeepCallback(states, moves, n);
    assert Next(states[n], moves[n], states[n + 1]);
  }

  /** Over any stretch of any run. */
  lemma {:induction false} MarksStayMarked(states: seq<State>, moves: seq<Move>, m: nat, n: nat, a: nat)
    requires IsRun(states, moves) && m <= n < |states| && a < |states[m].asyncs|
    ensures a < |states[n].asyncs| && MarksStay(states[m].asyncs[a], states[n].asyncs[a])
    decreases n - m
  {
    if m < n {
      MarksStayMarked(states, moves, m, n - 1, a);
      RunsKeepCallback(states, moves, n - 1);
      NextKeepsCallback(states[n - 1], moves[n - 1], states[n]);
    }
  }

  // ---------- Half-written keys ----------

  /**
    Cancelling the timer of an async that is being made finds something exactly
    if a timer is pending under the half-written key, which is the number zero with
    the same deadline.  It is another's node that is taken out then; an async that
    waits for it is told nothing.
   */
  lemma {:induction false} HalfWrittenKeyHitsAnother(s: State, i: nat, hit: bool, s': State)
    requires Inv(s) && Next(s, CancelMove(i, hit), s')
    requires s.asyncs[s.actors[i].target].timer.Arming?
    ensures var a := s.actors[i].target;
            var key := s.asyncs[a].key;
            && key.id == 0 && (hit <==> key in s.t.pending) && (Inv(s') <==> !hit)
            && (hit ==>
                  && key in s.nodes && (s.nodes[key].OfAsync? ==> s.nodes[key].id < |s.asyncs| == |s'.asyncs|)
                  && s.nodes[key] != OfAsync(a) && key in s.t.issued && key !in s'.t.pending
                  && (s.nodes[key].OfAsync? ==> s'.asyncs[s.nodes[key].id].timer.InTree?))
  {
    HalfWrittenIsNotInTree(s, s.actors[i].target);
    InvSurvivesIffHarmless(s, CancelMove(i, hit), s');
    CancelLeavesOthers(s, i, hit, s');
    hide Inv, Next, P.Next;
  }

  lemma {:induction false} CancelLeavesOthers(s: State, i: nat, hit: bool, s': State)
    requires Next(s, CancelMove(i, hit), s')
    ensures var a := s.actors[i].target;
            && a < |s.asyncs| == |s'.asyncs| && hit == (s.asyncs[a].key in s.t.pending)
            && s'.t.pending == s.t.pending - {s.asyncs[a].key}
            && forall b | 0 <= b < |s.asyncs| && b != a :: s'.asyncs[b] == s.asyncs[b]
  {
  }

  lemma {:induction false} HalfWrittenIsNotInTree(s: State, a: nat)
    requires Inv(s) && a < |s.asyncs| && s.asyncs[a].timer.Arming?
    ensures var key := s.asyncs[a].key;
            && key.id == 0 && (key in s.nodes <==> key in s.t.pending)
            && (key in s.nodes ==>
                  && s.nodes[key] != OfAsync(a) && key in s.t.issued
                  && (s.nodes[key].OfAsync? ==>
                        s.nodes[key].id < |s.asyncs| && s.asyncs[s.nodes[key].id].timer.InTree?))
  {
    assert Sound(s.asyncs[a]);
    if s.asyncs[a].key in s.nodes {
      InTreeIsIssued(s, s.asyncs[a].key);
    }
  }

  /**
    Cancelling a plain timer takes out its own node or none, unless its key is half
    written with the number zero; the invariant survives exactly if no async's node
    is taken out.
   */
  lemma {:induction false} PlainCancelHitsItself(s: State, j: nat, hit: bool, s': State)
    requires Inv(s) && Next(s, CancelPlain(j, hit), s')
    ensures var p := s.plains[j];
            && (hit <==> p.key in s.nodes)
            && (hit ==> s.nodes[p.key] == OfPlain(j) || (p.half && p.key.id == 0))
            && (Inv(s') <==> !(hit && s.nodes[p.key].OfAsync?))
  {
    hide ActorsInv, AsyncsLinked, PlainsLinked, P.Inv;
    PlainFindsItself(s, j);
    InvSurvivesIffHarmless(s, CancelPlain(j, hit), s');
  }

  /** A key that is spent is never pending again, so whoever waits for it waits for ever. */
  lemma {:induction false} SpentStaysSpent(states: seq<State>, moves: seq<Move>, m: nat, n: nat, key: Key)
    requires IsRun(states, moves) && m <= n < |states|
    requires key in states[m].t.issued && key !in states[m].t.pending
    ensures key in states[n].t.issued && key !in states[n].t.pending && P.Inv(states[n].t)
    decreases n - m
  {
    hide Next, P.Inv;
    TimersRun(states, moves, n);
    if m < n {
      SpentStaysSpent(states, moves, m, n - 1, key);
      NextKeepsSpent(states[n - 1], moves[n - 1], states[n], key);
    }
  }

  lemma {:induction false} NextKeepsSpent(s: State, m: Move, s': State, key: Key)
    requires P.Inv(s.t) && Next(s, m, s') && key in s.t.issued && key !in s.t.pending
    ensures key in s'.t.issued && key !in s'.t.pending
  {
    hide LocalStep, CancelTimerStep, StoreStep, EnlistStep, LinksAfter;
    match m
    case EnlistMove(i, k) => P.EnlistKeepsInv(s.t, i, k, s'.t);
    case EnlistPlain(j, k) => P.EnlistKeepsInv(s.t, PlainScheduler(j), k, s'.t);
    case _ =>
  }

  /** The event of the timer protocol that a move performs, if any. */
  lemma {:induction false} TimersStep(s: State, m: Move, s': State)
    requires P.Inv(s.t) && Next(s, m, s')
    ensures P.Inv(s'.t)
  {
    if s'.t != s.t {
      match m
      case TimerMove(e) => P.NextKeepsInv(s.t, e, s'.t);
      case StoreMove(i) => P.NextKeepsInv(s.t, P.Arm(i, s.t.clock + s.actors[i].pc.timeout), s'.t);
      case EnlistMove(i, key) => P.NextKeepsInv(s.t, P.Enlist(i, key), s'.t);
      case FireMove(key) => P.NextKeepsInv(s.t, P.Fire(key), s'.t);
      case CancelMove(i, hit) => P.NextKeepsInv(s.t, P.Cancel(s.asyncs[s.actors[i].target].key, hit), s'.t);
      case StorePlain(j, timeout) =>
        P.NextKeepsInv(s.t, P.Arm(PlainScheduler(j), s.t.clock + timeout), s'.t);
      case EnlistPlain(j, key) => P.NextKeepsInv(s.t, P.Enlist(PlainScheduler(j), key), s'.t);
      case CancelPlain(j, hit) => P.NextKeepsInv(s.t, P.Cancel(s.plains[j].key, hit), s'.t);
      case _ =>
    }
  }

  /** Whatever happens to the asyncs, the timers below keep their own invariant. */
  lemma {:induction false} TimersRun(states: seq<State>, moves: seq<Move>, n: nat)
    requires IsRun(states, moves) && n < |states|
    ensures P.Inv(states[n].t)
  {
    if n == 0 {
      P.InitEstablishesInv(states[0].t);
    } else {
      TimersRun(states, moves, n - 1);
      TimersStep(states[n - 1], moves[n - 1], states[n]);
    }
  }

  // ---------- Careful runs ----------

  /** No step of the run is harmful. */
  ghost predicate Careful(states: seq<State>, moves: seq<Move>) {
    |states| == |moves| + 1 && forall n | 0 <= n < |moves| :: !Harmful(states[n], moves[n])
  }

  lemma {:induction false} InitEstablishesInv(s: State)
    requires Init(s)
    ensures Inv(s)
  {
    P.InitEstablishesInv(s.t);
  }

  lemma {:induction false} RunsKeepInv(states: seq<State>, moves: seq<Move>, n: nat)
    requires IsRun(states, moves) && n < |states| && Careful(states, moves)
    ensures Inv(states[n])
  {
    if n == 0 {
      InitEstablishesInv(states[0]);
    } else {
      RunsKeepInv(states, moves, n - 1);
      NextKeepsInv(states[n - 1], moves[n - 1], states[n]);
    }
  }

  /** The invariant holds throughout a run if and only if no step of the run is harmful. */
  lemma {:induction false} RunIsSafeIffCareful(states: seq<State>, moves: seq<Move>)
    requires IsRun(states, moves)
    ensures (forall n | 0 <= n < |states| :: Inv(states[n])) <==> Careful(states, moves)
  {
    if Careful(states, moves) {
      forall n | 0 <= n < |states| ensures Inv(states[n]) {
        RunsKeepInv(states, moves, n);
      }
    } else {
      var n :| 0 <= n < |moves| && Harmful(states[n], moves[n]);
      if Inv(states[n]) {
        InvSurvivesIffHarmless(states[n], moves[n], states[n + 1]);
        assert !Inv(states[n + 1]);
      }
    }
  }

  /**
    Nobody acts on an async or cancels a plain timer whose creation or schedule call
    has not returned, and while an async is cancelled through its parent's link
    somebody keeps a reference to it.
   */
  ghost predicate Patient(states: seq<State>, moves: seq<Move>) {
    |states| == |moves| + 1 && forall n | 0 <= n < |moves| :: !Careless(states[n], moves[n])
  }

  /** Two actors' references to one async are both counted. */
  lemma {:induction false} HeldByTwo(actors: seq<Actor>, h: nat, i: nat, a: nat)
    requires h < |actors| && i < |actors| && h != i && actors[h].target == a && actors[i].target == a
    ensures Held(actors, a) >= actors[h].refs + actors[h].open + actors[i].refs + actors[i].open
  {
    HeldAfterUpdate(actors, i, Holder(a), a);
    HeldAtLeast(actors[i := Holder(a)], h);
  }

  /** Somebody else's reference keeps the count above the one that is given up. */
  lemma {:induction false} HoldersKeepAlive(s: State, i: nat)
    requires ActorsInv(s.asyncs, s.actors) && i < |s.actors| && GivesBack(s.actors[i].pc)
    requires HeldByOther(s, s.actors[i].target, i)
    ensures s.asyncs[s.actors[i].target].ref > 1
  {
    var a := s.actors[i].target;
    var h :| 0 <= h < |s.actors| && h != i && s.actors[h].target == a && s.actors[h].refs + s.actors[h].open > 0;
    HeldByTwo(s.actors, h, i, a);
    assert Conserved(s.asyncs[a], a, s.actors);
    assert Agrees(i, s.actors[i], s.asyncs[a]);
  }

  lemma {:induction false} HeldIsLive(s: State, a: nat, i: nat)
    requires ActorsInv(s.asyncs, s.actors) && a < |s.asyncs| && HeldByOther(s, a, i)
    ensures s.asyncs[a].stage.Live?
  {
    var h :| 0 <= h < |s.actors| && h != i && s.actors[h].target == a && s.actors[h].refs + s.actors[h].open > 0;
    HeldAtLeast(s.actors, h);
    assert Conserved(s.asyncs[a], a, s.actors) && Sound(s.asyncs[a]);
  }

  /** Harm comes of carelessness only. */
  lemma {:induction false} HarmIsCareless(s: State, m: Move, s': State)
    requires Inv(s) && Next(s, m, s') && Harmful(s, m)
    ensures Careless(s, m)
  {
    if m.LocalMove? {
      ReleaseIsCareless(s, m.i);
    } else if m.CancelMove? {
      assert Agrees(m.i, s.actors[m.i], s.asyncs[s.actors[m.i].target]);
    } else if m.Borrow? && HeldByOther(s, s.links[m.from], |s.actors|) {
      HeldIsLive(s, s.links[m.from], |s.actors|);
    }
  }

  lemma {:induction false} ReleaseIsCareless(s: State, i: nat)
    requires Inv(s) && Harmful(s, LocalMove(i))
    ensures Careless(s, LocalMove(i))
  {
    var a := s.actors[i].target;
    assert Agrees(i, s.actors[i], s.asyncs[a]);
    if HeldByOther(s, a, i) {
      HoldersKeepAlive(s, i);
    } else if Uncovers(s, i) {
      var j :| 0 <= j < |s.actors| && j != i && s.actors[j].target == a && Exposed(s.actors[j]);
      assert Agrees(j, s.actors[j], s.asyncs[a]);
    }
  }

  /** What callers can see to is enough. */
  lemma {:induction false} PatienceIsEnough(states: seq<State>, moves: seq<Move>, n: nat)
    requires IsRun(states, moves) && Patient(states, moves) && n < |states|
    ensures Inv(states[n]) && (n < |moves| ==> !Harmful(states[n], moves[n]))
  {
    if n == 0 {
      InitEstablishesInv(states[0]);
    } else {
      PatienceIsEnough(states, moves, n - 1);
      NextKeepsInv(states[n - 1], moves[n - 1], states[n]);
    }
    if n < |moves| && Harmful(states[n], moves[n]) {
      HarmIsCareless(states[n], moves[n], states[n + 1]);
      assert false;
    }
  }

  /**
    Reference conservation in every state of a careful run: the count is the
    creation reference until the callback's runner has released it, the timer
    reference from when it is counted until its one holder has released it, and
    the references of all actors.
   */
  lemma {:induction false} ReferencesAreConserved(states: seq<State>, moves: seq<Move>, n: nat, a: nat)
    requires IsRun(states, moves) && Careful(states, moves) && n < |states| && a < |states[n].asyncs|
    ensures states[n].asyncs[a].ref
            == OwnerToken(states[n].asyncs[a]) + TimerToken(states[n].asyncs[a]) + Held(states[n].actors, a)
  {
    RunsKeepInv(states, moves, n);
    assert Conserved(states[n].asyncs[a], a, states[n].actors);
  }

  /**
    An async that is being destroyed, or has been, ran its callback to the end,
    has no timer that could still fire, nobody refers to it, and it is freed at
    most once.
   */
  lemma {:induction false} FreedOnlyWhenDone(states: seq<State>, moves: seq<Move>, n: nat, a: nat)
    requires IsRun(states, moves) && Careful(states, moves) && n < |states| && a < |states[n].asyncs|
    ensures var x := states[n].asyncs[a];
            && x.frees <= 1 && (x.frees == 1 <==> x.stage.Freed?)
            && (!x.stage.Live? ==>
                  && x.finishes == 1 && x.owner.Released? && (x.timer.NoTimer? || x.timer.Given?)
                  && x.key !in states[n].t.pending && Held(states[n].actors, a) == 0)
  {
    RunsKeepInv(states, moves, n);
    var s := states[n];
    assert Sound(s.asyncs[a]) && Conserved(s.asyncs[a], a, s.actors);
    NoKeyIsNeverPending(s.t);
  }

  /**
    Whoever is about to touch an async finds it alive, or is the one destroying it;
    this includes those who cancel it through its parent's link and have no reference.
   */
  lemma {:induction false} NobodyTouchesFreed(states: seq<State>, moves: seq<Move>, n: nat, i: nat)
    requires IsRun(states, moves) && Careful(states, moves) && n < |states| && i < |states[n].actors|
    ensures var ac := states[n].actors[i];
            && ac.target < |states[n].asyncs|
            && var x := states[n].asyncs[ac.target];
               && (ac.refs + ac.open > 0 ==> x.stage.Live?)
               && (!ac.pc.Idle? && !Destroying(ac.pc) ==> x.stage.Live?)
               && (Destroying(ac.pc) ==> x.stage == Dying(i))
  {
    RunsKeepInv(states, moves, n);
    var s := states[n];
    var ac := s.actors[i];
    EnoughForActor(s, i);
  }

  /**
    An async's timer fires while the async is alive and waits for it.  Every pending
    key is a waiting async's, alive, or a plain timer's; and once its creator has
    enlisted it, an async waits exactly if its key is pending.
   */
  lemma {:induction false} TimersFireOnLiveAsyncs(states: seq<State>, moves: seq<Move>, n: nat)
    requires IsRun(states, moves) && Careful(states, moves) && n < |moves|
    ensures forall k | k in states[n].t.pending ::
              && k in states[n].nodes
              && match states[n].nodes[k]
                 case OfAsync(a) =>
                   && a < |states[n].asyncs| && states[n].asyncs[a].key == k
                   && states[n].asyncs[a].timer.InTree? && states[n].asyncs[a].stage.Live?
                 case OfPlain(j) => j < |states[n].plains| && states[n].plains[j] == Plain(k, false)
    ensures forall a | 0 <= a < |states[n].asyncs| && !states[n].asyncs[a].timer.Arming? ::
              (states[n].asyncs[a].key in states[n].t.pending <==> states[n].asyncs[a].timer.InTree?)
    ensures moves[n].CancelMove? ==>
              && moves[n].i < |states[n].actors|
              && (states[n].actors[moves[n].i].pc.DestroyTimer? ==> !moves[n].hit)
  {
    RunsKeepInv(states, moves, n);
    var s := states[n];
    assert Next(s, moves[n], states[n + 1]);
    if moves[n].CancelMove? {
      CancelMoveKeepsInv(s, moves[n].i, moves[n].hit, states[n + 1]);
    }
    forall k | k in s.t.pending && s.nodes[k].OfAsync? ensures s.asyncs[s.nodes[k].id].stage.Live? {
      WaitingIsLive(s, s.nodes[k].id);
    }
    forall a | 0 <= a < |s.asyncs| && !s.asyncs[a].timer.Arming?
      ensures s.asyncs[a].key in s.t.pending <==> s.asyncs[a].timer.InTree?
    {
      FoundIffWaiting(s, a);
    }
  }

  /** The actor has settled the timer and goes on to the callback, or has come from there. */
  predicate PastTimer(pc: Pc) {
    pc.NotifyTest? || pc.Completing? || pc.DropOwner?
  }

  /** Whoever is past the timer finds it neither pending nor about to be. */
  ghost predicate TimersSettled(asyncs: seq<Async>, actors: seq<Actor>) {
    forall i | 0 <= i < |actors| && PastTimer(actors[i].pc) && actors[i].target < |asyncs| ::
      Settled(asyncs[actors[i].target])
  }

  predicate Settled(x: Async) {
    !x.timer.Uncounted? && !x.timer.Arming? && !x.timer.InTree?
  }

  lemma {:induction false} StepKeepsSettled(i: nat, x: Async, ac: Actor, hit: bool, key: Key, x': Async, ac': Actor)
    requires Agrees(i, ac, x) && (PastTimer(ac.pc) ==> Settled(x))
    requires x.timer.Uncounted? || x.timer.Arming? ==> x.timer.who == i
    requires || LocalStep(i, x, ac, x', ac')
             || (CancelTimerStep(i, x, ac, hit, x', ac') && (hit <==> x.timer.InTree?))
             || StoreStep(i, x, ac, key.timestamp, x', ac')
             || EnlistStep(i, x, ac, key, x', ac')
    ensures Settled(x) ==> Settled(x')
    ensures PastTimer(ac'.pc) ==> Settled(x')
  {
  }

  /** What one actor's move does to its async and to itself. */
  lemma {:induction false} ActorStepSettles(s: State, m: Move, s': State)
    requires Inv(s) && Next(s, m, s') && !Harmful(s, m) && !Careless(s, m) && ByActor(m)
    requires TimersSettled(s.asyncs, s.actors)
    ensures var i, b := m.i, s.actors[m.i].target;
            && b < |s.asyncs| == |s'.asyncs| && |s'.actors| == |s.actors| && s'.actors[i].target == b
            && s'.asyncs == s.asyncs[b := s'.asyncs[b]] && s'.actors == s.actors[i := s'.actors[i]]
            && (Settled(s.asyncs[b]) ==> Settled(s'.asyncs[b]))
            && (PastTimer(s'.actors[i].pc) ==> Settled(s'.asyncs[b]))
  {
    hide QueueInv, Sound, Enough, Conserved;
    var i, b := m.i, s.actors[m.i].target;
    EnoughForActor(s, i);
    if m.CancelMove? {
      FoundIffWaiting(s, b);
    }
    StepKeepsSettled(i, s.asyncs[b], s.actors[i], m.CancelMove? && m.hit, s'.asyncs[b].key, s'.asyncs[b], s'.actors[i]);
  }

  lemma {:induction false} PutKeepsSettled(asyncs: seq<Async>, actors: seq<Actor>, i: nat, x: Async, ac: Actor)
    requires TimersSettled(asyncs, actors)
    requires i < |actors| && actors[i].target < |asyncs| && ac.target == actors[i].target
    requires Settled(asyncs[ac.target]) ==> Settled(x)
    requires PastTimer(ac.pc) ==> Settled(x)
    ensures TimersSettled(asyncs[ac.target := x], actors[i := ac])
  {
  }

  /** Where nobody moves, an async or an actor may join, and an async whose timer is fired is settled. */
  lemma {:induction false} JoinKeepsSettled(s: State, m: Move, s': State)
    requires Next(s, m, s') && !ByActor(m)
    requires TimersSettled(s.asyncs, s.actors) && ActorsInv(s.asyncs, s.actors)
    ensures TimersSettled(s'.asyncs, s'.actors)
  {
    hide P.Next, Sound, Agrees, Enough, Conserved;
  }

  lemma {:induction false} NextKeepsSettled(s: State, m: Move, s': State)
    requires Inv(s) && Next(s, m, s') && !Harmful(s, m) && !Careless(s, m)
    requires TimersSettled(s.asyncs, s.actors)
    ensures TimersSettled(s'.asyncs, s'.actors)
  {
    hide Harmful, Careless, TimersSettled, QueueInv, ActorsInv, P.Next;
    hide LocalStep, CancelTimerStep, StoreStep, EnlistStep;
    if ByActor(m) {
      ActorStepSettles(s, m, s');
      var i, b := m.i, s.actors[m.i].target;
      PutKeepsSettled(s.asyncs, s.actors, i, s'.asyncs[b], s'.actors[i]);
    } else {
      JoinKeepsSettled(s, m, s');
    }
  }

  /**
    If callers are patient, the timer is settled before the callback runs: it is not
    pending then, and will not be.
   */
  lemma {:induction false} CallbackFindsTimerSettled(states: seq<State>, moves: seq<Move>, n: nat)
    requires IsRun(states, moves) && Patient(states, moves) && n < |states|
    ensures TimersSettled(states[n].asyncs, states[n].actors)
  {
    if n > 0 {
      CallbackFindsTimerSettled(states, moves, n - 1);
      PatienceIsEnough(states, moves, n - 1);
      NextKeepsSettled(states[n - 1], moves[n - 1], states[n]);
    }
  }

  lemma {:induction false} WaitingIsLive(s: State, a: nat)
    requires ActorsInv(s.asyncs, s.actors) && a < |s.asyncs| && s.asyncs[a].timer.InTree?
    ensures s.asyncs[a].stage.Live?
  {
    assert Conserved(s.asyncs[a], a, s.actors) && Sound(s.asyncs[a]);
  }

  /** In a careful run, moreover, references given up stay given up, and freed stays freed. */
  ghost predicate Onward(x: Async, x': Async) {
    && MarksStay(x, x')
    && (x.timer.Given? ==> x'.timer.Given?)
    && (x.timer.OwedBy? ==> x'.timer == x.timer || x'.timer.Given?)
    && (x.stage.Freed? ==> x' == x)
  }

  lemma {:induction false} ReleaseGoesOnward(i: nat, x: Async, ac: Actor, next: Pc)
    ensures var x' := Release(i, x, ac, next).0;
            x'.timer == x.timer && (x'.stage == x.stage || !x'.stage.Freed?)
  {
  }

  lemma {:induction false} LocalStepGoesOnward(i: nat, x: Async, ac: Actor, x': Async, ac': Actor)
    requires Sound(x) && Agrees(i, ac, x) && Enough(x, ac) && LocalStep(i, x, ac, x', ac')
    ensures x.timer.Given? ==> x'.timer.Given?
    ensures x.timer.OwedBy? ==> x'.timer == x.timer || x'.timer.Given?
    ensures x.stage.Freed? ==> x' == x
  {
    match ac.pc
    case NotifyDropTimer => ReleaseGoesOnward(i, x.(timer := Given), ac, NotifyTest);
    case DropOwner => ReleaseGoesOnward(i, x.(owner := Released), ac, After(ac));
    case CancelDropTimer => ReleaseGoesOnward(i, x.(timer := Given), ac, Mark);
    case Leaving => ReleaseGoesOnward(i, x, ac.(open := ac.open - 1), Idle);
    case Dropping => ReleaseGoesOnward(i, x, ac.(refs := ac.refs - 1), Idle);
    case HandlerDrop => ReleaseGoesOnward(i, x.(timer := Given), ac, Idle);
    case _ =>
  }

  lemma {:induction false} LocalMoveGoesOnward(s: State, i: nat, s': State)
    requires Inv(s) && Next(s, LocalMove(i), s')
    ensures Onward(s.asyncs[s.actors[i].target], s'.asyncs[s.actors[i].target])
  {
    var b := s.actors[i].target;
    EnoughForActor(s, i);
    LocalStepKeepsCallback(i, s.asyncs[b], s.actors[i], s'.asyncs[b], s'.actors[i]);
    LocalStepGoesOnward(i, s.asyncs[b], s.actors[i], s'.asyncs[b], s'.actors[i]);
  }

  lemma {:induction false} CancelMoveGoesOnward(s: State, i: nat, hit: bool, s': State)
    requires Inv(s) && Next(s, CancelMove(i, hit), s') && !Harmful(s, CancelMove(i, hit))
    ensures Onward(s.asyncs[s.actors[i].target], s'.asyncs[s.actors[i].target])
  {
    var b := s.actors[i].target;
    EnoughForActor(s, i);
    FoundIffWaiting(s, b);
    hide Inv, QueueInv, ActorsInv, Conserved, Names;
  }

  lemma {:induction false} MakingGoesOnward(s: State, m: Move, s': State)
    requires Inv(s) && Next(s, m, s') && (m.StoreMove? || m.EnlistMove?)
    ensures Onward(s.asyncs[s.actors[m.i].target], s'.asyncs[s.actors[m.i].target])
  {
    var b := s.actors[m.i].target;
    EnoughForActor(s, m.i);
    hide Inv, QueueInv, ActorsInv, Conserved, Names;
  }

  lemma {:induction false} FiringGoesOnward(s: State, key: Key, s': State, a: nat)
    requires Inv(s) && Next(s, FireMove(key), s') && a < |s.asyncs|
    ensures a < |s'.asyncs| && Onward(s.asyncs[a], s'.asyncs[a])
  {
    FireMoveKeepsInv(s, key, s');
    assert Sound(s.asyncs[a]);
    assert s' == Fired(s.(t := s'.t, nodes := s.nodes - {key}), s.nodes[key]);
    hide Inv, Next, P.Next;
    if s.nodes[key] != OfAsync(a) {
      assert s'.asyncs[a] == s.asyncs[a];
    }
  }

  lemma {:induction false} NextGoesOnward(s: State, m: Move, s': State, a: nat)
    requires Inv(s) && Next(s, m, s') && !Harmful(s, m) && a < |s.asyncs|
    ensures a < |s'.asyncs| && Onward(s.asyncs[a], s'.asyncs[a])
  {
    hide Inv, Onward, Harmful, P.Next, LocalStep, CancelTimerStep, StoreStep, EnlistStep, LinksAfter, Fired;
    OnwardComposes(s.asyncs[a], s.asyncs[a], s.asyncs[a]);
    match m
    case LocalMove(i) => LocalMoveGoesOnward(s, i, s');
    case CancelMove(i, hit) => CancelMoveGoesOnward(s, i, hit, s');
    case StoreMove(_) => MakingGoesOnward(s, m, s');
    case EnlistMove(_, _) => MakingGoesOnward(s, m, s');
    case FireMove(key) => FiringGoesOnward(s, key, s', a);
    case _ =>
  }

  lemma {:induction false} OnwardComposes(x: Async, y: Async, z: Async)
    ensures Onward(x, x)
    ensures Onward(x, y) && Onward(y, z) ==> Onward(x, z)
  {
  }

  lemma {:induction false} StepOfRun(states: seq<State>, moves: seq<Move>, n: nat)
    requires IsRun(states, moves) && Careful(states, moves)
    ensures |states| == |moves| + 1
    ensures n < |moves| ==> Inv(states[n]) && Next(states[n], moves[n], states[n + 1]) && !Harmful(states[n], moves[n])
  {
    if n < |moves| {
      RunsKeepInv(states, moves, n);
    }
  }

  /** Over any stretch of a careful run. */
  lemma {:induction false} RunsGoOnward(states: seq<State>, moves: seq<Move>, m: nat, n: nat, a: nat)
    requires IsRun(states, moves) && Careful(states, moves) && m <= n < |states| && a < |states[m].asyncs|
    ensures a < |states[n].asyncs| && Onward(states[m].asyncs[a], states[n].asyncs[a])
    decreases n - m
  {
    hide *;
    var x := states[m].asyncs[a];
    if m < n {
      RunsGoOnward(states, moves, m, n - 1, a);
      StepOfRun(states, moves, n - 1);
      NextGoesOnward(states[n - 1], moves[n - 1], states[n], a);
      OnwardComposes(x, states[n - 1].asyncs[a], states[n].asyncs[a]);
    } else {
      OnwardComposes(x, x, x);
    }
  }
}
