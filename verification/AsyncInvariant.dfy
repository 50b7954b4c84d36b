/**
  The invariant of the lifecycle: references are conserved, everybody who is named
  is there and does what is said of him, and the tree holds the nodes of those who
  wait.  A step keeps it if and only if the step is not harmful.
 */
module AsyncInvariant {
  import opened Keys
  import P = TimerProtocol
  import opened AsyncLifecycle

  // ---------- The tree and those who wait in it ----------

  /** The tree holds exactly the pending keys, each with an object that exists. */
  ghost predicate Stocked(t: P.State, nodes: map<Key, Part>, nAsyncs: nat, nPlains: nat) {
    && nodes.Keys == t.pending
    && (forall k | k in nodes :: if nodes[k].OfAsync? then nodes[k].id < nAsyncs else nodes[k].id < nPlains)
  }

  /** The asyncs that wait for their timer are those whose node is in the tree, under their own key. */
  ghost predicate AsyncsLinked(t: P.State, nodes: map<Key, Part>, asyncs: seq<Async>) {
    && (forall k | k in nodes && nodes[k].OfAsync? && nodes[k].id < |asyncs| ::
          asyncs[nodes[k].id].timer.InTree? && asyncs[nodes[k].id].key == k)
    && (forall a | 0 <= a < |asyncs| && asyncs[a].timer.InTree? ::
          asyncs[a].key in nodes && nodes[asyncs[a].key] == OfAsync(a))
    && (forall a | 0 <= a < |asyncs| && (asyncs[a].timer.OwedBy? || asyncs[a].timer.Given?) ::
          asyncs[a].key !in nodes && asyncs[a].key in t.issued)
  }

  /**
    A plain timer whose schedule call has returned finds itself or nothing; one
    that has been scheduled before and is being scheduled again finds nothing.
   */
  ghost predicate PlainsLinked(t: P.State, nodes: map<Key, Part>, plains: seq<Plain>) {
    && (forall k | k in nodes && nodes[k].OfPlain? && nodes[k].id < |plains| ::
          !plains[nodes[k].id].half && plains[nodes[k].id].key == k)
    && (forall j | 0 <= j < |plains| && !plains[j].half ::
          && (plains[j].key == NO_KEY || plains[j].key in t.issued)
          && (plains[j].key in nodes ==> nodes[plains[j].key] == OfPlain(j)))
    && (forall j | 0 <= j < |plains| && plains[j].half ::
          plains[j].key.id == 0 || (0 < plains[j].key.id < t.seqno && plains[j].key !in nodes))
  }

  ghost predicate QueueInv(s: State) {
    && P.Inv(s.t)
    && Stocked(s.t, s.nodes, |s.asyncs|, |s.plains|)
    && AsyncsLinked(s.t, s.nodes, s.asyncs)
    && PlainsLinked(s.t, s.nodes, s.plains)
  }

  ghost predicate ActorsInv(asyncs: seq<Async>, actors: seq<Actor>) {
    && (forall a | 0 <= a < |asyncs| ::
          Sound(asyncs[a]) && Names(asyncs[a], a, actors) && Conserved(asyncs[a], a, actors))
    && (forall i | 0 <= i < |actors| ::
          actors[i].target < |asyncs| && Agrees(i, actors[i], asyncs[actors[i].target]))
  }

  ghost predicate Inv(s: State) {
    QueueInv(s) && ActorsInv(s.asyncs, s.actors)
  }

  // ---------- What a step does to the tree ----------

  lemma {:induction false} NoKeyIsNeverPending(t: P.State)
    requires P.Inv(t)
    ensures NO_KEY !in t.pending && NO_KEY !in t.issued
  {
    if NO_KEY in t.pending {
      P.PendingIsIssued(t, NO_KEY);
    }
  }

  /** Waiting asyncs and plain timers in the tree have keys that were handed out. */
  lemma {:induction false} InTreeIsIssued(s: State, k: Key)
    requires QueueInv(s) && k in s.nodes
    ensures k in s.t.issued && k != NO_KEY
  {
    P.PendingIsIssued(s.t, k);
    NoKeyIsNeverPending(s.t);
  }

  /** An async changes without its timer being touched. */
  lemma {:induction false} QueueUntouched(s: State, a: nat, x: Async)
    requires QueueInv(s) && a < |s.asyncs| && SameTimer(s.asyncs[a], x)
    ensures QueueInv(s.(asyncs := s.asyncs[a := x]))
  {
  }

  /** A key leaves the tree, and the async it belongs to, if it is an async's, waits no longer. */
  lemma {:induction false} KeyLeaves(s: State, key: Key, asyncs': seq<Async>, t': P.State)
    requires QueueInv(s) && P.Inv(t') && |asyncs'| == |s.asyncs|
    requires t'.pending == s.t.pending - {key} && t'.issued == s.t.issued && t'.seqno == s.t.seqno
    requires forall a | 0 <= a < |asyncs'| ::
               || SameTimer(s.asyncs[a], asyncs'[a])
               || (s.asyncs[a].timer.InTree? && asyncs'[a].key == s.asyncs[a].key
                   && (asyncs'[a].timer.OwedBy? || asyncs'[a].timer.Given?) && s.asyncs[a].key == key)
    requires forall a | 0 <= a < |asyncs'| && asyncs'[a].timer.InTree? :: asyncs'[a].key != key
    ensures QueueInv(s.(t := t', nodes := s.nodes - {key}, asyncs := asyncs'))
  {
    forall a | 0 <= a < |asyncs'| && (asyncs'[a].timer.OwedBy? || asyncs'[a].timer.Given?)
      ensures asyncs'[a].key in t'.issued
    {
      if s.asyncs[a].timer.InTree? {
        InTreeIsIssued(s, s.asyncs[a].key);
      }
    }
  }

  /** Unless its key is half written, an async's timer is found exactly if the async waits for it. */
  lemma {:induction false} FoundIffWaiting(s: State, a: nat)
    requires Inv(s) && a < |s.asyncs|
    requires s.asyncs[a].timer.Arming? ==> s.asyncs[a].key !in s.t.pending
    ensures s.asyncs[a].key in s.t.pending <==> s.asyncs[a].timer.InTree?
  {
    assert Sound(s.asyncs[a]);
    NoKeyIsNeverPending(s.t);
  }

  /** The key that a scheduler is given next is nobody's. */
  lemma {:induction false} NextKeyIsNew(s: State, who: int, key: Key, t': P.State)
    requires QueueInv(s) && P.EnlistStep(s.t, who, key, t')
    ensures P.Inv(t') && t'.pending == s.t.pending + {key} && t'.issued == s.t.issued + {key}
    ensures key !in s.nodes && key !in s.t.issued && t'.seqno == s.t.seqno + 1 && s.t.seqno >= 0
    ensures forall j | 0 <= j < |s.plains| && !s.plains[j].half :: s.plains[j].key != key
    ensures forall j | 0 <= j < |s.plains| && s.plains[j].half && s.plains[j].key.id != 0 :: s.plains[j].key != key
  {
    P.EnlistKeepsInv(s.t, who, key, t');
    if key in s.nodes { InTreeIsIssued(s, key); }
  }

  lemma {:induction false} AsyncEntersAsyncs(
    t: P.State, nodes: map<Key, Part>, asyncs: seq<Async>, a: nat, key: Key, x: Async, t': P.State)
    requires AsyncsLinked(t, nodes, asyncs) && a < |asyncs| && key !in nodes && key !in t.issued
    requires t'.issued == t.issued + {key} && !Numbered(asyncs[a]) && x.key == key && x.timer.InTree?
    ensures AsyncsLinked(t', nodes[key := OfAsync(a)], asyncs[a := x])
  {
  }

  lemma {:induction false} AsyncEntersPlains(s: State, a: nat, key: Key, t': P.State)
    requires PlainsLinked(s.t, s.nodes, s.plains) && key !in s.nodes
    requires t'.issued == s.t.issued + {key} && t'.seqno == s.t.seqno + 1
    requires forall j | 0 <= j < |s.plains| && !s.plains[j].half :: s.plains[j].key != key
    requires forall j | 0 <= j < |s.plains| && s.plains[j].half && s.plains[j].key.id != 0 :: s.plains[j].key != key
    ensures PlainsLinked(t', s.nodes[key := OfAsync(a)], s.plains)
  {
  }

  /** A new key goes into the tree for an async. */
  lemma {:induction false} AsyncEnters(s: State, a: nat, who: int, key: Key, x: Async, t': P.State)
    requires QueueInv(s) && P.EnlistStep(s.t, who, key, t') && a < |s.asyncs|
    requires !Numbered(s.asyncs[a]) && x.key == key && x.timer.InTree?
    ensures QueueInv(s.(t := t', nodes := s.nodes[key := OfAsync(a)], asyncs := s.asyncs[a := x]))
  {
    hide P.Inv, P.EnlistStep, AsyncsLinked, PlainsLinked;
    NextKeyIsNew(s, who, key, t');
    AsyncEntersAsyncs(s.t, s.nodes, s.asyncs, a, key, x, t');
    AsyncEntersPlains(s, a, key, t');
  }

  lemma {:induction false} PlainEntersAsyncs(s: State, j: nat, key: Key, t': P.State)
    requires AsyncsLinked(s.t, s.nodes, s.asyncs) && key !in s.nodes && key !in s.t.issued
    requires t'.issued == s.t.issued + {key}
    ensures AsyncsLinked(t', s.nodes[key := OfPlain(j)], s.asyncs)
  {
  }

  lemma {:induction false} PlainEntersPlains(s: State, j: nat, key: Key, t': P.State)
    requires PlainsLinked(s.t, s.nodes, s.plains) && key !in s.nodes && j < |s.plains| && s.plains[j].half
    requires t'.issued == s.t.issued + {key} && t'.seqno == s.t.seqno + 1
    requires forall j | 0 <= j < |s.plains| && !s.plains[j].half :: s.plains[j].key != key
    requires forall j | 0 <= j < |s.plains| && s.plains[j].half && s.plains[j].key.id != 0 :: s.plains[j].key != key
    ensures PlainsLinked(t', s.nodes[key := OfPlain(j)], s.plains[j := Plain(key, false)])
  {
  }

  /** And for a plain timer. */
  lemma {:induction false} PlainEnters(s: State, j: nat, who: int, key: Key, t': P.State)
    requires QueueInv(s) && P.EnlistStep(s.t, who, key, t') && j < |s.plains| && s.plains[j].half
    ensures QueueInv(s.(t := t', nodes := s.nodes[key := OfPlain(j)], plains := s.plains[j := Plain(key, false)]))
  {
    hide P.Inv, P.EnlistStep, AsyncsLinked, PlainsLinked;
    NextKeyIsNew(s, who, key, t');
    PlainEntersAsyncs(s, j, key, t');
    PlainEntersPlains(s, j, key, t');
  }

  lemma {:induction false} PlainStored(s: State, j: nat, deadline: int, t': P.State)
    requires QueueInv(s) && j < |s.plains| && !s.plains[j].half && !Queued(s, j) && deadline > 0 && P.Inv(t')
    requires t'.pending == s.t.pending && t'.issued == s.t.issued && t'.seqno == s.t.seqno
    ensures QueueInv(s.(t := t', plains := s.plains[j := Plain(s.plains[j].key.(timestamp := deadline), true)]))
  {
    var key := s.plains[j].key.(timestamp := deadline);
    if key.id != 0 && key in s.nodes {
      InTreeIsIssued(s, key);
      assert false;
    }
  }

  // ---------- What a step does to the actors ----------

  lemma {:induction false} NamesKept(x: Async, a: nat, actors: seq<Actor>, i: nat, ac: Actor)
    requires i < |actors| && ac.target == actors[i].target && Names(x, a, actors)
    ensures Names(x, a, actors[i := ac])
  {
  }

  lemma {:induction false} NamesGrow(x: Async, a: nat, actors: seq<Actor>, ac: Actor)
    requires Names(x, a, actors)
    ensures Names(x, a, actors + [ac])
  {
  }

  /** An actor that does not move does not notice what another one does to its async. */
  lemma {:induction false} OthersStillAgree(i: nat, j: nat, ac: Actor, x: Async, x': Async)
    requires i != j && Agrees(j, ac, x) && OthersKept(i, x, x')
    requires Exposed(ac) ==> x'.stage.Live?
    ensures Agrees(j, ac, x')
  {
  }

  /** One actor moves, with its async, and uncovers nobody. */
  lemma {:induction false} PutKeepsActors(asyncs: seq<Async>, actors: seq<Actor>, i: nat, x': Async, ac': Actor)
    requires ActorsInv(asyncs, actors) && i < |actors|
    requires ac'.target == actors[i].target
    requires Sound(x') && Names(x', actors[i].target, actors) && Agrees(i, ac', x')
    requires OthersKept(i, asyncs[actors[i].target], x')
    requires Balanced(asyncs[actors[i].target], actors[i], x', ac')
    requires x'.stage.Live? || forall j | 0 <= j < |actors| ::
               j != i && actors[j].target == actors[i].target ==> !Exposed(actors[j])
    ensures ActorsInv(asyncs[actors[i].target := x'], actors[i := ac'])
  {
    var a := actors[i].target;
    var asyncs', actors' := asyncs[a := x'], actors[i := ac'];
    forall b | 0 <= b < |asyncs'|
      ensures Sound(asyncs'[b]) && Names(asyncs'[b], b, actors') && Conserved(asyncs'[b], b, actors')
    {
      assert Conserved(asyncs[b], b, actors);
      HeldAfterUpdate(actors, i, ac', b);
      NamesKept(asyncs'[b], b, actors, i, ac');
    }
    forall j | 0 <= j < |actors'|
      ensures actors'[j].target < |asyncs'| && Agrees(j, actors'[j], asyncs'[actors'[j].target])
    {
      assert Agrees(j, actors[j], asyncs[actors[j].target]);
      if j != i && actors[j].target == a {
        OthersStillAgree(i, j, actors[j], asyncs[a], x');
      }
    }
  }

  /** An actor without references joins; nobody's count changes. */
  lemma {:induction false} JoinKeepsActors(asyncs: seq<Async>, actors: seq<Actor>, a: nat, x': Async, ac: Actor)
    requires ActorsInv(asyncs, actors) && a < |asyncs|
    requires ac.target == a && ac.refs == 0 && ac.open == 0
    requires Sound(x') && Names(x', a, actors + [ac]) && Agrees(|actors|, ac, x')
    requires OthersKept(|actors|, asyncs[a], x') && x'.stage == asyncs[a].stage && x'.ref == asyncs[a].ref
    requires OwnerToken(x') + TimerToken(x') == OwnerToken(asyncs[a]) + TimerToken(asyncs[a])
    ensures ActorsInv(asyncs[a := x'], actors + [ac])
  {
    var asyncs', actors' := asyncs[a := x'], actors + [ac];
    forall b | 0 <= b < |asyncs'|
      ensures Sound(asyncs'[b]) && Names(asyncs'[b], b, actors') && Conserved(asyncs'[b], b, actors')
    {
      assert Conserved(asyncs[b], b, actors) && Names(asyncs[b], b, actors);
      HeldAfterAppend(actors, ac, b);
      NamesGrow(asyncs[b], b, actors, ac);
    }
    forall j | 0 <= j < |actors'|
      ensures actors'[j].target < |asyncs'| && Agrees(j, actors'[j], asyncs'[actors'[j].target])
    {
      if j < |actors| {
        assert actors'[j] == actors[j];
        assert Agrees(j, actors[j], asyncs[actors[j].target]);
        if actors[j].target == a {
          OthersStillAgree(|actors|, j, actors[j], asyncs[a], x');
        }
      }
    }
  }

  /** A new async comes with its creator. */
  lemma {:induction false} NewKeepsActors(asyncs: seq<Async>, actors: seq<Actor>, x: Async, ac: Actor)
    requires ActorsInv(asyncs, actors) && ac.target == |asyncs| && ac.refs == 0 && ac.open == 0
    requires Sound(x) && Names(x, |asyncs|, actors + [ac]) && Agrees(|actors|, ac, x)
    requires x.ref == OwnerToken(x) + TimerToken(x)
    ensures ActorsInv(asyncs + [x], actors + [ac])
  {
    var asyncs', actors' := asyncs + [x], actors + [ac];
    forall b | 0 <= b < |asyncs'|
      ensures Sound(asyncs'[b]) && Names(asyncs'[b], b, actors') && Conserved(asyncs'[b], b, actors')
    {
      HeldAfterAppend(actors, ac, b);
      if b < |asyncs| {
        assert asyncs'[b] == asyncs[b] && Conserved(asyncs[b], b, actors) && Names(asyncs[b], b, actors);
        NamesGrow(asyncs[b], b, actors, ac);
      } else {
        NobodyHoldsNew(actors, |asyncs|);
      }
    }
    forall j | 0 <= j < |actors'|
      ensures actors'[j].target < |asyncs'| && Agrees(j, actors'[j], asyncs'[actors'[j].target])
    {
      if j < |actors| {
        assert actors'[j] == actors[j];
        assert Agrees(j, actors[j], asyncs[actors[j].target]);
      }
    }
  }

  lemma {:induction false} EnoughForActor(s: State, i: nat)
    requires ActorsInv(s.asyncs, s.actors) && i < |s.actors|
    ensures var a := s.actors[i].target;
            && Sound(s.asyncs[a]) && Names(s.asyncs[a], a, s.actors)
            && Agrees(i, s.actors[i], s.asyncs[a]) && Enough(s.asyncs[a], s.actors[i])
  {
    assert Conserved(s.asyncs[s.actors[i].target], s.actors[i].target, s.actors);
    HeldAtLeast(s.actors, i);
  }

  // ---------- Every harmless step keeps the invariant ----------

  lemma {:induction false} LocalMoveKeepsInv(s: State, i: nat, s': State)
    requires Inv(s) && Next(s, LocalMove(i), s') && !Harmful(s, LocalMove(i))
    ensures Inv(s')
  {
    var a := s.actors[i].target;
    EnoughForActor(s, i);
    LocalStepIsRight(i, a, s.actors, s.asyncs[a], s.actors[i], s'.asyncs[a], s'.actors[i]);
    QueueUntouched(s, a, s'.asyncs[a]);
    StaysLiveOrReleases(i, s.asyncs[a], s.actors[i], s'.asyncs[a], s'.actors[i]);
    if !s'.asyncs[a].stage.Live? {
      OnlyOthersExposed(s, i);
    }
    hide QueueInv, Harmful, LocalStep, Uncovers, Sound, Agrees, Names, Conserved, Enough, OthersKept, Balanced;
    PutKeepsActors(s.asyncs, s.actors, i, s'.asyncs[a], s'.actors[i]);
  }

  lemma {:induction false} StaysLiveOrReleases(i: nat, x: Async, ac: Actor, x': Async, ac': Actor)
    requires Sound(x) && Agrees(i, ac, x) && Enough(x, ac) && LocalStep(i, x, ac, x', ac') && Sound(x')
    ensures x'.stage.Live? || !x.stage.Live? || (GivesBack(ac.pc) && x.ref == 1)
  {
  }

  lemma {:induction false} OnlyOthersExposed(s: State, i: nat)
    requires ActorsInv(s.asyncs, s.actors) && i < |s.actors|
    requires !s.asyncs[s.actors[i].target].stage.Live?
             || (GivesBack(s.actors[i].pc) && s.asyncs[s.actors[i].target].ref == 1 && !Uncovers(s, i))
    ensures forall j | 0 <= j < |s.actors| ::
              j != i && s.actors[j].target == s.actors[i].target ==> !Exposed(s.actors[j])
  {
    forall j | 0 <= j < |s.actors| && j != i && s.actors[j].target == s.actors[i].target
      ensures !Exposed(s.actors[j])
    {
      assert Agrees(j, s.actors[j], s.asyncs[s.actors[j].target]);
    }
  }

  lemma {:induction false} CancellingKeepsQueue(s: State, i: nat, hit: bool, s': State)
    requires QueueInv(s) && Next(s, CancelMove(i, hit), s')
    requires hit <==> s.asyncs[s.actors[i].target].timer.InTree?
    requires s.asyncs[s.actors[i].target].timer.Given? ==> s'.asyncs[s.actors[i].target].timer.Given?
    ensures QueueInv(s')
  {
    hide P.Inv, AsyncsLinked, PlainsLinked;
    var a := s.actors[i].target;
    var x, x' := s.asyncs[a], s'.asyncs[a];
    P.NextKeepsInv(s.t, P.Cancel(x.key, hit), s'.t);
    WhoWaits(s, a);
    KeyLeaves(s, x.key, s.asyncs[a := x'], s'.t);
    SameQueue(s.(t := s'.t, nodes := s.nodes - {x.key}, asyncs := s.asyncs[a := x']), s');
  }

  /** If async `a` waits, or its key is not pending, nobody else waits under its key. */
  lemma {:induction false} WhoWaits(s: State, a: nat)
    requires QueueInv(s) && a < |s.asyncs|
    requires s.asyncs[a].timer.InTree? || s.asyncs[a].key !in s.t.pending
    ensures forall b | 0 <= b < |s.asyncs| && b != a && s.asyncs[b].timer.InTree? :: s.asyncs[b].key != s.asyncs[a].key
  {
  }

  lemma {:induction false} CancelMoveKeepsInv(s: State, i: nat, hit: bool, s': State)
    requires Inv(s) && Next(s, CancelMove(i, hit), s') && !Harmful(s, CancelMove(i, hit))
    ensures Inv(s')
    ensures hit <==> s.asyncs[s.actors[i].target].timer.InTree?
    ensures s.actors[i].pc.DestroyTimer? ==> !hit
  {
    hide QueueInv, Sound, Agrees, Names, Conserved, Enough, OthersKept, Balanced;
    var a := s.actors[i].target;
    var x, x' := s.asyncs[a], s'.asyncs[a];
    EnoughForActor(s, i);
    FoundIffWaiting(s, a);
    CancelTimerStepIsRight(i, a, s.actors, x, s.actors[i], hit, x', s'.actors[i]);
    CancellingKeepsQueue(s, i, hit, s');
    if !x'.stage.Live? {
      OnlyOthersExposed(s, i);
    }
    PutKeepsActors(s.asyncs, s.actors, i, x', s'.actors[i]);
  }

  lemma {:induction false} StoringKeepsQueue(s: State, a: nat, x: Async, s': State)
    requires QueueInv(s) && P.Inv(s'.t) && a < |s.asyncs| && !Numbered(s.asyncs[a]) && !Numbered(x)
    requires s'.t.pending == s.t.pending && s'.t.issued == s.t.issued && s'.t.seqno == s.t.seqno
    requires s'.nodes == s.nodes && s'.plains == s.plains && s'.asyncs == s.asyncs[a := x]
    ensures QueueInv(s')
  {
  }

  lemma {:induction false} StoreMoveKeepsInv(s: State, i: nat, s': State)
    requires Inv(s) && Next(s, StoreMove(i), s')
    ensures Inv(s')
  {
    var a := s.actors[i].target;
    var deadline := s.t.clock + s.actors[i].pc.timeout;
    P.NextKeepsInv(s.t, P.Arm(i, deadline), s'.t);
    EnoughForActor(s, i);
    StoreStepIsRight(i, a, s.actors, s.asyncs[a], s.actors[i], deadline, s'.asyncs[a], s'.actors[i]);
    StoringKeepsQueue(s, a, s'.asyncs[a], s');
    hide QueueInv, P.Inv, P.Next, Sound, Agrees, Names, Conserved, Enough, OthersKept, Balanced;
    if !s'.asyncs[a].stage.Live? {
      OnlyOthersExposed(s, i);
    }
    PutKeepsActors(s.asyncs, s.actors, i, s'.asyncs[a], s'.actors[i]);
  }

  lemma {:induction false} EnlistMoveKeepsInv(s: State, i: nat, key: Key, s': State)
    requires Inv(s) && Next(s, EnlistMove(i, key), s')
    ensures Inv(s')
  {
    var a := s.actors[i].target;
    EnoughForActor(s, i);
    EnlistStepIsRight(i, a, s.actors, s.asyncs[a], s.actors[i], key, s'.asyncs[a], s'.actors[i]);
    AsyncEnters(s, a, i, key, s'.asyncs[a], s'.t);
    if !s'.asyncs[a].stage.Live? {
      OnlyOthersExposed(s, i);
    }
    PutKeepsActors(s.asyncs, s.actors, i, s'.asyncs[a], s'.actors[i]);
  }

  lemma {:induction false} NewActorKeepsInv(s: State, target: nat, s': State)
    requires Inv(s) && Next(s, NewActor(target), s')
    ensures Inv(s')
  {
    var x := s.asyncs[target];
    assert s.asyncs[target := x] == s.asyncs;
    assert Sound(x) && Names(x, target, s.actors);
    JoinKeepsActors(s.asyncs, s.actors, target, x, Holder(target));
  }

  lemma {:induction false} BorrowKeepsInv(s: State, from: nat, s': State)
    requires Inv(s) && Next(s, Borrow(from), s') && !Harmful(s, Borrow(from))
    ensures Inv(s')
  {
    var c := s.links[from];
    var x := s.asyncs[c];
    assert s.asyncs[c := x] == s.asyncs;
    assert Sound(x) && Names(x, c, s.actors);
    JoinKeepsActors(s.asyncs, s.actors, c, x, Actor(c, false, true, 0, 0, CancelTimer));
  }

  lemma {:induction false} FiringKeepsQueue(s: State, key: Key, s': State)
    requires QueueInv(s) && Next(s, FireMove(key), s')
    ensures QueueInv(s')
    ensures s.nodes[key].OfAsync? ==> s.nodes[key].id < |s.asyncs| && s.asyncs[s.nodes[key].id].timer.InTree?
  {
    P.NextKeepsInv(s.t, P.Fire(key), s'.t);
    hide P.Inv, PlainsLinked;
    KeyLeaves(s, key, s'.asyncs, s'.t);
    assert s' == s.(t := s'.t, nodes := s.nodes - {key}, asyncs := s'.asyncs, actors := s'.actors);
    SameQueue(s.(t := s'.t, nodes := s.nodes - {key}, asyncs := s'.asyncs), s');
  }

  lemma {:induction false} SameQueue(s: State, s': State)
    requires QueueInv(s) && s'.t == s.t && s'.nodes == s.nodes && s'.asyncs == s.asyncs && s'.plains == s.plains
    ensures QueueInv(s')
  {
  }

  /** Firing hands an async's timer reference to the handler; the async is alive. */
  lemma {:induction false} FireMoveKeepsInv(s: State, key: Key, s': State)
    requires Inv(s) && Next(s, FireMove(key), s')
    ensures Inv(s')
    ensures s.nodes[key].OfAsync? ==>
              && s.nodes[key].id < |s.asyncs|
              && s.asyncs[s.nodes[key].id].stage.Live? && s.asyncs[s.nodes[key].id].timer.InTree?
  {
    FiringKeepsQueue(s, key, s');
    hide QueueInv, P.Next;
    if s.nodes[key].OfAsync? {
      var a := s.nodes[key].id;
      var x := s.asyncs[a];
      assert Sound(x) && Names(x, a, s.actors) && Conserved(x, a, s.actors);
      JoinKeepsActors(s.asyncs, s.actors, a, s'.asyncs[a], Actor(a, true, false, 0, 0, Mark));
    }
  }

  lemma {:induction false} NewKeepsInv(s: State, timeout: int, parent: Parent, s': State)
    requires Inv(s) && Next(s, New(timeout, parent), s')
    ensures Inv(s')
  {
    var a, i := |s.asyncs|, |s.actors|;
    NewKeepsQueue(s, s'.asyncs[a], s');
    hide QueueInv;
    NewKeepsActors(s.asyncs, s.actors, s'.asyncs[a], s'.actors[i]);
  }

  lemma {:induction false} NewKeepsQueue(s: State, x: Async, s': State)
    requires QueueInv(s) && s'.t == s.t && s'.nodes == s.nodes && s'.plains == s.plains
    requires s'.asyncs == s.asyncs + [x] && !Numbered(x)
    ensures QueueInv(s')
  {
  }

  lemma {:induction false} TimerMoveKeepsInv(s: State, e: P.Event, s': State)
    requires Inv(s) && Next(s, TimerMove(e), s')
    ensures Inv(s')
  {
    P.NextKeepsInv(s.t, e, s'.t);
    assert s'.t.pending == s.t.pending && s'.t.issued == s.t.issued && s'.t.seqno == s.t.seqno;
    hide P.Inv, P.Next;
    QueueIgnoresTime(s, s');
  }

  lemma {:induction false} QueueIgnoresTime(s: State, s': State)
    requires QueueInv(s) && P.Inv(s'.t) && s'.nodes == s.nodes && s'.asyncs == s.asyncs && s'.plains == s.plains
    requires s'.t.pending == s.t.pending && s'.t.issued == s.t.issued && s'.t.seqno == s.t.seqno
    ensures QueueInv(s')
  {
  }

  lemma {:induction false} NewPlainKeepsInv(s: State, s': State)
    requires Inv(s) && Next(s, NewPlain, s')
    ensures Inv(s')
  {
    NoKeyIsNeverPending(s.t);
    assert forall j | 0 <= j < |s.plains| :: s'.plains[j] == s.plains[j];
    assert PlainsLinked(s'.t, s'.nodes, s'.plains);
  }

  /** Scheduling a plain timer, with or without others in between, keeps the invariant. */
  lemma {:induction false} PlainScheduleKeepsInv(s: State, m: Move, s': State)
    requires Inv(s) && Next(s, m, s') && (m.StorePlain? || m.EnlistPlain?)
    ensures Inv(s')
  {
    if m.StorePlain? {
      var deadline := s.t.clock + m.timeout;
      P.NextKeepsInv(s.t, P.Arm(PlainScheduler(m.j), deadline), s'.t);
      PlainStored(s, m.j, deadline, s'.t);
    } else {
      PlainEnters(s, m.j, PlainScheduler(m.j), m.key, s'.t);
    }
  }

  /** What a plain timer's key finds in the tree: only a half-written one, with number zero, can find another's node. */
  lemma {:induction false} PlainFindsItself(s: State, j: nat)
    requires QueueInv(s) && j < |s.plains|
    ensures s.plains[j].key in s.nodes && s.nodes[s.plains[j].key] != OfPlain(j) ==>
              s.plains[j].half && s.plains[j].key.id == 0
  {
  }

  lemma {:induction false} CancelPlainKeepsInv(s: State, j: nat, hit: bool, s': State)
    requires Inv(s) && Next(s, CancelPlain(j, hit), s') && !Harmful(s, CancelPlain(j, hit))
    ensures Inv(s')
  {
    PlainFindsItself(s, j);
    P.NextKeepsInv(s.t, P.Cancel(s.plains[j].key, hit), s'.t);
    KeyLeaves(s, s.plains[j].key, s.asyncs, s'.t);
  }

  /** Every harmless step keeps the invariant. */
  lemma {:induction false} NextKeepsInv(s: State, m: Move, s': State)
    requires Inv(s) && Next(s, m, s') && !Harmful(s, m)
    ensures Inv(s')
  {
    match m
    case TimerMove(e) => TimerMoveKeepsInv(s, e, s');
    case New(timeout, parent) => NewKeepsInv(s, timeout, parent, s');
    case NewActor(target) => NewActorKeepsInv(s, target, s');
    case Borrow(from) => BorrowKeepsInv(s, from, s');
    case StoreMove(i) => StoreMoveKeepsInv(s, i, s');
    case EnlistMove(i, key) => EnlistMoveKeepsInv(s, i, key, s');
    case FireMove(key) => FireMoveKeepsInv(s, key, s');
    case LocalMove(i) => LocalMoveKeepsInv(s, i, s');
    case CancelMove(i, hit) => CancelMoveKeepsInv(s, i, hit, s');
    case NewPlain => NewPlainKeepsInv(s, s');
    case StorePlain(_, _) => PlainScheduleKeepsInv(s, m, s');
    case EnlistPlain(_, _) => PlainScheduleKeepsInv(s, m, s');
    case CancelPlain(j, hit) => CancelPlainKeepsInv(s, j, hit, s');
  }

  // ---------- Every harmful step breaks it ----------

  /** The creator still means to enlist a timer whose reference has been given away. */
  lemma {:induction false} HarmfulCancelBreaksInv(s: State, i: nat, hit: bool, s': State)
    requires Inv(s) && Next(s, CancelMove(i, hit), s') && Harmful(s, CancelMove(i, hit))
    ensures hit && !Inv(s')
  {
    hide QueueInv;
    var x := s.asyncs[s.actors[i].target];
    var j := x.timer.who;
    assert Names(x, s.actors[i].target, s.actors);
    assert Agrees(j, s.actors[j], x) && Agrees(i, s.actors[i], x);
    assert i != j && s'.actors[j] == s.actors[j];
    assert !Agrees(j, s'.actors[j], s'.asyncs[s'.actors[j].target]);
  }

  /** Somebody is left on an async that nothing keeps alive. */
  lemma {:induction false} HarmfulReleaseBreaksInv(s: State, i: nat, s': State)
    requires Inv(s) && Next(s, LocalMove(i), s') && Harmful(s, LocalMove(i))
    ensures !Inv(s')
  {
    var a := s.actors[i].target;
    EnoughForActor(s, i);
    LastReleaseEndsIt(i, s.asyncs[a], s.actors[i], s'.asyncs[a], s'.actors[i]);
    if EndsEarly(s.asyncs[a], s.actors[i]) {
      assert !Sound(s'.asyncs[a]) || !Agrees(i, s'.actors[i], s'.asyncs[a]);
    } else {
      var j :| 0 <= j < |s.actors| && j != i && s.actors[j].target == a && Exposed(s.actors[j]);
      assert s'.actors[j] == s.actors[j];
      assert !Agrees(j, s'.actors[j], s'.asyncs[s'.actors[j].target]);
    }
  }

  lemma {:induction false} LastReleaseEndsIt(i: nat, x: Async, ac: Actor, x': Async, ac': Actor)
    requires Sound(x) && Agrees(i, ac, x) && LocalStep(i, x, ac, x', ac') && GivesBack(ac.pc) && x.ref == 1
    ensures !x'.stage.Live? && (x.timer.Uncounted? ==> x'.timer.Uncounted?)
    ensures ac.borrower && !ac.pc.DropOwner? ==> ac'.pc.DestroyTimer? && !ac'.pc.next.Idle?
  {
  }

  lemma {:induction false} HarmfulBorrowBreaksInv(s: State, from: nat, s': State)
    requires Inv(s) && Next(s, Borrow(from), s') && Harmful(s, Borrow(from))
    ensures !Inv(s')
  {
    assert !Agrees(|s.actors|, s'.actors[|s.actors|], s'.asyncs[s.links[from]]);
  }

  /** An async waits for a node that is gone. */
  lemma {:induction false} HarmfulPlainCancelBreaksInv(s: State, j: nat, hit: bool, s': State)
    requires Inv(s) && Next(s, CancelPlain(j, hit), s') && Harmful(s, CancelPlain(j, hit))
    ensures hit && !Inv(s')
  {
    var a := s.nodes[s.plains[j].key].id;
    assert s'.asyncs[a].timer.InTree? && s'.asyncs[a].key !in s'.nodes;
  }

  /** A step keeps the invariant if and only if it is not one of the harmful ones. */
  lemma {:induction false} InvSurvivesIffHarmless(s: State, m: Move, s': State)
    requires Inv(s) && Next(s, m, s')
    ensures Inv(s') <==> !Harmful(s, m)
  {
    if !Harmful(s, m) {
      NextKeepsInv(s, m, s');
    } else {
      match m
      case LocalMove(i) => HarmfulReleaseBreaksInv(s, i, s');
      case CancelMove(i, hit) => HarmfulCancelBreaksInv(s, i, hit, s');
      case CancelPlain(j, hit) => HarmfulPlainCancelBreaksInv(s, j, hit, s');
      case Borrow(from) => HarmfulBorrowBreaksInv(s, from, s');
      case _ =>
    }
  }
}
