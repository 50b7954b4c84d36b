/**
  Callback-type asyncs raced by notify, cancel, timer expiry, enter and leave,
  from the moment a new async can be reached by others.

  An actor is one activity of one thread on one async; a thread that works on
  several asyncs is several actors.  Every step is one atomic action of
  `async.c` or `timeout.c`: a section under a lock, one atomic counter operation,
  storing the deadline of a new timer, or running the callback.  The locks of the
  asyncs are not modelled.  Beside the asyncs there are plain timers, which belong
  to other users of the queue.

  The fields `owner`, `timer`, `stage` and the counters record who has to give up
  which reference and what has happened; the program's own fields are `ref`,
  `canceled`, `called`, `key` and `parent`.

  There are two places where the program can go wrong.  A new async is linked to
  its parent first, its timer's reference is counted next, then its deadline is
  stored next to a sequence number that is still zero, and only then does it get
  a number of its own.  And a cancellation that comes to a child through its
  parent's link takes no reference.  `Harmful` says which steps do damage then;
  the invariant, which is in `AsyncInvariant`, survives exactly the other ones.
 */
module AsyncLifecycle {
  import opened Keys
  import P = TimerProtocol

  const NO_KEY := Key(0, 0)

  // ---------- States ----------

  /** Who is to release the creation reference. */
  datatype Owner = Unclaimed | RunBy(who: nat) | ToRelease(who: nat) | Released

  /** Who is to release the reference taken for the timer. */
  datatype Timer = NoTimer | Uncounted(who: nat) | Arming(who: nat) | InTree | OwedBy(who: nat) | Given

  datatype Stage = Live | Dying(who: nat) | Freed

  datatype Parent = NoParent | ChildOf(id: nat)

  datatype Async = Async(
    ref: int, canceled: bool, called: bool, key: Key, parent: Parent,
    owner: Owner, timer: Timer, stage: Stage,
    starts: nat, finishes: nat, frees: nat)

  /** What an actor does next. */
  datatype Pc =
    | Idle
    | Counting(timeout: int)   // xf_async_new: count the timer's reference
    | Storing(timeout: int)    // xf_timeout_schedule: store the deadline
    | Enlisting                //   take the poll lock and insert
    | NotifyTimer         // xf_async_notify: cancel the timer
    | NotifyDropTimer     //   it was pending: release its reference
    | NotifyTest          //   test and set `called`
    | Completing          //   run the callback
    | DropOwner           //   release the creation reference
    | CancelTimer         // xf_async_cancel: cancel the timer
    | CancelDropTimer
    | Mark                // _cancel: set `canceled`, then notify or leave it to others
    | EnterTest           // xf_async_enter
    | Leaving             // xf_async_leave
    | Dropping            // xf_async_release of an external reference
    | HandlerDrop         // async_timeout: release the timer's reference
    | DestroyTimer(next: Pc)   // the last release: cancel the timer
    | DestroyFree(next: Pc)    //   and free

  /**
    `refs` external references and `open` enter sections belong to the actor.  A
    handler runs an expired timer's procedure.  A borrower cancels an async that it
    found through the parent's link, and has no reference to it.
   */
  datatype Actor = Actor(target: nat, handler: bool, borrower: bool, refs: nat, open: nat, pc: Pc)

  function Holder(target: nat): Actor {
    Actor(target, false, false, 0, 0, Idle)
  }

  /** A timer of its own; `half` says that its schedule call has stored the deadline and not yet the number. */
  datatype Plain = Plain(key: Key, half: bool)

  /** Which object a node of the tree is part of. */
  datatype Part = OfAsync(id: nat) | OfPlain(id: nat)

  /** `nodes` says which node is in the tree under which key, and `links` which child a parent names. */
  datatype State = State(
    t: P.State, nodes: map<Key, Part>,
    asyncs: seq<Async>, actors: seq<Actor>, plains: seq<Plain>, links: map<nat, nat>)

  ghost predicate Init(s: State) {
    && P.Init(s.t) && s.nodes == map[]
    && s.asyncs == [] && s.actors == [] && s.plains == [] && s.links == map[]
  }

  // ---------- Steps of one actor ----------

  /** After a notification a timer handler still has its own reference to release. */
  function After(ac: Actor): Pc {
    if ac.handler then HandlerDrop else Idle
  }

  /** `xf_async_release`: whoever takes the count to zero destroys the object before going on. */
  function Release(i: nat, x: Async, ac: Actor, next: Pc): (Async, Actor) {
    if x.ref - 1 > 0 then (x.(ref := x.ref - 1), ac.(pc := next))
    else (x.(ref := x.ref - 1, stage := Dying(i)), ac.(pc := DestroyTimer(next)))
  }

  /** Steps that touch the async and the actor only. */
  ghost predicate LocalStep(i: nat, x: Async, ac: Actor, x': Async, ac': Actor) {
    match ac.pc
    case Counting(timeout) =>
      x' == x.(ref := x.ref + 1, timer := Arming(i)) && ac' == ac.(pc := Storing(timeout))
    case Idle =>
      !ac.handler && !ac.borrower &&
      ( // The caller knows that the object is alive when it takes a reference.
        || (x.ref > 0 && x' == x.(ref := x.ref + 1) && ac' == ac.(refs := ac.refs + 1))
        // Operations are started by holders of a reference.
        || (ac.refs + ac.open > 0 && x' == x
            && (ac' == ac.(pc := NotifyTimer) || ac' == ac.(pc := CancelTimer) || ac' == ac.(pc := EnterTest)))
        || (ac.open > 0 && x' == x && ac' == ac.(pc := Leaving))
        || (ac.refs > 0 && x' == x && ac' == ac.(pc := Dropping)))
    case NotifyDropTimer => (x', ac') == Release(i, x.(timer := Given), ac, NotifyTest)
    case NotifyTest =>
      if !x.called then
        && x' == x.(called := true, owner := RunBy(i), starts := x.starts + 1)
        && ac' == ac.(pc := Completing)
      else x' == x && ac' == ac.(pc := After(ac))
    case Completing =>
      x' == x.(owner := ToRelease(i), finishes := x.finishes + 1) && ac' == ac.(pc := DropOwner)
    case DropOwner => (x', ac') == Release(i, x.(owner := Released), ac, After(ac))
    case CancelDropTimer => (x', ac') == Release(i, x.(timer := Given), ac, Mark)
    case Mark =>
      // A child or the pending I/O may take over; otherwise the async is notified.
      x' == x.(canceled := true) && (ac' == ac.(pc := NotifyTimer) || ac' == ac.(pc := After(ac)))
    case EnterTest =>
      if x.canceled then x' == x && ac' == ac.(pc := NotifyTimer)
      else x' == x.(ref := x.ref + 1) && ac' == ac.(open := ac.open + 1, pc := Idle)
    case Leaving => ac.open > 0 && (x', ac') == Release(i, x, ac.(open := ac.open - 1), Idle)
    case Dropping => ac.refs > 0 && (x', ac') == Release(i, x, ac.(refs := ac.refs - 1), Idle)
    case HandlerDrop => (x', ac') == Release(i, x.(timer := Given), ac, Idle)
    case DestroyFree(next) => x' == x.(stage := Freed, frees := x.frees + 1) && ac' == ac.(pc := next)
    case _ => false
  }

  /** `xf_timeout_schedule` up to the lock: the deadline joins a sequence number that is still zero. */
  ghost predicate StoreStep(i: nat, x: Async, ac: Actor, deadline: int, x': Async, ac': Actor) {
    ac.pc.Storing? && x' == x.(key := x.key.(timestamp := deadline)) && ac' == ac.(pc := Enlisting)
  }

  /** The rest of `xf_timeout_schedule`: the stored deadline gets its number. */
  ghost predicate EnlistStep(i: nat, x: Async, ac: Actor, key: Key, x': Async, ac': Actor) {
    && ac.pc.Enlisting? && key.timestamp == x.key.timestamp
    && x' == x.(key := key, timer := InTree) && ac' == ac.(pc := Idle)
  }

  /** Steps that call `xf_timeout_cancel` with the async's key. */
  ghost predicate CancelTimerStep(i: nat, x: Async, ac: Actor, hit: bool, x': Async, ac': Actor) {
    match ac.pc
    case NotifyTimer =>
      && x' == (if hit then x.(timer := OwedBy(i)) else x)
      && ac' == ac.(pc := if hit then NotifyDropTimer else NotifyTest)
    case CancelTimer =>
      && x' == (if hit then x.(timer := OwedBy(i)) else x)
      && ac' == ac.(pc := if hit then CancelDropTimer else Mark)
    case DestroyTimer(next) =>
      && x' == (if hit then x.(timer := Given) else x)
      && ac' == ac.(pc := DestroyFree(next))
    case _ => false
  }

  // ---------- Steps of the system ----------

  datatype Move =
    | TimerMove(e: P.Event)              // the clock and the poll thread
    | New(timeout: int, parent: Parent)
    | NewActor(target: nat)
    | Borrow(from: nat)                  // _cancel of the parent turns to the child that it names
    | StoreMove(i: nat)
    | EnlistMove(i: nat, key: Key)
    | FireMove(key: Key)
    | LocalMove(i: nat)
    | CancelMove(i: nat, hit: bool)
    | NewPlain
    | StorePlain(j: nat, timeout: int)
    | EnlistPlain(j: nat, key: Key)
    | CancelPlain(j: nat, hit: bool)

  function FreshAsync(timer: Timer, parent: Parent): Async {
    Async(1, false, false, NO_KEY, parent, Unclaimed, timer, Live, 0, 0, 0)
  }

  /** The state after actor `i` and its async have changed. */
  function Put(s: State, i: nat, x: Async, ac: Actor): State
    requires i < |s.actors| && s.actors[i].target < |s.asyncs|
  {
    s.(asyncs := s.asyncs[s.actors[i].target := x], actors := s.actors[i := ac])
  }

  /** Schedulers of asyncs' timers are named by their actor, those of plain timers by negative numbers. */
  function PlainScheduler(j: nat): int {
    -1 - j
  }

  /** The plain timer's node is in the tree. */
  predicate Queued(s: State, j: nat) {
    j < |s.plains| && s.plains[j].key in s.nodes && s.nodes[s.plains[j].key] == OfPlain(j)
  }

  /** The last release clears the link of its async's parent, whatever it names. */
  function LinksAfter(links: map<nat, nat>, x: Async, ac: Actor): map<nat, nat> {
    if ac.pc.DestroyFree? && x.parent.ChildOf? then links - {x.parent.id} else links
  }

  /** The procedure of the node taken out is called: an async's is its timeout handler. */
  function Fired(s: State, part: Part): State {
    if part.OfAsync? && part.id < |s.asyncs| then
      s.(asyncs := s.asyncs[part.id := s.asyncs[part.id].(timer := OwedBy(|s.actors|))],
         actors := s.actors + [Actor(part.id, true, false, 0, 0, Mark)])
    else s
  }

  ghost predicate Next(s: State, m: Move, s': State) {
    match m
    case TimerMove(e) =>
      (e.Tick? || e.PollMove?) && P.Next(s.t, e, s'.t) && s' == s.(t := s'.t)
    case New(timeout, parent) =>
      var a, i := |s.asyncs|, |s.actors|;
      && (parent.ChildOf? ==> parent.id < |s.asyncs|)
      && s' == s.(asyncs := s.asyncs + [FreshAsync(if timeout > 0 then Uncounted(i) else NoTimer, parent)],
                  actors := s.actors + [Holder(a).(pc := if timeout > 0 then Counting(timeout) else Idle)],
                  links := if parent.ChildOf? then s.links[parent.id := a] else s.links)
    case NewActor(target) =>
      target < |s.asyncs| && s' == s.(actors := s.actors + [Holder(target)])
    case Borrow(parent) =>
      && parent in s.links && s.links[parent] < |s.asyncs|
      && s' == s.(actors := s.actors + [Actor(s.links[parent], false, true, 0, 0, CancelTimer)])
    case StoreMove(i) =>
      && i < |s.actors| && |s'.actors| == |s.actors| && s.actors[i].pc.Storing?
      && var a, deadline := s.actors[i].target, s.t.clock + s.actors[i].pc.timeout;
         && a < |s.asyncs| == |s'.asyncs|
         && P.Next(s.t, P.Arm(i, deadline), s'.t)
         && StoreStep(i, s.asyncs[a], s.actors[i], deadline, s'.asyncs[a], s'.actors[i])
         && s' == Put(s, i, s'.asyncs[a], s'.actors[i]).(t := s'.t)
    case EnlistMove(i, key) =>
      && i < |s.actors| && |s'.actors| == |s.actors|
      && var a := s.actors[i].target;
         && a < |s.asyncs| == |s'.asyncs|
         && P.Next(s.t, P.Enlist(i, key), s'.t)
         && EnlistStep(i, s.asyncs[a], s.actors[i], key, s'.asyncs[a], s'.actors[i])
         && s' == Put(s, i, s'.asyncs[a], s'.actors[i]).(t := s'.t, nodes := s.nodes[key := OfAsync(a)])
    case FireMove(key) =>
      && P.Next(s.t, P.Fire(key), s'.t) && key in s.nodes
      && s' == Fired(s.(t := s'.t, nodes := s.nodes - {key}), s.nodes[key])
    case LocalMove(i) =>
      && i < |s.actors| && |s'.actors| == |s.actors|
      && var a := s.actors[i].target;
         && a < |s.asyncs| == |s'.asyncs|
         && LocalStep(i, s.asyncs[a], s.actors[i], s'.asyncs[a], s'.actors[i])
         && s' == Put(s, i, s'.asyncs[a], s'.actors[i]).(links := LinksAfter(s.links, s.asyncs[a], s.actors[i]))
    case CancelMove(i, hit) =>
      && i < |s.actors| && |s'.actors| == |s.actors|
      && var a := s.actors[i].target;
         && a < |s.asyncs| == |s'.asyncs|
         && P.Next(s.t, P.Cancel(s.asyncs[a].key, hit), s'.t)
         && CancelTimerStep(i, s.asyncs[a], s.actors[i], hit, s'.asyncs[a], s'.actors[i])
         && s' == Put(s, i, s'.asyncs[a], s'.actors[i]).(t := s'.t, nodes := s.nodes - {s.asyncs[a].key})
    case NewPlain => s' == s.(plains := s.plains + [Plain(NO_KEY, false)])
    case StorePlain(j, timeout) =>
      && j < |s.plains| && !s.plains[j].half && !Queued(s, j) && timeout > 0
      && P.Next(s.t, P.Arm(PlainScheduler(j), s.t.clock + timeout), s'.t)
      && s' == s.(t := s'.t,
                  plains := s.plains[j := Plain(s.plains[j].key.(timestamp := s.t.clock + timeout), true)])
    case EnlistPlain(j, key) =>
      && j < |s.plains| && s.plains[j].half && key.timestamp == s.plains[j].key.timestamp
      && P.Next(s.t, P.Enlist(PlainScheduler(j), key), s'.t)
      && s' == s.(t := s'.t, plains := s.plains[j := Plain(key, false)], nodes := s.nodes[key := OfPlain(j)])
    case CancelPlain(j, hit) =>
      && j < |s.plains| && P.Next(s.t, P.Cancel(s.plains[j].key, hit), s'.t)
      && s' == s.(t := s'.t, nodes := s.nodes - {s.plains[j].key})
  }

  // ---------- Steps that do damage ----------

  predicate GivesBack(pc: Pc) {
    pc.NotifyDropTimer? || pc.DropOwner? || pc.CancelDropTimer? || pc.Leaving? || pc.Dropping? || pc.HandlerDrop?
  }

  /** The actor is on an async without a reference of its own that would keep it alive. */
  predicate Exposed(ac: Actor) {
    ac.pc.Counting? || (ac.borrower && !ac.pc.Idle? && !Destroying(ac.pc))
  }

  /**
    The step gives up the only reference there is, and the creator has yet to count
    the timer's, or the actor itself is a borrower with more to do.
   */
  predicate EndsEarly(x: Async, ac: Actor) {
    GivesBack(ac.pc) && x.ref == 1 && (x.timer.Uncounted? || (ac.borrower && !ac.pc.DropOwner?))
  }

  /** Actor `i` gives up the only reference there is, and another actor is exposed on the async. */
  ghost predicate Uncovers(s: State, i: nat)
    requires i < |s.actors| && s.actors[i].target < |s.asyncs|
  {
    && GivesBack(s.actors[i].pc) && s.asyncs[s.actors[i].target].ref == 1
    && exists j | 0 <= j < |s.actors| :: j != i && s.actors[j].target == s.actors[i].target && Exposed(s.actors[j])
  }

  /**
    The ways to do damage: cancelling the timer of an async whose key is half
    written while a timer with just that key is pending; the same with a plain timer
    whose key is half written, when the one pending is an async's; giving up the
    last reference while the creator has yet to count the timer's, or a borrower has
    not finished; and borrowing an async that is being destroyed.
   */
  ghost predicate Harmful(s: State, m: Move) {
    match m
    case CancelMove(i, _) =>
      && i < |s.actors| && s.actors[i].target < |s.asyncs|
      && s.asyncs[s.actors[i].target].timer.Arming? && s.asyncs[s.actors[i].target].key in s.t.pending
    case CancelPlain(j, _) =>
      && j < |s.plains| && s.plains[j].half
      && s.plains[j].key in s.nodes && s.nodes[s.plains[j].key].OfAsync?
    case LocalMove(i) =>
      && i < |s.actors| && s.actors[i].target < |s.asyncs|
      && (EndsEarly(s.asyncs[s.actors[i].target], s.actors[i]) || Uncovers(s, i))
    case Borrow(parent) =>
      parent in s.links && s.links[parent] < |s.asyncs| && !s.asyncs[s.links[parent]].stage.Live?
    case _ => false
  }

  // ---------- What callers can see to ----------

  predicate BeingMade(s: State, a: nat, i: nat) {
    a < |s.asyncs| && (s.asyncs[a].timer.Uncounted? || s.asyncs[a].timer.Arming?) && s.asyncs[a].timer.who != i
  }

  /** Some actor other than `i` has a reference to async `a`. */
  ghost predicate HeldByOther(s: State, a: nat, i: nat) {
    exists h | 0 <= h < |s.actors| :: h != i && s.actors[h].target == a && s.actors[h].refs + s.actors[h].open > 0
  }

  ghost predicate Borrowed(s: State, a: nat) {
    exists j | 0 <= j < |s.actors| :: s.actors[j].target == a && s.actors[j].borrower && Exposed(s.actors[j])
  }

  /**
    Somebody acts on an async, or cancels a plain timer, whose creation or schedule
    call has not returned; or nobody but the actor itself has a reference to an
    async that is being cancelled through its parent's link.
   */
  ghost predicate Careless(s: State, m: Move) {
    match m
    case CancelMove(i, _) => i < |s.actors| && BeingMade(s, s.actors[i].target, i)
    case CancelPlain(j, _) => j < |s.plains| && s.plains[j].half
    case LocalMove(i) =>
      && i < |s.actors|
      && (|| BeingMade(s, s.actors[i].target, i)
          || (GivesBack(s.actors[i].pc) && Borrowed(s, s.actors[i].target) && !HeldByOther(s, s.actors[i].target, i)))
    case Borrow(parent) => parent in s.links && !HeldByOther(s, s.links[parent], |s.actors|)
    case _ => false
  }

  // ---------- What holds of one async and one actor ----------

  function OwnerToken(x: Async): nat {
    if x.owner.Released? then 0 else 1
  }

  function TimerToken(x: Async): nat {
    if x.timer.NoTimer? || x.timer.Uncounted? || x.timer.Given? then 0 else 1
  }

  /** References that an actor holds on async `a`: external ones and open enter sections. */
  function Holding(ac: Actor, a: nat): nat {
    if ac.target == a then ac.refs + ac.open else 0
  }

  function Held(actors: seq<Actor>, a: nat): nat {
    if actors == [] then 0 else Holding(actors[0], a) + Held(actors[1..], a)
  }

  /** The count is the number of references given out and not yet given back. */
  ghost predicate Conserved(x: Async, a: nat, actors: seq<Actor>) {
    x.ref == OwnerToken(x) + TimerToken(x) + Held(actors, a)
  }

  /** What the fields that concern the callback say about each other. */
  ghost predicate CallbackSound(x: Async) {
    && (x.called <==> !x.owner.Unclaimed?)
    && x.starts == (if x.called then 1 else 0)
    && x.finishes == (if x.owner.ToRelease? || x.owner.Released? then 1 else 0)
  }

  /** What the fields of one async say about each other. */
  ghost predicate Sound(x: Async) {
    && x.ref >= 0 && (x.ref > 0 <==> x.stage.Live?)
    && CallbackSound(x)
    && x.frees == (if x.stage.Freed? then 1 else 0)
    && (x.timer.NoTimer? || x.timer.Uncounted? ==> x.key == NO_KEY)
    && (x.timer.Arming? ==> x.key.id == 0)
    && (x.timer.Uncounted? ==> x.stage.Live?)
  }

  predicate Destroying(pc: Pc) {
    pc.DestroyTimer? || pc.DestroyFree?
  }

  /** The actor has to release the timer's reference. */
  predicate Owes(ac: Actor) {
    ac.pc.NotifyDropTimer? || ac.pc.CancelDropTimer? || (ac.handler && !ac.pc.Idle? && !Destroying(ac.pc))
  }

  predicate Making(pc: Pc) {
    pc.Counting? || pc.Storing? || pc.Enlisting?
  }

  /** The actor runs the callback, or has run it, exactly if the async says so. */
  ghost predicate CallbackAgrees(i: nat, ac: Actor, x: Async) {
    && (ac.pc.Completing? <==> x.owner == RunBy(i))
    && (ac.pc.DropOwner? <==> x.owner == ToRelease(i))
  }

  /** What an actor is doing agrees with what the async says it is doing. */
  ghost predicate Agrees(i: nat, ac: Actor, x: Async) {
    && CallbackAgrees(i, ac, x)
    && (ac.pc.Counting? <==> x.timer == Uncounted(i))
    && (ac.pc.Storing? || ac.pc.Enlisting? <==> x.timer == Arming(i))
    && (ac.pc.Storing? ==> x.key == NO_KEY)
    && (Owes(ac) <==> x.timer == OwedBy(i))
    && (Destroying(ac.pc) <==> x.stage == Dying(i))
    && (Destroying(ac.pc) ==> ac.pc.next.Idle?)
    && (ac.pc.Leaving? ==> ac.open > 0)
    && (ac.pc.Dropping? ==> ac.refs > 0)
    && (ac.handler ==> ac.refs == 0 && ac.open == 0)
    && (ac.handler ==> !Making(ac.pc) && !ac.pc.NotifyDropTimer? && !ac.pc.CancelTimer?)
    && (ac.handler ==> !ac.pc.CancelDropTimer? && !ac.pc.EnterTest?)
    && (ac.borrower ==> ac.refs == 0 && ac.open == 0 && !ac.handler && !Making(ac.pc) && !ac.pc.EnterTest?)
    && (!ac.handler && !ac.borrower && !ac.pc.Idle? && !Making(ac.pc) && !Destroying(ac.pc) ==> ac.refs + ac.open > 0)
    && (!ac.handler ==> !ac.pc.HandlerDrop?)
    && (Exposed(ac) ==> x.stage.Live?)
  }

  /** Whoever is named exists and works on this async. */
  ghost predicate Names(x: Async, a: nat, actors: seq<Actor>) {
    && (x.owner.RunBy? || x.owner.ToRelease? ==> x.owner.who < |actors| && actors[x.owner.who].target == a)
    && (x.timer.Uncounted? || x.timer.Arming? || x.timer.OwedBy? ==>
          x.timer.who < |actors| && actors[x.timer.who].target == a)
    && (x.stage.Dying? ==> x.stage.who < |actors| && actors[x.stage.who].target == a)
  }

  /** The async's timer has been given a sequence number. */
  predicate Numbered(x: Async) {
    x.timer.InTree? || x.timer.OwedBy? || x.timer.Given?
  }

  // ---------- Sums over actors ----------

  lemma {:induction false} HeldAfterUpdate(actors: seq<Actor>, i: nat, ac: Actor, a: nat)
    requires i < |actors|
    ensures Held(actors[i := ac], a) == Held(actors, a) - Holding(actors[i], a) + Holding(ac, a)
  {
    if i > 0 {
      HeldAfterUpdate(actors[1..], i - 1, ac, a);
      assert actors[i := ac][1..] == actors[1..][i - 1 := ac];
    } else {
      assert actors[i := ac][1..] == actors[1..];
    }
  }

  lemma {:induction false} HeldAfterAppend(actors: seq<Actor>, ac: Actor, a: nat)
    ensures Held(actors + [ac], a) == Held(actors, a) + Holding(ac, a)
  {
    if actors != [] {
      HeldAfterAppend(actors[1..], ac, a);
      assert (actors + [ac])[1..] == actors[1..] + [ac];
    }
  }

  lemma {:induction false} HeldAtLeast(actors: seq<Actor>, i: nat)
    requires i < |actors|
    ensures Held(actors, actors[i].target) >= actors[i].refs + actors[i].open
  {
    if i > 0 {
      HeldAtLeast(actors[1..], i - 1);
    }
  }

  lemma {:induction false} NobodyHoldsNew(actors: seq<Actor>, a: nat)
    requires forall i | 0 <= i < |actors| :: actors[i].target < a
    ensures Held(actors, a) == 0
  {
    if actors != [] {
      NobodyHoldsNew(actors[1..], a);
    }
  }

  // ---------- One actor's step does right by itself and its async ----------

  /** Other actors are named in the new async exactly where they were named in the old one. */
  ghost predicate OthersKept(i: nat, x: Async, x': Async) {
    && (x'.owner == x.owner || (Mine(i, x.owner) && Mine(i, x'.owner)))
    && (x'.timer == x.timer || (MyTimer(i, x.timer) && MyTimer(i, x'.timer)))
    && (x'.stage == x.stage || (MyStage(i, x.stage) && MyStage(i, x'.stage)))
    && (x'.key == x.key || x.timer == Arming(i))
  }

  predicate Mine(i: nat, o: Owner) {
    o.Unclaimed? || o.Released? || o.who == i
  }

  predicate MyTimer(i: nat, t: Timer) {
    t.NoTimer? || t.InTree? || t.Given? || t.who == i
  }

  predicate MyStage(i: nat, g: Stage) {
    g.Live? || g.Freed? || g.who == i
  }

  /** The references gained or lost by the actor and the async are those counted. */
  ghost predicate Balanced(x: Async, ac: Actor, x': Async, ac': Actor) {
    x'.ref - x.ref
    == (OwnerToken(x') - OwnerToken(x)) + (TimerToken(x') - TimerToken(x))
       + (ac'.refs + ac'.open) - (ac.refs + ac.open)
  }

  /** Everything the count owes to the object itself and to one actor is there. */
  ghost predicate Enough(x: Async, ac: Actor) {
    x.ref >= OwnerToken(x) + TimerToken(x) + ac.refs + ac.open
  }

  /** The step does not touch the timer. */
  ghost predicate SameTimer(x: Async, x': Async) {
    x'.key == x.key && (x'.timer.InTree? <==> x.timer.InTree?) && (Numbered(x') <==> Numbered(x))
  }

  lemma {:induction false} DropTimerIsRight(
    i: nat, a: nat, actors: seq<Actor>, x: Async, ac: Actor, x': Async, ac': Actor)
    requires i < |actors| && actors[i].target == a
    requires Sound(x) && Agrees(i, ac, x) && Enough(x, ac)
    requires LocalStep(i, x, ac, x', ac') && !EndsEarly(x, ac)
    requires ac.pc.NotifyDropTimer? || ac.pc.CancelDropTimer? || ac.pc.HandlerDrop?
    ensures Sound(x') && Agrees(i, ac', x') && (Names(x, a, actors) ==> Names(x', a, actors))
    ensures OthersKept(i, x, x') && Balanced(x, ac, x', ac')
    ensures ac'.target == ac.target && SameTimer(x, x')
  {
  }

  lemma {:induction false} DropOwnerIsRight(
    i: nat, a: nat, actors: seq<Actor>, x: Async, ac: Actor, x': Async, ac': Actor)
    requires i < |actors| && actors[i].target == a
    requires Sound(x) && Agrees(i, ac, x) && Enough(x, ac)
    requires LocalStep(i, x, ac, x', ac') && !EndsEarly(x, ac)
    requires ac.pc.DropOwner?
    ensures Sound(x') && Agrees(i, ac', x') && (Names(x, a, actors) ==> Names(x', a, actors))
    ensures OthersKept(i, x, x') && Balanced(x, ac, x', ac')
    ensures ac'.target == ac.target && SameTimer(x, x')
  {
  }

  /** A step that gives a reference back does right by its own actor and async. */
  lemma {:induction false} ReleaseStepIsRight(
    i: nat, a: nat, actors: seq<Actor>, x: Async, ac: Actor, x': Async, ac': Actor)
    requires i < |actors| && actors[i].target == a
    requires Sound(x) && Agrees(i, ac, x) && Enough(x, ac)
    requires LocalStep(i, x, ac, x', ac') && !EndsEarly(x, ac)
    requires GivesBack(ac.pc)
    ensures Sound(x') && Agrees(i, ac', x') && (Names(x, a, actors) ==> Names(x', a, actors))
    ensures OthersKept(i, x, x') && Balanced(x, ac, x', ac')
    ensures ac'.target == ac.target && SameTimer(x, x')
  {
    if ac.pc.DropOwner? {
      DropOwnerIsRight(i, a, actors, x, ac, x', ac');
    } else if !ac.pc.Leaving? && !ac.pc.Dropping? {
      DropTimerIsRight(i, a, actors, x, ac, x', ac');
    }
  }

  lemma {:induction false} IdleStepIsRight(
    i: nat, a: nat, actors: seq<Actor>, x: Async, ac: Actor, x': Async, ac': Actor)
    requires i < |actors| && actors[i].target == a
    requires Sound(x) && Agrees(i, ac, x) && Enough(x, ac)
    requires LocalStep(i, x, ac, x', ac')
    requires ac.pc.Idle?
    ensures Sound(x') && Agrees(i, ac', x') && (Names(x, a, actors) ==> Names(x', a, actors))
    ensures OthersKept(i, x, x') && Balanced(x, ac, x', ac')
    ensures ac'.target == ac.target && SameTimer(x, x')
  {
  }

  /** So does every other local step. */
  lemma {:induction false} LocalStepIsRight(
    i: nat, a: nat, actors: seq<Actor>, x: Async, ac: Actor, x': Async, ac': Actor)
    requires i < |actors| && actors[i].target == a
    requires Sound(x) && Agrees(i, ac, x) && Enough(x, ac)
    requires LocalStep(i, x, ac, x', ac') && !EndsEarly(x, ac)
    ensures Sound(x') && Agrees(i, ac', x') && (Names(x, a, actors) ==> Names(x', a, actors))
    ensures OthersKept(i, x, x') && Balanced(x, ac, x', ac')
    ensures ac'.target == ac.target && SameTimer(x, x')
  {
    if GivesBack(ac.pc) {
      ReleaseStepIsRight(i, a, actors, x, ac, x', ac');
    } else if ac.pc.Idle? {
      IdleStepIsRight(i, a, actors, x, ac, x', ac');
    } else if ac.pc.Mark? || ac.pc.EnterTest? {
      MarkStepIsRight(i, a, actors, x, ac, x', ac');
    } else {
      OtherStepIsRight(i, a, actors, x, ac, x', ac');
    }
  }

  lemma {:induction false} MarkStepIsRight(
    i: nat, a: nat, actors: seq<Actor>, x: Async, ac: Actor, x': Async, ac': Actor)
    requires i < |actors| && actors[i].target == a
    requires Sound(x) && Agrees(i, ac, x) && Enough(x, ac)
    requires LocalStep(i, x, ac, x', ac')
    requires ac.pc.Mark? || ac.pc.EnterTest?
    ensures Sound(x') && Agrees(i, ac', x') && (Names(x, a, actors) ==> Names(x', a, actors))
    ensures OthersKept(i, x, x') && Balanced(x, ac, x', ac')
    ensures ac'.target == ac.target && SameTimer(x, x')
  {
  }

  lemma {:induction false} OtherStepIsRight(
    i: nat, a: nat, actors: seq<Actor>, x: Async, ac: Actor, x': Async, ac': Actor)
    requires i < |actors| && actors[i].target == a
    requires Sound(x) && Agrees(i, ac, x) && Enough(x, ac)
    requires LocalStep(i, x, ac, x', ac')
    requires !GivesBack(ac.pc) && !ac.pc.Idle? && !ac.pc.Mark? && !ac.pc.EnterTest?
    ensures Sound(x') && Agrees(i, ac', x') && (Names(x, a, actors) ==> Names(x', a, actors))
    ensures OthersKept(i, x, x') && Balanced(x, ac, x', ac')
    ensures ac'.target == ac.target && SameTimer(x, x')
  {
  }

  /** So does a call to `xf_timeout_cancel`, which finds the timer exactly if it is in the tree. */
  lemma {:induction false} CancelTimerStepIsRight(
    i: nat, a: nat, actors: seq<Actor>, x: Async, ac: Actor, hit: bool, x': Async, ac': Actor)
    requires i < |actors| && actors[i].target == a
    requires Sound(x) && Agrees(i, ac, x) && Enough(x, ac)
    requires hit <==> x.timer.InTree?
    requires CancelTimerStep(i, x, ac, hit, x', ac')
    ensures Sound(x') && Agrees(i, ac', x') && (Names(x, a, actors) ==> Names(x', a, actors))
    ensures OthersKept(i, x, x') && Balanced(x, ac, x', ac')
    ensures ac'.target == ac.target && x'.key == x.key && !x'.timer.InTree? && (Numbered(x') <==> Numbered(x))
    ensures ac.pc.DestroyTimer? ==> !hit
  {
  }

  /** Storing the deadline of a new timer does right by the async and its creator. */
  lemma {:induction false} StoreStepIsRight(
    i: nat, a: nat, actors: seq<Actor>, x: Async, ac: Actor, deadline: int, x': Async, ac': Actor)
    requires i < |actors| && actors[i].target == a
    requires Sound(x) && Agrees(i, ac, x) && StoreStep(i, x, ac, deadline, x', ac')
    ensures Sound(x') && Agrees(i, ac', x') && (Names(x, a, actors) ==> Names(x', a, actors))
    ensures OthersKept(i, x, x') && Balanced(x, ac, x', ac')
    ensures ac'.target == ac.target && x'.key == Key(0, deadline) && !Numbered(x) && !Numbered(x')
  {
  }

  /** So does giving it its number. */
  lemma {:induction false} EnlistStepIsRight(
    i: nat, a: nat, actors: seq<Actor>, x: Async, ac: Actor, key: Key, x': Async, ac': Actor)
    requires i < |actors| && actors[i].target == a
    requires Sound(x) && Agrees(i, ac, x) && EnlistStep(i, x, ac, key, x', ac')
    ensures Sound(x') && Agrees(i, ac', x') && (Names(x, a, actors) ==> Names(x', a, actors))
    ensures OthersKept(i, x, x') && Balanced(x, ac, x', ac')
    ensures ac'.target == ac.target && !Numbered(x) && x'.timer.InTree? && x'.key == key
  {
  }
}
