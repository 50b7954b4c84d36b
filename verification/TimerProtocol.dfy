/**
  The poll thread, the timer queue and everybody who schedules or cancels, as a
  step relation.  Sections that hold the poll lock are single steps; the poll
  thread's own lock is its program counter.  Timers are their keys.
 */
module TimerProtocol {
  import opened Keys

  const MAX_WAIT := 300 * 1000

  // ---------- The queue operations on sets of keys ----------

  function Due(ks: set<Key>, ticks: int): set<Key> {
    set k | k in ks && k.timestamp <= ticks
  }

  /** `xf_poll_get_wait_timeout` with the timeout procedure registered. */
  ghost function WaitTimeout(pending: set<Key>, ticks: int): int {
    if pending == {} || Least(pending).timestamp - ticks > MAX_WAIT then MAX_WAIT
    else Least(pending).timestamp - ticks
  }

  // ---------- States ----------

  /** Where the poll thread is; it holds the lock while deciding, committed or firing. */
  datatype Poll =
    | Waking
    | Deciding
    | Sleeping(deadline: int, signalled: bool)
    | Committed
    | Firing(sample: int, count: nat)
    | InCallback(sample: int, count: nat)

  /**
    `armed` maps each scheduler that does not have the lock yet to the deadline
    it has computed.  `issued`, `fired` and `cancelled` record what has happened so far.
   */
  datatype State = State(
    clock: int,
    pending: set<Key>,
    seqno: int,
    armed: map<int, int>,
    poll: Poll,
    issued: set<Key>,
    fired: multiset<Key>,
    cancelled: multiset<Key>)

  datatype Event =
    | Tick(ticks: int)
    | Arm(who: int, deadline: int)
    | Enlist(who: int, key: Key)
    | Cancel(key: Key, hit: bool)
    | Fire(key: Key)
    | PollMove

  predicate LockFree(s: State) {
    s.poll.Waking? || s.poll.Sleeping? || s.poll.InCallback?
  }

  ghost predicate Init(s: State) {
    && s.clock >= 0 && s.pending == {} && s.seqno == 0 && s.armed == map[] && s.poll == Waking
    && s.issued == {} && s.fired == multiset{} && s.cancelled == multiset{}
  }

  // ---------- Steps ----------

  ghost predicate TickStep(s: State, ticks: int, s': State) {
    ticks >= s.clock && s' == s.(clock := ticks)
  }

  /** A scheduler reads the clock, outside the lock. */
  ghost predicate ArmStep(s: State, who: int, deadline: int, s': State) {
    who !in s.armed && deadline > s.clock && s' == s.(armed := s.armed[who := deadline])
  }

  /** The rest of `xf_timeout_schedule`: a new minimum signals the poll thread. */
  ghost predicate EnlistStep(s: State, who: int, key: Key, s': State) {
    && LockFree(s)
    && key.id == s.seqno && who in s.armed && s.armed[who] == key.timestamp
    && var pending' := s.pending + {key};
       s' == s.(pending := pending', seqno := s.seqno + 1, issued := s.issued + {key},
                armed := s.armed - {who},
                poll := if IsLeast(key, pending') && s.poll.Sleeping? then s.poll.(signalled := true) else s.poll)
  }

  /** `xf_timeout_cancel`, with any key whatever. */
  ghost predicate CancelStep(s: State, key: Key, hit: bool, s': State) {
    && LockFree(s)
    && hit == (key in s.pending)
    && s' == s.(pending := s.pending - {key},
                cancelled := if hit then s.cancelled + multiset{key} else s.cancelled)
  }

  /** The firing loop takes the minimum out and gives up the lock. */
  ghost predicate FireStep(s: State, key: Key, s': State) {
    && s.poll.Firing? && IsLeast(key, s.pending) && key.timestamp <= s.poll.sample
    && s' == s.(pending := s.pending - {key}, fired := s.fired + multiset{key},
                poll := InCallback(s.poll.sample, s.poll.count + 1))
  }

  ghost predicate PollStep(s: State, s': State) {
    match s.poll
    case Waking => s' == s.(poll := Deciding)
    case Deciding =>
      var w := WaitTimeout(s.pending, s.clock);
      s' == s.(poll := if w > 0 then Sleeping(s.clock + w, false) else Committed)
    case Sleeping(_, _) => s' == s.(poll := Waking)
    case Committed => s' == s.(poll := Firing(s.clock, 0))
    case Firing(sample, _) => Due(s.pending, sample) == {} && s' == s.(poll := Deciding)
    case InCallback(sample, count) => s' == s.(poll := Firing(sample, count))
  }

  ghost predicate Next(s: State, e: Event, s': State) {
    match e
    case Tick(ticks) => TickStep(s, ticks, s')
    case Arm(who, deadline) => ArmStep(s, who, deadline, s')
    case Enlist(who, key) => EnlistStep(s, who, key, s')
    case Cancel(key, hit) => CancelStep(s, key, hit, s')
    case Fire(key) => FireStep(s, key, s')
    case PollMove => PollStep(s, s')
  }

  // ---------- The invariant ----------

  /** Keys are new, distinct, and every timer has exactly one fate. */
  ghost predicate Keeping(s: State) {
    && s.clock >= 0 && s.seqno >= 0
    && (forall i | i in s.armed :: s.armed[i] > 0)
    && (forall k | k in s.issued :: 0 <= k.id < s.seqno && k.timestamp > 0)
    && (forall j, k | j in s.issued && k in s.issued && j.id == k.id :: j == k)
    && multiset(s.pending) + s.fired + s.cancelled == multiset(s.issued)
  }

  /** An unsignalled sleeper does not oversleep any timer. */
  ghost predicate NoLostWakeup(s: State) {
    s.poll.Sleeping? && !s.poll.signalled ==> forall k | k in s.pending :: k.timestamp >= s.poll.deadline
  }

  /** The poll thread commits to firing only when there is something to fire. */
  ghost predicate NoIdleSpin(s: State) {
    && (s.poll.Committed? ==> Due(s.pending, s.clock) != {})
    && (s.poll.Firing? ==> s.poll.sample <= s.clock && (s.poll.count == 0 ==> Due(s.pending, s.poll.sample) != {}))
    && (s.poll.InCallback? ==> s.poll.sample <= s.clock && s.poll.count > 0)
  }

  ghost predicate Inv(s: State) {
    Keeping(s) && NoLostWakeup(s) && NoIdleSpin(s)
  }

  lemma {:induction false} InitEstablishesInv(s: State)
    requires Init(s)
    ensures Inv(s)
  {
    assert multiset(s.pending) + s.fired + s.cancelled == multiset(s.issued);
  }

  lemma {:induction false} PendingIsIssued(s: State, k: Key)
    requires Keeping(s) && k in s.pending
    ensures k in s.issued && s.fired[k] == 0 && s.cancelled[k] == 0
  {
    assert multiset(s.issued)[k] == multiset(s.pending)[k] + s.fired[k] + s.cancelled[k];
  }

  lemma {:induction false} EnlistKeepsInv(s: State, who: int, key: Key, s': State)
    requires Inv(s) && EnlistStep(s, who, key, s')
    ensures Inv(s') && key !in s.issued
  {
    assert key !in s.issued;
    assert multiset(s'.pending) == multiset(s.pending) + multiset{key} by {
      if key in s.pending { PendingIsIssued(s, key); }
    }
    assert multiset(s'.issued) == multiset(s.issued) + multiset{key};
    if s'.poll.Sleeping? && !s'.poll.signalled {
      var m := Least(s'.pending);
      assert m != key;
      assert m in s.pending && Less(m, key);
    }
  }

  lemma {:induction false} CancelKeepsInv(s: State, key: Key, hit: bool, s': State)
    requires Inv(s) && CancelStep(s, key, hit, s')
    ensures Inv(s')
  {
    if hit {
      assert multiset(s.pending) == multiset(s'.pending) + multiset{key};
    } else {
      assert s'.pending == s.pending;
    }
  }

  lemma {:induction false} FireKeepsInv(s: State, key: Key, s': State)
    requires Inv(s) && FireStep(s, key, s')
    ensures Inv(s')
  {
    assert multiset(s.pending) == multiset(s'.pending) + multiset{key};
  }

  lemma {:induction false} PollKeepsInv(s: State, s': State)
    requires Inv(s) && PollStep(s, s')
    ensures Inv(s')
  {
    if s.poll.Deciding? && s.pending != {} {
      var m := Least(s.pending);
      assert m.timestamp <= s.clock ==> m in Due(s.pending, s.clock);
    }
    if s.poll.Committed? {
      assert s'.poll.sample == s.clock;
    }
  }

  /** Every step keeps the invariant. */
  lemma {:induction false} NextKeepsInv(s: State, e: Event, s': State)
    requires Inv(s) && Next(s, e, s')
    ensures Inv(s')
  {
    match e
    case Tick(ticks) =>
      assert s.poll.Committed? ==> Due(s.pending, s.clock) <= Due(s'.pending, s'.clock);
    case Arm(_, _) =>
    case Enlist(who, key) => EnlistKeepsInv(s, who, key, s');
    case Cancel(key, hit) => CancelKeepsInv(s, key, hit, s');
    case Fire(key) => FireKeepsInv(s, key, s');
    case PollMove => PollKeepsInv(s, s');
  }

  // ---------- Whole runs ----------

  ghost predicate Steps(states: seq<State>, events: seq<Event>) {
    && |states| == |events| + 1
    && forall i | 0 <= i < |events| :: Next(states[i], events[i], states[i + 1])
  }

  ghost predicate IsRun(states: seq<State>, events: seq<Event>) {
    Steps(states, events) && Init(states[0])
  }

  /** In every state of every run no wakeup is lost and the poll thread does not spin. */
  lemma {:induction false} RunsAreSafe(states: seq<State>, events: seq<Event>, i: nat)
    requires IsRun(states, events) && i < |states|
    ensures Inv(states[i])
  {
    if i == 0 {
      InitEstablishesInv(states[0]);
    } else {
      RunsAreSafe(states, events, i - 1);
      NextKeepsInv(states[i - 1], events[i - 1], states[i]);
    }
  }

  function Occurrences(events: seq<Event>, kind: Event): nat {
    multiset(events)[kind]
  }

  /** What was recorded is what happened. */
  lemma {:induction false} RecordsMatchEvents(states: seq<State>, events: seq<Event>, i: nat, k: Key)
    requires IsRun(states, events) && i < |states|
    ensures Occurrences(events[..i], Fire(k)) == states[i].fired[k]
    ensures Occurrences(events[..i], Cancel(k, true)) == states[i].cancelled[k]
    ensures k in states[i].issued <==> exists j, who :: 0 <= j < i && events[j] == Enlist(who, k)
  {
    if i > 0 {
      RecordsMatchEvents(states, events, i - 1, k);
      assert events[..i] == events[..i - 1] + [events[i - 1]];
      assert Next(states[i - 1], events[i - 1], states[i]);
      if events[i - 1].Enlist? && events[i - 1].key == k {
        assert events[i - 1] == Enlist(events[i - 1].who, k);
      }
    }
  }

  /**
    Over any run a timer that was scheduled is pending, or was fired exactly
    once, or was cancelled by exactly one call that said so, and no two of these.
    A key that was never scheduled was never fired nor cancelled.
   */
  lemma {:induction false} EveryTimerHasOneFate(states: seq<State>, events: seq<Event>, i: nat, k: Key)
    requires IsRun(states, events) && i < |states|
    ensures (if k in states[i].pending then 1 else 0)
            + Occurrences(events[..i], Fire(k)) + Occurrences(events[..i], Cancel(k, true))
            == if exists j, who :: 0 <= j < i && events[j] == Enlist(who, k) then 1 else 0
  {
    RunsAreSafe(states, events, i);
    RecordsMatchEvents(states, events, i, k);
    var s := states[i];
    assert (multiset(s.pending) + s.fired + s.cancelled)[k] == multiset(s.issued)[k];
  }

  /** No key is scheduled twice. */
  lemma {:induction false} KeysAreScheduledOnce(
    states: seq<State>, events: seq<Event>, i: nat, j: nat, k: Key, v: int, w: int)
    requires IsRun(states, events) && i < j < |events|
    requires events[i] == Enlist(v, k)
    ensures events[j] != Enlist(w, k)
  {
    RunsAreSafe(states, events, j);
    RecordsMatchEvents(states, events, j, k);
    assert Next(states[j], events[j], states[j + 1]);
    if events[j] == Enlist(w, k) {
      EnlistKeepsInv(states[j], w, k, states[j + 1]);
    }
  }

  // ---------- One firing pass ----------

  predicate InPass(s: State, sample: int) {
    (s.poll.Firing? || s.poll.InCallback?) && s.poll.sample == sample
  }

  /** Schedulers whose deadline is due at the sample although they are not in the queue yet. */
  function Latecomers(s: State, sample: int): set<int> {
    set i | i in s.armed && s.armed[i] <= sample
  }

  /** The work a pass may still have to do. */
  function Remaining(s: State, sample: int): nat {
    |Due(s.pending, sample)| + |Latecomers(s, sample)|
  }

  lemma {:induction false} DueChanges(ks: set<Key>, k: Key, t: int)
    ensures Due(ks + {k}, t) == if k.timestamp <= t then Due(ks, t) + {k} else Due(ks, t)
    ensures Due(ks - {k}, t) == Due(ks, t) - {k}
  {
  }

  lemma {:induction false} EnlistingMovesWork(s: State, who: int, key: Key, s': State, sample: int)
    requires Inv(s) && EnlistStep(s, who, key, s')
    ensures Remaining(s', sample) <= Remaining(s, sample)
  {
    DueChanges(s.pending, key, sample);
    assert Latecomers(s', sample) == Latecomers(s, sample) - {who};
    assert who in Latecomers(s, sample) <==> key.timestamp <= sample;
  }

  /** Within a pass the remaining work never grows, and each firing reduces it. */
  lemma {:induction false} PassMakesProgress(s: State, e: Event, s': State, sample: int)
    requires Inv(s) && Next(s, e, s') && InPass(s, sample) && InPass(s', sample)
    ensures Remaining(s', sample) <= Remaining(s, sample) - (if e.Fire? then 1 else 0)
  {
    match e
    case Enlist(who, key) => EnlistingMovesWork(s, who, key, s', sample);
    case Arm(_, _) => assert Latecomers(s', sample) == Latecomers(s, sample);
    case Cancel(key, _) => DueChanges(s.pending, key, sample);
    case Fire(key) => DueChanges(s.pending, key, sample);
    case _ =>
  }

  function Firings(events: seq<Event>): nat {
    if events == [] then 0 else Firings(events[..|events| - 1]) + (if events[|events| - 1].Fire? then 1 else 0)
  }

  /**
    However schedulers and cancellers interleave with a pass, it fires at most
    the timers that are due, or being scheduled as due, when the clock is sampled.
   */
  lemma {:induction false} PassTerminates(states: seq<State>, events: seq<Event>, sample: int)
    requires Steps(states, events) && Inv(states[0])
    requires forall s | s in states :: InPass(s, sample)
    ensures Inv(states[|events|])
    ensures Firings(events) + Remaining(states[|events|], sample) <= Remaining(states[0], sample)
    decreases |events|
  {
    if events != [] {
      var n := |events| - 1;
      PassTerminates(states[..n + 1], events[..n], sample);
      assert states[n] in states && states[n + 1] in states;
      NextKeepsInv(states[n], events[n], states[n + 1]);
      PassMakesProgress(states[n], events[n], states[n + 1], sample);
    }
  }

  /** `last` is behind everything that this pass can still fire. */
  ghost predicate Behind(s: State, sample: int, last: Key) {
    && Latecomers(s, sample) == {} && last.timestamp <= sample <= s.clock
    && forall k | k in s.pending :: Less(last, k)
  }

  lemma {:induction false} PassStaysOrdered(s: State, e: Event, s': State, sample: int, last: Key)
    requires Inv(s) && Next(s, e, s') && InPass(s, sample) && InPass(s', sample) && Behind(s, sample, last)
    ensures Behind(s', sample, last)
    ensures e.Fire? ==> Less(last, e.key) && Behind(s', sample, e.key)
  {
    forall i | i in s'.armed ensures s'.armed[i] > sample {
      assert i !in Latecomers(s, sample);
    }
    if e.Enlist? {
      assert e.who !in Latecomers(s, sample);
    }
  }

  /** Once `last` is behind the pass it stays behind every later firing. */
  lemma {:induction false} LaterFiringsAreGreater(
    states: seq<State>, events: seq<Event>, sample: int, last: Key, j: nat)
    requires Steps(states, events) && Inv(states[0]) && Behind(states[0], sample, last)
    requires forall s | s in states :: InPass(s, sample)
    requires j < |events| && events[j].Fire?
    ensures Less(last, events[j].key)
    decreases j
  {
    assert states[0] in states && states[1] in states;
    assert Next(states[0], events[0], states[1]);
    PassStaysOrdered(states[0], events[0], states[1], sample, last);
    if j > 0 {
      NextKeepsInv(states[0], events[0], states[1]);
      StepsSuffix(states, events);
      LaterFiringsAreGreater(states[1..], events[1..], sample, last, j - 1);
    }
  }

  lemma {:induction false} StepsSuffix(states: seq<State>, events: seq<Event>)
    requires Steps(states, events) && events != []
    ensures Steps(states[1..], events[1..])
  {
    forall i | 0 <= i < |events[1..]| ensures Next(states[1..][i], events[1..][i], states[1..][i + 1]) {
      assert Next(states[i + 1], events[i + 1], states[i + 2]);
    }
  }

  /** Without latecomers at the sample, a pass fires in strictly increasing key order, and nothing early. */
  lemma {:induction false} PassFiresInOrder(states: seq<State>, events: seq<Event>, sample: int, i: nat, j: nat)
    requires Steps(states, events) && Inv(states[0])
    requires forall s | s in states :: InPass(s, sample)
    requires Latecomers(states[0], sample) == {} && sample <= states[0].clock
    requires i < |events| && events[i].Fire?
    ensures events[i].key.timestamp <= sample
    ensures i < j < |events| && events[j].Fire? ==> Less(events[i].key, events[j].key)
    decreases i
  {
    assert states[0] in states && states[1] in states;
    assert Next(states[0], events[0], states[1]);
    NextKeepsInv(states[0], events[0], states[1]);
    StepsSuffix(states, events);
    if i == 0 {
      var k := events[0].key;
      assert Behind(states[1], sample, k);
      if 0 < j < |events| && events[j].Fire? {
        LaterFiringsAreGreater(states[1..], events[1..], sample, k, j - 1);
      }
    } else {
      NoNewLatecomers(states[0], events[0], states[1], sample);
      PassFiresInOrder(states[1..], events[1..], sample, i - 1, if j == 0 then 0 else j - 1);
    }
  }

  lemma {:induction false} NoNewLatecomers(s: State, e: Event, s': State, sample: int)
    requires Next(s, e, s') && Latecomers(s, sample) == {} && sample <= s.clock
    ensures Latecomers(s', sample) == {} && sample <= s'.clock
  {
    forall i | i in s'.armed ensures s'.armed[i] > sample {
      assert i !in Latecomers(s, sample);
    }
  }

  /** However a pass ends, it has fired something, leaves nothing due, and the poll thread decides anew. */
  lemma {:induction false} PassEndsWithNothingDue(s: State, e: Event, s': State, sample: int)
    requires Inv(s) && Next(s, e, s') && InPass(s, sample) && !InPass(s', sample)
    ensures s.poll.count > 0 && s'.poll.Deciding? && Due(s'.pending, sample) == {}
  {
  }

  /** A pass begins with the clock of the moment as its sample. */
  lemma {:induction false} PassBeginsAtClock(s: State, e: Event, s': State)
    requires Next(s, e, s') && !s.poll.Firing? && !s.poll.InCallback? && (s'.poll.Firing? || s'.poll.InCallback?)
    ensures s.poll.Committed? && s'.poll == Firing(s.clock, 0)
  {
  }

  /** From its first state on a pass is one pass until the poll thread decides again. */
  lemma {:induction false} PassIsOne(states: seq<State>, events: seq<Event>, i: nat, j: nat)
    requires IsRun(states, events) && i < j < |states| && states[i].poll.Committed?
    requires !states[i + 1].poll.Committed?
    requires forall k | i < k < j :: !states[k].poll.Deciding?
    ensures if states[j].poll.Deciding? then Due(states[j].pending, states[i].clock) == {}
            else InPass(states[j], states[i].clock)
    decreases j
  {
    var n := j - 1;
    RunsAreSafe(states, events, n);
    assert Next(states[n], events[n], states[j]);
    if i < n {
      PassIsOne(states, events, i, n);
      if !InPass(states[j], states[i].clock) {
        PassEndsWithNothingDue(states[n], events[n], states[j], states[i].clock);
      }
    }
  }

  /**
    When the poll thread has committed itself and the next time it decides, every
    timer that was due at the clock in between is gone from the queue: it has been
    fired or cancelled, whoever scheduled or cancelled meanwhile.
   */
  lemma {:induction false} PassClearsWhatIsDue(states: seq<State>, events: seq<Event>, i: nat, j: nat, k: Key)
    requires IsRun(states, events) && i < j < |states|
    requires states[i].poll.Committed? && !states[i + 1].poll.Committed? && states[j].poll.Deciding?
    requires forall n | i < n < j :: !states[n].poll.Deciding?
    requires k in states[i].pending && k.timestamp <= states[i].clock
    ensures Due(states[j].pending, states[i].clock) == {}
    ensures Occurrences(events[..j], Fire(k)) + Occurrences(events[..j], Cancel(k, true)) == 1
  {
    PassIsOne(states, events, i, j);
    assert k in Due(states[j].pending, states[i].clock) <==> k in states[j].pending;
    RunsAreSafe(states, events, i);
    PendingIsIssued(states[i], k);
    RecordsMatchEvents(states, events, i, k);
    EveryTimerHasOneFate(states, events, j, k);
  }

  /**
    The computed wait is positive exactly when nothing is due; then it fits an
    int, and otherwise the poll thread goes on to fire with the lock held.
   */
  lemma {:induction false} WaitIsExact(s: State, s': State)
    requires Inv(s) && s.poll.Deciding? && PollStep(s, s')
    ensures WaitTimeout(s.pending, s.clock) > 0 <==> Due(s.pending, s.clock) == {}
    ensures WaitTimeout(s.pending, s.clock) <= MAX_WAIT
    ensures Due(s.pending, s.clock) == {} ==>
              s'.poll.Sleeping? && s.clock < s'.poll.deadline <= s.clock + MAX_WAIT
    ensures Due(s.pending, s.clock) != {} ==> s'.poll.Committed? && !LockFree(s')
  {
    if s.pending != {} {
      var m := Least(s.pending);
      assert m.timestamp <= s.clock ==> m in Due(s.pending, s.clock);
    }
  }

  /** A time by which the poll thread may sleep: not beyond any pending timer, nor longer than the maximum. */
  ghost predicate Admissible(s: State, d: int) {
    d <= s.clock + MAX_WAIT && forall k | k in s.pending :: d <= k.timestamp
  }

  /** The poll thread sleeps until the latest admissible time, and not at all if that is not in the future. */
  lemma {:induction false} SleepIsLatestAdmissible(s: State, s': State, d: int)
    requires s.poll.Deciding? && PollStep(s, s')
    ensures s'.poll.Sleeping? ==>
              && Admissible(s, s'.poll.deadline) && s.clock < s'.poll.deadline
              && (Admissible(s, d) ==> d <= s'.poll.deadline)
    ensures !s'.poll.Sleeping? ==> (Admissible(s, d) ==> d <= s.clock)
  {
    if s.pending != {} {
      var m := Least(s.pending);
      assert forall k | k in s.pending :: m.timestamp <= k.timestamp;
    }
  }

  /** Scheduling signals a sleeping poll thread if and only if the new timer is before all others, and does no more. */
  lemma {:induction false} SignalIffNewMinimum(s: State, who: int, key: Key, s': State)
    requires Inv(s) && EnlistStep(s, who, key, s')
    ensures !s.poll.Sleeping? ==> s'.poll == s.poll
    ensures s.poll.Sleeping? ==>
              s'.poll == Sleeping(s.poll.deadline, s.poll.signalled || forall k | k in s.pending :: Less(key, k))
  {
    EnlistKeepsInv(s, who, key, s');
    if key in s.pending {
      PendingIsIssued(s, key);
    }
  }
}
