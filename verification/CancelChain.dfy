/**
  Cancelling an async that has a chain of children: `xf_async_cancel` and
  `_cancel` follow the `child_async` links under the locks of all the asyncs
  above.  Notifying an async and asking the system to cancel its I/O are foreign
  effects; they are returned as a list of events, in order.
 */
module CancelChain {

  datatype Event =
    | TimerReleased(async: Async)  // the pending timer was cancelled and its reference released
    | Marked(async: Async)
    | IoCancelled(async: Async)
    | Notified(async: Async)

  class Async {
    var canceled: bool
    var timerPending: bool
    var child: Async?
    // Whether an I/O handle is set, and whether the system can still cancel it.
    const hasIo: bool
    const ioCancels: bool

    constructor (timerPending: bool, hasIo: bool, ioCancels: bool)
      ensures !canceled && child == null && this.timerPending == timerPending
      ensures this.hasIo == hasIo && this.ioCancels == ioCancels
    {
      canceled, child := false, null;
      this.timerPending, this.hasIo, this.ioCancels := timerPending, hasIo, ioCancels;
    }
  }

  /** `chain` lists the asyncs from `a` down to the deepest child, each once. */
  ghost predicate IsChain(a: Async?, chain: seq<Async>)
    reads chain
    decreases |chain|
  {
    if chain == [] then a == null
    else a == chain[0] && a !in chain[1..] && IsChain(a.child, chain[1..])
  }

  /** `xf_timeout_cancel` on the async's timer. */
  method CancelTimer(a: Async) returns (found: bool)
    modifies a`timerPending
    ensures found == old(a.timerPending) && !a.timerPending
  {
    found := a.timerPending;
    a.timerPending := false;
  }

  /** The event that ends a cancellation at the deepest async. */
  function Ending(a: Async): seq<Event> {
    if !a.hasIo then [Notified(a)]
    else if a.ioCancels then [IoCancelled(a)]
    else [IoCancelled(a), Notified(a)]
  }

  /** What cancelling the head of a chain has to cause, from the timers that were pending. */
  function Expected(chain: seq<Async>, pending: set<Async>): seq<Event>
    requires chain != []
  {
    Heading(chain[0], pending)
    + if |chain| == 1 then Ending(chain[0]) else Expected(chain[1..], pending)
  }

  /** The members of the chain whose timer is pending. */
  ghost function PendingTimers(chain: seq<Async>): set<Async>
    reads chain
  {
    set a | a in chain && a.timerPending
  }

  /** `xf_async_cancel`. */
  method Cancel(a: Async, ghost chain: seq<Async>) returns (events: seq<Event>)
    requires chain != [] && IsChain(a, chain)
    modifies chain
    ensures events == Expected(chain, old(PendingTimers(chain)))
    ensures Ordered(chain, events)
    ensures forall x | x in chain :: x.canceled && !x.timerPending && x.child == old(x.child)
    decreases |chain|, 1
  {
    ghost var before := PendingTimers(chain);
    ExpectedIsOrdered(a, chain, before);
    assert IsChain(a, chain) ==> a == chain[0] && a !in chain[1..];
    var found := CancelTimer(a);
    ReleaseComesFirst(chain, before);
    assert PendingTimers(chain) == before - {a};
    hide Expected, Ending;
    events := if found then [TimerReleased(a)] else [];
    var rest := MarkAndPassOn(a, chain);
    events := events + rest;
  }

  /** `_cancel`. */
  method MarkAndPassOn(a: Async, ghost chain: seq<Async>) returns (events: seq<Event>)
    requires chain != [] && IsChain(a, chain) && !a.timerPending
    modifies chain
    ensures events == Expected(chain, old(PendingTimers(chain)))
    ensures Ordered(chain, events)
    ensures forall x | x in chain :: x.canceled && x.child == old(x.child)
    ensures !a.timerPending && forall x | x in chain[1..] :: !x.timerPending
    decreases |chain|, 0
  {
    ghost var before := PendingTimers(chain);
    ExpectedIsOrdered(a, chain, before);
    assert Heading(a, before) == [Marked(a)];
    a.canceled := true;
    events := [Marked(a)];
    if a.child != null {
      OnlyMembersMatter(chain[1..], before, PendingTimers(chain[1..]));
      var rest := Cancel(a.child, chain[1..]);
      events := events + rest;
      return;
    }
    if a.hasIo {
      events := events + [IoCancelled(a)];
      if !a.ioCancels {
        events := events + [Notified(a)];
      }
      return;
    }
    events := events + [Notified(a)];
  }

  // ---------- The order of the events ----------

  /** Within one async the timer is settled first, then comes the mark, then the I/O, then the notification. */
  function Rank(e: Event): nat {
    match e
    case TimerReleased(_) => 0
    case Marked(_) => 1
    case IoCancelled(_) => 2
    case Notified(_) => 3
  }

  /** How deep in the chain the async of the event is. */
  function Depth(chain: seq<Async>, a: Async): (i: nat)
    ensures i <= |chain| && (i < |chain| ==> chain[i] == a) && (i == |chain| <==> a !in chain)
  {
    if chain == [] || chain[0] == a then 0 else 1 + Depth(chain[1..], a)
  }

  predicate Earlier(chain: seq<Async>, d: Event, e: Event) {
    || Depth(chain, d.async) < Depth(chain, e.async)
    || (Depth(chain, d.async) == Depth(chain, e.async) && Rank(d) < Rank(e))
  }

  /** What is done to a parent comes before what is done to its child; every event concerns a member of the chain. */
  ghost predicate Ordered(chain: seq<Async>, events: seq<Event>) {
    && (forall i | 0 <= i < |events| :: events[i].async in chain)
    && (forall i, j | 0 <= i < j < |events| :: Earlier(chain, events[i], events[j]))
  }

  lemma {:induction false} EndingIsOrdered(a: Async, chain: seq<Async>)
    requires a in chain
    ensures Ordered(chain, Ending(a)) && forall e | e in Ending(a) :: e.async == a && Rank(e) >= 2
  {
  }

  lemma {:induction false} HeadingIsOrdered(a: Async, chain: seq<Async>, pending: set<Async>)
    requires a in chain
    ensures Ordered(chain, Heading(a, pending)) && forall e | e in Heading(a, pending) :: e.async == a && Rank(e) <= 1
  {
  }

  lemma {:induction false} OrderedJoin(chain: seq<Async>, p: seq<Event>, q: seq<Event>)
    requires Ordered(chain, p) && Ordered(chain, q)
    requires forall d, e | d in p && e in q :: Earlier(chain, d, e)
    ensures Ordered(chain, p + q)
  {
    var events := p + q;
    forall i, j | 0 <= i < j < |events| ensures Earlier(chain, events[i], events[j]) {
      if i < |p| { assert events[i] == p[i] && p[i] in p; }
      if j >= |p| { assert events[j] == q[j - |p|] && q[j - |p|] in q; }
    }
  }

  /** What is ordered in the chain below is ordered in the chain. */
  lemma {:induction false} OrderedBelow(chain: seq<Async>, events: seq<Event>)
    requires chain != [] && chain[0] !in chain[1..] && Ordered(chain[1..], events)
    ensures Ordered(chain, events)
    ensures forall e | e in events :: e.async in chain[1..] && Depth(chain, e.async) > 0
  {
    forall a | a in chain[1..] ensures Depth(chain, a) == Depth(chain[1..], a) + 1 {
    }
    forall i, j | 0 <= i < j < |events| ensures Earlier(chain, events[i], events[j]) {
      assert Earlier(chain[1..], events[i], events[j]);
    }
  }

  /**
    The events follow the chain downwards.  Together with how often each occurs this
    leaves one sequence only.
   */
  lemma {:induction false} ExpectedIsOrdered(a: Async?, chain: seq<Async>, pending: set<Async>)
    requires chain != [] && IsChain(a, chain)
    ensures Ordered(chain, Expected(chain, pending))
    decreases |chain|
  {
    HeadingIsOrdered(chain[0], chain, pending);
    if |chain| == 1 {
      EndingIsOrdered(chain[0], chain);
      OrderedJoin(chain, Heading(chain[0], pending), Ending(chain[0]));
    } else {
      ExpectedIsOrdered(chain[0].child, chain[1..], pending);
      OrderedBelow(chain, Expected(chain[1..], pending));
      OrderedJoin(chain, Heading(chain[0], pending), Expected(chain[1..], pending));
    }
  }

  /**
    The system is asked to cancel the I/O before the async is notified, and an async
    whose I/O has been cancelled is notified only if the system could not do it.
   */
  lemma {:induction false} IoComesBeforeNotification(a: Async?, chain: seq<Async>, pending: set<Async>, i: nat, j: nat)
    requires chain != [] && IsChain(a, chain)
    requires i < |Expected(chain, pending)| && j < |Expected(chain, pending)|
    requires Expected(chain, pending)[i].Notified? && Expected(chain, pending)[j].IoCancelled?
    ensures j < i && Expected(chain, pending)[i].async == Expected(chain, pending)[j].async
    ensures Expected(chain, pending)[i].async.hasIo && !Expected(chain, pending)[i].async.ioCancels
  {
    var events := Expected(chain, pending);
    ChainIsDistinct(a, chain);
    ExpectedCounts(chain, pending, events[i]);
    ExpectedCounts(chain, pending, events[j]);
    assert events[i] in multiset(events) && events[j] in multiset(events);
    ExpectedIsOrdered(a, chain, pending);
    assert j <= i || Earlier(chain, events[i], events[j]);
  }

  // ---------- What the expected events mean ----------

  lemma {:induction false} OnlyMembersMatter(chain: seq<Async>, p: set<Async>, q: set<Async>)
    requires forall a | a in chain :: a in p <==> a in q
    ensures chain != [] ==> Expected(chain, p) == Expected(chain, q)
  {
    if |chain| > 1 {
      OnlyMembersMatter(chain[1..], p, q);
    }
  }

  /** The release of the head's own timer can be split off. */
  lemma {:induction false} ReleaseComesFirst(chain: seq<Async>, pending: set<Async>)
    requires chain != [] && chain[0] !in chain[1..]
    ensures Expected(chain, pending)
            == (if chain[0] in pending then [TimerReleased(chain[0])] else []) + Expected(chain, pending - {chain[0]})
  {
    OnlyMembersMatter(chain[1..], pending, pending - {chain[0]});
  }

  function Heading(a: Async, pending: set<Async>): seq<Event> {
    (if a in pending then [TimerReleased(a)] else []) + [Marked(a)]
  }

  function Times(events: seq<Event>, e: Event): nat {
    multiset(events)[e]
  }

  lemma {:induction false} TimesAdd(p: seq<Event>, q: seq<Event>, e: Event)
    ensures Times(p + q, e) == Times(p, e) + Times(q, e)
  {
    assert multiset(p + q) == multiset(p) + multiset(q);
  }

  lemma {:induction false} TimesInHeading(b: Async, pending: set<Async>, e: Event)
    ensures Times(Heading(b, pending), e)
            == if e == Marked(b) then 1 else if e == TimerReleased(b) && b in pending then 1 else 0
  {
  }

  lemma {:induction false} TimesInEnding(b: Async, e: Event)
    ensures Times(Ending(b), e)
            == if e == Notified(b) && !(b.hasIo && b.ioCancels) then 1
               else if e == IoCancelled(b) && b.hasIo then 1 else 0
  {
  }

  lemma {:induction false} ChainIsDistinct(a: Async?, chain: seq<Async>)
    requires IsChain(a, chain)
    ensures forall i, j | 0 <= i < j < |chain| :: chain[i] != chain[j]
    decreases |chain|
  {
    if chain != [] {
      var rest := chain[1..];
      ChainIsDistinct(chain[0].child, rest);
      forall i, j | 0 <= i < j < |chain| ensures chain[i] != chain[j] {
        assert chain[j] == rest[j - 1];
        if i > 0 { assert chain[i] == rest[i - 1]; }
      }
    }
  }

  /**
    Every member is marked exactly once, every pending timer is released exactly
    once, and only the deepest member is notified or has its I/O cancelled.
   */
  lemma {:induction false} ExpectedCounts(chain: seq<Async>, pending: set<Async>, e: Event)
    requires chain != [] && forall i, j | 0 <= i < j < |chain| :: chain[i] != chain[j]
    ensures var last := chain[|chain| - 1];
            Times(Expected(chain, pending), e)
            == match e
               case Marked(a) => if a in chain then 1 else 0
               case TimerReleased(a) => if a in chain && a in pending then 1 else 0
               case Notified(a) => if a == last && !(a.hasIo && a.ioCancels) then 1 else 0
               case IoCancelled(a) => if a == last && a.hasIo then 1 else 0
  {
    var b, rest := chain[0], chain[1..];
    TimesInHeading(b, pending, e);
    hide Heading, Ending, Times;
    if |chain| == 1 {
      TimesInEnding(b, e);
      TimesAdd(Heading(b, pending), Ending(b), e);
    } else {
      ExpectedCounts(rest, pending, e);
      TimesAdd(Heading(b, pending), Expected(rest, pending), e);
      assert forall i | 0 <= i < |rest| :: rest[i] == chain[i + 1];
      assert b !in rest;
    }
  }

  /** Marks and timer releases all come before the notification or the I/O cancellation of the deepest async. */
  lemma {:induction false} MarksComeFirst(chain: seq<Async>, pending: set<Async>)
    requires chain != []
    ensures var last := chain[|chain| - 1];
            exists front: nat ::
              && front <= |Expected(chain, pending)|
              && Expected(chain, pending)[front..] == Ending(last)
              && forall i | 0 <= i < front ::
                   Expected(chain, pending)[i].Marked? || Expected(chain, pending)[i].TimerReleased?
  {
    var n := FrontLength(chain, pending);
  }

  /** One member's marks come before what comes later anyway. */
  lemma {:induction false} FrontGrows(head: seq<Event>, tail: seq<Event>, rest: nat)
    requires rest <= |tail| && forall e | e in head :: e.Marked? || e.TimerReleased?
    requires forall i | 0 <= i < rest :: tail[i].Marked? || tail[i].TimerReleased?
    ensures (head + tail)[|head| + rest..] == tail[rest..]
    ensures forall i | 0 <= i < |head| + rest :: (head + tail)[i].Marked? || (head + tail)[i].TimerReleased?
  {
    forall i | 0 <= i < |head| + rest ensures (head + tail)[i].Marked? || (head + tail)[i].TimerReleased? {
      if i < |head| {
        assert (head + tail)[i] == head[i] && head[i] in head;
      } else {
        assert (head + tail)[i] == tail[i - |head|];
      }
    }
  }

  lemma {:induction false} FrontLength(chain: seq<Async>, pending: set<Async>) returns (front: nat)
    requires chain != []
    ensures front <= |Expected(chain, pending)|
    ensures Expected(chain, pending)[front..] == Ending(chain[|chain| - 1])
    ensures forall i | 0 <= i < front ::
              Expected(chain, pending)[i].Marked? || Expected(chain, pending)[i].TimerReleased?
  {
    var head := Heading(chain[0], pending);
    var tail, rest := Ending(chain[0]), 0;
    if |chain| > 1 {
      tail := Expected(chain[1..], pending);
      rest := FrontLength(chain[1..], pending);
    }
    front := |head| + rest;
    hide Ending;
    assert Expected(chain, pending) == head + tail;
    FrontGrows(head, tail, rest);
  }

  // ---------- Children ----------

  /** `xf_async_new` with a parent: the new async becomes the one that the parent names. */
  method NewChild(parent: Async) returns (child: Async)
    modifies parent`child
    ensures fresh(child) && parent.child == child && !child.canceled && child.child == null
    ensures !child.timerPending && !child.hasIo
  {
    child := new Async(false, false, false);
    parent.child := child;
  }

  /** The last release of a child clears the parent's link, whatever it names. */
  method LastRelease(parent: Async)
    modifies parent`child
    ensures parent.child == null
  {
    parent.child := null;
  }

  /**
    The callback of the first child creates the second, and then the first is
    released: cancelling the parent does not get through to the second.
   */
  method SecondChildIsMissed() returns (parent: Async, second: Async, events: seq<Event>)
    ensures events == [Marked(parent), Notified(parent)]
    ensures parent.canceled && !second.canceled && second != parent
  {
    parent := new Async(false, false, false);
    var first := NewChild(parent);
    second := NewChild(parent);
    LastRelease(parent);
    ghost var chain := [parent];
    assert IsChain(parent, chain);
    events := Cancel(parent, chain);
  }
}
