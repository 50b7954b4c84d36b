/**
  The link from a parent to its child.  Creating an async makes it the child that
  its parent names, whatever the parent named before; the last release of an async
  clears its parent's link, whatever that names by then.  The callback of one child
  may create the next, and then both are alive until the first is released.
 */
module ChildLink {

  datatype Link = NoChild | Child(id: nat)

  /** What one event does to the children of one parent. */
  datatype Step = Start(id: nat) | Finish(id: nat) | Stay

  datatype Family = Family(link: Link, live: set<nat>)

  /** `xf_async_new` with this parent, the end of `xf_async_release`, or anything else. */
  function After(f: Family, step: Step): Family {
    match step
    case Start(id) => Family(Child(id), f.live + {id})
    case Finish(id) => Family(NoChild, f.live - {id})
    case Stay => f
  }

  function Run(steps: seq<Step>): Family {
    if steps == [] then Family(NoChild, {})
    else After(Run(steps[..|steps| - 1]), steps[|steps| - 1])
  }

  /** The children alive before step `i`. */
  function LiveAt(steps: seq<Step>, i: nat): set<nat>
    requires i <= |steps|
  {
    Run(steps[..i]).live
  }

  /** Only a child that is alive is released, and only one that is not is created. */
  predicate Possible(steps: seq<Step>) {
    && (forall i | 0 <= i < |steps| && steps[i].Finish? :: steps[i].id in LiveAt(steps, i))
    && (forall i | 0 <= i < |steps| && steps[i].Start? :: steps[i].id !in LiveAt(steps, i))
  }

  /** Cancelling the parent gets through to a live child if there is one. */
  predicate Reaches(f: Family) {
    if f.live == {} then f.link.NoChild? else f.link.Child? && f.link.id in f.live
  }

  ghost predicate AlwaysReaches(steps: seq<Step>) {
    forall i | 0 <= i <= |steps| :: Reaches(Run(steps[..i]))
  }

  /** Whenever a child is released, no other one is alive. */
  ghost predicate ReleasedAlone(steps: seq<Step>) {
    forall i | 0 <= i < |steps| && steps[i].Finish? :: LiveAt(steps, i) == {steps[i].id}
  }

  /** Whenever a child is created, no other one is alive. */
  ghost predicate StartedAlone(steps: seq<Step>) {
    forall i | 0 <= i < |steps| && steps[i].Start? :: LiveAt(steps, i) == {}
  }

  lemma {:induction false} OneStep(steps: seq<Step>, i: nat)
    requires i < |steps|
    ensures Run(steps[..i + 1]) == After(Run(steps[..i]), steps[i])
  {
    assert steps[..i + 1][..i] == steps[..i];
  }

  /**
    At any moment: the link never names a child that has been released; so it is
    right if and only if it names one or nobody is alive.
   */
  lemma {:induction false} LinkIsRightIff(steps: seq<Step>)
    ensures Run(steps).link.Child? ==> Run(steps).link.id in Run(steps).live
    ensures Reaches(Run(steps)) <==> Run(steps).link.Child? || Run(steps).live == {}
  {
    if steps != [] {
      LinkIsRightIff(steps[..|steps| - 1]);
    }
  }

  /** The link names a child if and only if that is the last one created and none has been released since. */
  lemma {:induction false} LinkNamesNewest(steps: seq<Step>, c: nat)
    ensures Run(steps).link == Child(c)
            <==> exists i :: 0 <= i < |steps| && steps[i] == Start(c) && forall j | i < j < |steps| :: steps[j].Stay?
  {
    if steps != [] {
      var n := |steps| - 1;
      var before := steps[..n];
      LinkNamesNewest(before, c);
      if steps[n].Start? {
        assert Run(steps).link == Child(steps[n].id);
      }
    }
  }

  /** Throughout a run: the link is right if and only if every child is released while no other is alive. */
  lemma {:induction false} AlwaysRightIff(steps: seq<Step>)
    requires Possible(steps)
    ensures AlwaysReaches(steps) <==> ReleasedAlone(steps)
  {
    if AlwaysReaches(steps) {
      forall i | 0 <= i < |steps| && steps[i].Finish? ensures LiveAt(steps, i) == {steps[i].id} {
        OneStep(steps, i);
        assert Reaches(Run(steps[..i + 1]));
        assert LiveAt(steps, i) - {steps[i].id} == {};
      }
    }
    if ReleasedAlone(steps) {
      forall i | 0 <= i <= |steps| ensures Reaches(Run(steps[..i])) {
        StillReaches(steps, i);
      }
    }
  }

  lemma {:induction false} StillReaches(steps: seq<Step>, i: nat)
    requires ReleasedAlone(steps) && i <= |steps|
    ensures Reaches(Run(steps[..i]))
  {
    if i > 0 {
      StillReaches(steps, i - 1);
      OneStep(steps, i - 1);
      if steps[i - 1].Finish? {
        assert LiveAt(steps, i - 1) == {steps[i - 1].id};
      }
    }
  }

  lemma {:induction false} AtMostOneBefore(steps: seq<Step>, i: nat)
    requires ReleasedAlone(steps) && Possible(steps) && Run(steps).live == {} && i <= |steps|
    ensures |LiveAt(steps, i)| <= 1
    ensures i < |steps| && steps[i].Start? ==> LiveAt(steps, i) == {}
    decreases |steps| - i
  {
    if i == |steps| {
      assert steps[..i] == steps;
    } else {
      AtMostOneBefore(steps, i + 1);
      OneStep(steps, i);
      if steps[i].Start? {
        assert |LiveAt(steps, i + 1)| == |LiveAt(steps, i)| + 1;
      }
    }
  }

  lemma {:induction false} AtMostOneAfter(steps: seq<Step>, i: nat)
    requires StartedAlone(steps) && i <= |steps|
    ensures |LiveAt(steps, i)| <= 1
  {
    if i > 0 {
      AtMostOneAfter(steps, i - 1);
      OneStep(steps, i - 1);
      var step, live := steps[i - 1], LiveAt(steps, i - 1);
      assert step.Start? ==> LiveAt(steps, i) == {step.id};
      hide Run, StartedAlone;
      assert step.Finish? ==> |live - {step.id}| <= |live|;
    }
  }

  lemma {:induction false} OnlyMember(s: set<nat>, id: nat)
    requires id in s && |s| <= 1
    ensures s == {id}
  {
    assert |s - {id}| == 0;
  }

  /**
    Once all children have been released: the link was right throughout if and
    only if no child was created while another was alive.  In particular the chain
    in which the callback of one child creates the next breaks it.
   */
  lemma {:induction false} AlwaysRightIffStartedAlone(steps: seq<Step>)
    requires Possible(steps) && Run(steps).live == {}
    ensures AlwaysReaches(steps) <==> StartedAlone(steps)
  {
    AlwaysRightIff(steps);
    if ReleasedAlone(steps) {
      forall i | 0 <= i < |steps| && steps[i].Start? ensures LiveAt(steps, i) == {} {
        AtMostOneBefore(steps, i);
      }
    }
    if StartedAlone(steps) {
      forall i | 0 <= i < |steps| && steps[i].Finish? ensures LiveAt(steps, i) == {steps[i].id} {
        AtMostOneAfter(steps, i);
        OnlyMember(LiveAt(steps, i), steps[i].id);
      }
    }
  }

  /** A child that is created while another is alive is missed in the end, whichever is released first. */
  lemma {:induction false} OverlapIsMissed(first: bool)
    ensures var f := Run([Start(0), Start(1), Finish(if first then 0 else 1)]);
            f.live == {if first then 1 else 0} && f.link.NoChild? && !Reaches(f)
  {
    var steps := [Start(0), Start(1), Finish(if first then 0 else 1)];
    OneStep(steps, 0);
    OneStep(steps, 1);
    OneStep(steps, 2);
    assert steps[..3] == steps;
  }
}
