/**
  Multiphase asyncs: `xf_async_call` and `xf_async_run_next_phase`.

  The procedure is foreign code: `procedure(n)` is what its n-th call returns
  and stores as the next phase.  The environment notifies each started phase once,
  after its call has returned.
 */
module Multiphase {

  const PHASE_ERROR := -1
  const PHASE_EXIT := -2

  datatype Outcome = Outcome(err: int, next: int)

  datatype Call = Call(phase: int, err: int)

  /** The run was over after the i-th call: an error was reported, or the phase after it is the exit. */
  predicate Final(procedure: nat -> Outcome, calls: seq<Call>, i: nat)
    requires i < |calls|
  {
    calls[i].err != 0 || (procedure(i).err == 0 && procedure(i).next == PHASE_EXIT)
  }

  /** The i-th call is what the one before it asked for: its next phase, or the error phase if it failed. */
  predicate Follows(procedure: nat -> Outcome, calls: seq<Call>, i: nat)
    requires 0 < i < |calls|
  {
    && !Final(procedure, calls, i - 1)
    && (if calls[i].err == 0 then calls[i].phase == procedure(i - 1).next else calls[i].phase == PHASE_ERROR)
    && (procedure(i - 1).err != 0 ==> calls[i].err == procedure(i - 1).err)
  }

  /**
    The chain of calls: phase 0 first, then each time the phase that the call
    before asked for, or the error phase with a non-zero error, which is forced when
    the call before failed.  Nothing follows a final call.
   */
  ghost predicate Chain(procedure: nat -> Outcome, calls: seq<Call>) {
    && (calls != [] ==> calls[0] == Call(0, 0))
    && forall i | 0 < i < |calls| :: Follows(procedure, calls, i)
  }

  class Run {
    const procedure: nat -> Outcome
    const hasParent: bool
    var nextPhase: int
    var ref: int
    // Effects: calls made, errors the parent was notified with, and a null parent dereferenced.
    var calls: seq<Call>
    var notified: seq<int>
    var crashed: bool

    /** The last call ended the run. */
    predicate Over()
      reads this
    {
      calls != [] && Final(procedure, calls, |calls| - 1)
    }

    /**
      While the run goes on nothing has been given up and the next phase is the
      one asked for; once it is over the parent knows the last result and the
      creation reference is gone.
     */
    ghost predicate Valid()
      reads this
    {
      && Chain(procedure, calls)
      && (calls == [] ==> nextPhase == 0)
      && (calls != [] ==> nextPhase == procedure(|calls| - 1).next)
      && (Over() ==> if hasParent then ref == 0 && notified == [procedure(|calls| - 1).err] && !crashed
                     else ref == 1 && notified == [] && crashed)
      && (!Over() ==>
            && ref == 1 && notified == [] && !crashed
            && (calls != [] ==> procedure(|calls| - 1).err == 0))
    }

    constructor (procedure: nat -> Outcome, hasParent: bool)
      ensures Valid() && calls == [] && this.procedure == procedure && this.hasParent == hasParent
    {
      this.procedure := procedure;
      this.hasParent := hasParent;
      nextPhase, ref, calls, notified, crashed := 0, 1, [], [], false;
    }

    method CallProcedure(phase: int, err: int) returns (result: int)
      modifies `calls, `nextPhase
      ensures calls == old(calls) + [Call(phase, err)]
      ensures result == procedure(|old(calls)|).err && nextPhase == procedure(|old(calls)|).next
    {
      var outcome := procedure(|calls|);
      calls := calls + [Call(phase, err)];
      nextPhase := outcome.next;
      result := outcome.err;
    }

    /** `xf_async_notify` on the parent; it does not test for a null pointer. */
    method NotifyParent(err: int)
      modifies `notified, `crashed
      ensures hasParent ==> notified == old(notified) + [err] && crashed == old(crashed)
      ensures !hasParent ==> notified == old(notified) && crashed
    {
      if hasParent {
        notified := notified + [err];
      } else {
        crashed := true;
      }
    }

    method Release()
      modifies `ref
      ensures ref == if crashed then old(ref) else old(ref) - 1
    {
      if !crashed {
        ref := ref - 1;
      }
    }

    lemma OverIsEnded()
      ensures calls != [] ==> (Over() <==> Ended(procedure, calls))
    {
    }

    /** `xf_async_run_next_phase`: one call, or two when the phase fails at once. */
    method RunNextPhase(error: int)
      requires Valid() && !Over() && (calls == [] ==> error == 0)
      modifies this
      ensures Valid() && calls == old(calls) + Round(procedure, |old(calls)|, old(nextPhase), error)
      ensures Over() <==> error != 0 || RoundEnds(procedure(|old(calls)|))
      ensures calls != [] && (Over() || |calls| == |old(calls)| + 1)
      ensures OneRound(procedure, old(calls), old(nextPhase), error, calls)
    {
      ghost var before := calls;
      if error != 0 {
        var err := CallProcedure(PHASE_ERROR, error);
        ChainExtends(procedure, before, Call(PHASE_ERROR, error));
        NotifyParent(err);
        Release();
      } else {
        var err := CallProcedure(nextPhase, 0);
        ChainExtends(procedure, before, calls[|before|]);
        if err != 0 {
          ghost var middle := calls;
          var err2 := CallProcedure(PHASE_ERROR, err);
          ChainExtends(procedure, middle, Call(PHASE_ERROR, err));
          NotifyParent(err2);
          Release();
          return;
        }
        if nextPhase == PHASE_EXIT {
          NotifyParent(0);
          Release();
          return;
        }
      }
    }

    /**
      `xf_async_call`, and then one notification for each phase that has been
      started.  A run that is over has told its parent exactly once, with the last
      result, and dropped the creation reference exactly once, if and only if it
      was given a parent.
     */
    method Drive(notes: seq<int>)
      requires Valid() && calls == []
      modifies this
      ensures Valid() && calls == Expected(procedure, 0, 0, 0, notes)
      ensures Over() || |calls| == |notes| + 1
      ensures Over() ==> (hasParent <==> ref == 0 && |notified| == 1) && (hasParent <==> !crashed)
      ensures Over() && hasParent ==> notified == [procedure(|calls| - 1).err]
      ensures !Over() ==> ref == 1 && notified == [] && !crashed
      ensures Answers(procedure, calls, notes)
      ensures Over() <==> Ended(procedure, calls)
    {
      ExpectedUnfolds(procedure, [], 0, 0, notes);
      hide Expected, Round, RoundEnds, Final, Chain, Answers, Ended;
      RunNextPhase(0);
      AnswersBegin(procedure, calls, notes);
      OverIsEnded();
      assert forall s: seq<Call> :: [] + s == s;
      var rest := notes;
      while rest != [] && !Over()
        invariant Valid() && calls != []
        invariant Over() || |calls| + |rest| == |notes| + 1
        invariant rest == notes[|notes| - |rest|..] && Answers(procedure, calls, notes)
        invariant Over() <==> Ended(procedure, calls)
        invariant Expected(procedure, 0, 0, 0, notes)
                  == calls + if Over() || rest == [] then []
                             else Expected(procedure, |calls|, nextPhase, rest[0], rest[1..])
        decreases |rest|
      {
        ghost var before, phase, note := calls, nextPhase, rest[0];
        RunNextPhase(rest[0]);
        AnswersGrow(procedure, before, notes, calls);
        OverIsEnded();
        rest := rest[1..];
        ExpectedUnfolds(procedure, before, phase, note, rest);
      }
    }
  }

  // ---------- What the calls say, one by one ----------

  /** The run is over after the last call: it reported an error, or it succeeded and asked for the exit. */
  predicate Ended(procedure: nat -> Outcome, calls: seq<Call>) {
    && calls != []
    && (calls[|calls| - 1].err != 0
        || (procedure(|calls| - 1).err == 0 && procedure(|calls| - 1).next == PHASE_EXIT))
  }

  /**
    A call after a failed one reports that failure; a call after a successful one is
    made for the next notification, with its error.  An error goes to the error
    phase, and otherwise the phase is the one asked for.
   */
  predicate Answered(procedure: nat -> Outcome, calls: seq<Call>, notes: seq<int>, i: nat)
    requires 0 < i < |calls|
  {
    && (procedure(i - 1).err == 0 ==> i <= |notes|)
    && calls[i].err == (if procedure(i - 1).err != 0 then procedure(i - 1).err else notes[i - 1])
    && calls[i].phase == (if calls[i].err == 0 then procedure(i - 1).next else PHASE_ERROR)
  }

  ghost predicate Answers(procedure: nat -> Outcome, calls: seq<Call>, notes: seq<int>) {
    && calls != [] && calls[0] == Call(0, 0)
    && (forall i | 0 < i < |calls| :: Answered(procedure, calls, notes, i))
    // Nothing follows an ended run, and a failure is always reported.
    && (forall i | 0 < i < |calls| :: !Ended(procedure, calls[..i]))
    && (calls[|calls| - 1].err == 0 ==> procedure(|calls| - 1).err == 0)
  }

  /** The calls that `xf_async_run_next_phase` makes, given what came before. */
  ghost predicate OneRound(procedure: nat -> Outcome, calls: seq<Call>, phase: int, error: int, calls': seq<Call>) {
    var n := |calls|;
    && n < |calls'| && calls'[..n] == calls
    && calls'[n] == (if error != 0 then Call(PHASE_ERROR, error) else Call(phase, 0))
    && (if error == 0 && procedure(n).err != 0 then calls'[n + 1..] == [Call(PHASE_ERROR, procedure(n).err)]
        else |calls'| == n + 1)
  }

  lemma {:induction false} AnswersBegin(procedure: nat -> Outcome, calls: seq<Call>, notes: seq<int>)
    requires OneRound(procedure, [], 0, 0, calls)
    ensures Answers(procedure, calls, notes)
  {
    if |calls| == 2 {
      assert calls[1] == calls[1..][0];
      assert calls[..1] == [calls[0]];
    }
  }

  lemma {:induction false} AnswersGrow(
    procedure: nat -> Outcome, calls: seq<Call>, notes: seq<int>, calls': seq<Call>)
    requires Answers(procedure, calls, notes) && !Ended(procedure, calls) && |calls| <= |notes|
    requires OneRound(procedure, calls, procedure(|calls| - 1).next, notes[|calls| - 1], calls')
    ensures Answers(procedure, calls', notes)
  {
    var n := |calls|;
    assert calls == calls'[..n];
    if |calls'| > n + 1 {
      assert calls'[n + 1] == calls'[n + 1..][0] && |calls'| == n + 2;
    }
    forall i | 0 < i < |calls'| ensures Answered(procedure, calls', notes, i) {
      if i < n {
        assert calls'[i] == calls[i] && Answered(procedure, calls, notes, i);
      }
    }
    forall i | 0 < i < |calls'| ensures !Ended(procedure, calls'[..i]) {
      if i <= n {
        assert calls'[..i] == calls[..i];
        assert i == n ==> calls[..i] == calls;
      }
    }
  }

  // ---------- What the calls have to be, told from the outcomes and the notifications alone ----------

  /** The calls that one notification causes. */
  function Round(procedure: nat -> Outcome, n: nat, phase: int, error: int): seq<Call> {
    if error != 0 then [Call(PHASE_ERROR, error)]
    else if procedure(n).err != 0 then [Call(phase, 0), Call(PHASE_ERROR, procedure(n).err)]
    else [Call(phase, 0)]
  }

  predicate RoundEnds(outcome: Outcome) {
    outcome.err != 0 || outcome.next == PHASE_EXIT
  }

  function Expected(procedure: nat -> Outcome, n: nat, phase: int, error: int, notes: seq<int>): seq<Call>
    decreases |notes|
  {
    Round(procedure, n, phase, error)
    + if error != 0 || RoundEnds(procedure(n)) || notes == [] then []
      else Expected(procedure, n + 1, procedure(n).next, notes[0], notes[1..])
  }

  lemma {:induction false} ExpectedUnfolds(
    procedure: nat -> Outcome, calls: seq<Call>, phase: int, error: int, notes: seq<int>)
    ensures var n := |calls|;
            calls + Expected(procedure, n, phase, error, notes)
            == (calls + Round(procedure, n, phase, error))
               + if error != 0 || RoundEnds(procedure(n)) || notes == [] then []
                 else Expected(procedure, n + 1, procedure(n).next, notes[0], notes[1..])
  {
  }

  /** The call `call`, which is the n-th and the last one if `last`, after a call that asked for `phase`. */
  predicate InPlace(outcome: Outcome, call: Call, phase: int, last: bool) {
    && (if call.err == 0 then call.phase == phase else call.phase == PHASE_ERROR && last)
    && (!last && outcome.err == 0 ==> outcome.next != PHASE_EXIT)
  }

  /**
    Of the calls that outcomes and notifications demand, every one up to the last
    is a normal one, for the phase asked for by the one before and never the exit,
    so an error call is single and last.
   */
  lemma {:induction false} ErrorCallIsSingleAndLast(
    procedure: nat -> Outcome, n: nat, phase: int, error: int, notes: seq<int>, i: nat)
    requires i < |Expected(procedure, n, phase, error, notes)|
    ensures var calls := Expected(procedure, n, phase, error, notes);
            InPlace(procedure(n + i), calls[i], if i == 0 then phase else procedure(n + i - 1).next, i == |calls| - 1)
    decreases |notes|
  {
    var rest := ExpectedSplits(procedure, n, phase, error, notes);
    RoundInPlace(procedure, n, phase, error, 0);
    if rest == [] {
      RoundInPlace(procedure, n, phase, error, i);
    }
    hide Expected, Round, RoundEnds, InPlace;
    var calls := Expected(procedure, n, phase, error, notes);
    if rest == [] {
      assert calls == Round(procedure, n, phase, error);
    } else if i > 0 {
      ErrorCallIsSingleAndLast(procedure, n + 1, procedure(n).next, notes[0], notes[1..], i - 1);
      assert calls[i] == rest[i - 1];
    }
  }

  /** What comes after the first round, which then is a single call. */
  lemma {:induction false} ExpectedSplits(procedure: nat -> Outcome, n: nat, phase: int, error: int, notes: seq<int>)
    returns (rest: seq<Call>)
    ensures Expected(procedure, n, phase, error, notes) == Round(procedure, n, phase, error) + rest
    ensures rest != [] ==>
              && notes != [] && |Round(procedure, n, phase, error)| == 1
              && rest == Expected(procedure, n + 1, procedure(n).next, notes[0], notes[1..])
  {
    rest := if error != 0 || RoundEnds(procedure(n)) || notes == [] then []
            else Expected(procedure, n + 1, procedure(n).next, notes[0], notes[1..]);
  }

  /** Within one round, which is a single normal call unless it ends the run. */
  lemma {:induction false} RoundInPlace(procedure: nat -> Outcome, n: nat, phase: int, error: int, i: nat)
    requires i < |Round(procedure, n, phase, error)|
    ensures var calls := Round(procedure, n, phase, error);
            && InPlace(procedure(n + i), calls[i],
                       if i == 0 then phase else procedure(n + i - 1).next, i == |calls| - 1)
            && (error == 0 && !RoundEnds(procedure(n)) ==> calls == [Call(phase, 0)])
  {
  }

  lemma {:induction false} ChainExtends(procedure: nat -> Outcome, calls: seq<Call>, call: Call)
    requires Chain(procedure, calls)
    requires calls == [] ==> call == Call(0, 0)
    requires calls != [] ==>
               var n := |calls| - 1;
               && !Final(procedure, calls, n)
               && (if call.err == 0 then call.phase == procedure(n).next else call.phase == PHASE_ERROR)
               && (procedure(n).err != 0 ==> call.err == procedure(n).err)
    ensures Chain(procedure, calls + [call])
  {
    var calls' := calls + [call];
    forall i | 0 < i < |calls'| ensures Follows(procedure, calls', i) {
      assert calls'[i - 1] == calls[i - 1];
      if i < |calls| {
        assert calls'[i] == calls[i] && Follows(procedure, calls, i);
      }
    }
  }

  /** Without a parent, which `xf_async_call` accepts, even a run that exits at once dereferences null. */
  method NullParentIsDereferenced() returns (run: Run)
    ensures run.Valid() && run.calls == [Call(0, 0)] && run.crashed && run.ref == 1 && run.notified == []
  {
    run := new Run(_ => Outcome(0, PHASE_EXIT), false);
    run.Drive([]);
  }
}
