/** Verifying a mock function, and how the verdict follows from what happened in a run. */
module Verdicts {
  import opened Expectations
  import opened ExpectationInvariants
  import opened ExpectationRuns

  /** All expectations on the mock function are satisfied. */
  predicate Verified(exps: seq<Exp>, mocker: nat) {
    forall i | 0 <= i < |exps| && exps[i].mocker == mocker :: exps[i].IsSatisfied()
  }

  /** Retired expectations never matter: the verdict is that of the live ones. */
  lemma LiveOnesDecide(r: Run, t: nat, mocker: nat)
    requires IsRun(r) && t <= |r.events|
    ensures var exps := r.states[t].exps;
      Verified(exps, mocker)
      <==> forall i | 0 <= i < |exps| && exps[i].mocker == mocker && !exps[i].retired :: exps[i].IsSatisfied()
  {
    InvariantAlways(r, t);
    assert forall i | 0 <= i < |r.states[t].exps| :: ExpOk(r.states[t].exps[i]);
  }

  predicate ExceededBy(o: Outcome, i: nat) {
    HandledBy(o, i) && o.excessive
  }

  ghost predicate Exceeded(r: Run, t: nat, i: nat)
    requires IsRun(r) && t <= |r.events|
  {
    exists u | 0 <= u < t :: ExceededBy(r.outcomes[u], i)
  }

  /** An expectation is over-saturated exactly when one of the calls it handled was flagged excessive. */
  lemma {:induction false} OverSaturatedMeansExceeded(r: Run, t: nat, i: nat)
    requires IsRun(r) && t <= |r.events| && i < |r.states[t].exps|
    ensures r.states[t].exps[i].IsOverSaturated() <==> Exceeded(r, t, i)
  {
    InvariantAlways(r, t);
    assert ExpOk(r.states[t].exps[i]);
    if t > 0 {
      StepCounts(r, t - 1);
      ExceededGrows(r, t, i);
      if i < |r.states[t - 1].exps| {
        OverSaturatedMeansExceeded(r, t - 1, i);
        OverSaturationStep(r, t - 1, i);
      } else {
        NotHandledBefore(r, t, i);
      }
    }
  }

  lemma ExceededGrows(r: Run, t: nat, i: nat)
    requires IsRun(r) && 0 < t <= |r.events|
    ensures Exceeded(r, t, i) <==> Exceeded(r, t - 1, i) || ExceededBy(r.outcomes[t - 1], i)
  {
  }

  lemma OverSaturationStep(r: Run, t: nat, i: nat)
    requires IsRun(r) && t < |r.events| && i < |r.states[t].exps|
    ensures i < |r.states[t + 1].exps|
    ensures r.states[t + 1].exps[i].IsOverSaturated()
       <==> r.states[t].exps[i].IsOverSaturated() || ExceededBy(r.outcomes[t], i)
  {
    StepAt(r, t);
    StepCounts(r, t);
    var e, e' := r.states[t].exps[i], r.states[t + 1].exps[i];
    assert ExpOk(e) && ExpOk(e');
    if HandledBy(r.outcomes[t], i) {
      ExcessiveMeansOverSaturated(r, t, i);
      OutcomeHandled(r, t, i);
      HandleEffect(r.states[t].exps, i);
    } else if e.callCount > 0 {
      StepKeepsSettled(r, t, i);
    }
  }

  lemma NotHandledBefore(r: Run, t: nat, i: nat)
    requires IsRun(r) && 0 < t <= |r.events| && |r.states[t - 1].exps| <= i < |r.states[t].exps|
    ensures !Exceeded(r, t, i) && r.states[t].exps[i].callCount == 0
  {
    StepCounts(r, t - 1);
    forall u | 0 <= u < t ensures !HandledBy(r.outcomes[u], i) {
      if HandledBy(r.outcomes[u], i) {
        StepCounts(r, u);
        ExpectationsStay(r, u, t - 1);
        assert false;
      }
    }
  }

  lemma {:induction false} ExpectationsStay(r: Run, t: nat, u: nat)
    requires IsRun(r) && t <= u <= |r.events|
    ensures |r.states[t].exps| <= |r.states[u].exps|
    decreases u
  {
    if t < u {
      ExpectationsStay(r, t, u - 1);
      StepCounts(r, u - 1);
    }
  }

  /** Verification succeeds exactly when each expectation of the mock function has handled the calls it
      requires, and no call it handled was one too many. */
  lemma VerdictFollowsCalls(r: Run, t: nat, mocker: nat)
    requires IsRun(r) && t <= |r.events|
    ensures var exps := r.states[t].exps;
      Verified(exps, mocker)
      <==> forall i | 0 <= i < |exps| && exps[i].mocker == mocker ::
             exps[i].card.lower <= HandledCalls(r, t, i) && !Exceeded(r, t, i)
  {
    var exps := r.states[t].exps;
    InvariantAlways(r, t);
    forall i | 0 <= i < |exps|
      ensures exps[i].IsSatisfied() <==> exps[i].card.lower <= HandledCalls(r, t, i) && !Exceeded(r, t, i)
    {
      assert ExpOk(exps[i]);
      CallCountIsHandledCalls(r, t, i);
      OverSaturatedMeansExceeded(r, t, i);
    }
  }

  /** After an excessive call verification fails, however the run goes on. */
  lemma ExcessiveCallIsFinal(r: Run, t: nat, u: nat, i: nat)
    requires IsRun(r) && t < u <= |r.events| && ExceededBy(r.outcomes[t], i)
    ensures i < |r.states[u].exps| && !Verified(r.states[u].exps, r.states[u].exps[i].mocker)
  {
    StepCounts(r, t);
    ExpectationsStay(r, t, u);
    OverSaturatedMeansExceeded(r, u, i);
  }
}
