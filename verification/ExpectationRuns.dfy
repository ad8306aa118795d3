/** Properties of whole runs of the engine: any number of EXPECT_CALL statements, clauses and calls, on any
    number of mock functions, in any order. */
module ExpectationRuns {
  import opened Options
  import opened Expectations
  import opened ExpectationInvariants
  import Matchers

  datatype Run = Run(states: seq<State>, events: seq<Event>, outcomes: seq<Outcome>)

  ghost predicate IsStep(s: State, ev: Event, o: Outcome, s': State) {
    WellFounded(s.exps) && Enabled(s, ev) && o == OutcomeOf(s, ev) && s' == Next(s, ev)
  }

  ghost predicate StepHolds(r: Run, t: nat) {
    && t < |r.events| && t < |r.outcomes| && t + 1 < |r.states|
    && IsStep(r.states[t], r.events[t], r.outcomes[t], r.states[t + 1])
  }

  ghost predicate IsRun(r: Run) {
    && |r.states| == |r.events| + 1 && |r.outcomes| == |r.events|
    && r.states[0] == START
    && forall t | 0 <= t < |r.events| :: StepHolds(r, t)
  }

  ghost function Last(r: Run): State
    requires IsRun(r)
  {
    r.states[|r.events|]
  }

  /** A run goes on with any step that is enabled. */
  lemma RunGrows(r: Run, ev: Event) returns (r': Run)
    requires IsRun(r) && WellFounded(Last(r).exps) && Enabled(Last(r), ev)
    ensures IsRun(r') && Last(r') == Next(Last(r), ev) && r'.events == r.events + [ev]
    ensures r'.outcomes == r.outcomes + [OutcomeOf(Last(r), ev)]
  {
    r' := Run(r.states + [Next(Last(r), ev)], r.events + [ev], r.outcomes + [OutcomeOf(Last(r), ev)]);
    forall t | 0 <= t < |r'.events| ensures StepHolds(r', t) {
      if t < |r.events| {
        assert StepHolds(r, t);
      }
    }
  }

  predicate HandledBy(o: Outcome, i: nat) {
    o.Handled? && o.exp == i
  }

  /** Handled without exceeding the cardinality. */
  predicate HandledWithin(o: Outcome, i: nat) {
    HandledBy(o, i) && !o.excessive
  }

  lemma {:induction false} InvariantAlways(r: Run, t: nat)
    requires IsRun(r) && t <= |r.events|
    ensures Inv(r.states[t])
  {
    if t > 0 {
      InvariantAlways(r, t - 1);
      assert StepHolds(r, t - 1);
      StepKeepsInv(r.states[t - 1], r.events[t - 1]);
    }
  }

  lemma StepAt(r: Run, t: nat)
    requires IsRun(r) && t < |r.events|
    ensures Inv(r.states[t]) && Inv(r.states[t + 1])
    ensures Enabled(r.states[t], r.events[t]) && r.states[t + 1] == Next(r.states[t], r.events[t])
    ensures r.outcomes[t] == OutcomeOf(r.states[t], r.events[t])
  {
    InvariantAlways(r, t);
    InvariantAlways(r, t + 1);
    assert StepHolds(r, t);
  }

  lemma OutcomeHandled(r: Run, t: nat, i: nat)
    requires IsRun(r) && t < |r.events| && HandledBy(r.outcomes[t], i)
    ensures r.events[t].Call? && Inv(r.states[t]) && i < |r.states[t].exps|
    ensures ShouldHandle(r.states[t].exps, i, r.events[t].args)
    ensures r.states[t + 1].exps == Handle(r.states[t].exps, i).exps && !r.states[t + 1].open
    ensures r.states[t + 1].seqs == r.states[t].seqs
    ensures r.outcomes[t] == Handled(i, Handle(r.states[t].exps, i).action, Handle(r.states[t].exps, i).excessive)
  {
    StepAt(r, t);
  }

  // ---------- Retirement ----------

  /** A retired expectation stays retired, its prerequisites are retired, it is satisfied, and its call
      count never changes again. */
  lemma {:induction false} RetirementIsFinal(r: Run, t: nat, u: nat, i: nat)
    requires IsRun(r) && t <= u <= |r.events|
    requires i < |r.states[t].exps| && r.states[t].exps[i].retired
    ensures i < |r.states[u].exps| && r.states[u].exps[i].retired
    ensures r.states[u].exps[i].callCount == r.states[t].exps[i].callCount
    ensures r.states[u].exps[i].IsSatisfied()
    ensures forall p | p in r.states[u].exps[i].prereqs :: p < i && r.states[u].exps[p].retired
    decreases u
  {
    InvariantAlways(r, u);
    if t < u {
      RetirementIsFinal(r, t, u - 1, i);
      StepAt(r, u - 1);
      StepIsMonotone(r.states[u - 1], r.events[u - 1]);
    }
    assert ExpOk(r.states[u].exps[i]);
  }

  /** A retired expectation handles no call, not even an excessive one. */
  lemma RetiredHandlesNothing(r: Run, t: nat, u: nat, i: nat)
    requires IsRun(r) && t <= u < |r.events|
    requires i < |r.states[t].exps| && r.states[t].exps[i].retired
    ensures !HandledBy(r.outcomes[u], i)
  {
    RetirementIsFinal(r, t, u, i);
    if HandledBy(r.outcomes[u], i) {
      OutcomeHandled(r, u, i);
    }
  }

  // ---------- Order ----------

  /** When an expectation handles a call within its cardinality, everything that precedes it was satisfied
      at that moment, is retired from then on, and handles no later call. */
  lemma PrerequisitesAreDone(r: Run, t: nat, j: nat, a: nat)
    requires IsRun(r) && t < |r.events| && HandledWithin(r.outcomes[t], j)
    requires Inv(r.states[t]) && j < |r.states[t].exps| && Precedes(r.states[t].exps, a, j)
    ensures a < j && r.states[t].exps[a].IsSatisfied()
    ensures forall u | t < u <= |r.events| :: a < |r.states[u].exps| && r.states[u].exps[a].retired
    ensures forall u | t < u < |r.events| :: !HandledBy(r.outcomes[u], a)
  {
    OutcomeHandled(r, t, j);
    PrecedesIsOlder(r.states[t].exps, a, j);
    HandleEffect(r.states[t].exps, j);
    forall u | t < u <= |r.events| ensures a < |r.states[u].exps| && r.states[u].exps[a].retired {
      RetirementIsFinal(r, t + 1, u, a);
    }
    forall u | t < u < |r.events| ensures !HandledBy(r.outcomes[u], a) {
      RetiredHandlesNothing(r, t + 1, u, a);
    }
  }

  /** The statement that created expectation k is finished. */
  predicate Settled(s: State, k: nat) {
    k < |s.exps| && (s.open ==> k < |s.exps| - 1)
  }

  lemma StepKeepsSettled(r: Run, t: nat, k: nat)
    requires IsRun(r) && t < |r.events| && Settled(r.states[t], k)
    ensures Settled(r.states[t + 1], k) && SameSpec(r.states[t].exps[k], r.states[t + 1].exps[k])
  {
    StepAt(r, t);
    StepIsMonotone(r.states[t], r.events[t]);
  }

  /** Its recorded clauses then stand for the rest of the run. */
  lemma {:induction false} SpecIsFinal(r: Run, t: nat, u: nat, k: nat)
    requires IsRun(r) && t <= u <= |r.events| && Settled(r.states[t], k)
    ensures Settled(r.states[u], k) && SameSpec(r.states[t].exps[k], r.states[u].exps[k])
    decreases u
  {
    if t < u {
      SpecIsFinal(r, t, u - 1, k);
      StepKeepsSettled(r, u - 1, k);
    }
  }

  /** An earlier member of a sequence precedes a later one. */
  lemma {:induction false} EarlierMemberPrecedes(exps: seq<Exp>, members: seq<nat>, x: nat, y: nat)
    requires WellFounded(exps) && SequenceOk(exps, members) && x < y < |members|
    ensures Precedes(exps, members[x], members[y])
    decreases y
  {
    if x + 1 < y {
      EarlierMemberPrecedes(exps, members, x, y - 1);
      assert Precedes(exps, members[y - 1], members[y]);
      PrecedesIsTransitive(exps, members[x], members[y - 1], members[y]);
    }
  }

  /** Within one sequence the position of the handler never goes down: after a member has handled a call
      within its cardinality, no earlier member handles any call. */
  lemma SequenceOrder(r: Run, t: nat, u: nat, q: nat, x: nat, y: nat)
    requires IsRun(r) && t < u < |r.events|
    requires x < |r.states[u].Members(q)| && y < |r.states[u].Members(q)|
    requires HandledWithin(r.outcomes[t], r.states[u].Members(q)[y])
    requires HandledBy(r.outcomes[u], r.states[u].Members(q)[x])
    ensures y <= x
  {
    var members := r.states[u].Members(q);
    if x < y {
      InvariantAlways(r, u);
      MembersAreOk(r.states[u], q);
      EarlierMemberPrecedes(r.states[u].exps, members, x, y);
      PrecedesBeforeToo(r, t, u, members[x], members[y]);
      PrerequisitesAreDone(r, t, members[y], members[x]);
    }
  }

  /** The prerequisites an expectation has later are those it had when it handled a call. */
  lemma PrecedesBeforeToo(r: Run, t: nat, u: nat, a: nat, j: nat)
    requires IsRun(r) && t < u <= |r.events| && HandledBy(r.outcomes[t], j)
    requires Inv(r.states[u]) && j < |r.states[u].exps| && Precedes(r.states[u].exps, a, j)
    ensures Inv(r.states[t]) && j < |r.states[t].exps| && Precedes(r.states[t].exps, a, j)
  {
    OutcomeHandled(r, t, j);
    HandleEffect(r.states[t].exps, j);
    forall k | 0 <= k <= j ensures r.states[t].exps[k].prereqs == r.states[u].exps[k].prereqs {
      assert Settled(r.states[t + 1], k);
      SpecIsFinal(r, t + 1, u, k);
    }
    PrecedesDependsOnPrereqs(r.states[t].exps, r.states[u].exps, a, j);
  }

  // ---------- Counting ----------

  ghost function HandledCalls(r: Run, t: nat, i: nat): nat
    requires IsRun(r) && t <= |r.events|
  {
    if t == 0 then 0 else HandledCalls(r, t - 1, i) + if HandledBy(r.outcomes[t - 1], i) then 1 else 0
  }

  ghost function MatchedCalls(r: Run, t: nat): nat
    requires IsRun(r) && t <= |r.events|
  {
    if t == 0 then 0 else MatchedCalls(r, t - 1) + if r.outcomes[t - 1].Handled? then 1 else 0
  }

  function SumOfCounts(exps: seq<Exp>): nat {
    if exps == [] then 0 else SumOfCounts(exps[..|exps| - 1]) + exps[|exps| - 1].callCount
  }

  lemma {:induction false} SumAfterChange(exps: seq<Exp>, exps': seq<Exp>, i: nat, d: nat)
    requires |exps| == |exps'|
    requires forall k | 0 <= k < |exps| :: exps'[k].callCount == exps[k].callCount + (if k == i then d else 0)
    ensures SumOfCounts(exps') == SumOfCounts(exps) + (if i < |exps| then d else 0)
  {
    if exps != [] {
      SumAfterChange(exps[..|exps| - 1], exps'[..|exps| - 1], i, d);
    }
  }

  predicate NewOnesUncalled(exps: seq<Exp>, exps': seq<Exp>) {
    forall k | |exps| <= k < |exps'| :: exps'[k].callCount == 0
  }

  /** Each step counts its call for its handler and for nobody else. */
  lemma StepCounts(r: Run, t: nat)
    requires IsRun(r) && t < |r.events|
    ensures |r.states[t].exps| <= |r.states[t + 1].exps| <= |r.states[t].exps| + 1
    ensures forall k: nat | k < |r.states[t].exps| ::
        r.states[t + 1].exps[k].callCount
        == r.states[t].exps[k].callCount + (if HandledBy(r.outcomes[t], k) then 1 else 0)
    ensures NewOnesUncalled(r.states[t].exps, r.states[t + 1].exps)
    ensures r.outcomes[t].Handled? ==>
        |r.states[t + 1].exps| == |r.states[t].exps| && r.outcomes[t].exp < |r.states[t].exps|
  {
    StepAt(r, t);
    var o := r.outcomes[t];
    if o.Handled? {
      OutcomeHandled(r, t, o.exp);
      HandleEffect(r.states[t].exps, o.exp);
    }
  }

  /** An expectation's call count is the number of calls it handled. */
  lemma {:induction false} CallCountIsHandledCalls(r: Run, t: nat, i: nat)
    requires IsRun(r) && t <= |r.events|
    ensures HandledCalls(r, t, i) == if i < |r.states[t].exps| then r.states[t].exps[i].callCount else 0
  {
    if t > 0 {
      CallCountIsHandledCalls(r, t - 1, i);
      StepCounts(r, t - 1);
    }
  }

  /** The call counts together are the matched calls. */
  lemma {:induction false} CountsSumToMatchedCalls(r: Run, t: nat)
    requires IsRun(r) && t <= |r.events|
    ensures SumOfCounts(r.states[t].exps) == MatchedCalls(r, t)
  {
    if t > 0 {
      CountsSumToMatchedCalls(r, t - 1);
      StepAddsToSum(r, t - 1);
    }
  }

  lemma StepAddsToSum(r: Run, t: nat)
    requires IsRun(r) && t < |r.events|
    ensures SumOfCounts(r.states[t + 1].exps)
         == SumOfCounts(r.states[t].exps) + if r.outcomes[t].Handled? then 1 else 0
  {
    StepCounts(r, t);
    var o := r.outcomes[t];
    var exps, exps' := r.states[t].exps, r.states[t + 1].exps;
    var i := if o.Handled? then o.exp else |exps'|;
    forall k | 0 <= k < |exps| ensures exps'[k].callCount == exps[k].callCount + (if k == i then 1 else 0) {
      assert HandledBy(o, k) <==> k == i;
    }
    SumAfterStep(exps, exps', i);
  }

  lemma SumAfterStep(exps: seq<Exp>, exps': seq<Exp>, i: nat)
    requires |exps| <= |exps'| <= |exps| + 1
    requires forall k | 0 <= k < |exps| :: exps'[k].callCount == exps[k].callCount + (if k == i then 1 else 0)
    requires NewOnesUncalled(exps, exps')
    ensures SumOfCounts(exps') == SumOfCounts(exps) + if i < |exps| then 1 else 0
  {
    var kept := exps'[..|exps|];
    SumAfterChange(exps, kept, i, 1);
    if |exps'| == |exps| {
      assert kept == exps';
    } else {
      assert SumOfCounts(exps') == SumOfCounts(kept) + 0;
    }
  }

  /** A call is flagged excessive exactly when it leaves its handler over-saturated. */
  lemma ExcessiveMeansOverSaturated(r: Run, t: nat, i: nat)
    requires IsRun(r) && t < |r.events| && HandledBy(r.outcomes[t], i)
    ensures i < |r.states[t + 1].exps|
    ensures r.outcomes[t].excessive <==> r.states[t + 1].exps[i].IsOverSaturated()
  {
    OutcomeHandled(r, t, i);
    HandleEffect(r.states[t].exps, i);
    assert ExpOk(r.states[t].exps[i]);
  }

  /** With RetiresOnSaturation a call is one too many only when no call was allowed at all. */
  lemma RetiringNeverOverSaturates(r: Run, t: nat, i: nat)
    requires IsRun(r) && t <= |r.events| && i < |r.states[t].exps|
    requires r.states[t].exps[i].retiresOnSaturation
    ensures var e := r.states[t].exps[i];
      && (e.IsOverSaturated() <==> e.card.upper == 0 && e.callCount > 0)
      && (e.IsSaturated() && e.card.upper >= 1 ==> e.retired)
  {
    InvariantAlways(r, t);
    assert ExpOk(r.states[t].exps[i]);
  }

  // ---------- Actions ----------

  /** The action for the call after k calls: None stands for the default action. */
  function ScriptAt(e: Exp, k: nat): Option<Action> {
    if k >= e.card.upper then None
    else Normalize(if k < |e.actions| then e.actions[k] else e.repeated)
  }

  function Script(e: Exp, n: nat): seq<Option<Action>> {
    seq(n, k requires k >= 0 => ScriptAt(e, k))
  }

  /** The actions expectation i handed out in the first t events. */
  ghost function HandedOut(r: Run, t: nat, i: nat): seq<Option<Action>>
    requires IsRun(r) && t <= |r.events|
  {
    if t == 0 then []
    else
      var o := r.outcomes[t - 1];
      HandedOut(r, t - 1, i) + if HandledBy(o, i) then [o.action] else []
  }

  lemma ScriptGrows(e: Exp, e': Exp)
    requires SameSpec(e, e')
    ensures Script(e', e.callCount) == Script(e, e.callCount)
    ensures Script(e', e.callCount + 1) == Script(e, e.callCount) + [ScriptAt(e, e.callCount)]
  {
  }

  /** One step extends the script of its handler by one entry, and no other. */
  lemma StepExtendsScript(r: Run, t: nat, i: nat)
    requires IsRun(r) && t < |r.events| && i < |r.states[t].exps|
    ensures i < |r.states[t + 1].exps|
    ensures var e, e' := r.states[t].exps[i], r.states[t + 1].exps[i];
      Script(e', e'.callCount)
      == Script(e, e.callCount) + if HandledBy(r.outcomes[t], i) then [r.outcomes[t].action] else []
  {
    StepCounts(r, t);
    StepAt(r, t);
    var s, s', o := r.states[t], r.states[t + 1], r.outcomes[t];
    StepIsMonotone(s, r.events[t]);
    if HandledBy(o, i) {
      OutcomeHandled(r, t, i);
      HandleEffect(s.exps, i);
      ActionIsScripted(s.exps, i);
      ScriptGrows(s.exps[i], s'.exps[i]);
    } else if Settled(s, i) {
      ScriptGrows(s.exps[i], s'.exps[i]);
    } else {
      assert s.exps[i].callCount == 0 && s'.exps[i].callCount == 0;
      assert Script(s'.exps[i], 0) == [] == Script(s.exps[i], 0);
    }
  }

  /** Over any run, what an expectation hands out is its script. */
  lemma {:induction false} HandsOutItsScript(r: Run, t: nat, i: nat)
    requires IsRun(r) && t <= |r.events|
    ensures HandedOut(r, t, i)
         == if i < |r.states[t].exps| then Script(r.states[t].exps[i], r.states[t].exps[i].callCount) else []
  {
    if t > 0 {
      HandsOutItsScript(r, t - 1, i);
      StepCounts(r, t - 1);
      if i < |r.states[t - 1].exps| {
        StepExtendsScript(r, t - 1, i);
      } else if i < |r.states[t].exps| {
        assert Script(r.states[t].exps[i], 0) == [];
      }
    }
  }

  lemma ActionIsScripted(exps: seq<Exp>, i: nat)
    requires WellFounded(exps) && i < |exps|
    ensures Handle(exps, i).action == ScriptAt(exps[i], exps[i].callCount)
  {
  }

  function NormalizeAll(actions: seq<Action>): (r: seq<Option<Action>>)
    ensures |r| == |actions| && forall k | 0 <= k < |actions| :: r[k] == Normalize(actions[k])
  {
    seq(|actions|, k requires 0 <= k < |actions| => Normalize(actions[k]))
  }

  function Min(a: int, b: int): int { if a < b then a else b }

  /** The script in the words of the documentation: the WillOnce actions in order, then the repeated action
      up to the upper bound, then the default for every call past it. */
  lemma ScriptInWords(e: Exp, n: nat)
    requires e.card.Valid()
    ensures var within := Min(n, e.card.upper);
      var once := Min(within, |e.actions|);
      Script(e, n) == NormalizeAll(e.actions[..once]) + seq(within - once, _ => Normalize(e.repeated))
                      + seq(n - within, _ => None)
  {
  }

  /** With WillOnce clauses but neither Times nor WillRepeatedly, the repeated action is never used. */
  lemma OnlyWillOnce(r: Run, t: nat, i: nat)
    requires IsRun(r) && t <= |r.events| && i < |r.states[t].exps|
    requires var e := r.states[t].exps[i]; !e.cardSpecified && !e.repeatedSpecified && |e.actions| >= 1
    ensures var e := r.states[t].exps[i];
      HandedOut(r, t, i) == NormalizeAll(e.actions[..Min(e.callCount, |e.actions|)])
                            + seq(e.callCount - Min(e.callCount, |e.actions|), _ => None)
  {
    var e := r.states[t].exps[i];
    InvariantAlways(r, t);
    assert ExpOk(e);
    HandsOutItsScript(r, t, i);
    ScriptInWords(e, e.callCount);
  }
}
