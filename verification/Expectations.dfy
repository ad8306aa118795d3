/** The mock-function engine of gmock-spec-builders.h as a state machine: what an EXPECT_CALL statement
    records, and what one call does. Expectations are numbered in the order they are created. */
module Expectations {
  import opened Options
  import opened Cardinalities
  import Matchers

  /** The clause names, in the order the run-time syntax check relies on. */
  datatype Clause = KNone | KWith | KTimes | KInSequence | KAfter | KWillOnce | KWillRepeatedly | KRetiresOnSaturation
  {
    function Rank(): nat {
      match this
      case KNone => 0
      case KWith => 1
      case KTimes => 2
      case KInSequence => 3
      case KAfter => 4
      case KWillOnce => 5
      case KWillRepeatedly => 6
      case KRetiresOnSaturation => 7
    }
  }

  datatype Action = DoDefault | Perform(id: nat)

  /** ExpectationBase and TypedExpectation: the recorded clauses, then the state that calls change. */
  datatype Exp = Exp(
    mocker: nat,
    matchers: seq<Matchers.Matcher>,
    extra: Matchers.Matcher,
    cardSpecified: bool,
    card: Cardinality,
    prereqs: set<nat>,
    actions: seq<Action>,
    repeatedSpecified: bool,
    repeated: Action,
    retiresOnSaturation: bool,
    lastClause: Clause,
    failures: nat,
    callCount: nat,
    retired: bool)
  {
    predicate IsSatisfied() { card.IsSatisfiedByCallCount(callCount) }
    predicate IsSaturated() { card.IsSaturatedByCallCount(callCount) }
    predicate IsOverSaturated() { card.IsOverSaturatedByCallCount(callCount) }

    /** TupleMatches and the With matcher. The arities agree by a compile-time check. */
    predicate Accepts(args: seq<Matchers.Value>) {
      && |matchers| == |args|
      && (forall i | 0 <= i < |args| :: Matchers.Holds(matchers[i], args[i]))
      && Matchers.Holds(extra, Matchers.List(args))
    }

    /** GetCurrentAction, for a call count of at least one. */
    function CurrentAction(): Action
      requires callCount >= 1
    {
      if callCount <= |actions| then actions[callCount - 1] else repeated
    }
  }

  function NewExp(mocker: nat, matchers: seq<Matchers.Matcher>): Exp {
    Exp(mocker, matchers, Matchers.Anything, false, Exactly(1), {}, [], false, DoDefault, false, KNone, 0, 0, false)
  }

  // ---------- Clauses ----------

  datatype ClauseCall =
    | With(m: Matchers.Matcher)
    | Times(card: Cardinality)
    | InSequence(q: nat)
    | After(es: set<nat>)
    | WillOnce(a: Action)
    | WillRepeatedly(a: Action)
    | RetiresOnSaturation
  {
    function Name(): Clause {
      match this
      case With(_) => KWith
      case Times(_) => KTimes
      case InSequence(_) => KInSequence
      case After(_) => KAfter
      case WillOnce(_) => KWillOnce
      case WillRepeatedly(_) => KWillRepeatedly
      case RetiresOnSaturation => KRetiresOnSaturation
    }
  }

  /** The property each clause checks: <= for the repeatable ones, < for the others. */
  predicate Allowed(last: Clause, c: ClauseCall) {
    match c
    case With(_) => last.Rank() < KWith.Rank()
    case Times(_) => last.Rank() < KTimes.Rank()
    case InSequence(_) => last.Rank() <= KInSequence.Rank()
    case After(_) => last.Rank() <= KAfter.Rank()
    case WillOnce(_) => last.Rank() <= KWillOnce.Rank()
    case WillRepeatedly(_) => last.Rank() < KWillRepeatedly.Rank()
    case RetiresOnSaturation => last.Rank() < KRetiresOnSaturation.Rank()
  }

  /** What a clause records. A failed check is reported and then the clause takes effect all the same. */
  function Apply(e: Exp, c: ClauseCall, added: set<nat>): Exp {
    var e' := e.(lastClause := c.Name(), failures := if Allowed(e.lastClause, c) then e.failures else e.failures + 1);
    match c
    case With(m) => e'.(extra := m)
    case Times(card) => e'.(cardSpecified := true, card := card)
    case InSequence(_) => e'.(prereqs := e.prereqs + added)
    case After(es) => e'.(prereqs := e.prereqs + es)
    case WillOnce(a) =>
      e'.(actions := e.actions + [a], card := if e.cardSpecified then e.card else Exactly(|e.actions| + 1))
    case WillRepeatedly(a) =>
      e'.(repeatedSpecified := true, repeated := a, card := if e.cardSpecified then e.card else AtLeast(|e.actions|))
    case RetiresOnSaturation => e'.(retiresOnSaturation := true)
  }

  // ---------- Prerequisites ----------

  /** Prerequisites are older expectations. */
  ghost predicate WellFounded(exps: seq<Exp>) {
    forall i, p | 0 <= i < |exps| && p in exps[i].prereqs :: p < i
  }

  /** a is a prerequisite of i, directly or through others. */
  ghost predicate Precedes(exps: seq<Exp>, a: nat, i: nat)
    requires WellFounded(exps) && i < |exps|
    decreases i
  {
    a in exps[i].prereqs || exists p | p in exps[i].prereqs :: p < i && Precedes(exps, a, p)
  }

  ghost predicate AllPrerequisitesAreSatisfied(exps: seq<Exp>, i: nat)
    requires WellFounded(exps) && i < |exps|
  {
    forall a: nat | a < i && Precedes(exps, a, i) :: exps[a].IsSatisfied()
  }

  ghost function RetireAllPreRequisites(exps: seq<Exp>, i: nat): (r: seq<Exp>)
    requires WellFounded(exps) && i < |exps|
    ensures |r| == |exps|
    ensures forall k: nat | k < |exps| ::
        r[k] == if Precedes(exps, k, i) then exps[k].(retired := true) else exps[k]
  {
    seq(|exps|, k requires 0 <= k < |exps| => if Precedes(exps, k, i) then exps[k].(retired := true) else exps[k])
  }

  // ---------- Calls ----------

  ghost predicate ShouldHandle(exps: seq<Exp>, i: nat, args: seq<Matchers.Value>)
    requires WellFounded(exps) && i < |exps|
  {
    !exps[i].retired && AllPrerequisitesAreSatisfied(exps, i) && exps[i].Accepts(args)
  }

  /** FindMatchingExpectationLocked: the newest of the first n expectations that should handle the call. */
  ghost function FindMatching(exps: seq<Exp>, mocker: nat, args: seq<Matchers.Value>, n: nat): (r: Option<nat>)
    requires WellFounded(exps) && n <= |exps|
    ensures r.Some? ==> r.value < n && exps[r.value].mocker == mocker && ShouldHandle(exps, r.value, args)
    ensures forall k: nat | (if r.Some? then r.value < k else true) && k < n && exps[k].mocker == mocker ::
        !ShouldHandle(exps, k, args)
  {
    if n == 0 then None
    else if exps[n - 1].mocker == mocker && ShouldHandle(exps, n - 1, args) then Some(n - 1)
    else FindMatching(exps, mocker, args, n - 1)
  }

  /** "Do default" is normalised to None, the null action. */
  function Normalize(a: Action): Option<Action> {
    if a.DoDefault? then None else Some(a)
  }

  datatype Handling = Handling(exps: seq<Exp>, action: Option<Action>, excessive: bool)

  /** GetActionForArguments and its caller: count the call, retire, and choose the action. */
  ghost function Handle(exps: seq<Exp>, i: nat): (h: Handling)
    requires WellFounded(exps) && i < |exps|
  {
    var e := exps[i];
    var counted := exps[i := e.(callCount := e.callCount + 1)];
    if e.IsSaturated() then Handling(counted, None, true)
    else
      var e' := counted[i];
      var retiredBefore := RetireAllPreRequisites(counted, i);
      var done :=
        if e'.retiresOnSaturation && e'.IsSaturated() then retiredBefore[i := e'.(retired := true)] else retiredBefore;
      Handling(done, Normalize(e'.CurrentAction()), false)
  }

  // ---------- The state machine ----------

  /** All expectations and sequences. A Sequence object keeps its last member; the list of all its members
      is kept here for the statements. open: an EXPECT_CALL statement is still being written. */
  datatype State = State(exps: seq<Exp>, seqs: map<nat, seq<nat>>, open: bool) {
    function Members(q: nat): seq<nat> { if q in seqs then seqs[q] else [] }
  }

  const START := State([], map[], false)

  datatype Event =
    | Expect(mocker: nat, matchers: seq<Matchers.Matcher>, implicit: Option<nat>)
    | Chain(c: ClauseCall)
    | Call(mocker: nat, args: seq<Matchers.Value>)

  datatype Outcome = NoCall | Unexpected | Handled(exp: nat, action: Option<Action>, excessive: bool)

  /** Clauses belong to the statement being written; After refers to older expectations. */
  predicate Enabled(s: State, ev: Event) {
    match ev
    case Expect(_, _, _) => true
    case Chain(c) =>
      && s.open && |s.exps| > 0
      && (c.After? ==> forall e | e in c.es :: e < |s.exps| - 1)
      && (c.Times? ==> 0 <= c.card.lower <= c.card.upper)
    case Call(_, _) => true
  }

  /** Sequence::AddExpectation: the old last member, unless it is the new one itself, is a prerequisite. */
  function AddedBySequence(members: seq<nat>, i: nat): set<nat> {
    if members == [] || members[|members| - 1] == i then {} else {members[|members| - 1]}
  }

  function Joined(members: seq<nat>, i: nat): seq<nat> {
    if members != [] && members[|members| - 1] == i then members else members + [i]
  }

  function ApplyClause(s: State, c: ClauseCall): State
    requires |s.exps| > 0
  {
    var i := |s.exps| - 1;
    if c.InSequence? then
      var members := s.Members(c.q);
      s.(exps := s.exps[i := Apply(s.exps[i], c, AddedBySequence(members, i))],
         seqs := s.seqs[c.q := Joined(members, i)])
    else
      s.(exps := s.exps[i := Apply(s.exps[i], c, {})])
  }

  function AddExpectation(s: State, mocker: nat, matchers: seq<Matchers.Matcher>, implicit: Option<nat>): State {
    var i := |s.exps|;
    var e := NewExp(mocker, matchers);
    match implicit
    case None => State(s.exps + [e], s.seqs, true)
    case Some(q) =>
      var members := s.Members(q);
      State(s.exps + [e.(prereqs := AddedBySequence(members, i))], s.seqs[q := Joined(members, i)], true)
  }

  ghost function Next(s: State, ev: Event): State
    requires WellFounded(s.exps) && Enabled(s, ev)
  {
    match ev
    case Expect(mocker, matchers, implicit) => AddExpectation(s, mocker, matchers, implicit)
    case Chain(c) => ApplyClause(s, c)
    case Call(mocker, args) =>
      match FindMatching(s.exps, mocker, args, |s.exps|)
      case None => s.(open := false)
      case Some(i) => State(Handle(s.exps, i).exps, s.seqs, false)
  }

  ghost function OutcomeOf(s: State, ev: Event): Outcome
    requires WellFounded(s.exps)
  {
    match ev
    case Expect(_, _, _) => NoCall
    case Chain(_) => NoCall
    case Call(mocker, args) =>
      match FindMatching(s.exps, mocker, args, |s.exps|)
      case None => Unexpected
      case Some(i) => Handled(i, Handle(s.exps, i).action, Handle(s.exps, i).excessive)
  }
}
