/** The objects of gmock-spec-builders.h: expectations that update their fields in place and point at each
    other, sequences, and function mockers. Every method is tied to the state machine of Expectations. */
module SpecBuilders {
  import opened Options
  import opened Cardinalities
  import opened Expectations
  import opened ExpectationInvariants
  import Matchers
  import opened PrerequisiteWalks
  import MatchAndExplain
  import Verdicts

  // ---------- All expectations, in creation order ----------

  /** Prerequisites are older members of the same registry. */
  ghost predicate Registered(reg: seq<ExpectationBase>)
    reads reg
  {
    && (forall i | 0 <= i < |reg| :: reg[i].id == i)
    && (forall i, p | 0 <= i < |reg| && p in reg[i].immediatePrerequisites :: p.id < i && reg[p.id] == p)
  }

  ghost predicate IsAt(reg: seq<ExpectationBase>, e: ExpectationBase) {
    e.id < |reg| && reg[e.id] == e
  }

  /** The state machine's view of the registry. */
  ghost function Views(reg: seq<ExpectationBase>): (exps: seq<Exp>)
    reads reg
    ensures |exps| == |reg| && forall i | 0 <= i < |reg| :: exps[i] == reg[i].View()
  {
    seq(|reg|, i requires 0 <= i < |reg| reads reg => reg[i].View())
  }

  lemma RegistryGrows(reg: seq<ExpectationBase>, e: ExpectationBase)
    requires Registered(reg) && e.id == |reg| && forall p | p in e.immediatePrerequisites :: IsAt(reg, p)
    ensures Registered(reg + [e]) && Views(reg + [e]) == Views(reg) + [e.View()]
  {
  }

  lemma ViewsAreWellFounded(reg: seq<ExpectationBase>)
    requires Registered(reg)
    ensures WellFounded(Views(reg))
  {
    forall i, p | 0 <= i < |reg| && p in Views(reg)[i].prereqs ensures p < i {
      var e :| e in reg[i].immediatePrerequisites && e.id == p;
    }
  }

  class ExpectationBase {
    ghost const id: nat
    const owner: nat
    const matchers: seq<Matchers.Matcher>
    var extraMatcher: Matchers.Matcher
    var cardinalitySpecified: bool
    var cardinality: Cardinality
    var immediatePrerequisites: set<ExpectationBase>
    var untypedActions: seq<Action>
    var repeatedActionSpecified: bool
    var repeatedAction: Action
    var retiresOnSaturation: bool
    var lastClause: Clause
    var specFailures: nat
    var callCount: nat
    var retired: bool

    constructor (ghost id: nat, owner: nat, matchers: seq<Matchers.Matcher>)
      ensures this.id == id && immediatePrerequisites == {} && View() == NewExp(owner, matchers)
    {
      this.id := id;
      this.owner := owner;
      this.matchers := matchers;
      extraMatcher := Matchers.Anything;
      cardinalitySpecified := false;
      cardinality := Exactly(1);
      immediatePrerequisites := {};
      untypedActions := [];
      repeatedActionSpecified := false;
      repeatedAction := DoDefault;
      retiresOnSaturation := false;
      lastClause := KNone;
      specFailures := 0;
      callCount := 0;
      retired := false;
    }

    ghost function PrerequisiteIds(): set<nat>
      reads this
    {
      set p | p in immediatePrerequisites :: p.id
    }

    /** The record the state machine keeps of this object. */
    ghost function View(): Exp
      reads this
    {
      Exp(owner, matchers, extraMatcher, cardinalitySpecified, cardinality, PrerequisiteIds(), untypedActions,
          repeatedActionSpecified, repeatedAction, retiresOnSaturation, lastClause, specFailures, callCount, retired)
    }

    // ---------- Clauses ----------

    method ExpectSpecProperty(property: bool)
      modifies this`specFailures
      ensures specFailures == old(specFailures) + if property then 0 else 1
    {
      if !property {
        specFailures := specFailures + 1;
      }
    }

    method With(m: Matchers.Matcher)
      modifies this
      ensures View() == Apply(old(View()), ClauseCall.With(m), {})
      ensures immediatePrerequisites == old(immediatePrerequisites)
    {
      if lastClause == KWith {
        ExpectSpecProperty(false);
      } else {
        ExpectSpecProperty(lastClause.Rank() < KWith.Rank());
      }
      lastClause := KWith;
      extraMatcher := m;
    }

    method Times(card: Cardinality)
      modifies this
      ensures View() == Apply(old(View()), ClauseCall.Times(card), {})
      ensures immediatePrerequisites == old(immediatePrerequisites)
    {
      if lastClause == KTimes {
        ExpectSpecProperty(false);
      } else {
        ExpectSpecProperty(lastClause.Rank() < KTimes.Rank());
      }
      lastClause := KTimes;
      cardinalitySpecified := true;
      cardinality := card;
    }

    method InSequence(s: Sequence, ghost q: nat)
      requires s.Valid() && forall m | m in s.members && m.id == id :: m == this
      modifies this, s
      ensures s.Valid() && s.MemberIds() == Joined(old(s.MemberIds()), id)
      ensures s.members == s.WithMember(old(s.members), this)
      ensures View() == Apply(old(View()), ClauseCall.InSequence(q), AddedBySequence(old(s.MemberIds()), id))
      ensures immediatePrerequisites == old(immediatePrerequisites) + s.Before(old(s.members), this)
    {
      ExpectSpecProperty(lastClause.Rank() <= KInSequence.Rank());
      lastClause := KInSequence;
      s.AddExpectation(this);
    }

    method After(es: set<ExpectationBase>)
      modifies this
      ensures View() == Apply(old(View()), ClauseCall.After(set e | e in es :: e.id), {})
      ensures immediatePrerequisites == old(immediatePrerequisites) + es
    {
      ExpectSpecProperty(lastClause.Rank() <= KAfter.Rank());
      lastClause := KAfter;
      var todo := es;
      while todo != {}
        invariant todo <= es
        invariant immediatePrerequisites == old(immediatePrerequisites) + (es - todo)
        invariant View() == old(View()).(lastClause := KAfter, failures := specFailures, prereqs := PrerequisiteIds())
        invariant specFailures == old(specFailures) + if old(lastClause.Rank()) <= KAfter.Rank() then 0 else 1
      {
        var e :| e in todo;
        immediatePrerequisites := immediatePrerequisites + {e};
        todo := todo - {e};
      }
    }

    method WillOnce(a: Action)
      modifies this
      ensures View() == Apply(old(View()), ClauseCall.WillOnce(a), {})
      ensures immediatePrerequisites == old(immediatePrerequisites)
    {
      ExpectSpecProperty(lastClause.Rank() <= KWillOnce.Rank());
      lastClause := KWillOnce;
      untypedActions := untypedActions + [a];
      if !cardinalitySpecified {
        cardinality := Exactly(|untypedActions|);
      }
    }

    method WillRepeatedly(a: Action)
      modifies this
      ensures View() == Apply(old(View()), ClauseCall.WillRepeatedly(a), {})
      ensures immediatePrerequisites == old(immediatePrerequisites)
    {
      if lastClause == KWillRepeatedly {
        ExpectSpecProperty(false);
      } else {
        ExpectSpecProperty(lastClause.Rank() < KWillRepeatedly.Rank());
      }
      lastClause := KWillRepeatedly;
      repeatedActionSpecified := true;
      repeatedAction := a;
      if !cardinalitySpecified {
        cardinality := AtLeast(|untypedActions|);
      }
    }

    method RetiresOnSaturation()
      modifies this
      ensures View() == Apply(old(View()), ClauseCall.RetiresOnSaturation, {})
      ensures immediatePrerequisites == old(immediatePrerequisites)
    {
      ExpectSpecProperty(lastClause.Rank() < KRetiresOnSaturation.Rank());
      lastClause := KRetiresOnSaturation;
      retiresOnSaturation := true;
    }

    // ---------- Calls ----------

    predicate IsSatisfied()
      reads this
    {
      cardinality.IsSatisfiedByCallCount(callCount)
    }

    predicate IsSaturated()
      reads this
    {
      cardinality.IsSaturatedByCallCount(callCount)
    }

    method Retire(ghost reg: seq<ExpectationBase>)
      requires Registered(reg) && IsAt(reg, this)
      modifies this`retired
      ensures Registered(reg)
      ensures Views(reg) == var e := old(Views(reg)); e[id := e[id].(retired := true)]
    {
      ghost var exps := Views(reg);
      retired := true;
      assert forall i | 0 <= i < |reg| && i != id :: reg[i].View() == exps[i];
    }

    /** Asks the direct prerequisites, and each of them about its own. */
    method AllPrerequisitesAreSatisfied(ghost reg: seq<ExpectationBase>) returns (b: bool)
      requires Registered(reg) && IsAt(reg, this)
      ensures WellFounded(Views(reg))
      ensures b <==> Expectations.AllPrerequisitesAreSatisfied(Views(reg), id)
      decreases id
    {
      ghost var exps := Views(reg);
      ViewsAreWellFounded(reg);
      AllSatisfiedUnfolds(exps, id);
      var todo := immediatePrerequisites;
      while todo != {}
        invariant todo <= immediatePrerequisites
        invariant forall p | p in immediatePrerequisites && p !in todo ::
            p.id < |reg| && exps[p.id].IsSatisfied() && Expectations.AllPrerequisitesAreSatisfied(exps, p.id)
      {
        var p :| p in todo;
        assert p.id in exps[id].prereqs;
        if !p.IsSatisfied() {
          return false;
        }
        var below := p.AllPrerequisitesAreSatisfied(reg);
        if !below {
          return false;
        }
        todo := todo - {p};
      }
      return true;
    }

    /** Retires the direct prerequisites and what precedes them; stops early at a retired expectation, which
        is right because nothing is retired before its prerequisites are. */
    method RetireAllPreRequisites(ghost reg: seq<ExpectationBase>)
      requires Registered(reg) && IsAt(reg, this) && RetiredIsClosed(Views(reg))
      modifies reg
      ensures Registered(reg) && WellFounded(old(Views(reg)))
      ensures forall i | 0 <= i < |reg| :: reg[i].immediatePrerequisites == old(reg[i].immediatePrerequisites)
      ensures Views(reg) == Expectations.RetireAllPreRequisites(old(Views(reg)), id)
      decreases id
    {
      ghost var exps := Views(reg);
      ViewsAreWellFounded(reg);
      if retired {
        RetiredNeedsNothing(exps, id);
        return;
      }
      var todo := immediatePrerequisites;
      ghost var finished: set<nat> := {};
      RetireNothing(exps);
      while todo != {}
        invariant Registered(reg) && todo <= immediatePrerequisites
        invariant forall i | 0 <= i < |reg| :: reg[i].immediatePrerequisites == old(reg[i].immediatePrerequisites)
        invariant finished == set p | p in immediatePrerequisites && p !in todo :: p.id
        invariant Views(reg) == RetireDown(exps, finished)
      {
        var p :| p in todo;
        assert reg[p.id] == p && p.id < id;
        RetireDownIsClosed(exps, finished);
        ghost var before := Views(reg);
        RetireIfLive(reg, p);
        RetireDownOneMore(exps, finished, before, Views(reg), p.id);
        finished := finished + {p.id};
        todo := todo - {p};
      }
      assert finished == exps[id].prereqs;
      RetireDownIsRetireAll(exps, id);
    }

    /** One turn of the loop above. */
    method RetireIfLive(ghost reg: seq<ExpectationBase>, p: ExpectationBase)
      requires Registered(reg) && IsAt(reg, p) && RetiredIsClosed(Views(reg)) && p.id < id
      modifies reg
      ensures Registered(reg) && WellFounded(old(Views(reg)))
      ensures forall i | 0 <= i < |reg| :: reg[i].immediatePrerequisites == old(reg[i].immediatePrerequisites)
      ensures Views(reg) ==
        var before := old(Views(reg));
        if before[p.id].retired then before
        else
          var below := Expectations.RetireAllPreRequisites(before, p.id);
          below[p.id := below[p.id].(retired := true)]
      decreases id, 0
    {
      ViewsAreWellFounded(reg);
      if !p.retired {
        p.RetireAllPreRequisites(reg);
        p.Retire(reg);
      }
    }

    /** TupleMatches and the extra matcher. */
    method Matches(args: seq<Matchers.Value>) returns (b: bool)
      requires |args| == |matchers|
      ensures b == View().Accepts(args)
    {
      for i := 0 to |args|
        invariant forall k | 0 <= k < i :: Matchers.Holds(matchers[k], args[k])
      {
        var one := MatchAndExplain.Matches(matchers[i], args[i]);
        if !one {
          return false;
        }
      }
      b := MatchAndExplain.Matches(extraMatcher, Matchers.List(args));
    }

    method ShouldHandleArguments(ghost reg: seq<ExpectationBase>, args: seq<Matchers.Value>) returns (b: bool)
      requires Registered(reg) && IsAt(reg, this) && |args| == |matchers|
      ensures WellFounded(Views(reg))
      ensures b <==> ShouldHandle(Views(reg), id, args)
    {
      ViewsAreWellFounded(reg);
      if retired {
        return false;
      }
      b := AllPrerequisitesAreSatisfied(reg);
      if b {
        b := Matches(args);
      }
    }

    method GetCurrentAction() returns (a: Action)
      requires callCount >= 1
      ensures a == View().CurrentAction()
    {
      a := if callCount <= |untypedActions| then untypedActions[callCount - 1] else repeatedAction;
    }

    method IncrementCallCount(ghost reg: seq<ExpectationBase>)
      requires Registered(reg) && IsAt(reg, this)
      modifies this
      ensures Registered(reg)
      ensures Views(reg) == var e := old(Views(reg)); e[id := e[id].(callCount := e[id].callCount + 1)]
    {
      ghost var exps := Views(reg);
      callCount := callCount + 1;
      assert forall i | 0 <= i < |reg| && i != id :: reg[i].View() == exps[i];
    }

    /** Counts the call, retires, and chooses the action; None is the null action of an excessive call. */
    method GetActionForArguments(ghost reg: seq<ExpectationBase>) returns (action: Option<Action>)
      requires Registered(reg) && IsAt(reg, this) && RetiredIsClosed(Views(reg))
      modifies reg
      ensures Registered(reg) && WellFounded(old(Views(reg)))
      ensures var h := Handle(old(Views(reg)), id);
        Views(reg) == h.exps && h.action == if action.None? then None else Normalize(action.value)
    {
      ghost var exps := Views(reg);
      ViewsAreWellFounded(reg);
      if IsSaturated() {
        IncrementCallCount(reg);
        return None;
      }
      IncrementCallCount(reg);
      CountingKeepsClosed(exps, id);
      var a := RetireAndChoose(reg);
      return Some(a);
    }

    /** The rest of a call that is not excessive, once it is counted. */
    method RetireAndChoose(ghost reg: seq<ExpectationBase>) returns (a: Action)
      requires Registered(reg) && IsAt(reg, this) && RetiredIsClosed(Views(reg)) && callCount >= 1
      modifies reg
      ensures Registered(reg) && WellFounded(old(Views(reg)))
      ensures old(Views(reg))[id].callCount >= 1 && a == old(Views(reg))[id].CurrentAction()
      ensures Views(reg) ==
        var counted := old(Views(reg));
        var below := Expectations.RetireAllPreRequisites(counted, id);
        if counted[id].retiresOnSaturation && counted[id].IsSaturated() then below[id := counted[id].(retired := true)]
        else below
    {
      ghost var counted := Views(reg);
      ViewsAreWellFounded(reg);
      NotItsOwnPrerequisite(counted, id);
      RetireAllPreRequisites(reg);
      assert View() == counted[id];
      if retiresOnSaturation && IsSaturated() {
        Retire(reg);
      }
      a := GetCurrentAction();
    }
  }

  /** A Sequence keeps its last member; copies share it. members is the whole history. */
  class Sequence {
    ghost const id: nat
    var lastExpectation: ExpectationBase?
    ghost var members: seq<ExpectationBase>

    ghost predicate Valid()
      reads this
    {
      lastExpectation == if members == [] then null else members[|members| - 1]
    }

    constructor (ghost id: nat)
      ensures Valid() && members == [] && this.id == id
    {
      this.id := id;
      lastExpectation := null;
      members := [];
    }

    ghost function MemberIds(): seq<nat>
      reads this
    {
      Ids(members)
    }

    static ghost function WithMember(members: seq<ExpectationBase>, e: ExpectationBase): seq<ExpectationBase> {
      if members != [] && members[|members| - 1] == e then members else members + [e]
    }

    /** What joining makes a prerequisite of e. */
    static ghost function Before(members: seq<ExpectationBase>, e: ExpectationBase): set<ExpectationBase> {
      if members == [] || members[|members| - 1] == e then {} else {members[|members| - 1]}
    }

    method AddExpectation(e: ExpectationBase)
      requires Valid() && forall m | m in members && m.id == e.id :: m == e
      modifies this, e`immediatePrerequisites
      ensures Valid() && members == WithMember(old(members), e)
      ensures MemberIds() == Joined(old(MemberIds()), e.id)
      ensures e.immediatePrerequisites == old(e.immediatePrerequisites) + Before(old(members), e)
      ensures e.PrerequisiteIds() == old(e.PrerequisiteIds()) + AddedBySequence(old(MemberIds()), e.id)
    {
      if lastExpectation != e {
        if lastExpectation != null {
          e.immediatePrerequisites := e.immediatePrerequisites + {lastExpectation};
        }
        lastExpectation := e;
        members := members + [e];
      }
    }
  }

  ghost function Ids(es: seq<ExpectationBase>): (r: seq<nat>)
    ensures |r| == |es| && forall i | 0 <= i < |es| :: r[i] == es[i].id
  {
    seq(|es|, i requires 0 <= i < |es| => es[i].id)
  }

  /** es is the part of the registry that belongs to one mock function, in creation order. */
  ghost predicate Lists(es: seq<ExpectationBase>, reg: seq<ExpectationBase>, owner: nat, arity: nat) {
    && (forall k | 0 <= k < |es| :: IsAt(reg, es[k]) && es[k].owner == owner && |es[k].matchers| == arity)
    && (forall j, k | 0 <= j < k < |es| :: es[j].id < es[k].id)
    && (forall i | 0 <= i < |reg| && reg[i].owner == owner :: reg[i] in es)
  }

  lemma ListGrows(es: seq<ExpectationBase>, reg: seq<ExpectationBase>, e: ExpectationBase, arity: nat)
    requires Lists(es, reg, e.owner, arity) && e.id == |reg| && |e.matchers| == arity
    ensures Lists(es + [e], reg + [e], e.owner, arity)
  {
    var es', reg' := es + [e], reg + [e];
    assert forall i | 0 <= i < |reg| && reg[i] in es :: reg'[i] in es';
    assert es'[|es|] == e;
  }

  lemma ListDecides(reg: seq<ExpectationBase>, es: seq<ExpectationBase>, owner: nat, arity: nat)
    requires Registered(reg) && Lists(es, reg, owner, arity)
    ensures Verdicts.Verified(Views(reg), owner) <==> forall j | 0 <= j < |es| :: es[j].IsSatisfied()
  {
    forall i | 0 <= i < |reg| && reg[i].owner == owner
      ensures Views(reg)[i].IsSatisfied() == reg[i].IsSatisfied() && reg[i] in es
    {
    }
    forall j | 0 <= j < |es|
      ensures reg[es[j].id] == es[j] && Views(reg)[es[j].id].IsSatisfied() == es[j].IsSatisfied()
    {
    }
  }

  lemma PositionPast(es: seq<ExpectationBase>, reg: seq<ExpectationBase>, owner: nat, arity: nat, i: nat, k: nat)
      returns (j: nat)
    requires Lists(es, reg, owner, arity) && k <= |es|
    requires i < |reg| && reg[i].id == i && reg[i].owner == owner && (k > 0 ==> es[k - 1].id < i)
    ensures k <= j < |es| && es[j] == reg[i]
  {
    assert forall a | 0 <= a < k :: es[a].id <= es[k - 1].id;
    j :| 0 <= j < |es| && es[j] == reg[i];
  }

  /** FunctionMockerBase: one mock function and the expectations set on it, in creation order. */
  class FunctionMocker {
    const id: nat
    const arity: nat
    var untypedExpectations: seq<ExpectationBase>

    ghost predicate Valid(reg: seq<ExpectationBase>)
      reads this
    {
      Lists(untypedExpectations, reg, id, arity)
    }

    constructor (id: nat, arity: nat)
      ensures this.id == id && this.arity == arity && untypedExpectations == []
    {
      this.id := id;
      this.arity := arity;
      untypedExpectations := [];
    }

    /** Adds an expectation, and puts it into the implicit sequence if there is one. */
    method AddNewExpectation(ghost reg: seq<ExpectationBase>, matchers: seq<Matchers.Matcher>, implicit: Sequence?)
        returns (e: ExpectationBase, ghost reg': seq<ExpectationBase>)
      requires Registered(reg) && Valid(reg) && |matchers| == arity
      requires implicit != null ==> implicit.Valid() && forall m | m in implicit.members :: IsAt(reg, m)
      modifies this, implicit
      ensures fresh(e) && e.id == |reg| && e.owner == id && e.matchers == matchers
      ensures reg' == reg + [e] && Registered(reg') && Valid(reg')
      ensures implicit != null ==>
        && implicit.Valid() && implicit.MemberIds() == Joined(old(implicit.MemberIds()), |reg|)
        && implicit.members == implicit.WithMember(old(implicit.members), e)
      ensures untypedExpectations == old(untypedExpectations) + [e]
      ensures Views(reg') == old(Views(reg)) + [e.View()]
      ensures e.View() == NewExp(id, matchers).(
          prereqs := if implicit == null then {} else AddedBySequence(old(implicit.MemberIds()), |reg|))
    {
      e := Create(reg, id, matchers, implicit);
      Append(reg, e);
      RegistryGrows(reg, e);
      reg' := reg + [e];
    }

    method Append(ghost reg: seq<ExpectationBase>, e: ExpectationBase)
      requires Valid(reg) && e.id == |reg| && e.owner == id && |e.matchers| == arity
      modifies this`untypedExpectations
      ensures Valid(reg + [e]) && untypedExpectations == old(untypedExpectations) + [e]
    {
      ListGrows(untypedExpectations, reg, e, arity);
      untypedExpectations := untypedExpectations + [e];
    }

    static method Create(ghost reg: seq<ExpectationBase>, owner: nat, matchers: seq<Matchers.Matcher>,
                         implicit: Sequence?) returns (e: ExpectationBase)
      requires Registered(reg)
      requires implicit != null ==> implicit.Valid() && forall m | m in implicit.members :: IsAt(reg, m)
      modifies implicit
      ensures fresh(e) && e.id == |reg| && e.owner == owner && e.matchers == matchers
      ensures Registered(reg) && Views(reg) == old(Views(reg))
      ensures forall p | p in e.immediatePrerequisites :: IsAt(reg, p)
      ensures implicit != null ==>
        && implicit.Valid() && implicit.MemberIds() == Joined(old(implicit.MemberIds()), |reg|)
        && implicit.members == implicit.WithMember(old(implicit.members), e)
      ensures e.View() == NewExp(owner, matchers).(
          prereqs := if implicit == null then {} else AddedBySequence(old(implicit.MemberIds()), |reg|))
    {
      ghost var exps := Views(reg);
      e := new ExpectationBase(|reg|, owner, matchers);
      if implicit != null {
        implicit.AddExpectation(e);
      }
      assert forall i | 0 <= i < |reg| :: reg[i] != e && reg[i].View() == exps[i];
    }

    /** What the list rejects from k on, the registry rejects past the expectation before k. */
    lemma NewerDoNotHandle(reg: seq<ExpectationBase>, args: seq<Matchers.Value>, k: nat)
      requires Registered(reg) && Valid(reg) && WellFounded(Views(reg)) && k <= |untypedExpectations|
      requires forall j | k <= j < |untypedExpectations| :: !ShouldHandle(Views(reg), untypedExpectations[j].id, args)
      ensures forall i | 0 <= i < |reg| && reg[i].owner == id && (k > 0 ==> untypedExpectations[k - 1].id < i) ::
          !ShouldHandle(Views(reg), i, args)
    {
      forall i | 0 <= i < |reg| && reg[i].owner == id && (k > 0 ==> untypedExpectations[k - 1].id < i)
        ensures !ShouldHandle(Views(reg), i, args)
      {
        var j := PositionPast(untypedExpectations, reg, id, arity, i, k);
        assert untypedExpectations[j].id == i;
      }
    }

    /** The newest expectation that should handle the call: a reverse walk over this mocker's own list. */
    method FindMatchingExpectationLocked(ghost reg: seq<ExpectationBase>, args: seq<Matchers.Value>)
        returns (exp: ExpectationBase?)
      requires Registered(reg) && Valid(reg) && |args| == arity
      ensures WellFounded(Views(reg))
      ensures FindMatching(Views(reg), id, args, |reg|) == if exp == null then None else Some(exp.id)
      ensures exp != null ==> IsAt(reg, exp)
    {
      ghost var exps := Views(reg);
      ViewsAreWellFounded(reg);
      var k := |untypedExpectations|;
      while k > 0
        invariant 0 <= k <= |untypedExpectations|
        invariant forall j | k <= j < |untypedExpectations| :: !ShouldHandle(exps, untypedExpectations[j].id, args)
      {
        k := k - 1;
        exp := untypedExpectations[k];
        var handles := exp.ShouldHandleArguments(reg, args);
        if handles {
          NewerDoNotHandle(reg, args, k + 1);
          NewestIsFound(exps, id, args, Some(exp.id));
          return;
        }
      }
      NewerDoNotHandle(reg, args, 0);
      NewestIsFound(exps, id, args, None);
      return null;
    }

    /** VerifyAndClearExpectationsLocked up to the clearing: asks every expectation of this mock function. */
    method VerifyExpectations(ghost reg: seq<ExpectationBase>) returns (ok: bool)
      requires Registered(reg) && Valid(reg)
      ensures ok <==> Verdicts.Verified(Views(reg), id)
    {
      ok := true;
      for k := 0 to |untypedExpectations|
        invariant ok <==> forall j | 0 <= j < k :: untypedExpectations[j].IsSatisfied()
      {
        if !untypedExpectations[k].IsSatisfied() {
          ok := false;
        }
      }
      ListDecides(reg, untypedExpectations, id, arity);
    }

    /** One call of the mock function: the atomic step of the state machine. */
    method UntypedFindMatchingExpectation(ghost reg: seq<ExpectationBase>, args: seq<Matchers.Value>)
        returns (exp: ExpectationBase?, untypedAction: Option<Action>, isExcessive: bool)
      requires Registered(reg) && Valid(reg) && |args| == arity
      requires RetiredIsClosed(Views(reg))
      modifies reg
      ensures Registered(reg) && Valid(reg) && WellFounded(old(Views(reg)))
      ensures exp == null ==>
        FindMatching(old(Views(reg)), id, args, |reg|) == None && Views(reg) == old(Views(reg))
      ensures exp != null ==>
        IsAt(reg, exp) && FindMatching(old(Views(reg)), id, args, |reg|) == Some(exp.id)
        && Handle(old(Views(reg)), exp.id) == Handling(Views(reg), untypedAction, isExcessive)
    {
      untypedAction, isExcessive := None, false;
      exp := FindMatchingExpectationLocked(reg, args);
      if exp != null {
        isExcessive := exp.IsSaturated();
        var action := exp.GetActionForArguments(reg);
        if action.Some? && !action.value.DoDefault? {
          untypedAction := action;
        }
      }
    }
  }

  /** The search of the state machine is pinned down by newest and should-handle. */
  lemma {:induction false} NewestIsFound(exps: seq<Exp>, mocker: nat, args: seq<Matchers.Value>, r: Option<nat>)
    requires WellFounded(exps)
    requires r.Some? ==> r.value < |exps| && exps[r.value].mocker == mocker && ShouldHandle(exps, r.value, args)
    requires forall i | (if r.Some? then r.value < i else 0 <= i) && i < |exps| && exps[i].mocker == mocker ::
        !ShouldHandle(exps, i, args)
    ensures FindMatching(exps, mocker, args, |exps|) == r
  {
    var found := FindMatching(exps, mocker, args, |exps|);
  }
}
