/** What every step of the engine keeps. */
module ExpectationInvariants {
  import opened Options
  import opened Cardinalities
  import opened Expectations
  import Matchers

  /** With an expectation, all its direct prerequisites are retired too. */
  ghost predicate RetiredIsClosed(exps: seq<Exp>) {
    forall i, p | 0 <= i < |exps| && p in exps[i].prereqs :: 0 <= p < |exps| && exps[i].retired ==> exps[p].retired
  }

  /** Without Times and WillRepeatedly, the cardinality counts the WillOnce clauses. */
  predicate CardinalityCountsActions(e: Exp) {
    !e.cardSpecified && !e.repeatedSpecified ==> e.card == Exactly(if e.actions == [] then 1 else |e.actions|)
  }

  /** The invariant of one expectation. */
  ghost predicate ExpOk(e: Exp) {
    && e.card.Valid()
    && (e.retired ==> e.IsSatisfied())
    && (e.retiresOnSaturation && e.card.upper >= 1 ==>
          e.callCount <= e.card.upper && (e.callCount == e.card.upper ==> e.retired))
    && CardinalityCountsActions(e)
  }

  /** Members of a sequence get younger, and each is a direct prerequisite of the next. */
  ghost predicate SequenceOk(exps: seq<Exp>, members: seq<nat>) {
    && (forall k | 0 <= k < |members| :: members[k] < |exps|)
    && (forall k | 0 < k < |members| :: members[k - 1] < members[k] && members[k - 1] in exps[members[k]].prereqs)
  }

  ghost predicate Inv(s: State) {
    && WellFounded(s.exps)
    && RetiredIsClosed(s.exps)
    && (forall i | 0 <= i < |s.exps| :: ExpOk(s.exps[i]))
    && (forall q | q in s.seqs :: SequenceOk(s.exps, s.seqs[q]))
    && (s.open ==> |s.exps| > 0 && s.exps[|s.exps| - 1].callCount == 0 && !s.exps[|s.exps| - 1].retired)
  }

  // ---------- The prerequisite relation ----------

  ghost predicate SamePrereqs(exps: seq<Exp>, exps': seq<Exp>, n: nat)
    requires n <= |exps| && n <= |exps'|
  {
    forall k | 0 <= k < n :: exps[k].prereqs == exps'[k].prereqs
  }

  /** It depends on the recorded prerequisites of older expectations only. */
  lemma {:induction false} PrecedesDependsOnPrereqs(exps: seq<Exp>, exps': seq<Exp>, a: nat, i: nat)
    requires WellFounded(exps) && WellFounded(exps') && i < |exps| && i < |exps'|
    requires SamePrereqs(exps, exps', i + 1)
    ensures Precedes(exps, a, i) == Precedes(exps', a, i)
    decreases i
  {
    forall p | p in exps[i].prereqs && p < i ensures Precedes(exps, a, p) == Precedes(exps', a, p) {
      PrecedesDependsOnPrereqs(exps, exps', a, p);
    }
  }

  lemma {:induction false} PrecedesIsOlder(exps: seq<Exp>, a: nat, i: nat)
    requires WellFounded(exps) && i < |exps| && Precedes(exps, a, i)
    ensures a < i
    decreases i
  {
    if a !in exps[i].prereqs {
      var p :| p in exps[i].prereqs && p < i && Precedes(exps, a, p);
      PrecedesIsOlder(exps, a, p);
    }
  }

  lemma {:induction false} PrecedesIsTransitive(exps: seq<Exp>, a: nat, b: nat, i: nat)
    requires WellFounded(exps) && b < i < |exps| && Precedes(exps, a, b) && Precedes(exps, b, i)
    ensures Precedes(exps, a, i)
    decreases i
  {
    if b !in exps[i].prereqs {
      var p :| p in exps[i].prereqs && p < i && Precedes(exps, b, p);
      PrecedesIsOlder(exps, b, p);
      PrecedesIsTransitive(exps, a, b, p);
    }
  }

  /** Retiring is closed under the whole relation, not just its single steps. */
  lemma {:induction false} RetiredPrecedes(exps: seq<Exp>, a: nat, i: nat)
    requires WellFounded(exps) && RetiredIsClosed(exps) && i < |exps|
    requires exps[i].retired && Precedes(exps, a, i)
    ensures a < i && exps[a].retired
    decreases i
  {
    PrecedesIsOlder(exps, a, i);
    if a !in exps[i].prereqs {
      var p :| p in exps[i].prereqs && p < i && Precedes(exps, a, p);
      RetiredPrecedes(exps, a, p);
    }
  }

  // ---------- One call ----------

  /** Only the call count and the retired flag differ. */
  predicate SameSpec(e: Exp, e': Exp) {
    e' == e.(callCount := e'.callCount, retired := e'.retired)
  }

  /** The whole effect of a handled call. */
  lemma HandleEffect(exps: seq<Exp>, i: nat)
    requires WellFounded(exps) && i < |exps|
    ensures var h := Handle(exps, i);
      && |h.exps| == |exps| && WellFounded(h.exps)
      && h.excessive == exps[i].IsSaturated()
      && forall k: nat | k < |exps| ::
           && SameSpec(exps[k], h.exps[k])
           && h.exps[k].callCount == exps[k].callCount + (if k == i then 1 else 0)
           && (h.exps[k].retired <==>
                 || exps[k].retired
                 || (!h.excessive && Precedes(exps, k, i))
                 || (!h.excessive && k == i && exps[i].retiresOnSaturation && h.exps[i].IsSaturated()))
  {
    var counted := Counted(exps, i);
    if Precedes(exps, i, i) {
      PrecedesIsOlder(exps, i, i);
    }
    if !exps[i].IsSaturated() {
      var before := RetireAllPreRequisites(counted, i);
      assert before[i] == counted[i];
    }
  }

  ghost function Counted(exps: seq<Exp>, i: nat): (counted: seq<Exp>)
    requires WellFounded(exps) && i < |exps|
    ensures counted == exps[i := exps[i].(callCount := exps[i].callCount + 1)]
    ensures WellFounded(counted)
    ensures forall k: nat | k < |exps| :: Precedes(counted, k, i) == Precedes(exps, k, i)
  {
    var counted := exps[i := exps[i].(callCount := exps[i].callCount + 1)];
    assert WellFounded(counted);
    assert forall k: nat | k < |exps| :: Precedes(counted, k, i) == Precedes(exps, k, i) by {
      forall k: nat | k < |exps| ensures Precedes(counted, k, i) == Precedes(exps, k, i) {
        PrecedesDependsOnPrereqs(exps, counted, k, i);
      }
    }
    counted
  }

  lemma HandledKeepsClosed(exps: seq<Exp>, i: nat)
    requires WellFounded(exps) && RetiredIsClosed(exps) && i < |exps|
    ensures WellFounded(Handle(exps, i).exps) && RetiredIsClosed(Handle(exps, i).exps)
  {
    var exps' := Handle(exps, i).exps;
    HandleEffect(exps, i);
    forall k, p | 0 <= k < |exps'| && p in exps'[k].prereqs && exps'[k].retired && 0 <= p < |exps'|
      ensures exps'[p].retired
    {
      HandledStaysClosed(exps, i, k, p);
    }
  }

  /** A call that is not excessive retires all prerequisites, found satisfied, of its handler. */
  lemma CallKeepsInv(s: State, mocker: nat, args: seq<Matchers.Value>)
    requires Inv(s)
    ensures Inv(Next(s, Call(mocker, args)))
  {
    var r := FindMatching(s.exps, mocker, args, |s.exps|);
    if r.Some? {
      var i, exps' := r.value, Handle(s.exps, r.value).exps;
      HandleEffect(s.exps, i);
      HandledKeepsClosed(s.exps, i);
      forall k | 0 <= k < |exps'| ensures ExpOk(exps'[k]) {
        HandledStaysOk(s.exps, i, k);
      }
      forall q | q in s.seqs ensures SequenceOk(exps', s.seqs[q]) {
        SequenceStaysOk(s.exps, exps', s.seqs[q]);
      }
    }
  }

  lemma HandledStaysClosed(exps: seq<Exp>, i: nat, k: nat, p: nat)
    requires WellFounded(exps) && RetiredIsClosed(exps) && i < |exps| && k < |exps| && p in exps[k].prereqs
    requires Handle(exps, i).exps[k].retired
    ensures Handle(exps, i).exps[p].retired
  {
    HandleEffect(exps, i);
    assert Precedes(exps, p, k);
    if !exps[k].retired && k != i {
      PrecedesIsOlder(exps, k, i);
      PrecedesIsTransitive(exps, p, k, i);
    }
  }

  lemma HandledStaysOk(exps: seq<Exp>, i: nat, k: nat)
    requires WellFounded(exps) && i < |exps| && k < |exps| && ExpOk(exps[k])
    requires !exps[i].retired && AllPrerequisitesAreSatisfied(exps, i)
    ensures ExpOk(Handle(exps, i).exps[k])
  {
    HandleEffect(exps, i);
    if k != i && Precedes(exps, k, i) {
      PrecedesIsOlder(exps, k, i);
      assert exps[k].IsSatisfied();
    }
    if k == i && Precedes(exps, i, i) {
      PrecedesIsOlder(exps, i, i);
    }
  }

  // ---------- Writing expectations ----------

  /** A clause on an expectation that has not been called keeps its own invariant. */
  lemma ClauseKeepsOk(e: Exp, c: ClauseCall, added: set<nat>)
    requires ExpOk(e) && e.callCount == 0 && !e.retired
    requires c.Times? ==> c.card.Valid()
    ensures ExpOk(Apply(e, c, added)) && Apply(e, c, added).callCount == 0 && !Apply(e, c, added).retired
  {
  }

  /** Prerequisites only grow and expectations are only added. */
  ghost predicate Grown(exps: seq<Exp>, exps': seq<Exp>) {
    |exps| <= |exps'| && forall k | 0 <= k < |exps| :: exps[k].prereqs <= exps'[k].prereqs
  }

  lemma SequenceStaysOk(exps: seq<Exp>, exps': seq<Exp>, members: seq<nat>)
    requires SequenceOk(exps, members) && Grown(exps, exps')
    ensures SequenceOk(exps', members)
  {
  }

  /** Adding the newest expectation to a sequence. */
  lemma JoinedIsOk(exps: seq<Exp>, members: seq<nat>, i: nat)
    requires SequenceOk(exps, members) && i + 1 == |exps|
    requires AddedBySequence(members, i) <= exps[i].prereqs
    ensures SequenceOk(exps, Joined(members, i))
  {
    var last := |members| - 1;
    if members != [] && members[last] != i {
      assert members[last] in AddedBySequence(members, i);
    }
  }

  lemma MembersAreOk(s: State, q: nat)
    requires Inv(s)
    ensures SequenceOk(s.exps, s.Members(q))
  {
  }

  /** Replacing the newest expectation, or adding one, keeps the relation well founded and closed. */
  lemma NewestMayChange(exps: seq<Exp>, exps': seq<Exp>, i: nat)
    requires WellFounded(exps) && RetiredIsClosed(exps)
    requires i + 1 == |exps'| && i <= |exps| <= i + 1
    requires forall k | 0 <= k < i :: exps'[k] == exps[k]
    requires !exps'[i].retired && forall p | p in exps'[i].prereqs :: p < i
    ensures WellFounded(exps') && RetiredIsClosed(exps')
  {
  }

  lemma ExpectKeepsInv(s: State, mocker: nat, matchers: seq<Matchers.Matcher>, implicit: Option<nat>)
    requires Inv(s)
    ensures Inv(Next(s, Expect(mocker, matchers, implicit)))
  {
    var s' := Next(s, Expect(mocker, matchers, implicit));
    var i := |s.exps|;
    if implicit.Some? {
      MembersAreOk(s, implicit.value);
      SequenceStaysOk(s.exps, s'.exps, s.Members(implicit.value));
      JoinedIsOk(s'.exps, s.Members(implicit.value), i);
    }
    NewestMayChange(s.exps, s'.exps, i);
    forall q | q in s'.seqs ensures SequenceOk(s'.exps, s'.seqs[q]) {
      if implicit != Some(q) {
        SequenceStaysOk(s.exps, s'.exps, s.seqs[q]);
      }
    }
  }

  lemma ChainKeepsInv(s: State, c: ClauseCall)
    requires Inv(s) && Enabled(s, Chain(c))
    ensures Inv(Next(s, Chain(c)))
  {
    var s' := Next(s, Chain(c));
    var i := |s.exps| - 1;
    var added := if c.InSequence? then AddedBySequence(s.Members(c.q), i) else {};
    ClauseKeepsOk(s.exps[i], c, added);
    if c.InSequence? {
      MembersAreOk(s, c.q);
      SequenceStaysOk(s.exps, s'.exps, s.Members(c.q));
      JoinedIsOk(s'.exps, s.Members(c.q), i);
    }
    NewestMayChange(s.exps, s'.exps, i);
    forall q | q in s'.seqs ensures SequenceOk(s'.exps, s'.seqs[q]) {
      if !c.InSequence? || c.q != q {
        SequenceStaysOk(s.exps, s'.exps, s.seqs[q]);
      }
    }
  }

  /** Every step keeps the invariant. */
  lemma StepKeepsInv(s: State, ev: Event)
    requires Inv(s) && Enabled(s, ev)
    ensures Inv(Next(s, ev))
  {
    match ev
    case Expect(mocker, matchers, implicit) => ExpectKeepsInv(s, mocker, matchers, implicit);
    case Chain(c) => ChainKeepsInv(s, c);
    case Call(mocker, args) => CallKeepsInv(s, mocker, args);
  }

  /** What no step undoes: expectations stay, retirement and the call count of the retired are final, and
      once a statement is finished its prerequisites and script stand. */
  lemma StepIsMonotone(s: State, ev: Event)
    requires Inv(s) && Enabled(s, ev)
    ensures var s' := Next(s, ev);
      && |s.exps| <= |s'.exps|
      && forall k: nat | k < |s.exps| ::
           && (s.exps[k].retired ==> s'.exps[k].retired && s'.exps[k].callCount == s.exps[k].callCount)
           && (!s.open || k < |s.exps| - 1 ==> SameSpec(s.exps[k], s'.exps[k]))
           && (s'.open && k == |s'.exps| - 1 ==> s.open)
  {
    if ev.Call? {
      var r := FindMatching(s.exps, ev.mocker, ev.args, |s.exps|);
      if r.Some? {
        HandleEffect(s.exps, r.value);
      }
    }
  }
}
