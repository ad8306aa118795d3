/** A test program over the objects of SpecBuilders: mock functions, sequences, and every expectation set so far.
    Each of its operations is one step of the state machine, so whatever a program does is a run, and the
    laws of ExpectationRuns and Verdicts hold of its objects. */
module MockPrograms {
  import opened Options
  import opened Expectations
  import opened ExpectationInvariants
  import opened ExpectationRuns
  import opened SpecBuilders
  import CallsInWords
  import Matchers
  import Verdicts

  type Members = map<nat, seq<ExpectationBase>>

  /** The sequences that have members, as the state machine keeps them. */
  ghost function SequenceIds(joined: Members): (r: map<nat, seq<nat>>)
    ensures forall q :: q in r <==> q in joined && joined[q] != []
    ensures forall q | q in r :: r[q] == Ids(joined[q])
  {
    map q | q in joined && joined[q] != [] :: Ids(joined[q])
  }

  ghost predicate AllAt(reg: seq<ExpectationBase>, es: seq<ExpectationBase>) {
    forall e | e in es :: IsAt(reg, e)
  }

  ghost predicate AllJoined(reg: seq<ExpectationBase>, joined: Members) {
    forall q | q in joined :: AllAt(reg, joined[q])
  }

  /** Each mock function lists its own expectations, and every expectation belongs to one. */
  ghost predicate AllListed(reg: seq<ExpectationBase>, listed: Members, arities: map<nat, nat>) {
    && listed.Keys == arities.Keys
    && (forall m | m in listed :: Lists(listed[m], reg, m, arities[m]))
    && (forall i | 0 <= i < |reg| :: reg[i].owner in listed)
  }

  lemma ListStays(es: seq<ExpectationBase>, reg: seq<ExpectationBase>, e: ExpectationBase, owner: nat, arity: nat)
    requires Lists(es, reg, owner, arity) && e.owner != owner
    ensures Lists(es, reg + [e], owner, arity)
  {
    assert forall i | 0 <= i < |reg| :: (reg + [e])[i] == reg[i];
  }

  lemma ListedGrows(reg: seq<ExpectationBase>, e: ExpectationBase, listed: Members, arities: map<nat, nat>)
    requires AllListed(reg, listed, arities) && e.owner in listed
    requires e.id == |reg| && |e.matchers| == arities[e.owner]
    ensures AllListed(reg + [e], listed[e.owner := listed[e.owner] + [e]], arities)
  {
    var listed' := listed[e.owner := listed[e.owner] + [e]];
    assert listed'.Keys == listed.Keys;
    forall m | m in listed' ensures Lists(listed'[m], reg + [e], m, arities[m]) {
      if m == e.owner {
        ListGrows(listed[m], reg, e, arities[m]);
      } else {
        ListStays(listed[m], reg, e, m, arities[m]);
      }
    }
  }

  lemma JoinedGrows(reg: seq<ExpectationBase>, e: ExpectationBase, joined: Members)
    requires AllJoined(reg, joined)
    ensures AllJoined(reg + [e], joined)
  {
    forall q | q in joined ensures AllAt(reg + [e], joined[q]) {
      assert AllAt(reg, joined[q]);
    }
  }

  lemma MemberJoins(reg: seq<ExpectationBase>, e: ExpectationBase, joined: Members, q: nat)
    requires AllJoined(reg, joined) && IsAt(reg, e) && q in joined
    ensures AllJoined(reg, joined[q := Sequence.WithMember(joined[q], e)])
    ensures SequenceIds(joined[q := Sequence.WithMember(joined[q], e)])
         == SequenceIds(joined)[q := Joined(if joined[q] == [] then [] else Ids(joined[q]), e.id)]
  {
    assert AllAt(reg, joined[q]);
    var members := Sequence.WithMember(joined[q], e);
    assert AllAt(reg, members);
    IdsJoin(reg, joined[q], e);
    assert SequenceIds(joined[q := members]) == SequenceIds(joined)[q := Ids(members)];
  }

  lemma IdsJoin(reg: seq<ExpectationBase>, members: seq<ExpectationBase>, e: ExpectationBase)
    requires AllAt(reg, members) && IsAt(reg, e)
    ensures Ids(Sequence.WithMember(members, e)) == Joined(Ids(members), e.id)
  {
    if members != [] {
      assert IsAt(reg, members[|members| - 1]);
    }
  }

  // ---------- The objects ----------

  ghost predicate MockersMirror(mockers: map<nat, FunctionMocker>, listed: Members)
    reads mockers.Values
  {
    && mockers.Keys == listed.Keys
    && (forall m | m in mockers :: mockers[m].id == m && mockers[m].untypedExpectations == listed[m])
  }

  ghost predicate SequencesMirror(sequences: map<nat, Sequence>, joined: Members)
    reads sequences.Values
  {
    && sequences.Keys == joined.Keys
    && (forall q | q in sequences :: sequences[q].id == q && sequences[q].Valid() && sequences[q].members == joined[q])
  }

  function Arities(mockers: map<nat, FunctionMocker>): map<nat, nat> {
    map m | m in mockers :: mockers[m].arity
  }

  /** The member lists after an expectation has joined the implicit sequence, if there is one. */
  ghost function JoinedBy(joined: Members, implicit: Option<nat>, e: ExpectationBase): Members
    requires implicit.Some? ==> implicit.value in joined
  {
    if implicit.Some? then joined[implicit.value := Sequence.WithMember(joined[implicit.value], e)] else joined
  }

  /** AddNewExpectation on one of the mock functions. */
  method AddToMocker(mockers: map<nat, FunctionMocker>, ghost listed: Members, ghost reg: seq<ExpectationBase>,
                     mocker: nat, matchers: seq<Matchers.Matcher>, implicit: Sequence?) returns (e: ExpectationBase)
    requires MockersMirror(mockers, listed) && Registered(reg)
    requires mocker in mockers && |matchers| == mockers[mocker].arity
    requires Lists(listed[mocker], reg, mocker, mockers[mocker].arity)
    requires implicit != null ==> implicit.Valid() && AllAt(reg, implicit.members)
    modifies mockers[mocker], implicit
    ensures fresh(e) && e.id == |reg| && e.owner == mocker && e.matchers == matchers && Registered(reg + [e])
    ensures Views(reg + [e]) == old(Views(reg)) + [NewExp(mocker, matchers).(
        prereqs := if implicit == null then {} else AddedBySequence(old(implicit.MemberIds()), |reg|))]
    ensures MockersMirror(mockers, listed[mocker := listed[mocker] + [e]])
    ensures implicit != null ==>
      implicit.Valid() && implicit.members == implicit.WithMember(old(implicit.members), e)
  {
    ghost var reg';
    e, reg' := mockers[mocker].AddNewExpectation(reg, matchers, implicit);
  }

  // ---------- One step on the objects ----------

  ghost predicate Fits(reg: seq<ExpectationBase>, mockers: map<nat, FunctionMocker>, sequences: map<nat, Sequence>,
                       listed: Members, joined: Members)
    reads reg, mockers.Values, sequences.Values
  {
    && Registered(reg)
    && MockersMirror(mockers, listed) && AllListed(reg, listed, Arities(mockers))
    && SequencesMirror(sequences, joined) && AllJoined(reg, joined)
  }

  /** The state of the state machine that the objects stand for. */
  ghost function StateOf(reg: seq<ExpectationBase>, joined: Members, open: bool): State
    reads reg
  {
    State(Views(reg), SequenceIds(joined), open)
  }

  /** The heap part of an EXPECT_CALL: the mock function's list and the sequence grow. */
  method ExpectOnObjects(ghost reg: seq<ExpectationBase>, mockers: map<nat, FunctionMocker>,
                         sequences: map<nat, Sequence>, ghost listed: Members, ghost joined: Members,
                         mocker: nat, matchers: seq<Matchers.Matcher>, implicit: Option<nat>)
      returns (e: ExpectationBase)
    requires Fits(reg, mockers, sequences, listed, joined)
    requires mocker in mockers && |matchers| == mockers[mocker].arity
    requires implicit.Some? ==> implicit.value in sequences
    modifies mockers.Values, sequences.Values
    ensures fresh(e) && e.id == |reg| && e.owner == mocker && e.matchers == matchers && Registered(reg + [e])
    ensures Views(reg + [e]) == old(Views(reg)) + [ExpectedRecord(joined, |reg|, mocker, matchers, implicit)]
    ensures MockersMirror(mockers, listed[mocker := listed[mocker] + [e]])
    ensures SequencesMirror(sequences, JoinedBy(joined, implicit, e))
  {
    var s: Sequence? := if implicit.Some? then sequences[implicit.value] else null;
    assert s != null ==> AllAt(reg, joined[implicit.value]);
    e := AddToMocker(mockers, listed, reg, mocker, matchers, s);
  }

  ghost function ExpectedRecord(joined: Members, i: nat, mocker: nat, matchers: seq<Matchers.Matcher>,
                                implicit: Option<nat>): Exp
    requires implicit.Some? ==> implicit.value in joined
  {
    NewExp(mocker, matchers).(
      prereqs := if implicit.None? then {} else AddedBySequence(Ids(joined[implicit.value]), i))
  }

  lemma ExpectedState(exps: seq<Exp>, reg: seq<ExpectationBase>, joined: Members, open: bool, e: ExpectationBase,
                      mocker: nat, matchers: seq<Matchers.Matcher>, implicit: Option<nat>)
    requires AllJoined(reg, joined) && IsAt(reg, e) && e.id == |exps|
    requires implicit.Some? ==> implicit.value in joined
    ensures AllJoined(reg, JoinedBy(joined, implicit, e))
    ensures State(exps + [ExpectedRecord(joined, |exps|, mocker, matchers, implicit)],
                  SequenceIds(JoinedBy(joined, implicit, e)), true)
         == AddExpectation(State(exps, SequenceIds(joined), open), mocker, matchers, implicit)
  {
    if implicit.Some? {
      MemberJoins(reg, e, joined, implicit.value);
    }
  }

  method ExpectOn(ghost reg: seq<ExpectationBase>, mockers: map<nat, FunctionMocker>, sequences: map<nat, Sequence>,
                  ghost listed: Members, ghost joined: Members, ghost open: bool,
                  mocker: nat, matchers: seq<Matchers.Matcher>, implicit: Option<nat>)
      returns (e: ExpectationBase, ghost listed': Members, ghost joined': Members)
    requires Fits(reg, mockers, sequences, listed, joined)
    requires mocker in mockers && |matchers| == mockers[mocker].arity
    requires implicit.Some? ==> implicit.value in sequences
    modifies mockers.Values, sequences.Values
    ensures fresh(e) && Fits(reg + [e], mockers, sequences, listed', joined')
    ensures WellFounded(old(Views(reg)))
    ensures StateOf(reg + [e], joined', true)
         == Next(old(StateOf(reg, joined, open)), Expect(mocker, matchers, implicit))
  {
    ViewsAreWellFounded(reg);
    ghost var exps := Views(reg);
    e := ExpectOnObjects(reg, mockers, sequences, listed, joined, mocker, matchers, implicit);
    ListedGrows(reg, e, listed, Arities(mockers));
    JoinedGrows(reg, e, joined);
    ExpectedState(exps, reg + [e], joined, open, e, mocker, matchers, implicit);
    listed' := listed[mocker := listed[mocker] + [e]];
    joined' := JoinedBy(joined, implicit, e);
  }

  /** The expectations with the given numbers. */
  function Named(reg: seq<ExpectationBase>, es: set<nat>): (named: set<ExpectationBase>)
    requires forall i | i in es :: i < |reg| && reg[i].id == i
    ensures (set e | e in named :: e.id) == es
    ensures forall e | e in named :: e.id in es && IsAt(reg, e)
  {
    var named := set i | i in es :: reg[i];
    assert forall i | i in es :: reg[i] in named;
    named
  }

  method AfterOn(e: ExpectationBase, reg: seq<ExpectationBase>, es: set<nat>)
    requires Registered(reg) && IsAt(reg, e) && forall i | i in es :: i < e.id
    modifies e
    ensures e.View() == Apply(old(e.View()), ClauseCall.After(es), {})
    ensures forall p | p in e.immediatePrerequisites && p !in old(e.immediatePrerequisites) ::
      p.id < e.id && IsAt(reg, p)
  {
    var named := Named(reg, es);
    e.After(named);
  }

  /** The clauses other than InSequence, on an expectation object. */
  method ApplyOn(e: ExpectationBase, reg: seq<ExpectationBase>, c: ClauseCall)
    requires !c.InSequence? && Registered(reg) && IsAt(reg, e)
    requires c.After? ==> forall i | i in c.es :: i < e.id
    modifies e
    ensures e.View() == Apply(old(e.View()), c, {})
    ensures forall p | p in e.immediatePrerequisites && p !in old(e.immediatePrerequisites) ::
      p.id < e.id && IsAt(reg, p)
  {
    match c
    case With(m) => e.With(m);
    case Times(card) => e.Times(card);
    case After(es) => AfterOn(e, reg, es);
    case WillOnce(a) => e.WillOnce(a);
    case WillRepeatedly(a) => e.WillRepeatedly(a);
    case RetiresOnSaturation => e.RetiresOnSaturation();
  }

  lemma OnlyLastChanged(reg: seq<ExpectationBase>, exps: seq<Exp>)
    requires |exps| == |reg| > 0 && forall i | 0 <= i < |reg| - 1 :: reg[i].View() == exps[i]
    ensures Views(reg) == exps[|reg| - 1 := reg[|reg| - 1].View()]
  {
  }

  /** What holds of a registry member holds of e, and nobody else has its number. */
  lemma SoleMember(reg: seq<ExpectationBase>, members: seq<ExpectationBase>, e: ExpectationBase)
    requires IsAt(reg, e) && AllAt(reg, members)
    ensures forall m | m in members && m.id == e.id :: m == e
    ensures forall p | p in Sequence.Before(members, e) :: IsAt(reg, p) && p != e
  {
    forall m | m in members && m.id == e.id ensures m == e {
      assert IsAt(reg, m);
    }
    if members != [] {
      assert IsAt(reg, members[|members| - 1]);
    }
  }

  method PlainClauseOn(reg: seq<ExpectationBase>, c: ClauseCall)
    requires !c.InSequence? && Registered(reg) && |reg| > 0
    requires c.After? ==> forall i | i in c.es :: i < |reg| - 1
    modifies reg[|reg| - 1]
    ensures Registered(reg)
    ensures Views(reg) == var exps := old(Views(reg)); exps[|reg| - 1 := Apply(exps[|reg| - 1], c, {})]
  {
    ghost var exps := Views(reg);
    ApplyOn(reg[|reg| - 1], reg, c);
    OnlyLastChanged(reg, exps);
  }

  method InSequenceOn(reg: seq<ExpectationBase>, s: Sequence, ghost q: nat)
    requires Registered(reg) && |reg| > 0 && s.Valid() && AllAt(reg, s.members)
    modifies reg[|reg| - 1], s
    ensures Registered(reg) && s.Valid() && s.members == s.WithMember(old(s.members), reg[|reg| - 1])
    ensures Views(reg) == var exps := old(Views(reg));
      var added := AddedBySequence(old(s.MemberIds()), |reg| - 1);
      exps[|reg| - 1 := Apply(exps[|reg| - 1], ClauseCall.InSequence(q), added)]
  {
    ghost var exps := Views(reg);
    var e := reg[|reg| - 1];
    SoleMember(reg, s.members, e);
    e.InSequence(s, q);
    OnlyLastChanged(reg, exps);
  }

  method JoinOn(reg: seq<ExpectationBase>, sequences: map<nat, Sequence>, ghost joined: Members, q: nat)
    requires Registered(reg) && |reg| > 0 && q in sequences
    requires SequencesMirror(sequences, joined) && AllAt(reg, joined[q])
    modifies reg[|reg| - 1], sequences[q]
    ensures Registered(reg)
    ensures SequencesMirror(sequences, joined[q := Sequence.WithMember(joined[q], reg[|reg| - 1])])
    ensures Views(reg) == var exps := old(Views(reg));
      exps[|reg| - 1 := Apply(exps[|reg| - 1], ClauseCall.InSequence(q), AddedBySequence(Ids(joined[q]), |reg| - 1))]
  {
    InSequenceOn(reg, sequences[q], q);
  }

  lemma ChainedState(exps: seq<Exp>, reg: seq<ExpectationBase>, joined: Members, open: bool, q: nat)
    requires AllJoined(reg, joined) && Registered(reg) && |exps| == |reg| > 0 && q in joined
    ensures var last := |reg| - 1;
      var joined' := joined[q := Sequence.WithMember(joined[q], reg[last])];
      && AllJoined(reg, joined')
      && State(exps[last := Apply(exps[last], ClauseCall.InSequence(q), AddedBySequence(Ids(joined[q]), last))],
               SequenceIds(joined'), open)
         == ApplyClause(State(exps, SequenceIds(joined), open), ClauseCall.InSequence(q))
  {
    MemberJoins(reg, reg[|reg| - 1], joined, q);
  }

  /** A clause of the statement being written. */
  method ChainOn(reg: seq<ExpectationBase>, mockers: map<nat, FunctionMocker>, sequences: map<nat, Sequence>,
                 ghost listed: Members, ghost joined: Members, ghost open: bool, c: ClauseCall)
      returns (ghost joined': Members)
    requires Fits(reg, mockers, sequences, listed, joined)
    requires Enabled(StateOf(reg, joined, open), Chain(c)) && (c.InSequence? ==> c.q in sequences)
    modifies reg, sequences.Values
    ensures Fits(reg, mockers, sequences, listed, joined') && WellFounded(old(Views(reg)))
    ensures StateOf(reg, joined', open) == Next(old(StateOf(reg, joined, open)), Chain(c))
  {
    ViewsAreWellFounded(reg);
    if c.InSequence? {
      joined' := ChainInSequenceOn(reg, mockers, sequences, listed, joined, open, c.q);
    } else {
      ChainPlainOn(reg, mockers, sequences, listed, joined, open, c);
      joined' := joined;
    }
  }

  method ChainPlainOn(reg: seq<ExpectationBase>, ghost mockers: map<nat, FunctionMocker>,
                      ghost sequences: map<nat, Sequence>, ghost listed: Members, ghost joined: Members,
                      ghost open: bool, c: ClauseCall)
    requires Fits(reg, mockers, sequences, listed, joined) && |reg| > 0 && !c.InSequence?
    requires c.After? ==> forall i | i in c.es :: i < |reg| - 1
    modifies reg[|reg| - 1]
    ensures Registered(reg) && MockersMirror(mockers, listed) && SequencesMirror(sequences, joined)
    ensures StateOf(reg, joined, open) == ApplyClause(old(StateOf(reg, joined, open)), c)
  {
    ghost var exps := Views(reg);
    PlainClauseOn(reg, c);
    PlainState(exps, SequenceIds(joined), open, c);
  }

  lemma PlainState(exps: seq<Exp>, seqs: map<nat, seq<nat>>, open: bool, c: ClauseCall)
    requires exps != [] && !c.InSequence?
    ensures State(exps[|exps| - 1 := Apply(exps[|exps| - 1], c, {})], seqs, open)
         == ApplyClause(State(exps, seqs, open), c)
  {
  }

  method ChainInSequenceOn(reg: seq<ExpectationBase>, ghost mockers: map<nat, FunctionMocker>,
                           sequences: map<nat, Sequence>, ghost listed: Members, ghost joined: Members,
                           ghost open: bool, q: nat) returns (ghost joined': Members)
    requires Fits(reg, mockers, sequences, listed, joined) && |reg| > 0 && q in sequences
    modifies reg[|reg| - 1], sequences[q]
    ensures Registered(reg) && MockersMirror(mockers, listed)
    ensures SequencesMirror(sequences, joined') && AllJoined(reg, joined')
    ensures StateOf(reg, joined', open) == ApplyClause(old(StateOf(reg, joined, open)), ClauseCall.InSequence(q))
  {
    assert AllAt(reg, joined[q]);
    joined' := joined[q := Sequence.WithMember(joined[q], reg[|reg| - 1])];
    ChainedState(Views(reg), reg, joined, open, q);
    JoinOn(reg, sequences, joined, q);
  }

  method CallOnObjects(ghost reg: seq<ExpectationBase>, mockers: map<nat, FunctionMocker>,
                       ghost listed: Members, mocker: nat, args: seq<Matchers.Value>)
      returns (exp: ExpectationBase?, action: Option<Action>, excessive: bool)
    requires Registered(reg) && MockersMirror(mockers, listed) && RetiredIsClosed(Views(reg))
    requires mocker in mockers && |args| == mockers[mocker].arity
    requires Lists(listed[mocker], reg, mocker, mockers[mocker].arity)
    modifies reg
    ensures Registered(reg) && MockersMirror(mockers, listed) && WellFounded(old(Views(reg)))
    ensures IsCall(old(Views(reg)), mocker, args, Views(reg),
                   if exp == null then Unexpected else Handled(exp.id, action, excessive))
  {
    exp, action, excessive := mockers[mocker].UntypedFindMatchingExpectation(reg, args);
  }

  /** The expectations and the outcome after a call. */
  ghost predicate IsCall(exps: seq<Exp>, mocker: nat, args: seq<Matchers.Value>, exps': seq<Exp>, o: Outcome)
    requires WellFounded(exps)
  {
    match FindMatching(exps, mocker, args, |exps|)
    case None => o == Unexpected && exps' == exps
    case Some(i) =>
      var h := Handle(exps, i);
      o == Handled(i, h.action, h.excessive) && exps' == h.exps
  }

  lemma CallIsStep(s: State, mocker: nat, args: seq<Matchers.Value>, exps: seq<Exp>, o: Outcome)
    requires WellFounded(s.exps) && IsCall(s.exps, mocker, args, exps, o)
    ensures Next(s, Call(mocker, args)) == State(exps, s.seqs, false) && OutcomeOf(s, Call(mocker, args)) == o
  {
  }

  /** A call of a mock function; its outcome is the one of the state machine. */
  method CallOn(ghost reg: seq<ExpectationBase>, mockers: map<nat, FunctionMocker>,
                ghost sequences: map<nat, Sequence>, ghost listed: Members, ghost joined: Members, ghost open: bool,
                mocker: nat, args: seq<Matchers.Value>)
      returns (exp: ExpectationBase?, action: Option<Action>, excessive: bool)
    requires Fits(reg, mockers, sequences, listed, joined) && RetiredIsClosed(Views(reg))
    requires mocker in mockers && |args| == mockers[mocker].arity
    modifies reg
    ensures Fits(reg, mockers, sequences, listed, joined) && WellFounded(old(Views(reg)))
    ensures StateOf(reg, joined, false) == Next(old(StateOf(reg, joined, open)), Call(mocker, args))
    ensures OutcomeOf(old(StateOf(reg, joined, open)), Call(mocker, args))
         == if exp == null then Unexpected else Handled(exp.id, action, excessive)
  {
    ghost var s := StateOf(reg, joined, open);
    exp, action, excessive := CallOnObjects(reg, mockers, listed, mocker, args);
    CallIsStep(s, mocker, args, Views(reg), if exp == null then Unexpected else Handled(exp.id, action, excessive));
  }

  // ---------- Programs ----------

  /** What the test sees of an event. */
  datatype Reply = Nothing | Unmatched | Matched(action: Option<Action>, excessive: bool)

  function ReplyOf(o: Outcome): Reply {
    match o
    case NoCall => Nothing
    case Unexpected => Unmatched
    case Handled(_, action, excessive) => Matched(action, excessive)
  }

  /** The event can happen next, and names mock functions and sequences that exist. */
  predicate CanTake(expectations: nat, open: bool, arities: map<nat, nat>, names: set<nat>, ev: Event) {
    match ev
    case Expect(mocker, matchers, implicit) =>
      mocker in arities && |matchers| == arities[mocker] && (implicit.Some? ==> implicit.value in names)
    case Chain(c) =>
      && open && expectations > 0 && (c.InSequence? ==> c.q in names)
      && (c.After? ==> forall e | e in c.es :: e < expectations - 1)
      && (c.Times? ==> 0 <= c.card.lower <= c.card.upper)
    case Call(mocker, args) => mocker in arities && |args| == arities[mocker]
  }

  /** One event, whatever it is. */
  method Step(reg: seq<ExpectationBase>, mockers: map<nat, FunctionMocker>, sequences: map<nat, Sequence>,
              ghost listed: Members, ghost joined: Members, open: bool, ev: Event)
      returns (reg': seq<ExpectationBase>, open': bool, reply: Reply, ghost listed': Members, ghost joined': Members)
    requires Fits(reg, mockers, sequences, listed, joined) && RetiredIsClosed(Views(reg))
    requires CanTake(|reg|, open, Arities(mockers), sequences.Keys, ev)
    modifies reg, mockers.Values, sequences.Values
    ensures Fits(reg', mockers, sequences, listed', joined') && forall e | e in reg' :: e in reg || fresh(e)
    ensures WellFounded(old(Views(reg))) && Enabled(old(StateOf(reg, joined, open)), ev)
    ensures StateOf(reg', joined', open') == Next(old(StateOf(reg, joined, open)), ev)
    ensures reply == ReplyOf(OutcomeOf(old(StateOf(reg, joined, open)), ev))
  {
    reg', open', reply, listed', joined' := reg, open, Nothing, listed, joined;
    match ev
    case Expect(mocker, matchers, implicit) =>
      var e;
      e, listed', joined' := ExpectOn(reg, mockers, sequences, listed, joined, open, mocker, matchers, implicit);
      reg', open' := reg + [e], true;
    case Chain(c) =>
      joined' := ChainOn(reg, mockers, sequences, listed, joined, open, c);
    case Call(mocker, args) =>
      var exp, action, excessive := CallOn(reg, mockers, sequences, listed, joined, open, mocker, args);
      reply := if exp == null then Unmatched else Matched(action, excessive);
      open' := false;
  }

  method CreateMockers(arities: map<nat, nat>) returns (mockers: map<nat, FunctionMocker>, ghost listed: Members)
    ensures fresh(mockers.Values) && Arities(mockers) == arities
    ensures MockersMirror(mockers, listed) && AllListed([], listed, arities)
  {
    mockers, listed := map[], map[];
    var todo := arities.Keys;
    while todo != {}
      invariant todo <= arities.Keys && mockers.Keys == arities.Keys - todo
      invariant forall m | m in mockers :: fresh(mockers[m])
      invariant MockersMirror(mockers, listed)
      invariant forall m | m in mockers :: mockers[m].arity == arities[m] && listed[m] == []
    {
      var m :| m in todo;
      var mocker := new FunctionMocker(m, arities[m]);
      mockers := mockers[m := mocker];
      listed := listed[m := []];
      todo := todo - {m};
    }
  }

  method CreateSequences(names: set<nat>) returns (sequences: map<nat, Sequence>, ghost joined: Members)
    ensures fresh(sequences.Values) && sequences.Keys == names
    ensures SequencesMirror(sequences, joined) && AllJoined([], joined) && SequenceIds(joined) == map[]
  {
    sequences, joined := map[], map[];
    var todo := names;
    while todo != {}
      invariant todo <= names && sequences.Keys == names - todo
      invariant forall q | q in sequences :: fresh(sequences[q])
      invariant SequencesMirror(sequences, joined)
      invariant forall q | q in joined :: joined[q] == []
    {
      var q :| q in todo;
      var s := new Sequence(q);
      sequences := sequences[q := s];
      joined := joined[q := []];
      todo := todo - {q};
    }
  }

  /** The run has the first events of the script, and the replies are those of the run. */
  ghost predicate Answers(r: Run, script: seq<Event>, done: nat, replies: seq<Reply>) {
    && done <= |script| && r.events == script[..done]
    && |replies| == |r.outcomes|
    && forall k | 0 <= k < |replies| ::
         match r.outcomes[k]
         case NoCall => replies[k] == Nothing
         case Unexpected => replies[k] == Unmatched
         case Handled(_, action, excessive) => replies[k] == Matched(action, excessive)
  }

  /** One event on objects that a run has brought about. */
  method Advance(reg: seq<ExpectationBase>, mockers: map<nat, FunctionMocker>, sequences: map<nat, Sequence>,
                 ghost listed: Members, ghost joined: Members, open: bool, ghost run: Run, ev: Event)
      returns (reg': seq<ExpectationBase>, open': bool, reply: Reply,
               ghost listed': Members, ghost joined': Members, ghost run': Run)
    requires Fits(reg, mockers, sequences, listed, joined) && Reaches(run, StateOf(reg, joined, open))
    requires CanTake(|reg|, open, Arities(mockers), sequences.Keys, ev)
    modifies reg, mockers.Values, sequences.Values
    ensures Fits(reg', mockers, sequences, listed', joined') && forall e | e in reg' :: e in reg || fresh(e)
    ensures Reaches(run', StateOf(reg', joined', open'))
    ensures Goes(run, run', ev, reply)
  {
    ghost var s := StateOf(reg, joined, open);
    InvariantAlways(run, |run.events|);
    reg', open', reply, listed', joined' := Step(reg, mockers, sequences, listed, joined, open, ev);
    run' := RunGrows(run, ev);
  }

  ghost predicate Reaches(r: Run, s: State) {
    IsRun(r) && Last(r) == s
  }

  ghost predicate Goes(r: Run, r': Run, ev: Event, reply: Reply) {
    && r'.events == r.events + [ev]
    && exists o: Outcome :: r'.outcomes == r.outcomes + [o] && reply == ReplyOf(o)
  }

  lemma AnswersOneMore(r: Run, r': Run, script: seq<Event>, done: nat, replies: seq<Reply>, reply: Reply)
    requires done < |script| && Answers(r, script, done, replies) && Goes(r, r', script[done], reply)
    ensures Answers(r', script, done + 1, replies + [reply])
  {
  }

  /** Asks every mock function for its verdict. */
  method VerifyAll(ghost reg: seq<ExpectationBase>, mockers: map<nat, FunctionMocker>, ghost listed: Members)
      returns (verdicts: map<nat, bool>)
    requires Registered(reg) && MockersMirror(mockers, listed) && AllListed(reg, listed, Arities(mockers))
    ensures verdicts.Keys == mockers.Keys
    ensures forall m | m in verdicts :: verdicts[m] <==> Verdicts.Verified(Views(reg), m)
  {
    verdicts := map[];
    var todo := mockers.Keys;
    while todo != {}
      invariant todo <= mockers.Keys && verdicts.Keys == mockers.Keys - todo
      invariant forall m | m in verdicts :: verdicts[m] <==> Verdicts.Verified(Views(reg), m)
    {
      var m :| m in todo;
      assert mockers[m].Valid(reg);
      var ok := mockers[m].VerifyExpectations(reg);
      verdicts := verdicts[m := ok];
      todo := todo - {m};
    }
  }

  /** Feeds a script to objects without expectations, up to the first event that cannot happen. */
  method Feed(mockers: map<nat, FunctionMocker>, sequences: map<nat, Sequence>, ghost listed: Members,
              ghost joined: Members, script: seq<Event>)
      returns (reg: seq<ExpectationBase>, done: nat, replies: seq<Reply>,
               ghost listed': Members, ghost joined': Members, ghost run: Run)
    requires Fits([], mockers, sequences, listed, joined) && SequenceIds(joined) == map[]
    modifies mockers.Values, sequences.Values
    ensures Fits(reg, mockers, sequences, listed', joined') && Answers(run, script, done, replies)
    ensures IsRun(run) && Last(run).exps == Views(reg)
    ensures done < |script| ==>
      !CanTake(|Last(run).exps|, Last(run).open, Arities(mockers), sequences.Keys, script[done])
  {
    reg, done, replies, listed', joined', run := [], 0, [], listed, joined, Run([START], [], []);
    var open := false;
    while done < |script| && CanTake(|reg|, open, Arities(mockers), sequences.Keys, script[done])
      invariant Answers(run, script, done, replies) && fresh(set e | e in reg)
      invariant Fits(reg, mockers, sequences, listed', joined') && Reaches(run, StateOf(reg, joined', open))
    {
      ghost var before := run;
      var reply;
      reg, open, reply, listed', joined', run :=
        Advance(reg, mockers, sequences, listed', joined', open, run, script[done]);
      AnswersOneMore(before, run, script, done, replies, reply);
      replies := replies + [reply];
      done := done + 1;
    }
  }

  /** Runs a test on fresh objects, up to the first event that cannot happen, and verifies the mock functions.
      Whatever the test, what the objects do is a run of the state machine with the same events, every reply is
      the one of that run, and so is every verdict. */
  method Execute(arities: map<nat, nat>, names: set<nat>, script: seq<Event>)
      returns (done: nat, replies: seq<Reply>, verdicts: map<nat, bool>, ghost run: Run)
    ensures IsRun(run) && Answers(run, script, done, replies)
    ensures verdicts.Keys == arities.Keys
    ensures forall m | m in verdicts :: verdicts[m] <==> Verdicts.Verified(Last(run).exps, m)
    ensures done < |script| ==> !CanTake(|Last(run).exps|, Last(run).open, arities, names, script[done])
  {
    var mockers, sequences, reg;
    ghost var listed, joined;
    mockers, listed := CreateMockers(arities);
    sequences, joined := CreateSequences(names);
    reg, done, replies, listed, joined, run := Feed(mockers, sequences, listed, joined, script);
    verdicts := VerifyAll(reg, mockers, listed);
  }

  /** What the test sees of a call, in the words of the clauses: it is unmatched exactly when every expectation
      of the mock function has a reason not to take it; a match is excessive exactly when its handler has had all
      calls it allows, and otherwise performs the action whose turn it is. */
  lemma ReplyInWords(run: Run, script: seq<Event>, done: nat, replies: seq<Reply>, k: nat)
    requires IsRun(run) && Answers(run, script, done, replies) && k < done && script[k].Call?
    ensures WellFounded(run.states[k].exps) && (replies[k] == Unmatched || replies[k].Matched?)
    ensures replies[k] == Unmatched <==>
      forall j | 0 <= j < |run.states[k].exps| && run.states[k].exps[j].mocker == script[k].mocker ::
        CallsInWords.HasReason(run.states[k].exps, j, script[k].args)
    ensures replies[k].Matched? ==> exists i | 0 <= i < |run.states[k].exps| ::
      IsMatch(run.states[k].exps, i, script[k].mocker, script[k].args, replies[k].action, replies[k].excessive)
  {
    assert run.events[k] == script[k];
    CallsInWords.CallGoesToNewestWithoutReason(run, k);
    if run.outcomes[k].Handled? {
      CallsInWords.ActionOfCall(run, k, run.outcomes[k].exp);
      assert IsMatch(run.states[k].exps, run.outcomes[k].exp, script[k].mocker, script[k].args,
                     replies[k].action, replies[k].excessive);
    }
  }

  /** Expectation i is the newest without a reason not to take the call, and this is what it hands out. */
  ghost predicate IsMatch(exps: seq<Exp>, i: nat, mocker: nat, args: seq<Matchers.Value>,
                          action: Option<Action>, excessive: bool)
    requires WellFounded(exps) && i < |exps|
  {
    var e := exps[i];
    && e.mocker == mocker && !CallsInWords.HasReason(exps, i, args)
    && (forall j | i < j < |exps| && exps[j].mocker == mocker :: CallsInWords.HasReason(exps, j, args))
    && (excessive <==> e.callCount >= e.card.upper)
    && (if excessive then action == None
        else
          match if e.callCount < |e.actions| then e.actions[e.callCount] else e.repeated
          case Perform(id) => action == Some(Perform(id))
          case DoDefault => action == None)
  }

  // ---------- The state machine has no other runs ----------

  /** The event names mock functions and sequences that exist, with the right number of matchers or arguments. */
  predicate Suits(ev: Event, arities: map<nat, nat>, names: set<nat>) {
    match ev
    case Expect(mocker, matchers, implicit) =>
      mocker in arities && |matchers| == arities[mocker] && (implicit.Some? ==> implicit.value in names)
    case Chain(c) => c.InSequence? ==> c.q in names
    case Call(mocker, args) => mocker in arities && |args| == arities[mocker]
  }

  /** Every run whose events suit the objects is what executing its events does, to the last event. */
  lemma ExecutesEveryRun(r: Run, arities: map<nat, nat>, names: set<nat>, run: Run, done: nat, replies: seq<Reply>)
    requires IsRun(r) && forall t | 0 <= t < |r.events| :: Suits(r.events[t], arities, names)
    requires IsRun(run) && Answers(run, r.events, done, replies)
    requires done < |r.events| ==> !CanTake(|Last(run).exps|, Last(run).open, arities, names, r.events[done])
    ensures done == |r.events| && run == r
  {
    forall t | 0 <= t <= done ensures run.states[t] == r.states[t] {
      SameStates(r, run, t);
    }
    forall t | 0 <= t < done ensures run.outcomes[t] == r.outcomes[t] {
      StepAt(r, t);
      StepAt(run, t);
    }
    if done < |r.events| {
      EnabledIsTaken(r.states[done], r.events[done], arities, names);
      StepAt(r, done);
    }
  }

  lemma EnabledIsTaken(s: State, ev: Event, arities: map<nat, nat>, names: set<nat>)
    requires Suits(ev, arities, names)
    ensures Enabled(s, ev) ==> CanTake(|s.exps|, s.open, arities, names, ev)
  {
  }

  lemma {:induction false} SameStates(r: Run, run: Run, t: nat)
    requires IsRun(r) && IsRun(run) && t <= |run.events| <= |r.events| && run.events == r.events[..|run.events|]
    ensures run.states[t] == r.states[t]
  {
    if t > 0 {
      SameStates(r, run, t - 1);
      StepAt(r, t - 1);
      StepAt(run, t - 1);
    }
  }
}
