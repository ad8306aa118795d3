/** The run-time syntax check of EXPECT_CALL against the grammar its documentation gives. */
module ClauseGrammar {
  import opened Expectations
  import opened Cardinalities
  import Matchers

  /** One item of the documented grammar: a clause, at most once or any number of times. */
  datatype Item = Optional(clause: Clause) | AnyTimes(clause: Clause)

  const ITEMS: nat := 7

  /** With? Times? InSequence* After* WillOnce* WillRepeatedly? RetiresOnSaturation? */
  function Grammar(j: nat): Item
    requires j < ITEMS
  {
    match j
    case 0 => Optional(KWith)
    case 1 => Optional(KTimes)
    case 2 => AnyTimes(KInSequence)
    case 3 => AnyTimes(KAfter)
    case 4 => AnyTimes(KWillOnce)
    case 5 => Optional(KWillRepeatedly)
    case 6 => Optional(KRetiresOnSaturation)
  }

  /** k leading clauses are what item j allows. */
  ghost predicate TakenBy(j: nat, names: seq<Clause>, k: nat)
    requires j < ITEMS
  {
    && k <= |names|
    && (Grammar(j).Optional? ==> k <= 1)
    && forall i | 0 <= i < k :: names[i] == Grammar(j).clause
  }

  /** names is in the language of the items from j on. */
  ghost predicate InLanguage(j: nat, names: seq<Clause>)
    requires j <= ITEMS
    decreases ITEMS - j, 1
  {
    if j == ITEMS then names == [] else exists k: nat :: Splits(j, names, k)
  }

  /** Item j takes k clauses, and the items after it the rest. */
  ghost predicate Splits(j: nat, names: seq<Clause>, k: nat)
    requires j < ITEMS
    decreases ITEMS - j, 0
  {
    TakenBy(j, names, k) && InLanguage(j + 1, names[k..])
  }

  function Names(cs: seq<ClauseCall>): (r: seq<Clause>)
    ensures |r| == |cs| && forall i | 0 <= i < |cs| :: r[i] == cs[i].Name()
  {
    seq(|cs|, i requires 0 <= i < |cs| => cs[i].Name())
  }

  /** A chain of clauses on one expectation; added says what the sequences contribute to each. */
  function ApplyAll(e: Exp, cs: seq<ClauseCall>, added: seq<set<nat>>): Exp
    requires |added| == |cs|
    decreases cs
  {
    if cs == [] then e else ApplyAll(Apply(e, cs[0], added[0]), cs[1..], added[1..])
  }

  /** The item of the grammar a clause belongs to. */
  function ItemOf(c: Clause): nat
    requires c != KNone
  {
    c.Rank() - 1
  }

  /** The first item that may still follow a clause: its own when it may repeat. */
  function Stage(last: Clause): (j: nat)
    ensures j <= ITEMS
  {
    match last
    case KNone => 0
    case KInSequence => 2
    case KAfter => 3
    case KWillOnce => 4
    case _ => last.Rank()
  }

  lemma AllowedMeansLaterItem(last: Clause, c: ClauseCall)
    ensures Allowed(last, c) <==> ItemOf(c.Name()) >= Stage(last)
  {
  }

  lemma ItemFacts(j: nat)
    requires j < ITEMS
    ensures var c := Grammar(j).clause; c != KNone && ItemOf(c) == j
    ensures Stage(Grammar(j).clause) == if Grammar(j).AnyTimes? then j else j + 1
  {
  }

  lemma ItemOfIsItem(c: Clause)
    requires c != KNone
    ensures ItemOf(c) < ITEMS && Grammar(ItemOf(c)).clause == c
  {
  }

  lemma {:induction false} EmptyIsInLanguage(j: nat)
    requires j <= ITEMS
    ensures InLanguage(j, [])
    decreases ITEMS - j
  {
    if j < ITEMS {
      EmptyIsInLanguage(j + 1);
      var empty: seq<Clause> := [];
      assert empty[0..] == empty;
      assert Splits(j, empty, 0);
    }
  }

  /** Reading one clause: it must not be too early, and the rest is read from its stage on. */
  lemma {:induction false} ReadOne(j: nat, names: seq<Clause>)
    requires j <= ITEMS && names != [] && names[0] != KNone
    ensures InLanguage(j, names) <==> ItemOf(names[0]) >= j && InLanguage(Stage(names[0]), names[1..])
    decreases ITEMS - j
  {
    ItemOfIsItem(names[0]);
    if j < ITEMS {
      ReadOne(j + 1, names);
      assert names[0..] == names;
      if k: nat :| Splits(j, names, k) {
        if k > 0 {
          SkipOne(j, names, k);
        }
      }
      if ItemOf(names[0]) > j && InLanguage(j + 1, names) {
        assert Splits(j, names, 0);
      }
      if ItemOf(names[0]) == j && InLanguage(Stage(names[0]), names[1..]) {
        PutOne(j, names);
      }
    }
  }

  lemma FromSplit(j: nat, names: seq<Clause>, k: nat, tail: seq<Clause>)
    requires j < ITEMS && TakenBy(j, names, k) && names[k..] == tail && InLanguage(j + 1, tail)
    ensures InLanguage(j, names)
  {
    assert Splits(j, names, k);
  }

  lemma TakenAfterOne(j: nat, names: seq<Clause>, k: nat)
    requires j < ITEMS && Grammar(j).AnyTimes? && names != [] && names[0] == Grammar(j).clause
    ensures TakenBy(j, names, k + 1) <==> TakenBy(j, names[1..], k)
  {
    var rest := names[1..];
    if TakenBy(j, rest, k) {
      assert forall i | 0 < i < k + 1 :: names[i] == rest[i - 1];
    }
  }

  lemma SkipOne(j: nat, names: seq<Clause>, k: nat)
    requires j < ITEMS && k > 0 && Splits(j, names, k)
    ensures names != [] && names[0] != KNone && ItemOf(names[0]) == j && InLanguage(Stage(names[0]), names[1..])
  {
    ItemFacts(j);
    assert names[0] == Grammar(j).clause;
    if Grammar(j).AnyTimes? {
      TakenAfterOne(j, names, k - 1);
      assert names[1..][k - 1..] == names[k..];
      FromSplit(j, names[1..], k - 1, names[k..]);
    } else {
      assert k == 1;
    }
  }

  lemma PutOne(j: nat, names: seq<Clause>)
    requires j < ITEMS && names != [] && names[0] != KNone && ItemOf(names[0]) == j
    requires InLanguage(Stage(names[0]), names[1..])
    ensures InLanguage(j, names)
  {
    ItemFacts(j);
    ItemOfIsItem(names[0]);
    if Grammar(j).AnyTimes? {
      var k: nat :| Splits(j, names[1..], k);
      PutAgain(j, names, k);
    } else {
      assert TakenBy(j, names, 1);
      FromSplit(j, names, 1, names[1..]);
    }
  }

  lemma PutAgain(j: nat, names: seq<Clause>, k: nat)
    requires j < ITEMS && Grammar(j).AnyTimes? && names != [] && names[0] == Grammar(j).clause
    requires Splits(j, names[1..], k)
    ensures InLanguage(j, names)
  {
    TakenAfterOne(j, names, k);
    var tail := names[1..][k..];
    assert names[k + 1..] == tail;
    FromSplit(j, names, k + 1, tail);
  }

  lemma OneClauseCheck(e: Exp, c: ClauseCall, added: set<nat>)
    ensures var e' := Apply(e, c, added);
      e'.lastClause == c.Name() && e'.failures == e.failures + if ItemOf(c.Name()) >= Stage(e.lastClause) then 0 else 1
  {
    AllowedMeansLaterItem(e.lastClause, c);
  }

  /** A chain applied after a clause raises no failure exactly when the rest of the grammar reads it. */
  lemma {:induction false} ChecksFollowGrammar(e: Exp, cs: seq<ClauseCall>, added: seq<set<nat>>)
    requires |added| == |cs|
    ensures ApplyAll(e, cs, added).failures >= e.failures
    ensures ApplyAll(e, cs, added).failures == e.failures <==> InLanguage(Stage(e.lastClause), Names(cs))
    decreases cs
  {
    if cs == [] {
      assert Names(cs) == [];
      EmptyIsInLanguage(Stage(e.lastClause));
    } else {
      var e' := Apply(e, cs[0], added[0]);
      ChecksFollowGrammar(e', cs[1..], added[1..]);
      OneClauseCheck(e, cs[0], added[0]);
      assert Names(cs)[1..] == Names(cs[1..]);
      ReadOne(Stage(e.lastClause), Names(cs));
    }
  }

  /** The check accepts exactly the documented statements, of any length. */
  lemma CheckerIsGrammar(e: Exp, cs: seq<ClauseCall>, added: seq<set<nat>>)
    requires |added| == |cs|
    requires e.lastClause == KNone && e.failures == 0
    ensures ApplyAll(e, cs, added).failures == 0 <==> InLanguage(0, Names(cs))
  {
    ChecksFollowGrammar(e, cs, added);
  }

  // ---------- What a chain records ----------

  lemma {:induction false} ApplyAllOneMore(e: Exp, cs: seq<ClauseCall>, added: seq<set<nat>>,
                                           c: ClauseCall, more: set<nat>)
    requires |added| == |cs|
    ensures ApplyAll(e, cs + [c], added + [more]) == Apply(ApplyAll(e, cs, added), c, more)
    decreases cs
  {
    if cs == [] {
      assert cs + [c] == [c] && added + [more] == [more];
      assert [c][1..] == [];
    } else {
      assert (cs + [c])[1..] == cs[1..] + [c] && (added + [more])[1..] == added[1..] + [more];
      ApplyAllOneMore(Apply(e, cs[0], added[0]), cs[1..], added[1..], c, more);
    }
  }

  /** RetiresOnSaturation anywhere in a chain is recorded, and nothing else sets the flag. */
  lemma {:induction false} RetiresIsRecorded(e: Exp, cs: seq<ClauseCall>, added: seq<set<nat>>)
    requires |added| == |cs|
    ensures ApplyAll(e, cs, added).retiresOnSaturation
       <==> e.retiresOnSaturation || exists k :: 0 <= k < |cs| && cs[k].RetiresOnSaturation?
    decreases cs
  {
    if cs != [] {
      RetiresIsRecorded(Apply(e, cs[0], added[0]), cs[1..], added[1..]);
      assert forall k | 0 < k < |cs| :: cs[k] == cs[1..][k - 1];
    }
  }

  /** The With matcher is that of the last With, and stays what it was without one. */
  lemma {:induction false} LastWithCounts(e: Exp, cs: seq<ClauseCall>, added: seq<set<nat>>, k: nat)
    requires |added| == |cs|
    requires k <= |cs| && (k > 0 ==> cs[k - 1].With?) && forall j | k <= j < |cs| :: !cs[j].With?
    ensures ApplyAll(e, cs, added).extra == if k > 0 then cs[k - 1].m else e.extra
    decreases cs
  {
    if cs != [] {
      LastWithCounts(Apply(e, cs[0], added[0]), cs[1..], added[1..], if k > 0 then k - 1 else 0);
    }
  }

  /** The repeated action is that of the last WillRepeatedly. */
  lemma {:induction false} LastRepeatedCounts(e: Exp, cs: seq<ClauseCall>, added: seq<set<nat>>, k: nat)
    requires |added| == |cs|
    requires k <= |cs| && (k > 0 ==> cs[k - 1].WillRepeatedly?) && forall j | k <= j < |cs| :: !cs[j].WillRepeatedly?
    ensures ApplyAll(e, cs, added).repeated == if k > 0 then cs[k - 1].a else e.repeated
    ensures ApplyAll(e, cs, added).repeatedSpecified == (k > 0 || e.repeatedSpecified)
    decreases cs
  {
    if cs != [] {
      LastRepeatedCounts(Apply(e, cs[0], added[0]), cs[1..], added[1..], if k > 0 then k - 1 else 0);
    }
  }

  /** A new expectation has nothing but its mock function and matchers: its With matcher takes everything, its
      repeated action is the default, and it allows exactly one call. */
  lemma NewExpInWords(mocker: nat, matchers: seq<Matchers.Matcher>)
    ensures var e := NewExp(mocker, matchers);
      && e.mocker == mocker && e.matchers == matchers && (forall v :: Matchers.Holds(e.extra, v))
      && e.repeated == DoDefault && e.actions == [] && e.prereqs == {} && !e.retiresOnSaturation
      && !e.cardSpecified && !e.repeatedSpecified && !e.retired && e.callCount == e.failures == 0
      && forall n: int :: e.card.IsSatisfiedByCallCount(n) <==> n == 1
  {
  }

  /** The actions of the WillOnce clauses, in the order written. */
  function OnceActions(cs: seq<ClauseCall>): seq<Action> {
    if cs == [] then [] else OnceOf(cs[0]) + OnceActions(cs[1..])
  }

  function OnceOf(c: ClauseCall): seq<Action> {
    if c.WillOnce? then [c.a] else []
  }

  /** Everything the After clauses name, and what the sequences add. */
  function NamedPrerequisites(cs: seq<ClauseCall>, added: seq<set<nat>>): set<nat>
    requires |added| == |cs|
    decreases cs
  {
    if cs == [] then {} else NamedBy(cs[0], added[0]) + NamedPrerequisites(cs[1..], added[1..])
  }

  function NamedBy(c: ClauseCall, added: set<nat>): set<nat> {
    if c.After? then c.es else if c.InSequence? then added else {}
  }

  predicate HasTimes(cs: seq<ClauseCall>) {
    cs != [] && (cs[0].Times? || HasTimes(cs[1..]))
  }

  lemma OneClauseRecords(e: Exp, c: ClauseCall, added: set<nat>)
    ensures Apply(e, c, added).actions == e.actions + OnceOf(c)
    ensures Apply(e, c, added).prereqs == e.prereqs + NamedBy(c, added)
    ensures Apply(e, c, added).cardSpecified == (e.cardSpecified || c.Times?)
  {
  }

  /** Actions keep the written order, prerequisites accumulate, and only Times specifies a cardinality. */
  lemma {:induction false} ChainRecords(e: Exp, cs: seq<ClauseCall>, added: seq<set<nat>>)
    requires |added| == |cs|
    ensures ApplyAll(e, cs, added).actions == e.actions + OnceActions(cs)
    ensures ApplyAll(e, cs, added).prereqs == e.prereqs + NamedPrerequisites(cs, added)
    ensures ApplyAll(e, cs, added).cardSpecified == (e.cardSpecified || HasTimes(cs))
    decreases cs
  {
    if cs != [] {
      OneClauseRecords(e, cs[0], added[0]);
      ChainRecords(Apply(e, cs[0], added[0]), cs[1..], added[1..]);
      AppendAssociates(e.actions, OnceOf(cs[0]), OnceActions(cs[1..]));
    }
  }

  lemma AppendAssociates(a: seq<Action>, b: seq<Action>, c: seq<Action>)
    ensures a + (b + c) == (a + b) + c
  {
  }

  /** The cardinality the documentation promises when Times is absent: n WillOnce clauses alone mean exactly
      n calls, with WillRepeatedly at least n, and no action clause at all exactly one. */
  function InferredCardinality(onces: nat, repeated: bool): Cardinality {
    if repeated then AtLeast(onces) else if onces > 0 then Exactly(onces) else Exactly(1)
  }

  predicate CardinalityIsInferred(e: Exp) {
    && (!e.cardSpecified ==> e.card == InferredCardinality(|e.actions|, e.repeatedSpecified))
    && (e.repeatedSpecified ==> e.lastClause.Rank() >= KWillRepeatedly.Rank())
  }

  /** A chain without a spec failure infers it. */
  lemma {:induction false} ChainInfersCardinality(e: Exp, cs: seq<ClauseCall>, added: seq<set<nat>>)
    requires |added| == |cs| && CardinalityIsInferred(e)
    requires ApplyAll(e, cs, added).failures == e.failures
    ensures CardinalityIsInferred(ApplyAll(e, cs, added))
    decreases cs
  {
    if cs != [] {
      var e' := Apply(e, cs[0], added[0]);
      ChecksFollowGrammar(e', cs[1..], added[1..]);
      OneClauseCheck(e, cs[0], added[0]);
      OneClauseInfers(e, cs[0], added[0]);
      ChainInfersCardinality(e', cs[1..], added[1..]);
    }
  }

  lemma OneClauseInfers(e: Exp, c: ClauseCall, added: set<nat>)
    requires CardinalityIsInferred(e) && Apply(e, c, added).failures == e.failures
    ensures CardinalityIsInferred(Apply(e, c, added))
  {
    assert Allowed(e.lastClause, c);
  }

  predicate HasWillRepeatedly(cs: seq<ClauseCall>) {
    cs != [] && (cs[0].WillRepeatedly? || HasWillRepeatedly(cs[1..]))
  }

  /** The last of the action clauses WillOnce and WillRepeatedly; KNone without any. */
  function LastActionClause(cs: seq<ClauseCall>): (last: Clause)
    ensures last == KNone || last == KWillOnce || last == KWillRepeatedly
  {
    if cs == [] then KNone
    else
      var last := LastActionClause(cs[1..]);
      if last != KNone then last
      else if cs[0].WillOnce? || cs[0].WillRepeatedly? then cs[0].Name()
      else KNone
  }

  lemma {:induction false} RepeatedLastIsRepeated(cs: seq<ClauseCall>)
    ensures LastActionClause(cs) == KWillRepeatedly ==> HasWillRepeatedly(cs)
    ensures LastActionClause(cs) == KNone ==> OnceActions(cs) == [] && !HasWillRepeatedly(cs)
    ensures LastActionClause(cs) == KWillOnce ==> OnceActions(cs) != []
  {
    if cs != [] {
      RepeatedLastIsRepeated(cs[1..]);
    }
  }

  lemma OneActionClause(e: Exp, c: ClauseCall, added: set<nat>)
    requires !c.Times? && !e.cardSpecified
    ensures var e' := Apply(e, c, added);
      && !e'.cardSpecified
      && |e'.actions| == |e.actions| + |OnceOf(c)|
      && e'.repeatedSpecified == (e.repeatedSpecified || c.WillRepeatedly?)
      && e'.card == if c.WillOnce? then Exactly(|e'.actions|)
                    else if c.WillRepeatedly? then AtLeast(|e'.actions|)
                    else e.card
  {
  }

  /** What a chain without Times leaves, in or out of order: the last action clause decides. */
  lemma {:induction false} LastActionClauseDecides(e: Exp, cs: seq<ClauseCall>, added: seq<set<nat>>)
    requires |added| == |cs| && !HasTimes(cs) && !e.cardSpecified
    ensures ApplyAll(e, cs, added).card ==
      match LastActionClause(cs)
      case KNone => e.card
      case KWillOnce => Exactly(|e.actions| + |OnceActions(cs)|)
      case _ => AtLeast(|e.actions| + |OnceActions(cs)|)
    ensures ApplyAll(e, cs, added).repeatedSpecified == (e.repeatedSpecified || HasWillRepeatedly(cs))
    decreases cs
  {
    if cs != [] {
      OneActionClause(e, cs[0], added[0]);
      LastActionClauseDecides(Apply(e, cs[0], added[0]), cs[1..], added[1..]);
      RepeatedLastIsRepeated(cs[1..]);
    }
  }

  lemma ExactlyIsNotAtLeast(n: nat)
    requires n < INT_MAX
    ensures Exactly(n) != AtLeast(n)
  {
  }

  /** Without Times, the inferred cardinality is the documented one exactly when the chain does not put a
      WillOnce behind its last WillRepeatedly; the order of the other clauses plays no part. */
  lemma InferredExactlyWhen(mocker: nat, matchers: seq<Matchers.Matcher>, cs: seq<ClauseCall>, added: seq<set<nat>>)
    requires |added| == |cs| && !HasTimes(cs) && |OnceActions(cs)| < INT_MAX
    ensures ApplyAll(NewExp(mocker, matchers), cs, added).card
            == InferredCardinality(|OnceActions(cs)|, HasWillRepeatedly(cs))
       <==> LastActionClause(cs) != KWillOnce || !HasWillRepeatedly(cs)
  {
    LastActionClauseDecides(NewExp(mocker, matchers), cs, added);
    RepeatedLastIsRepeated(cs);
    ExactlyIsNotAtLeast(|OnceActions(cs)|);
  }

  /** Times counts whatever comes before or after it, and the last one when there are several. */
  function LastTimes(cs: seq<ClauseCall>): Cardinality
    requires HasTimes(cs)
  {
    if HasTimes(cs[1..]) then LastTimes(cs[1..]) else cs[0].card
  }

  lemma {:induction false} LastTimesCounts(e: Exp, cs: seq<ClauseCall>, added: seq<set<nat>>)
    requires |added| == |cs| && (e.cardSpecified || HasTimes(cs))
    ensures ApplyAll(e, cs, added).card == if HasTimes(cs) then LastTimes(cs) else e.card
    decreases cs
  {
    if cs != [] {
      LastTimesCounts(Apply(e, cs[0], added[0]), cs[1..], added[1..]);
    }
  }

  /** A documented statement on a new expectation, whatever its clauses. */
  lemma DocumentedStatement(mocker: nat, matchers: seq<Matchers.Matcher>, cs: seq<ClauseCall>, added: seq<set<nat>>)
    requires |added| == |cs|
    ensures var e := ApplyAll(NewExp(mocker, matchers), cs, added);
      InLanguage(0, Names(cs)) ==>
        && e.failures == 0
        && e.actions == OnceActions(cs)
        && e.prereqs == NamedPrerequisites(cs, added)
        && e.card == if HasTimes(cs) then LastTimes(cs)
                     else InferredCardinality(|OnceActions(cs)|, HasWillRepeatedly(cs))
  {
    CheckerIsGrammar(NewExp(mocker, matchers), cs, added);
    if ApplyAll(NewExp(mocker, matchers), cs, added).failures == 0 {
      CleanChainRecords(mocker, matchers, cs, added);
    }
  }

  lemma CleanChainRecords(mocker: nat, matchers: seq<Matchers.Matcher>, cs: seq<ClauseCall>, added: seq<set<nat>>)
    requires |added| == |cs| && ApplyAll(NewExp(mocker, matchers), cs, added).failures == 0
    ensures var e := ApplyAll(NewExp(mocker, matchers), cs, added);
      && e.actions == OnceActions(cs)
      && e.prereqs == NamedPrerequisites(cs, added)
      && e.card == if HasTimes(cs) then LastTimes(cs)
                   else InferredCardinality(|OnceActions(cs)|, HasWillRepeatedly(cs))
  {
    var e0 := NewExp(mocker, matchers);
    ChainRecords(e0, cs, added);
    if HasTimes(cs) {
      LastTimesCounts(e0, cs, added);
    } else {
      ChainInfersCardinality(e0, cs, added);
      LastActionClauseDecides(e0, cs, added);
    }
  }

  /** The smallest misplacement: a WillOnce behind a WillRepeatedly is reported, and the expectation then
      allows one call where the documentation says one or more. */
  lemma MisplacedWillOnce()
    ensures var cs := [WillRepeatedly(DoDefault), WillOnce(DoDefault)];
      var e := ApplyAll(NewExp(0, []), cs, [{}, {}]);
      && e.failures == 1 && e.card == Exactly(1)
      && InferredCardinality(|OnceActions(cs)|, HasWillRepeatedly(cs)) == AtLeast(1)
  {
    var e1 := Apply(NewExp(0, []), WillRepeatedly(DoDefault), {});
    var e2 := Apply(e1, WillOnce(DoDefault), {});
    var last: seq<ClauseCall> := [WillOnce(DoDefault)];
    assert ApplyAll(e1, last, [{}]) == e2;
    assert OnceActions(last) == [DoDefault];
    var cs: seq<ClauseCall> := [WillRepeatedly(DoDefault), WillOnce(DoDefault)];
    assert cs[1..] == last;
    assert OnceActions(cs) == [] + OnceActions(last);
  }
}
