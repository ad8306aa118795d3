/** What a run records and what its calls do, said of the clauses and matchers themselves and not of the
    functions the state machine is made of. */
module CallsInWords {
  import opened Options
  import opened Expectations
  import opened ExpectationInvariants
  import opened ExpectationRuns
  import opened ClauseGrammar
  import Matchers

  // ---------- Who handles a call ----------

  /** The handler belongs to the mock function, is live, takes every argument and all of them together, and all
      that precedes it is satisfied. */
  lemma HandlerTakesCall(r: Run, t: nat, i: nat)
    requires IsRun(r) && t < |r.events| && HandledBy(r.outcomes[t], i)
    ensures r.events[t].Call? && i < |r.states[t].exps| && WellFounded(r.states[t].exps)
    ensures var e, args := r.states[t].exps[i], r.events[t].args;
      && e.mocker == r.events[t].mocker && !e.retired
      && |e.matchers| == |args| && (forall k | 0 <= k < |args| :: Matchers.Holds(e.matchers[k], args[k]))
      && Matchers.Holds(e.extra, Matchers.List(args))
    ensures forall a: nat | a < i && Precedes(r.states[t].exps, a, i) ::
        var p := r.states[t].exps[a]; p.card.lower <= p.callCount <= p.card.upper
  {
    OutcomeHandled(r, t, i);
    StepAt(r, t);
    assert FindMatching(r.states[t].exps, r.events[t].mocker, r.events[t].args, |r.states[t].exps|) == Some(i);
    assert forall a: nat | a < i && Precedes(r.states[t].exps, a, i) :: r.states[t].exps[a].IsSatisfied();
  }

  /** Why expectation j of the mock function does not take a call: it is retired, something that precedes it is
      not satisfied, there are not as many arguments, or a matcher or the With matcher rejects. */
  ghost predicate HasReason(exps: seq<Exp>, j: nat, args: seq<Matchers.Value>)
    requires WellFounded(exps) && j < |exps|
  {
    var e := exps[j];
    || e.retired
    || (exists a: nat ::
          a < j && Precedes(exps, a, j) && !(exps[a].card.lower <= exps[a].callCount <= exps[a].card.upper))
    || |e.matchers| != |args|
    || (exists k :: 0 <= k < |args| && k < |e.matchers| && !Matchers.Holds(e.matchers[k], args[k]))
    || !Matchers.Holds(e.extra, Matchers.List(args))
  }

  lemma NoHandlerHasReason(exps: seq<Exp>, j: nat, args: seq<Matchers.Value>)
    requires WellFounded(exps) && j < |exps|
    ensures HasReason(exps, j, args) <==> !ShouldHandle(exps, j, args)
  {
    if !AllPrerequisitesAreSatisfied(exps, j) {
      var a: nat :| a < j && Precedes(exps, a, j) && !exps[a].IsSatisfied();
      assert HasReason(exps, j, args);
    }
  }

  /** A call is unexpected exactly when every expectation of its mock function has a reason not to take it;
      otherwise it goes to the newest that has none. */
  lemma CallGoesToNewestWithoutReason(r: Run, t: nat)
    requires IsRun(r) && t < |r.events| && r.events[t].Call?
    ensures WellFounded(r.states[t].exps) && !r.outcomes[t].NoCall?
    ensures var exps, mocker, args := r.states[t].exps, r.events[t].mocker, r.events[t].args;
      && (r.outcomes[t] == Unexpected
          <==> forall j | 0 <= j < |exps| && exps[j].mocker == mocker :: HasReason(exps, j, args))
      && (r.outcomes[t].Handled? ==>
            var i := r.outcomes[t].exp;
            && i < |exps| && exps[i].mocker == mocker && !HasReason(exps, i, args)
            && forall j | i < j < |exps| && exps[j].mocker == mocker :: HasReason(exps, j, args))
  {
    StepAt(r, t);
    var exps, mocker, args := r.states[t].exps, r.events[t].mocker, r.events[t].args;
    forall j | 0 <= j < |exps| ensures HasReason(exps, j, args) <==> !ShouldHandle(exps, j, args) {
      NoHandlerHasReason(exps, j, args);
    }
    var found := FindMatching(exps, mocker, args, |exps|);
  }

  // ---------- What it does ----------

  /** A call past the upper bound is excessive and gets no action; any other performs the WillOnce action of its
      turn or, when they are used up, the repeated one; "do default" is no action. */
  lemma ActionOfCall(r: Run, t: nat, i: nat)
    requires IsRun(r) && t < |r.events| && HandledBy(r.outcomes[t], i)
    ensures i < |r.states[t].exps|
    ensures var e, o := r.states[t].exps[i], r.outcomes[t];
      && (o.excessive <==> e.callCount >= e.card.upper)
      && (o.excessive ==> o.action == None)
      && (!o.excessive ==>
            match if e.callCount < |e.actions| then e.actions[e.callCount] else e.repeated
            case Perform(id) => o.action == Some(Perform(id))
            case DoDefault => o.action == None)
  {
    OutcomeHandled(r, t, i);
    HandleEffect(r.states[t].exps, i);
    ActionIsScripted(r.states[t].exps, i);
  }

  // ---------- What statements record ----------

  /** Every expectation has the mock function and the matchers of the statement that created it. */
  lemma {:induction false} RecordsItsStatement(r: Run, t: nat, i: nat) returns (u: nat)
    requires IsRun(r) && t <= |r.events| && i < |r.states[t].exps|
    ensures u < t && r.events[u].Expect? && |r.states[u].exps| == i
    ensures r.states[t].exps[i].mocker == r.events[u].mocker && r.states[t].exps[i].matchers == r.events[u].matchers
    decreases t
  {
    StepKeepsStatement(r, t - 1);
    if i < |r.states[t - 1].exps| {
      u := RecordsItsStatement(r, t - 1, i);
    } else {
      u := t - 1;
    }
  }

  lemma StepKeepsStatement(r: Run, t: nat)
    requires IsRun(r) && t < |r.events|
    ensures KeepsStatements(r.states[t].exps, r.events[t], r.states[t + 1].exps)
  {
    StepAt(r, t);
    StatementsAfter(r.states[t], r.events[t]);
  }

  predicate KeepsStatements(exps: seq<Exp>, ev: Event, exps': seq<Exp>) {
    && |exps'| == |exps| + (if ev.Expect? then 1 else 0)
    && (forall k | 0 <= k < |exps| :: exps'[k].mocker == exps[k].mocker && exps'[k].matchers == exps[k].matchers)
    && (ev.Expect? ==> exps'[|exps|].mocker == ev.mocker && exps'[|exps|].matchers == ev.matchers)
  }

  lemma StatementsAfter(s: State, ev: Event)
    requires WellFounded(s.exps) && Enabled(s, ev)
    ensures KeepsStatements(s.exps, ev, Next(s, ev).exps)
  {
    if ev.Call? {
      var found := FindMatching(s.exps, ev.mocker, ev.args, |s.exps|);
      if found.Some? {
        HandleEffect(s.exps, found.value);
      }
    }
  }

  /** The event puts the expectation being written into sequence q. */
  predicate Names(ev: Event, q: nat) {
    if ev.Expect? then ev.implicit == Some(q) else ev.Chain? && ev.c.InSequence? && ev.c.q == q
  }

  /** Expectation i is the one being written after event u. */
  predicate Writes(r: Run, u: nat, i: nat)
    requires u + 1 < |r.states|
  {
    |r.states[u + 1].exps| == i + 1
  }

  ghost predicate JoinedBefore(r: Run, t: nat, q: nat, i: nat)
    requires IsRun(r) && t <= |r.events|
  {
    exists u | 0 <= u < t :: Names(r.events[u], q) && Writes(r, u, i)
  }

  /** The members of a sequence are the expectations written when an event named it. */
  lemma {:induction false} MembersWereNamed(r: Run, t: nat, q: nat, i: nat)
    requires IsRun(r) && t <= |r.events|
    ensures i in r.states[t].Members(q) <==> JoinedBefore(r, t, q, i)
  {
    if t > 0 {
      MembersWereNamed(r, t - 1, q, i);
      StepAt(r, t - 1);
      MembersAfter(r.states[t - 1], r.events[t - 1], q, i);
      JoinedGrows(r, t, q, i);
    }
  }

  lemma JoinedGrows(r: Run, t: nat, q: nat, i: nat)
    requires IsRun(r) && 0 < t <= |r.events|
    ensures JoinedBefore(r, t, q, i) <==> JoinedBefore(r, t - 1, q, i) || (Names(r.events[t - 1], q) && Writes(r, t - 1, i))
  {
  }

  lemma MembersAfter(s: State, ev: Event, q: nat, i: nat)
    requires WellFounded(s.exps) && Enabled(s, ev)
    ensures i in Next(s, ev).Members(q) <==> i in s.Members(q) || (Names(ev, q) && |Next(s, ev).exps| == i + 1)
  {
    var s' := Next(s, ev);
    match ev
    case Expect(mocker, matchers, implicit) =>
      assert s'.Members(q) ==
        if implicit == Some(q) then Expectations.Joined(s.Members(q), |s.exps|) else s.Members(q);
    case Chain(c) =>
      assert s'.Members(q) ==
        if c.InSequence? && c.q == q then Expectations.Joined(s.Members(q), |s.exps| - 1) else s.Members(q);
    case Call(_, _) =>
  }

  /** The event makes a a direct prerequisite of the expectation being written, number i: an After clause names
      it, or it is the last member of a sequence that i joins. */
  ghost predicate Adds(s: State, ev: Event, i: nat, a: nat) {
    || (ev.Chain? && ev.c.After? && a in ev.c.es)
    || (a != i && exists q: nat :: Names(ev, q) && IsLast(s.Members(q), a))
  }

  predicate IsLast(members: seq<nat>, a: nat) {
    members != [] && members[|members| - 1] == a
  }

  ghost predicate AddedBefore(r: Run, t: nat, i: nat, a: nat)
    requires IsRun(r) && t <= |r.events|
  {
    exists u | 0 <= u < t :: Writes(r, u, i) && Adds(r.states[u], r.events[u], i, a)
  }

  /** The direct prerequisites are those, and no others. */
  lemma {:induction false} PrerequisitesWereAdded(r: Run, t: nat, i: nat, a: nat)
    requires IsRun(r) && t <= |r.events| && i < |r.states[t].exps|
    ensures a in r.states[t].exps[i].prereqs <==> AddedBefore(r, t, i, a)
  {
    StepAt(r, t - 1);
    StepKeepsStatement(r, t - 1);
    PrerequisitesAfter(r.states[t - 1], r.events[t - 1], i, a);
    AddedGrows(r, t, i, a);
    if i < |r.states[t - 1].exps| {
      PrerequisitesWereAdded(r, t - 1, i, a);
    } else {
      NotWrittenBefore(r, t - 1, i);
    }
  }

  lemma AddedGrows(r: Run, t: nat, i: nat, a: nat)
    requires IsRun(r) && 0 < t <= |r.events|
    ensures AddedBefore(r, t, i, a)
       <==> AddedBefore(r, t - 1, i, a) || (Writes(r, t - 1, i) && Adds(r.states[t - 1], r.events[t - 1], i, a))
  {
  }

  lemma PrerequisitesAfter(s: State, ev: Event, i: nat, a: nat)
    requires WellFounded(s.exps) && Enabled(s, ev) && i < |Next(s, ev).exps|
    ensures a in Next(s, ev).exps[i].prereqs
       <==> (i < |s.exps| && a in s.exps[i].prereqs) || (|Next(s, ev).exps| == i + 1 && Adds(s, ev, i, a))
  {
    match ev
    case Expect(_, _, implicit) =>
      if implicit.Some? {
        assert Names(ev, implicit.value);
      }
    case Chain(c) =>
      if c.InSequence? {
        assert Names(ev, c.q);
      }
    case Call(mocker, args) =>
      var found := FindMatching(s.exps, mocker, args, |s.exps|);
      if found.Some? {
        HandleEffect(s.exps, found.value);
      }
  }

  lemma {:induction false} NotWrittenBefore(r: Run, t: nat, i: nat)
    requires IsRun(r) && t <= |r.events| && |r.states[t].exps| <= i
    ensures forall u | 0 <= u < t :: !Writes(r, u, i)
  {
    if t > 0 {
      StepKeepsStatement(r, t - 1);
      NotWrittenBefore(r, t - 1, i);
    }
  }

  /** Statement number i has been written from e with these clauses so far. */
  ghost predicate IsWritten(s: State, i: nat, e: Exp, cs: seq<ClauseCall>, added: seq<set<nat>>) {
    |s.exps| == i + 1 && s.open && |cs| == |added| && s.exps[i] == ApplyAll(e, cs, added)
  }

  /** A statement in a run: an Expect event and the clauses after it leave what the chain of clauses records. */
  lemma {:induction false} StatementIsChain(r: Run, u: nat, n: nat) returns (cs: seq<ClauseCall>, added: seq<set<nat>>)
    requires IsRun(r) && u + n < |r.events| && r.events[u].Expect?
    requires forall k | u < k <= u + n :: r.events[k].Chain?
    ensures |cs| == n && forall k | 0 <= k < n :: cs[k] == r.events[u + 1 + k].c
    ensures |r.states[u + 1].exps| == |r.states[u].exps| + 1
    ensures var i := |r.states[u].exps|; IsWritten(r.states[u + n + 1], i, r.states[u + 1].exps[i], cs, added)
    decreases n
  {
    StatementStarts(r, u);
    if n == 0 {
      cs, added := [], [];
    } else {
      cs, added := StatementIsChain(r, u, n - 1);
      var i := |r.states[u].exps|;
      var more := StatementGoesOn(r, u + n, i, r.states[u + 1].exps[i], cs, added);
      cs, added := cs + [r.events[u + n].c], added + [more];
    }
  }

  lemma StatementStarts(r: Run, u: nat)
    requires IsRun(r) && u < |r.events| && r.events[u].Expect?
    ensures |r.states[u + 1].exps| == |r.states[u].exps| + 1
    ensures var i := |r.states[u].exps|; IsWritten(r.states[u + 1], i, r.states[u + 1].exps[i], [], [])
  {
    StepAt(r, u);
    StatementsAfter(r.states[u], r.events[u]);
  }

  lemma StatementGoesOn(r: Run, t: nat, i: nat, e: Exp, cs: seq<ClauseCall>, added: seq<set<nat>>)
      returns (more: set<nat>)
    requires IsRun(r) && t < |r.events| && r.events[t].Chain? && IsWritten(r.states[t], i, e, cs, added)
    ensures IsWritten(r.states[t + 1], i, e, cs + [r.events[t].c], added + [more])
  {
    StepAt(r, t);
    more := WritesOn(r.states[t], i, e, cs, added, r.events[t].c);
  }

  lemma WritesOn(s: State, i: nat, e: Exp, cs: seq<ClauseCall>, added: seq<set<nat>>, c: ClauseCall)
      returns (more: set<nat>)
    requires WellFounded(s.exps) && Enabled(s, Chain(c)) && IsWritten(s, i, e, cs, added)
    ensures IsWritten(Next(s, Chain(c)), i, e, cs + [c], added + [more])
  {
    more := if c.InSequence? then AddedBySequence(s.Members(c.q), i) else {};
    ApplyAllOneMore(e, cs, added, c, more);
  }
}
