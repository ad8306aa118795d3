/** How the recursive walks over prerequisites reach the whole relation. */
module PrerequisiteWalks {
  import opened Expectations
  import opened ExpectationInvariants

  /** All prerequisites are satisfied when the direct ones are and, in turn, all of theirs. */
  lemma AllSatisfiedUnfolds(exps: seq<Exp>, i: nat)
    requires WellFounded(exps) && i < |exps|
    ensures AllPrerequisitesAreSatisfied(exps, i)
       <==> forall p | p in exps[i].prereqs ::
              p < i && exps[p].IsSatisfied() && AllPrerequisitesAreSatisfied(exps, p)
  {
    if AllPrerequisitesAreSatisfied(exps, i) {
      forall p | p in exps[i].prereqs
        ensures p < i && exps[p].IsSatisfied() && AllPrerequisitesAreSatisfied(exps, p)
      {
        assert Precedes(exps, p, i);
        forall a: nat | a < p && Precedes(exps, a, p) ensures exps[a].IsSatisfied() {
          assert Precedes(exps, a, i);
        }
      }
    } else {
      var a: nat :| a < i && Precedes(exps, a, i) && !exps[a].IsSatisfied();
      if a !in exps[i].prereqs {
        var p :| p in exps[i].prereqs && p < i && Precedes(exps, a, p);
        PrecedesIsOlder(exps, a, p);
        assert !AllPrerequisitesAreSatisfied(exps, p);
      }
    }
  }

  /** k is one of the finished prerequisites or precedes one. */
  ghost predicate Under(exps: seq<Exp>, finished: set<nat>, k: nat)
    requires WellFounded(exps)
  {
    exists p | p in finished :: p < |exps| && (k == p || Precedes(exps, k, p))
  }

  /** The finished prerequisites are retired, and everything that precedes them. */
  ghost function RetireDown(exps: seq<Exp>, finished: set<nat>): (r: seq<Exp>)
    requires WellFounded(exps)
    ensures |r| == |exps| && WellFounded(r) && SamePrereqs(exps, r, |exps|)
    ensures forall k: nat | k < |exps| ::
        r[k] == if Under(exps, finished, k) then exps[k].(retired := true) else exps[k]
  {
    seq(|exps|, k requires 0 <= k < |exps| => if Under(exps, finished, k) then exps[k].(retired := true) else exps[k])
  }

  lemma RetireNothing(exps: seq<Exp>)
    requires WellFounded(exps)
    ensures RetireDown(exps, {}) == exps
  {
  }

  lemma RetireDownIsClosed(exps: seq<Exp>, finished: set<nat>)
    requires WellFounded(exps) && RetiredIsClosed(exps)
    ensures RetiredIsClosed(RetireDown(exps, finished))
  {
    var r := RetireDown(exps, finished);
    forall k, p | 0 <= k < |r| && p in r[k].prereqs && 0 <= p < |r| && r[k].retired ensures r[p].retired {
      assert p in exps[k].prereqs;
      if Under(exps, finished, k) {
        var f :| f in finished && f < |exps| && (k == f || Precedes(exps, k, f));
        assert Precedes(exps, p, k);
        if k != f {
          PrecedesIsOlder(exps, k, f);
          PrecedesIsTransitive(exps, p, k, f);
        }
        assert Under(exps, finished, p);
      }
    }
  }

  /** One more direct prerequisite: either it was retired already, and then so was all below it, or the walk
      below it and its own retirement do the rest. */
  lemma RetireDownOneMore(exps: seq<Exp>, finished: set<nat>, before: seq<Exp>, after: seq<Exp>, p: nat)
    requires WellFounded(exps) && RetiredIsClosed(exps) && p < |exps|
    requires before == RetireDown(exps, finished)
    requires after == if before[p].retired then before
      else RetireAllPreRequisites(before, p)[p := RetireAllPreRequisites(before, p)[p].(retired := true)]
    ensures after == RetireDown(exps, finished + {p})
  {
    var goal := RetireDown(exps, finished + {p});
    forall k: nat | k < |exps| ensures after[k] == goal[k] {
      PrecedesDependsOnPrereqs(exps, before, k, p);
      assert Under(exps, finished + {p}, k) <==> Under(exps, finished, k) || k == p || Precedes(exps, k, p) by {
        if k == p || Precedes(exps, k, p) {
          assert p in finished + {p};
        }
        if f :| f in finished && f < |exps| && (k == f || Precedes(exps, k, f)) {
          assert f in finished + {p};
        }
      }
      if before[p].retired && Precedes(exps, k, p) {
        RetireDownIsClosed(exps, finished);
        RetiredPrecedes(before, k, p);
      }
    }
  }

  /** Finishing all direct prerequisites is retiring all prerequisites. */
  lemma RetireDownIsRetireAll(exps: seq<Exp>, i: nat)
    requires WellFounded(exps) && i < |exps|
    ensures RetireDown(exps, exps[i].prereqs) == RetireAllPreRequisites(exps, i)
  {
    forall k: nat | k < |exps| ensures Under(exps, exps[i].prereqs, k) <==> Precedes(exps, k, i) {
    }
  }

  /** The early exit: below a retired expectation everything is retired. */
  lemma RetiredNeedsNothing(exps: seq<Exp>, i: nat)
    requires WellFounded(exps) && RetiredIsClosed(exps) && i < |exps| && exps[i].retired
    ensures RetireAllPreRequisites(exps, i) == exps
  {
    forall k: nat | k < |exps| && Precedes(exps, k, i) ensures exps[k].retired {
      RetiredPrecedes(exps, k, i);
    }
  }

  lemma NotItsOwnPrerequisite(exps: seq<Exp>, i: nat)
    requires WellFounded(exps) && i < |exps|
    ensures !Precedes(exps, i, i)
  {
    if Precedes(exps, i, i) {
      PrecedesIsOlder(exps, i, i);
    }
  }

  lemma CountingKeepsClosed(exps: seq<Exp>, i: nat)
    requires WellFounded(exps) && RetiredIsClosed(exps) && i < |exps|
    ensures var counted := exps[i := exps[i].(callCount := exps[i].callCount + 1)];
      WellFounded(counted) && RetiredIsClosed(counted)
  {
  }
}
