/** How many calls an expectation allows: gmock-cardinalities.h. */
module Cardinalities {

  /** INT_MAX, the upper bound of a cardinality that sets none. */
  const INT_MAX: int := 0x7FFF_FFFF

  /** The Between family: every factory of the header builds one of these. */
  datatype Cardinality = Cardinality(lower: int, upper: int) {

    predicate IsSatisfiedByCallCount(callCount: int) {
      lower <= callCount <= upper
    }

    predicate IsSaturatedByCallCount(callCount: int) {
      callCount >= upper
    }

    predicate IsOverSaturatedByCallCount(callCount: int) {
      IsSaturatedByCallCount(callCount) && !IsSatisfiedByCallCount(callCount)
    }

    /** What every factory below establishes. */
    ghost predicate Valid() {
      0 <= lower <= upper
    }

    /** "Over-saturated" means what its comment says: the maximum number of allowed calls is exceeded.
        This needs the bounds to be ordered: with lower > upper it fails. */
    lemma OverSaturatedMeansPastUpper(callCount: int)
      ensures Valid() ==> (IsOverSaturatedByCallCount(callCount) <==> callCount > upper)
      ensures lower > upper ==> IsOverSaturatedByCallCount(upper)
    {
      if Valid() {
        assert callCount > upper ==> !IsSatisfiedByCallCount(callCount);
      } else if lower > upper {
        assert !IsSatisfiedByCallCount(upper);
      }
    }
  }

  // The factories are only declared in the header. Their bodies meet the comments there for the
  // arguments the comments make sense for; other arguments are clamped so that the bounds are ordered.

  function Between(min: int, max: int): (c: Cardinality)
    ensures c.Valid()
    ensures 0 <= min <= max ==> forall n: int :: c.IsSatisfiedByCallCount(n) <==> min <= n <= max
  {
    var lower := if min >= 0 then min else 0;
    Cardinality(lower, if max >= lower then max else lower)
  }

  function AtLeast(n: int): (c: Cardinality)
    ensures c.Valid()
    ensures forall k: int | 0 <= k <= INT_MAX :: c.IsSatisfiedByCallCount(k) <==> k >= n
  {
    Between(n, INT_MAX)
  }

  function AtMost(n: int): (c: Cardinality)
    ensures c.Valid()
    ensures n >= 0 ==> forall k: nat :: c.IsSatisfiedByCallCount(k) <==> k <= n
  {
    Between(0, n)
  }

  function AnyNumber(): (c: Cardinality)
    ensures c.Valid()
    ensures forall k: int | 0 <= k <= INT_MAX :: c.IsSatisfiedByCallCount(k)
  {
    AtLeast(0)
  }

  function Exactly(n: int): (c: Cardinality)
    ensures c.Valid()
    ensures n >= 0 ==> forall k: int :: c.IsSatisfiedByCallCount(k) <==> k == n
  {
    Between(n, n)
  }
}
