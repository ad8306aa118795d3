/** AllOf and AnyOf of many matchers: how the binary matchers are nested makes no difference. */
module Bracketing {
  import opened Matchers

  /** A nesting of binary matchers over a list of leaves. */
  datatype Tree = Leaf(m: Matcher) | Node(left: Tree, right: Tree)

  function Leaves(t: Tree): seq<Matcher> {
    match t
    case Leaf(m) => [m]
    case Node(left, right) => Leaves(left) + Leaves(right)
  }

  /** The matcher a nesting stands for: all picks AllOf, otherwise AnyOf. */
  function Build(all: bool, t: Tree): Matcher {
    match t
    case Leaf(m) => m
    case Node(left, right) =>
      if all then BothOf(Build(all, left), Build(all, right)) else EitherOf(Build(all, left), Build(all, right))
  }

  /** The nesting of the generated overloads: the first half, rounded down, against the rest. */
  function Balanced(ms: seq<Matcher>): Tree
    requires |ms| >= 1
  {
    if |ms| == 1 then Leaf(ms[0])
    else Node(Balanced(ms[..|ms| / 2]), Balanced(ms[|ms| / 2..]))
  }

  /** The nesting of the variadic MatcherList: the head against the list of the tail. */
  function RightNested(ms: seq<Matcher>): Tree
    requires |ms| >= 1
  {
    if |ms| == 1 then Leaf(ms[0]) else Node(Leaf(ms[0]), RightNested(ms[1..]))
  }

  lemma {:induction false} BalancedLeaves(ms: seq<Matcher>)
    requires |ms| >= 1
    ensures Leaves(Balanced(ms)) == ms
  {
    if |ms| > 1 {
      var first, rest := ms[..|ms| / 2], ms[|ms| / 2..];
      BalancedLeaves(first);
      BalancedLeaves(rest);
      assert Balanced(ms) == Node(Balanced(first), Balanced(rest));
      assert ms == first + rest;
    }
  }

  /** The two sides of a balanced nesting are the halves of the list, the first rounded down. */
  lemma BalancedSplits(ms: seq<Matcher>)
    requires |ms| >= 2
    ensures Balanced(ms).Node?
    ensures Leaves(Balanced(ms).left) == ms[..|ms| / 2] && Leaves(Balanced(ms).right) == ms[|ms| / 2..]
  {
    BalancedLeaves(ms[..|ms| / 2]);
    BalancedLeaves(ms[|ms| / 2..]);
  }

  lemma {:induction false} RightNestedLeaves(ms: seq<Matcher>)
    requires |ms| >= 1
    ensures Leaves(RightNested(ms)) == ms
  {
    if |ms| > 1 {
      RightNestedLeaves(ms[1..]);
      assert ms == [ms[0]] + ms[1..];
    }
  }

  // ---------- What a list of matchers says, with no nesting at all ----------

  /** All (or any) of the matchers accept v. */
  predicate ListHolds(all: bool, ms: seq<Matcher>, v: Value) {
    if all then forall i | 0 <= i < |ms| :: Holds(ms[i], v) else exists i | 0 <= i < |ms| :: Holds(ms[i], v)
  }

  /** Every explanation that says something, in order, with ", and " between them. */
  function JoinAll(ms: seq<Matcher>, v: Value): Text {
    if ms == [] then [] else Join(Explain(ms[0], v), JoinAll(ms[1..], v))
  }

  /** The explanation of the first matcher that settles the result, or all of them when none does. */
  function ListExplains(all: bool, ms: seq<Matcher>, v: Value): Text {
    if ListHolds(all, ms, v) == all then JoinAll(ms, v) else FirstSettling(all, ms, v)
  }

  function FirstSettling(all: bool, ms: seq<Matcher>, v: Value): Text {
    if ms == [] then []
    else if Holds(ms[0], v) != all then Explain(ms[0], v)
    else FirstSettling(all, ms[1..], v)
  }

  lemma JoinAssociates(a: Text, b: Text, c: Text)
    ensures Join(Join(a, b), c) == Join(a, Join(b, c))
  {
    if a != [] && b != [] && c != [] {
      var sep := [Say(CommaAnd)];
      assert ((a + sep) + b + sep) + c == (a + sep) + ((b + sep) + c);
    }
  }

  lemma {:induction false} JoinAllAppends(a: seq<Matcher>, b: seq<Matcher>, v: Value)
    ensures JoinAll(a + b, v) == Join(JoinAll(a, v), JoinAll(b, v))
  {
    if a == [] {
      assert a + b == b;
    } else {
      JoinAllAppends(a[1..], b, v);
      assert a + b == [a[0]] + (a[1..] + b);
      assert (a + b)[1..] == a[1..] + b;
      JoinAssociates(Explain(a[0], v), JoinAll(a[1..], v), JoinAll(b, v));
    }
  }

  lemma {:induction false} FirstSettlingAppends(all: bool, a: seq<Matcher>, b: seq<Matcher>, v: Value)
    ensures FirstSettling(all, a + b, v)
         == if ListHolds(all, a, v) != all then FirstSettling(all, a, v) else FirstSettling(all, b, v)
  {
    if a == [] {
      assert a + b == b;
    } else {
      FirstSettlingAppends(all, a[1..], b, v);
      assert (a + b)[1..] == a[1..] + b;
      ListHoldsAppends(all, [a[0]], a[1..], v);
      assert [a[0]] + a[1..] == a;
    }
  }

  lemma ListHoldsAppends(all: bool, a: seq<Matcher>, b: seq<Matcher>, v: Value)
    ensures ListHolds(all, a + b, v)
         == if all then ListHolds(all, a, v) && ListHolds(all, b, v) else ListHolds(all, a, v) || ListHolds(all, b, v)
  {
    var c := a + b;
    assert forall i | 0 <= i < |a| :: c[i] == a[i];
    assert forall i | 0 <= i < |b| :: c[|a| + i] == b[i];
  }

  lemma ListExplainsAppends(all: bool, a: seq<Matcher>, b: seq<Matcher>, v: Value)
    ensures ListExplains(all, a + b, v)
         == if ListHolds(all, a, v) != all then ListExplains(all, a, v)
            else if ListHolds(all, b, v) != all then ListExplains(all, b, v)
            else Join(ListExplains(all, a, v), ListExplains(all, b, v))
  {
    ListHoldsAppends(all, a, b, v);
    JoinAllAppends(a, b, v);
    FirstSettlingAppends(all, a, b, v);
  }

  /** A nesting matches and explains exactly as its list of leaves does. */
  lemma {:induction false} NestingIsItsLeaves(all: bool, t: Tree, v: Value)
    ensures Holds(Build(all, t), v) == ListHolds(all, Leaves(t), v)
    ensures Explain(Build(all, t), v) == ListExplains(all, Leaves(t), v)
  {
    match t
    case Leaf(m) =>
      assert ListHolds(all, [m], v) == Holds(m, v) by {
        assert [m][0] == m;
      }
      assert JoinAll([m], v) == Explain(m, v);
    case Node(left, right) =>
      NestingIsItsLeaves(all, left, v);
      NestingIsItsLeaves(all, right, v);
      ListHoldsAppends(all, Leaves(left), Leaves(right), v);
      ListExplainsAppends(all, Leaves(left), Leaves(right), v);
  }

  /** Two nestings of the same matchers in the same order cannot be told apart by matching. */
  lemma BracketingDoesNotMatter(all: bool, t1: Tree, t2: Tree, v: Value)
    requires Leaves(t1) == Leaves(t2)
    ensures Holds(Build(all, t1), v) == Holds(Build(all, t2), v)
    ensures Explain(Build(all, t1), v) == Explain(Build(all, t2), v)
  {
    NestingIsItsLeaves(all, t1, v);
    NestingIsItsLeaves(all, t2, v);
  }

  /** In particular the generated overloads and the variadic list build equivalent matchers. */
  lemma OverloadsAgreeWithVariadic(all: bool, ms: seq<Matcher>, v: Value)
    requires |ms| >= 1
    ensures Holds(Build(all, Balanced(ms)), v) == Holds(Build(all, RightNested(ms)), v) == ListHolds(all, ms, v)
    ensures Explain(Build(all, Balanced(ms)), v) == Explain(Build(all, RightNested(ms)), v)
         == ListExplains(all, ms, v)
  {
    BalancedLeaves(ms);
    RightNestedLeaves(ms);
    NestingIsItsLeaves(all, Balanced(ms), v);
    NestingIsItsLeaves(all, RightNested(ms), v);
  }
}
