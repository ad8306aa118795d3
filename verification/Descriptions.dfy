/** DescribeTo and DescribeNegationTo: the phrases they write, what the phrases mean, and that they are true. */
module Descriptions {
  import opened Matchers

  /** The verbs of the comparison matchers, with the meaning an English reader gives them. */
  datatype Verb =
    | IsEqualTo | IsntEqualTo | IsLess | IsntLess | IsGreater | IsntGreater
    | IsLessOrEqual | IsntLessOrEqual | IsGreaterOrEqual | IsntGreaterOrEqual

  predicate Says(verb: Verb, a: Value, b: Value) {
    match verb
    case IsEqualTo => a == b
    case IsntEqualTo => !(a == b)
    case IsLess => a.AsInt() < b.AsInt()
    case IsntLess => !(a.AsInt() < b.AsInt())
    case IsGreater => a.AsInt() > b.AsInt()
    case IsntGreater => !(a.AsInt() > b.AsInt())
    case IsLessOrEqual => a.AsInt() <= b.AsInt()
    case IsntLessOrEqual => !(a.AsInt() <= b.AsInt())
    case IsGreaterOrEqual => a.AsInt() >= b.AsInt()
    case IsntGreaterOrEqual => !(a.AsInt() >= b.AsInt())
  }

  function Desc(op: Op): Verb {
    match op
    case Eq => IsEqualTo
    case Ne => IsntEqualTo
    case Lt => IsLess
    case Gt => IsGreater
    case Le => IsLessOrEqual
    case Ge => IsGreaterOrEqual
  }

  function NegatedDesc(op: Op): Verb {
    match op
    case Eq => IsntEqualTo
    case Ne => IsEqualTo
    case Lt => IsntLess
    case Gt => IsntGreater
    case Le => IsntLessOrEqual
    case Ge => IsntGreaterOrEqual
  }

  /** The sentence patterns of the Describe functions, one constructor a pattern. */
  datatype Phrase =
    | IsAnything | NeverMatches
    | Relates(verb: Verb, rhs: Value)
    | AreAPair(op: Op) | ArentAPair(op: Op)
    | Both(p: Phrase, q: Phrase) | OneOf(p: Phrase, q: Phrase)
    | ContainsOneThat(p: Phrase) | ContainsNoneThat(p: Phrase)
    | OnlyContains(p: Phrase) | ContainsSome(p: Phrase)
    | HasKeyThat(p: Phrase) | HasNoKeyThat(p: Phrase)
    | HasFirstAndSecond(p: Phrase, q: Phrase) | HasFirstOrSecond(p: Phrase, q: Phrase)
    | GivenFieldThat(second: bool, p: Phrase)
    | IsEmpty | IsntEmpty
    | HasOneElementThat(p: Phrase)
    | HasElementsWhere(ps: seq<Phrase>) | HasOtherElements(ps: seq<Phrase>)
    | EachPair(values: seq<Value>, p: Phrase) | SomePair(values: seq<Value>, p: Phrase)
    | WhenSortedThat(descending: bool, p: Phrase)

  /** What a phrase says about a value. */
  predicate Means(phrase: Phrase, v: Value)
    decreases phrase, 0
  {
    match phrase
    case IsAnything => true
    case NeverMatches => false
    case Relates(verb, rhs) => Says(verb, v, rhs)
    case AreAPair(op) => Compare(op, v.First(), v.Second())
    case ArentAPair(op) => !Compare(op, v.First(), v.Second())
    case Both(p, q) => Means(p, v) && Means(q, v)
    case OneOf(p, q) => Means(p, v) || Means(q, v)
    case ContainsOneThat(p) => SomeMean(p, v.Elems())
    case ContainsNoneThat(p) => !SomeMean(p, v.Elems())
    case OnlyContains(p) => AllMean(p, v.Elems())
    case ContainsSome(p) => SomeMean(p, v.Elems())
    case HasKeyThat(p) => Means(p, v.First())
    case HasNoKeyThat(p) => !Means(p, v.First())
    case HasFirstAndSecond(p, q) => Means(p, v.First()) && Means(q, v.Second())
    case HasFirstOrSecond(p, q) => Means(p, v.First()) || Means(q, v.Second())
    case GivenFieldThat(second, p) => Means(p, Select(second, v))
    case IsEmpty => |v.Elems()| == 0
    case IsntEmpty => |v.Elems()| != 0
    case HasOneElementThat(p) => |v.Elems()| == 1 && Means(p, v.Elems()[0])
    case HasElementsWhere(ps) => |v.Elems()| == |ps| && EachMeans(ps, v.Elems())
    case HasOtherElements(ps) => |v.Elems()| != |ps| || OneMeans(ps, v.Elems())
    case EachPair(values, p) => |v.Elems()| == |values| && AllMean(p, Couples(v.Elems(), values))
    case SomePair(values, p) => |v.Elems()| != |values| || SomeMean(p, Couples(v.Elems(), values))
    case WhenSortedThat(descending, p) => Means(p, List(Sorted(descending, v.Elems())))
  }

  predicate SomeMean(p: Phrase, elems: seq<Value>)
    decreases p, 1
  {
    exists i | 0 <= i < |elems| :: Means(p, elems[i])
  }

  predicate AllMean(p: Phrase, elems: seq<Value>)
    decreases p, 1
  {
    forall i | 0 <= i < |elems| :: Means(p, elems[i])
  }

  predicate EachMeans(ps: seq<Phrase>, elems: seq<Value>)
    requires |ps| == |elems|
    decreases ps, 1
  {
    forall i | 0 <= i < |ps| :: Means(ps[i], elems[i])
  }

  predicate OneMeans(ps: seq<Phrase>, elems: seq<Value>)
    requires |ps| == |elems|
    decreases ps, 1
  {
    exists i | 0 <= i < |ps| :: Means(ps[i], elems[i])
  }

  /** DescribeTo, as the phrase it writes. */
  function Description(m: Matcher): Phrase
    decreases m
  {
    match m
    case Anything => IsAnything
    case Comparison(op, rhs) => Relates(Desc(op), rhs)
    case TupleComparison(op) => AreAPair(op)
    case Not(inner) => Negation(inner)
    case BothOf(left, right) => Both(Description(left), Description(right))
    case EitherOf(left, right) => OneOf(Description(left), Description(right))
    case Contains(inner) => ContainsOneThat(Description(inner))
    case Each(inner) => OnlyContains(Description(inner))
    case Key(inner) => HasKeyThat(Description(inner))
    case Pair(left, right) => HasFirstAndSecond(Description(left), Description(right))
    case Field(second, inner) => GivenFieldThat(second, Description(inner))
    case ElementsAre(items) =>
      if |items| == 0 then IsEmpty
      else if |items| == 1 then HasOneElementThat(Description(items[0]))
      else HasElementsWhere(seq(|items|, i requires 0 <= i < |items| => Description(items[i])))
    case Pointwise(inner, values) => EachPair(values, Description(inner))
    case WhenSorted(descending, inner) => WhenSortedThat(descending, Description(inner))
  }

  /** DescribeNegationTo, as the phrase it writes. */
  function Negation(m: Matcher): Phrase
    decreases m
  {
    match m
    case Anything => NeverMatches
    case Comparison(op, rhs) => Relates(NegatedDesc(op), rhs)
    case TupleComparison(op) => ArentAPair(op)
    case Not(inner) => Description(inner)
    case BothOf(left, right) => OneOf(Negation(left), Negation(right))
    case EitherOf(left, right) => Both(Negation(left), Negation(right))
    case Contains(inner) => ContainsNoneThat(Description(inner))
    case Each(inner) => ContainsSome(Negation(inner))
    case Key(inner) => HasNoKeyThat(Description(inner))
    case Pair(left, right) => HasFirstOrSecond(Negation(left), Negation(right))
    case Field(second, inner) => GivenFieldThat(second, Negation(inner))
    case ElementsAre(items) =>
      if |items| == 0 then IsntEmpty
      else HasOtherElements(seq(|items|, i requires 0 <= i < |items| => Negation(items[i])))
    case Pointwise(inner, values) => SomePair(values, Negation(inner))
    case WhenSorted(descending, inner) => WhenSortedThat(descending, Negation(inner))
  }

  /** p is a true description of m at v, and n a true description of its negation. */
  predicate Truthful(m: Matcher, p: Phrase, n: Phrase, v: Value) {
    && (Means(p, v) <==> Holds(m, v))
    && (Means(n, v) <==> !Holds(m, v))
  }

  lemma VerbsAreTruthful(op: Op, a: Value, b: Value)
    ensures Says(Desc(op), a, b) <==> Compare(op, a, b)
    ensures Says(NegatedDesc(op), a, b) <==> !Compare(op, a, b)
  {
  }

  /** A description holds of exactly the values that match, a negated one of exactly those that do not. */
  lemma {:induction false} DescriptionsAreTruthful(m: Matcher, v: Value)
    ensures Means(Description(m), v) <==> Holds(m, v)
    ensures Means(Negation(m), v) <==> !Holds(m, v)
    decreases m, 3
  {
    match m
    case Anything =>
    case Comparison(op, rhs) => VerbsAreTruthful(op, v, rhs);
    case TupleComparison(op) =>
    case Not(inner) => NotAndKeyTruthful(inner, v);
    case BothOf(_, _) => JunctionsTruthful(m, v);
    case EitherOf(_, _) => JunctionsTruthful(m, v);
    case Contains(inner) => ContainsTruthful(inner, v);
    case Each(inner) => EachTruthful(inner, v);
    case Key(inner) => NotAndKeyTruthful(inner, v);
    case Pair(_, _) => JunctionsTruthful(m, v);
    case Field(second, inner) => FieldTruthful(second, inner, v);
    case ElementsAre(items) => ElementsAreTruthful(items, v);
    case Pointwise(inner, values) => PointwiseTruthful(inner, values, v);
    case WhenSorted(down, inner) => WhenSortedTruthful(down, inner, v);
  }

  lemma {:induction false} JunctionsTruthful(m: Matcher, v: Value)
    requires m.BothOf? || m.EitherOf? || m.Pair?
    ensures Truthful(m, Description(m), Negation(m), v)
    decreases m, 1
  {
    DescriptionsAreTruthful(m.left, if m.Pair? then v.First() else v);
    DescriptionsAreTruthful(m.right, if m.Pair? then v.Second() else v);
  }

  lemma {:induction false} NotAndKeyTruthful(inner: Matcher, v: Value)
    ensures Truthful(Not(inner), Description(Not(inner)), Negation(Not(inner)), v)
    ensures Truthful(Key(inner), Description(Key(inner)), Negation(Key(inner)), v)
    decreases inner, 4
  {
    DescriptionsAreTruthful(inner, v);
    DescriptionsAreTruthful(inner, v.First());
  }

  lemma {:induction false} FieldTruthful(second: bool, inner: Matcher, v: Value)
    ensures var m := Field(second, inner); Truthful(m, Description(m), Negation(m), v)
    decreases inner, 4
  {
    var m := Field(second, inner);
    assert Description(m) == GivenFieldThat(second, Description(inner));
    assert Negation(m) == GivenFieldThat(second, Negation(inner));
    assert Holds(m, v) == Holds(inner, Select(second, v));
    DescriptionsAreTruthful(inner, Select(second, v));
  }

  lemma {:induction false} WhenSortedTruthful(down: bool, inner: Matcher, v: Value)
    ensures var m := WhenSorted(down, inner); Truthful(m, Description(m), Negation(m), v)
    decreases inner, 4
  {
    var m, sorted := WhenSorted(down, inner), List(Sorted(down, v.Elems()));
    assert Description(m) == WhenSortedThat(down, Description(inner));
    assert Negation(m) == WhenSortedThat(down, Negation(inner));
    assert Holds(m, v) == Holds(inner, sorted);
    DescriptionsAreTruthful(inner, sorted);
  }

  lemma {:induction false} ContainsTruthful(inner: Matcher, v: Value)
    ensures Truthful(Contains(inner), Description(Contains(inner)), Negation(Contains(inner)), v)
    decreases inner, 5
  {
    QuantifiersTruthful(inner, v.Elems());
  }

  lemma {:induction false} EachTruthful(inner: Matcher, v: Value)
    ensures Truthful(Each(inner), Description(Each(inner)), Negation(Each(inner)), v)
    decreases inner, 5
  {
    QuantifiersTruthful(inner, v.Elems());
  }

  lemma {:induction false} PointwiseTruthful(inner: Matcher, values: seq<Value>, v: Value)
    ensures var m := Pointwise(inner, values); Truthful(m, Description(m), Negation(m), v)
    decreases inner, 5
  {
    var m, p, n := Pointwise(inner, values), Description(inner), Negation(inner);
    assert Description(m) == EachPair(values, p) && Negation(m) == SomePair(values, n);
    if |v.Elems()| == |values| {
      QuantifiersTruthful(inner, Couples(v.Elems(), values));
    }
    PairPatternsTruthful(inner, p, n, values, v);
  }

  lemma {:induction false} PairPatternsTruthful(inner: Matcher, p: Phrase, n: Phrase, values: seq<Value>, v: Value)
    requires |v.Elems()| == |values| ==>
      var c := Couples(v.Elems(), values);
      (AllMean(p, c) <==> AllHold(inner, c)) && (SomeMean(n, c) <==> !AllHold(inner, c))
    ensures Truthful(Pointwise(inner, values), EachPair(values, p), SomePair(values, n), v)
  {
    assert Holds(Pointwise(inner, values), v) ==> |v.Elems()| == |values|;
  }

  lemma {:induction false} ElementsAreTruthful(items: seq<Matcher>, v: Value)
    ensures Truthful(ElementsAre(items), Description(ElementsAre(items)), Negation(ElementsAre(items)), v)
    decreases ElementsAre(items), 1
  {
    ItemsTruthful(items, v.Elems());
  }

  /** The two quantifiers over a container, and the descriptions of their negations. */
  lemma {:induction false} QuantifiersTruthful(inner: Matcher, elems: seq<Value>)
    ensures SomeMean(Description(inner), elems) <==> SomeHold(inner, elems)
    ensures AllMean(Description(inner), elems) <==> AllHold(inner, elems)
    ensures SomeMean(Negation(inner), elems) <==> !AllHold(inner, elems)
    decreases inner, 4
  {
    forall i | 0 <= i < |elems|
      ensures Truthful(inner, Description(inner), Negation(inner), elems[i])
    {
      DescriptionsAreTruthful(inner, elems[i]);
    }
  }

  /** The list patterns. */
  lemma {:induction false} ItemsTruthful(items: seq<Matcher>, elems: seq<Value>)
    ensures |items| == |elems| ==>
      var ps := seq(|items|, i requires 0 <= i < |items| => Description(items[i]));
      var ns := seq(|items|, i requires 0 <= i < |items| => Negation(items[i]));
      && (EachMeans(ps, elems) <==> EachHolds(items, elems))
      && (OneMeans(ns, elems) <==> !EachHolds(items, elems))
    decreases items, 4
  {
    if |items| == |elems| {
      var ps := seq(|items|, i requires 0 <= i < |items| => Description(items[i]));
      var ns := seq(|items|, i requires 0 <= i < |items| => Negation(items[i]));
      forall i | 0 <= i < |items|
        ensures Truthful(items[i], ps[i], ns[i], elems[i])
      {
        DescriptionsAreTruthful(items[i], elems[i]);
      }
    }
  }
}
