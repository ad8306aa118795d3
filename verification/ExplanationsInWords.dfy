/** What the matchers explain, sentence by sentence: who is named, which verb is used, and that all of it is
    true. */
module ExplanationsInWords {
  import opened Matchers

  // ---------- AllOf, AnyOf and Not ----------

  /** AllOf passes on what the first failure explains, and joins what both explain when both match. */
  lemma BothOfExplained(m: Matcher, n: Matcher, v: Value)
    ensures var t, a, b := Explain(BothOf(m, n), v), Explain(m, v), Explain(n, v);
      && (!Holds(m, v) ==> t == a)
      && (Holds(m, v) && !Holds(n, v) ==> t == b)
      && (Holds(m, v) && Holds(n, v) ==>
            t == if a == [] then b else if b == [] then a else a + [Say(CommaAnd)] + b)
  {
  }

  /** AnyOf passes on what the first success explains, and joins what both explain when neither matches. */
  lemma EitherOfExplained(m: Matcher, n: Matcher, v: Value)
    ensures var t, a, b := Explain(EitherOf(m, n), v), Explain(m, v), Explain(n, v);
      && (Holds(m, v) ==> t == a)
      && (!Holds(m, v) && Holds(n, v) ==> t == b)
      && (!Holds(m, v) && !Holds(n, v) ==>
            t == if a == [] then b else if b == [] then a else a + [Say(CommaAnd)] + b)
  {
  }

  lemma NotExplained(m: Matcher, v: Value)
    ensures Explain(Not(m), v) == Explain(m, v)
  {
  }

  // ---------- Containers ----------

  /** The element named is the first that matches. */
  lemma ContainsExplained(m: Matcher, s: seq<Value>, k: nat)
    requires k <= |s| && (forall j | 0 <= j < k :: !Holds(m, s[j])) && (k < |s| ==> Holds(m, s[k]))
    ensures Explain(Contains(m), List(s)) ==
      if k == |s| then []
      else
        var why := Explain(m, s[k]);
        [Say(WhoseElement), Int(k), Say(DoesMatch)] + if why == [] then [] else [Say(Comma)] + why
  {
    assert FirstOther(m, false, s, 0) == k;
  }

  /** The element named is the first that does not match. */
  lemma EachExplained(m: Matcher, s: seq<Value>, k: nat)
    requires k <= |s| && (forall j | 0 <= j < k :: Holds(m, s[j])) && (k < |s| ==> !Holds(m, s[k]))
    ensures Explain(Each(m), List(s)) ==
      if k == |s| then []
      else
        var why := Explain(m, s[k]);
        [Say(WhoseElement), Int(k), Say(DoesntMatch)] + if why == [] then [] else [Say(Comma)] + why
  {
    assert FirstOther(m, true, s, 0) == k;
  }

  /** A wrong number of elements is named, unless it is 0. */
  lemma ElementsAreCounted(ms: seq<Matcher>, s: seq<Value>)
    requires |s| != |ms|
    ensures Explain(ElementsAre(ms), List(s)) ==
      if |s| == 0 then [] else if |s| == 1 then [Say(WhichHas), Int(1), Say(OneElement)]
      else [Say(WhichHas), Int(|s|), Say(ManyElements)]
  {
  }

  /** The element named is the first that its own matcher rejects. */
  lemma ElementsAreMismatch(ms: seq<Matcher>, s: seq<Value>, k: nat)
    requires k < |s| == |ms| && (forall j | 0 <= j < k :: Holds(ms[j], s[j])) && !Holds(ms[k], s[k])
    ensures var why := Explain(ms[k], s[k]);
      Explain(ElementsAre(ms), List(s))
      == [Say(WhoseElement), Int(k), Say(DoesntMatch)] + if why == [] then [] else [Say(Comma)] + why
  {
    assert FirstMismatch(ms, s, 0) == k;
  }

  /** The sentences about the elements that have one, numbered from at. */
  function Sentences(explanations: seq<Text>, at: nat): seq<Text>
    decreases explanations
  {
    if explanations == [] then []
    else
      (if explanations[0] == [] then [] else [[Say(WhoseElement), Int(at), Say(MatchesBecause)] + explanations[0]])
      + Sentences(explanations[1..], at + 1)
  }

  /** One after the other, with a separator between them. */
  function Listed(sentences: seq<Text>): Text {
    if sentences == [] then []
    else if |sentences| == 1 then sentences[0]
    else sentences[0] + [Say(CommaNewlineAnd)] + Listed(sentences[1..])
  }

  /** When all match, the elements that have an explanation are listed with it. */
  lemma ElementsAreMatch(ms: seq<Matcher>, s: seq<Value>, explanations: seq<Text>)
    requires |s| == |ms| == |explanations| && forall j | 0 <= j < |s| :: Holds(ms[j], s[j])
    requires forall j | 0 <= j < |s| :: explanations[j] == Explain(ms[j], s[j])
    ensures Explain(ElementsAre(ms), List(s)) == Listed(Sentences(explanations, 0))
  {
    assert explanations == seq(|ms|, i requires 0 <= i < |ms| => Explain(ms[i], s[i]));
    ReasonsAreListed(explanations, |ms|);
    assert explanations[..|ms|] == explanations;
    AllMatched(ms, s);
  }

  lemma AllMatched(ms: seq<Matcher>, s: seq<Value>)
    requires |s| == |ms| && forall j | 0 <= j < |s| :: Holds(ms[j], s[j])
    ensures Explain(ElementsAre(ms), List(s))
         == MatchedReasons(seq(|ms|, i requires 0 <= i < |ms| => Explain(ms[i], s[i])), |ms|)
  {
    assert FirstMismatch(ms, s, 0) == |s|;
  }

  lemma {:induction false} ReasonsAreListed(explanations: seq<Text>, k: nat)
    requires k <= |explanations|
    ensures MatchedReasons(explanations, k) == Listed(Sentences(explanations[..k], 0))
    ensures MatchedReasons(explanations, k) == [] <==> Sentences(explanations[..k], 0) == []
  {
    if k > 0 {
      var before, e := explanations[..k - 1], explanations[k - 1];
      ReasonsAreListed(explanations, k - 1);
      assert explanations[..k] == before + [e];
      OneMoreSentence(before, 0, e);
      if e == [] {
        assert Sentences(before, 0) + [] == Sentences(before, 0);
      } else {
        var about := [Say(WhoseElement), Int(k - 1), Say(MatchesBecause)];
        OneMoreListed(Sentences(before, 0), about + e);
        Regroup(MatchedReasons(explanations, k - 1), about, e);
      }
    }
  }

  lemma Regroup(before: Text, about: Text, e: Text)
    ensures before + (if before != [] then [Say(CommaNewlineAnd)] else []) + about + e
         == if before == [] then about + e else before + [Say(CommaNewlineAnd)] + (about + e)
  {
  }

  lemma {:induction false} OneMoreSentence(explanations: seq<Text>, at: nat, e: Text)
    ensures Sentences(explanations + [e], at)
         == Sentences(explanations, at)
            + if e == [] then [] else [[Say(WhoseElement), Int(at + |explanations|), Say(MatchesBecause)] + e]
    decreases explanations
  {
    if explanations == [] {
      assert (explanations + [e])[1..] == [];
    } else {
      assert (explanations + [e])[1..] == explanations[1..] + [e];
      OneMoreSentence(explanations[1..], at + 1, e);
    }
  }

  lemma {:induction false} OneMoreListed(sentences: seq<Text>, last: Text)
    ensures Listed(sentences + [last])
         == if sentences == [] then last else Listed(sentences) + [Say(CommaNewlineAnd)] + last
  {
    if |sentences| > 0 {
      assert (sentences + [last])[1..] == sentences[1..] + [last];
      OneMoreListed(sentences[1..], last);
    }
  }

  /** A wrong number of elements is named; otherwise the pair named is the first that does not match. */
  lemma PointwiseCounted(m: Matcher, values: seq<Value>, s: seq<Value>)
    requires |s| != |values|
    ensures Explain(Pointwise(m, values), List(s)) == [Say(WhichContains), Int(|s|), Say(Values)]
  {
  }

  lemma PointwiseExplained(m: Matcher, values: seq<Value>, s: seq<Value>, k: nat)
    requires k <= |s| == |values| && (forall j | 0 <= j < k :: Holds(m, Couple(s[j], values[j])))
    requires k < |s| ==> !Holds(m, Couple(s[k], values[k]))
    ensures Explain(Pointwise(m, values), List(s)) ==
      if k == |s| then []
      else
        var why := Explain(m, Couple(s[k], values[k]));
        [Say(ValuePair), Printed(s[k]), Say(Comma), Printed(values[k]), Say(AtIndex), Int(k), Say(DontMatch)]
        + if why == [] then [] else [Say(Comma)] + why
  {
    assert FirstOther(m, true, Couples(s, values), 0) == k;
  }

  /** What is printed is the sorted container, and it is what the inner matcher explains. */
  lemma WhenSortedExplained(descending: bool, m: Matcher, s: seq<Value>)
    ensures var sorted := List(Sorted(descending, s));
      var why := Explain(m, sorted);
      Explain(WhenSorted(descending, m), List(s))
      == [Say(WhichIs), Printed(sorted), Say(WhenSortedWord)] + if why == [] then [] else [Say(Comma)] + why
  {
    WhenSortedText(descending, m, s, List(Sorted(descending, s)));
  }

  lemma WhenSortedText(descending: bool, m: Matcher, s: seq<Value>, sorted: Value)
    requires sorted == List(Sorted(descending, s))
    ensures Explain(WhenSorted(descending, m), List(s))
         == [Say(WhichIs), Printed(sorted), Say(WhenSortedWord)] + IfNotEmpty(Explain(m, sorted))
  {
  }

  // ---------- Fields ----------

  lemma KeyExplained(m: Matcher, a: Value, b: Value)
    ensures var why := Explain(m, a);
      Explain(Key(m), Couple(a, b)) == if why == [] then [] else [Say(WhoseFirstField)] + why
  {
  }

  /** The field named is the first that fails. */
  lemma PairMismatch(m: Matcher, n: Matcher, a: Value, b: Value)
    requires !(Holds(m, a) && Holds(n, b))
    ensures var t, why := Explain(Pair(m, n), Couple(a, b)), if Holds(m, a) then Explain(n, b) else Explain(m, a);
      t == [Say(if Holds(m, a) then SecondFieldNoMatch else FirstFieldNoMatch)]
           + if why == [] then [] else [Say(Comma)] + why
  {
  }

  /** When neither does, each explanation goes with its own field. */
  lemma PairMatch(m: Matcher, n: Matcher, a: Value, b: Value)
    requires Holds(m, a) && Holds(n, b)
    ensures var t, why1, why2 := Explain(Pair(m, n), Couple(a, b)), Explain(m, a), Explain(n, b);
      t == if why1 == [] && why2 == [] then [Say(BothFields)]
           else if why2 == [] then [Say(BothFields), Say(WhereFirst)] + why1
           else if why1 == [] then [Say(BothFields), Say(Comma), Say(Where), Say(SecondFieldIs)] + why2
           else [Say(BothFields), Say(WhereFirst)] + why1 + [Say(Comma), Say(And), Say(SecondFieldIs)] + why2
  {
    PairText(m, n, a, b);
    BothFieldsInWords(Explain(m, a), Explain(n, b));
  }

  lemma PairText(m: Matcher, n: Matcher, a: Value, b: Value)
    requires Holds(m, a) && Holds(n, b)
    ensures Explain(Pair(m, n), Couple(a, b)) == BothFieldsMatch(Explain(m, a), Explain(n, b))
  {
  }

  lemma BothFieldsInWords(why1: Text, why2: Text)
    ensures BothFieldsMatch(why1, why2)
         == if why1 == [] && why2 == [] then [Say(BothFields)]
            else if why2 == [] then [Say(BothFields), Say(WhereFirst)] + why1
            else if why1 == [] then [Say(BothFields), Say(Comma), Say(Where), Say(SecondFieldIs)] + why2
            else [Say(BothFields), Say(WhereFirst)] + why1 + [Say(Comma), Say(And), Say(SecondFieldIs)] + why2
  {
  }

  /** The value printed is the one of the field that is asked about. */
  lemma FieldExplained(second: bool, m: Matcher, a: Value, b: Value)
    ensures var member := if second then b else a;
      var why := Explain(m, member);
      Explain(Field(second, m), Couple(a, b))
      == [Say(GivenField), Printed(member), OfType(member)] + if why == [] then [] else [Say(Comma)] + why
  {
  }

  // ---------- All of it is true ----------

  /** head, and then possibly a reason: something true of the inner matcher and what it was asked about. */
  ghost predicate WithReason(t: Text, head: Text, m: Matcher, v: Value)
    decreases m, 1
  {
    exists why: Text :: IsTrue(m, v, why) && t == head + if why == [] then [] else [Say(Comma)] + why
  }

  /** What a text says about a matcher and a value holds: each sentence has the meaning an English reader gives
      it, down to the innermost reason. Saying nothing is true. */
  ghost predicate IsTrue(m: Matcher, v: Value, t: Text)
    decreases m, 0
  {
    t == [] ||
    match m
    case Anything => false
    case Comparison(_, _) => false
    case TupleComparison(_) => false
    case Not(inner) => IsTrue(inner, v, t)
    case BothOf(left, right) =>
      if !Holds(left, v) then IsTrue(left, v, t)
      else if !Holds(right, v) then IsTrue(right, v, t)
      else exists a: Text, b: Text :: IsTrue(left, v, a) && IsTrue(right, v, b) && t == Join(a, b)
    case EitherOf(left, right) =>
      if Holds(left, v) then IsTrue(left, v, t)
      else if Holds(right, v) then IsTrue(right, v, t)
      else exists a: Text, b: Text :: IsTrue(left, v, a) && IsTrue(right, v, b) && t == Join(a, b)
    case Contains(inner) =>
      exists k: nat :: k < |v.Elems()| && Holds(inner, v.Elems()[k])
        && WithReason(t, [Say(WhoseElement), Int(k), Say(DoesMatch)], inner, v.Elems()[k])
    case Each(inner) =>
      exists k: nat :: k < |v.Elems()| && !Holds(inner, v.Elems()[k])
        && WithReason(t, [Say(WhoseElement), Int(k), Say(DoesntMatch)], inner, v.Elems()[k])
    case Key(inner) => exists why: Text :: IsTrue(inner, v.First(), why) && t == [Say(WhoseFirstField)] + why
    case Pair(left, right) =>
      || (!Holds(left, v.First()) && WithReason(t, [Say(FirstFieldNoMatch)], left, v.First()))
      || (!Holds(right, v.Second()) && WithReason(t, [Say(SecondFieldNoMatch)], right, v.Second()))
      || (Holds(left, v.First()) && Holds(right, v.Second())
          && exists a: Text, b: Text :: IsTrue(left, v.First(), a) && IsTrue(right, v.Second(), b)
               && t == BothFieldsMatch(a, b))
    case Field(second, inner) =>
      var member := Select(second, v);
      WithReason(t, [Say(GivenField), Printed(member), OfType(member)], inner, member)
    case ElementsAre(items) =>
      var elems := v.Elems();
      if |elems| != |items| then t == [Say(WhichHas)] + Elements(|elems|)
      else
        || (exists k: nat :: k < |elems| && !Holds(items[k], elems[k])
              && WithReason(t, [Say(WhoseElement), Int(k), Say(DoesntMatch)], items[k], elems[k]))
        || ((forall k | 0 <= k < |elems| :: Holds(items[k], elems[k]))
            && exists whys: seq<Text> :: |whys| == |elems| && t == Listed(Sentences(whys, 0))
                 && forall k | 0 <= k < |elems| :: IsTrue(items[k], elems[k], whys[k]))
    case Pointwise(inner, values) =>
      var elems := v.Elems();
      if |elems| != |values| then t == [Say(WhichContains), Int(|elems|), Say(Values)]
      else
        exists k: nat :: k < |elems| && !Holds(inner, Couple(elems[k], values[k]))
          && WithReason(t, [Say(ValuePair), Printed(elems[k]), Say(Comma), Printed(values[k]), Say(AtIndex),
                            Int(k), Say(DontMatch)], inner, Couple(elems[k], values[k]))
    case WhenSorted(descending, inner) =>
      var sorted := List(Sorted(descending, v.Elems()));
      WithReason(t, [Say(WhichIs), Printed(sorted), Say(WhenSortedWord)], inner, sorted)
  }

  lemma Reason(head: Text, m: Matcher, v: Value)
    requires IsTrue(m, v, Explain(m, v))
    ensures WithReason(head + IfNotEmpty(Explain(m, v)), head, m, v)
  {
  }

  /** Every explanation is true. */
  lemma {:induction false} ExplanationIsTrue(m: Matcher, v: Value)
    ensures IsTrue(m, v, Explain(m, v))
    decreases m, 2
  {
    match m
    case Anything =>
    case Comparison(_, _) =>
    case TupleComparison(_) =>
    case Not(inner) => ExplanationIsTrue(inner, v);
    case BothOf(left, right) => BothOfIsTrue(left, right, v);
    case EitherOf(left, right) => EitherOfIsTrue(left, right, v);
    case Contains(inner) => ContainsIsTrue(inner, v);
    case Each(inner) => EachIsTrue(inner, v);
    case Key(inner) => ExplanationIsTrue(inner, v.First());
    case Pair(left, right) => PairIsTrue(left, right, v);
    case Field(second, inner) => FieldIsTrue(second, inner, v);
    case ElementsAre(items) => ElementsAreIsTrue(items, v);
    case Pointwise(inner, values) => PointwiseIsTrue(inner, values, v);
    case WhenSorted(descending, inner) => WhenSortedIsTrue(descending, inner, v);
  }

  lemma {:induction false} BothOfIsTrue(left: Matcher, right: Matcher, v: Value)
    ensures IsTrue(BothOf(left, right), v, Explain(BothOf(left, right), v))
    decreases BothOf(left, right), 1
  {
    ExplanationIsTrue(left, v);
    ExplanationIsTrue(right, v);
    BothOfExplained(left, right, v);
  }

  lemma {:induction false} EitherOfIsTrue(left: Matcher, right: Matcher, v: Value)
    ensures IsTrue(EitherOf(left, right), v, Explain(EitherOf(left, right), v))
    decreases EitherOf(left, right), 1
  {
    ExplanationIsTrue(left, v);
    ExplanationIsTrue(right, v);
    EitherOfExplained(left, right, v);
  }

  lemma {:induction false} ContainsIsTrue(inner: Matcher, v: Value)
    ensures IsTrue(Contains(inner), v, Explain(Contains(inner), v))
    decreases Contains(inner), 1
  {
    var k := FirstOther(inner, false, v.Elems(), 0);
    if k < |v.Elems()| {
      ExplanationIsTrue(inner, v.Elems()[k]);
      Reason([Say(WhoseElement), Int(k), Say(DoesMatch)], inner, v.Elems()[k]);
    }
  }

  lemma {:induction false} EachIsTrue(inner: Matcher, v: Value)
    ensures IsTrue(Each(inner), v, Explain(Each(inner), v))
    decreases Each(inner), 1
  {
    var k := FirstOther(inner, true, v.Elems(), 0);
    if k < |v.Elems()| {
      ExplanationIsTrue(inner, v.Elems()[k]);
      Reason([Say(WhoseElement), Int(k), Say(DoesntMatch)], inner, v.Elems()[k]);
    }
  }

  lemma {:induction false} PairIsTrue(left: Matcher, right: Matcher, v: Value)
    ensures IsTrue(Pair(left, right), v, Explain(Pair(left, right), v))
    decreases Pair(left, right), 1
  {
    ExplanationIsTrue(left, v.First());
    ExplanationIsTrue(right, v.Second());
    Reason([Say(FirstFieldNoMatch)], left, v.First());
    Reason([Say(SecondFieldNoMatch)], right, v.Second());
  }

  lemma {:induction false} FieldIsTrue(second: bool, inner: Matcher, v: Value)
    ensures IsTrue(Field(second, inner), v, Explain(Field(second, inner), v))
    decreases Field(second, inner), 1
  {
    var member := Select(second, v);
    var head := [Say(GivenField), Printed(member), OfType(member)];
    ExplanationIsTrue(inner, member);
    Reason(head, inner, member);
    FieldText(second, inner, v);
  }

  lemma FieldText(second: bool, inner: Matcher, v: Value)
    ensures var member := Select(second, v);
      Explain(Field(second, inner), v)
      == [Say(GivenField), Printed(member), OfType(member)] + IfNotEmpty(Explain(inner, member))
  {
  }

  lemma {:induction false} ElementsAreIsTrue(items: seq<Matcher>, v: Value)
    ensures IsTrue(ElementsAre(items), v, Explain(ElementsAre(items), v))
    decreases ElementsAre(items), 1
  {
    var elems := v.Elems();
    if |elems| == |items| {
      var k := FirstMismatch(items, elems, 0);
      if k < |items| {
        ExplanationIsTrue(items[k], elems[k]);
        Reason([Say(WhoseElement), Int(k), Say(DoesntMatch)], items[k], elems[k]);
      } else {
        var whys := seq(|items|, i requires 0 <= i < |items| => Explain(items[i], elems[i]));
        forall i | 0 <= i < |elems| ensures IsTrue(items[i], elems[i], whys[i]) {
          ExplanationIsTrue(items[i], elems[i]);
        }
        ReasonsAreListed(whys, |whys|);
        assert whys[..|whys|] == whys;
      }
    }
  }

  lemma {:induction false} PointwiseIsTrue(inner: Matcher, values: seq<Value>, v: Value)
    ensures IsTrue(Pointwise(inner, values), v, Explain(Pointwise(inner, values), v))
    decreases Pointwise(inner, values), 1
  {
    var elems := v.Elems();
    if |elems| == |values| {
      var couples := Couples(elems, values);
      var k := FirstOther(inner, true, couples, 0);
      if k < |couples| {
        ExplanationIsTrue(inner, couples[k]);
        Reason([Say(ValuePair), Printed(elems[k]), Say(Comma), Printed(values[k]), Say(AtIndex),
                Int(k), Say(DontMatch)], inner, couples[k]);
      }
    }
  }

  lemma {:induction false} WhenSortedIsTrue(descending: bool, inner: Matcher, v: Value)
    ensures IsTrue(WhenSorted(descending, inner), v, Explain(WhenSorted(descending, inner), v))
    decreases WhenSorted(descending, inner), 1
  {
    var sorted := List(Sorted(descending, v.Elems()));
    ExplanationIsTrue(inner, sorted);
    Reason([Say(WhichIs), Printed(sorted), Say(WhenSortedWord)], inner, sorted);
  }
}
