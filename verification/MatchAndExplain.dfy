/** MatchAndExplain and MatchPrintAndExplain of gmock-matchers.h, with listeners that are objects. */
module MatchAndExplain {
  import opened Matchers

  /** MatchResultListener: it keeps what is streamed to it when it has a stream, and nothing otherwise. */
  class Listener {
    const interested: bool
    var text: Text

    constructor (interested: bool)
      ensures this.interested == interested && text == []
    {
      this.interested := interested;
      text := [];
    }

    function Heard(x: Text): Text { if interested then x else [] }

    /** operator<<. */
    method Print(x: Text)
      modifies this
      ensures text == old(text) + Heard(x)
    {
      if interested {
        text := text + x;
      }
    }
  }

  /** Matcher<T>::Matches: asks with a listener that has no stream. */
  method Matches(m: Matcher, v: Value) returns (matched: bool)
    ensures matched == Holds(m, v)
    decreases m, 3
  {
    var dummy := new Listener(false);
    matched := RunMatcher(m, v, dummy);
  }

  /** Asks with a StringMatchResultListener of its own and reads its text back. */
  method Ask(m: Matcher, v: Value) returns (matched: bool, text: Text)
    ensures matched == Holds(m, v) && text == Explain(m, v)
    decreases m, 3
  {
    var stringListener := new Listener(true);
    matched := RunMatcher(m, v, stringListener);
    text := stringListener.text;
  }

  /** Matcher<T>::MatchAndExplain, for every term: the result is what the term accepts, whoever listens;
      an interested listener gets exactly the explanation appended, an uninterested one nothing. */
  method RunMatcher(m: Matcher, v: Value, listener: Listener) returns (matched: bool)
    modifies listener
    ensures matched == Holds(m, v)
    ensures listener.text == old(listener.text) + listener.Heard(Explain(m, v))
    decreases m, 2
  {
    match m
    case Anything => matched := true;
    case Comparison(op, rhs) => matched := Compare(op, v, rhs);
    case TupleComparison(op) => matched := Compare(op, v.First(), v.Second());
    case Not(inner) =>
      var b := RunMatcher(inner, v, listener);
      matched := !b;
    case BothOf(left, right) => matched := RunBothOf(m, v, listener);
    case EitherOf(left, right) => matched := RunEitherOf(m, v, listener);
    case Contains(inner) => matched := RunQuantifier(m, inner, false, v, listener);
    case Each(inner) => matched := RunQuantifier(m, inner, true, v, listener);
    case Key(inner) =>
      matched := RunKey(m, v, listener);
    case Pair(left, right) => matched := RunPair(m, v, listener);
    case Field(second, inner) =>
      matched := RunField(m, v, listener);
    case ElementsAre(items) => matched := RunElementsAre(m, v, listener);
    case Pointwise(inner, values) => matched := RunPointwise(m, v, listener);
    case WhenSorted(descending, inner) => matched := RunWhenSorted(m, v, listener);
  }

  /** PrintIfNotEmpty. */
  method PrintIfNotEmpty(explanation: Text, listener: Listener)
    modifies listener
    ensures listener.text == old(listener.text) + listener.Heard(IfNotEmpty(explanation))
  {
    if explanation != [] && listener.interested {
      listener.Print([Say(Comma)] + explanation);
    }
  }

  lemma TextAssoc(a: Text, b: Text, c: Text)
    ensures (a + b) + c == a + (b + c)
  {
  }

  /** Streams a text and then PrintIfNotEmpty of an inner explanation. */
  method PrintWithReason(x: Text, explanation: Text, listener: Listener)
    modifies listener
    ensures listener.text == old(listener.text) + listener.Heard(x + IfNotEmpty(explanation))
  {
    TextAssoc(listener.text, x, IfNotEmpty(explanation));
    listener.Print(x);
    if listener.interested && explanation != [] {
      PrintIfNotEmpty(explanation, listener);
    }
  }

  method MatchPrintAndExplain(v: Value, m: Matcher, listener: Listener) returns (matched: bool)
    modifies listener
    ensures matched == Holds(m, v)
    ensures listener.text == old(listener.text) + listener.Heard([Printed(v), OfType(v)] + IfNotEmpty(Explain(m, v)))
    decreases m, 4
  {
    if !listener.interested {
      matched := Matches(m, v);
      return;
    }
    var text;
    matched, text := Ask(m, v);
    PrintWithReason([Printed(v), OfType(v)], text, listener);
  }

  method PrintJoined(s1: Text, s2: Text, listener: Listener)
    modifies listener
    ensures listener.text == old(listener.text) + listener.Heard(Join(s1, s2))
  {
    if s1 == [] {
      listener.Print(s2);
    } else {
      listener.Print(s1);
      if s2 != [] {
        listener.Print([Say(CommaAnd)] + s2);
      }
    }
  }

  method RunBothOf(m: Matcher, v: Value, listener: Listener) returns (matched: bool)
    requires m.BothOf?
    modifies listener
    ensures matched == Holds(m, v)
    ensures listener.text == old(listener.text) + listener.Heard(Explain(m, v))
    decreases m, 1
  {
    var matched1, text1 := Ask(m.left, v);
    if !matched1 {
      listener.Print(text1);
      return false;
    }
    var matched2, text2 := Ask(m.right, v);
    if !matched2 {
      listener.Print(text2);
      return false;
    }
    PrintJoined(text1, text2, listener);
    return true;
  }

  method RunEitherOf(m: Matcher, v: Value, listener: Listener) returns (matched: bool)
    requires m.EitherOf?
    modifies listener
    ensures matched == Holds(m, v)
    ensures listener.text == old(listener.text) + listener.Heard(Explain(m, v))
    decreases m, 1
  {
    var matched1, text1 := Ask(m.left, v);
    if matched1 {
      listener.Print(text1);
      return true;
    }
    var matched2, text2 := Ask(m.right, v);
    if matched2 {
      listener.Print(text2);
      return true;
    }
    PrintJoined(text1, text2, listener);
    return false;
  }

  /** QuantifierMatcherImpl::MatchAndExplainImpl, shared by Contains and Each. */
  method RunQuantifier(m: Matcher, inner: Matcher, all: bool, v: Value, listener: Listener)
      returns (matched: bool)
    requires m == if all then Each(inner) else Contains(inner)
    modifies listener
    ensures matched == Holds(m, v)
    ensures listener.text == old(listener.text) + listener.Heard(Explain(m, v))
    decreases m, 1
  {
    var elems := v.Elems();
    var i := 0;
    while i < |elems|
      invariant 0 <= i <= |elems|
      invariant listener.text == old(listener.text)
      invariant forall k | 0 <= k < i :: Holds(inner, elems[k]) == all
      invariant FirstOther(inner, all, elems, 0) == FirstOther(inner, all, elems, i)
    {
      var b, text := Ask(inner, elems[i]);
      if b != all {
        PrintWithReason([Say(WhoseElement), Int(i), Say(if b then DoesMatch else DoesntMatch)], text, listener);
        return !all;
      }
      i := i + 1;
    }
    return all;
  }

  method RunPair(m: Matcher, v: Value, listener: Listener) returns (matched: bool)
    requires m.Pair?
    modifies listener
    ensures matched == Holds(m, v)
    ensures listener.text == old(listener.text) + listener.Heard(Explain(m, v))
    decreases m, 1
  {
    if !listener.interested {
      matched := Matches(m.left, v.First());
      if matched {
        matched := Matches(m.right, v.Second());
      }
      return;
    }
    var matched1, text1 := Ask(m.left, v.First());
    if !matched1 {
      PrintWithReason([Say(FirstFieldNoMatch)], text1, listener);
      return false;
    }
    var matched2, text2 := Ask(m.right, v.Second());
    if !matched2 {
      PrintWithReason([Say(SecondFieldNoMatch)], text2, listener);
      return false;
    }
    ExplainSuccess(text1, text2, listener);
    return true;
  }

  method ExplainSuccess(e1: Text, e2: Text, listener: Listener)
    modifies listener
    ensures listener.text == old(listener.text) + listener.Heard(BothFieldsMatch(e1, e2))
  {
    var text := [Say(BothFields)];
    var where1: Text, where2: Text := [], [];
    if e1 != [] {
      where1 := [Say(WhereFirst)] + e1;
    }
    if e2 != [] {
      where2 := [Say(Comma), Say(if e1 != [] then And else Where), Say(SecondFieldIs)] + e2;
    }
    listener.Print(text + where1 + where2);
  }

  /** KeyMatcherImpl::MatchAndExplain. */
  method RunKey(m: Matcher, v: Value, listener: Listener) returns (matched: bool)
    requires m.Key?
    modifies listener
    ensures matched == Holds(m, v)
    ensures listener.text == old(listener.text) + listener.Heard(Explain(m, v))
    decreases m, 1
  {
    var text;
    matched, text := Ask(m.inner, v.First());
    if text != [] {
      listener.Print([Say(WhoseFirstField)] + text);
    }
  }

  /** FieldMatcher::MatchAndExplain for a value that is not a pointer. */
  method RunField(m: Matcher, v: Value, listener: Listener) returns (matched: bool)
    requires m.Field?
    modifies listener
    ensures matched == Holds(m, v)
    ensures listener.text == old(listener.text) + listener.Heard(Explain(m, v))
    decreases m, 1
  {
    var member := Select(m.second, v);
    ghost var reason := IfNotEmpty(Explain(m.inner, member));
    TextAssoc(listener.text, [Say(GivenField)], [Printed(member), OfType(member)] + reason);
    listener.Print([Say(GivenField)]);
    matched := MatchPrintAndExplain(member, m.inner, listener);
  }

  /** ElementsAreMatcherImpl::MatchAndExplain: one pass over the elements. */
  method RunElementsAre(m: Matcher, v: Value, listener: Listener) returns (matched: bool)
    requires m.ElementsAre?
    modifies listener
    ensures matched == Holds(m, v)
    ensures listener.text == old(listener.text) + listener.Heard(Explain(m, v))
    decreases m, 1
  {
    var items, elems := m.items, v.Elems();
    var examPos, mismatchFound, explanations := MatchInTurn(m, v, listener.interested);
    var actualCount, it := examPos, examPos;
    while it < |elems|
      invariant examPos <= it == actualCount <= |elems|
    {
      actualCount := actualCount + 1;
      it := it + 1;
    }
    if actualCount != |items| {
      if listener.interested && actualCount != 0 {
        listener.Print([Say(WhichHas)] + Elements(actualCount));
      }
      return false;
    }
    if mismatchFound {
      if listener.interested {
        PrintWithReason([Say(WhoseElement), Int(examPos), Say(DoesntMatch)], explanations[examPos], listener);
      }
      return false;
    }
    if listener.interested {
      PrintReasons(explanations, listener);
      assert explanations == seq(|items|, i requires 0 <= i < |items| => Explain(items[i], elems[i]));
    }
    return true;
  }

  /** The first loop of ElementsAre: one element and one matcher after the other, up to the first mismatch. */
  method MatchInTurn(m: Matcher, v: Value, interested: bool)
      returns (examPos: nat, mismatchFound: bool, explanations: seq<Text>)
    requires m.ElementsAre?
    ensures var items, elems := m.items, v.Elems();
      && examPos <= |items| && examPos <= |elems| && |explanations| == |items|
      && (if mismatchFound then examPos < |items| && examPos < |elems| && !Holds(items[examPos], elems[examPos])
          else examPos == |items| || examPos == |elems|)
      && (|items| == |elems| ==> FirstMismatch(items, elems, 0) == examPos)
    ensures interested ==> forall k | 0 <= k < |explanations| && k < examPos + (if mismatchFound then 1 else 0) ::
        explanations[k] == Explain(m.items[k], v.Elems()[k])
    decreases m, 0
  {
    var items, elems := m.items, v.Elems();
    explanations := seq(|items|, _ => []);
    examPos := 0;
    mismatchFound := false;
    while examPos < |elems| && examPos != |items|
      invariant examPos <= |items| && examPos <= |elems| && |explanations| == |items|
      invariant interested ==> forall k | 0 <= k < examPos :: explanations[k] == Explain(items[k], elems[k])
      invariant |items| == |elems| ==>
          FirstMismatch(items, elems, 0) == FirstMismatch(items, elems, examPos)
    {
      var b;
      if interested {
        var text;
        b, text := Ask(items[examPos], elems[examPos]);
        explanations := explanations[examPos := text];
      } else {
        b := Matches(items[examPos], elems[examPos]);
      }
      if !b {
        mismatchFound := true;
        return;
      }
      examPos := examPos + 1;
    }
  }

  /** The last loop of ElementsAre: the explanations that say something, with their separators. */
  method PrintReasons(explanations: seq<Text>, listener: Listener)
    requires listener.interested
    modifies listener
    ensures listener.text == old(listener.text) + MatchedReasons(explanations, |explanations|)
  {
    var reasonPrinted := false;
    for i := 0 to |explanations|
      invariant reasonPrinted == (MatchedReasons(explanations, i) != [])
      invariant listener.text == old(listener.text) + MatchedReasons(explanations, i)
    {
      var s := explanations[i];
      if s != [] {
        if reasonPrinted {
          listener.Print([Say(CommaNewlineAnd)]);
        }
        listener.Print([Say(WhoseElement), Int(i), Say(MatchesBecause)] + s);
        reasonPrinted := true;
      }
    }
  }

  /** PointwiseMatcher::Impl::MatchAndExplain. */
  method RunPointwise(m: Matcher, v: Value, listener: Listener) returns (matched: bool)
    requires m.Pointwise?
    modifies listener
    ensures matched == Holds(m, v)
    ensures listener.text == old(listener.text) + listener.Heard(Explain(m, v))
    decreases m, 1
  {
    var elems := v.Elems();
    if |elems| != |m.values| {
      listener.Print([Say(WhichContains), Int(|elems|), Say(Values)]);
      return false;
    }
    ghost var couples := Couples(elems, m.values);
    for i := 0 to |elems|
      invariant listener.text == old(listener.text)
      invariant forall k | 0 <= k < i :: Holds(m.inner, couples[k])
      invariant FirstOther(m.inner, true, couples, 0) == FirstOther(m.inner, true, couples, i)
    {
      var valuePair := Couple(elems[i], m.values[i]);
      if listener.interested {
        var b, text := Ask(m.inner, valuePair);
        if !b {
          PrintWithReason([Say(ValuePair), Printed(elems[i]), Say(Comma), Printed(m.values[i]), Say(AtIndex),
                           Int(i), Say(DontMatch)], text, listener);
          return false;
        }
      } else {
        var b := Matches(m.inner, valuePair);
        if !b {
          return false;
        }
      }
    }
    return true;
  }

  /** WhenSortedByMatcher::Impl::MatchAndExplain. */
  method RunWhenSorted(m: Matcher, v: Value, listener: Listener) returns (matched: bool)
    requires m.WhenSorted?
    modifies listener
    ensures matched == Holds(m, v)
    ensures listener.text == old(listener.text) + listener.Heard(Explain(m, v))
    decreases m, 1
  {
    var sorted := List(Sorted(m.descending, v.Elems()));
    if !listener.interested {
      matched := Matches(m.inner, sorted);
      return;
    }
    var text;
    matched, text := Ask(m.inner, sorted);
    PrintWithReason([Say(WhichIs), Printed(sorted), Say(WhenSortedWord)], text, listener);
  }
}
