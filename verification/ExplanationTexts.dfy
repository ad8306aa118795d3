/** The characters of explanations. The code asks whether a text is the empty string; the model asks whether it
    has no pieces. Both questions have the same answer. */
module ExplanationTexts {
  import opened Matchers

  function Spelling(w: Words): (s: string)
    ensures s != ""
  {
    match w
    case WhoseElement => "whose element #"
    case DoesMatch => " matches"
    case DoesntMatch => " doesn't match"
    case WhoseFirstField => "whose first field is a value "
    case FirstFieldNoMatch => "whose first field does not match"
    case SecondFieldNoMatch => "whose second field does not match"
    case GivenField => "whose given field is "
    case WhichHas => "which has "
    case WhichContains => "which contains "
    case Values => " values"
    case ValuePair => "where the value pair ("
    case Comma => ", "
    case AtIndex => ") at index #"
    case DontMatch => " don't match"
    case WhichIs => "which is "
    case WhenSortedWord => " when sorted"
    case CommaAnd => ", and "
    case OneElement => " element"
    case ManyElements => " elements"
    case CommaNewlineAnd => ",\nand "
    case MatchesBecause => " matches, "
    case BothFields => "whose both fields match"
    case WhereFirst => ", where the first field is a value "
    case And => "and "
    case Where => "where "
    case SecondFieldIs => "the second field is a value "
  }

  /** The characters of a text; shown says what numbers, values and type names look like. */
  function Rendered(t: Text, shown: Piece -> string): string {
    if t == [] then ""
    else (if t[0].Say? then Spelling(t[0].w) else shown(t[0])) + Rendered(t[1..], shown)
  }

  predicate OpensWithWords(t: Text) {
    t != [] ==> t[0].Say?
  }

  lemma {:induction false} ExplanationOpensWithWords(m: Matcher, v: Value)
    ensures OpensWithWords(Explain(m, v))
    decreases m
  {
    match m
    case Not(inner) => ExplanationOpensWithWords(inner, v);
    case BothOf(left, right) =>
      ExplanationOpensWithWords(left, v);
      ExplanationOpensWithWords(right, v);
    case EitherOf(left, right) =>
      ExplanationOpensWithWords(left, v);
      ExplanationOpensWithWords(right, v);
    case ElementsAre(items) =>
      var elems := v.Elems();
      if |elems| == |items| {
        var explanations := seq(|items|, i requires 0 <= i < |items| => Explain(items[i], elems[i]));
        ReasonsOpenWithWords(explanations, |items|);
      }
    case _ =>
  }

  lemma {:induction false} ReasonsOpenWithWords(explanations: seq<Text>, k: nat)
    requires k <= |explanations|
    ensures OpensWithWords(MatchedReasons(explanations, k))
  {
    if k > 0 {
      ReasonsOpenWithWords(explanations, k - 1);
    }
  }

  /** However numbers, values and type names are printed, even as nothing, an explanation is the empty string
      exactly when the model has no pieces for it. */
  lemma EmptyExplanation(m: Matcher, v: Value, shown: Piece -> string)
    ensures Rendered(Explain(m, v), shown) == "" <==> Explain(m, v) == []
  {
    ExplanationOpensWithWords(m, v);
  }
}
