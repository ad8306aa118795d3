/** The matcher language of gmock-matchers.h: the terms, what each accepts, and what each explains. */
module Matchers {

  /** What a matcher looks at. C++ types fix the shape a matcher gets; the projections below are total,
      so that every statement in this project holds for all values. */
  datatype Value = Num(n: int) | Couple(fst: Value, snd: Value) | List(elems: seq<Value>)
  {
    function AsInt(): int { if Num? then n else 0 }
    function First(): Value { if Couple? then fst else this }
    function Second(): Value { if Couple? then snd else this }
    function Elems(): seq<Value> { if List? then elems else [] }
  }

  /** The fixed words of explanations; ExplanationTexts says how each is written. */
  datatype Words =
    | WhoseElement | DoesMatch | DoesntMatch | WhoseFirstField | FirstFieldNoMatch | SecondFieldNoMatch
    | GivenField | WhichHas | WhichContains | Values | ValuePair | Comma | AtIndex | DontMatch | WhichIs
    | WhenSortedWord | CommaAnd | OneElement | ManyElements | CommaNewlineAnd | MatchesBecause | BothFields
    | WhereFirst | And | Where | SecondFieldIs

  /** A piece of streamed text; Printed stands for the characters UniversalPrint writes for a value, and OfType
      for the name of its type in parentheses, or nothing when there is no readable one. */
  datatype Piece = Say(w: Words) | Int(i: nat) | Printed(v: Value) | OfType(v: Value)
  type Text = seq<Piece>

  datatype Op = Eq | Ne | Lt | Gt | Le | Ge

  predicate Compare(op: Op, a: Value, b: Value) {
    match op
    case Eq => a == b
    case Ne => a != b
    case Lt => a.AsInt() < b.AsInt()
    case Gt => a.AsInt() > b.AsInt()
    case Le => a.AsInt() <= b.AsInt()
    case Ge => a.AsInt() >= b.AsInt()
  }

  datatype Matcher =
    | Anything
    | Comparison(op: Op, rhs: Value)
    | TupleComparison(op: Op)
    | Not(inner: Matcher)
    | BothOf(left: Matcher, right: Matcher)
    | EitherOf(left: Matcher, right: Matcher)
    | Contains(inner: Matcher)
    | Each(inner: Matcher)
    | Key(inner: Matcher)
    | Pair(left: Matcher, right: Matcher)
    | Field(second: bool, inner: Matcher)
    | ElementsAre(items: seq<Matcher>)
    | Pointwise(inner: Matcher, values: seq<Value>)
    | WhenSorted(descending: bool, inner: Matcher)

  // ---------- What a matcher accepts ----------

  /** The values a matcher accepts, read off the promises of the header and not off its loops. */
  predicate Holds(m: Matcher, v: Value)
    decreases m, 0
  {
    match m
    case Anything => true
    case Comparison(op, rhs) => Compare(op, v, rhs)
    case TupleComparison(op) => Compare(op, v.First(), v.Second())
    case Not(inner) => !Holds(inner, v)
    case BothOf(left, right) => Holds(left, v) && Holds(right, v)
    case EitherOf(left, right) => Holds(left, v) || Holds(right, v)
    case Contains(inner) => SomeHold(inner, v.Elems())
    case Each(inner) => AllHold(inner, v.Elems())
    case Key(inner) => Holds(inner, v.First())
    case Pair(left, right) => Holds(left, v.First()) && Holds(right, v.Second())
    case Field(second, inner) => Holds(inner, Select(second, v))
    case ElementsAre(items) => |v.Elems()| == |items| && EachHolds(items, v.Elems())
    case Pointwise(inner, values) => |v.Elems()| == |values| && AllHold(inner, Couples(v.Elems(), values))
    case WhenSorted(descending, inner) => Holds(inner, List(Sorted(descending, v.Elems())))
  }

  predicate SomeHold(inner: Matcher, elems: seq<Value>)
    decreases inner, 1
  {
    exists i | 0 <= i < |elems| :: Holds(inner, elems[i])
  }

  predicate AllHold(inner: Matcher, elems: seq<Value>)
    decreases inner, 1
  {
    forall i | 0 <= i < |elems| :: Holds(inner, elems[i])
  }

  /** The i-th matcher accepts the i-th element. */
  predicate EachHolds(items: seq<Matcher>, elems: seq<Value>)
    requires |items| == |elems|
    decreases items, 1
  {
    forall i | 0 <= i < |items| :: Holds(items[i], elems[i])
  }

  /** The data member a Field matcher points at; a structure with two members is a Couple. */
  function Select(second: bool, v: Value): Value {
    if second then v.Second() else v.First()
  }

  // ---------- Sorting, for WhenSortedBy ----------

  predicate Before(descending: bool, a: Value, b: Value) {
    if descending then a.AsInt() > b.AsInt() else a.AsInt() < b.AsInt()
  }

  predicate IsSorted(descending: bool, s: seq<Value>) {
    forall i, j | 0 <= i < j < |s| :: !Before(descending, s[j], s[i])
  }

  function Insert(descending: bool, x: Value, s: seq<Value>): seq<Value> {
    if s == [] || Before(descending, x, s[0]) then [x] + s else [s[0]] + Insert(descending, x, s[1..])
  }

  lemma {:induction false} InsertKeeps(descending: bool, x: Value, s: seq<Value>)
    ensures multiset(Insert(descending, x, s)) == multiset(s) + multiset{x}
    ensures forall y | y in Insert(descending, x, s) :: y == x || y in s
  {
    if s != [] && !Before(descending, x, s[0]) {
      InsertKeeps(descending, x, s[1..]);
      assert s == [s[0]] + s[1..];
    }
  }

  lemma {:induction false} InsertSorts(descending: bool, x: Value, s: seq<Value>)
    requires IsSorted(descending, s)
    ensures IsSorted(descending, Insert(descending, x, s))
  {
    if s != [] && !Before(descending, x, s[0]) {
      var rest := Insert(descending, x, s[1..]);
      InsertSorts(descending, x, s[1..]);
      InsertKeeps(descending, x, s[1..]);
      forall j | 0 <= j < |rest| ensures !Before(descending, rest[j], s[0]) {
        assert rest[j] in rest;
      }
    }
  }

  /** std::sort with the comparator < or >. */
  function Sorted(descending: bool, s: seq<Value>): seq<Value> {
    if s == [] then [] else Insert(descending, s[0], Sorted(descending, s[1..]))
  }

  /** The result is a sorted rearrangement. */
  lemma {:induction false} SortedSorts(descending: bool, s: seq<Value>)
    ensures IsSorted(descending, Sorted(descending, s))
    ensures multiset(Sorted(descending, s)) == multiset(s)
  {
    if s != [] {
      SortedSorts(descending, s[1..]);
      InsertSorts(descending, s[0], Sorted(descending, s[1..]));
      InsertKeeps(descending, s[0], Sorted(descending, s[1..]));
      assert s == [s[0]] + s[1..];
    }
  }

  // ---------- What a matcher explains ----------

  /** PrintIfNotEmpty. */
  function IfNotEmpty(explanation: Text): Text {
    if explanation != [] then [Say(Comma)] + explanation else []
  }

  /** Two explanations joined the way AllOf and AnyOf join them. */
  function Join(s1: Text, s2: Text): Text {
    if s1 == [] then s2
    else if s2 == [] then s1
    else s1 + [Say(CommaAnd)] + s2
  }

  function Elements(count: nat): Text {
    [Int(count), Say(if count == 1 then OneElement else ManyElements)]
  }

  /** The first index at or after k whose element does not have the wanted result, or the length. */
  function FirstOther(inner: Matcher, wanted: bool, elems: seq<Value>, k: nat): (r: nat)
    requires k <= |elems|
    ensures k <= r <= |elems|
    ensures forall i | k <= i < r :: Holds(inner, elems[i]) == wanted
    ensures r < |elems| ==> Holds(inner, elems[r]) != wanted
    decreases |elems| - k
  {
    if k == |elems| || Holds(inner, elems[k]) != wanted then k else FirstOther(inner, wanted, elems, k + 1)
  }

  /** The first index at or after k whose element its own matcher rejects, or the length. */
  function FirstMismatch(items: seq<Matcher>, elems: seq<Value>, k: nat): (r: nat)
    requires k <= |items| == |elems|
    ensures k <= r <= |items|
    ensures forall i | k <= i < r :: Holds(items[i], elems[i])
    ensures r < |items| ==> !Holds(items[r], elems[r])
    decreases |items| - k
  {
    if k == |items| || !Holds(items[k], elems[k]) then k else FirstMismatch(items, elems, k + 1)
  }

  function Couples(a: seq<Value>, b: seq<Value>): (r: seq<Value>)
    requires |a| == |b|
    ensures |r| == |a| && forall i | 0 <= i < |a| :: r[i] == Couple(a[i], b[i])
  {
    seq(|a|, i requires 0 <= i < |a| => Couple(a[i], b[i]))
  }

  /** The sentences about the first k matching elements, the empty ones skipped. */
  function MatchedReasons(explanations: seq<Text>, k: nat): Text
    requires k <= |explanations|
  {
    if k == 0 then []
    else
      var before := MatchedReasons(explanations, k - 1);
      if explanations[k - 1] == [] then before
      else
        before + (if before != [] then [Say(CommaNewlineAnd)] else [])
        + [Say(WhoseElement), Int(k - 1), Say(MatchesBecause)] + explanations[k - 1]
  }

  /** The text an interested listener receives. */
  function Explain(m: Matcher, v: Value): Text
    decreases m
  {
    match m
    case Anything => []
    case Comparison(_, _) => []
    case TupleComparison(_) => []
    case Not(inner) => Explain(inner, v)
    case BothOf(left, right) =>
      if !Holds(left, v) then Explain(left, v)
      else if !Holds(right, v) then Explain(right, v)
      else Join(Explain(left, v), Explain(right, v))
    case EitherOf(left, right) =>
      if Holds(left, v) then Explain(left, v)
      else if Holds(right, v) then Explain(right, v)
      else Join(Explain(left, v), Explain(right, v))
    case Contains(inner) =>
      var k := FirstOther(inner, false, v.Elems(), 0);
      if k == |v.Elems()| then []
      else [Say(WhoseElement), Int(k), Say(DoesMatch)] + IfNotEmpty(Explain(inner, v.Elems()[k]))
    case Each(inner) =>
      var k := FirstOther(inner, true, v.Elems(), 0);
      if k == |v.Elems()| then []
      else [Say(WhoseElement), Int(k), Say(DoesntMatch)] + IfNotEmpty(Explain(inner, v.Elems()[k]))
    case Key(inner) =>
      var e := Explain(inner, v.First());
      if e != [] then [Say(WhoseFirstField)] + e else []
    case Pair(left, right) =>
      var e1 := Explain(left, v.First());
      var e2 := Explain(right, v.Second());
      if !Holds(left, v.First()) then [Say(FirstFieldNoMatch)] + IfNotEmpty(e1)
      else if !Holds(right, v.Second()) then [Say(SecondFieldNoMatch)] + IfNotEmpty(e2)
      else BothFieldsMatch(e1, e2)
    case Field(second, inner) =>
      var member := Select(second, v);
      [Say(GivenField)] + ([Printed(member), OfType(member)] + IfNotEmpty(Explain(inner, member)))
    case ElementsAre(items) =>
      var elems := v.Elems();
      if |elems| != |items| then (if |elems| != 0 then [Say(WhichHas)] + Elements(|elems|) else [])
      else
        var k := FirstMismatch(items, elems, 0);
        if k < |items| then
          [Say(WhoseElement), Int(k), Say(DoesntMatch)] + IfNotEmpty(Explain(items[k], elems[k]))
        else
          MatchedReasons(seq(|items|, i requires 0 <= i < |items| => Explain(items[i], elems[i])), |items|)
    case Pointwise(inner, values) =>
      var elems := v.Elems();
      if |elems| != |values| then [Say(WhichContains), Int(|elems|), Say(Values)]
      else
        var couples := Couples(elems, values);
        var k := FirstOther(inner, true, couples, 0);
        if k == |couples| then []
        else
          [Say(ValuePair), Printed(elems[k]), Say(Comma), Printed(values[k]), Say(AtIndex),
           Int(k), Say(DontMatch)] + IfNotEmpty(Explain(inner, couples[k]))
    case WhenSorted(descending, inner) =>
      var sorted := List(Sorted(descending, v.Elems()));
      [Say(WhichIs), Printed(sorted), Say(WhenSortedWord)] + IfNotEmpty(Explain(inner, sorted))
  }

  /** ExplainSuccess of the Pair matcher. */
  function BothFieldsMatch(e1: Text, e2: Text): Text {
    [Say(BothFields)]
    + (if e1 != [] then [Say(WhereFirst)] + e1 else [])
    + (if e2 != [] then
         [Say(Comma), Say(if e1 != [] then And else Where), Say(SecondFieldIs)] + e2
       else [])
  }
}
