/** What the matchers accept, said of numbers, couples and lists themselves. */
module MatchersInWords {
  import opened Matchers

  lemma ComparisonsInWords(x: Value, y: Value, a: int, b: int)
    ensures Holds(Comparison(Eq, y), x) <==> x == y
    ensures Holds(Comparison(Ne, y), x) <==> x != y
    ensures Holds(Comparison(Lt, Num(b)), Num(a)) <==> a < b
    ensures Holds(Comparison(Gt, Num(b)), Num(a)) <==> a > b
    ensures Holds(Comparison(Le, Num(b)), Num(a)) <==> a <= b
    ensures Holds(Comparison(Ge, Num(b)), Num(a)) <==> a >= b
  {
  }

  lemma PairsInWords(m: Matcher, n: Matcher, op: Op, a: Value, b: Value)
    ensures Holds(TupleComparison(op), Couple(a, b)) <==> Holds(Comparison(op, b), a)
    ensures Holds(Key(m), Couple(a, b)) <==> Holds(m, a)
    ensures Holds(Pair(m, n), Couple(a, b)) <==> Holds(m, a) && Holds(n, b)
    ensures Holds(Field(false, m), Couple(a, b)) <==> Holds(m, a)
    ensures Holds(Field(true, m), Couple(a, b)) <==> Holds(m, b)
  {
  }

  lemma ContainersInWords(m: Matcher, ms: seq<Matcher>, values: seq<Value>, s: seq<Value>)
    ensures Holds(Contains(m), List(s)) <==> exists i :: 0 <= i < |s| && Holds(m, s[i])
    ensures Holds(Each(m), List(s)) <==> forall i | 0 <= i < |s| :: Holds(m, s[i])
    ensures Holds(ElementsAre(ms), List(s)) <==> |s| == |ms| && forall i | 0 <= i < |s| :: Holds(ms[i], s[i])
    ensures Holds(Pointwise(m, values), List(s))
       <==> |s| == |values| && forall i | 0 <= i < |s| :: Holds(m, Couple(s[i], values[i]))
  {
    if |s| == |values| {
      var couples := Couples(s, values);
      assert forall i | 0 <= i < |s| :: couples[i] == Couple(s[i], values[i]);
    }
  }

  /** The numbers go up, or down when the order is descending. */
  predicate GoesOneWay(descending: bool, s: seq<Value>) {
    forall i, j | 0 <= i < j < |s| :: if descending then s[i].AsInt() >= s[j].AsInt() else s[i].AsInt() <= s[j].AsInt()
  }

  predicate AreNumbers(s: seq<Value>) {
    forall i | 0 <= i < |s| :: s[i].Num?
  }

  lemma SortedGoesOneWay(descending: bool, s: seq<Value>)
    ensures GoesOneWay(descending, Sorted(descending, s)) && multiset(Sorted(descending, s)) == multiset(s)
  {
    SortedSorts(descending, s);
  }

  /** For a list of numbers there is one sorted rearrangement, and WhenSorted asks about that one. */
  lemma WhenSortedInWords(descending: bool, m: Matcher, s: seq<Value>, r: seq<Value>)
    requires AreNumbers(s) && multiset(r) == multiset(s) && GoesOneWay(descending, r)
    ensures Holds(WhenSorted(descending, m), List(s)) <==> Holds(m, List(r))
  {
    var sorted := Sorted(descending, s);
    SortedGoesOneWay(descending, s);
    SameNumbers(s, r);
    SameNumbers(s, sorted);
    OneSortedOrder(descending, r, sorted);
  }

  lemma SameNumbers(s: seq<Value>, r: seq<Value>)
    requires AreNumbers(s) && multiset(r) == multiset(s)
    ensures AreNumbers(r)
  {
    forall i | 0 <= i < |r| ensures r[i].Num? {
      assert r[i] in multiset(r);
      assert r[i] in s;
    }
  }

  lemma SameFirst(descending: bool, r: seq<Value>, s: seq<Value>)
    requires AreNumbers(r) && AreNumbers(s) && multiset(r) == multiset(s) && r != [] && s != []
    requires GoesOneWay(descending, r) && GoesOneWay(descending, s)
    ensures r[0] == s[0]
  {
    assert r[0] in multiset(s) && s[0] in multiset(r);
    var i :| 0 <= i < |s| && s[i] == r[0];
    var j :| 0 <= j < |r| && r[j] == s[0];
  }

  lemma WithoutFirst(r: seq<Value>)
    requires r != []
    ensures r == [r[0]] + r[1..] && multiset(r[1..]) == multiset(r) - multiset{r[0]}
  {
    assert r == [r[0]] + r[1..];
  }

  lemma {:induction false} OneSortedOrder(descending: bool, r: seq<Value>, s: seq<Value>)
    requires AreNumbers(r) && AreNumbers(s) && multiset(r) == multiset(s)
    requires GoesOneWay(descending, r) && GoesOneWay(descending, s)
    ensures r == s
    decreases |r|
  {
    assert |r| == |multiset(r)| == |multiset(s)| == |s|;
    if r != [] {
      SameFirst(descending, r, s);
      WithoutFirst(r);
      WithoutFirst(s);
      OneSortedOrder(descending, r[1..], s[1..]);
    }
  }
}
