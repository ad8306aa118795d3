/** UnorderedElementsAre: a container is accepted exactly when some rearrangement of it satisfies ElementsAre. */
module UnorderedElements {
  import opened Matchers
  import opened BipartiteMatching
  import MatchAndExplain

  /** Who accepts whom: element i goes with matcher j when the matcher accepts the element. */
  ghost function Acceptance(ms: seq<Matcher>, elems: seq<Value>): (g: Graph)
    ensures g.Valid()
  {
    Graph(|elems|, |ms|, set i: nat, j: nat | i < |elems| && j < |ms| && Holds(ms[j], elems[i]) :: (i, j))
  }

  /** The row-major table filled up to its current length holds the right answers. */
  ghost predicate TableHolds(didMatch: seq<bool>, ms: seq<Matcher>, elems: seq<Value>) {
    forall i: nat, j: nat | i < |elems| && j < |ms| && Cell(i, j, |ms|) < |didMatch| ::
      didMatch[Cell(i, j, |ms|)] == Holds(ms[j], elems[i])
  }

  lemma NextAnswer(didMatch: seq<bool>, ms: seq<Matcher>, elems: seq<Value>, i: nat, j: nat, b: bool)
    requires TableHolds(didMatch, ms, elems)
    requires i < |elems| && j < |ms| && |didMatch| == Cell(i, j, |ms|) && b == Holds(ms[j], elems[i])
    ensures TableHolds(didMatch + [b], ms, elems)
  {
    forall i': nat, j': nat | i' < |elems| && j' < |ms| && Cell(i', j', |ms|) <= |didMatch|
      ensures (didMatch + [b])[Cell(i', j', |ms|)] == Holds(ms[j'], elems[i'])
    {
      if (i', j') != (i, j) {
        CellsDiffer(i, j, i', j', |ms|);
      }
    }
  }

  /** AnalyzeElements: asks every matcher about every element in one pass, then copies the answers. */
  method AnalyzeElements(ms: seq<Matcher>, elems: seq<Value>) returns (matrix: MatchMatrix)
    ensures fresh(matrix) && fresh(matrix.matched) && matrix.Valid()
    ensures matrix.View() == Acceptance(ms, elems)
  {
    var didMatch := AskAll(ms, elems);
    matrix := new MatchMatrix(|elems|, |ms|);
    var next := 0;
    for ilhs := 0 to |elems|
      invariant matrix.Valid() && fresh(matrix.matched) && next == Cell(ilhs, 0, |ms|)
      invariant matrix.View().edges == Copied(ms, elems, ilhs, 0)
    {
      next := CopyRow(matrix, ms, elems, didMatch, ilhs, next);
      assert Copied(ms, elems, ilhs, |ms|) == Copied(ms, elems, ilhs + 1, 0);
    }
    assert Copied(ms, elems, |elems|, 0) == Acceptance(ms, elems).edges;
  }

  method AskAll(ms: seq<Matcher>, elems: seq<Value>) returns (didMatch: seq<bool>)
    ensures |didMatch| == Cell(|elems|, 0, |ms|) && TableHolds(didMatch, ms, elems)
  {
    didMatch := [];
    for i := 0 to |elems|
      invariant |didMatch| == Cell(i, 0, |ms|) && TableHolds(didMatch, ms, elems)
    {
      didMatch := AskRow(ms, elems, i, didMatch);
    }
  }

  method AskRow(ms: seq<Matcher>, elems: seq<Value>, i: nat, asked: seq<bool>) returns (didMatch: seq<bool>)
    requires i < |elems| && |asked| == Cell(i, 0, |ms|) && TableHolds(asked, ms, elems)
    ensures |didMatch| == Cell(i + 1, 0, |ms|) && TableHolds(didMatch, ms, elems)
  {
    didMatch := asked;
    for irhs := 0 to |ms|
      invariant |didMatch| == Cell(i, irhs, |ms|) && TableHolds(didMatch, ms, elems)
    {
      didMatch := AskNext(ms, elems, i, irhs, didMatch);
    }
  }

  method AskNext(ms: seq<Matcher>, elems: seq<Value>, i: nat, irhs: nat, asked: seq<bool>)
      returns (didMatch: seq<bool>)
    requires i < |elems| && irhs < |ms| && |asked| == Cell(i, irhs, |ms|) && TableHolds(asked, ms, elems)
    ensures |didMatch| == Cell(i, irhs + 1, |ms|) && TableHolds(didMatch, ms, elems)
  {
    var b := MatchAndExplain.Matches(ms[irhs], elems[i]);
    NextAnswer(asked, ms, elems, i, irhs, b);
    didMatch := asked + [b];
  }

  method CopyRow(matrix: MatchMatrix, ms: seq<Matcher>, elems: seq<Value>, didMatch: seq<bool>, ilhs: nat, from: nat)
      returns (next: nat)
    requires matrix.Valid() && matrix.numElements == |elems| && matrix.numMatchers == |ms|
    requires |didMatch| == Cell(|elems|, 0, |ms|) && TableHolds(didMatch, ms, elems)
    requires ilhs < |elems| && from == Cell(ilhs, 0, |ms|)
    requires matrix.View().edges == Copied(ms, elems, ilhs, 0)
    modifies matrix.matched
    ensures next == Cell(ilhs + 1, 0, |ms|)
    ensures matrix.View().edges == Copied(ms, elems, ilhs, |ms|)
  {
    next := from;
    for irhs := 0 to |ms|
      invariant next == Cell(ilhs, irhs, |ms|)
      invariant matrix.View().edges == Copied(ms, elems, ilhs, irhs)
    {
      CellInTable(ilhs, irhs, |elems|, |ms|);
      matrix.SetEdge(ilhs, irhs, didMatch[next]);
      next := next + 1;
    }
  }

  /** The accepted pairs in the rows before row and in that row before column col. */
  ghost function Copied(ms: seq<Matcher>, elems: seq<Value>, row: nat, col: nat): set<(nat, nat)> {
    set i: nat, j: nat |
      i < |elems| && j < |ms| && (i < row || (i == row && j < col)) && Holds(ms[j], elems[i]) :: (i, j)
  }

  /** VerifyAllElementsAndMatchersAreMatched: nobody is left without a partner in the table. */
  method VerifyAllElementsAndMatchersAreMatched(matrix: MatchMatrix) returns (ok: bool)
    requires matrix.Valid()
    ensures ok <==> NobodyLeftOut(matrix.View())
  {
    ok := true;
    ghost var g := matrix.View();
    for i := 0 to matrix.numElements
      invariant ok <==> forall a | 0 <= a < i :: ElementHasMatcher(g, a)
    {
      var found := exists j: nat | j < matrix.numMatchers :: matrix.HasEdge(i, j);
      assert found <==> ElementHasMatcher(g, i);
      ok := ok && found;
    }
    var allElements := ok;
    for j := 0 to matrix.numMatchers
      invariant ok <==> allElements && forall b | 0 <= b < j :: MatcherHasElement(g, b)
    {
      var found := exists i: nat | i < matrix.numElements :: matrix.HasEdge(i, j);
      assert found <==> MatcherHasElement(g, j);
      ok := ok && found;
    }
  }

  ghost predicate ElementHasMatcher(g: Graph, i: nat) {
    exists j: nat :: (i, j) in g.edges
  }

  ghost predicate MatcherHasElement(g: Graph, j: nat) {
    exists i: nat :: (i, j) in g.edges
  }

  ghost predicate NobodyLeftOut(g: Graph) {
    && (forall i | 0 <= i < g.lhs :: ElementHasMatcher(g, i))
    && (forall j | 0 <= j < g.rhs :: MatcherHasElement(g, j))
  }

  ghost predicate HasPerfectMatching(g: Graph) {
    exists m: Matching :: IsMatching(g, m) && |m| == g.rhs
  }

  /** FindPairing: the maximum matching gives every matcher an element. */
  method FindPairing(matrix: MatchMatrix) returns (ok: bool)
    requires matrix.Valid()
    ensures ok <==> HasPerfectMatching(matrix.View())
  {
    var m := FindMaxBipartiteMatching(matrix);
    ok := |m| == matrix.numMatchers;
    if m' :| IsMatching(matrix.View(), m') && |m'| == matrix.numMatchers {
      MatchingFits(matrix.View(), m);
    }
  }

  lemma MatchingFits(g: Graph, m: Matching)
    requires g.Valid() && IsMatching(g, m)
    ensures |m| <= g.rhs
  {
    assert |m| == |m.Keys|;
    forall j | j in m.Keys ensures j < g.rhs {
      assert (m[j], j) in g.edges;
    }
    CardinalityBelow(m.Keys, g.rhs);
  }

  /** UnorderedElementsAreMatcherImpl::MatchAndExplain. What the two checks at its end explain is not part of
      the header. */
  method MatchUnordered(ms: seq<Matcher>, elems: seq<Value>, listener: MatchAndExplain.Listener)
      returns (matched: bool)
    modifies listener
    ensures matched <==> SomeRearrangementMatches(ms, elems)
    ensures |elems| != |ms| && elems != [] ==>
      listener.text == old(listener.text)
        + listener.Heard([Say(WhichHas), Int(|elems|), Say(if |elems| == 1 then OneElement else ManyElements)])
    ensures elems == [] ==> listener.text == old(listener.text)
  {
    var matrix := AnalyzeElements(ms, elems);
    var actualCount := matrix.numElements;
    UnorderedMeansRearranged(ms, elems);
    if actualCount == 0 && |ms| == 0 {
      assert IsMatching(Acceptance(ms, elems), map[]);
      return true;
    }
    if actualCount != |ms| {
      if actualCount != 0 && listener.interested {
        listener.Print([Say(WhichHas)] + Elements(actualCount));
      }
      return false;
    }
    matched := VerifyAllElementsAndMatchersAreMatched(matrix);
    if matched {
      matched := FindPairing(matrix);
    } else if |elems| == |ms| && HasPerfectMatching(matrix.View()) {
      PerfectLeavesNobodyOut(matrix.View());
    }
  }

  ghost predicate SomeRearrangementMatches(ms: seq<Matcher>, elems: seq<Value>) {
    exists r: seq<Value> :: multiset(r) == multiset(elems) && Holds(ElementsAre(ms), List(r))
  }

  /** The answer does not depend on the order of the elements. */
  lemma OrderDoesNotMatter(ms: seq<Matcher>, a: seq<Value>, b: seq<Value>)
    requires multiset(a) == multiset(b)
    ensures Accepted(ms, a) <==> Accepted(ms, b)
  {
    UnorderedMeansRearranged(ms, a);
    UnorderedMeansRearranged(ms, b);
  }

  /** What the counts and the matching decide. */
  ghost predicate Accepted(ms: seq<Matcher>, elems: seq<Value>) {
    |elems| == |ms| && HasPerfectMatching(Acceptance(ms, elems))
  }

  /** A perfect matching exists exactly when some rearrangement satisfies ElementsAre. */
  lemma UnorderedMeansRearranged(ms: seq<Matcher>, elems: seq<Value>)
    ensures Accepted(ms, elems) <==> SomeRearrangementMatches(ms, elems)
  {
    if Accepted(ms, elems) {
      var m: Matching :| IsMatching(Acceptance(ms, elems), m) && |m| == |ms|;
      var r := RearrangementOf(ms, elems, m);
    }
    if r: seq<Value> :| multiset(r) == multiset(elems) && Holds(ElementsAre(ms), List(r)) {
      var m := MatchingOf(ms, elems, r);
    }
  }

  lemma RearrangementOf(ms: seq<Matcher>, elems: seq<Value>, m: Matching) returns (r: seq<Value>)
    requires IsMatching(Acceptance(ms, elems), m) && |m| == |ms| == |elems|
    ensures multiset(r) == multiset(elems) && Holds(ElementsAre(ms), List(r))
  {
    var g := Acceptance(ms, elems);
    forall j: nat | j < |ms| ensures j in m && (m[j], j) in g.edges {
      KeysAreAll(g, m, j);
    }
    var p := seq(|ms|, j requires 0 <= j < |ms| => m[j]);
    r := Pick(elems, p);
    PickAll(elems, p);
    assert EachHolds(ms, r);
  }

  lemma KeysAreAll(g: Graph, m: Matching, j: nat)
    requires g.Valid() && IsMatching(g, m) && |m| == g.rhs && j < g.rhs
    ensures j in m
  {
    forall k | k in m.Keys ensures k < g.rhs {
      assert (m[k], k) in g.edges;
    }
    assert |m| == |m.Keys|;
    FullSet(m.Keys, g.rhs, j);
  }

  /** n numbers below n are all of them. */
  lemma FullSet(s: set<nat>, n: nat, j: nat)
    requires |s| == n && j < n && forall k | k in s :: k < n
    ensures j in s
  {
    if j !in s {
      CardinalityBelow(s + {j}, n);
    }
  }

  lemma MatchingOf(ms: seq<Matcher>, elems: seq<Value>, r: seq<Value>) returns (m: Matching)
    requires multiset(r) == multiset(elems) && Holds(ElementsAre(ms), List(r))
    ensures |elems| == |ms|
    ensures IsMatching(Acceptance(ms, elems), m) && |m| == |ms|
  {
    var p := Indices(r, elems);
    assert EachHolds(ms, r);
    m := Assigned(p);
    forall j | j in m ensures (m[j], j) in Acceptance(ms, elems).edges {
    }
  }

  /** Number j goes with p[j]. */
  ghost function Assigned(p: seq<nat>): (m: Matching)
    ensures |m| == |p| && forall j: nat :: j in m <==> j < |p|
    ensures forall j | j in m :: m[j] == p[j]
  {
    var m := map j | j in Below(|p|) :: p[j];
    assert m.Keys == Below(|p|);
    assert |m| == |m.Keys|;
    m
  }

  ghost function Below(n: nat): (s: set<nat>)
    ensures |s| == n && forall k: nat :: k in s <==> k < n
  {
    if n == 0 then {} else Below(n - 1) + {n - 1}
  }

  lemma PerfectLeavesNobodyOut(g: Graph)
    requires g.Valid() && g.lhs == g.rhs && HasPerfectMatching(g)
    ensures NobodyLeftOut(g)
  {
    var m: Matching :| IsMatching(g, m) && |m| == g.rhs;
    forall j | 0 <= j < g.rhs ensures MatcherHasElement(g, j) {
      KeysAreAll(g, m, j);
      assert (m[j], j) in g.edges;
    }
    var image := Image(m, m.Keys);
    assert forall i | i in image :: i < g.lhs by {
      forall i | i in image ensures i < g.lhs {
        var j :| j in m && m[j] == i;
        assert (m[j], j) in g.edges;
      }
    }
    ImageSize(m, m.Keys);
    assert |m| == |m.Keys|;
    forall i | 0 <= i < g.lhs ensures ElementHasMatcher(g, i) {
      FullSet(image, g.lhs, i);
      var j :| j in m && m[j] == i;
      assert (m[j], j) in g.edges;
    }
  }

  // ---------- Rearrangements ----------

  predicate Distinct(p: seq<nat>) {
    forall a, b | 0 <= a < b < |p| :: p[a] != p[b]
  }

  function Pick(s: seq<Value>, p: seq<nat>): (r: seq<Value>)
    requires forall k | 0 <= k < |p| :: p[k] < |s|
    ensures |r| == |p| && forall k | 0 <= k < |p| :: r[k] == s[p[k]]
  {
    seq(|p|, k requires 0 <= k < |p| => s[p[k]])
  }

  function Without(s: seq<Value>, k: nat): (r: seq<Value>)
    requires k < |s|
    ensures |r| == |s| - 1 && multiset(r) == multiset(s) - multiset{s[k]}
    ensures forall a | 0 <= a < |r| :: r[a] == if a < k then s[a] else s[a + 1]
  {
    assert s == s[..k] + [s[k]] + s[k + 1..];
    s[..k] + s[k + 1..]
  }

  /** Picking every index once rearranges. */
  lemma {:induction false} PickAll(s: seq<Value>, p: seq<nat>)
    requires |p| == |s| && Distinct(p) && forall k | 0 <= k < |p| :: p[k] < |s|
    ensures multiset(Pick(s, p)) == multiset(s)
    decreases |s|
  {
    if s == [] {
      assert Pick(s, p) == [];
    } else {
      var k := p[|s| - 1];
      var q := TakeOut(s, p);
      PickAll(Without(s, k), q);
      assert s[k] in multiset(s);
    }
  }

  lemma TakeOut(s: seq<Value>, p: seq<nat>) returns (q: seq<nat>)
    requires |p| == |s| > 0 && Distinct(p) && forall k | 0 <= k < |p| :: p[k] < |s|
    ensures |q| == |s| - 1 && Distinct(q) && forall k | 0 <= k < |q| :: q[k] < |q|
    ensures Pick(s, p) == Pick(Without(s, p[|s| - 1]), q) + [s[p[|s| - 1]]]
  {
    var n, k := |s| - 1, p[|s| - 1];
    q := seq(n, a requires 0 <= a < n => if p[a] < k then p[a] else p[a] - 1);
    assert forall a | 0 <= a < n :: p[a] != k && q[a] < n && Without(s, k)[q[a]] == s[p[a]];
    assert forall a, b | 0 <= a < b < n :: p[a] != p[b] && q[a] != q[b];
  }

  /** A rearrangement picks every index once. */
  lemma {:induction false} Indices(r: seq<Value>, s: seq<Value>) returns (p: seq<nat>)
    requires multiset(r) == multiset(s)
    ensures |p| == |r| == |s| && Distinct(p)
    ensures forall k | 0 <= k < |p| :: p[k] < |s| && r[k] == s[p[k]]
    decreases |r|
  {
    if r == [] {
      assert |multiset(s)| == 0;
      p := [];
    } else {
      var n := |r| - 1;
      var k := LastTakenFrom(r, s);
      var q := Indices(r[..n], Without(s, k));
      p := PutBack(r, s, k, q);
    }
  }

  lemma LastTakenFrom(r: seq<Value>, s: seq<Value>) returns (k: nat)
    requires multiset(r) == multiset(s) && r != []
    ensures |r| == |s| && k < |s| && s[k] == r[|r| - 1]
    ensures multiset(r[..|r| - 1]) == multiset(Without(s, k))
  {
    var n := |r| - 1;
    assert |multiset(r)| == |multiset(s)|;
    assert r == r[..n] + [r[n]];
    assert r[n] in multiset(s);
    k :| 0 <= k < |s| && s[k] == r[n];
  }

  lemma PutBack(r: seq<Value>, s: seq<Value>, k: nat, q: seq<nat>) returns (p: seq<nat>)
    requires |r| == |s| == |q| + 1 && k < |s| && s[k] == r[|q|] && Distinct(q)
    requires forall a | 0 <= a < |q| :: q[a] < |q| && r[..|q|][a] == Without(s, k)[q[a]]
    ensures |p| == |r| && Distinct(p)
    ensures forall a | 0 <= a < |p| :: p[a] < |s| && r[a] == s[p[a]]
  {
    var p' := seq(|q|, a requires 0 <= a < |q| => if q[a] < k then q[a] else q[a] + 1);
    assert forall a | 0 <= a < |q| :: p'[a] < |s| && p'[a] != k && r[a] == s[p'[a]];
    assert Distinct(p');
    p := p' + [k];
  }
}
