/** The match matrix of UnorderedElementsAre, and a maximum bipartite matching found by augmenting paths. */
module BipartiteMatching {

  /** Elements on the left, matchers on the right. */
  datatype Graph = Graph(lhs: nat, rhs: nat, edges: set<(nat, nat)>) {
    ghost predicate Valid() {
      forall i: nat, j: nat | (i, j) in edges :: i < lhs && j < rhs
    }
  }

  /** The cell of row i and column j in a flattened table with width columns. */
  function Cell(i: nat, j: nat, width: nat): nat {
    i * width + j
  }

  /** Two coordinates never share a cell. */
  lemma CellsDiffer(i: nat, j: nat, i': nat, j': nat, width: nat)
    requires j < width && j' < width && (i, j) != (i', j')
    ensures Cell(i, j, width) != Cell(i', j', width)
  {
    if i < i' {
      assert (i + 1) * width <= i' * width;
    } else if i' < i {
      assert (i' + 1) * width <= i * width;
    }
  }

  lemma CellInTable(i: nat, j: nat, rows: nat, width: nat)
    requires i < rows && j < width
    ensures Cell(i, j, width) < rows * width
  {
    assert (i + 1) * width <= rows * width;
  }

  /** MatchMatrix: a table of chars in element-major order. */
  class MatchMatrix {
    const numElements: nat
    const numMatchers: nat
    const matched: array<int>

    ghost predicate Valid() {
      matched.Length == numElements * numMatchers
    }

    constructor (numElements: nat, numMatchers: nat)
      ensures Valid() && fresh(matched)
      ensures this.numElements == numElements && this.numMatchers == numMatchers
      ensures View() == Graph(numElements, numMatchers, {})
    {
      this.numElements := numElements;
      this.numMatchers := numMatchers;
      var table := new int[numElements * numMatchers](_ => 0);
      matched := table;
      new;
      forall i, j | 0 <= i < numElements && 0 <= j < numMatchers ensures !HasEdge(i, j) {
        CellInTable(i, j, numElements, numMatchers);
      }
    }

    function SpaceIndex(ilhs: nat, irhs: nat): nat {
      Cell(ilhs, irhs, numMatchers)
    }

    predicate HasEdge(ilhs: nat, irhs: nat)
      requires Valid()
      reads matched
    {
      ilhs < numElements && irhs < numMatchers &&
      (CellInTable(ilhs, irhs, numElements, numMatchers); matched[SpaceIndex(ilhs, irhs)] == 1)
    }

    ghost function View(): (g: Graph)
      requires Valid()
      reads matched
      ensures g.Valid() && g.lhs == numElements && g.rhs == numMatchers
      ensures forall i: nat, j: nat :: (i, j) in g.edges <==> HasEdge(i, j)
    {
      Graph(numElements, numMatchers,
            set i: nat, j: nat | i < numElements && j < numMatchers && HasEdge(i, j) :: (i, j))
    }

    method SetEdge(ilhs: nat, irhs: nat, b: bool)
      requires Valid() && ilhs < numElements && irhs < numMatchers
      modifies matched
      ensures View().edges == if b then old(View().edges) + {(ilhs, irhs)} else old(View().edges) - {(ilhs, irhs)}
    {
      CellInTable(ilhs, irhs, numElements, numMatchers);
      matched[SpaceIndex(ilhs, irhs)] := if b then 1 else 0;
      forall i: nat, j: nat | i < numElements && j < numMatchers && (i, j) != (ilhs, irhs)
        ensures HasEdge(i, j) == old(HasEdge(i, j))
      {
        CellInTable(i, j, numElements, numMatchers);
        CellsDiffer(i, j, ilhs, irhs, numMatchers);
      }
    }
  }

  // ---------- Matchings ----------

  /** A matching, kept from the matchers' side: which element each used matcher got. */
  type Matching = map<nat, nat>

  ghost predicate IsMatching(g: Graph, m: Matching) {
    && (forall j | j in m :: (m[j], j) in g.edges)
    && (forall j, k | j in m && k in m && j != k :: m[j] != m[k])
  }

  ghost predicate IsMaximum(g: Graph, m: Matching) {
    IsMatching(g, m) && forall other: Matching | IsMatching(g, other) :: |other| <= |m|
  }

  /** A deficient block: every neighbour of an element in l is a matcher in s, and every matcher in s
      that the search has not seen yet is taken by an element in l. */
  ghost predicate Blocked(g: Graph, m: Matching, l: set<nat>, s: set<nat>, seen: set<nat>) {
    && (forall i, j | i in l && (i, j) in g.edges :: j in s)
    && (forall j | j in s && j !in seen :: j in m && m[j] in l)
  }

  /** All neighbours of i are in seen. */
  ghost predicate Explored(g: Graph, i: nat, seen: set<nat>) {
    forall j | (i, j) in g.edges :: j in seen
  }

  /** What a failed search leaves behind: it has seen all neighbours of i, and everything it saw anew
      is taken by elements whose neighbours it has seen too. */
  ghost predicate Exhausted(g: Graph, m: Matching, i: nat, seen: set<nat>, seen': set<nat>) {
    && Explored(g, i, seen')
    && Closed(g, m, seen, seen')
  }

  ghost predicate Closed(g: Graph, m: Matching, seen: set<nat>, seen': set<nat>) {
    && seen <= seen'
    && forall j | j in seen' && j !in seen :: j in m && Explored(g, m[j], seen')
  }

  /** What a successful search achieves: i and one new matcher join, nothing seen before and nothing in a
      deficient block is touched, and i was not in the block. */
  ghost predicate Augmented(g: Graph, m: Matching, m': Matching, i: nat, seen: set<nat>, l: set<nat>, s: set<nat>) {
    && IsMatching(g, m')
    && m'.Values == m.Values + {i}
    && i !in l
    && (exists x :: x !in seen && x !in m && m'.Keys == m.Keys + {x})
    && forall j | j in m && (j in seen || j in s) :: j in m' && m'[j] == m[j]
  }

  lemma TakeFree(g: Graph, m: Matching, i: nat, j: nat, seen: set<nat>, l: set<nat>, s: set<nat>)
    requires IsMatching(g, m) && i !in m.Values && Blocked(g, m, l, s, seen)
    requires (i, j) in g.edges && j !in m && j !in seen
    ensures Augmented(g, m, m[j := i], i, seen, l, s)
  {
    ValuesAfterUpdate(m, j, i);
    assert j !in seen && j !in m && m[j := i].Keys == m.Keys + {j};
  }

  lemma Reroute(g: Graph, m: Matching, m': Matching, i: nat, j: nat, seen: set<nat>, seenNow: set<nat>,
                l: set<nat>, s: set<nat>)
    requires IsMatching(g, m) && i !in m.Values && Blocked(g, m, l, s, seen)
    requires (i, j) in g.edges && j in m && j !in seenNow && seen <= seenNow
    requires Augmented(g, m - {j}, m', m[j], seenNow + {j}, l, s)
    ensures Augmented(g, m, m'[j := i], i, seen, l, s)
  {
    var rest, final := m - {j}, m'[j := i];
    var x :| x !in seenNow + {j} && x !in rest && m'.Keys == rest.Keys + {x};
    assert j !in m';
    assert x !in seen && x !in m && final.Keys == m.Keys + {x};
    ValuesAfterRemoval(m, j);
    ValuesAfterUpdate(m', j, i);
    assert j !in s;
    forall k | k in m && (k in seen || k in s) ensures k in final && final[k] == m[k] {
      assert k != j && k in rest && (k in seenNow + {j} || k in s);
    }
  }

  lemma BlockedWithout(g: Graph, m: Matching, j: nat, seen: set<nat>, seenNow: set<nat>, l: set<nat>, s: set<nat>)
    requires IsMatching(g, m) && Blocked(g, m, l, s, seen) && seen <= seenNow && j in m
    ensures IsMatching(g, m - {j}) && Blocked(g, m - {j}, l, s, seenNow + {j})
    ensures m[j] !in (m - {j}).Values
  {
    ValuesAfterRemoval(m, j);
  }

  lemma ClosedAfterFailure(g: Graph, m: Matching, j: nat, seen: set<nat>, seenNow: set<nat>, seen': set<nat>)
    requires j in m && Closed(g, m, seen, seenNow)
    requires Exhausted(g, m - {j}, m[j], seenNow + {j}, seen')
    ensures Closed(g, m, seen, seen')
  {
  }

  /** Looks for an augmenting path from the free element ilhs past matchers not seen yet. */
  method TryAugment(matrix: MatchMatrix, m: Matching, ilhs: nat, seen: set<nat>, ghost l: set<nat>, ghost s: set<nat>)
      returns (found: bool, m': Matching, seen': set<nat>)
    requires matrix.Valid()
    requires IsMatching(matrix.View(), m) && Blocked(matrix.View(), m, l, s, seen)
    requires ilhs < matrix.numElements && ilhs !in m.Values
    requires forall j | j in seen :: j < matrix.numMatchers
    ensures forall j | j in seen' :: j < matrix.numMatchers
    ensures found ==> Augmented(matrix.View(), m, m', ilhs, seen, l, s)
    ensures !found ==> m' == m && Exhausted(matrix.View(), m, ilhs, seen, seen')
    decreases matrix.numMatchers - |seen|
  {
    seen' := seen;
    ghost var g := matrix.View();
    for irhs := 0 to matrix.numMatchers
      invariant forall j | j in seen' :: j < matrix.numMatchers
      invariant forall j | j < irhs && (ilhs, j) in g.edges :: j in seen'
      invariant Closed(g, m, seen, seen')
    {
      if irhs !in seen' && matrix.HasEdge(ilhs, irhs) {
        if irhs !in m {
          TakeFree(g, m, ilhs, irhs, seen, l, s);
          return true, m[irhs := ilhs], seen' + {irhs};
        }
        BlockedWithout(g, m, irhs, seen, seen', l, s);
        SeenIsBounded(seen', irhs, seen, matrix.numMatchers);
        var ok, rerouted, seen'' := TryAugment(matrix, m - {irhs}, m[irhs], seen' + {irhs}, l, s);
        if ok {
          Reroute(g, m, rerouted, ilhs, irhs, seen, seen', l, s);
          return true, rerouted[irhs := ilhs], seen'';
        }
        ClosedAfterFailure(g, m, irhs, seen, seen', seen'');
        seen' := seen'';
      }
    }
    found, m' := false, m;
  }

  /** FindMaxBipartiteMatching. The ghosts l and s hold the deficient block of all failed searches: no
      matching at all can use more than s for the elements of l. */
  method FindMaxBipartiteMatching(matrix: MatchMatrix) returns (m: Matching)
    requires matrix.Valid()
    ensures IsMaximum(matrix.View(), m)
  {
    ghost var g := matrix.View();
    ghost var l: set<nat>, s: set<nat> := {}, {};
    m := map[];
    for ilhs := 0 to matrix.numElements
      invariant IsMatching(g, m) && Blocked(g, m, l, s, {}) && Processed(m, l, ilhs)
    {
      m, l, s := ProcessElement(matrix, m, ilhs, l, s);
    }
    forall other: Matching | IsMatching(g, other) ensures |other| <= |m| {
      BlockedMeansMaximum(g, m, other, l, s);
    }
  }

  /** Exactly the first n elements have been tried: each is matched or in the deficient block. */
  ghost predicate Processed(m: Matching, l: set<nat>, n: nat) {
    && (forall i | i in m.Values || i in l :: i < n)
    && (forall i: nat | i < n :: i in m.Values || i in l)
  }

  method ProcessElement(matrix: MatchMatrix, m: Matching, ilhs: nat, ghost l: set<nat>, ghost s: set<nat>)
      returns (m': Matching, ghost l': set<nat>, ghost s': set<nat>)
    requires matrix.Valid() && ilhs < matrix.numElements
    requires IsMatching(matrix.View(), m) && Blocked(matrix.View(), m, l, s, {}) && Processed(m, l, ilhs)
    ensures IsMatching(matrix.View(), m') && Blocked(matrix.View(), m', l', s', {}) && Processed(m', l', ilhs + 1)
  {
    ghost var g := matrix.View();
    l', s' := l, s;
    var found, seen;
    found, m', seen := TryAugment(matrix, m, ilhs, {}, l, s);
    if found {
      BlockStays(g, m, m', ilhs, l, s);
    } else {
      BlockGrows(g, m, ilhs, seen, l, s);
      l', s' := l + {ilhs} + Image(m, seen), s + seen;
    }
  }

  lemma BlockStays(g: Graph, m: Matching, m': Matching, i: nat, l: set<nat>, s: set<nat>)
    requires Blocked(g, m, l, s, {}) && Processed(m, l, i) && Augmented(g, m, m', i, {}, l, s)
    ensures Blocked(g, m', l, s, {}) && Processed(m', l, i + 1)
  {
  }

  lemma BlockGrows(g: Graph, m: Matching, i: nat, seen: set<nat>, l: set<nat>, s: set<nat>)
    requires Blocked(g, m, l, s, {}) && Processed(m, l, i) && Exhausted(g, m, i, {}, seen)
    ensures seen <= m.Keys
    ensures Blocked(g, m, l + {i} + Image(m, seen), s + seen, {})
    ensures Processed(m, l + {i} + Image(m, seen), i + 1)
  {
    var l' := l + {i} + Image(m, seen);
    assert Image(m, seen) <= m.Values;
    forall a, b | a in l' && (a, b) in g.edges ensures b in s + seen {
      if a in Image(m, seen) {
        var j :| j in seen && m[j] == a;
        assert Explored(g, m[j], seen);
      }
    }
  }

  lemma BlockedMeansMaximum(g: Graph, m: Matching, other: Matching, l: set<nat>, s: set<nat>)
    requires g.Valid() && IsMatching(g, m) && IsMatching(g, other) && Blocked(g, m, l, s, {})
    requires forall i: nat | i < g.lhs :: i in m.Values || i in l
    ensures |other| <= |m|
  {
    var inside := set j | j in other && other[j] in l;
    var outside := set j | j in other && other[j] !in l;
    var ours := set j | j in m && m[j] !in l;
    CardinalityOfSubset(inside, s);
    ImageSize(other, outside);
    ImageSize(m, ours);
    forall i | i in Image(other, outside) ensures i in Image(m, ours) {
      var k :| k in m && m[k] == i;
      assert k in ours;
    }
    CardinalityOfSubset(Image(other, outside), Image(m, ours));
    assert other.Keys == inside + outside;
    CardinalityOfSubset(s + ours, m.Keys);
  }

  function Image(m: Matching, ks: set<nat>): set<nat>
    requires ks <= m.Keys
  {
    set j | j in ks :: m[j]
  }

  lemma {:induction false} ImageSize(m: Matching, ks: set<nat>)
    requires ks <= m.Keys
    requires forall a, b | a in m && b in m && a != b :: m[a] != m[b]
    ensures |Image(m, ks)| == |ks|
  {
    if ks != {} {
      var k :| k in ks;
      ImageSize(m, ks - {k});
      assert Image(m, ks) == Image(m, ks - {k}) + {m[k]};
    }
  }

  lemma SeenIsBounded(before: set<nat>, j: nat, seen: set<nat>, n: nat)
    requires seen <= before && j !in before && j < n
    requires forall k | k in before :: k < n
    ensures |seen| <= |before| < |before + {j}| <= n
  {
    CardinalityOfSubset(seen, before);
    CardinalityBelow(before + {j}, n);
  }

  lemma {:induction false} CardinalityOfSubset<T>(a: set<T>, b: set<T>)
    requires a <= b
    ensures |a| <= |b|
  {
    assert b == a + (b - a);
  }

  lemma {:induction false} CardinalityBelow(a: set<nat>, n: nat)
    requires forall k | k in a :: k < n
    ensures |a| <= n
  {
    if n == 0 {
      assert a == {};
    } else {
      CardinalityBelow(a - {n - 1}, n - 1);
      CardinalityOfSubset(a, (a - {n - 1}) + {n - 1});
    }
  }

  lemma ValuesAfterUpdate(m: Matching, j: nat, i: nat)
    requires j !in m
    ensures m[j := i].Values == m.Values + {i}
  {
    var m' := m[j := i];
    assert forall k | k in m :: m'[k] == m[k];
    assert m'[j] == i;
  }

  lemma ValuesAfterRemoval(m: Matching, j: nat)
    requires j in m
    requires forall a, b | a in m && b in m && a != b :: m[a] != m[b]
    ensures (m - {j}).Values == m.Values - {m[j]}
  {
    var m' := m - {j};
    assert forall k | k in m' :: m'[k] == m[k];
    forall i | i in m.Values - {m[j]} ensures i in m'.Values {
      var k :| k in m && m[k] == i;
      assert m'[k] == i;
    }
  }
}
