/** The heap binary tree of binary-tree.cpp: pushing values and printing them in order. */
module TreeSort {

  class Node {
    const value: int
    var left: Node?
    var right: Node?
    /** The nodes of this subtree, in order, and as a set. */
    ghost var inorder: seq<Node>
    ghost var repr: set<Node>

    constructor (value: int)
      ensures this.value == value && Valid() && fresh(repr) && repr == {this} && inorder == [this]
    {
      this.value := value;
      left, right := null, null;
      inorder := [this];
      repr := {this};
    }

    /** A proper tree: the subtrees are disjoint, smaller values are left, and equal or larger ones right. */
    ghost predicate Valid()
      reads this, repr
      decreases repr
    {
      && this in repr
      && (left != null ==> left in repr && left.repr <= repr && this !in left.repr && left.Valid())
      && (right != null ==> right in repr && right.repr <= repr && this !in right.repr && right.Valid())
      && (left != null && right != null ==> left.repr !! right.repr)
      && inorder == Glue(InorderOf(left), this, InorderOf(right))
      && AllLess(InorderOf(left), value)
      && AllAtLeast(InorderOf(right), value)
    }
  }

  ghost function InorderOf(n: Node?): seq<Node>
    reads n
  {
    if n == null then [] else n.inorder
  }

  ghost function ReprOf(n: Node?): set<Node>
    reads n
  {
    if n == null then {} else n.repr
  }

  ghost function Glue(l: seq<Node>, n: Node, r: seq<Node>): seq<Node> {
    l + [n] + r
  }

  ghost predicate AllLess(s: seq<Node>, v: int) {
    forall n | n in s :: n.value < v
  }

  ghost predicate AllAtLeast(s: seq<Node>, v: int) {
    forall n | n in s :: v <= n.value
  }

  // ---------- What a push does to the order ----------

  /** x goes after every node that is less or equal, and before the first that is greater. */
  function Insert(s: seq<Node>, x: Node): seq<Node> {
    if s == [] || x.value < s[0].value then [x] + s else [s[0]] + Insert(s[1..], x)
  }

  lemma {:induction false} InsertElements(s: seq<Node>, x: Node)
    ensures forall n | n in Insert(s, x) :: n in s || n == x
  {
    if s != [] && !(x.value < s[0].value) {
      InsertElements(s[1..], x);
    }
  }

  predicate SortedByValue(s: seq<Node>) {
    forall i, j | 0 <= i < j < |s| :: s[i].value <= s[j].value
  }

  /** Going left: nodes that are greater stay behind x. */
  lemma {:induction false} InsertLeft(a: seq<Node>, b: seq<Node>, x: Node)
    requires b != [] && x.value < b[0].value
    ensures Insert(a + b, x) == Insert(a, x) + b
  {
    if a == [] {
      assert a + b == b;
    } else if x.value < a[0].value {
    } else {
      assert (a + b)[1..] == a[1..] + b;
      InsertLeft(a[1..], b, x);
    }
  }

  /** Going right: nodes that are not greater stay ahead of x. */
  lemma {:induction false} InsertRight(a: seq<Node>, b: seq<Node>, x: Node)
    requires forall n | n in a :: n.value <= x.value
    ensures Insert(a + b, x) == a + Insert(b, x)
  {
    if a == [] {
      assert a + b == b;
    } else {
      assert a[0] in a;
      assert (a + b)[1..] == a[1..] + b;
      InsertRight(a[1..], b, x);
    }
  }

  /** In a proper tree a smaller node belongs in the left subtree. */
  lemma PushedLeft(root: Node, x: Node)
    requires root.Valid() && x.value < root.value
    ensures Insert(root.inorder, x) == Glue(Insert(InorderOf(root.left), x), root, InorderOf(root.right))
    ensures AllLess(Insert(InorderOf(root.left), x), root.value) && AllAtLeast(InorderOf(root.right), root.value)
  {
    var l, r := InorderOf(root.left), InorderOf(root.right);
    InsertLeft(l, [root] + r, x);
    InsertElements(l, x);
    assert l + [root] + r == l + ([root] + r);
    assert Insert(l, x) + [root] + r == Insert(l, x) + ([root] + r);
  }

  /** And one that is not smaller in the right subtree. */
  lemma PushedRight(root: Node, x: Node)
    requires root.Valid() && root.value <= x.value
    ensures Insert(root.inorder, x) == Glue(InorderOf(root.left), root, Insert(InorderOf(root.right), x))
    ensures AllLess(InorderOf(root.left), root.value) && AllAtLeast(Insert(InorderOf(root.right), x), root.value)
  {
    InsertRight(InorderOf(root.left) + [root], InorderOf(root.right), x);
    InsertElements(InorderOf(root.right), x);
  }

  class BinaryTree {
    var root: Node?
    ghost var repr: set<Node>

    ghost predicate Valid()
      reads this, repr
    {
      if root == null then repr == {} else root in repr && root.repr == repr && root.Valid()
    }

    /** The nodes in printing order. */
    ghost function Order(): seq<Node>
      requires Valid()
      reads this, repr
    {
      InorderOf(root)
    }

    constructor ()
      ensures Valid() && repr == {} && Order() == []
    {
      root := null;
      repr := {};
    }

    method PushData(value: int) returns (ghost pnode: Node)
      requires Valid()
      modifies this, repr
      ensures Valid() && fresh(repr - old(repr))
      ensures fresh(pnode) && pnode.value == value
      ensures Order() == Insert(old(Order()), pnode)
    {
      var node := new Node(value);
      pnode := node;
      if root == null {
        root := node;
      } else {
        PushDataAux(root, node);
      }
      repr := root.repr;
    }

    /** Walks down to a free place. The order of the tree decides the side, and the new node ends up after
        every node that is not greater. */
    static method PushDataAux(root: Node, pnode: Node)
      requires root.Valid() && pnode.Valid() && pnode.inorder == [pnode] && pnode.repr == {pnode}
      requires pnode !in root.repr
      modifies root.repr
      ensures root.Valid() && root.repr == old(root.repr) + {pnode}
      ensures root.inorder == Insert(old(root.inorder), pnode)
      decreases root.repr, 2
    {
      if pnode.value < root.value {
        PushLeft(root, pnode);
      } else {
        PushRight(root, pnode);
      }
    }

    /** The ghost bookkeeping once a subtree has taken the new node. */
    static ghost method Relink(root: Node, pnode: Node)
      requires root in root.repr && pnode !in root.repr
      requires ReprOf(root.left) + ReprOf(root.right) <= root.repr + {pnode} - {root}
      requires ReprOf(root.left) !! ReprOf(root.right)
      requires root.left != null ==> root.left.Valid()
      requires root.right != null ==> root.right.Valid()
      requires AllLess(InorderOf(root.left), root.value) && AllAtLeast(InorderOf(root.right), root.value)
      modifies root`inorder, root`repr
      ensures root.Valid() && root.repr == old(root.repr) + {pnode}
      ensures root.inorder == old(Glue(InorderOf(root.left), root, InorderOf(root.right)))
    {
      root.inorder := Glue(InorderOf(root.left), root, InorderOf(root.right));
      root.repr := root.repr + {pnode};
    }

    static method PushLeft(root: Node, pnode: Node)
      requires root.Valid() && pnode.Valid() && pnode.inorder == [pnode] && pnode.repr == {pnode}
      requires pnode !in root.repr && pnode.value < root.value
      modifies root.repr
      ensures root.Valid() && root.repr == old(root.repr) + {pnode}
      ensures root.inorder == Insert(old(root.inorder), pnode)
      decreases root.repr, 1
    {
      PushedLeft(root, pnode);
      AttachLeft(root, pnode);
      Relink(root, pnode);
    }

    /** The left pointer, or the subtree below it, takes the new node. */
    static method AttachLeft(root: Node, pnode: Node)
      requires root.Valid() && pnode.Valid() && pnode.inorder == [pnode] && pnode.repr == {pnode}
      requires pnode !in root.repr
      modifies root.repr
      ensures root.inorder == old(root.inorder) && root.repr == old(root.repr) && root.right == old(root.right)
      ensures root.left != null && root.left.Valid() && root.left.repr == old(ReprOf(root.left)) + {pnode}
      ensures root.left.inorder == Insert(old(InorderOf(root.left)), pnode)
      ensures root.right != null ==> root.right.Valid()
      ensures InorderOf(root.right) == old(InorderOf(root.right)) && ReprOf(root.right) == old(ReprOf(root.right))
      ensures ReprOf(root.left) + ReprOf(root.right) <= root.repr + {pnode} - {root}
      ensures ReprOf(root.left) !! ReprOf(root.right)
      decreases root.repr, 0
    {
      if root.left == null {
        root.left := pnode;
      } else {
        PushDataAux(root.left, pnode);
      }
    }

    static method PushRight(root: Node, pnode: Node)
      requires root.Valid() && pnode.Valid() && pnode.inorder == [pnode] && pnode.repr == {pnode}
      requires pnode !in root.repr && root.value <= pnode.value
      modifies root.repr
      ensures root.Valid() && root.repr == old(root.repr) + {pnode}
      ensures root.inorder == Insert(old(root.inorder), pnode)
      decreases root.repr, 1
    {
      PushedRight(root, pnode);
      AttachRight(root, pnode);
      Relink(root, pnode);
    }

    /** The right pointer, or the subtree below it, takes the new node. */
    static method AttachRight(root: Node, pnode: Node)
      requires root.Valid() && pnode.Valid() && pnode.inorder == [pnode] && pnode.repr == {pnode}
      requires pnode !in root.repr
      modifies root.repr
      ensures root.inorder == old(root.inorder) && root.repr == old(root.repr) && root.left == old(root.left)
      ensures root.right != null && root.right.Valid() && root.right.repr == old(ReprOf(root.right)) + {pnode}
      ensures root.right.inorder == Insert(old(InorderOf(root.right)), pnode)
      ensures root.left != null ==> root.left.Valid()
      ensures InorderOf(root.left) == old(InorderOf(root.left)) && ReprOf(root.left) == old(ReprOf(root.left))
      ensures ReprOf(root.left) + ReprOf(root.right) <= root.repr + {pnode} - {root}
      ensures ReprOf(root.left) !! ReprOf(root.right)
      decreases root.repr, 0
    {
      if root.right == null {
        root.right := pnode;
      } else {
        PushDataAux(root.right, pnode);
      }
    }

    method PreorderPrint() returns (out: seq<int>)
      requires Valid()
      ensures out == Values(Order())
    {
      out := PreorderPrintAux(root);
    }

    /** Despite its name it visits the left subtree, the node, and the right subtree. */
    static method PreorderPrintAux(root: Node?) returns (out: seq<int>)
      requires root != null ==> root.Valid()
      ensures out == Values(InorderOf(root))
      decreases ReprOf(root)
    {
      if root == null {
        return [];
      }
      var l := PreorderPrintAux(root.left);
      var r := PreorderPrintAux(root.right);
      ValuesOfGlue(InorderOf(root.left), root, InorderOf(root.right));
      out := l + [root.value] + r;
    }
  }

  function Values(s: seq<Node>): (r: seq<int>)
    ensures |r| == |s| && forall i | 0 <= i < |s| :: r[i] == s[i].value
  {
    seq(|s|, i requires 0 <= i < |s| => s[i].value)
  }

  lemma ValuesOfGlue(l: seq<Node>, n: Node, r: seq<Node>)
    ensures Values(Glue(l, n, r)) == Values(l) + [n.value] + Values(r)
  {
  }

  // ---------- Any number of pushes ----------

  /** The order after pushing the nodes of xs one after the other. */
  function PushAll(xs: seq<Node>): seq<Node> {
    if xs == [] then [] else Insert(PushAll(xs[..|xs| - 1]), xs[|xs| - 1])
  }

  /** The nodes with one value, in order. */
  function WithValue(s: seq<Node>, v: int): seq<Node> {
    if s == [] then [] else One(s[0], v) + WithValue(s[1..], v)
  }

  function One(x: Node, v: int): seq<Node> {
    if x.value == v then [x] else []
  }

  lemma {:induction false} InsertSorts(s: seq<Node>, x: Node)
    requires SortedByValue(s)
    ensures SortedByValue(Insert(s, x))
  {
    if s != [] && !(x.value < s[0].value) {
      InsertSorts(s[1..], x);
      InsertElements(s[1..], x);
      var rest := Insert(s[1..], x);
      forall j | 0 <= j < |rest| ensures s[0].value <= rest[j].value {
        assert rest[j] in rest;
      }
    }
  }

  lemma {:induction false} InsertAddsOne(s: seq<Node>, x: Node)
    ensures multiset(Insert(s, x)) == multiset(s) + multiset{x}
  {
    if s != [] && !(x.value < s[0].value) {
      InsertAddsOne(s[1..], x);
      assert s == [s[0]] + s[1..];
    }
  }

  /** Among equal values the new node comes last; nodes with other values keep their order. */
  lemma {:induction false} InsertIsStable(s: seq<Node>, x: Node, v: int)
    requires SortedByValue(s)
    ensures WithValue(Insert(s, x), v) == WithValue(s, v) + One(x, v)
  {
    var t := Insert(s, x);
    if s == [] {
      assert t[1..] == [];
    } else if x.value < s[0].value {
      NoneWithValue(s, x.value);
      assert t[1..] == s;
    } else {
      assert t[1..] == Insert(s[1..], x);
      InsertIsStable(s[1..], x, v);
      ConcatAssociates(One(s[0], v), WithValue(s[1..], v), One(x, v));
    }
  }

  lemma ConcatAssociates(a: seq<Node>, b: seq<Node>, c: seq<Node>)
    ensures a + (b + c) == (a + b) + c
  {
  }

  lemma {:induction false} NoneWithValue(s: seq<Node>, v: int)
    requires forall i | 0 <= i < |s| :: s[i].value > v
    ensures WithValue(s, v) == []
  {
    if s != [] {
      NoneWithValue(s[1..], v);
    }
  }

  lemma {:induction false} WithValueAppends(s: seq<Node>, x: Node, v: int)
    ensures WithValue(s + [x], v) == WithValue(s, v) + One(x, v)
  {
    var t := s + [x];
    if s == [] {
      assert t[1..] == [];
      assert WithValue(t, v) == One(x, v);
    } else {
      assert t[1..] == s[1..] + [x];
      WithValueAppends(s[1..], x, v);
      ConcatAssociates(One(s[0], v), WithValue(s[1..], v), One(x, v));
    }
  }

  /** After any pushes the order is a sorted, stable rearrangement of what was pushed. */
  lemma {:induction false} TreeSorts(xs: seq<Node>)
    ensures SortedByValue(PushAll(xs)) && multiset(PushAll(xs)) == multiset(xs)
    ensures forall v :: WithValue(PushAll(xs), v) == WithValue(xs, v)
  {
    if xs != [] {
      var before, x := xs[..|xs| - 1], xs[|xs| - 1];
      TreeSorts(before);
      InsertSorts(PushAll(before), x);
      InsertAddsOne(PushAll(before), x);
      assert xs == before + [x];
      forall v ensures WithValue(PushAll(xs), v) == WithValue(xs, v) {
        InsertIsStable(PushAll(before), x, v);
        WithValueAppends(before, x, v);
      }
    }
  }

  lemma OneMorePush(xs: seq<Node>, x: Node)
    ensures PushAll(xs + [x]) == Insert(PushAll(xs), x)
  {
    assert (xs + [x])[..|xs|] == xs;
  }

  /** The nodes hold the first n values, in the order of the values. */
  ghost predicate Holds(nodes: seq<Node>, values: seq<int>, n: nat) {
    n <= |values| && Values(nodes) == values[..n]
  }

  lemma HoldsOneMore(nodes: seq<Node>, x: Node, values: seq<int>, n: nat)
    requires Holds(nodes, values, n) && n < |values| && x.value == values[n]
    ensures Holds(nodes + [x], values, n + 1)
  {
  }

  /** main: pushes the values of an array and prints the tree. */
  method SortByTree(values: seq<int>) returns (out: seq<int>, ghost pushed: seq<Node>)
    ensures Holds(pushed, values, |values|)
    ensures out == Values(PushAll(pushed))
    ensures multiset(out) == multiset(values) && forall i, j | 0 <= i < j < |out| :: out[i] <= out[j]
  {
    var tree := new BinaryTree();
    pushed := [];
    for i := 0 to |values|
      invariant tree.Valid() && fresh(tree) && fresh(tree.repr)
      invariant Holds(pushed, values, i)
      invariant tree.Order() == PushAll(pushed)
    {
      ghost var pnode := PushNext(tree, values[i], pushed);
      HoldsOneMore(pushed, pnode, values, i);
      pushed := pushed + [pnode];
    }
    out := tree.PreorderPrint();
    assert values[..|values|] == values;
    PrintoutIsSorted(pushed);
  }

  method PushNext(tree: BinaryTree, value: int, ghost pushed: seq<Node>) returns (ghost pnode: Node)
    requires tree.Valid() && tree.Order() == PushAll(pushed)
    modifies tree, tree.repr
    ensures tree.Valid() && fresh(tree.repr - old(tree.repr))
    ensures pnode.value == value && tree.Order() == PushAll(pushed + [pnode])
  {
    pnode := tree.PushData(value);
    OneMorePush(pushed, pnode);
  }

  /** The printout of any values is sorted and a rearrangement of them. */
  lemma PrintoutIsSorted(pushed: seq<Node>)
    ensures var out := Values(PushAll(pushed));
      && (forall i, j | 0 <= i < j < |out| :: out[i] <= out[j])
      && multiset(out) == multiset(Values(pushed))
  {
    TreeSorts(pushed);
    PushAllKeepsValues(pushed);
  }

  lemma {:induction false} InsertAddsValue(s: seq<Node>, x: Node)
    ensures multiset(Values(Insert(s, x))) == multiset(Values(s)) + multiset{x.value}
  {
    if s == [] || x.value < s[0].value {
      assert Values([x] + s) == [x.value] + Values(s);
    } else {
      InsertAddsValue(s[1..], x);
      assert Values([s[0]] + Insert(s[1..], x)) == [s[0].value] + Values(Insert(s[1..], x));
      assert Values(s) == [s[0].value] + Values(s[1..]);
    }
  }

  lemma {:induction false} PushAllKeepsValues(xs: seq<Node>)
    ensures multiset(Values(PushAll(xs))) == multiset(Values(xs))
  {
    if xs != [] {
      var before, x := xs[..|xs| - 1], xs[|xs| - 1];
      PushAllKeepsValues(before);
      InsertAddsValue(PushAll(before), x);
      assert Values(xs) == Values(before) + [x.value];
    }
  }
}
