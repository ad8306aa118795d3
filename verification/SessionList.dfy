/** The linked list of tftp/list.c: a sentinel node and the sessions behind it. */
module SessionList {

  /** SESSION; only its identity matters here. */
  class Session {
    constructor () {}
  }

  class Node {
    var value: Session?
    var next: Node?

    constructor (value: Session?, next: Node?)
      ensures this.value == value && this.next == next
    {
      this.value := value;
      this.next := next;
    }
  }

  /** nodes is the whole chain from the sentinel to the end: no node twice, so every walk ends. */
  ghost predicate IsChain(nodes: seq<Node>)
    reads nodes
  {
    && nodes != []
    && nodes[0].value == null
    && (forall i | 0 <= i < |nodes| - 1 :: nodes[i].next == nodes[i + 1])
    && nodes[|nodes| - 1].next == null
    && (forall i, j | 0 <= i < j < |nodes| :: nodes[i] != nodes[j])
  }

  /** The sessions of the list, front first. */
  ghost function Items(nodes: seq<Node>): (s: seq<Session?>)
    requires nodes != []
    reads nodes
    ensures |s| == |nodes| - 1 && forall i | 0 <= i < |s| :: s[i] == nodes[i + 1].value
  {
    seq(|nodes| - 1, i requires 0 <= i < |nodes| - 1 reads nodes => nodes[i + 1].value)
  }

  function RemoveFirst<T(==)>(s: seq<T>, x: T): seq<T> {
    if s == [] then []
    else if s[0] == x then s[1..]
    else [s[0]] + RemoveFirst(s[1..], x)
  }

  /** An absent item changes nothing; otherwise exactly the first occurrence goes. */
  lemma {:induction false} RemoveFirstRemoves<T>(s: seq<T>, x: T, k: nat)
    requires k <= |s| && (forall i | 0 <= i < k :: s[i] != x) && (k < |s| ==> s[k] == x)
    ensures RemoveFirst(s, x) == if k < |s| then s[..k] + s[k + 1..] else s
  {
    if k > 0 {
      var t := s[1..];
      RemoveFirstRemoves(t, x, k - 1);
      if k < |s| {
        assert [s[0]] + (t[..k - 1] + t[k..]) == s[..k] + s[k + 1..];
      }
    }
  }

  /** Where x occurs first; the length when it does not. */
  function First<T(==)>(s: seq<T>, x: T): (k: nat)
    ensures k <= |s| && x !in s[..k] && (k < |s| ==> s[k] == x)
  {
    if s == [] || s[0] == x then 0
    else
      var k := First(s[1..], x) + 1;
      assert s[..k] == [s[0]] + s[1..][..k - 1];
      k
  }

  lemma FirstIs<T>(s: seq<T>, x: T, k: nat)
    requires k <= |s| && (forall i | 0 <= i < k :: s[i] != x) && (k < |s| ==> s[k] == x)
    ensures First(s, x) == k
  {
    var f := First(s, x);
    assert forall i | 0 <= i < f :: s[i] in s[..f];
  }

  predicate OccursTwice<T(==)>(s: seq<T>, x: T) {
    exists i, j | 0 <= i < j < |s| :: s[i] == x && s[j] == x
  }

  /** An item is still there after the removal of its first occurrence exactly when it occurred twice. */
  lemma StillThere<T>(s: seq<T>, x: T)
    ensures x in RemoveFirst(s, x) <==> OccursTwice(s, x)
  {
    var k := First(s, x);
    assert forall i | 0 <= i < k :: s[i] in s[..k];
    RemoveFirstRemoves(s, x, k);
    if k < |s| {
      assert forall j | k < j < |s| :: s[k + 1..][j - k - 1] == s[j];
    }
  }

  method CreateSessionList() returns (head: Node, ghost nodes: seq<Node>)
    ensures fresh(head) && nodes == [head] && IsChain(nodes) && Items(nodes) == []
  {
    head := new Node(null, null);
    nodes := [head];
  }

  /** A null list has length 0. */
  method GetListLength(head: Node?, ghost nodes: seq<Node>) returns (length: nat)
    requires head != null ==> IsChain(nodes) && nodes[0] == head
    ensures length == if head == null then 0 else |Items(nodes)|
  {
    if head == null {
      return 0;
    }
    length := 0;
    var index := head.next;
    while index != null
      invariant length <= |nodes| - 1
      invariant index == if length < |nodes| - 1 then nodes[length + 1] else null
      decreases |nodes| - length
    {
      length := length + 1;
      index := index.next;
    }
  }

  method InsertToSessionList(head: Node, session: Session?, ghost nodes: seq<Node>)
      returns (ghost nodes': seq<Node>)
    requires IsChain(nodes) && nodes[0] == head
    modifies head`next
    ensures IsChain(nodes') && |nodes'| == |nodes| + 1 && nodes' == [head, nodes'[1]] + nodes[1..] && fresh(nodes'[1])
    ensures forall n | n in nodes' :: n in nodes || n == nodes'[1]
    ensures Items(nodes') == [session] + old(Items(nodes))
  {
    var newItem := new Node(session, head.next);
    head.next := newItem;
    nodes' := [head, newItem] + nodes[1..];
    assert forall i | 1 <= i < |nodes| :: nodes'[i + 1] == nodes[i];
  }

  method Unlink(prev: Node, index: Node, ghost nodes: seq<Node>, ghost k: nat) returns (ghost nodes': seq<Node>)
    requires IsChain(nodes) && k + 1 < |nodes| && nodes[k] == prev && nodes[k + 1] == index
    modifies prev`next
    ensures IsChain(nodes') && nodes' == nodes[..k + 1] + nodes[k + 2..]
    ensures Items(nodes') == old(Items(nodes))[..k] + old(Items(nodes))[k + 1..]
  {
    prev.next := index.next;
    nodes' := nodes[..k + 1] + nodes[k + 2..];
    assert forall i | 0 <= i < |nodes'| :: nodes'[i] == if i <= k then nodes[i] else nodes[i + 1];
  }

  /** The chain without the node behind node k. */
  ghost function WithoutNode(nodes: seq<Node>, k: nat): seq<Node>
    requires k + 1 < |nodes|
  {
    nodes[..k + 1] + nodes[k + 2..]
  }

  /** Removes the first occurrence and frees its node and the session itself. The rest of the chain keeps its
      nodes, none of them freed; the freed session is still in the list exactly when it was inserted twice. */
  method RemoveFromList(head: Node, session: Session?, ghost nodes: seq<Node>)
      returns (ghost nodes': seq<Node>, ghost freedNode: Node?)
    requires IsChain(nodes) && nodes[0] == head
    modifies nodes`next
    ensures IsChain(nodes') && nodes'[0] == head
    ensures Items(nodes') == RemoveFirst(old(Items(nodes)), session)
    ensures var k := First(old(Items(nodes)), session);
      if k < |nodes| - 1 then nodes' == WithoutNode(nodes, k) && freedNode == nodes[k + 1]
      else nodes' == nodes && freedNode == null
    ensures forall n | n in nodes' :: n in nodes
    ensures freedNode != null <==> session in old(Items(nodes))
    ensures freedNode != null ==> freedNode in nodes && freedNode !in nodes' && freedNode.value == session
    ensures session in Items(nodes') <==> OccursTwice(old(Items(nodes)), session)
  {
    ghost var items := Items(nodes);
    StillThere(items, session);
    freedNode := null;
    var index, prev := head.next, head;
    ghost var k := 0;
    while index != null
      invariant k <= |items| && prev == nodes[k] && IsChain(nodes) && Items(nodes) == items
      invariant index == if k < |items| then nodes[k + 1] else null
      invariant forall i | 0 <= i < k :: items[i] != session
      invariant freedNode == null && unchanged(nodes)
      decreases |items| - k
    {
      if index.value == session {
        FirstIs(items, session, k);
        RemoveFirstRemoves(items, session, k);
        freedNode := index;
        nodes' := Unlink(prev, index, nodes, k);
        return;
      }
      prev := index;
      index := index.next;
      k := k + 1;
    }
    FirstIs(items, session, k);
    RemoveFirstRemoves(items, session, k);
    nodes' := nodes;
  }

  lemma BackToNodes(nodes: seq<Node>, longer: seq<Node>)
    requires nodes != [] && |longer| >= 2 && longer == [nodes[0], longer[1]] + nodes[1..]
    ensures WithoutNode(longer, 0) == nodes
  {
  }

  /** Inserting a session and removing it again restores the list, the same nodes in the same chain with the
      same items, but frees the session: a list that held it before names a freed session now. */
  method InsertThenRemove(head: Node, session: Session?, ghost nodes: seq<Node>) returns (ghost freedNode: Node?)
    requires IsChain(nodes) && nodes[0] == head
    modifies nodes`next
    ensures IsChain(nodes) && Items(nodes) == old(Items(nodes))
    ensures freedNode != null && fresh(freedNode) && freedNode.value == session
  {
    ghost var items := Items(nodes);
    ghost var longer := InsertToSessionList(head, session, nodes);
    InsertedIsFirst(items, session);
    BackToNodes(nodes, longer);
    ghost var nodes';
    nodes', freedNode := RemoveFromList(head, session, longer);
  }

  lemma InsertedIsFirst(items: seq<Session?>, session: Session?)
    ensures First([session] + items, session) == 0 && RemoveFirst([session] + items, session) == items
  {
    FirstIs([session] + items, session, 0);
    RemoveFirstRemoves([session] + items, session, 0);
  }

  // ---------- Any use of a list ----------

  datatype Op<T> = Insert(x: T) | Remove(x: T)

  /** What a list holds, and what it has freed, in that order. */
  datatype Memory<T> = Memory(items: seq<T>, freed: seq<T>)

  function Apply<T(==)>(m: Memory<T>, op: Op<T>): Memory<T> {
    match op
    case Insert(x) => m.(items := [x] + m.items)
    case Remove(x) => if x in m.items then Memory(RemoveFirst(m.items, x), m.freed + [x]) else m
  }

  function ApplyAll<T(==)>(ops: seq<Op<T>>): Memory<T> {
    if ops == [] then Memory([], []) else Apply(ApplyAll(ops[..|ops| - 1]), ops[|ops| - 1])
  }

  /** How often x is inserted. */
  function Inserts<T(==)>(ops: seq<Op<T>>, x: T): nat {
    if ops == [] then 0 else Inserts(ops[..|ops| - 1], x) + if ops[|ops| - 1] == Insert(x) then 1 else 0
  }

  /** Whatever was inserted is in the list or freed, as often as it was inserted. */
  lemma {:induction false} InsertedIsHeldOrFreed<T>(ops: seq<Op<T>>, x: T)
    ensures multiset(ApplyAll(ops).items)[x] + multiset(ApplyAll(ops).freed)[x] == Inserts(ops, x)
  {
    if ops != [] {
      InsertedIsHeldOrFreed(ops[..|ops| - 1], x);
      CountAfter(ApplyAll(ops[..|ops| - 1]), ops[|ops| - 1], x);
    }
  }

  lemma CountAfter<T>(m: Memory<T>, op: Op<T>, x: T)
    ensures var m' := Apply(m, op);
      && multiset(m'.freed)[x] == multiset(m.freed)[x] + (if op == Remove(x) && x in m.items then 1 else 0)
      && multiset(m'.items)[x] == multiset(m.items)[x]
           + (if op == Insert(x) then 1 else 0) - (if op == Remove(x) && x in m.items then 1 else 0)
  {
    if op.Remove? && op.x in m.items {
      RemoveFirstCounts(m.items, op.x);
    }
  }

  lemma {:induction false} RemoveFirstCounts<T>(s: seq<T>, x: T)
    requires x in s
    ensures multiset(RemoveFirst(s, x)) == multiset(s) - multiset{x}
  {
    assert s == [s[0]] + s[1..];
    if s[0] != x {
      RemoveFirstCounts(s[1..], x);
    }
  }

  /** A removal of x after an insertion of it. */
  ghost predicate RemovedOnce<T>(ops: seq<Op<T>>, x: T) {
    exists i | 0 <= i < |ops| :: ops[i] == Remove(x) && Inserts(ops[..i], x) >= 1
  }

  /** And then a later one after two. */
  ghost predicate RemovedTwice<T>(ops: seq<Op<T>>, x: T) {
    exists i | 0 <= i < |ops| :: ops[i] == Remove(x) && Inserts(ops[..i], x) >= 2 && RemovedOnce(ops[..i], x)
  }

  lemma RemovedGrows<T>(ops: seq<Op<T>>, x: T)
    requires ops != []
    ensures var before, last := ops[..|ops| - 1], ops[|ops| - 1] == Remove(x);
      && (RemovedOnce(ops, x) <==> RemovedOnce(before, x) || (last && Inserts(before, x) >= 1))
      && (RemovedTwice(ops, x) <==>
            RemovedTwice(before, x) || (last && Inserts(before, x) >= 2 && RemovedOnce(before, x)))
  {
    var before := ops[..|ops| - 1];
    assert forall i | 0 <= i < |before| :: before[i] == ops[i] && before[..i] == ops[..i];
  }

  /** An item is freed twice exactly when the operations remove it once after an insertion and again after
      two; inserting every item at most once rules that out. */
  lemma {:induction false} FreedTwiceExactlyWhen<T>(ops: seq<Op<T>>, x: T)
    ensures multiset(ApplyAll(ops).freed)[x] >= 1 <==> RemovedOnce(ops, x)
    ensures multiset(ApplyAll(ops).freed)[x] >= 2 <==> RemovedTwice(ops, x)
  {
    if ops != [] {
      var before := ops[..|ops| - 1];
      FreedTwiceExactlyWhen(before, x);
      RemovedGrows(ops, x);
      InsertedIsHeldOrFreed(before, x);
      CountAfter(ApplyAll(before), ops[|ops| - 1], x);
    }
  }

  /** The list names a freed item exactly when it was removed after an insertion, and its insertions outnumber
      the times it was freed. */
  lemma NamesFreedExactlyWhen<T>(ops: seq<Op<T>>, x: T)
    ensures var m := ApplyAll(ops);
      x in m.items && x in m.freed <==> RemovedOnce(ops, x) && Inserts(ops, x) > multiset(m.freed)[x]
  {
    FreedTwiceExactlyWhen(ops, x);
    InsertedIsHeldOrFreed(ops, x);
  }

  lemma InsertedOnceIsSafe<T>(ops: seq<Op<T>>, x: T)
    requires Inserts(ops, x) <= 1
    ensures var m := ApplyAll(ops); multiset(m.freed)[x] <= 1 && !(x in m.items && x in m.freed)
  {
    InsertedIsHeldOrFreed(ops, x);
  }

  /** Freed nodes are out of the chain, and none was freed twice. */
  ghost predicate AreGone(freedNodes: seq<Node>, nodes: seq<Node>) {
    && (forall i, j | 0 <= i < j < |freedNodes| :: freedNodes[i] != freedNodes[j])
    && (forall i | 0 <= i < |freedNodes| :: freedNodes[i] !in nodes)
  }

  ghost predicate Held(freedNodes: seq<Node>, freed: seq<Session?>)
    reads freedNodes
  {
    |freedNodes| == |freed| && forall i | 0 <= i < |freed| :: freedNodes[i].value == freed[i]
  }

  lemma StillGone(freedNodes: seq<Node>, nodes: seq<Node>, nodes': seq<Node>, more: seq<Node>)
    requires AreGone(freedNodes, nodes)
    requires forall n | n in nodes' :: n in nodes || n !in freedNodes
    requires |more| <= 1 && forall n | n in more :: n in nodes && n !in nodes'
    ensures AreGone(freedNodes + more, nodes')
  {
  }

  /** One operation on a list. */
  method UseOnce(head: Node, ghost nodes: seq<Node>, ghost freed: seq<Session?>, ghost freedNodes: seq<Node>,
                 op: Op<Session?>)
      returns (ghost nodes': seq<Node>, ghost freed': seq<Session?>, ghost freedNodes': seq<Node>)
    requires IsChain(nodes) && nodes[0] == head && AreGone(freedNodes, nodes) && Held(freedNodes, freed)
    modifies nodes`next
    ensures IsChain(nodes') && nodes'[0] == head && AreGone(freedNodes', nodes') && Held(freedNodes', freed')
    ensures Memory(Items(nodes'), freed') == Apply(Memory(old(Items(nodes)), freed), op)
    ensures forall n | n in nodes' :: n in nodes || fresh(n)
  {
    freed', freedNodes' := freed, freedNodes;
    match op
    case Insert(x) =>
      nodes' := InsertToSessionList(head, x, nodes);
      StillGone(freedNodes, nodes, nodes', []);
    case Remove(x) =>
      ghost var freedNode;
      nodes', freedNode := RemoveFromList(head, x, nodes);
      if freedNode != null {
        StillGone(freedNodes, nodes, nodes', [freedNode]);
        freed', freedNodes' := freed + [x], freedNodes + [freedNode];
      }
  }

  /** Any operations on a new list: it holds and frees what they say. No node is freed twice, and none that was
      freed is in the chain. */
  method Use(ops: seq<Op<Session?>>)
      returns (head: Node, ghost nodes: seq<Node>, ghost freed: seq<Session?>, ghost freedNodes: seq<Node>)
    ensures IsChain(nodes) && nodes[0] == head && AreGone(freedNodes, nodes) && Held(freedNodes, freed)
    ensures ApplyAll(ops) == Memory(Items(nodes), freed)
  {
    head, nodes := CreateSessionList();
    freed, freedNodes := [], [];
    for k := 0 to |ops|
      invariant IsChain(nodes) && nodes[0] == head && AreGone(freedNodes, nodes) && Held(freedNodes, freed)
      invariant fresh(set n | n in nodes)
      invariant ApplyAll(ops[..k]) == Memory(Items(nodes), freed)
    {
      assert ops[..k + 1][..k] == ops[..k];
      nodes, freed, freedNodes := UseOnce(head, nodes, freed, freedNodes, ops[k]);
    }
    assert ops[..|ops|] == ops;
  }

  /** It does happen: a session inserted twice and removed once is freed and still in the list. */
  method InsertedTwiceExample(session: Session)
      returns (head: Node, ghost nodes: seq<Node>, ghost freed: seq<Session?>)
    ensures IsChain(nodes) && nodes[0] == head && Items(nodes) == [session] == freed
  {
    var s: Session? := session;
    var ops := [Insert(s), Insert(s), Remove(s)];
    ghost var freedNodes;
    head, nodes, freed, freedNodes := Use(ops);
    TwoInsertsAndARemove(s);
  }

  lemma TwoInsertsAndARemove<T>(x: T)
    ensures ApplyAll([Insert(x), Insert(x), Remove(x)]) == Memory([x], [x])
  {
    var ops := [Insert(x), Insert(x), Remove(x)];
    assert ops[..2] == [Insert(x), Insert(x)] && ops[..2][..1] == [Insert(x)];
    assert ApplyAll([Insert(x)]) == Memory([x], []);
    assert ApplyAll(ops[..2]) == Memory([x, x], []);
  }
}
