/** getBlockedCates of block_soft.go: filters every category's list in place and reports the emptied ones. */
module BlockedCategories {

  /** A Go slice from the start of its backing array. */
  datatype Slice = Slice(data: array<int>, len: nat)

  class SoftMap {
    var m: map<int, Slice>

    constructor (m: map<int, Slice>)
      ensures this.m == m
    {
      this.m := m;
    }
  }

  /** The items that are not blocked, in order. */
  function Unblocked(s: seq<int>, blocked: set<int>): seq<int> {
    if s == [] then []
    else (if s[0] in blocked then [] else [s[0]]) + Unblocked(s[1..], blocked)
  }

  lemma {:induction false} UnblockedIsEmpty(s: seq<int>, blocked: set<int>)
    ensures Unblocked(s, blocked) == [] <==> forall x | x in s :: x in blocked
  {
    if s != [] {
      UnblockedIsEmpty(s[1..], blocked);
      assert forall x :: x in s <==> x == s[0] || x in s[1..];
    }
  }

  /** The filter keeps exactly the unblocked items, with their multiplicity. */
  lemma {:induction false} UnblockedKeeps(s: seq<int>, blocked: set<int>, x: int)
    ensures multiset(Unblocked(s, blocked))[x] == if x in blocked then 0 else multiset(s)[x]
  {
    if s != [] {
      UnblockedKeeps(s[1..], blocked, x);
      assert s == [s[0]] + s[1..];
    }
  }

  /** r is s at the indices at, which ascend and are those of the items not blocked. */
  ghost predicate Picks(s: seq<int>, blocked: set<int>, r: seq<int>, at: seq<nat>) {
    && |at| == |r|
    && (forall j | 0 <= j < |at| :: at[j] < |s| && r[j] == s[at[j]])
    && (forall i, j | 0 <= i < j < |at| :: at[i] < at[j])
    && (forall k: nat | k < |s| :: k in at <==> s[k] !in blocked)
  }

  /** The filter keeps the order. */
  lemma {:induction false} UnblockedInOrder(s: seq<int>, blocked: set<int>) returns (at: seq<nat>)
    ensures Picks(s, blocked, Unblocked(s, blocked), at)
  {
    if s == [] {
      at := [];
    } else {
      var before, last := s[..|s| - 1], s[|s| - 1];
      at := UnblockedInOrder(before, blocked);
      assert s == before + [last];
      UnblockedAppends(before, last, blocked);
      PicksOneMore(before, last, blocked, Unblocked(before, blocked), at);
      if last in blocked {
        assert Unblocked(before, blocked) + [] == Unblocked(before, blocked);
      } else {
        at := at + [|before|];
      }
    }
  }

  lemma {:induction false} UnblockedAppends(s: seq<int>, x: int, blocked: set<int>)
    ensures Unblocked(s + [x], blocked) == Unblocked(s, blocked) + if x in blocked then [] else [x]
  {
    if s != [] {
      assert (s + [x])[1..] == s[1..] + [x];
      UnblockedAppends(s[1..], x, blocked);
    } else {
      assert s + [x] == [x] && [x][1..] == [];
    }
  }

  lemma PicksOneMore(s: seq<int>, x: int, blocked: set<int>, r: seq<int>, at: seq<nat>)
    requires Picks(s, blocked, r, at)
    ensures x in blocked ==> Picks(s + [x], blocked, r, at)
    ensures x !in blocked ==> Picks(s + [x], blocked, r + [x], at + [|s|])
  {
    assert forall k | k in at :: k < |s|;
  }

  /** append(softs[:i], softs[i+1:]...): the tail moves down one place within the backing array. */
  method RemoveAt(softs: Slice, i: nat) returns (r: Slice)
    requires i < softs.len <= softs.data.Length
    modifies softs.data
    ensures r == Slice(softs.data, softs.len - 1)
    ensures r.data[..r.len] == WithoutItem(old(softs.data[..softs.len]), i)
  {
    var data := softs.data;
    for k := i + 1 to softs.len
      invariant data[..k - 1] == old(data[..i]) + old(data[i + 1..k])
      invariant data[k..softs.len] == old(data[k..softs.len])
    {
      assert data[k] == data[k..softs.len][0];
      data[k - 1] := data[k];
    }
    r := Slice(data, softs.len - 1);
    assert r.data[..r.len] == old(softs.data[..softs.len])[..i] + old(softs.data[..softs.len])[i + 1..];
  }

  ghost function WithoutItem(s: seq<int>, i: nat): (r: seq<int>)
    requires i < |s|
    ensures |r| == |s| - 1 && r[..i] == s[..i] && r[i..] == s[i + 1..]
  {
    s[..i] + s[i + 1..]
  }

  lemma UnblockedStep(s: seq<int>, i: nat, blocked: set<int>)
    requires i < |s|
    ensures s[..i] + Unblocked(s[i..], blocked)
         == (if s[i] in blocked then s[..i] else s[..i + 1]) + Unblocked(s[i + 1..], blocked)
  {
    assert s[i..] == [s[i]] + s[i + 1..];
    assert s[..i + 1] == s[..i] + [s[i]];
  }

  /** The index loop that steps back after each removal. */
  method FilterInPlace(softs: Slice, blockMap: map<int, bool>) returns (r: Slice)
    requires softs.len <= softs.data.Length
    modifies softs.data
    ensures r.data == softs.data && r.len <= softs.len
    ensures r.data[..r.len] == Unblocked(old(softs.data[..softs.len]), blockMap.Keys)
  {
    r := softs;
    ghost var all := softs.data[..softs.len];
    ghost var blocked := blockMap.Keys;
    ghost var now := all;
    var i := 0;
    while i < r.len
      invariant r.data == softs.data && 0 <= i <= r.len <= softs.len && now == r.data[..r.len]
      invariant Unblocked(all, blocked) == now[..i] + Unblocked(now[i..], blocked)
      decreases r.len - i
    {
      UnblockedStep(now, i, blocked);
      if r.data[i] in blockMap {
        r := RemoveAt(r, i);
        now := WithoutItem(now, i);
        i := i - 1;
      }
      i := i + 1;
    }
    assert now[i..] == [];
  }

  method BuildBlockMap(blockedSofts: seq<int>) returns (blockMap: map<int, bool>)
    ensures blockMap.Keys == set x | x in blockedSofts
  {
    blockMap := map[];
    for i := 0 to |blockedSofts|
      invariant blockMap.Keys == set x | x in blockedSofts[..i]
    {
      assert blockedSofts[..i + 1] == blockedSofts[..i] + [blockedSofts[i]];
      blockMap := blockMap[blockedSofts[i] := true];
    }
    assert blockedSofts[..|blockedSofts|] == blockedSofts;
  }

  ghost function Backing(m: map<int, Slice>): set<array<int>> {
    set c | c in m :: m[c].data
  }

  /** Slices fit their backing arrays, and no two categories share one. */
  ghost predicate Separate(m: map<int, Slice>) {
    && (forall c | c in m :: m[c].len <= m[c].data.Length)
    && (forall c, d | c in m && d in m && c != d :: m[c].data != m[d].data)
  }

  predicate Distinct(s: seq<int>) {
    forall i, j | 0 <= i < j < |s| :: s[i] != s[j]
  }

  ghost function Items(m: map<int, Slice>, c: int): seq<int>
    requires c in m && m[c].len <= m[c].data.Length
    reads if c in m then {m[c].data} else {}
  {
    m[c].data[..m[c].len]
  }

  lemma SomeMember(s: set<int>)
    requires s != {}
    ensures exists x :: x in s
  {
    if forall x :: x !in s {
      assert false;
    }
  }

  method GetBlockedCates(softMap: SoftMap, blockedSofts: seq<int>) returns (blockedCates: seq<int>)
    requires Separate(softMap.m)
    modifies softMap, Backing(softMap.m)
    ensures Separate(softMap.m) && softMap.m.Keys == old(softMap.m.Keys)
    ensures forall c | c in softMap.m ::
        Items(softMap.m, c) == Unblocked(old(Items(softMap.m, c)), set x | x in blockedSofts)
    ensures Distinct(blockedCates)
    ensures forall c | c in blockedCates :: c in softMap.m
    ensures forall c | c in softMap.m ::
        c in blockedCates <==> forall x | x in old(Items(softMap.m, c)) :: x in blockedSofts
  {
    var blockMap := BuildBlockMap(blockedSofts);
    ghost var blocked := blockMap.Keys;
    FilterAll(softMap, blockMap);
    blockedCates := EmptyCates(softMap);
    forall c | c in softMap.m
      ensures c in blockedCates <==> forall x | x in old(Items(softMap.m, c)) :: x in blockedSofts
    {
      ghost var items := old(Items(softMap.m, c));
      UnblockedIsEmpty(items, blocked);
      assert Items(softMap.m, c) == [] <==> softMap.m[c].len == 0;
      assert forall x :: x in blocked <==> x in blockedSofts;
    }
  }

  /** The first loop over the map, in any order. */
  method FilterAll(softMap: SoftMap, blockMap: map<int, bool>)
    requires Separate(softMap.m)
    modifies softMap, Backing(softMap.m)
    ensures Separate(softMap.m) && softMap.m.Keys == old(softMap.m.Keys)
    ensures forall c | c in softMap.m :: Items(softMap.m, c) == Unblocked(old(Items(softMap.m, c)), blockMap.Keys)
  {
    var todo := softMap.m.Keys;
    while todo != {}
      invariant todo <= softMap.m.Keys == old(softMap.m.Keys) && Separate(softMap.m)
      invariant forall c | c in softMap.m :: softMap.m[c].data == old(softMap.m[c].data)
      invariant forall c | c in todo ::
          softMap.m[c] == old(softMap.m[c]) && Items(softMap.m, c) == old(Items(softMap.m, c))
      invariant forall c | c in softMap.m && c !in todo ::
          Items(softMap.m, c) == Unblocked(old(Items(softMap.m, c)), blockMap.Keys)
    {
      SomeMember(todo);
      var cate :| cate in todo;
      assert softMap.m[cate].data in Backing(old(softMap.m));
      FilterOne(softMap, cate, blockMap);
      todo := todo - {cate};
    }
  }

  method FilterOne(softMap: SoftMap, cate: int, blockMap: map<int, bool>)
    requires Separate(softMap.m) && cate in softMap.m
    modifies softMap, softMap.m[cate].data
    ensures Separate(softMap.m) && cate in softMap.m && softMap.m == old(softMap.m)[cate := softMap.m[cate]]
    ensures softMap.m[cate].data == old(softMap.m[cate].data)
    ensures forall c | c in softMap.m && c != cate :: Items(softMap.m, c) == old(Items(softMap.m, c))
    ensures Items(softMap.m, cate) == Unblocked(old(Items(softMap.m, cate)), blockMap.Keys)
  {
    var softs := FilterInPlace(softMap.m[cate], blockMap);
    softMap.m := softMap.m[cate := softs];
  }

  /** The second loop over the map: the categories with nothing left. */
  method EmptyCates(softMap: SoftMap) returns (blockedCates: seq<int>)
    ensures Distinct(blockedCates)
    ensures forall c :: c in blockedCates <==> c in softMap.m && softMap.m[c].len == 0
  {
    blockedCates := [];
    var todo := softMap.m.Keys;
    while todo != {}
      invariant todo <= softMap.m.Keys && Distinct(blockedCates)
      invariant forall c :: c in blockedCates <==> c in softMap.m && c !in todo && softMap.m[c].len == 0
    {
      SomeMember(todo);
      var cate :| cate in todo;
      if softMap.m[cate].len == 0 {
        blockedCates := blockedCates + [cate];
      }
      todo := todo - {cate};
    }
  }
}
