/** Ordering change shards by layers of resolved dependencies. */
module ShardOrder {
  import opened Text16
  import opened Sorting
  import opened Digraph

  datatype Shard = Shard(id: Text, dependsOn: seq<Text>)

  datatype Option<+T> = None | Some(value: T)

  /** Dependencies by shard id; the last shard of an id wins. */
  function ByIdMap(shards: seq<Shard>): Graph<Text> {
    if shards == [] then map[]
    else
      var last := shards[|shards| - 1];
      ByIdMap(shards[..|shards| - 1])[last.id := set d | d in last.dependsOn]
  }

  /** The shards none of whose dependencies is still waiting. */
  function Ready(remaining: Graph<Text>): set<Text> {
    set id | id in remaining && remaining[id] !! remaining.Keys
  }

  ghost predicate Lists(s: seq<Text>, ids: set<Text>) {
    Distinct(s) && forall id :: id in s <==> id in ids
  }

  ghost predicate ListsSorted(s: seq<Text>, ids: set<Text>) {
    Lists(s, ids) && Sorted(s, AtMost)
  }

  lemma {:induction false} ListExists(ids: set<Text>)
    ensures exists s :: Lists(s, ids)
  {
    if ids == {} {
      assert Lists([], ids);
    } else {
      var x :| x in ids;
      ListExists(ids - {x});
      var rest :| Lists(rest, ids - {x});
      assert Lists([x] + rest, ids);
    }
  }

  /** Sorting a duplicate-free listing gives the ascending one. */
  lemma SortLists(s: seq<Text>, ids: set<Text>)
    requires Lists(s, ids)
    ensures ListsSorted(Sort(s, AtMost), ids)
  {
    AtMostIsOrder();
    SortSorts(s, AtMost);
    PermutationDistinct(s, Sort(s, AtMost));
    forall id ensures id in Sort(s, AtMost) <==> id in ids { SortMembers(s, AtMost, id); }
  }

  lemma SortedListUnique(s: seq<Text>, t: seq<Text>, ids: set<Text>)
    requires ListsSorted(s, ids) && ListsSorted(t, ids)
    ensures s == t
  {
    AtMostIsOrder();
    SameMembers(s, t);
    SortedUnique(s, t, AtMost);
  }

  /** The one ascending list of a set of ids. */
  ghost function SortedList(ids: set<Text>): (s: seq<Text>)
    ensures ListsSorted(s, ids)
  {
    ListExists(ids);
    assert exists s :: ListsSorted(s, ids) by {
      var l :| Lists(l, ids);
      SortLists(l, ids);
    }
    var s :| ListsSorted(s, ids);
    s
  }

  /** The order as a function of the dependency map alone. */
  ghost function LayeredOrder(remaining: Graph<Text>): Option<seq<Text>>
    decreases |remaining|
  {
    if remaining == map[] then Some([])
    else
      var ready := Ready(remaining);
      if ready == {} then None
      else
        Shrinks(remaining, ready);
        match LayeredOrder(remaining - ready)
        case None => None
        case Some(rest) => Some(SortedList(ready) + rest)
  }

  lemma Shrinks(m: Graph<Text>, ids: set<Text>)
    requires ids <= m.Keys && ids != {}
    ensures |m - ids| < |m|
  {
    assert (m - ids).Keys == m.Keys - ids;
    assert |m.Keys - ids| == |m.Keys| - |ids|;
    assert |m - ids| == |(m - ids).Keys| && |m| == |m.Keys|;
  }

  /** Every id once, each after those of its dependencies that are shards too. */
  ghost predicate IsOrderOf(s: seq<Text>, m: Graph<Text>) {
    && Distinct(s)
    && (forall id :: id in s <==> id in m)
    && (forall i, d :: 0 <= i < |s| && Edge(m, s[i], d) && d in m ==> d in s[..i])
  }

  lemma Stack(ready: seq<Text>, rest: seq<Text>, m: Graph<Text>)
    requires ListsSorted(ready, Ready(m)) && IsOrderOf(rest, m - Ready(m))
    ensures IsOrderOf(ready + rest, m)
  {
    var s := ready + rest;
    var m' := m - Ready(m);
    forall i, j | 0 <= i < j < |s| ensures s[i] != s[j] {
      if i < |ready| <= j { assert s[i] in ready && s[j] in rest; }
    }
    assert forall i :: 0 <= i < |ready| ==> s[i] == ready[i] && ready[i] in Ready(m);
    forall i, d | 0 <= i < |s| && Edge(m, s[i], d) && d in m ensures d in s[..i] {
      if i >= |ready| {
        assert s[..i] == ready + rest[..i - |ready|];
        assert s[i] == rest[i - |ready|] && rest[i - |ready|] in rest;
        if d !in ready { assert Edge(m', rest[i - |ready|], d) && d in m'; }
      }
    }
  }

  /** What the layered order promises, and exactly when there is one. */
  lemma {:induction false} LayeredOrderCorrect(m: Graph<Text>)
    ensures LayeredOrder(m).Some? ==> IsOrderOf(LayeredOrder(m).value, m)
    ensures LayeredOrder(m).None? <==> HasCycleIn(m.Keys, m)
    decreases |m|
  {
    forall p | IsCycle(p, m) ensures p[0] in m { CycleStartsAtKey(p, m); }
    if m == map[] {
    } else if Ready(m) == {} {
      forall id | id in m.Keys ensures HasSuccessorIn(m, id, m.Keys) {
        assert id !in Ready(m);
        var d :| d in m[id] && d in m.Keys;
        assert Edge(m, id, d);
      }
      TrappedHasCycle(m.Keys, m);
    } else {
      var m' := m - Ready(m);
      Shrinks(m, Ready(m));
      LayeredOrderCorrect(m');
      if LayeredOrder(m').None? {
        var p :| IsCycle(p, m') && Within(p, m'.Keys);
        forall i, j | 0 <= i && j == i + 1 && j < |p| ensures Edge(m, p[i], p[j]) {
          assert Edge(m', p[i], p[j]);
        }
        assert IsCycle(p, m) && Within(p, m.Keys);
      } else {
        Stack(SortedList(Ready(m)), LayeredOrder(m').value, m);
        OrderedNoCycle(LayeredOrder(m).value, m);
      }
    }
  }

  lemma OrderedNoCycle(s: seq<Text>, m: Graph<Text>)
    requires IsOrderOf(s, m)
    ensures !HasCycleIn(m.Keys, m)
  {
    var inner: Graph<Text> := map id | id in m :: m[id] * m.Keys;
    forall i, d | 0 <= i < |s| && Edge(inner, s[i], d) ensures d in s[..i] {
      assert Edge(m, s[i], d) && d in m;
    }
    forall p | IsCycle(p, m) && Within(p, m.Keys) ensures false {
      assert p[0] in m.Keys;
      forall i, j | 0 <= i && j == i + 1 && j < |p| ensures Edge(inner, p[i], p[j]) {
        assert Edge(m, p[i], p[j]);
      }
      TopologicalAcyclic(s, inner, p);
    }
  }

  function Pick(keys: seq<Text>, ids: set<Text>): seq<Text> {
    if keys == [] then []
    else if keys[0] in ids then [keys[0]] + Pick(keys[1..], ids)
    else Pick(keys[1..], ids)
  }

  lemma {:induction false} PickMembers(keys: seq<Text>, ids: set<Text>)
    requires Distinct(keys)
    ensures forall id :: id in Pick(keys, ids) <==> id in keys && id in ids
    ensures Distinct(Pick(keys, ids))
  {
    if keys != [] {
      PickMembers(keys[1..], ids);
      assert keys == [keys[0]] + keys[1..];
      assert keys[0] !in Pick(keys[1..], ids);
    }
  }

  ghost function Prepend(ordered: seq<Text>, o: Option<seq<Text>>): Option<seq<Text>> {
    match o case None => None case Some(rest) => Some(ordered + rest)
  }

  lemma LayerStep(ordered: seq<Text>, m: Graph<Text>)
    requires Ready(m) != {}
    ensures Prepend(ordered, LayeredOrder(m)) == Prepend(ordered + SortedList(Ready(m)), LayeredOrder(m - Ready(m)))
  {
    if LayeredOrder(m - Ready(m)).Some? {
      var rest := LayeredOrder(m - Ready(m)).value;
      assert ordered + (SortedList(Ready(m)) + rest) == (ordered + SortedList(Ready(m))) + rest;
    }
  }

  /** Sorting the ready keys gives their list, and the others stay in insertion order. */
  lemma Batched(keys: seq<Text>, all: set<Text>, ready: set<Text>)
    requires Lists(keys, all) && ready <= all
    ensures Sort(Pick(keys, ready), AtMost) == SortedList(ready)
    ensures Lists(Pick(keys, all - ready), all - ready)
  {
    PickMembers(keys, ready);
    PickMembers(keys, all - ready);
    hide Sort, SortedList, Pick;
    SortLists(Pick(keys, ready), ready);
    SortedListUnique(Sort(Pick(keys, ready), AtMost), SortedList(ready), ready);
  }

  /** One turn of the loop. */
  lemma Turn(ordered: seq<Text>, keys: seq<Text>, m: Graph<Text>)
    requires Lists(keys, m.Keys) && Ready(m) != {}
    ensures var ready := Ready(m);
      && Lists(Pick(keys, m.Keys - ready), (m - ready).Keys) && |m - ready| < |m|
      && Prepend(ordered, LayeredOrder(m)) == Prepend(ordered + Sort(Pick(keys, ready), AtMost), LayeredOrder(m - ready))
  {
    var ready := Ready(m);
    LayerStep(ordered, m);
    Shrinks(m, ready);
    hide LayeredOrder, Pick, Sort, SortedList, Prepend;
    Batched(keys, m.Keys, ready);
    assert (m - ready).Keys == m.Keys - ready;
  }

  /** The ordering loop: a list of every shard id with dependencies first, or
      nothing exactly when the shards' own dependencies are cyclic. */
  method Order(shards: seq<Shard>) returns (r: Option<seq<Text>>)
    ensures r == LayeredOrder(ByIdMap(shards))
    ensures r.Some? ==> IsOrderOf(r.value, ByIdMap(shards))
    ensures r.None? <==> HasCycleIn(ByIdMap(shards).Keys, ByIdMap(shards))
  {
    hide IsOrderOf, HasCycleIn, Sorted, Sort, SortedList, Pick, LayeredOrder, Ready, ByIdMap, InsertionOrder;
    var remaining := ByIdMap(shards);
    ghost var all := remaining;
    var keys := InsertionOrder(shards);
    InsertionOrderKeys(shards);
    LayeredOrderCorrect(all);
    var ordered: seq<Text> := [];
    OrderStarts(all);
    assert Lists(keys, remaining.Keys);
    hide Lists, Prepend;
    while remaining != map[]
      invariant Lists(keys, remaining.Keys)
      invariant LayeredOrder(all) == Prepend(ordered, LayeredOrder(remaining))
      decreases |remaining|
    {
      var ready := Ready(remaining);
      if ready == {} {
        OrderEnds(ordered, remaining);
        return None;
      }
      Turn(ordered, keys, remaining);
      ordered := ordered + Sort(Pick(keys, ready), AtMost);
      keys := Pick(keys, remaining.Keys - ready);
      remaining := remaining - ready;
    }
    OrderEnds(ordered, remaining);
    return Some(ordered);
  }

  lemma OrderEnds(ordered: seq<Text>, m: Graph<Text>)
    ensures m == map[] ==> Prepend(ordered, LayeredOrder(m)) == Some(ordered)
    ensures m != map[] && Ready(m) == {} ==> Prepend(ordered, LayeredOrder(m)) == None
  {
    assert ordered + [] == ordered;
  }

  lemma OrderStarts(m: Graph<Text>)
    ensures Prepend([], LayeredOrder(m)) == LayeredOrder(m)
  {
    if LayeredOrder(m).Some? { assert [] + LayeredOrder(m).value == LayeredOrder(m).value; }
  }

  /** Map keys in first-insertion order. */
  function InsertionOrder(shards: seq<Shard>): seq<Text> {
    if shards == [] then []
    else
      var init := InsertionOrder(shards[..|shards| - 1]);
      var id := shards[|shards| - 1].id;
      if id in init then init else init + [id]
  }

  lemma {:induction false} InsertionOrderKeys(shards: seq<Shard>)
    ensures Distinct(InsertionOrder(shards))
    ensures forall id :: id in InsertionOrder(shards) <==> id in ByIdMap(shards)
  {
    if shards != [] {
      InsertionOrderKeys(shards[..|shards| - 1]);
    }
  }

  ghost predicate DistinctIds(shards: seq<Shard>) {
    forall i, j :: 0 <= i < j < |shards| ==> shards[i].id != shards[j].id
  }

  lemma {:induction false} ByIdMapLookup(shards: seq<Shard>, id: Text)
    requires DistinctIds(shards)
    ensures id in ByIdMap(shards) <==> exists s :: s in shards && s.id == id
    ensures forall s :: s in shards && s.id == id ==> id in ByIdMap(shards) && ByIdMap(shards)[id] == set d | d in s.dependsOn
  {
    if shards != [] {
      var last := shards[|shards| - 1];
      var init := shards[..|shards| - 1];
      ByIdMapLookup(init, id);
      assert shards == init + [last];
      assert last in shards;
      forall s | s in shards && s.id == id ensures s == last || s in init { }
    }
  }

  /** With distinct ids the order of the input does not matter. */
  lemma OrderIgnoresInputOrder(a: seq<Shard>, b: seq<Shard>)
    requires DistinctIds(a) && DistinctIds(b) && multiset(a) == multiset(b)
    ensures LayeredOrder(ByIdMap(a)) == LayeredOrder(ByIdMap(b))
  {
    forall s: Shard ensures s in a <==> s in b {
      assert s in a <==> s in multiset(a);
      assert s in b <==> s in multiset(b);
    }
    forall id: Text
      ensures id in ByIdMap(a) <==> id in ByIdMap(b)
      ensures id in ByIdMap(a) ==> ByIdMap(a)[id] == ByIdMap(b)[id]
    {
      ByIdMapLookup(a, id);
      ByIdMapLookup(b, id);
    }
    assert ByIdMap(a) == ByIdMap(b);
  }
}
