/** Paths and cycles of a finite directed graph given by its successor map; a
    node that is not a key has no successor. */
module Digraph {

  type Graph<!V> = map<V, set<V>>

  predicate Edge<V>(g: Graph<V>, v: V, w: V) {
    v in g && w in g[v]
  }

  ghost predicate IsPath<V>(p: seq<V>, g: Graph<V>) {
    forall i, j :: 0 <= i && j == i + 1 && j < |p| ==> Edge(g, p[i], p[j])
  }

  /** A closed walk of at least one edge. */
  ghost predicate IsCycle<V>(p: seq<V>, g: Graph<V>) {
    |p| >= 2 && p[0] == p[|p| - 1] && IsPath(p, g)
  }

  ghost predicate Within<V>(p: seq<V>, nodes: set<V>) {
    forall i :: 0 <= i < |p| ==> p[i] in nodes
  }

  ghost predicate HasCycleIn<V(!new)>(nodes: set<V>, g: Graph<V>) {
    exists p :: IsCycle(p, g) && Within(p, nodes)
  }

  ghost predicate Cyclic<V(!new)>(g: Graph<V>) {
    exists p :: IsCycle(p, g)
  }

  ghost predicate HasSuccessorIn<V(!new)>(g: Graph<V>, v: V, nodes: set<V>) {
    exists w :: w in nodes && Edge(g, v, w)
  }

  /** A nonempty set of nodes without a sink. */
  ghost predicate Trapped<V(!new)>(nodes: set<V>, g: Graph<V>) {
    nodes != {} && forall v :: v in nodes ==> HasSuccessorIn(g, v, nodes)
  }

  lemma {:induction false} Pigeonhole<V>(p: seq<V>, nodes: set<V>) returns (i: nat, j: nat)
    requires Within(p, nodes) && |p| > |nodes|
    ensures i < j < |p| && p[i] == p[j]
  {
    var last := p[|p| - 1];
    var init := p[..|p| - 1];
    if last in init {
      i :| 0 <= i < |init| && init[i] == last;
      j := |p| - 1;
    } else {
      assert last in nodes;
      forall k | 0 <= k < |init| ensures init[k] in nodes - {last} {
        assert init[k] == p[k] && init[k] in init;
      }
      assert |nodes - {last}| == |nodes| - 1;
      i, j := Pigeonhole(init, nodes - {last});
    }
  }

  lemma ExtendPath<V>(p: seq<V>, g: Graph<V>, w: V)
    requires IsPath(p, g) && (p == [] || Edge(g, p[|p| - 1], w))
    ensures IsPath(p + [w], g)
  {
  }

  lemma {:induction false} LongPath<V(!new)>(nodes: set<V>, g: Graph<V>, n: nat) returns (p: seq<V>)
    requires Trapped(nodes, g)
    ensures |p| == n + 1 && IsPath(p, g) && Within(p, nodes)
  {
    if n == 0 {
      var v :| v in nodes;
      p := [v];
    } else {
      var q := LongPath(nodes, g, n - 1);
      assert HasSuccessorIn(g, q[|q| - 1], nodes);
      var w :| w in nodes && Edge(g, q[|q| - 1], w);
      ExtendPath(q, g, w);
      p := q + [w];
    }
  }

  lemma SubPath<V>(p: seq<V>, g: Graph<V>, i: nat, j: nat)
    requires IsPath(p, g) && i <= j <= |p|
    ensures IsPath(p[i..j], g)
  {
    var s := p[i..j];
    forall a, b | 0 <= a && b == a + 1 && b < |s| ensures Edge(g, s[a], s[b]) {
      assert s[a] == p[i + a] && s[b] == p[i + b];
    }
  }

  /** A finite set whose every node has a successor inside it contains a cycle. */
  lemma TrappedHasCycle<V(!new)>(nodes: set<V>, g: Graph<V>)
    requires Trapped(nodes, g)
    ensures HasCycleIn(nodes, g)
  {
    var p := LongPath(nodes, g, |nodes|);
    var i, j := Pigeonhole(p, nodes);
    SubPath(p, g, i, j + 1);
    var c := p[i..j + 1];
    assert IsCycle(c, g) && Within(c, nodes);
  }

  /** `order` lists every successor of each of its nodes earlier than the node. */
  ghost predicate Topological<V(!new)>(order: seq<V>, g: Graph<V>) {
    && (forall i, j :: 0 <= i < j < |order| ==> order[i] != order[j])
    && (forall i, w :: 0 <= i < |order| && Edge(g, order[i], w) ==> w in order[..i])
  }

  lemma TopologicalAppend<V(!new)>(order: seq<V>, g: Graph<V>, v: V)
    requires Topological(order, g) && v !in order
    requires forall w :: Edge(g, v, w) ==> w in order
    ensures Topological(order + [v], g)
  {
    var longer := order + [v];
    forall i, w | 0 <= i < |longer| && Edge(g, longer[i], w) ensures w in longer[..i] {
      if i < |order| {
        assert longer[..i] == order[..i];
      } else {
        assert longer[..i] == order;
      }
    }
  }

  lemma {:induction false} PathDescends<V(!new)>(p: seq<V>, order: seq<V>, g: Graph<V>, k: nat) returns (at: nat)
    requires Topological(order, g) && IsPath(p, g) && |p| >= 1
    requires k < |order| && p[0] == order[k]
    ensures at < |order| && p[|p| - 1] == order[at] && at <= k && (|p| > 1 ==> at < k)
  {
    if |p| == 1 {
      at := k;
    } else {
      assert Edge(g, p[0], p[1]);
      var k' :| 0 <= k' < k && order[k'] == p[1];
      SubPath(p, g, 1, |p|);
      at := PathDescends(p[1..], order, g, k');
    }
  }

  /** A topological order leaves no room for a cycle through any of its nodes. */
  lemma TopologicalAcyclic<V(!new)>(order: seq<V>, g: Graph<V>, p: seq<V>)
    requires Topological(order, g) && |p| > 0 && p[0] in order
    ensures !IsCycle(p, g)
  {
    if IsCycle(p, g) {
      var k :| 0 <= k < |order| && order[k] == p[0];
      var at := PathDescends(p, order, g, k);
    }
  }

  /** Every cycle of the graph starts at a node that has successors. */
  lemma CycleStartsAtKey<V>(p: seq<V>, g: Graph<V>)
    requires IsCycle(p, g)
    ensures p[0] in g
  {
    assert Edge(g, p[0], p[1]);
  }
}
