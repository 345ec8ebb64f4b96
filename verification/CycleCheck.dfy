/** The depth-first cycle check of the profile compiler. */
module CycleCheck {
  import opened Digraph
  import opened Workflow

  /** What the search keeps: `stack` is `visiting` in the order the calls nest,
      `order` is `visited` in the order the calls returned. */
  ghost predicate SearchInv(g: Graph<string>, visiting: set<string>, visited: set<string>,
                            stack: seq<string>, order: seq<string>)
  {
    && visiting == ToSet(stack) && visited == ToSet(order)
    && visiting !! visited
    && IsPath(stack, g)
    && Topological(order, g)
  }

  lemma BackEdge(g: Graph<string>, stack: seq<string>, id: string)
    requires IsPath(stack, g) && id in stack && Edge(g, stack[|stack| - 1], id)
    ensures Cyclic(g)
  {
    var k :| 0 <= k < |stack| && stack[k] == id;
    SubPath(stack, g, k, |stack|);
    assert IsCycle(stack[k..] + [id], g);
  }

  lemma Push(g: Graph<string>, visiting: set<string>, visited: set<string>, stack: seq<string>, order: seq<string>, id: string)
    requires SearchInv(g, visiting, visited, stack, order) && id !in visiting && id !in visited
    requires stack != [] ==> Edge(g, stack[|stack| - 1], id)
    ensures SearchInv(g, visiting + {id}, visited, stack + [id], order)
  {
  }

  lemma Pop(g: Graph<string>, visiting: set<string>, visited: set<string>, stack: seq<string>, order: seq<string>, id: string)
    requires SearchInv(g, visiting + {id}, visited, stack + [id], order) && id !in visiting
    requires visiting == ToSet(stack)
    requires forall w :: Edge(g, id, w) ==> w in visited
    ensures SearchInv(g, visiting, visited + {id}, stack, order + [id])
  {
    TopologicalAppend(order, g, id);
    SubPath(stack + [id], g, 0, |stack|);
    assert (stack + [id])[0..|stack|] == stack;
  }

  class CycleSearch {
    const byId: map<string, seq<string>>
    var visiting: set<string>
    var visited: set<string>
    ghost var stack: seq<string>
    ghost var order: seq<string>

    ghost function G(): Graph<string> {
      GraphOf(byId)
    }

    /** Every identifier the search can meet. */
    ghost const universe: set<string>

    ghost predicate Closed() {
      forall id, d :: id in byId && d in byId[id] ==> d in universe
    }

    ghost predicate Valid()
      reads this
    {
      SearchInv(G(), visiting, visited, stack, order)
    }

    constructor (byId: map<string, seq<string>>)
      ensures Valid() && Closed() && this.byId == byId && byId.Keys <= universe
      ensures visiting == {} && visited == {} && stack == []
    {
      this.byId := byId;
      universe := byId.Keys + set id, d | id in byId && d in byId[id] :: d;
      visiting, visited, stack, order := {}, {}, [], [];
    }

    method Visit(id: string) returns (cyclic: bool)
      requires Valid() && Closed() && id in universe
      requires stack != [] ==> Edge(G(), stack[|stack| - 1], id)
      modifies this
      ensures cyclic ==> Cyclic(G())
      ensures !cyclic ==> Valid() && visiting == old(visiting) && stack == old(stack)
      ensures !cyclic ==> id in visited && old(visited) <= visited
      decreases |universe - visiting|, 1
    {
      hide IsPath, Topological;
      if id in visited {
        return false;
      }
      if id in visiting {
        BackEdge(G(), stack, id);
        return true;
      }
      Push(G(), visiting, visited, stack, order, id);
      visiting := visiting + {id};
      stack := stack + [id];
      Smaller(universe - visiting, universe - old(visiting), id);
      if id in byId {
        cyclic := VisitDependencies(id);
        if cyclic {
          return true;
        }
      }
      assert visiting - {id} == old(visiting);
      Pop(G(), old(visiting), visited, old(stack), order, id);
      visiting := visiting - {id};
      visited := visited + {id};
      stack := old(stack);
      order := order + [id];
      return false;
    }

    /** The dependency loop inside `visit`. */
    method VisitDependencies(id: string) returns (cyclic: bool)
      requires Valid() && Closed() && id in byId
      requires stack != [] && stack[|stack| - 1] == id
      modifies this
      ensures cyclic ==> Cyclic(G())
      ensures !cyclic ==> Valid() && visiting == old(visiting) && stack == old(stack) && old(visited) <= visited
      ensures !cyclic ==> forall w :: Edge(G(), id, w) ==> w in visited
      decreases |universe - visiting|, 2
    {
      var deps := byId[id];
      var index := 0;
      while index < |deps|
        invariant 0 <= index <= |deps|
        invariant Valid() && visiting == old(visiting) && stack == old(stack) && old(visited) <= visited
        invariant forall k :: 0 <= k < index ==> deps[k] in visited
      {
        assert Edge(G(), id, deps[index]);
        cyclic := Visit(deps[index]);
        if cyclic {
          return true;
        }
        index := index + 1;
      }
      return false;
    }
  }

  /** The check answers true exactly when the dependencies contain a cycle. */
  method HasCycle(nodes: seq<Node>) returns (cyclic: bool)
    ensures cyclic <==> Cyclic(DependencyGraph(nodes))
  {
    var byId := DependencyMap(nodes);
    var search := new CycleSearch(byId);
    var index := 0;
    while index < |nodes|
      invariant 0 <= index <= |nodes|
      invariant search.Valid() && search.Closed() && byId.Keys <= search.universe
      invariant search.stack == [] && search.byId == byId
      invariant fresh(search)
      invariant forall k :: 0 <= k < index ==> nodes[k].id in search.visited
    {
      DependencyMapKeys(nodes, nodes[index].id);
      cyclic := search.Visit(nodes[index].id);
      if cyclic {
        return true;
      }
      index := index + 1;
    }
    NoCycleLeft(nodes, search.order);
    return false;
  }

  lemma NoCycleLeft(nodes: seq<Node>, order: seq<string>)
    requires Topological(order, DependencyGraph(nodes))
    requires forall k :: 0 <= k < |nodes| ==> nodes[k].id in order
    ensures !Cyclic(DependencyGraph(nodes))
  {
    forall p ensures !IsCycle(p, DependencyGraph(nodes)) {
      if IsCycle(p, DependencyGraph(nodes)) {
        CycleStartsAtKey(p, DependencyGraph(nodes));
        DependencyMapKeys(nodes, p[0]);
        TopologicalAcyclic(order, DependencyGraph(nodes), p);
      }
    }
  }

  lemma Smaller<T>(a: set<T>, b: set<T>, x: T)
    requires a <= b && x in b && x !in a
    ensures |a| < |b|
  {
    assert |b - {x}| == |b| - 1 && a <= b - {x};
    SubsetCard(a, b - {x});
  }

  lemma SubsetCard<T>(a: set<T>, b: set<T>)
    requires a <= b
    ensures |a| <= |b|
  {
    assert b == a + (b - a);
  }
}
