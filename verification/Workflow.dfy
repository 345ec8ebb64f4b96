/** Workflow nodes as the profile compiler and the DAG engine share them. */
module Workflow {
  import opened Digraph

  datatype Option<+T> = None | Some(value: T)

  datatype Node = Node(
    id: string,
    role: string,
    operation: string,
    dependsOn: seq<string>,
    when: Option<string>,
    concurrencyGroup: string,
    invalidates: seq<string>)

  /** Roles and groups that may write to the tree. */
  predicate IsWriter(n: Node) {
    n.role == "implementer" || n.concurrencyGroup == "write"
  }

  function ToSet<T>(s: seq<T>): set<T> {
    set x | x in s
  }

  function Ids(nodes: seq<Node>): set<string> {
    set i | 0 <= i < |nodes| :: nodes[i].id
  }

  ghost predicate UniqueIds(nodes: seq<Node>) {
    forall i, j :: 0 <= i < j < |nodes| ==> nodes[i].id != nodes[j].id
  }

  /** Dependencies by node id; the last node of an id wins. */
  function DependencyMap(nodes: seq<Node>): map<string, seq<string>> {
    if nodes == [] then map[]
    else
      var last := nodes[|nodes| - 1];
      DependencyMap(nodes[..|nodes| - 1])[last.id := last.dependsOn]
  }

  lemma {:induction false} DependencyMapKeys(nodes: seq<Node>, id: string)
    ensures id in DependencyMap(nodes) <==> exists i :: 0 <= i < |nodes| && nodes[i].id == id
  {
    if nodes != [] {
      var init := nodes[..|nodes| - 1];
      DependencyMapKeys(init, id);
      if id in DependencyMap(init) {
        var i :| 0 <= i < |init| && init[i].id == id;
        assert nodes[i].id == id;
      }
      assert forall i :: 0 <= i < |init| ==> nodes[i] == init[i];
    }
  }

  /** A dependency list of the map belongs to some node of that id. */
  lemma {:induction false} DependencyMapSource(nodes: seq<Node>, id: string) returns (i: nat)
    requires id in DependencyMap(nodes)
    ensures i < |nodes| && nodes[i].id == id && nodes[i].dependsOn == DependencyMap(nodes)[id]
  {
    var last := nodes[|nodes| - 1];
    if id == last.id {
      i := |nodes| - 1;
    } else {
      i := DependencyMapSource(nodes[..|nodes| - 1], id);
    }
  }

  function GraphOf(m: map<string, seq<string>>): Graph<string> {
    map id | id in m :: ToSet(m[id])
  }

  function DependencyGraph(nodes: seq<Node>): Graph<string> {
    GraphOf(DependencyMap(nodes))
  }

  ghost predicate Acyclic(nodes: seq<Node>) {
    !Cyclic(DependencyGraph(nodes))
  }
}
