/** mergeEvidence and assertEvidenceGraph as the loops they are, and what a merge preserves. */
module EvidenceMergeCode {
  import opened Text16
  import opened Sorting
  import opened EvidenceGraph
  import opened EvidenceMerge

  // ---------- the merged graph ----------

  lemma {:induction false} NodeMapKeys(nodes: seq<Node>)
    ensures NodeMap(nodes).Keys == NodeIds(nodes)
  {
    if nodes != [] {
      var n := |nodes| - 1;
      NodeMapKeys(nodes[..n]);
      assert nodes == nodes[..n] + [nodes[n]];
    }
  }

  lemma {:induction false} EdgeMapKeys(edges: seq<Edge>)
    ensures EdgeMap(edges).Keys == set e | e in edges :: e.id
  {
    if edges != [] {
      var n := |edges| - 1;
      EdgeMapKeys(edges[..n]);
      assert edges == edges[..n] + [edges[n]];
    }
  }

  lemma {:induction false} PutNodesKeys(m: map<Text, Node>, nodes: seq<Node>, codes: Codes)
    requires PutNodes(m, nodes, codes).Ok?
    ensures PutNodes(m, nodes, codes).value.Keys == m.Keys + NodeIds(nodes)
    decreases |nodes|
  {
    hide MergeNodes;
    if nodes != [] {
      PutNodesKeys(PutNode(m, nodes[0], codes).value, nodes[1..], codes);
      assert nodes == [nodes[0]] + nodes[1..];
    }
  }

  lemma {:induction false} PutEdgesKeys(m: map<Text, Edge>, edges: seq<Edge>, codes: Codes)
    ensures PutEdges(m, edges, codes).Keys == m.Keys + set e | e in edges :: e.id
    decreases |edges|
  {
    hide MergeEdges;
    if edges != [] {
      PutEdgesKeys(PutEdge(m, edges[0], codes), edges[1..], codes);
      assert edges == [edges[0]] + edges[1..];
    }
  }

  function NodeOrder(before: seq<Node>, added: seq<Node>): seq<Text> { Arrivals(IdList(before) + IdList(added)) }

  function EdgeOrder(before: seq<Edge>, added: seq<Edge>): seq<Text> { Arrivals(EdgeIdList(before) + EdgeIdList(added)) }

  lemma NodesCovered(graph: Graph, nodes: seq<Node>, codes: Codes)
    requires PutNodes(NodeMap(graph.nodes), nodes, codes).Ok?
    ensures CoversAll(PutNodes(NodeMap(graph.nodes), nodes, codes).value, NodeOrder(graph.nodes, nodes))
  {
    NodeMapKeys(graph.nodes);
    PutNodesKeys(NodeMap(graph.nodes), nodes, codes);
    hide PutNodes, NodeMap, Arrivals;
    IdListMembers(graph.nodes);
    IdListMembers(nodes);
  }

  lemma IdListMembers(nodes: seq<Node>)
    ensures forall id :: id in IdList(nodes) <==> id in NodeIds(nodes)
  {
    forall id | id in NodeIds(nodes) ensures id in IdList(nodes) {
      var i :| 0 <= i < |nodes| && nodes[i].id == id;
      assert IdList(nodes)[i] == id;
    }
  }

  lemma EdgesCovered(graph: Graph, edges: seq<Edge>, codes: Codes)
    ensures CoversAll(PutEdges(EdgeMap(graph.edges), edges, codes), EdgeOrder(graph.edges, edges))
  {
    EdgeMapKeys(graph.edges);
    PutEdgesKeys(EdgeMap(graph.edges), edges, codes);
    hide PutEdges, EdgeMap, Arrivals;
    EdgeIdListMembers(graph.edges);
    EdgeIdListMembers(edges);
  }

  lemma EdgeIdListMembers(edges: seq<Edge>)
    ensures forall id :: id in EdgeIdList(edges) <==> exists e :: e in edges && e.id == id
  {
    forall id | exists e :: e in edges && e.id == id ensures id in EdgeIdList(edges) {
      var i :| 0 <= i < |edges| && edges[i].id == id;
      assert EdgeIdList(edges)[i] == id;
    }
  }

  function MergedNodes(graph: Graph, nodes: seq<Node>, codes: Codes): seq<Node>
    requires PutNodes(NodeMap(graph.nodes), nodes, codes).Ok?
  {
    NodesCovered(graph, nodes, codes);
    Sort(Values(PutNodes(NodeMap(graph.nodes), nodes, codes).value, NodeOrder(graph.nodes, nodes)), NodeAtMost)
  }

  function MergedEdges(graph: Graph, edges: seq<Edge>, codes: Codes): seq<Edge> {
    EdgesCovered(graph, edges, codes);
    Sort(Values(PutEdges(EdgeMap(graph.edges), edges, codes), EdgeOrder(graph.edges, edges)), EdgeAtMost)
  }

  function MergedGraph(graph: Graph, nodes: seq<Node>, edges: seq<Edge>, codes: Codes): Graph
    requires PutNodes(NodeMap(graph.nodes), nodes, codes).Ok?
  {
    Graph(graph.snapshotId, MergedNodes(graph, nodes, codes), MergedEdges(graph, edges, codes))
  }

  // ---------- what a merge preserves ----------

  lemma {:induction false} NodeMapGood(nodes: seq<Node>, snapshotId: Text, codes: Codes)
    requires UniqueNodes(nodes) && GoodNodeList(nodes, snapshotId, codes)
    ensures GoodNodes(NodeMap(nodes), snapshotId, codes)
    ensures forall n :: n in nodes ==> n.id in NodeMap(nodes) && NodeMap(nodes)[n.id] == n
  {
    hide WellIdentified;
    if nodes != [] {
      var k := |nodes| - 1;
      NodeMapGood(nodes[..k], snapshotId, codes);
      assert nodes == nodes[..k] + [nodes[k]];
    }
  }

  lemma {:induction false} EdgeMapGood(edges: seq<Edge>, nodeIds: set<Text>, codes: Codes)
    requires forall e :: e in edges ==> GoodEdge(e, nodeIds, codes)
    ensures GoodEdges(EdgeMap(edges), nodeIds, codes)
  {
    hide GoodEdge;
    if edges != [] {
      var k := |edges| - 1;
      EdgeMapGood(edges[..k], nodeIds, codes);
      assert edges == edges[..k] + [edges[k]];
    }
  }

  /** Nodes and edges fit to be merged into a graph. */
  ghost predicate GoodAdditions(graph: Graph, nodes: seq<Node>, edges: seq<Edge>, codes: Codes) {
    && GoodNodeList(nodes, graph.snapshotId, codes)
    && forall e :: e in edges ==> GoodEdge(e, NodeIds(graph.nodes) + NodeIds(nodes), codes)
  }

  /** Any two nodes of one id, old or new, agree on being historical. */
  ghost predicate OneHistory(nodes: seq<Node>) {
    forall n, o :: n in nodes && o in nodes && n.id == o.id ==> IsHistorical(n) == IsHistorical(o)
  }

  lemma OneHistoryExactly(before: seq<Node>, added: seq<Node>)
    requires UniqueNodes(before) && forall n :: n in before ==> n.id in NodeMap(before) && NodeMap(before)[n.id] == n
    ensures HistoryAgrees(NodeMap(before), added) <==> OneHistory(before + added)
  {
    NodeMapKeys(before);
    hide IsHistorical, NodeMap;
    assert forall n :: n in before + added <==> n in before || n in added;
    if OneHistory(before + added) {
      forall n | n in added && n.id in NodeMap(before) ensures IsHistorical(n) == IsHistorical(NodeMap(before)[n.id]) {
        var o :| o in before && o.id == n.id;
      }
    }
    if HistoryAgrees(NodeMap(before), added) {
      forall n, o | n in before + added && o in before + added && n.id == o.id ensures IsHistorical(n) == IsHistorical(o) {
        if n in before && o in before { assert NodeMap(before)[n.id] == n == o; }
      }
    }
  }

  /** Merging good material into a valid graph succeeds exactly when history agrees, and the result passes every
      structural check, has exactly the old and new node and edge ids, keeps under each all provenance seen for it, and gives each the
      standing of all that was merged into it. */
  lemma MergePreservesGraph(graph: Graph, nodes: seq<Node>, edges: seq<Edge>, codes: Codes)
    requires Injective(codes) && ValidGraph(graph, codes) && GoodAdditions(graph, nodes, edges, codes)
    ensures PutNodes(NodeMap(graph.nodes), nodes, codes).Ok? <==> OneHistory(graph.nodes + nodes)
    ensures PutNodes(NodeMap(graph.nodes), nodes, codes).Ok? ==>
              var g := MergedGraph(graph, nodes, edges, codes);
              && ValidGraph(g, codes)
              && NodeIds(g.nodes) == NodeIds(graph.nodes) + NodeIds(nodes)
              && (forall n :: n in g.nodes ==>
                    Keys(n.provenance) == KeysAt(NodeMap(graph.nodes), n.id) + KeysUnder(nodes, n.id))
              && EdgeIds(g.edges) == EdgeIds(graph.edges) + EdgeIds(edges)
              && (forall e :: e in g.edges ==>
                    Keys(e.provenance) == EdgeKeysAt(EdgeMap(graph.edges), e.id) + EdgeKeysUnder(edges, e.id))
              && (forall n :: n in g.nodes ==> Standing(n, SeenUnder(graph.nodes + nodes, n.id)))
              && forall e :: e in g.edges ==> EdgeStands(e, EdgesUnder(graph.edges + edges, e.id))
  {
    if PutNodes(NodeMap(graph.nodes), nodes, codes).Ok? {
      NodesStand(graph, nodes, codes);
      EdgesStand(graph, edges, codes);
    }
    hide Standing, EdgeStands, SeenUnder, EdgesUnder, SeenAt;
    NodeMapGood(graph.nodes, graph.snapshotId, codes);
    PutNodesExactly(NodeMap(graph.nodes), nodes, graph.snapshotId, codes);
    OneHistoryExactly(graph.nodes, nodes);
    NodeMapKeys(graph.nodes);
    hide PutNodes, NodeMap, PutEdges, EdgeMap, EdgeKeysAt, WellIdentified, IsHistorical, Keys, Sort, Arrivals, Values;
    if PutNodes(NodeMap(graph.nodes), nodes, codes).Ok? {
      NodesCovered(graph, nodes, codes);
      ListedNodes(PutNodes(NodeMap(graph.nodes), nodes, codes).value, NodeOrder(graph.nodes, nodes), graph.snapshotId, codes);
      MergedEdgesGood(graph, edges, NodeIds(graph.nodes) + NodeIds(nodes), codes);
    }
  }

  lemma SeenSplit(before: seq<Node>, added: seq<Node>, id: Text)
    requires UniqueNodes(before)
    ensures SeenUnder(before + added, id) == SeenAt(NodeMap(before), id) + SeenUnder(added, id)
  {
    NodeMapAt(before, id);
    assert SeenUnder(before, id) == SeenAt(NodeMap(before), id);
    assert forall n :: n in before + added <==> n in before || n in added;
  }

  lemma {:induction false} NodeMapAt(nodes: seq<Node>, id: Text)
    requires UniqueNodes(nodes)
    ensures SeenUnder(nodes, id) == SeenAt(NodeMap(nodes), id)
  {
    if nodes != [] {
      var k := |nodes| - 1;
      NodeMapAt(nodes[..k], id);
      assert nodes == nodes[..k] + [nodes[k]];
      forall n | n in nodes[..k] ensures n.id != nodes[k].id {
        var i :| 0 <= i < k && nodes[i] == n;
      }
    }
  }

  lemma {:induction false} EdgeMapAt(edges: seq<Edge>, id: Text)
    requires UniqueEdges(edges)
    ensures EdgesUnder(edges, id) == EdgesAt(EdgeMap(edges), id)
  {
    if edges != [] {
      var k := |edges| - 1;
      EdgeMapAt(edges[..k], id);
      assert edges == edges[..k] + [edges[k]];
      forall e | e in edges[..k] ensures e.id != edges[k].id {
        var i :| 0 <= i < k && edges[i] == e;
      }
    }
  }

  lemma NodesStand(graph: Graph, nodes: seq<Node>, codes: Codes)
    requires Injective(codes) && ValidGraph(graph, codes) && GoodNodeList(nodes, graph.snapshotId, codes)
    requires PutNodes(NodeMap(graph.nodes), nodes, codes).Ok?
    ensures forall n :: n in MergedNodes(graph, nodes, codes) ==> Standing(n, SeenUnder(graph.nodes + nodes, n.id))
  {
    NodeMapGood(graph.nodes, graph.snapshotId, codes);
    PutNodesExactly(NodeMap(graph.nodes), nodes, graph.snapshotId, codes);
    NodesCovered(graph, nodes, codes);
    hide PutNodes, NodeMap, WellIdentified, Sort, Arrivals, Values, Standing, Keys;
    var all := PutNodes(NodeMap(graph.nodes), nodes, codes).value;
    ListedNodes(all, NodeOrder(graph.nodes, nodes), graph.snapshotId, codes);
    forall n | n in MergedNodes(graph, nodes, codes) ensures Standing(n, SeenUnder(graph.nodes + nodes, n.id)) {
      SeenSplit(graph.nodes, nodes, n.id);
      assert all[n.id] == n;
    }
  }

  lemma EdgesStand(graph: Graph, edges: seq<Edge>, codes: Codes)
    requires UniqueEdges(graph.edges)
    ensures forall e :: e in MergedEdges(graph, edges, codes) ==> EdgeStands(e, EdgesUnder(graph.edges + edges, e.id))
  {
    EdgesCovered(graph, edges, codes);
    var all, order := PutEdges(EdgeMap(graph.edges), edges, codes), EdgeOrder(graph.edges, edges);
    hide PutEdges, EdgeMap, Sort, Arrivals, EdgeStands;
    forall e | e in MergedEdges(graph, edges, codes) ensures EdgeStands(e, EdgesUnder(graph.edges + edges, e.id)) {
      SortMembers(Values(all, order), EdgeAtMost, e);
      var i :| 0 <= i < |order| && Values(all, order)[i] == e;
      EdgeUnderItsId(graph, edges, codes, order[i]);
    }
  }

  lemma EdgeUnderItsId(graph: Graph, edges: seq<Edge>, codes: Codes, id: Text)
    requires UniqueEdges(graph.edges) && id in PutEdges(EdgeMap(graph.edges), edges, codes)
    ensures var e := PutEdges(EdgeMap(graph.edges), edges, codes)[id];
            e.id == id && EdgeStands(e, EdgesUnder(graph.edges + edges, id))
  {
    EdgeMapAt(graph.edges, id);
    var m := EdgeMap(graph.edges);
    if id in m { EdgeStandsAlone(m[id]); }
    PutEdgesStand(m, edges, codes, id, EdgesAt(m, id));
    hide PutEdges, EdgeMap;
    assert EdgesUnder(graph.edges + edges, id) == EdgesAt(m, id) + EdgesUnder(edges, id) by {
      assert forall e :: e in graph.edges + edges <==> e in graph.edges || e in edges;
    }
    var e := PutEdges(m, edges, codes)[id];
    var x :| x in EdgesUnder(graph.edges + edges, id) && e == x.(confidence := e.confidence, provenance := e.provenance);
  }

  lemma MergedEdgesGood(graph: Graph, edges: seq<Edge>, nodeIds: set<Text>, codes: Codes)
    requires Injective(codes)
    requires forall e :: e in graph.edges ==> GoodEdge(e, NodeIds(graph.nodes), codes)
    requires NodeIds(graph.nodes) <= nodeIds && forall e :: e in edges ==> GoodEdge(e, nodeIds, codes)
    ensures UniqueEdges(MergedEdges(graph, edges, codes))
    ensures forall e :: e in MergedEdges(graph, edges, codes) ==> GoodEdge(e, nodeIds, codes)
    ensures EdgeIds(MergedEdges(graph, edges, codes)) == EdgeIds(graph.edges) + EdgeIds(edges)
    ensures forall e :: e in MergedEdges(graph, edges, codes) ==>
              Keys(e.provenance) == EdgeKeysAt(EdgeMap(graph.edges), e.id) + EdgeKeysUnder(edges, e.id)
  {
    forall e | e in graph.edges ensures GoodEdge(e, nodeIds, codes) { assert GoodEdge(e, NodeIds(graph.nodes), codes); }
    hide GoodEdge, PutEdges, EdgeMap;
    EdgeMapGood(graph.edges, nodeIds, codes);
    PutEdgesGood(EdgeMap(graph.edges), edges, nodeIds, codes);
    EdgesCovered(graph, edges, codes);
    EdgeMapKeys(graph.edges);
    var all := PutEdges(EdgeMap(graph.edges), edges, codes);
    ListedEdges(all, EdgeOrder(graph.edges, edges), nodeIds, codes);
    hide Keys, Sort, Arrivals, Values;
    forall e | e in MergedEdges(graph, edges, codes)
      ensures Keys(e.provenance) == EdgeKeysAt(EdgeMap(graph.edges), e.id) + EdgeKeysUnder(edges, e.id)
    {
      assert EdgeKeysAt(all, e.id) == Keys(e.provenance);
    }
  }

  /** When fusion provenance never claims git history, a merge of good material never fails. */
  lemma CleanMergeNeverFails(graph: Graph, nodes: seq<Node>, edges: seq<Edge>, codes: Codes)
    requires Injective(codes) && ValidGraph(graph, codes) && GoodAdditions(graph, nodes, edges, codes)
    requires forall n :: n in graph.nodes + nodes ==> CleanHistory(n)
    ensures PutNodes(NodeMap(graph.nodes), nodes, codes).Ok?
    ensures ValidGraph(MergedGraph(graph, nodes, edges, codes), codes)
  {
    MergePreservesGraph(graph, nodes, edges, codes);
    hide PutNodes, NodeMap, CleanHistory, IsHistorical, MergedGraph, MergeNodes;
    forall n, o | n in graph.nodes + nodes && o in graph.nodes + nodes && n.id == o.id
      ensures IsHistorical(n) == IsHistorical(o)
    {
      MergeNodesExactly(n, o, graph.snapshotId, codes);
      CleanNodesMerge(n, o, graph.snapshotId, codes);
    }
  }

  // ---------- the loops ----------

  /** The structural check accepts exactly the valid graphs. */
  method AssertEvidenceGraph(g: Graph, codes: Codes) returns (problem: Option<Error>)
    ensures problem.None? <==> ValidGraph(g, codes)
  {
    var nodeIds: set<Text> := {};
    for i := 0 to |g.nodes|
      invariant nodeIds == NodeIds(g.nodes[..i])
      invariant UniqueNodes(g.nodes[..i]) && GoodNodeList(g.nodes[..i], g.snapshotId, codes)
    {
      hide Identities;
      var node := g.nodes[i];
      assert g.nodes[..i + 1] == g.nodes[..i] + [node];
      if node.id in nodeIds {
        assert exists k :: 0 <= k < i && g.nodes[k].id == node.id by {
          var n :| n in g.nodes[..i] && n.id == node.id;
        }
        return Some(DuplicateNode);
      }
      nodeIds := nodeIds + {node.id};
      if node.provenance == [] { return Some(DroppedProvenance); }
      if codes.node(IdentityOfNode(node, g.snapshotId)) != node.id { return Some(IdentityMismatch); }
    }
    assert g.nodes[..|g.nodes|] == g.nodes;
    problem := AssertEdges(g.edges, nodeIds, codes);
  }

  method AssertEdges(edges: seq<Edge>, nodeIds: set<Text>, codes: Codes) returns (problem: Option<Error>)
    ensures problem.None? <==> UniqueEdges(edges) && forall e :: e in edges ==> GoodEdge(e, nodeIds, codes)
  {
    hide Identities;
    var edgeIds: set<Text> := {};
    for i := 0 to |edges|
      invariant edgeIds == set e | e in edges[..i] :: e.id
      invariant UniqueEdges(edges[..i]) && forall e :: e in edges[..i] ==> GoodEdge(e, nodeIds, codes)
    {
      var edge := edges[i];
      assert edge in edges;
      assert edges[..i + 1] == edges[..i] + [edge];
      if edge.id in edgeIds {
        assert exists k :: 0 <= k < i && edges[k].id == edge.id by {
          var e :| e in edges[..i] && e.id == edge.id;
        }
        return Some(DuplicateEdge);
      }
      edgeIds := edgeIds + {edge.id};
      if edge.from !in nodeIds || edge.to !in nodeIds { return Some(MissingNodes); }
      if codes.edge(IdentityOfEdge(edge)) != edge.id { return Some(IdentityMismatch); }
      if edge.provenance == [] { return Some(DroppedProvenance); }
    }
    assert edges[..|edges|] == edges;
    return None;
  }

  lemma ArrivalsSnoc(ids: seq<Text>, id: Text)
    ensures Arrivals(ids + [id]) == if id in Arrivals(ids) then Arrivals(ids) else Arrivals(ids) + [id]
  {
    assert (ids + [id])[..|ids|] == ids;
  }

  lemma NodeListSnoc(nodes: seq<Node>, i: nat)
    requires i < |nodes|
    ensures IdList(nodes[..i + 1]) == IdList(nodes[..i]) + [nodes[i].id]
    ensures NodeMap(nodes[..i + 1]) == NodeMap(nodes[..i])[nodes[i].id := nodes[i]]
  {
    assert nodes[..i + 1][..i] == nodes[..i];
  }

  lemma EdgeListSnoc(edges: seq<Edge>, i: nat)
    requires i < |edges|
    ensures EdgeIdList(edges[..i + 1]) == EdgeIdList(edges[..i]) + [edges[i].id]
    ensures EdgeMap(edges[..i + 1]) == EdgeMap(edges[..i])[edges[i].id := edges[i]]
  {
    assert edges[..i + 1][..i] == edges[..i];
  }

  /** The keyed collection of nodes: first the graph's, then the new ones, merged where the id is known. */
  method CollectNodes(before: seq<Node>, added: seq<Node>, codes: Codes)
    returns (r: Result<map<Text, Node>>, order: seq<Text>)
    ensures r == PutNodes(NodeMap(before), added, codes)
    ensures r.Ok? ==> order == NodeOrder(before, added)
  {
    hide MergeNodes, Arrivals;
    var nodeMap: map<Text, Node> := map[];
    order := [];
    assert Arrivals([]) == [] by { ArrivalsEmpty(); }
    assert IdList(before[..0]) == [];
    for i := 0 to |before|
      invariant nodeMap == NodeMap(before[..i]) && order == Arrivals(IdList(before[..i]))
    {
      NodeListSnoc(before, i);
      ArrivalsSnoc(IdList(before[..i]), before[i].id);
      if before[i].id !in order { order := order + [before[i].id]; }
      nodeMap := nodeMap[before[i].id := before[i]];
    }
    assert before[..|before|] == before && added[0..] == added;
    assert IdList(before) + IdList(added[..0]) == IdList(before);
    for i := 0 to |added|
      invariant PutNodes(nodeMap, added[i..], codes) == PutNodes(NodeMap(before), added, codes)
      invariant order == Arrivals(IdList(before) + IdList(added[..i]))
    {
      var node := added[i];
      assert added[i..][0] == node && added[i..][1..] == added[i + 1..];
      NodeListSnoc(added, i);
      ArrivalsSnoc(IdList(before) + IdList(added[..i]), node.id);
      assert IdList(before) + (IdList(added[..i]) + [node.id]) == IdList(before) + IdList(added[..i]) + [node.id];
      if node.id in nodeMap {
        match MergeNodes(nodeMap[node.id], node, codes) {
          case Err(e) => return Err(e), [];
          case Ok(merged) => nodeMap := nodeMap[node.id := merged];
        }
      } else {
        nodeMap := nodeMap[node.id := node];
      }
      if node.id !in order { order := order + [node.id]; }
    }
    assert added[..|added|] == added;
    return Ok(nodeMap), order;
  }

  lemma ArrivalsEmpty()
    ensures Arrivals([]) == []
  {
  }

  method CollectEdges(before: seq<Edge>, added: seq<Edge>, codes: Codes)
    returns (edgeMap: map<Text, Edge>, order: seq<Text>)
    ensures edgeMap == PutEdges(EdgeMap(before), added, codes)
    ensures order == EdgeOrder(before, added)
  {
    hide MergeEdges, Arrivals;
    edgeMap, order := map[], [];
    assert Arrivals([]) == [] by { ArrivalsEmpty(); }
    assert EdgeIdList(before[..0]) == [];
    for i := 0 to |before|
      invariant edgeMap == EdgeMap(before[..i]) && order == Arrivals(EdgeIdList(before[..i]))
    {
      EdgeListSnoc(before, i);
      ArrivalsSnoc(EdgeIdList(before[..i]), before[i].id);
      if before[i].id !in order { order := order + [before[i].id]; }
      edgeMap := edgeMap[before[i].id := before[i]];
    }
    assert before[..|before|] == before && added[0..] == added;
    assert EdgeIdList(before) + EdgeIdList(added[..0]) == EdgeIdList(before);
    for i := 0 to |added|
      invariant PutEdges(edgeMap, added[i..], codes) == PutEdges(EdgeMap(before), added, codes)
      invariant order == Arrivals(EdgeIdList(before) + EdgeIdList(added[..i]))
    {
      var edge := added[i];
      assert added[i..][0] == edge && added[i..][1..] == added[i + 1..];
      EdgeListSnoc(added, i);
      ArrivalsSnoc(EdgeIdList(before) + EdgeIdList(added[..i]), edge.id);
      assert EdgeIdList(before) + (EdgeIdList(added[..i]) + [edge.id]) == EdgeIdList(before) + EdgeIdList(added[..i]) + [edge.id];
      edgeMap := PutEdge(edgeMap, edge, codes);
      if edge.id !in order { order := order + [edge.id]; }
    }
    assert added[..|added|] == added;
  }

  /** A merge returns a valid graph or an error, whatever it is given. */
  method MergeEvidence(graph: Graph, nodes: seq<Node>, edges: seq<Edge>, codes: Codes) returns (r: Result<Graph>)
    ensures r.Ok? ==> ValidGraph(r.value, codes)
    ensures r.Ok? ==> PutNodes(NodeMap(graph.nodes), nodes, codes).Ok? && r.value == MergedGraph(graph, nodes, edges, codes)
    ensures r.Err? <==> PutNodes(NodeMap(graph.nodes), nodes, codes).Err?
                        || !ValidGraph(MergedGraph(graph, nodes, edges, codes), codes)
  {
    hide PutNodes, NodeMap, PutEdges, EdgeMap, ValidGraph, Sort, Arrivals;
    var collected, nodeOrder := CollectNodes(graph.nodes, nodes, codes);
    if collected.Err? { return Err(collected.error); }
    var edgeMap, edgeOrder := CollectEdges(graph.edges, edges, codes);
    NodesCovered(graph, nodes, codes);
    EdgesCovered(graph, edges, codes);
    var merged := Graph(
      graph.snapshotId, Sort(Values(collected.value, nodeOrder), NodeAtMost), Sort(Values(edgeMap, edgeOrder), EdgeAtMost));
    var problem := AssertEvidenceGraph(merged, codes);
    if problem.Some? { return Err(problem.value); }
    return Ok(merged);
  }
}
