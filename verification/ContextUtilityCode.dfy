/** The loops that compute coverage, overlap, risk and utility. */
module ContextUtilityCode {
  import opened Text16
  import opened ContextSelection
  import opened ContextUtility

  /** The edges of a bundle that can cover a requirement. */
  predicate Covering(b: Bundle, e: Edge) {
    e.id in b.edgeIds && (e.relation == Satisfies || e.relation == CoveredBy || e.relation == Supports)
  }

  /** The requirement an endpoint names. */
  method NamedRequirement(g: Graph, endpoint: Text) returns (name: Option<Text>)
    ensures forall id :: EndpointNames(g, endpoint, id) <==> name == Some(id)
  {
    var node := FirstNode(g.nodes, (n: Node) => n.id == endpoint);
    if node.None? || node.value.kind != RequirementKind { return None; }
    var key := node.value.identityKey;
    return Some(if REQUIREMENT_PREFIX <= key then key[|REQUIREMENT_PREFIX|..] else key);
  }

  ghost predicate WitnessedIn(b: Bundle, g: Graph, ledger: seq<Requirement>, id: Text) {
    exists r :: r in ledger && r.id == id && WitnessCovers(b, g, r)
  }

  ghost predicate NamedIn(b: Bundle, g: Graph, edges: seq<Edge>, id: Text) {
    exists e :: e in edges && Covering(b, e) && (EndpointNames(g, e.from, id) || EndpointNames(g, e.to, id))
  }

  lemma WitnessedMore(b: Bundle, g: Graph, ledger: seq<Requirement>, i: nat, id: Text)
    requires i < |ledger|
    ensures WitnessedIn(b, g, ledger[..i + 1], id) <==>
            WitnessedIn(b, g, ledger[..i], id) || (ledger[i].id == id && WitnessCovers(b, g, ledger[i]))
  {
    hide WitnessCovers;
    assert ledger[..i + 1] == ledger[..i] + [ledger[i]];
  }

  lemma NamedMore(b: Bundle, g: Graph, edges: seq<Edge>, i: nat, id: Text)
    requires i < |edges|
    ensures NamedIn(b, g, edges[..i + 1], id) <==>
            || NamedIn(b, g, edges[..i], id)
            || (Covering(b, edges[i]) && (EndpointNames(g, edges[i].from, id) || EndpointNames(g, edges[i].to, id)))
  {
    hide EndpointNames;
    assert edges[..i + 1] == edges[..i] + [edges[i]];
  }

  /** The ids of the requirements a witness bundle covers. */
  method WitnessedRequirements(b: Bundle, g: Graph, ledger: seq<Requirement>) returns (ids: set<Text>)
    ensures forall id :: id in ids <==> WitnessedIn(b, g, ledger, id)
  {
    ids := {};
    if b.purpose != RequirementWitness { return; }
    hide WitnessedIn;
    forall id ensures !WitnessedIn(b, g, ledger[..0], id) { NoneWitnessed(b, g, id, ledger[..0]); }
    for i := 0 to |ledger|
      invariant forall id :: id in ids <==> WitnessedIn(b, g, ledger[..i], id)
    {
      var r := ledger[i];
      forall id ensures WitnessedIn(b, g, ledger[..i + 1], id) <==>
                        WitnessedIn(b, g, ledger[..i], id) || (r.id == id && WitnessCovers(b, g, r))
      {
        WitnessedMore(b, g, ledger, i, id);
      }
      var node := FirstNode(g.nodes, (n: Node) => n.identityKey == REQUIREMENT_PREFIX + r.id);
      if node.Some? && node.value.id in b.nodeIds {
        ids := ids + {r.id};
      }
    }
    assert ledger[..|ledger|] == ledger;
  }

  lemma NoneWitnessed(b: Bundle, g: Graph, id: Text, ledger: seq<Requirement>)
    requires ledger == []
    ensures !WitnessedIn(b, g, ledger, id)
  {
  }

  lemma NoneNamed(b: Bundle, g: Graph, id: Text, edges: seq<Edge>)
    requires edges == []
    ensures !NamedIn(b, g, edges, id)
  {
  }

  /** The ids of the requirements a bundle covers. */
  method CoveredRequirements(b: Bundle, g: Graph, ledger: seq<Requirement>) returns (ids: set<Text>)
    ensures forall id :: id in ids <==> Covers(b, g, ledger, id)
  {
    ids := WitnessedRequirements(b, g, ledger);
    ghost var witnessed := ids;
    forall id ensures !NamedIn(b, g, g.edges[..0], id) { NoneNamed(b, g, id, g.edges[..0]); }
    hide EndpointNames, NamedIn;
    for i := 0 to |g.edges|
      invariant forall id :: id in ids <==> id in witnessed || NamedIn(b, g, g.edges[..i], id)
    {
      var edge := g.edges[i];
      forall id ensures NamedIn(b, g, g.edges[..i + 1], id) <==>
              || NamedIn(b, g, g.edges[..i], id)
              || (Covering(b, edge) && (EndpointNames(g, edge.from, id) || EndpointNames(g, edge.to, id)))
      {
        NamedMore(b, g, g.edges, i, id);
      }
      if edge.id !in b.edgeIds { continue; }
      if edge.relation != Satisfies && edge.relation != CoveredBy && edge.relation != Supports { continue; }
      var from := NamedRequirement(g, edge.from);
      var to := NamedRequirement(g, edge.to);
      if from.Some? { ids := ids + {from.value}; }
      if to.Some? { ids := ids + {to.value}; }
    }
    assert g.edges[..|g.edges|] == g.edges;
    forall id ensures NamedIn(b, g, g.edges, id) <==> EdgeCovers(b, g, id) { NamedIsEdgeCovers(b, g, id); }
    hide EdgeCovers;
  }

  lemma NamedIsEdgeCovers(b: Bundle, g: Graph, id: Text)
    ensures NamedIn(b, g, g.edges, id) <==> EdgeCovers(b, g, id)
  {
    hide EndpointNames;
  }

  /** The loop that counts what two sets share. */
  method JaccardOf(left: set<Text>, right: set<Text>) returns (r: real)
    ensures r == Jaccard(left, right)
  {
    if left == {} && right == {} { return 1.0; }
    var intersection := 0;
    var rest := left;
    while rest != {}
      invariant rest <= left && intersection == |left * right| - |rest * right|
      decreases rest
    {
      var item :| item in rest;
      if item in right {
        assert rest * right == (rest - {item}) * right + {item};
        intersection := intersection + 1;
      } else {
        assert rest * right == (rest - {item}) * right;
      }
      rest := rest - {item};
    }
    assert rest * right == {};
    var union := |left| + |right| - intersection;
    return if union == 0 then 0.0 else intersection as real / union as real;
  }

  method AdversarialRiskOf(b: Bundle, g: Graph) returns (r: real)
    ensures r == AdversarialRisk(b, g)
  {
    var nodes := NodesOf(b, g);
    if nodes == [] { return 0.0; }
    hide NodesOf;
    var sum := 0.0;
    assert nodes[0..] == nodes;
    for i := 0 to |nodes|
      invariant sum + RiskSum(nodes[i..]) == RiskSum(nodes)
    {
      assert nodes[i..][0] == nodes[i] && nodes[i..][1..] == nodes[i + 1..];
      sum := sum + nodes[i].adversarialRisk;
    }
    return sum / |nodes| as real;
  }

  /** How many of the chosen bundles cover a requirement; only whether any does matters. */
  method Hits(chosen: seq<Bundle>, input: Input, id: Text) returns (hits: nat)
    ensures hits > 0 <==> exists b :: b in chosen && Covers(b, input.graph, input.ledger, id)
  {
    hide Covers;
    hits := 0;
    for k := 0 to |chosen|
      invariant hits > 0 <==> exists b :: b in chosen[..k] && Covers(b, input.graph, input.ledger, id)
    {
      var covered := CoveredRequirements(chosen[k], input.graph, input.ledger);
      assert chosen[..k + 1] == chosen[..k] + [chosen[k]];
      if id in covered { hits := hits + 1; }
    }
    assert chosen[..|chosen|] == chosen;
  }

  lemma Counted(weight: real, n: nat)
    requires n <= 1
    ensures weight * n as real == if n > 0 then weight else 0.0
  {
    if n == 0 { assert n as real == 0.0; } else { assert n as real == 1.0; }
  }

  method CoverageOf(chosen: seq<Bundle>, input: Input) returns (coverage: real)
    ensures coverage == Coverage(chosen, input.graph, input.ledger, input.ledger)
  {
    hide Covers, Weight;
    var ledger := input.ledger;
    coverage := 0.0;
    assert ledger[0..] == ledger;
    for i := 0 to |ledger|
      invariant coverage + Coverage(chosen, input.graph, ledger, ledger[i..]) == Coverage(chosen, input.graph, ledger, ledger)
    {
      assert ledger[i..][0] == ledger[i] && ledger[i..][1..] == ledger[i + 1..];
      var hits := Hits(chosen, input, ledger[i].id);
      var weight := Weight(ledger, ledger[i].id);
      var counted := if hits < 1 then hits else 1;
      Counted(weight, counted);
      coverage := coverage + weight * counted as real;
    }
  }

  function KeysSeen(chosen: seq<Bundle>, g: Graph): seq<set<Text>> {
    seq(|chosen|, i requires 0 <= i < |chosen| => NodeKeys(chosen[i], g))
  }

  /** The overlap of a bundle's keys with all keys seen before it. */
  method OverlapOf(keys: set<Text>, seenKeys: seq<set<Text>>, ghost prior: seq<Bundle>, g: Graph) returns (overlap: real)
    requires seenKeys == KeysSeen(prior, g)
    ensures overlap == OverlapWith(keys, prior, g)
  {
    hide NodeKeys, Jaccard;
    overlap := 0.0;
    assert prior[..0] == [];
    for j := 0 to |seenKeys|
      invariant overlap == OverlapWith(keys, prior[..j], g)
    {
      OverlapAppend(keys, prior[..j], prior[j], g);
      assert prior[..j + 1] == prior[..j] + [prior[j]];
      var shared := JaccardOf(keys, seenKeys[j]);
      overlap := overlap + shared;
    }
    assert prior[..|prior|] == prior;
  }

  /** The terms of the utility other than coverage and cost. */
  method MeritOf(chosen: seq<Bundle>, g: Graph) returns (merit: real, groups: set<Text>)
    ensures merit == Merit(chosen, g) && groups == Groups(chosen, g)
  {
    hide NodeKeys, OverlapWith, AdversarialRisk, IndependenceGroups;
    var causal, witnesses, overlap, risk := 0.0, 0.0, 0.0, 0.0;
    var seenKeys: seq<set<Text>> := [];
    groups := {};
    for k := 0 to |chosen|
      invariant causal + witnesses - overlap - risk == Merit(chosen[..k], g)
      invariant groups == Groups(chosen[..k], g) && seenKeys == KeysSeen(chosen[..k], g)
    {
      var bundle := chosen[k];
      ghost var prior := chosen[..k];
      assert chosen[..k + 1][..k] == prior && chosen[..k + 1][k] == bundle;
      if bundle.purpose == CausalPath { causal := causal + 2.0; }
      if bundle.purpose == RequirementWitness || bundle.purpose == CounterEvidence { witnesses := witnesses + 1.0; }
      groups := groups + IndependenceGroups(bundle, g);
      var keys := NodeKeys(bundle, g);
      var shared := OverlapOf(keys, seenKeys, prior, g);
      overlap := overlap + shared;
      seenKeys := seenKeys + [keys];
      var own := AdversarialRiskOf(bundle, g);
      risk := risk + own;
    }
    assert chosen[..|chosen|] == chosen;
    merit := causal + witnesses - overlap - risk;
  }

  /** The utility of a list of bundles. */
  method UtilityOf(chosen: seq<Bundle>, input: Input, tokenCost: int) returns (r: real)
    ensures r == Utility(chosen, input, tokenCost)
  {
    hide Coverage, Merit, Groups;
    var coverage := CoverageOf(chosen, input);
    var merit, groups := MeritOf(chosen, input.graph);
    return coverage + merit + |groups| as real * 0.25 - tokenCost as real / 1000.0;
  }
}
