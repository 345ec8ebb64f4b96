/** What one more bundle adds to a selection: the utility as laws of the gain, over all selections. */
module ContextUtility {
  import opened Text16
  import opened Sorting
  import opened ContextSelection

  // ---------- the gain, term by term ----------

  /** Some chosen bundle covers the requirement. */
  ghost predicate Met(chosen: seq<Bundle>, input: Input, id: Text) {
    exists b :: b in chosen && Covers(b, input.graph, input.ledger, id)
  }

  /** The candidate covers what nothing selected covers. */
  ghost predicate NewlyCovers(b: Bundle, selected: seq<Bundle>, input: Input, id: Text) {
    Covers(b, input.graph, input.ledger, id) && !Met(selected, input, id)
  }

  /** The weight of the requirements among `rest` that the candidate newly covers. */
  ghost function NewWeight(b: Bundle, selected: seq<Bundle>, input: Input, rest: seq<Requirement>): real {
    if rest == [] then 0.0
    else (if NewlyCovers(b, selected, input, rest[0].id) then Weight(input.ledger, rest[0].id) else 0.0)
         + NewWeight(b, selected, input, rest[1..])
  }

  /** The independence groups of all nodes of some bundles. */
  ghost function GroupsOf(chosen: seq<Bundle>, g: Graph): set<Text> {
    set b, n | b in chosen && n in NodesOf(b, g) :: n.independenceGroup
  }

  ghost function NewGroups(b: Bundle, selected: seq<Bundle>, g: Graph): set<Text> {
    GroupsOf([b], g) - GroupsOf(selected, g)
  }

  /** What a purpose is worth by itself. */
  ghost function Bonus(p: Purpose): real {
    match p
    case CausalPath => 2.0
    case RequirementWitness => 1.0
    case CounterEvidence => 1.0
    case _ => 0.0
  }

  lemma {:induction false} CoverageGrows(b: Bundle, selected: seq<Bundle>, input: Input, rest: seq<Requirement>)
    ensures Coverage(selected + [b], input.graph, input.ledger, rest) ==
            Coverage(selected, input.graph, input.ledger, rest) + NewWeight(b, selected, input, rest)
  {
    hide Covers, Weight;
    if rest != [] {
      CoverageGrows(b, selected, input, rest[1..]);
      assert forall x :: x in selected + [b] <==> x in selected || x == b;
    }
  }

  lemma {:induction false} GroupsAreGroups(chosen: seq<Bundle>, g: Graph)
    ensures Groups(chosen, g) == GroupsOf(chosen, g)
  {
    hide NodesOf;
    if chosen != [] {
      var k := |chosen| - 1;
      GroupsAreGroups(chosen[..k], g);
      assert chosen == chosen[..k] + [chosen[k]];
    }
  }

  lemma GroupsAppend(selected: seq<Bundle>, s: Bundle, g: Graph)
    ensures GroupsOf(selected + [s], g) == GroupsOf(selected, g) + GroupsOf([s], g)
  {
    hide NodesOf;
    assert forall x :: x in selected + [s] <==> x in selected || x in [s];
  }

  lemma GroupsGrow(b: Bundle, selected: seq<Bundle>, g: Graph)
    ensures |Groups(selected + [b], g)| == |Groups(selected, g)| + |NewGroups(b, selected, g)|
  {
    GroupsAreGroups(selected + [b], g);
    GroupsAreGroups(selected, g);
    hide Groups, NodesOf;
    var old', new' := GroupsOf(selected, g), NewGroups(b, selected, g);
    GroupsAppend(selected, b, g);
    hide GroupsOf;
    assert GroupsOf(selected + [b], g) == old' + new' && old' !! new';
  }

  lemma MeritGrows(b: Bundle, selected: seq<Bundle>, g: Graph)
    ensures Merit(selected + [b], g) ==
            Merit(selected, g) + Bonus(b.purpose) - OverlapWith(NodeKeys(b, g), selected, g) - AdversarialRisk(b, g)
  {
    hide OverlapWith, AdversarialRisk, NodeKeys;
    assert (selected + [b])[..|selected|] == selected && (selected + [b])[|selected|] == b;
  }

  /** The gain times the cost: new coverage, the purpose, a quarter for each new group, less the overlap with every
      selected bundle, the mean risk and a thousandth of the cost. */
  ghost function Worth(b: Bundle, selected: seq<Bundle>, input: Input): real {
    NewWeight(b, selected, input, input.ledger) + Bonus(b.purpose)
    + 0.25 * |NewGroups(b, selected, input.graph)| as real
    - OverlapWith(NodeKeys(b, input.graph), selected, input.graph) - AdversarialRisk(b, input.graph)
    - ChargedCost(b, input) as real / 1000.0
  }

  ghost function PerCost(x: real, c: int): real
    requires c >= 1
  {
    x / c as real
  }

  lemma GainExactly(b: Bundle, selected: seq<Bundle>, input: Input)
    ensures Gain(b, selected, input) == PerCost(Worth(b, selected, input), ChargedCost(b, input))
  {
    CoverageGrows(b, selected, input, input.ledger);
    GroupsGrow(b, selected, input.graph);
    MeritGrows(b, selected, input.graph);
    hide Coverage, Groups, Merit, NewWeight, NewGroups, OverlapWith, NodeKeys, AdversarialRisk;
  }

  /** Per unit of cost: linear, and in the order of the amounts. */
  lemma PerCostLaws(x: real, y: real, c: int)
    requires c >= 1
    ensures PerCost(x, c) - PerCost(y, c) == PerCost(x - y, c)
    ensures x <= y <==> PerCost(x, c) <= PerCost(y, c)
    ensures x < y <==> PerCost(x, c) < PerCost(y, c)
  {
  }

  /** Candidates of one cost differ in gain as they do in worth. */
  lemma GainDiffers(a: Bundle, b: Bundle, selected: seq<Bundle>, input: Input, d: real)
    requires ChargedCost(a, input) == ChargedCost(b, input) && Worth(a, selected, input) - Worth(b, selected, input) == d
    ensures Gain(a, selected, input) - Gain(b, selected, input) == PerCost(d, ChargedCost(a, input))
  {
    hide Gain, Worth, PerCost, ChargedCost;
    GainExactly(a, selected, input);
    GainExactly(b, selected, input);
    PerCostLaws(Worth(a, selected, input), Worth(b, selected, input), ChargedCost(a, input));
  }

  lemma PerCostApart(x: real, y: real, d: real, c: int)
    requires c >= 1 && y == x - d
    ensures PerCost(y, c) == PerCost(x, c) - PerCost(d, c)
    ensures d >= 0.0 ==> PerCost(y, c) <= PerCost(x, c)
  {
    hide PerCost;
    PerCostLaws(x, y, c);
    PerCostLaws(y, x, c);
  }

  // ---------- risk ----------

  function Risks(nodes: seq<Node>): seq<real> {
    seq(|nodes|, i requires 0 <= i < |nodes| => nodes[i].adversarialRisk)
  }

  /** As many nodes, each at least as risky, and one riskier. */
  ghost predicate Riskier(b: Bundle, a: Bundle, g: Graph) {
    var x, y := Risks(NodesOf(a, g)), Risks(NodesOf(b, g));
    && |x| == |y| && (forall i :: 0 <= i < |x| ==> x[i] <= y[i])
    && exists i :: 0 <= i < |x| && x[i] < y[i]
  }

  lemma {:induction false} RiskSumGrows(a: seq<Node>, b: seq<Node>)
    requires |a| == |b| && forall i :: 0 <= i < |a| ==> a[i].adversarialRisk <= b[i].adversarialRisk
    ensures RiskSum(a) <= RiskSum(b)
    ensures (exists i :: 0 <= i < |a| && a[i].adversarialRisk < b[i].adversarialRisk) ==> RiskSum(a) < RiskSum(b)
  {
    if a != [] {
      RiskSumGrows(a[1..], b[1..]);
      forall i | 0 < i < |a| ensures a[i] == a[1..][i - 1] && b[i] == b[1..][i - 1] { }
    }
  }

  lemma RiskierHasMoreRisk(b: Bundle, a: Bundle, g: Graph)
    requires Riskier(b, a, g)
    ensures AdversarialRisk(a, g) < AdversarialRisk(b, g)
  {
    var x, y := NodesOf(a, g), NodesOf(b, g);
    forall i | 0 <= i < |x| ensures x[i].adversarialRisk <= y[i].adversarialRisk { assert Risks(x)[i] <= Risks(y)[i]; }
    var i :| 0 <= i < |x| && Risks(x)[i] < Risks(y)[i];
    assert x[i].adversarialRisk < y[i].adversarialRisk;
    RiskSumGrows(x, y);
    PerCostLaws(RiskSum(x), RiskSum(y), |x|);
  }

  /** Two candidates that weigh the same but for risk. */
  ghost predicate Rivals(a: Bundle, b: Bundle, selected: seq<Bundle>, input: Input) {
    && a.purpose == b.purpose && ChargedCost(a, input) == ChargedCost(b, input)
    && (forall r :: r in input.ledger ==> (NewlyCovers(a, selected, input, r.id) <==> NewlyCovers(b, selected, input, r.id)))
    && |NewGroups(a, selected, input.graph)| == |NewGroups(b, selected, input.graph)|
    && (forall s :: s in selected ==>
          Jaccard(NodeKeys(a, input.graph), NodeKeys(s, input.graph)) == Jaccard(NodeKeys(b, input.graph), NodeKeys(s, input.graph)))
  }

  lemma {:induction false} SameNewWeight(a: Bundle, b: Bundle, selected: seq<Bundle>, input: Input, rest: seq<Requirement>)
    requires forall r :: r in rest ==> (NewlyCovers(a, selected, input, r.id) <==> NewlyCovers(b, selected, input, r.id))
    ensures NewWeight(a, selected, input, rest) == NewWeight(b, selected, input, rest)
  {
    hide NewlyCovers, Weight;
    if rest != [] {
      assert rest[0] in rest && forall r :: r in rest[1..] ==> r in rest;
      SameNewWeight(a, b, selected, input, rest[1..]);
    }
  }

  lemma {:induction false} SameOverlap(x: set<Text>, y: set<Text>, selected: seq<Bundle>, g: Graph)
    requires forall s :: s in selected ==> Jaccard(x, NodeKeys(s, g)) == Jaccard(y, NodeKeys(s, g))
    ensures OverlapWith(x, selected, g) == OverlapWith(y, selected, g)
  {
    hide Jaccard, NodeKeys;
    if selected != [] {
      assert selected[0] in selected && forall s :: s in selected[1..] ==> s in selected;
      SameOverlap(x, y, selected[1..], g);
    }
  }

  /** Of two such candidates the riskier gains less, by the difference of their mean risks per cost. */
  lemma RiskCosts(a: Bundle, b: Bundle, selected: seq<Bundle>, input: Input)
    requires Rivals(a, b, selected, input)
    ensures Gain(a, selected, input) - Gain(b, selected, input) ==
            PerCost(AdversarialRisk(b, input.graph) - AdversarialRisk(a, input.graph), ChargedCost(a, input))
    ensures Riskier(b, a, input.graph) ==> Gain(b, selected, input) < Gain(a, selected, input)
  {
    hide Rivals, Gain, Worth, AdversarialRisk, ChargedCost, Riskier, PerCost;
    GainExactly(a, selected, input);
    GainExactly(b, selected, input);
    RivalsWorth(a, b, selected, input);
    if Riskier(b, a, input.graph) { RiskierHasMoreRisk(b, a, input.graph); }
    PerCostLaws(Worth(a, selected, input), Worth(b, selected, input), ChargedCost(a, input));
    PerCostLaws(Worth(b, selected, input), Worth(a, selected, input), ChargedCost(a, input));
  }

  lemma RivalsWorth(a: Bundle, b: Bundle, selected: seq<Bundle>, input: Input)
    requires Rivals(a, b, selected, input)
    ensures Worth(a, selected, input) - Worth(b, selected, input) ==
            AdversarialRisk(b, input.graph) - AdversarialRisk(a, input.graph)
    ensures ChargedCost(a, input) == ChargedCost(b, input)
  {
    SameNewWeight(a, b, selected, input, input.ledger);
    SameOverlap(NodeKeys(a, input.graph), NodeKeys(b, input.graph), selected, input.graph);
    hide NewWeight, NewGroups, OverlapWith, NodeKeys, AdversarialRisk, ChargedCost, NewlyCovers, Jaccard;
  }

  /** And it is never picked while the other is there. */
  lemma RiskierIsNotPicked(a: Bundle, b: Bundle, remaining: seq<Bundle>, selected: seq<Bundle>, input: Input)
    requires a in remaining && Rivals(a, b, selected, input) && Riskier(b, a, input.graph)
    ensures var best := BestAmong(remaining, selected, input); best.index >= 0 ==> remaining[best.index] != b
  {
    RiskCosts(a, b, selected, input);
    BestIsGreatest(remaining, selected, input);
    hide Gain, Rivals, Riskier, BestAmong;
  }

  // ---------- raising the risk of one node ----------

  function RaiseNode(n: Node, id: Text, delta: real): Node {
    if n.id == id then n.(adversarialRisk := n.adversarialRisk + delta) else n
  }

  function RaiseAll(nodes: seq<Node>, id: Text, delta: real): seq<Node> {
    seq(|nodes|, i requires 0 <= i < |nodes| => RaiseNode(nodes[i], id, delta))
  }

  /** The same input with one node riskier. */
  function Raised(input: Input, id: Text, delta: real): Input {
    input.(graph := input.graph.(nodes := RaiseAll(input.graph.nodes, id, delta)))
  }

  lemma {:induction false} RaisedById(nodes: seq<Node>, id: Text, delta: real, k: Text)
    ensures k in NodesById(RaiseAll(nodes, id, delta)) <==> k in NodesById(nodes)
    ensures k in NodesById(nodes) ==>
              && NodesById(RaiseAll(nodes, id, delta))[k] == RaiseNode(NodesById(nodes)[k], id, delta)
              && NodesById(nodes)[k].id == k
  {
    if nodes != [] {
      var n := |nodes| - 1;
      RaisedById(nodes[..n], id, delta, k);
      assert RaiseAll(nodes, id, delta)[..n] == RaiseAll(nodes[..n], id, delta);
    }
  }

  lemma {:induction false} RaisedLookup(ids: seq<Text>, nodes: seq<Node>, id: Text, delta: real)
    ensures Lookup(ids, NodesById(RaiseAll(nodes, id, delta))) == RaiseAll(Lookup(ids, NodesById(nodes)), id, delta)
    ensures id !in ids ==> RaiseAll(Lookup(ids, NodesById(nodes)), id, delta) == Lookup(ids, NodesById(nodes))
  {
    hide NodesById;
    if ids != [] {
      RaisedById(nodes, id, delta, ids[0]);
      RaisedLookup(ids[1..], nodes, id, delta);
      var first := if ids[0] in NodesById(nodes) then [NodesById(nodes)[ids[0]]] else [];
      RaiseAppend(first, Lookup(ids[1..], NodesById(nodes)), id, delta);
    }
  }

  lemma RaiseAppend(a: seq<Node>, b: seq<Node>, id: Text, delta: real)
    ensures RaiseAll(a + b, id, delta) == RaiseAll(a, id, delta) + RaiseAll(b, id, delta)
  {
  }

  lemma RaisedNodes(b: Bundle, g: Graph, id: Text, delta: real)
    ensures var g' := g.(nodes := RaiseAll(g.nodes, id, delta));
      && NodesOf(b, g') == RaiseAll(NodesOf(b, g), id, delta)
      && (id !in b.nodeIds ==> NodesOf(b, g') == NodesOf(b, g))
      && NodeKeys(b, g') == NodeKeys(b, g) && GroupsOf([b], g') == GroupsOf([b], g)
  {
    RaisedLookup(b.nodeIds, g.nodes, id, delta);
    var g' := g.(nodes := RaiseAll(g.nodes, id, delta));
    assert NodesOf(b, g') == RaiseAll(NodesOf(b, g), id, delta);
    hide Lookup, NodesById, NodesOf;
    RaisedSame(NodesOf(b, g), id, delta);
    hide RaiseAll;
    assert b in [b];
    assert GroupsOf([b], g') == (set n | n in NodesOf(b, g') :: n.independenceGroup);
    assert GroupsOf([b], g) == (set n | n in NodesOf(b, g) :: n.independenceGroup);
  }

  lemma RaisedSame(nodes: seq<Node>, id: Text, delta: real)
    ensures (set n | n in RaiseAll(nodes, id, delta) :: n.identityKey) == (set n | n in nodes :: n.identityKey)
    ensures (set n | n in RaiseAll(nodes, id, delta) :: n.independenceGroup) == (set n | n in nodes :: n.independenceGroup)
  {
    var raised := RaiseAll(nodes, id, delta);
    forall n | n in nodes
      ensures exists m :: m in raised && m.identityKey == n.identityKey && m.independenceGroup == n.independenceGroup
    {
      var i :| 0 <= i < |nodes| && nodes[i] == n;
      assert raised[i] in raised;
    }
    forall m | m in raised
      ensures exists n :: n in nodes && m.identityKey == n.identityKey && m.independenceGroup == n.independenceGroup
    {
      var i :| 0 <= i < |nodes| && raised[i] == m;
      assert nodes[i] in nodes;
    }
    hide RaiseAll;
  }

  lemma {:induction false} RaisedFirst(nodes: seq<Node>, id: Text, delta: real, test: Node -> bool)
    requires forall n: Node :: test(RaiseNode(n, id, delta)) == test(n)
    ensures FirstNode(RaiseAll(nodes, id, delta), test) ==
            match FirstNode(nodes, test) case None => None case Some(n) => Some(RaiseNode(n, id, delta))
  {
    if nodes != [] {
      RaisedFirst(nodes[1..], id, delta, test);
      assert RaiseAll(nodes, id, delta)[1..] == RaiseAll(nodes[1..], id, delta);
    }
  }

  lemma RaisedEndpoint(g: Graph, id: Text, delta: real, endpoint: Text, r: Text)
    ensures EndpointNames(g.(nodes := RaiseAll(g.nodes, id, delta)), endpoint, r) <==> EndpointNames(g, endpoint, r)
  {
    RaisedFirst(g.nodes, id, delta, (n: Node) => n.id == endpoint);
  }

  lemma RaisedWitness(b: Bundle, g: Graph, id: Text, delta: real, r: Requirement)
    ensures WitnessCovers(b, g.(nodes := RaiseAll(g.nodes, id, delta)), r) <==> WitnessCovers(b, g, r)
  {
    RaisedFirst(g.nodes, id, delta, (n: Node) => n.identityKey == REQUIREMENT_PREFIX + r.id);
  }

  lemma RaisedCovers(b: Bundle, input: Input, id: Text, delta: real, r: Text)
    ensures Covers(b, Raised(input, id, delta).graph, input.ledger, r) <==> Covers(b, input.graph, input.ledger, r)
  {
    var g, g' := input.graph, Raised(input, id, delta).graph;
    hide EndpointNames, WitnessCovers;
    forall e ensures EndpointNames(g', e, r) <==> EndpointNames(g, e, r) { RaisedEndpoint(g, id, delta, e, r); }
    forall q ensures WitnessCovers(b, g', q) <==> WitnessCovers(b, g, q) { RaisedWitness(b, g, id, delta, q); }
    hide RaiseAll;
    assert EdgeCovers(b, g', r) <==> EdgeCovers(b, g, r);
  }

  lemma {:induction false} RaisedWeight(b: Bundle, selected: seq<Bundle>, input: Input, id: Text, delta: real, rest: seq<Requirement>)
    ensures NewWeight(b, selected, Raised(input, id, delta), rest) == NewWeight(b, selected, input, rest)
  {
    hide Covers, Weight;
    if rest != [] {
      RaisedWeight(b, selected, input, id, delta, rest[1..]);
      forall x ensures Covers(x, Raised(input, id, delta).graph, input.ledger, rest[0].id) <==>
                       Covers(x, input.graph, input.ledger, rest[0].id)
      {
        RaisedCovers(x, input, id, delta, rest[0].id);
      }
    }
  }

  lemma {:induction false} RaisedOverlap(keys: set<Text>, prior: seq<Bundle>, g: Graph, id: Text, delta: real)
    ensures OverlapWith(keys, prior, g.(nodes := RaiseAll(g.nodes, id, delta))) == OverlapWith(keys, prior, g)
  {
    hide NodeKeys, Jaccard, GroupsOf, NodesOf, RaiseAll;
    if prior != [] {
      RaisedOverlap(keys, prior[1..], g, id, delta);
      RaisedNodes(prior[0], g, id, delta);
    }
  }

  lemma RaisedGroups(b: Bundle, selected: seq<Bundle>, g: Graph, id: Text, delta: real)
    ensures NewGroups(b, selected, g.(nodes := RaiseAll(g.nodes, id, delta))) == NewGroups(b, selected, g)
  {
    var g' := g.(nodes := RaiseAll(g.nodes, id, delta));
    RaisedNodes(b, g, id, delta);
    GroupsUnion(selected, g);
    GroupsUnion(selected, g');
    forall x ensures GroupsOf([x], g') == GroupsOf([x], g) { RaisedNodes(x, g, id, delta); }
    hide GroupsOf, NodesOf, RaiseAll, NodeKeys;
    assert GroupsOf(selected, g') == GroupsOf(selected, g);
  }

  lemma GroupsUnion(selected: seq<Bundle>, g: Graph)
    ensures forall t :: t in GroupsOf(selected, g) <==> exists x :: x in selected && t in GroupsOf([x], g)
  {
    hide NodesOf;
    forall t ensures t in GroupsOf(selected, g) <==> exists x :: x in selected && t in GroupsOf([x], g) {
      if t in GroupsOf(selected, g) {
        var x, n :| x in selected && n in NodesOf(x, g) && n.independenceGroup == t;
        assert x in [x] && t in GroupsOf([x], g);
      }
    }
  }

  /** How often an id is among some nodes. */
  function CountId(nodes: seq<Node>, id: Text): nat {
    if nodes == [] then 0 else (if nodes[0].id == id then 1 else 0) + CountId(nodes[1..], id)
  }

  lemma {:induction false} RaisedSum(nodes: seq<Node>, id: Text, delta: real)
    ensures RiskSum(RaiseAll(nodes, id, delta)) == RiskSum(nodes) + CountId(nodes, id) as real * delta
  {
    if nodes != [] {
      RaisedSum(nodes[1..], id, delta);
      assert RaiseAll(nodes, id, delta)[1..] == RaiseAll(nodes[1..], id, delta);
    }
  }

  /** How much the mean risk of a bundle rises. */
  ghost function MeanRise(nodes: seq<Node>, id: Text, delta: real): real {
    if nodes == [] then 0.0 else CountId(nodes, id) as real * delta / |nodes| as real
  }

  lemma RaisedMean(b: Bundle, g: Graph, id: Text, delta: real)
    ensures AdversarialRisk(b, g.(nodes := RaiseAll(g.nodes, id, delta))) ==
            AdversarialRisk(b, g) + MeanRise(NodesOf(b, g), id, delta)
    ensures delta >= 0.0 ==> MeanRise(NodesOf(b, g), id, delta) >= 0.0
  {
    var nodes := NodesOf(b, g);
    RaisedNodes(b, g, id, delta);
    RaisedSum(nodes, id, delta);
    hide NodesOf, NodeKeys, GroupsOf, RiskSum, CountId;
    if nodes != [] {
      var x, y := RiskSum(nodes), CountId(nodes, id) as real * delta;
      PerCostLaws(x + y, x, |nodes|);
      if delta >= 0.0 { PerCostLaws(0.0, y, |nodes|); }
    }
  }

  /** Raising the risk of a node by delta lowers the gain of a candidate by the rise of its mean risk per cost: its share
      of that node times delta. Nothing else changes, and more risk never gains. */
  lemma RaisedRiskCosts(b: Bundle, selected: seq<Bundle>, input: Input, id: Text, delta: real)
    ensures Gain(b, selected, Raised(input, id, delta)) ==
            Gain(b, selected, input) - PerCost(MeanRise(NodesOf(b, input.graph), id, delta), ChargedCost(b, input))
    ensures delta >= 0.0 ==> Gain(b, selected, Raised(input, id, delta)) <= Gain(b, selected, input)
  {
    var input' := Raised(input, id, delta);
    assert ChargedCost(b, input') == ChargedCost(b, input);
    hide Gain, Worth, MeanRise, PerCost, NodesOf, ChargedCost, AdversarialRisk, Raised;
    GainExactly(b, selected, input);
    GainExactly(b, selected, input');
    RaisedWorth(b, selected, input, id, delta);
    RaisedMean(b, input.graph, id, delta);
    PerCostApart(Worth(b, selected, input), Worth(b, selected, input'), MeanRise(NodesOf(b, input.graph), id, delta),
                 ChargedCost(b, input));
  }

  lemma RaisedWorth(b: Bundle, selected: seq<Bundle>, input: Input, id: Text, delta: real)
    ensures Worth(b, selected, Raised(input, id, delta)) ==
            Worth(b, selected, input) - MeanRise(NodesOf(b, input.graph), id, delta)
  {
    RaisedWeight(b, selected, input, id, delta, input.ledger);
    RaisedGroups(b, selected, input.graph, id, delta);
    RaisedNodes(b, input.graph, id, delta);
    RaisedOverlap(NodeKeys(b, input.graph), selected, input.graph, id, delta);
    RaisedMean(b, input.graph, id, delta);
    hide NewWeight, NewGroups, OverlapWith, NodeKeys, AdversarialRisk, MeanRise, NodesOf, GroupsOf, RaiseAll;
  }

  // ---------- coverage, purpose and groups ----------

  ghost predicate DistinctRequirements(ledger: seq<Requirement>) {
    forall i, j :: 0 <= i < j < |ledger| ==> ledger[i].id != ledger[j].id
  }

  lemma {:induction false} WeightOf(ledger: seq<Requirement>, r: Requirement)
    requires DistinctRequirements(ledger) && r in ledger
    ensures Weight(ledger, r.id) == if r.must then 1.0 else 0.5
  {
    if ledger[0] != r {
      var k :| 0 <= k < |ledger| && ledger[k] == r;
      assert ledger[0].id != ledger[k].id;
      assert r in ledger[1..];
      WeightOf(ledger[1..], r);
    }
  }

  lemma {:induction false} NothingNew(b: Bundle, selected: seq<Bundle>, input: Input, rest: seq<Requirement>)
    requires forall r :: r in rest ==> !NewlyCovers(b, selected, input, r.id)
    ensures NewWeight(b, selected, input, rest) == 0.0
  {
    hide NewlyCovers, Weight;
    if rest != [] {
      assert rest[0] in rest && forall r :: r in rest[1..] ==> r in rest;
      NothingNew(b, selected, input, rest[1..]);
    }
  }

  lemma {:induction false} OneNew(b: Bundle, selected: seq<Bundle>, input: Input, rest: seq<Requirement>, r: Requirement)
    requires DistinctRequirements(rest) && r in rest
    requires forall q :: q in rest ==> (NewlyCovers(b, selected, input, q.id) <==> q == r)
    ensures NewWeight(b, selected, input, rest) == Weight(input.ledger, r.id)
  {
    hide NewlyCovers, Weight;
    assert rest[0] in rest && forall q :: q in rest[1..] ==> q in rest;
    if rest[0] == r {
      forall q | q in rest[1..] ensures q != r {
        var k :| 0 <= k < |rest[1..]| && rest[1..][k] == q;
        assert rest[0].id != rest[k + 1].id;
      }
      NothingNew(b, selected, input, rest[1..]);
    } else {
      assert r in rest[1..];
      OneNew(b, selected, input, rest[1..], r);
    }
  }

  /** Candidates of the same nodes and purpose at the same cost. */
  ghost predicate SameButEdges(a: Bundle, b: Bundle, input: Input) {
    a.nodeIds == b.nodeIds && a.purpose == b.purpose && ChargedCost(a, input) == ChargedCost(b, input)
  }

  /** A candidate that covers one requirement nothing selected covers gains exactly 1 for a must, or 0.5, per cost, over
      one that covers nothing new. */
  lemma CoverageGains(a: Bundle, b: Bundle, selected: seq<Bundle>, input: Input, r: Requirement)
    requires DistinctRequirements(input.ledger) && r in input.ledger && SameButEdges(a, b, input)
    requires forall q :: q in input.ledger ==> (NewlyCovers(a, selected, input, q.id) <==> q == r)
    requires forall q :: q in input.ledger ==> !NewlyCovers(b, selected, input, q.id)
    ensures Gain(a, selected, input) - Gain(b, selected, input) ==
            PerCost(if r.must then 1.0 else 0.5, ChargedCost(a, input))
  {
    hide Gain, NewlyCovers, NewWeight, NewGroups, OverlapWith, NodeKeys, AdversarialRisk, PerCost, Weight, ChargedCost;
    WeightOf(input.ledger, r);
    OneNew(a, selected, input, input.ledger, r);
    NothingNew(b, selected, input, input.ledger);
    SameNodes(a, b, selected, input);
    GainDiffers(a, b, selected, input, if r.must then 1.0 else 0.5);
  }

  lemma SameNodes(a: Bundle, b: Bundle, selected: seq<Bundle>, input: Input)
    requires a.nodeIds == b.nodeIds
    ensures NodeKeys(a, input.graph) == NodeKeys(b, input.graph)
    ensures NewGroups(a, selected, input.graph) == NewGroups(b, selected, input.graph)
    ensures AdversarialRisk(a, input.graph) == AdversarialRisk(b, input.graph)
  {
    var g := input.graph;
    assert NodesOf(a, g) == NodesOf(b, g);
    hide NodesOf;
    assert GroupsOf([a], g) == GroupsOf([b], g) by { assert a in [a] && b in [b]; }
  }

  /** The same bundle with another purpose. */
  lemma PurposeGains(b: Bundle, selected: seq<Bundle>, input: Input)
    requires b.purpose != RequirementWitness
    requires ChargedCost(b.(purpose := OtherPurpose), input) == ChargedCost(b, input)
    ensures Gain(b, selected, input) - Gain(b.(purpose := OtherPurpose), selected, input) ==
            PerCost(if b.purpose == CausalPath then 2.0 else if b.purpose == CounterEvidence then 1.0 else 0.0,
                    ChargedCost(b, input))
  {
    var o := b.(purpose := OtherPurpose);
    hide Gain, NewWeight, NewGroups, OverlapWith, NodeKeys, AdversarialRisk, PerCost, ChargedCost, Covers;
    SameNodes(b, o, selected, input);
    forall r ensures NewlyCovers(b, selected, input, r) <==> NewlyCovers(o, selected, input, r) {
      PurposeCovers(b, input, r);
    }
    SameNewWeight(b, o, selected, input, input.ledger);
    hide NewlyCovers;
    GainDiffers(b, o, selected, input, Bonus(b.purpose));
  }

  lemma PurposeCovers(b: Bundle, input: Input, r: Text)
    requires b.purpose != RequirementWitness
    ensures Covers(b, input.graph, input.ledger, r) <==>
            Covers(b.(purpose := OtherPurpose), input.graph, input.ledger, r)
  {
    hide EndpointNames;
  }

  /** A witness gains 1 per cost beside what it covers. */
  lemma WitnessGains(b: Bundle, selected: seq<Bundle>, input: Input)
    requires b.purpose == RequirementWitness
    requires ChargedCost(b.(purpose := OtherPurpose), input) == ChargedCost(b, input)
    requires forall r :: r in input.ledger ==>
               (NewlyCovers(b, selected, input, r.id) <==> NewlyCovers(b.(purpose := OtherPurpose), selected, input, r.id))
    ensures Gain(b, selected, input) - Gain(b.(purpose := OtherPurpose), selected, input) ==
            PerCost(1.0, ChargedCost(b, input))
  {
    var o := b.(purpose := OtherPurpose);
    hide Gain, NewlyCovers, NewWeight, NewGroups, OverlapWith, NodeKeys, AdversarialRisk, PerCost, ChargedCost;
    SameNodes(b, o, selected, input);
    SameNewWeight(b, o, selected, input, input.ledger);
    GainDiffers(b, o, selected, input, 1.0);
  }

  /** Two candidates that weigh the same but for the groups they bring: each new group gains exactly 0.25 per cost. */
  lemma GroupGains(a: Bundle, b: Bundle, selected: seq<Bundle>, input: Input)
    requires a.purpose == b.purpose && ChargedCost(a, input) == ChargedCost(b, input)
    requires forall r :: r in input.ledger ==> (NewlyCovers(a, selected, input, r.id) <==> NewlyCovers(b, selected, input, r.id))
    requires NodeKeys(a, input.graph) == NodeKeys(b, input.graph)
    requires Risks(NodesOf(a, input.graph)) == Risks(NodesOf(b, input.graph))
    ensures Gain(a, selected, input) - Gain(b, selected, input) ==
            PerCost(0.25 * (|NewGroups(a, selected, input.graph)| - |NewGroups(b, selected, input.graph)|) as real,
                    ChargedCost(a, input))
  {
    hide Gain, NewlyCovers, NewWeight, NewGroups, OverlapWith, NodeKeys, PerCost, ChargedCost, NodesOf, Risks;
    SameNewWeight(a, b, selected, input, input.ledger);
    SameRisk(NodesOf(a, input.graph), NodesOf(b, input.graph));
    assert AdversarialRisk(a, input.graph) == AdversarialRisk(b, input.graph);
    hide AdversarialRisk;
    GainDiffers(a, b, selected, input,
                0.25 * (|NewGroups(a, selected, input.graph)| - |NewGroups(b, selected, input.graph)|) as real);
  }

  lemma {:induction false} SameRisk(a: seq<Node>, b: seq<Node>)
    requires Risks(a) == Risks(b)
    ensures |a| == |b| && RiskSum(a) == RiskSum(b)
  {
    assert |a| == |Risks(a)| == |Risks(b)| == |b|;
    if a != [] {
      assert Risks(a)[0] == Risks(b)[0];
      assert Risks(a[1..]) == Risks(a)[1..] && Risks(b[1..]) == Risks(b)[1..];
      SameRisk(a[1..], b[1..]);
    }
  }

  // ---------- what a selected bundle costs the others ----------

  lemma {:induction false} OverlapAppend(keys: set<Text>, prior: seq<Bundle>, s: Bundle, g: Graph)
    ensures OverlapWith(keys, prior + [s], g) == OverlapWith(keys, prior, g) + Jaccard(keys, NodeKeys(s, g))
  {
    hide Jaccard, NodeKeys;
    if prior == [] {
      assert prior + [s] == [s] && [s][1..] == [];
    } else {
      OverlapAppend(keys, prior[1..], s, g);
      assert (prior + [s])[1..] == prior[1..] + [s] && (prior + [s])[0] == prior[0];
    }
  }

  /** What the candidate would newly cover that the other bundle covers too. */
  ghost function LostWeight(b: Bundle, s: Bundle, selected: seq<Bundle>, input: Input, rest: seq<Requirement>): real {
    if rest == [] then 0.0
    else (if NewlyCovers(b, selected, input, rest[0].id) && Covers(s, input.graph, input.ledger, rest[0].id)
          then Weight(input.ledger, rest[0].id) else 0.0)
         + LostWeight(b, s, selected, input, rest[1..])
  }

  lemma {:induction false} WeightPositive(ledger: seq<Requirement>, id: Text)
    ensures Weight(ledger, id) >= 0.0
  {
    if ledger != [] { WeightPositive(ledger[1..], id); }
  }

  lemma {:induction false} WeightLost(b: Bundle, s: Bundle, selected: seq<Bundle>, input: Input, rest: seq<Requirement>)
    ensures NewWeight(b, selected + [s], input, rest) ==
            NewWeight(b, selected, input, rest) - LostWeight(b, s, selected, input, rest)
    ensures LostWeight(b, s, selected, input, rest) >= 0.0
  {
    hide Covers, Weight;
    if rest != [] {
      WeightLost(b, s, selected, input, rest[1..]);
      WeightPositive(input.ledger, rest[0].id);
      assert forall x :: x in selected + [s] <==> x in selected || x == s;
    }
  }

  lemma GroupsLost(b: Bundle, s: Bundle, selected: seq<Bundle>, g: Graph)
    ensures |NewGroups(b, selected + [s], g)| == |NewGroups(b, selected, g)| - |NewGroups(b, selected, g) * GroupsOf([s], g)|
  {
    var before, shared := NewGroups(b, selected, g), NewGroups(b, selected, g) * GroupsOf([s], g);
    GroupsAppend(selected, s, g);
    hide GroupsOf;
    assert NewGroups(b, selected + [s], g) == before - shared;
    assert shared <= before;
  }

  /** What selecting another bundle first takes from a candidate's worth: the coverage and the new groups they share,
      and their overlap. */
  ghost function Shared(b: Bundle, s: Bundle, selected: seq<Bundle>, input: Input): real {
    LostWeight(b, s, selected, input, input.ledger)
    + 0.25 * |NewGroups(b, selected, input.graph) * GroupsOf([s], input.graph)| as real
    + Jaccard(NodeKeys(b, input.graph), NodeKeys(s, input.graph))
  }

  /** Selecting another bundle first lowers a gain by exactly what the two share, so gains never rise as the selection
      grows. */
  lemma GainsDiminish(b: Bundle, s: Bundle, selected: seq<Bundle>, input: Input)
    ensures Gain(b, selected + [s], input) ==
            Gain(b, selected, input) - PerCost(Shared(b, s, selected, input), ChargedCost(b, input))
    ensures Shared(b, s, selected, input) >= 0.0 && Gain(b, selected + [s], input) <= Gain(b, selected, input)
  {
    GainExactly(b, selected, input);
    GainExactly(b, selected + [s], input);
    WorthDiminishes(b, s, selected, input);
    hide Gain, Worth, Shared, PerCost, ChargedCost;
    PerCostApart(Worth(b, selected, input), Worth(b, selected + [s], input), Shared(b, s, selected, input), ChargedCost(b, input));
  }

  lemma WorthDiminishes(b: Bundle, s: Bundle, selected: seq<Bundle>, input: Input)
    ensures Worth(b, selected + [s], input) == Worth(b, selected, input) - Shared(b, s, selected, input)
    ensures Shared(b, s, selected, input) >= 0.0
  {
    WeightLost(b, s, selected, input, input.ledger);
    GroupsLost(b, s, selected, input.graph);
    OverlapAppend(NodeKeys(b, input.graph), selected, s, input.graph);
    JaccardMeasures(NodeKeys(b, input.graph), NodeKeys(s, input.graph));
    hide NewWeight, NewGroups, GroupsOf, OverlapWith, NodeKeys, AdversarialRisk, LostWeight, Jaccard, ChargedCost;
  }

  // ---------- what the tests on a bundle mean ----------

  /** The node an id stands for: the last of the graph with it. */
  ghost predicate Resolves(g: Graph, id: Text, n: Node) {
    exists i :: 0 <= i < |g.nodes| && g.nodes[i] == n && n.id == id && forall j :: i < j < |g.nodes| ==> g.nodes[j].id != id
  }

  lemma {:induction false} NodesByIdResolve(g: Graph, nodes: seq<Node>, k: nat, id: Text)
    requires k <= |g.nodes| && nodes == g.nodes[..k] && forall j :: k <= j < |g.nodes| ==> g.nodes[j].id != id
    ensures id in NodesById(nodes) ==> Resolves(g, id, NodesById(nodes)[id])
    ensures forall n :: Resolves(g, id, n) ==> id in NodesById(nodes) && NodesById(nodes)[id] == n
    decreases k
  {
    if k > 0 {
      assert nodes[..k - 1] == g.nodes[..k - 1] && nodes[k - 1] == g.nodes[k - 1];
      if nodes[k - 1].id == id {
        assert Resolves(g, id, nodes[k - 1]);
      } else {
        NodesByIdResolve(g, nodes[..k - 1], k - 1, id);
      }
    }
  }

  /** The nodes of a bundle are those its ids stand for. */
  lemma NodesOfExactly(b: Bundle, g: Graph, n: Node)
    ensures n in NodesOf(b, g) <==> exists id :: id in b.nodeIds && Resolves(g, id, n)
  {
    assert g.nodes[..|g.nodes|] == g.nodes;
    forall id
      ensures id in NodesById(g.nodes) ==> Resolves(g, id, NodesById(g.nodes)[id])
      ensures forall x :: Resolves(g, id, x) ==> id in NodesById(g.nodes) && NodesById(g.nodes)[id] == x
    {
      NodesByIdResolve(g, g.nodes, |g.nodes|, id);
    }
    hide NodesById, Resolves;
    LookupMembers(b.nodeIds, NodesById(g.nodes), n);
  }

  /** A bundle is untrusted exactly when some id of it stands for a node of risk 0.85 or more, an invalidated one, or one
      a local model wrote. */
  lemma UntrustedExactly(b: Bundle, g: Graph)
    ensures IsUntrusted(b, g) <==>
            exists id, n :: id in b.nodeIds && Resolves(g, id, n) &&
              (n.adversarialRisk >= 0.85 || n.status == Invalidated || n.authorship == LocalModel)
  {
    forall n ensures n in NodesOf(b, g) <==> exists id :: id in b.nodeIds && Resolves(g, id, n) { NodesOfExactly(b, g, n); }
    hide NodesOf, Resolves;
    if IsUntrusted(b, g) {
      var n :| n in NodesOf(b, g) && UntrustedNode(n);
      var id :| id in b.nodeIds && Resolves(g, id, n);
    }
    if id, n :| id in b.nodeIds && Resolves(g, id, n) &&
                (n.adversarialRisk >= 0.85 || n.status == Invalidated || n.authorship == LocalModel) {
      assert n in NodesOf(b, g) && UntrustedNode(n);
    }
  }

  /** A bundle is never omitted exactly when it is mandatory, serves one of four purposes, or holds a test or its result
      together with an edge of its own that fails or contradicts. */
  lemma NeverOmitExactly(b: Bundle, g: Graph)
    ensures IsNeverOmit(b, g) <==>
            || b.mandatory
            || b.purpose in {RequirementWitness, InstructionScope, VerificationCapability, CounterEvidence}
            || ((exists id, n :: id in b.nodeIds && Resolves(g, id, n) && n.kind in {TestKind, TestResultKind})
                && exists e :: e in g.edges && e.id in b.edgeIds && e.relation in {FailsAt, Contradicts})
  {
    forall n ensures n in NodesOf(b, g) <==> exists id :: id in b.nodeIds && Resolves(g, id, n) { NodesOfExactly(b, g, n); }
    hide NodesOf, Resolves;
    if n :| n in NodesOf(b, g) && (n.kind == TestKind || n.kind == TestResultKind) {
      var id :| id in b.nodeIds && Resolves(g, id, n);
    }
  }

  lemma NineTenths(common: nat, union: nat)
    requires common <= union && union > 0
    ensures common as real / union as real >= 0.9 <==> 10 * common >= 9 * union
  {
    RealNineTenths(common as real, union as real);
    assert (10 * common) as real == 10.0 * common as real && (9 * union) as real == 9.0 * union as real;
  }

  lemma RealNineTenths(c: real, u: real)
    requires u > 0.0
    ensures c / u >= 0.9 <==> 10.0 * c >= 9.0 * u
  {
    var q := c / u;
    Divides(c, u);
    Scaled(q, 0.9, u);
  }

  lemma Divides(c: real, u: real)
    requires u > 0.0
    ensures c / u * u == c
  {
  }

  lemma Scaled(x: real, y: real, u: real)
    requires u > 0.0
    ensures x >= y <==> x * u >= y * u
  {
    assert (x - y) * u == x * u - y * u;
  }

  lemma JaccardNineTenths(x: set<Text>, y: set<Text>)
    ensures Jaccard(x, y) >= 0.9 <==> 10 * |x * y| >= 9 * |x + y|
  {
    OverlapSizes(x, y);
    assert |x + y| == |x| + |y| - |x * y|;
    if x + y == {} {
      assert x == {} && y == {};
    } else {
      NineTenths(|x * y|, |x + y|);
    }
  }

  /** A candidate duplicates the selection exactly when it shares nine tenths of its identity keys with a selected
      bundle, or a content digest. */
  lemma DuplicateExactly(c: Bundle, selected: seq<Bundle>, g: Graph)
    ensures IsDuplicateOf(c, selected, g) <==>
            exists s :: s in selected &&
              (|| 10 * |NodeKeys(c, g) * NodeKeys(s, g)| >= 9 * |NodeKeys(c, g) + NodeKeys(s, g)|
               || exists x, y :: x in NodesOf(c, g) && y in NodesOf(s, g) && x.contentDigest == y.contentDigest != None)
  {
    hide Jaccard, NodesOf;
    forall s ensures DuplicatesOne(c, s, g) <==>
              (|| 10 * |NodeKeys(c, g) * NodeKeys(s, g)| >= 9 * |NodeKeys(c, g) + NodeKeys(s, g)|
               || exists x, y :: x in NodesOf(c, g) && y in NodesOf(s, g) && x.contentDigest == y.contentDigest != None)
    {
      JaccardNineTenths(NodeKeys(c, g), NodeKeys(s, g));
      SharedDigest(c, s, g);
      hide NodeKeys, ContentDigests;
    }
    hide DuplicatesOne;
  }

  lemma SharedDigest(a: Bundle, b: Bundle, g: Graph)
    ensures ContentDigests(a, g) * ContentDigests(b, g) != {} <==>
            exists x, y :: x in NodesOf(a, g) && y in NodesOf(b, g) && x.contentDigest.Some? && x.contentDigest == y.contentDigest
  {
    hide NodesOf;
    if x, y :| x in NodesOf(a, g) && y in NodesOf(b, g) && x.contentDigest.Some? && x.contentDigest == y.contentDigest {
      assert x.contentDigest.value in ContentDigests(a, g) * ContentDigests(b, g);
    }
    if ContentDigests(a, g) * ContentDigests(b, g) != {} {
      var d :| d in ContentDigests(a, g) * ContentDigests(b, g);
    }
  }
}
