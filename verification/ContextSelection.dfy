/** Context selection: mandatory bundles first, then greedy by utility per token,
    then the record of what was left out. Utilities are exact reals. */
module ContextSelection {
  import opened Text16
  import opened Sorting

  datatype Option<+T> = None | Some(value: T)

  datatype Purpose =
    RequirementWitness | InstructionScope | VerificationCapability | CounterEvidence | CausalPath | OtherPurpose

  datatype Kind = TestKind | TestResultKind | RequirementKind | OtherKind

  datatype Status = Verified | Probable | Unknown | Conflicted | Invalidated

  datatype Authorship = Deterministic | User | LocalModel | CloudModel

  datatype Node = Node(
    id: Text, kind: Kind, identityKey: Text, status: Status, authorship: Authorship,
    contentDigest: Option<Text>, independenceGroup: Text, adversarialRisk: real)

  datatype Relation = FailsAt | Contradicts | Satisfies | CoveredBy | Supports | OtherRelation

  datatype Edge = Edge(id: Text, from: Text, to: Text, relation: Relation)

  datatype Graph = Graph(nodes: seq<Node>, edges: seq<Edge>)

  datatype Bundle = Bundle(id: Text, mandatory: bool, purpose: Purpose, nodeIds: seq<Text>, edgeIds: seq<Text>)

  datatype Requirement = Requirement(id: Text, must: bool)

  datatype Reason = Duplicate | LowerUtility | Untrusted | WindowCapacity

  datatype Omitted = Omitted(evidenceId: Text, reason: Reason)

  datatype Selection = Selected(bundles: seq<Bundle>, omitted: seq<Omitted>) | Capacity(omitted: seq<Omitted>)

  datatype Input = Input(
    bundles: seq<Bundle>, graph: Graph, ledger: seq<Requirement>, tokenBudget: int, cost: Bundle -> int)

  // ---------- bundles and their nodes ----------

  /** Nodes by id; the last node of an id wins. */
  function NodesById(nodes: seq<Node>): map<Text, Node> {
    if nodes == [] then map[]
    else NodesById(nodes[..|nodes| - 1])[nodes[|nodes| - 1].id := nodes[|nodes| - 1]]
  }

  function Lookup(ids: seq<Text>, byId: map<Text, Node>): seq<Node> {
    if ids == [] then []
    else (if ids[0] in byId then [byId[ids[0]]] else []) + Lookup(ids[1..], byId)
  }

  function NodesOf(b: Bundle, g: Graph): seq<Node> {
    Lookup(b.nodeIds, NodesById(g.nodes))
  }

  predicate UntrustedNode(n: Node) {
    n.adversarialRisk >= 0.85 || n.status == Invalidated || n.authorship == LocalModel
  }

  predicate IsUntrusted(b: Bundle, g: Graph) {
    exists n :: n in NodesOf(b, g) && UntrustedNode(n)
  }

  predicate Failing(b: Bundle, g: Graph) {
    exists e :: e in g.edges && e.id in b.edgeIds && (e.relation == FailsAt || e.relation == Contradicts)
  }

  predicate IsNeverOmit(b: Bundle, g: Graph) {
    || b.mandatory
    || b.purpose == RequirementWitness || b.purpose == InstructionScope || b.purpose == VerificationCapability
    || b.purpose == CounterEvidence
    || ((exists n :: n in NodesOf(b, g) && (n.kind == TestKind || n.kind == TestResultKind)) && Failing(b, g))
  }

  function NodeKeys(b: Bundle, g: Graph): set<Text> {
    set n | n in NodesOf(b, g) :: n.identityKey
  }

  function ContentDigests(b: Bundle, g: Graph): set<Text> {
    set n | n in NodesOf(b, g) && n.contentDigest.Some? :: n.contentDigest.value
  }

  function IndependenceGroups(b: Bundle, g: Graph): set<Text> {
    set n | n in NodesOf(b, g) :: n.independenceGroup
  }

  function Jaccard(left: set<Text>, right: set<Text>): real {
    if left == {} && right == {} then 1.0
    else
      var common := |left * right|;
      var union := |left| + |right| - common;
      if union == 0 then 0.0 else common as real / union as real
  }

  lemma SubsetSize(a: set<Text>, b: set<Text>)
    requires a <= b
    ensures |a| <= |b| && (|a| == |b| ==> a == b)
  {
    var rest := b - a;
    assert b == a + rest && |b| == |a| + |rest|;
    if |a| == |b| { assert rest == {}; }
  }

  lemma Quotient(x: int, y: int)
    requires 0 <= x <= y && 0 < y
    ensures 0.0 <= x as real / y as real <= 1.0 && (x as real / y as real == 1.0 <==> x == y)
  {
  }

  /** The overlap is a symmetric measure between 0 and 1, and 1 exactly for equal sets. */
  lemma JaccardMeasures(left: set<Text>, right: set<Text>)
    ensures Jaccard(left, right) == Jaccard(right, left)
    ensures 0.0 <= Jaccard(left, right) <= 1.0
    ensures Jaccard(left, right) == 1.0 <==> left == right
  {
    OverlapSizes(left, right);
    var common := |left * right|;
    var union := |left| + |right| - common;
    if union == 0 {
      assert left == {} && right == {};
    } else {
      assert left != {} || right != {};
      assert Jaccard(left, right) == common as real / union as real;
      assert Jaccard(right, left) == common as real / union as real;
      Quotient(common, union);
    }
  }

  lemma OverlapSizes(left: set<Text>, right: set<Text>)
    ensures right * left == left * right
    ensures |left * right| <= |left| && |left * right| <= |right|
    ensures |left| + |right| == 2 * |left * right| <==> left == right
  {
    assert left * right == right * left;
    SubsetSize(left * right, left);
    SubsetSize(left * right, right);
    if left == right { assert left * right == left; }
  }

  predicate DuplicatesOne(candidate: Bundle, b: Bundle, g: Graph) {
    || Jaccard(NodeKeys(candidate, g), NodeKeys(b, g)) >= 0.9
    || ContentDigests(candidate, g) * ContentDigests(b, g) != {}
  }

  predicate IsDuplicateOf(candidate: Bundle, selected: seq<Bundle>, g: Graph) {
    exists b :: b in selected && DuplicatesOne(candidate, b, g)
  }

  // ---------- utility ----------

  const REQUIREMENT_PREFIX: Text := [114, 101, 113, 117, 105, 114, 101, 109, 101, 110, 116, 58]

  function FirstNode(nodes: seq<Node>, test: Node -> bool): Option<Node> {
    if nodes == [] then None else if test(nodes[0]) then Some(nodes[0]) else FirstNode(nodes[1..], test)
  }

  predicate WitnessCovers(b: Bundle, g: Graph, r: Requirement) {
    b.purpose == RequirementWitness &&
    var n := FirstNode(g.nodes, (n: Node) => n.identityKey == REQUIREMENT_PREFIX + r.id);
    n.Some? && n.value.id in b.nodeIds
  }

  predicate EndpointNames(g: Graph, endpoint: Text, id: Text) {
    var n := FirstNode(g.nodes, (n: Node) => n.id == endpoint);
    n.Some? && n.value.kind == RequirementKind &&
    id == (if REQUIREMENT_PREFIX <= n.value.identityKey then n.value.identityKey[|REQUIREMENT_PREFIX|..] else n.value.identityKey)
  }

  predicate EdgeCovers(b: Bundle, g: Graph, id: Text) {
    exists e :: e in g.edges && e.id in b.edgeIds &&
      (e.relation == Satisfies || e.relation == CoveredBy || e.relation == Supports) &&
      (EndpointNames(g, e.from, id) || EndpointNames(g, e.to, id))
  }

  /** Whether a bundle covers the requirement of an id. */
  predicate Covers(b: Bundle, g: Graph, ledger: seq<Requirement>, id: Text) {
    (exists r :: r in ledger && r.id == id && WitnessCovers(b, g, r)) || EdgeCovers(b, g, id)
  }

  function Weight(ledger: seq<Requirement>, id: Text): real {
    if ledger == [] then 0.0
    else if ledger[0].id == id then (if ledger[0].must then 1.0 else 0.5)
    else Weight(ledger[1..], id)
  }

  function Coverage(chosen: seq<Bundle>, g: Graph, ledger: seq<Requirement>, rest: seq<Requirement>): real {
    if rest == [] then 0.0
    else
      (if exists b :: b in chosen && Covers(b, g, ledger, rest[0].id) then Weight(ledger, rest[0].id) else 0.0)
      + Coverage(chosen, g, ledger, rest[1..])
  }

  function RiskSum(nodes: seq<Node>): real {
    if nodes == [] then 0.0 else nodes[0].adversarialRisk + RiskSum(nodes[1..])
  }

  function AdversarialRisk(b: Bundle, g: Graph): real {
    if NodesOf(b, g) == [] then 0.0 else RiskSum(NodesOf(b, g)) / |NodesOf(b, g)| as real
  }

  function Groups(chosen: seq<Bundle>, g: Graph): set<Text> {
    if chosen == [] then {} else Groups(chosen[..|chosen| - 1], g) + IndependenceGroups(chosen[|chosen| - 1], g)
  }

  function OverlapWith(keys: set<Text>, prior: seq<Bundle>, g: Graph): real {
    if prior == [] then 0.0 else Jaccard(keys, NodeKeys(prior[0], g)) + OverlapWith(keys, prior[1..], g)
  }

  /** Causal paths, witnesses, overlap and risk of a list, bundle by bundle. */
  function Merit(chosen: seq<Bundle>, g: Graph): real {
    if chosen == [] then 0.0
    else
      var prior, b := chosen[..|chosen| - 1], chosen[|chosen| - 1];
      Merit(prior, g)
      + (if b.purpose == CausalPath then 2.0 else 0.0)
      + (if b.purpose == RequirementWitness || b.purpose == CounterEvidence then 1.0 else 0.0)
      - OverlapWith(NodeKeys(b, g), prior, g)
      - AdversarialRisk(b, g)
  }

  function Utility(chosen: seq<Bundle>, input: Input, tokenCost: int): real {
    Coverage(chosen, input.graph, input.ledger, input.ledger) + Merit(chosen, input.graph)
    + |Groups(chosen, input.graph)| as real * 0.25 - tokenCost as real / 1000.0
  }

  function ChargedCost(b: Bundle, input: Input): (c: int)
    ensures c >= 1 && c >= input.cost(b) && (c == 1 || c == input.cost(b))
  {
    if input.cost(b) < 1 then 1 else input.cost(b)
  }

  /** Gain in utility per token of adding one more bundle. */
  function Gain(b: Bundle, selected: seq<Bundle>, input: Input): real {
    var cost := ChargedCost(b, input);
    (Utility(selected + [b], input, cost) - Utility(selected, input, 0)) / cost as real
  }

  // ---------- the selection as a function ----------

  predicate BundleAtMost(a: Bundle, b: Bundle) { AtMost(a.id, b.id) }

  predicate OmittedAtMost(a: Omitted, b: Omitted) { AtMost(a.evidenceId, b.evidenceId) }

  /** The node ids of a list of bundles. */
  function IdsOf(bundles: seq<Bundle>): set<Text> {
    set b, id | b in bundles && id in b.nodeIds :: id
  }

  function OmittedIds(omitted: seq<Omitted>): set<Text> {
    set o | o in omitted :: o.evidenceId
  }

  /** `omitNodes`: one entry per node id that is not selected yet. */
  function Omissions(ids: seq<Text>, reason: Reason, selectedIds: set<Text>): seq<Omitted> {
    if ids == [] then []
    else (if ids[0] in selectedIds then [] else [Omitted(ids[0], reason)]) + Omissions(ids[1..], reason, selectedIds)
  }

  function Filter(bundles: seq<Bundle>, g: Graph, neverOmit: bool): seq<Bundle> {
    if bundles == [] then []
    else if IsNeverOmit(bundles[0], g) == neverOmit then [bundles[0]] + Filter(bundles[1..], g, neverOmit)
    else Filter(bundles[1..], g, neverOmit)
  }

  datatype Progress = Progress(selected: seq<Bundle>, omitted: seq<Omitted>, used: int)

  datatype Pass = Full(omitted: seq<Omitted>) | Going(progress: Progress)

  function Take(b: Bundle, p: Progress, input: Input): Progress {
    p.(selected := p.selected + [b], used := p.used + input.cost(b))
  }

  function Skip(b: Bundle, reason: Reason, p: Progress): Progress {
    p.(omitted := p.omitted + Omissions(b.nodeIds, reason, IdsOf(p.selected)))
  }

  predicate Fits(b: Bundle, p: Progress, input: Input) {
    p.used + input.cost(b) <= input.tokenBudget
  }

  function MandatoryPass(mandatory: seq<Bundle>, p: Progress, input: Input): Pass {
    if mandatory == [] then Going(p)
    else
      var b := mandatory[0];
      if IsUntrusted(b, input.graph) then MandatoryPass(mandatory[1..], Skip(b, Untrusted, p), input)
      else if !Fits(b, p, input) then Full(p.omitted)
      else MandatoryPass(mandatory[1..], Take(b, p, input), input)
  }

  /** The best candidate seen so far; index -1 when no gain is positive. */
  datatype Best = Best(index: int, gain: real, id: Text)

  function BestAmong(remaining: seq<Bundle>, selected: seq<Bundle>, input: Input): (r: Best)
    ensures -1 <= r.index < |remaining|
  {
    if remaining == [] then Best(-1, 0.0, [])
    else
      var last := remaining[|remaining| - 1];
      var best := BestAmong(remaining[..|remaining| - 1], selected, input);
      var gain := Gain(last, selected, input);
      if gain > best.gain || (gain == best.gain && Less(last.id, best.id) && gain > 0.0)
      then Best(|remaining| - 1, gain, last.id) else best
  }

  /** What happens to the candidate chosen in one turn. */
  function Settle(b: Bundle, p: Progress, input: Input): Progress {
    if IsUntrusted(b, input.graph) then Skip(b, Untrusted, p)
    else if IsDuplicateOf(b, p.selected, input.graph) then Skip(b, Duplicate, p)
    else if !Fits(b, p, input) then Skip(b, WindowCapacity, p)
    else Take(b, p, input)
  }

  function SkipAll(remaining: seq<Bundle>, p: Progress): Progress {
    if remaining == [] then p else SkipAll(remaining[1..], Skip(remaining[0], LowerUtility, p))
  }

  function Without<T>(s: seq<T>, i: nat): seq<T>
    requires i < |s|
  {
    s[..i] + s[i + 1..]
  }

  function GreedyPass(remaining: seq<Bundle>, p: Progress, input: Input): Progress
    decreases |remaining|
  {
    if remaining == [] then p
    else
      var best := BestAmong(remaining, p.selected, input);
      if best.index < 0 || best.gain <= 0.0 then SkipAll(remaining, p)
      else GreedyPass(Without(remaining, best.index), Settle(remaining[best.index], p, input), input)
  }

  /** Drop selected ids, keep each id and reason once. */
  function Unseen(omitted: seq<Omitted>, selectedIds: set<Text>, seen: set<Omitted>): seq<Omitted> {
    if omitted == [] then []
    else if omitted[0].evidenceId in selectedIds || omitted[0] in seen then Unseen(omitted[1..], selectedIds, seen)
    else [omitted[0]] + Unseen(omitted[1..], selectedIds, seen + {omitted[0]})
  }

  function Finish(p: Progress): Selection {
    Selected(p.selected, Unseen(Sort(p.omitted, OmittedAtMost), IdsOf(p.selected), {}))
  }

  function Select(input: Input): Selection {
    var ordered := Sort(input.bundles, BundleAtMost);
    match MandatoryPass(Filter(ordered, input.graph, true), Progress([], [], 0), input)
    case Full(omitted) => Capacity(omitted)
    case Going(p) => Finish(GreedyPass(Filter(ordered, input.graph, false), p, input))
  }

  // ---------- members of the pieces ----------

  lemma {:induction false} FilterMembers(bundles: seq<Bundle>, g: Graph, neverOmit: bool, b: Bundle)
    ensures b in Filter(bundles, g, neverOmit) <==> b in bundles && IsNeverOmit(b, g) == neverOmit
  {
    if bundles != [] {
      FilterMembers(bundles[1..], g, neverOmit, b);
      assert bundles == [bundles[0]] + bundles[1..];
    }
  }

  lemma {:induction false} OmissionsMembers(ids: seq<Text>, reason: Reason, selectedIds: set<Text>, o: Omitted)
    ensures o in Omissions(ids, reason, selectedIds) <==>
            o.reason == reason && o.evidenceId in ids && o.evidenceId !in selectedIds
  {
    if ids != [] {
      OmissionsMembers(ids[1..], reason, selectedIds, o);
      assert ids == [ids[0]] + ids[1..];
      assert o == Omitted(o.evidenceId, o.reason);
    }
  }

  lemma {:induction false} UnseenMembers(omitted: seq<Omitted>, selectedIds: set<Text>, seen: set<Omitted>, o: Omitted)
    ensures o in Unseen(omitted, selectedIds, seen) <==> o in omitted && o.evidenceId !in selectedIds && o !in seen
    ensures Distinct(Unseen(omitted, selectedIds, seen))
    decreases |omitted|
  {
    if omitted != [] {
      var more := seen + {omitted[0]};
      UnseenMembers(omitted[1..], selectedIds, seen, o);
      UnseenMembers(omitted[1..], selectedIds, more, o);
      UnseenMembers(omitted[1..], selectedIds, more, omitted[0]);
      assert omitted == [omitted[0]] + omitted[1..];
    }
  }

  lemma {:induction false} LookupMembers(ids: seq<Text>, byId: map<Text, Node>, n: Node)
    ensures n in Lookup(ids, byId) <==> exists id :: id in ids && id in byId && byId[id] == n
  {
    if ids != [] {
      LookupMembers(ids[1..], byId, n);
      assert ids == [ids[0]] + ids[1..];
    }
  }

  lemma {:induction false} NodesByIdKey(nodes: seq<Node>, id: Text)
    requires id in NodesById(nodes)
    ensures NodesById(nodes)[id].id == id
  {
    if nodes != [] && id != nodes[|nodes| - 1].id { NodesByIdKey(nodes[..|nodes| - 1], id); }
  }

  /** A node of one bundle is a node of every bundle that lists its id. */
  lemma SharedNode(a: Bundle, b: Bundle, g: Graph, n: Node)
    requires n in NodesOf(a, g) && n.id in b.nodeIds
    ensures n.id in a.nodeIds && n in NodesOf(b, g)
  {
    LookupMembers(a.nodeIds, NodesById(g.nodes), n);
    var id :| id in a.nodeIds && id in NodesById(g.nodes) && NodesById(g.nodes)[id] == n;
    NodesByIdKey(g.nodes, id);
    LookupMembers(b.nodeIds, NodesById(g.nodes), n);
  }

  // ---------- what every turn keeps ----------

  function TotalCost(bundles: seq<Bundle>, input: Input): int {
    if bundles == [] then 0 else TotalCost(bundles[..|bundles| - 1], input) + input.cost(bundles[|bundles| - 1])
  }

  ghost predicate CostsNonNegative(input: Input) {
    forall b :: input.cost(b) >= 0
  }

  /** Every node of b is selected or recorded with this reason. */
  ghost predicate Left(b: Bundle, p: Progress, reason: Reason) {
    forall id :: id in b.nodeIds ==> id in IdsOf(p.selected) || Omitted(id, reason) in p.omitted
  }

  /** A bundle dealt with before the last turn: selected, or left for a reason that still holds. */
  ghost predicate Dealt(b: Bundle, p: Progress, input: Input) {
    || b in p.selected
    || (IsUntrusted(b, input.graph) && Left(b, p, Untrusted))
    || (!IsNeverOmit(b, input.graph) && IsDuplicateOf(b, p.selected, input.graph) && Left(b, p, Duplicate))
    || (!IsNeverOmit(b, input.graph) && (CostsNonNegative(input) ==> !Fits(b, p, input)) && Left(b, p, WindowCapacity))
  }

  /** A bundle left because adding it to the final selection gains nothing. */
  ghost predicate Useless(b: Bundle, p: Progress, input: Input) {
    !IsNeverOmit(b, input.graph) && Gain(b, p.selected, input) <= 0.0 && Left(b, p, LowerUtility)
  }

  ghost predicate Balanced(p: Progress, done: set<Bundle>, input: Input) {
    && p.used == TotalCost(p.selected, input)
    && (input.tokenBudget >= 0 || p.selected != [] ==> p.used <= input.tokenBudget)
    && (forall b :: b in p.selected ==> b in done && !IsUntrusted(b, input.graph))
    && (forall o :: o in p.omitted ==> exists b :: b in done && o.evidenceId in b.nodeIds)
  }

  ghost predicate Inv(p: Progress, done: set<Bundle>, input: Input) {
    Balanced(p, done, input) && forall b :: b in done ==> Dealt(b, p, input)
  }

  lemma IdsGrow(selected: seq<Bundle>, b: Bundle)
    ensures IdsOf(selected) <= IdsOf(selected + [b])
    ensures forall id :: id in b.nodeIds ==> id in IdsOf(selected + [b])
  {
    assert forall x :: x in selected ==> x in selected + [b];
    assert b in selected + [b];
  }

  lemma TakeDealt(c: Bundle, b: Bundle, p: Progress, input: Input)
    requires Dealt(c, p, input)
    ensures Dealt(c, Take(b, p, input), input)
  {
    var p' := Take(b, p, input);
    IdsGrow(p.selected, b);
    hide IsUntrusted, IsNeverOmit, DuplicatesOne, IdsOf;
    assert forall x :: x in p.selected ==> x in p'.selected;
    if CostsNonNegative(input) { assert input.cost(b) >= 0; }
  }

  lemma TakeBalanced(b: Bundle, p: Progress, done: set<Bundle>, input: Input)
    requires Balanced(p, done, input) && !IsUntrusted(b, input.graph) && Fits(b, p, input)
    ensures Balanced(Take(b, p, input), done + {b}, input)
  {
    hide IsUntrusted;
    var p' := Take(b, p, input);
    assert p'.selected[..|p'.selected| - 1] == p.selected;
  }

  lemma TakeKeeps(b: Bundle, p: Progress, done: set<Bundle>, input: Input)
    requires Inv(p, done, input) && !IsUntrusted(b, input.graph) && Fits(b, p, input)
    ensures Inv(Take(b, p, input), done + {b}, input)
  {
    TakeBalanced(b, p, done, input);
    hide Balanced, Dealt;
    forall c | c in done + {b} ensures Dealt(c, Take(b, p, input), input) {
      if c == b { SelectedIsDealt(b, Take(b, p, input), input); } else { TakeDealt(c, b, p, input); }
    }
  }

  lemma SelectedIsDealt(b: Bundle, p: Progress, input: Input)
    requires b in p.selected
    ensures Dealt(b, p, input)
  {
  }

  lemma SkipLeft(b: Bundle, reason: Reason, p: Progress)
    ensures Left(b, Skip(b, reason, p), reason)
    ensures forall c, r :: Left(c, p, r) ==> Left(c, Skip(b, reason, p), r)
  {
    hide IdsOf;
    var p' := Skip(b, reason, p);
    forall id | id in b.nodeIds && id !in IdsOf(p.selected) ensures Omitted(id, reason) in p'.omitted {
      OmissionsMembers(b.nodeIds, reason, IdsOf(p.selected), Omitted(id, reason));
    }
  }

  lemma SkipBalanced(b: Bundle, reason: Reason, p: Progress, done: set<Bundle>, input: Input)
    requires Balanced(p, done, input)
    ensures Balanced(Skip(b, reason, p), done + {b}, input)
  {
    hide IsUntrusted, IdsOf;
    var p' := Skip(b, reason, p);
    forall o | o in p'.omitted ensures exists c :: c in done + {b} && o.evidenceId in c.nodeIds {
      if o in p.omitted {
        var c :| c in done && o.evidenceId in c.nodeIds;
        assert c in done + {b};
      } else {
        OmissionsMembers(b.nodeIds, reason, IdsOf(p.selected), o);
        assert b in done + {b};
      }
    }
  }

  lemma SkipKeeps(b: Bundle, reason: Reason, p: Progress, done: set<Bundle>, input: Input)
    requires Inv(p, done, input) && Dealt(b, Skip(b, reason, p), input)
    ensures Inv(Skip(b, reason, p), done + {b}, input)
  {
    SkipBalanced(b, reason, p, done, input);
    SkipLeft(b, reason, p);
    hide Balanced, Left, IsUntrusted, IsNeverOmit, IsDuplicateOf, Omissions;
    var p' := Skip(b, reason, p);
    forall c | c in done + {b} ensures Dealt(c, p', input) { }
  }

  lemma {:induction false} MandatoryInv(mandatory: seq<Bundle>, p: Progress, done: set<Bundle>, input: Input)
    requires Inv(p, done, input)
    ensures MandatoryPass(mandatory, p, input).Going? ==>
              Inv(MandatoryPass(mandatory, p, input).progress, done + (set b | b in mandatory), input)
  {
    if mandatory == [] {
      assert done + (set b | b in mandatory) == done;
    } else {
      var b, rest := mandatory[0], mandatory[1..];
      OneMoreDone(mandatory, done);
      hide Inv, Dealt, IsUntrusted, Balanced, Left;
      if IsUntrusted(b, input.graph) {
        SkipLeft(b, Untrusted, p);
        UntrustedIsDealt(b, Skip(b, Untrusted, p), input);
        SkipKeeps(b, Untrusted, p, done, input);
        MandatoryInv(rest, Skip(b, Untrusted, p), done + {b}, input);
      } else if Fits(b, p, input) {
        TakeKeeps(b, p, done, input);
        MandatoryInv(rest, Take(b, p, input), done + {b}, input);
      }
    }
  }

  lemma OneMoreDone(bundles: seq<Bundle>, done: set<Bundle>)
    requires bundles != []
    ensures done + (set c | c in bundles) == done + {bundles[0]} + (set c | c in bundles[1..])
  {
    assert bundles == [bundles[0]] + bundles[1..] && bundles[0] in bundles;
  }

  lemma UntrustedIsDealt(b: Bundle, p: Progress, input: Input)
    requires IsUntrusted(b, input.graph) && Left(b, p, Untrusted)
    ensures Dealt(b, p, input)
  {
  }

  lemma SettleKeeps(b: Bundle, p: Progress, done: set<Bundle>, input: Input)
    requires Inv(p, done, input) && !IsNeverOmit(b, input.graph)
    ensures Inv(Settle(b, p, input), done + {b}, input)
  {
    hide Inv, IsUntrusted, IsNeverOmit, Left, Balanced;
    if IsUntrusted(b, input.graph) {
      SkipLeft(b, Untrusted, p);
      SkipKeeps(b, Untrusted, p, done, input);
    } else if IsDuplicateOf(b, p.selected, input.graph) {
      SkipLeft(b, Duplicate, p);
      SkipKeeps(b, Duplicate, p, done, input);
    } else if !Fits(b, p, input) {
      SkipLeft(b, WindowCapacity, p);
      SkipKeeps(b, WindowCapacity, p, done, input);
    } else {
      TakeKeeps(b, p, done, input);
    }
  }

  // ---------- the turn that picks the best candidate ----------

  /** The pick has the greatest gain of all, is positive, and of equal gains has the smallest id. */
  ghost predicate IsBest(r: Best, remaining: seq<Bundle>, selected: seq<Bundle>, input: Input) {
    && -1 <= r.index < |remaining|
    && r.gain >= 0.0
    && (forall c :: c in remaining ==> Gain(c, selected, input) <= r.gain)
    && (r.index == -1 ==> r.gain == 0.0)
    && (r.index >= 0 ==>
      && r.gain > 0.0 && r.gain == Gain(remaining[r.index], selected, input) && r.id == remaining[r.index].id
      && forall c :: c in remaining && Gain(c, selected, input) == r.gain ==> !Less(c.id, r.id))
  }

  lemma {:induction false} BestIsGreatest(remaining: seq<Bundle>, selected: seq<Bundle>, input: Input)
    ensures IsBest(BestAmong(remaining, selected, input), remaining, selected, input)
  {
    hide Gain, Less;
    if remaining != [] {
      var n := |remaining| - 1;
      var last, rest := remaining[n], remaining[..n];
      assert remaining == rest + [last];
      BestIsGreatest(rest, selected, input);
      var best := BestAmong(rest, selected, input);
      LessAsymmetric(last.id, last.id);
      forall c | c in rest && Gain(last, selected, input) == best.gain && Gain(c, selected, input) == best.gain
        && best.index >= 0 && Less(last.id, best.id)
        ensures !Less(c.id, last.id)
      {
        if Less(c.id, last.id) { LessTransitive(c.id, last.id, best.id); }
      }
    }
  }

  ghost predicate Settled(p: Progress, done: set<Bundle>, input: Input) {
    Balanced(p, done, input) && forall b :: b in done ==> Dealt(b, p, input) || Useless(b, p, input)
  }

  lemma SkipUseless(b: Bundle, p: Progress, done: set<Bundle>, input: Input)
    requires Settled(p, done, input) && !IsNeverOmit(b, input.graph) && Gain(b, p.selected, input) <= 0.0
    ensures Settled(Skip(b, LowerUtility, p), done + {b}, input)
  {
    SkipBalanced(b, LowerUtility, p, done, input);
    SkipLeft(b, LowerUtility, p);
    hide Balanced, Left, IsUntrusted, IsNeverOmit, IsDuplicateOf, Omissions, Gain, CostsNonNegative, IdsOf;
    var p' := Skip(b, LowerUtility, p);
    forall c | c in done + {b} ensures Dealt(c, p', input) || Useless(c, p', input) {
      if c in done { assert Dealt(c, p, input) || Useless(c, p, input); }
    }
  }

  lemma {:induction false} SkipAllSettles(remaining: seq<Bundle>, p: Progress, done: set<Bundle>, input: Input)
    requires Settled(p, done, input)
    requires forall b :: b in remaining ==> !IsNeverOmit(b, input.graph) && Gain(b, p.selected, input) <= 0.0
    ensures Settled(SkipAll(remaining, p), done + (set b | b in remaining), input)
    decreases |remaining|
  {
    hide Settled, IsNeverOmit, Gain;
    if remaining == [] {
      assert done + (set b | b in remaining) == done;
    } else {
      var b, rest := remaining[0], remaining[1..];
      assert remaining == [b] + rest && b in remaining;
      SkipUseless(b, p, done, input);
      SkipAllSettles(rest, Skip(b, LowerUtility, p), done + {b}, input);
      assert done + (set c | c in remaining) == done + {b} + (set c | c in rest);
    }
  }

  lemma WithoutMembers<T(!new)>(s: seq<T>, i: nat)
    requires i < |s|
    ensures |Without(s, i)| == |s| - 1 && multiset(s) == multiset(Without(s, i)) + multiset{s[i]}
    ensures forall x :: x in s <==> x in Without(s, i) || x == s[i]
  {
    assert s == s[..i] + [s[i]] + s[i + 1..];
  }

  lemma InvSettled(p: Progress, done: set<Bundle>, input: Input)
    requires Inv(p, done, input)
    ensures Settled(p, done, input)
  {
  }

  lemma NothingToGain(remaining: seq<Bundle>, selected: seq<Bundle>, input: Input)
    ensures BestAmong(remaining, selected, input).index < 0 || BestAmong(remaining, selected, input).gain <= 0.0 ==>
              forall b :: b in remaining ==> Gain(b, selected, input) <= 0.0
  {
    BestIsGreatest(remaining, selected, input);
    hide Gain, BestAmong;
  }

  lemma {:induction false} GreedySettles(remaining: seq<Bundle>, p: Progress, done: set<Bundle>, input: Input)
    requires Inv(p, done, input) && forall b :: b in remaining ==> !IsNeverOmit(b, input.graph)
    ensures Settled(GreedyPass(remaining, p, input), done + (set b | b in remaining), input)
    decreases |remaining|
  {
    hide Settled, Inv, IsNeverOmit, Gain, Settle, BestAmong, Without, SkipAll;
    if remaining == [] {
      assert done + (set b | b in remaining) == done;
      InvSettled(p, done, input);
    } else {
      var best := BestAmong(remaining, p.selected, input);
      if best.index < 0 || best.gain <= 0.0 {
        InvSettled(p, done, input);
        NothingToGain(remaining, p.selected, input);
        SkipAllSettles(remaining, p, done, input);
      } else {
        var b := remaining[best.index];
        WithoutMembers(remaining, best.index);
        SettleKeeps(b, p, done, input);
        GreedySettles(Without(remaining, best.index), Settle(b, p, input), done + {b}, input);
        assert done + (set c | c in remaining) == done + {b} + (set c | c in Without(remaining, best.index));
      }
    }
  }

  // ---------- the whole selection ----------

  ghost function InputSet(input: Input): set<Bundle> { set b | b in input.bundles }

  /** A finished selection comes from a state in which every input bundle is settled. */
  lemma FinalState(input: Input)
    requires Select(input).Selected?
    ensures exists p :: Select(input) == Finish(p) && Settled(p, InputSet(input), input)
  {
    hide Settled, IsNeverOmit, IsUntrusted, Finish, MandatoryPass, GreedyPass, Sort, Filter;
    var ordered := Sort(input.bundles, BundleAtMost);
    var must, may := Filter(ordered, input.graph, true), Filter(ordered, input.graph, false);
    forall b ensures b in must + may <==> b in input.bundles
      ensures b in must ==> IsNeverOmit(b, input.graph)
      ensures b in may ==> !IsNeverOmit(b, input.graph)
    {
      FilterMembers(ordered, input.graph, true, b);
      FilterMembers(ordered, input.graph, false, b);
      SortMembers(input.bundles, BundleAtMost, b);
    }
    assert Inv(Progress([], [], 0), {}, input);
    hide Inv;
    MandatoryInv(must, Progress([], [], 0), {}, input);
    var p := MandatoryPass(must, Progress([], [], 0), input).progress;
    GreedySettles(may, p, {} + (set b | b in must), input);
    assert {} + (set b | b in must) + (set b | b in may) == InputSet(input) by {
      assert forall b :: b in must + may <==> b in must || b in may;
    }
  }

  lemma FinishMembers(p: Progress, o: Omitted)
    ensures o in Finish(p).omitted <==> o in p.omitted && o.evidenceId !in IdsOf(p.selected)
  {
    SortMembers(p.omitted, OmittedAtMost, o);
    UnseenMembers(Sort(p.omitted, OmittedAtMost), IdsOf(p.selected), {}, o);
  }

  /** The selection fits, holds only trusted bundles, and none more often than the input. An empty selection costs
      nothing, which is the one case in which a negative budget is exceeded. */
  lemma SelectionFits(input: Input)
    requires Select(input).Selected?
    ensures input.tokenBudget >= 0 || Select(input).bundles != [] ==>
              TotalCost(Select(input).bundles, input) <= input.tokenBudget
    ensures forall b :: b in Select(input).bundles ==> !IsUntrusted(b, input.graph)
    ensures multiset(Select(input).bundles) <= multiset(input.bundles)
  {
    SelectionWithin(input);
    FinalState(input);
    hide Select, IsUntrusted, Dealt, Useless, TotalCost;
  }

  lemma {:induction false} MandatoryWithin(mandatory: seq<Bundle>, p: Progress, input: Input)
    ensures MandatoryPass(mandatory, p, input).Going? ==>
              multiset(MandatoryPass(mandatory, p, input).progress.selected) <= multiset(p.selected) + multiset(mandatory)
    decreases |mandatory|
  {
    hide IsUntrusted, Omissions;
    if mandatory != [] {
      var b, rest := mandatory[0], mandatory[1..];
      assert mandatory == [b] + rest;
      if IsUntrusted(b, input.graph) {
        MandatoryWithin(rest, Skip(b, Untrusted, p), input);
      } else if Fits(b, p, input) {
        MandatoryWithin(rest, Take(b, p, input), input);
      }
    }
  }

  lemma {:induction false} SkipAllSelected(remaining: seq<Bundle>, p: Progress)
    ensures SkipAll(remaining, p).selected == p.selected
    decreases |remaining|
  {
    if remaining != [] { SkipAllSelected(remaining[1..], Skip(remaining[0], LowerUtility, p)); }
  }

  lemma {:induction false} GreedyWithin(remaining: seq<Bundle>, p: Progress, input: Input)
    ensures multiset(GreedyPass(remaining, p, input).selected) <= multiset(p.selected) + multiset(remaining)
    decreases |remaining|
  {
    hide BestAmong, IsUntrusted, IsDuplicateOf, Omissions, Without, SkipAll;
    if remaining != [] {
      var best := BestAmong(remaining, p.selected, input);
      if best.index < 0 || best.gain <= 0.0 {
        SkipAllSelected(remaining, p);
      } else {
        WithoutMembers(remaining, best.index);
        GreedyWithin(Without(remaining, best.index), Settle(remaining[best.index], p, input), input);
      }
    }
  }

  lemma {:induction false} FilterSplits(bundles: seq<Bundle>, g: Graph)
    ensures multiset(Filter(bundles, g, true)) + multiset(Filter(bundles, g, false)) == multiset(bundles)
  {
    hide IsNeverOmit;
    if bundles != [] {
      FilterSplits(bundles[1..], g);
      assert bundles == [bundles[0]] + bundles[1..];
    }
  }

  lemma SelectionWithin(input: Input)
    requires Select(input).Selected?
    ensures multiset(Select(input).bundles) <= multiset(input.bundles)
  {
    hide IsNeverOmit, MandatoryPass, GreedyPass, Sort, Filter, Unseen;
    var ordered := Sort(input.bundles, BundleAtMost);
    var must, may := Filter(ordered, input.graph, true), Filter(ordered, input.graph, false);
    SortSorts(input.bundles, BundleAtMost);
    FilterSplits(ordered, input.graph);
    MandatoryWithin(must, Progress([], [], 0), input);
    GreedyWithin(may, MandatoryPass(must, Progress([], [], 0), input).progress, input);
  }

  /** Each node id of each input bundle is selected or omitted and never both. */
  lemma SelectionPartitions(input: Input, id: Text)
    requires Select(input).Selected?
    ensures id in IdsOf(input.bundles) <==>
            id in IdsOf(Select(input).bundles) || id in OmittedIds(Select(input).omitted)
    ensures !(id in IdsOf(Select(input).bundles) && id in OmittedIds(Select(input).omitted))
  {
    FinalState(input);
    var p :| Select(input) == Finish(p) && Settled(p, InputSet(input), input);
    hide Select, IsUntrusted, IsNeverOmit, IsDuplicateOf, TotalCost, Gain, Fits, Finish;
    assert Finish(p).bundles == p.selected by { FinishSelected(p); }
    forall r { FinishMembers(p, Omitted(id, r)); }
    if id in OmittedIds(Finish(p).omitted) {
      var o :| o in Finish(p).omitted && o.evidenceId == id;
      assert o == Omitted(id, o.reason);
    }
    if id in IdsOf(input.bundles) && id !in IdsOf(p.selected) {
      var b :| b in input.bundles && id in b.nodeIds;
      LeftBehind(b, p, input, id);
      var r :| Omitted(id, r) in p.omitted;
      assert Omitted(id, r) in Finish(p).omitted;
    }
  }

  lemma FinishSelected(p: Progress)
    ensures Finish(p).bundles == p.selected
  {
  }

  lemma LeftBehind(b: Bundle, p: Progress, input: Input, id: Text)
    requires Dealt(b, p, input) || Useless(b, p, input)
    requires id in b.nodeIds && id !in IdsOf(p.selected)
    ensures exists r :: Omitted(id, r) in p.omitted
  {
    hide IsUntrusted, IsNeverOmit, IsDuplicateOf, Gain, Fits;
  }

  /** Why a bundle is not in the result, measured against the final selection. */
  ghost predicate Justified(b: Bundle, chosen: seq<Bundle>, input: Input) {
    || b in chosen
    || IsUntrusted(b, input.graph)
    || (!IsNeverOmit(b, input.graph) && IsDuplicateOf(b, chosen, input.graph))
    || (!IsNeverOmit(b, input.graph) && TotalCost(chosen, input) + input.cost(b) > input.tokenBudget)
    || (!IsNeverOmit(b, input.graph) && Gain(b, chosen, input) <= 0.0)
  }

  /** The selection is maximal: no bundle left out could still be added to it with profit. */
  lemma OmissionsJustified(input: Input, b: Bundle)
    requires CostsNonNegative(input) && Select(input).Selected? && b in input.bundles
    ensures Justified(b, Select(input).bundles, input)
  {
    FinalState(input);
    var p :| Select(input) == Finish(p) && Settled(p, InputSet(input), input);
    hide Select, IsUntrusted, IsNeverOmit, IsDuplicateOf, TotalCost, Gain, Finish, Left;
    FinishSelected(p);
    assert b in InputSet(input);
  }

  ghost predicate DistinctIds(bundles: seq<Bundle>) {
    forall i, j :: 0 <= i < j < |bundles| ==> bundles[i].id != bundles[j].id
  }

  lemma BundleOrder()
    ensures TotalPreorder(BundleAtMost)
  {
    forall x: Bundle, y: Bundle ensures BundleAtMost(x, y) || BundleAtMost(y, x) { LessAsymmetric(x.id, y.id); }
    forall x: Bundle, y: Bundle, z: Bundle | BundleAtMost(x, y) && BundleAtMost(y, z) ensures BundleAtMost(x, z) {
      AtMostTransitive(x.id, y.id, z.id);
    }
  }

  lemma SelectionIgnoresInputOrder(input: Input, bundles: seq<Bundle>)
    requires DistinctIds(input.bundles) && multiset(bundles) == multiset(input.bundles)
    ensures Select(input.(bundles := bundles)) == Select(input)
  {
    var other := input.(bundles := bundles);
    BundleOrder();
    forall x, y | x in input.bundles && y in input.bundles && BundleAtMost(x, y) && BundleAtMost(y, x) ensures x == y {
      LessConnected(x.id, y.id);
    }
    SortIgnoresOrder(input.bundles, bundles, BundleAtMost);
    var ordered := Sort(input.bundles, BundleAtMost);
    var start := Progress([], [], 0);
    hide IsNeverOmit, Filter, Sort, MandatoryPass, GreedyPass, Finish;
    MandatoryIgnores(Filter(ordered, input.graph, true), start, input, other);
    var pass := MandatoryPass(Filter(ordered, input.graph, true), start, input);
    if pass.Going? { GreedyIgnores(Filter(ordered, input.graph, false), pass.progress, input, other); }
  }

  /** The passes read the graph, ledger, budget and cost of their input, never its list of bundles. */
  ghost predicate SameRules(a: Input, b: Input) {
    a.graph == b.graph && a.ledger == b.ledger && a.tokenBudget == b.tokenBudget && a.cost == b.cost
  }

  lemma {:induction false} MandatoryIgnores(mandatory: seq<Bundle>, p: Progress, a: Input, b: Input)
    requires SameRules(a, b)
    ensures MandatoryPass(mandatory, p, a) == MandatoryPass(mandatory, p, b)
    decreases |mandatory|
  {
    hide IsUntrusted, Skip;
    if mandatory != [] {
      var head, rest := mandatory[0], mandatory[1..];
      if IsUntrusted(head, a.graph) {
        MandatoryIgnores(rest, Skip(head, Untrusted, p), a, b);
      } else if Fits(head, p, a) {
        MandatoryIgnores(rest, Take(head, p, a), a, b);
      }
    }
  }

  lemma GainIgnores(c: Bundle, selected: seq<Bundle>, a: Input, b: Input)
    requires SameRules(a, b)
    ensures Gain(c, selected, a) == Gain(c, selected, b)
  {
  }

  lemma {:induction false} BestIgnores(remaining: seq<Bundle>, selected: seq<Bundle>, a: Input, b: Input)
    requires SameRules(a, b)
    ensures BestAmong(remaining, selected, a) == BestAmong(remaining, selected, b)
  {
    hide Gain;
    if remaining != [] {
      BestIgnores(remaining[..|remaining| - 1], selected, a, b);
      GainIgnores(remaining[|remaining| - 1], selected, a, b);
    }
  }

  lemma {:induction false} GreedyIgnores(remaining: seq<Bundle>, p: Progress, a: Input, b: Input)
    requires SameRules(a, b)
    ensures GreedyPass(remaining, p, a) == GreedyPass(remaining, p, b)
    decreases |remaining|
  {
    hide BestAmong, SkipAll, IsUntrusted, IsDuplicateOf, Skip;
    if remaining != [] {
      BestIgnores(remaining, p.selected, a, b);
      var best := BestAmong(remaining, p.selected, a);
      if best.index >= 0 && best.gain > 0.0 {
        GreedyIgnores(Without(remaining, best.index), Settle(remaining[best.index], p, a), a, b);
      }
    }
  }

  // ---------- the critical-omission gate ----------

  function NeverOmitIds(candidates: seq<Bundle>, g: Graph): set<Text> {
    set b, id | b in candidates && IsNeverOmit(b, g) && id in b.nodeIds :: id
  }

  predicate IsCritical(o: Omitted, criticalIds: set<Text>) {
    o.evidenceId in criticalIds && (o.reason == Untrusted || o.reason == WindowCapacity)
  }

  function Critical(omitted: seq<Omitted>, criticalIds: set<Text>): seq<Omitted> {
    if omitted == [] then []
    else (if IsCritical(omitted[0], criticalIds) then [omitted[0]] else []) + Critical(omitted[1..], criticalIds)
  }

  function CriticalOmissions(omitted: seq<Omitted>, candidates: seq<Bundle>, g: Graph): seq<Omitted> {
    Sort(Critical(omitted, NeverOmitIds(candidates, g)), OmittedAtMost)
  }

  lemma {:induction false} CriticalMembers(omitted: seq<Omitted>, criticalIds: set<Text>, o: Omitted)
    ensures o in Critical(omitted, criticalIds) <==> o in omitted && IsCritical(o, criticalIds)
  {
    if omitted != [] {
      CriticalMembers(omitted[1..], criticalIds, o);
      assert omitted == [omitted[0]] + omitted[1..];
    }
  }

  lemma CriticalOmissionsMembers(omitted: seq<Omitted>, candidates: seq<Bundle>, g: Graph, o: Omitted)
    ensures o in CriticalOmissions(omitted, candidates, g) <==> o in omitted && IsCritical(o, NeverOmitIds(candidates, g))
  {
    CriticalMembers(omitted, NeverOmitIds(candidates, g), o);
    SortMembers(Critical(omitted, NeverOmitIds(candidates, g)), OmittedAtMost, o);
  }

  /** An untrusted bundle always has a node that no trusted bundle lists. */
  lemma UntrustedNodeStandsOut(b: Bundle, trusted: seq<Bundle>, g: Graph)
    requires IsUntrusted(b, g) && forall c :: c in trusted ==> !IsUntrusted(c, g)
    ensures exists id :: id in b.nodeIds && id !in IdsOf(trusted)
  {
    hide NodesOf;
    var n :| n in NodesOf(b, g) && UntrustedNode(n);
    NodeIdListed(b, g, n);
    if n.id in IdsOf(trusted) {
      var c :| c in trusted && n.id in c.nodeIds;
      SharedNode(b, c, g, n);
    }
  }

  lemma NodeIdListed(b: Bundle, g: Graph, n: Node)
    requires n in NodesOf(b, g)
    ensures n.id in b.nodeIds
  {
    LookupMembers(b.nodeIds, NodesById(g.nodes), n);
    var id :| id in b.nodeIds && id in NodesById(g.nodes) && NodesById(g.nodes)[id] == n;
    NodesByIdKey(g.nodes, id);
  }

  ghost predicate AllNeverOmitsChosen(chosen: seq<Bundle>, candidates: seq<Bundle>, g: Graph) {
    forall b :: b in candidates && IsNeverOmit(b, g) ==> b in chosen
  }

  /** A never-omit bundle that is not selected is reported as critical. */
  lemma UnselectedIsCritical(b: Bundle, p: Progress, input: Input)
    requires Settled(p, InputSet(input), input) && b in input.bundles && IsNeverOmit(b, input.graph) && b !in p.selected
    ensures CriticalOmissions(Finish(p).omitted, input.bundles, input.graph) != []
  {
    hide IsUntrusted, IsNeverOmit, IsDuplicateOf, Gain, TotalCost, Finish, CriticalOmissions;
    assert b in InputSet(input);
    UntrustedNodeStandsOut(b, p.selected, input.graph);
    var id :| id in b.nodeIds && id !in IdsOf(p.selected);
    var o := Omitted(id, Untrusted);
    FinishMembers(p, o);
    CriticalOmissionsMembers(Finish(p).omitted, input.bundles, input.graph, o);
  }

  /** The gate lets a selection through exactly when every never-omit candidate was itself selected. */
  lemma GatePassesExactly(input: Input)
    requires Select(input).Selected?
    ensures CriticalOmissions(Select(input).omitted, input.bundles, input.graph) == [] <==>
            AllNeverOmitsChosen(Select(input).bundles, input.bundles, input.graph)
  {
    FinalState(input);
    var p :| Select(input) == Finish(p) && Settled(p, InputSet(input), input);
    FinishSelected(p);
    hide Select, IsUntrusted, IsNeverOmit, IsDuplicateOf, Gain, TotalCost, Finish, CriticalOmissions, Settled;
    var critical := CriticalOmissions(Finish(p).omitted, input.bundles, input.graph);
    if critical != [] {
      var o := critical[0];
      CriticalOmissionsMembers(Finish(p).omitted, input.bundles, input.graph, o);
      FinishMembers(p, o);
      var b :| b in input.bundles && IsNeverOmit(b, input.graph) && o.evidenceId in b.nodeIds;
      assert b !in p.selected;
    } else {
      forall b | b in input.bundles && IsNeverOmit(b, input.graph) ensures b in p.selected {
        if b !in p.selected { UnselectedIsCritical(b, p, input); }
      }
    }
  }

  // ---------- when the mandatory material fits ----------

  predicate Needed(b: Bundle, g: Graph) { IsNeverOmit(b, g) && !IsUntrusted(b, g) }

  function NeededCost(bundles: seq<Bundle>, input: Input): int {
    if bundles == [] then 0
    else (if Needed(bundles[0], input.graph) then input.cost(bundles[0]) else 0) + NeededCost(bundles[1..], input)
  }

  lemma {:induction false} NeededInsert(b: Bundle, bundles: seq<Bundle>, input: Input)
    ensures NeededCost(Insert(b, bundles, BundleAtMost), input) == NeededCost([b] + bundles, input)
  {
    hide Needed, BundleAtMost;
    assert ([b] + bundles)[1..] == bundles;
    if bundles != [] && !BundleAtMost(b, bundles[0]) {
      NeededInsert(b, bundles[1..], input);
      assert ([b] + bundles[1..])[1..] == bundles[1..];
    }
  }

  lemma {:induction false} NeededSort(bundles: seq<Bundle>, input: Input)
    ensures NeededCost(Sort(bundles, BundleAtMost), input) == NeededCost(bundles, input)
  {
    hide Needed;
    if bundles != [] {
      NeededSort(bundles[1..], input);
      NeededInsert(bundles[0], Sort(bundles[1..], BundleAtMost), input);
    }
  }

  lemma {:induction false} NeededFilter(bundles: seq<Bundle>, input: Input)
    ensures NeededCost(Filter(bundles, input.graph, true), input) == NeededCost(bundles, input)
  {
    hide IsNeverOmit, IsUntrusted;
    if bundles != [] { NeededFilter(bundles[1..], input); }
  }

  lemma {:induction false} NeededNonNegative(bundles: seq<Bundle>, input: Input)
    requires CostsNonNegative(input)
    ensures NeededCost(bundles, input) >= 0
  {
    hide Needed;
    if bundles != [] { NeededNonNegative(bundles[1..], input); }
  }

  lemma {:induction false} MandatoryOverflows(mandatory: seq<Bundle>, p: Progress, input: Input)
    requires CostsNonNegative(input) && p.used <= input.tokenBudget
    requires forall b :: b in mandatory ==> IsNeverOmit(b, input.graph)
    ensures MandatoryPass(mandatory, p, input).Full? <==> p.used + NeededCost(mandatory, input) > input.tokenBudget
    decreases |mandatory|
  {
    hide IsNeverOmit, IsUntrusted;
    if mandatory != [] {
      var b, rest := mandatory[0], mandatory[1..];
      assert b in mandatory;
      NeededNonNegative(rest, input);
      if IsUntrusted(b, input.graph) {
        MandatoryOverflows(rest, Skip(b, Untrusted, p), input);
      } else if Fits(b, p, input) {
        MandatoryOverflows(rest, Take(b, p, input), input);
      }
    }
  }

  /** Selection reports a capacity problem exactly when the trusted never-omit bundles together exceed the budget. */
  lemma CapacityExactly(input: Input)
    requires CostsNonNegative(input) && input.tokenBudget >= 0
    ensures Select(input).Capacity? <==> NeededCost(input.bundles, input) > input.tokenBudget
  {
    hide IsNeverOmit, IsUntrusted, Filter, Sort, MandatoryPass, GreedyPass, Unseen, NeededCost;
    var ordered := Sort(input.bundles, BundleAtMost);
    var must := Filter(ordered, input.graph, true);
    forall b | b in must ensures IsNeverOmit(b, input.graph) { FilterMembers(ordered, input.graph, true, b); }
    MandatoryOverflows(must, Progress([], [], 0), input);
    NeededFilter(ordered, input);
    NeededSort(input.bundles, input);
  }

  datatype Gate = Waiting | CriticalOmission | Dispatched(bundles: seq<Bundle>)

  /** Selection followed by the two early returns of the compiler. */
  function CompileGate(input: Input): Gate {
    match Select(input)
    case Capacity(_) => Waiting
    case Selected(bundles, omitted) =>
      if CriticalOmissions(omitted, input.bundles, input.graph) != [] then CriticalOmission else Dispatched(bundles)
  }

  /** Compilation goes on exactly when every never-omit candidate is trusted and together they fit,
      and then all of them are in what is dispatched. */
  lemma DispatchedExactly(input: Input)
    requires CostsNonNegative(input) && input.tokenBudget >= 0
    ensures CompileGate(input).Dispatched? <==>
            (forall b :: b in input.bundles && IsNeverOmit(b, input.graph) ==> !IsUntrusted(b, input.graph))
            && NeededCost(input.bundles, input) <= input.tokenBudget
    ensures CompileGate(input).Dispatched? ==>
              AllNeverOmitsChosen(CompileGate(input).bundles, input.bundles, input.graph)
  {
    CapacityExactly(input);
    if Select(input).Selected? {
      GatePassesExactly(input);
      SelectionFits(input);
      TrustedAreChosen(input);
    }
    hide Select, IsNeverOmit, IsUntrusted, CriticalOmissions, NeededCost, TotalCost;
  }

  lemma TrustedAreChosen(input: Input)
    requires Select(input).Selected?
    ensures forall b :: b in input.bundles && Needed(b, input.graph) ==> b in Select(input).bundles
  {
    FinalState(input);
    var p :| Select(input) == Finish(p) && Settled(p, InputSet(input), input);
    FinishSelected(p);
    hide Select, IsUntrusted, IsNeverOmit, IsDuplicateOf, Gain, TotalCost, Finish, Left;
    forall b | b in input.bundles && Needed(b, input.graph) ensures b in p.selected { assert b in InputSet(input); }
  }
}
