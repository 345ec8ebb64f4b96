/** What the profile compiler makes of a composition: the whole rewriting as a
    function, and what holds of every composition. */
module ProfileCompose {
  import opened Digraph
  import opened Workflow
  import opened ProfileGraph
  import DagEngine

  /** `fragment` and `secondary` stand for the catalogue's node lists, whatever they are. */
  datatype Composition = Composition(
    intent: string,
    fragment: seq<Node>,
    secondary: seq<(string, seq<Node>)>,
    overlays: seq<Overlay>,
    packs: seq<string>,
    delivery: Delivery,
    budget: Budget)

  datatype Failure = CycleFound | TooManyNodes

  datatype Compiled = Compiled(
    nodes: seq<Node>,
    provenance: map<string, NodeProvenance>,
    deferredGates: seq<string>,
    forbiddenActions: seq<string>)

  datatype Result = Ok(profile: Compiled) | Error(failure: Failure)

  /** Each `dependsOn` filtered to ids that are nodes. */
  function Resolved(nodes: seq<Node>, ids: set<string>): seq<Node> {
    if nodes == [] then []
    else [nodes[0].(dependsOn := Restrict(nodes[0].dependsOn, ids))] + Resolved(nodes[1..], ids)
  }

  lemma {:induction false} ResolvedAt(nodes: seq<Node>, ids: set<string>)
    ensures |Resolved(nodes, ids)| == |nodes|
    ensures forall i :: 0 <= i < |nodes| ==>
              Resolved(nodes, ids)[i] == nodes[i].(dependsOn := Restrict(nodes[i].dependsOn, ids))
  {
    if nodes != [] { ResolvedAt(nodes[1..], ids); }
  }

  ghost predicate DependenciesResolve(nodes: seq<Node>) {
    forall n, d :: n in nodes && d in n.dependsOn ==> Has(nodes, d)
  }

  lemma ResolvedKeeps(nodes: seq<Node>)
    requires UniqueIds(nodes)
    ensures UniqueIds(Resolved(nodes, Ids(nodes))) && DependenciesResolve(Resolved(nodes, Ids(nodes)))
    ensures forall id :: Has(Resolved(nodes, Ids(nodes)), id) <==> Has(nodes, id)
    ensures Descends(Resolved(nodes, Ids(nodes)), nodes)
  {
    var r := Resolved(nodes, Ids(nodes));
    ResolvedAt(nodes, Ids(nodes));
    HasIsIds(nodes);
    HasIsIds(r);
    assert forall i :: 0 <= i < |nodes| ==> r[i].id == nodes[i].id;
    assert Ids(r) == Ids(nodes);
    forall n, d | n in r && d in n.dependsOn ensures Has(r, d) {
      var i :| 0 <= i < |r| && r[i] == n;
      RestrictMembers(nodes[i].dependsOn, Ids(nodes), d);
    }
    forall n | n in r ensures exists m :: m in nodes && SameKind(n, m) {
      var i :| 0 <= i < |r| && r[i] == n;
      assert nodes[i] in nodes && SameKind(n, nodes[i]);
    }
  }

  lemma ResolvedAcyclic(nodes: seq<Node>)
    requires UniqueIds(nodes) && Acyclic(nodes)
    ensures Acyclic(Resolved(nodes, Ids(nodes)))
  {
    var r := Resolved(nodes, Ids(nodes));
    var g, h := DependencyGraph(nodes), DependencyGraph(r);
    ResolvedAt(nodes, Ids(nodes));
    forall v, w | Edge(h, v, w) ensures Edge(g, v, w) {
      var i := DependencyMapSource(r, v);
      RestrictMembers(nodes[i].dependsOn, Ids(nodes), w);
      DagEngine.DependencyEdge(nodes, nodes[i], w);
    }
    forall p | IsCycle(p, h) ensures IsCycle(p, g) {
    }
  }

  /** What every returned profile satisfies. */
  ghost predicate Sound(p: Compiled) {
    && UniqueIds(p.nodes)
    && (forall id :: id in p.provenance <==> Has(p.nodes, id))
    && DependenciesResolve(p.nodes)
    && Acyclic(p.nodes)
    && |p.nodes| <= MAX_NODES
  }

  // ---------- the rewriting as a function ----------

  /** What the graph under construction holds. */
  datatype Draft = Draft(
    nodes: seq<Node>, provenance: map<string, NodeProvenance>, deferredGates: seq<string>, forbiddenActions: seq<string>)

  const EMPTY_DRAFT := Draft([], map[], [], [])

  function Credited(d: Draft, id: string, source: NodeProvenance): map<string, NodeProvenance> {
    if Has(d.nodes, id) then d.provenance else d.provenance[id := source]
  }

  function WithNode(d: Draft, node: Node, source: NodeProvenance): Draft {
    d.(nodes := Added(d.nodes, node), provenance := Credited(d, node.id, source))
  }

  function WithAttached(d: Draft, node: Node, source: NodeProvenance): Draft {
    d.(nodes := Attached(d.nodes, node), provenance := Credited(d, node.id, source))
  }

  function WithoutNode(d: Draft, id: string): Draft {
    d.(nodes := Removed(d.nodes, id), provenance := d.provenance - {id})
  }

  function WithAll(d: Draft, nodes: seq<Node>, source: NodeProvenance): Draft
    decreases |nodes|
  {
    if nodes == [] then d else WithAll(WithNode(d, nodes[0], source), nodes[1..], source)
  }

  function WithSecondary(d: Draft, secondary: seq<(string, seq<Node>)>): Draft
    decreases |secondary|
  {
    if secondary == [] then d
    else WithSecondary(WithAll(d, secondary[0].1, NodeProvenance("secondary", secondary[0].0)), secondary[1..])
  }

  /** The doomed nodes of a list, removed one by one. */
  function Cleared(d: Draft, snapshot: seq<Node>, doomed: Node -> bool): Draft
    decreases |snapshot|
  {
    if snapshot == [] then d
    else Cleared(if doomed(snapshot[0]) then WithoutNode(d, snapshot[0].id) else d, snapshot[1..], doomed)
  }

  function Trimmed(d: Draft, ids: seq<string>): Draft
    decreases |ids|
  {
    if ids == [] then d
    else Trimmed(if NodeById(d.nodes, ids[0]).Some? then WithoutNode(d, ids[0]) else d, ids[1..])
  }

  function Deferred(d: Draft, operation: string): Draft {
    var first := FirstWithOperation(d.nodes, operation);
    if first.None? then d
    else WithoutNode(d, first.value.id).(deferredGates := d.deferredGates + [operation])
  }

  function DeferredSpec(d: Draft): Draft {
    if "SPEC_CONSISTENCY" in d.deferredGates then d
    else d.(deferredGates := d.deferredGates + ["SPEC_CONSISTENCY"])
  }

  function OverlaidNodes(d: Draft, overlay: Overlay): Draft {
    var source := NodeProvenance("overlay", OverlayName(overlay));
    var extra, gate := OverlayExtra(overlay, d.nodes), OverlayGate(overlay);
    var middle := if extra.Some? then WithNode(d, extra.value, source) else d;
    if gate.Some? then WithAttached(middle, gate.value, source) else middle
  }

  function Overlaid(d: Draft, overlay: Overlay): Draft {
    if overlay == Emergency then DeferredSpec(Deferred(Deferred(d, "SPEC_CONSISTENCY"), "BEHAVIORAL_EQUIVALENCE"))
    else
      var e := OverlaidNodes(d, overlay);
      if overlay == Destructive
      then e.(forbiddenActions := Unique(e.forbiddenActions + ["apply-without-authorization"])) else e
  }

  function OverlaidAll(d: Draft, overlays: seq<Overlay>): Draft
    decreases |overlays|
  {
    if overlays == [] then d else OverlaidAll(Overlaid(d, overlays[0]), overlays[1..])
  }

  const VERIFICATION := WorkflowNode("verification", "", "VERIFICATION", ["implementer"], "")

  function Packed(d: Draft, packs: seq<string>): Draft {
    if packs != [] && NodeById(d.nodes, "verification").None? && NodeById(d.nodes, "implementer").Some?
    then WithNode(d, VERIFICATION, NodeProvenance("pack", packs[0])) else d
  }

  function RollbackEvidence(nodes: seq<Node>): Node {
    WorkflowNode("rollback-evidence", "", "ROLLBACK_EVIDENCE",
                 Restrict(["recovery-verification", "verification"], Ids(nodes)), "")
  }

  function Delivered(d: Draft, mode: Delivery): Draft {
    var e := d.(forbiddenActions := Forbidden(d.forbiddenActions, mode));
    match mode
    case AnalysisOnly => Cleared(e, d.nodes, IsWriter)
    case Runbook => Cleared(e, d.nodes, Implements)
    case MitigationPatch =>
      WithAttached(DeferredSpec(e), RollbackEvidence(d.nodes), NodeProvenance("delivery", "mitigation-patch"))
    case _ => e
  }

  const INVESTIGATOR := WorkflowNode("investigator", "investigator", "", ["analyst"], "read")

  const PLAN_CRITIC := WorkflowNode("plan-critic", "architecture-reviewer", "", ["planner"], "review")

  function OneInvestigator(d: Draft): Draft {
    var source := InvestigatorSource(d.nodes);
    if source.Some? && source.value.id != "investigator" then
      WithNode(WithoutNode(d, source.value.id), source.value.(id := "investigator", dependsOn := ["analyst"]),
               NodeProvenance("budget", "fast"))
    else if NodeById(d.nodes, "investigator").None? && NodeById(d.nodes, "analyst").Some? then
      WithNode(d, INVESTIGATOR, NodeProvenance("budget", "fast"))
    else d
  }

  function Direct(d: Draft): Draft {
    if NodeById(d.nodes, "implementer").Some?
    then d.(nodes := Redirected(d.nodes, "implementer", ["investigator"])) else d
  }

  function Budgeted(d: Draft, budget: Budget): Draft {
    match budget
    case Standard => d
    case Thorough =>
      if NodeById(d.nodes, "planner").Some? && NodeById(d.nodes, "plan-critic").None?
      then WithNode(d, PLAN_CRITIC, NodeProvenance("budget", "thorough")) else d
    case Fast =>
      var one := OneInvestigator(Trimmed(d, FAST_DROPS));
      Direct(Cleared(one, one.nodes, IsOtherInvestigator))
  }

  /** The proposed nodes, and the risk overlays on top of them. */
  function Planned(input: Composition): Draft {
    OverlaidAll(WithSecondary(WithAll(EMPTY_DRAFT, input.fragment, NodeProvenance("intent", input.intent)), input.secondary),
                input.overlays)
  }

  /** The graph a composition is compiled to, before it is checked. */
  function Composed(input: Composition): Draft {
    Budgeted(Delivered(Packed(Planned(input), input.packs), input.delivery), input.budget)
  }

  ghost function Checked(d: Draft): Result {
    if !Acyclic(d.nodes) then Error(CycleFound)
    else if |d.nodes| > MAX_NODES then Error(TooManyNodes)
    else Ok(Compiled(Resolved(d.nodes, Ids(d.nodes)), d.provenance, Unique(d.deferredGates), Unique(d.forbiddenActions)))
  }

  /** Clearing does not look at the forbidden actions. */
  lemma {:induction false} ClearedLast(d: Draft, snapshot: seq<Node>, doomed: Node -> bool, actions: seq<string>)
    ensures Cleared(d.(forbiddenActions := actions), snapshot, doomed) ==
            Cleared(d, snapshot, doomed).(forbiddenActions := actions)
    decreases |snapshot|
  {
    if snapshot != [] {
      hide Removed;
      ClearedLast(if doomed(snapshot[0]) then WithoutNode(d, snapshot[0].id) else d, snapshot[1..], doomed, actions);
    }
  }

  // ---------- what every composition keeps ----------

  /** Nothing the composition asks for takes a node of this kind away. */
  predicate Spared(n: Node, input: Composition) {
    && !(Emergency in input.overlays && DeferrableOperation(n.operation))
    && !(input.delivery == AnalysisOnly && IsWriter(n))
    && !(input.delivery == Runbook && n.role == "implementer")
    && !(input.budget == Fast && (n.id in FAST_DROPS || n.id == "code-investigator" || n.role == "investigator"))
  }

  ghost predicate OnlySpared(nodes: seq<Node>, id: string, input: Composition) {
    forall n :: n in nodes && n.id == id ==> Spared(n, input)
  }

  ghost predicate WellKept(d: Draft) {
    UniqueIds(d.nodes) && forall id :: id in d.provenance <==> Has(d.nodes, id)
  }

  /** A spared id stays with its provenance, and before acceptance if it was. */
  ghost predicate Stays(d: Draft, e: Draft, id: string, input: Composition) {
    Has(d.nodes, id) && OnlySpared(d.nodes, id, input) ==>
      && Has(e.nodes, id) && OnlySpared(e.nodes, id, input)
      && (id in d.provenance ==> id in e.provenance && e.provenance[id] == d.provenance[id])
  }

  ghost predicate StaysGate(d: Draft, e: Draft, id: string, input: Composition) {
    Has(d.nodes, id) && OnlySpared(d.nodes, id, input) && AcceptanceWaits(d.nodes, id) ==> AcceptanceWaits(e.nodes, id)
  }

  /** What one step keeps. */
  ghost predicate Carried(d: Draft, e: Draft, id: string, input: Composition) {
    WellKept(e) && Stays(d, e, id, input) && StaysGate(d, e, id, input)
  }

  lemma SparedKind(a: Node, b: Node, input: Composition)
    requires SameKind(a, b)
    ensures Spared(a, input) == Spared(b, input)
  {
  }

  lemma DescendsSpared(after: seq<Node>, before: seq<Node>, id: string, input: Composition)
    requires Descends(after, before) && OnlySpared(before, id, input)
    ensures OnlySpared(after, id, input)
  {
    hide Spared;
    forall n | n in after && n.id == id ensures Spared(n, input) {
      var m :| m in before && SameKind(n, m);
      SparedKind(n, m, input);
    }
  }

  lemma CarriedOn(d: Draft, e: Draft, f: Draft, id: string, input: Composition)
    requires Carried(d, e, id, input) && Carried(e, f, id, input)
    ensures Carried(d, f, id, input)
  {
    hide OnlySpared, Has, AcceptanceWaits, UniqueIds;
  }

  lemma {:induction false} AddedWaits(nodes: seq<Node>, node: Node, id: string)
    requires AcceptanceWaits(nodes, id) && node.id != "acceptance"
    ensures AcceptanceWaits(Added(nodes, node), id)
  {
    if nodes != [] {
      assert nodes[0] in nodes && forall n :: n in nodes[1..] ==> n in nodes;
      if nodes[0].id != node.id { AddedWaits(nodes[1..], node, id); }
    }
  }

  lemma {:induction false} RemovedWaits(nodes: seq<Node>, gone: string, id: string)
    requires AcceptanceWaits(nodes, id) && id != gone
    ensures AcceptanceWaits(Removed(nodes, gone), id)
  {
    if nodes != [] {
      assert nodes[0] in nodes && forall n :: n in nodes[1..] ==> n in nodes;
      RemovedWaits(nodes[1..], gone, id);
      DropMembers(nodes[0].dependsOn, gone, id);
    }
  }

  lemma {:induction false} RedirectedWaits(nodes: seq<Node>, target: string, deps: seq<string>, id: string)
    requires AcceptanceWaits(nodes, id) && (target == "acceptance" ==> id in deps)
    ensures AcceptanceWaits(Redirected(nodes, target, deps), id)
  {
    if nodes != [] {
      assert nodes[0] in nodes && forall n :: n in nodes[1..] ==> n in nodes;
      if nodes[0].id != target { RedirectedWaits(nodes[1..], target, deps, id); }
    }
  }

  lemma AttachedWaits(nodes: seq<Node>, node: Node, id: string)
    requires AcceptanceWaits(nodes, id) && node.id != "acceptance"
    ensures AcceptanceWaits(Attached(nodes, node), id)
  {
    var added := Added(nodes, node.(dependsOn := AttachedDependencies(nodes, node)));
    AddedWaits(nodes, node.(dependsOn := AttachedDependencies(nodes, node)), id);
    hide Added;
    var a := NodeById(added, "acceptance");
    if a.Some? {
      DagEngine.NodeOfMember(added, "acceptance");
      var deps := Unique(a.value.dependsOn + [node.id]);
      UniqueMembers(a.value.dependsOn + [node.id], id);
      RedirectedWaits(added, "acceptance", deps, id);
    }
  }

  /** Adding a node leaves the kind of a known id as it is. */
  lemma {:induction false} AddedSpared(nodes: seq<Node>, node: Node, id: string, input: Composition)
    requires OnlySpared(nodes, id, input) && (node.id == id && !Has(nodes, id) ==> Spared(node, input))
    ensures OnlySpared(Added(nodes, node), id, input)
  {
    hide Spared;
    if nodes != [] {
      assert nodes[0] in nodes && forall n :: n in nodes[1..] ==> n in nodes;
      if nodes[0].id == node.id {
        SparedKind(Merged(nodes[0], node), nodes[0], input);
      } else {
        AddedSpared(nodes[1..], node, id, input);
      }
    }
  }

  lemma AttachedSpared(nodes: seq<Node>, node: Node, id: string, input: Composition)
    requires OnlySpared(nodes, id, input) && (node.id == id && !Has(nodes, id) ==> Spared(node, input))
    ensures OnlySpared(Attached(nodes, node), id, input)
  {
    var n := node.(dependsOn := AttachedDependencies(nodes, node));
    SparedKind(n, node, input);
    AddedSpared(nodes, n, id, input);
    var added := Added(nodes, n);
    hide Added, Spared, OnlySpared;
    var a := NodeById(added, "acceptance");
    if a.Some? {
      var deps := Unique(a.value.dependsOn + [node.id]);
      RedirectedKeeps(added, "acceptance", deps);
      DescendsSpared(Redirected(added, "acceptance", deps), added, id, input);
    }
  }

  lemma WithNodeCarries(d: Draft, node: Node, source: NodeProvenance, id: string, input: Composition)
    requires WellKept(d)
    ensures WellKept(WithNode(d, node, source)) && Stays(d, WithNode(d, node, source), id, input)
    ensures node.id != "acceptance" ==> Carried(d, WithNode(d, node, source), id, input)
    ensures OnlySpared(d.nodes, id, input) && (node.id == id ==> Spared(node, input)) ==>
              OnlySpared(WithNode(d, node, source).nodes, id, input)
    ensures forall x :: Has(WithNode(d, node, source).nodes, x) <==> Has(d.nodes, x) || x == node.id
  {
    hide Added, Spared, AcceptanceWaits, UniqueIds, Has, OnlySpared;
    AddedKeeps(d.nodes, node);
    if OnlySpared(d.nodes, id, input) && (node.id == id && !Has(d.nodes, id) ==> Spared(node, input)) {
      AddedSpared(d.nodes, node, id, input);
    }
    if AcceptanceWaits(d.nodes, id) && node.id != "acceptance" { AddedWaits(d.nodes, node, id); }
  }

  lemma WithAttachedCarries(d: Draft, node: Node, source: NodeProvenance, id: string, input: Composition)
    requires WellKept(d) && node.id != "acceptance"
    ensures Carried(d, WithAttached(d, node, source), id, input)
    ensures AcceptanceWaits(WithAttached(d, node, source).nodes, node.id)
    ensures OnlySpared(d.nodes, id, input) && (node.id == id ==> Spared(node, input)) ==>
              OnlySpared(WithAttached(d, node, source).nodes, id, input)
    ensures forall x :: Has(WithAttached(d, node, source).nodes, x) <==> Has(d.nodes, x) || x == node.id
  {
    hide Attached, Spared, AcceptanceWaits, UniqueIds, Has, OnlySpared;
    AttachedKeeps(d.nodes, node);
    AttachedPrecedes(d.nodes, node);
    if OnlySpared(d.nodes, id, input) && (node.id == id && !Has(d.nodes, id) ==> Spared(node, input)) {
      AttachedSpared(d.nodes, node, id, input);
    }
    if AcceptanceWaits(d.nodes, id) { AttachedWaits(d.nodes, node, id); }
  }

  lemma WithoutNodeCarries(d: Draft, gone: string, id: string, input: Composition)
    requires WellKept(d) && (OnlySpared(d.nodes, id, input) && Has(d.nodes, id) ==> id != gone)
    ensures Carried(d, WithoutNode(d, gone), id, input) && Descends(WithoutNode(d, gone).nodes, d.nodes)
    ensures OnlySpared(d.nodes, id, input) ==> OnlySpared(WithoutNode(d, gone).nodes, id, input)
    ensures forall x :: Has(WithoutNode(d, gone).nodes, x) <==> Has(d.nodes, x) && x != gone
  {
    hide Removed, Spared, AcceptanceWaits, UniqueIds, Has, OnlySpared, Descends;
    RemovedKeeps(d.nodes, gone);
    if OnlySpared(d.nodes, id, input) { DescendsSpared(Removed(d.nodes, gone), d.nodes, id, input); }
    if AcceptanceWaits(d.nodes, id) && id != gone { RemovedWaits(d.nodes, gone, id); }
  }

  // ---------- the proposed nodes ----------

  lemma {:induction false} WithAllCarries(d: Draft, nodes: seq<Node>, source: NodeProvenance, id: string, input: Composition)
    requires WellKept(d)
    ensures var e := WithAll(d, nodes, source);
      && WellKept(e) && Stays(d, e, id, input)
      && (OnlySpared(d.nodes, id, input) && OnlySpared(nodes, id, input) ==> OnlySpared(e.nodes, id, input))
      && (Has(e.nodes, id) <==> Has(d.nodes, id) || Has(nodes, id))
      && (Has(d.nodes, id) ==> e.provenance[id] == d.provenance[id])
      && (!Has(d.nodes, id) && Has(nodes, id) ==> e.provenance[id] == source)
    decreases |nodes|
  {
    hide Added, Has, Spared, UniqueIds, OnlySpared;
    if nodes == [] {
      HasNothing(id);
    } else {
      var n, rest := nodes[0], nodes[1..];
      assert nodes == [n] + rest;
      HasCons(n, rest);
      SparedCons(n, rest, id, input);
      WithNodeCarries(d, n, source, id, input);
      WithAllCarries(WithNode(d, n, source), rest, source, id, input);
    }
  }

  lemma SparedCons(n: Node, rest: seq<Node>, id: string, input: Composition)
    ensures OnlySpared([n] + rest, id, input) <==> OnlySpared(rest, id, input) && (n.id == id ==> Spared(n, input))
  {
    hide Spared;
    assert forall m :: m in [n] + rest <==> m == n || m in rest;
  }

  lemma HasNothing(id: string)
    ensures !Has([], id)
  {
  }

  ghost predicate SecondaryHas(secondary: seq<(string, seq<Node>)>, id: string) {
    exists s :: s in secondary && Has(s.1, id)
  }

  ghost predicate SecondarySpared(secondary: seq<(string, seq<Node>)>, id: string, input: Composition) {
    forall s :: s in secondary ==> OnlySpared(s.1, id, input)
  }

  lemma {:induction false} WithSecondaryCarries(d: Draft, secondary: seq<(string, seq<Node>)>, id: string, input: Composition)
    requires WellKept(d)
    ensures var e := WithSecondary(d, secondary);
      && WellKept(e) && Stays(d, e, id, input)
      && (OnlySpared(d.nodes, id, input) && SecondarySpared(secondary, id, input) ==> OnlySpared(e.nodes, id, input))
      && (Has(e.nodes, id) <==> Has(d.nodes, id) || SecondaryHas(secondary, id))
    decreases |secondary|
  {
    if secondary != [] {
      var s, rest := secondary[0], secondary[1..];
      assert secondary == [s] + rest && s in secondary;
      assert forall x :: x in rest ==> x in secondary;
      var source := NodeProvenance("secondary", s.0);
      WithAllCarries(d, s.1, source, id, input);
      WithSecondaryCarries(WithAll(d, s.1, source), rest, id, input);
      hide Has, OnlySpared, UniqueIds, WithAll;
      assert SecondaryHas(secondary, id) <==> Has(s.1, id) || SecondaryHas(rest, id);
    }
  }

  // ---------- the overlays ----------

  /** The nodes an overlay proposes, up to their dependencies. */
  ghost function OverlayNodes(o: Overlay): seq<Node> {
    (if OverlayExtra(o, []).Some? then [OverlayExtra(o, []).value] else []) +
    (if OverlayGate(o).Some? then [OverlayGate(o).value] else [])
  }

  lemma ExtraKind(o: Overlay, nodes: seq<Node>)
    ensures OverlayExtra(o, nodes).Some? == OverlayExtra(o, []).Some?
    ensures OverlayExtra(o, nodes).Some? ==> SameKind(OverlayExtra(o, nodes).value, OverlayExtra(o, []).value)
    ensures OverlayExtra(o, nodes).Some? ==> OverlayExtra(o, nodes).value.id != "acceptance"
    ensures OverlayGate(o).Some? ==> OverlayGate(o).value.id != "acceptance"
  {
    hide NodeById;
  }

  /** The overlay's nodes, one after the other. */
  lemma OverlayNodesAre(o: Overlay, nodes: seq<Node>, id: string, input: Composition)
    ensures var x, g := OverlayExtra(o, nodes), OverlayGate(o);
      && (Has(OverlayNodes(o), id) <==> (x.Some? && x.value.id == id) || (g.Some? && g.value.id == id))
      && (OnlySpared(OverlayNodes(o), id, input) <==>
            (x.Some? && x.value.id == id ==> Spared(x.value, input)) && (g.Some? && g.value.id == id ==> Spared(g.value, input)))
  {
    ExtraKind(o, nodes);
    var x, y, g := OverlayExtra(o, nodes), OverlayExtra(o, []), OverlayGate(o);
    if x.Some? { SparedKind(x.value, y.value, input); }
    var all := OverlayNodes(o);
    assert y.Some? ==> all[0] == y.value;
    assert g.Some? ==> all[|all| - 1] == g.value;
    hide OverlayExtra, OverlayGate, Spared;
    assert forall n :: n in all <==> (y.Some? && n == y.value) || (g.Some? && n == g.value);
  }

  lemma OverlaidNodesCarries(d: Draft, o: Overlay, id: string, input: Composition)
    requires WellKept(d)
    ensures var e := OverlaidNodes(d, o);
      && Carried(d, e, id, input)
      && (OnlySpared(d.nodes, id, input) && OnlySpared(OverlayNodes(o), id, input) ==> OnlySpared(e.nodes, id, input))
      && (Has(e.nodes, id) <==> Has(d.nodes, id) || Has(OverlayNodes(o), id))
      && (OverlayGate(o).Some? ==> AcceptanceWaits(e.nodes, OverlayGate(o).value.id))
  {
    ExtraKind(o, d.nodes);
    OverlayNodesAre(o, d.nodes, id, input);
    var source := NodeProvenance("overlay", OverlayName(o));
    var extra, gate := OverlayExtra(o, d.nodes), OverlayGate(o);
    hide OverlayExtra, OverlayGate, OverlayName, OverlayNodes, Added, Attached, Spared, OnlySpared, Has, UniqueIds, AcceptanceWaits;
    var middle := if extra.Some? then WithNode(d, extra.value, source) else d;
    if extra.Some? { WithNodeCarries(d, extra.value, source, id, input); }
    if gate.Some? { WithAttachedCarries(middle, gate.value, source, id, input); }
  }

  lemma DeferredCarries(d: Draft, operation: string, id: string, input: Composition)
    requires WellKept(d) && Emergency in input.overlays && DeferrableOperation(operation)
    ensures Carried(d, Deferred(d, operation), id, input)
    ensures OnlySpared(d.nodes, id, input) ==> OnlySpared(Deferred(d, operation).nodes, id, input)
    ensures Has(Deferred(d, operation).nodes, id) ==> Has(d.nodes, id)
  {
    var first := FirstWithOperation(d.nodes, operation);
    FirstOperation(d.nodes, operation);
    if first.Some? { WithoutNodeCarries(d, first.value.id, id, input); }
  }

  lemma OverlaidCarries(d: Draft, o: Overlay, id: string, input: Composition)
    requires WellKept(d) && o in input.overlays
    ensures var e := Overlaid(d, o);
      && Carried(d, e, id, input)
      && (OnlySpared(d.nodes, id, input) && OnlySpared(OverlayNodes(o), id, input) ==> OnlySpared(e.nodes, id, input))
      && (Has(e.nodes, id) ==> Has(d.nodes, id) || Has(OverlayNodes(o), id))
      && (Has(OverlayNodes(o), id) ==> Has(e.nodes, id))
      && (OverlayGate(o).Some? ==> AcceptanceWaits(e.nodes, OverlayGate(o).value.id))
  {
    hide Deferred, OverlaidNodes, Spared, OnlySpared, Has, UniqueIds, AcceptanceWaits;
    if o == Emergency {
      var middle := Deferred(d, "SPEC_CONSISTENCY");
      DeferredCarries(d, "SPEC_CONSISTENCY", id, input);
      DeferredCarries(middle, "BEHAVIORAL_EQUIVALENCE", id, input);
      HasNothing(id);
      assert OverlayNodes(o) == [];
    } else {
      OverlaidNodesCarries(d, o, id, input);
    }
  }

  ghost predicate OverlaysHave(overlays: seq<Overlay>, id: string) {
    exists o :: o in overlays && Has(OverlayNodes(o), id)
  }

  ghost predicate OverlaysSpared(overlays: seq<Overlay>, id: string, input: Composition) {
    forall o :: o in overlays ==> OnlySpared(OverlayNodes(o), id, input)
  }

  ghost predicate IsGate(overlays: seq<Overlay>, id: string) {
    exists o :: o in overlays && OverlayGate(o).Some? && OverlayGate(o).value.id == id
  }

  lemma {:induction false} OverlaidAllCarries(d: Draft, overlays: seq<Overlay>, id: string, input: Composition)
    requires WellKept(d) && (forall o :: o in overlays ==> o in input.overlays)
    requires OverlaysSpared(overlays, id, input) && OnlySpared(d.nodes, id, input)
    ensures var e := OverlaidAll(d, overlays);
      && Carried(d, e, id, input) && OnlySpared(e.nodes, id, input)
      && (OverlaysHave(overlays, id) ==> Has(e.nodes, id))
      && (IsGate(overlays, id) ==> AcceptanceWaits(e.nodes, id))
    decreases |overlays|
  {
    if overlays != [] {
      var o, rest := overlays[0], overlays[1..];
      assert overlays == [o] + rest && o in overlays;
      assert forall x :: x in rest ==> x in overlays;
      var middle := Overlaid(d, o);
      OverlaidCarries(d, o, id, input);
      OverlaidAllCarries(middle, rest, id, input);
      CarriedOn(d, middle, OverlaidAll(middle, rest), id, input);
      GateIsNode(o, id);
      hide Overlaid, OverlayGate, OverlayNodes, OnlySpared, Has, UniqueIds, AcceptanceWaits;
      assert OverlaysHave(overlays, id) <==> Has(OverlayNodes(o), id) || OverlaysHave(rest, id);
      assert IsGate(overlays, id) <==> (OverlayGate(o).Some? && OverlayGate(o).value.id == id) || IsGate(rest, id);
    }
  }

  lemma GateIsNode(o: Overlay, id: string)
    ensures OverlayGate(o).Some? && OverlayGate(o).value.id == id ==> Has(OverlayNodes(o), id)
  {
    hide OverlayExtra, OverlayGate;
    var all := OverlayNodes(o);
    if OverlayGate(o).Some? { assert OverlayGate(o).value in all; }
  }

  // ---------- packs, delivery and budget ----------

  lemma PackedCarries(d: Draft, packs: seq<string>, id: string, input: Composition)
    requires WellKept(d)
    ensures Carried(d, Packed(d, packs), id, input)
    ensures Has(Packed(d, packs).nodes, id) ==> Has(d.nodes, id) || (packs != [] && id == "verification")
  {
    hide NodeById, Has, OnlySpared, UniqueIds, AcceptanceWaits, Added;
    if packs != [] { WithNodeCarries(d, VERIFICATION, NodeProvenance("pack", packs[0]), id, input); }
  }

  ghost predicate Matches(nodes: seq<Node>, snapshot: seq<Node>) {
    forall n, m :: n in nodes && m in snapshot && n.id == m.id ==> SameKind(n, m)
  }

  lemma MatchesItself(nodes: seq<Node>)
    requires UniqueIds(nodes)
    ensures Matches(nodes, nodes)
  {
    forall n, m | n in nodes && m in nodes && n.id == m.id ensures SameKind(n, m) {
      FoundOnce(nodes, n.id, n);
      FoundOnce(nodes, n.id, m);
    }
  }

  lemma MatchesLess(after: seq<Node>, before: seq<Node>, snapshot: seq<Node>)
    requires Descends(after, before) && Matches(before, snapshot) && snapshot != []
    ensures Matches(after, snapshot[1..])
  {
    forall n, m | n in after && m in snapshot[1..] && n.id == m.id ensures SameKind(n, m) {
      var b :| b in before && SameKind(n, b);
      assert m in snapshot;
      assert SameKind(b, m);
    }
  }

  /** The id of a doomed node is not a spared one. */
  lemma DoomedNotSpared(nodes: seq<Node>, m: Node, id: string, input: Composition)
    requires !Spared(m, input) && forall n :: n in nodes && n.id == m.id ==> SameKind(n, m)
    ensures OnlySpared(nodes, id, input) && Has(nodes, id) ==> id != m.id
  {
    if id == m.id && Has(nodes, id) {
      var n :| n in nodes && n.id == id;
      SparedKind(n, m, input);
      hide Spared;
      assert !Spared(n, input);
    }
  }

  lemma ClearStep(d: Draft, snapshot: seq<Node>, doomed: Node -> bool, id: string, input: Composition)
    requires WellKept(d) && Matches(d.nodes, snapshot) && snapshot != [] && (doomed(snapshot[0]) ==> !Spared(snapshot[0], input))
    ensures var e := if doomed(snapshot[0]) then WithoutNode(d, snapshot[0].id) else d;
      Carried(d, e, id, input) && Matches(e.nodes, snapshot[1..]) && (Has(e.nodes, id) ==> Has(d.nodes, id))
  {
    hide Spared, UniqueIds, AcceptanceWaits, Removed;
    var m := snapshot[0];
    DescendsSelf(d.nodes);
    if doomed(m) {
      DoomedNotSpared(d.nodes, m, id, input);
      WithoutNodeCarries(d, m.id, id, input);
      MatchesLess(WithoutNode(d, m.id).nodes, d.nodes, snapshot);
    } else {
      MatchesLess(d.nodes, d.nodes, snapshot);
    }
  }

  lemma {:induction false} ClearedCarries(d: Draft, snapshot: seq<Node>, doomed: Node -> bool, id: string, input: Composition)
    requires WellKept(d) && Matches(d.nodes, snapshot) && forall n :: doomed(n) ==> !Spared(n, input)
    ensures Carried(d, Cleared(d, snapshot, doomed), id, input)
    ensures Has(Cleared(d, snapshot, doomed).nodes, id) ==> Has(d.nodes, id)
    decreases |snapshot|
  {
    hide Spared, UniqueIds, AcceptanceWaits, Removed, Matches, OnlySpared, Has, WithoutNode;
    if snapshot != [] {
      ClearStep(d, snapshot, doomed, id, input);
      var e := if doomed(snapshot[0]) then WithoutNode(d, snapshot[0].id) else d;
      ClearedCarries(e, snapshot[1..], doomed, id, input);
      CarriedOn(d, e, Cleared(e, snapshot[1..], doomed), id, input);
    }
  }

  lemma DeliveredCarries(d: Draft, id: string, input: Composition)
    requires WellKept(d)
    ensures Carried(d, Delivered(d, input.delivery), id, input)
    ensures Has(Delivered(d, input.delivery).nodes, id) ==>
              Has(d.nodes, id) || (input.delivery == MitigationPatch && id == "rollback-evidence")
  {
    var e := d.(forbiddenActions := Forbidden(d.forbiddenActions, input.delivery));
    if input.delivery == AnalysisOnly {
      MatchesItself(d.nodes);
      ClearedCarries(e, d.nodes, IsWriter, id, input);
    } else if input.delivery == Runbook {
      MatchesItself(d.nodes);
      ClearedCarries(e, d.nodes, Implements, id, input);
    } else if input.delivery == MitigationPatch {
      hide Restrict, Attached, Has, OnlySpared, UniqueIds, AcceptanceWaits;
      WithAttachedCarries(DeferredSpec(e), RollbackEvidence(d.nodes), NodeProvenance("delivery", "mitigation-patch"), id, input);
    }
  }

  lemma {:induction false} TrimmedCarries(d: Draft, ids: seq<string>, id: string, input: Composition)
    requires WellKept(d) && input.budget == Fast && forall x :: x in ids ==> x in FAST_DROPS
    ensures Carried(d, Trimmed(d, ids), id, input)
    ensures Has(Trimmed(d, ids).nodes, id) ==> Has(d.nodes, id)
    decreases |ids|
  {
    if ids != [] {
      var e := if NodeById(d.nodes, ids[0]).Some? then WithoutNode(d, ids[0]) else d;
      assert ids[0] in ids && forall x :: x in ids[1..] ==> x in ids;
      assert ids[0] in FAST_DROPS;
      WithoutNodeCarries(d, ids[0], id, input);
      hide NodeById, WithoutNode, OnlySpared, Has, UniqueIds, AcceptanceWaits;
      TrimmedCarries(e, ids[1..], id, input);
      CarriedOn(d, e, Trimmed(e, ids[1..]), id, input);
    }
  }

  lemma {:induction false} FirstRole(nodes: seq<Node>, role: string)
    ensures FirstWithRole(nodes, role).Some? ==> FirstWithRole(nodes, role).value.role == role
  {
    if nodes != [] { FirstRole(nodes[1..], role); }
  }

  lemma SourceNotSpared(nodes: seq<Node>, input: Composition)
    requires UniqueIds(nodes) && input.budget == Fast
    ensures var source := InvestigatorSource(nodes);
      source.Some? && source.value.id != "investigator" ==>
        && source.value in nodes && !Spared(source.value, input)
        && forall n :: n in nodes && n.id == source.value.id ==> SameKind(n, source.value)
  {
    SourceIsNode(nodes);
    DagEngine.NodeOfMember(nodes, "code-investigator");
    DagEngine.NodeOfMember(nodes, "investigator");
    FirstRole(nodes, "investigator");
    MatchesItself(nodes);
    hide NodeById, FirstWithRole;
  }

  lemma OneInvestigatorCarries(d: Draft, id: string, input: Composition)
    requires WellKept(d) && input.budget == Fast
    ensures Carried(d, OneInvestigator(d), id, input)
    ensures Has(OneInvestigator(d).nodes, id) ==> Has(d.nodes, id) || id == "investigator"
  {
    var source := InvestigatorSource(d.nodes);
    SourceNotSpared(d.nodes, input);
    var credit := NodeProvenance("budget", "fast");
    if source.Some? && source.value.id != "investigator" {
      DoomedNotSpared(d.nodes, source.value, id, input);
      hide InvestigatorSource, NodeById, Spared, OnlySpared, Has, UniqueIds, AcceptanceWaits, Added, Removed;
      var e := WithoutNode(d, source.value.id);
      WithoutNodeCarries(d, source.value.id, id, input);
      var n := source.value.(id := "investigator", dependsOn := ["analyst"]);
      WithNodeCarries(e, n, credit, id, input);
      CarriedOn(d, e, WithNode(e, n, credit), id, input);
    } else {
      hide InvestigatorSource, NodeById, Spared, OnlySpared, Has, UniqueIds, AcceptanceWaits, Added;
      WithNodeCarries(d, INVESTIGATOR, credit, id, input);
    }
  }

  lemma DirectCarries(d: Draft, id: string, input: Composition)
    requires WellKept(d)
    ensures Carried(d, Direct(d), id, input)
    ensures Has(Direct(d).nodes, id) ==> Has(d.nodes, id)
  {
    RedirectedKeeps(d.nodes, "implementer", ["investigator"]);
    if OnlySpared(d.nodes, id, input) { DescendsSpared(Redirected(d.nodes, "implementer", ["investigator"]), d.nodes, id, input); }
    if AcceptanceWaits(d.nodes, id) { RedirectedWaits(d.nodes, "implementer", ["investigator"], id); }
    hide NodeById, Spared, OnlySpared, Has, UniqueIds, AcceptanceWaits, Redirected;
  }

  lemma FastCarries(d: Draft, id: string, input: Composition)
    requires WellKept(d) && input.budget == Fast
    ensures Carried(d, Budgeted(d, Fast), id, input)
    ensures Has(Budgeted(d, Fast).nodes, id) ==> Has(d.nodes, id) || id == "investigator"
  {
    hide Spared, OnlySpared, Has, UniqueIds, AcceptanceWaits, Trimmed, OneInvestigator, Cleared, Direct;
    var trimmed := Trimmed(d, FAST_DROPS);
    TrimmedCarries(d, FAST_DROPS, id, input);
    var one := OneInvestigator(trimmed);
    OneInvestigatorCarries(trimmed, id, input);
    MatchesItself(one.nodes);
    var cleared := Cleared(one, one.nodes, IsOtherInvestigator);
    OthersNotSpared(input);
    ClearedCarries(one, one.nodes, IsOtherInvestigator, id, input);
    DirectCarries(cleared, id, input);
    CarriedOn(d, trimmed, one, id, input);
    CarriedOn(d, one, cleared, id, input);
    CarriedOn(d, cleared, Direct(cleared), id, input);
  }

  lemma OthersNotSpared(input: Composition)
    requires input.budget == Fast
    ensures forall n :: IsOtherInvestigator(n) ==> !Spared(n, input)
  {
  }

  lemma BudgetedCarries(d: Draft, id: string, input: Composition)
    requires WellKept(d)
    ensures Carried(d, Budgeted(d, input.budget), id, input)
    ensures Has(Budgeted(d, input.budget).nodes, id) ==>
              || Has(d.nodes, id) || (input.budget == Fast && id == "investigator")
              || (input.budget == Thorough && id == "plan-critic")
  {
    match input.budget
    case Standard =>
    case Fast => FastCarries(d, id, input);
    case Thorough =>
      hide NodeById, Spared, OnlySpared, Has, UniqueIds, AcceptanceWaits, Added;
      WithNodeCarries(d, PLAN_CRITIC, NodeProvenance("budget", "thorough"), id, input);
  }

  // ---------- the whole composition ----------

  /** A node of this id is proposed by the intent, by a secondary intent or by an overlay. */
  ghost predicate Proposed(input: Composition, id: string) {
    Has(input.fragment, id) || SecondaryHas(input.secondary, id) || OverlaysHave(input.overlays, id)
  }

  /** Nothing proposed under the id is of a kind the composition takes away. */
  ghost predicate Safe(input: Composition, id: string) {
    && OnlySpared(input.fragment, id, input) && SecondarySpared(input.secondary, id, input)
    && OverlaysSpared(input.overlays, id, input)
  }

  /** The ids packs, delivery and budget may add. */
  ghost predicate AddedLater(input: Composition, id: string) {
    || (input.packs != [] && id == "verification") || (input.delivery == MitigationPatch && id == "rollback-evidence")
    || (input.budget == Fast && id == "investigator") || (input.budget == Thorough && id == "plan-critic")
  }

  lemma {:induction false} OverlaidAllFrom(d: Draft, overlays: seq<Overlay>, id: string, input: Composition)
    requires WellKept(d) && forall o :: o in overlays ==> o in input.overlays
    ensures WellKept(OverlaidAll(d, overlays))
    ensures Has(OverlaidAll(d, overlays).nodes, id) ==> Has(d.nodes, id) || OverlaysHave(overlays, id)
    decreases |overlays|
  {
    if overlays != [] {
      var o, rest := overlays[0], overlays[1..];
      assert overlays == [o] + rest && o in overlays;
      assert forall x :: x in rest ==> x in overlays;
      OverlaidCarries(d, o, id, input);
      hide Overlaid, OverlayNodes, OnlySpared, Has, UniqueIds, AcceptanceWaits;
      OverlaidAllFrom(Overlaid(d, o), rest, id, input);
      assert OverlaysHave(overlays, id) <==> Has(OverlayNodes(o), id) || OverlaysHave(rest, id);
    }
  }

  /** What is planned of an id: every proposal of it is there, and where all are safe only safe ones. */
  lemma PlannedCarries(input: Composition, id: string)
    ensures var d := Planned(input);
      && WellKept(d) && (Has(d.nodes, id) ==> Proposed(input, id))
      && (Safe(input, id) ==> OnlySpared(d.nodes, id, input) && (Proposed(input, id) ==> Has(d.nodes, id)))
      && (Safe(input, id) && IsGate(input.overlays, id) ==> AcceptanceWaits(d.nodes, id))
      && (Safe(input, id) && Has(input.fragment, id) ==> d.provenance[id] == NodeProvenance("intent", input.intent))
  {
    var source := NodeProvenance("intent", input.intent);
    var first := WithAll(EMPTY_DRAFT, input.fragment, source);
    StartsKept(id, input);
    WithAllCarries(EMPTY_DRAFT, input.fragment, source, id, input);
    var second := WithSecondary(first, input.secondary);
    WithSecondaryCarries(first, input.secondary, id, input);
    hide WithAll, WithSecondary, OverlaidAll, OnlySpared, Has, UniqueIds, AcceptanceWaits, SecondaryHas, SecondarySpared;
    hide OverlaysHave, OverlaysSpared, IsGate;
    OverlaidAllFrom(second, input.overlays, id, input);
    if Safe(input, id) { OverlaidAllCarries(second, input.overlays, id, input); }
  }

  lemma StartsKept(id: string, input: Composition)
    ensures WellKept(EMPTY_DRAFT) && !Has(EMPTY_DRAFT.nodes, id) && OnlySpared(EMPTY_DRAFT.nodes, id, input)
  {
  }

  /** Every safe proposal is in the graph, with the provenance of the intent if that proposed it and before acceptance if
      an overlay made it a gate; and nothing is in it that was neither proposed nor added by packs, delivery or budget. */
  lemma ComposedKeeps(input: Composition, id: string)
    ensures var d := Composed(input);
      && WellKept(d) && (Has(d.nodes, id) ==> Proposed(input, id) || AddedLater(input, id))
      && (Safe(input, id) && Proposed(input, id) ==> Has(d.nodes, id))
      && (Safe(input, id) && IsGate(input.overlays, id) ==> AcceptanceWaits(d.nodes, id))
      && (Safe(input, id) && Has(input.fragment, id) ==> d.provenance[id] == NodeProvenance("intent", input.intent))
  {
    PlannedCarries(input, id);
    var planned := Planned(input);
    var packed := Packed(planned, input.packs);
    PackedCarries(planned, input.packs, id, input);
    var delivered := Delivered(packed, input.delivery);
    DeliveredCarries(packed, id, input);
    BudgetedCarries(delivered, id, input);
    CarriedOn(planned, packed, delivered, id, input);
    CarriedOn(planned, delivered, Composed(input), id, input);
    GateProposed(input, id);
    FragmentProposed(input, id);
    hide Planned, Packed, Delivered, Budgeted, Safe, Has, OnlySpared, UniqueIds, AcceptanceWaits, Proposed, IsGate;
  }

  lemma GateProposed(input: Composition, id: string)
    ensures IsGate(input.overlays, id) ==> Proposed(input, id)
  {
    if o :| o in input.overlays && OverlayGate(o).Some? && OverlayGate(o).value.id == id {
      GateIsNode(o, id);
      assert OverlaysHave(input.overlays, id);
    }
  }

  lemma FragmentProposed(input: Composition, id: string)
    ensures Has(input.fragment, id) ==> Proposed(input, id)
  {
  }

  // ---------- the compiled profile ----------

  /** What a profile promises of an id. */
  ghost predicate Honours(p: Compiled, input: Composition, id: string) {
    && (Has(p.nodes, id) ==> Proposed(input, id) || AddedLater(input, id))
    && (Safe(input, id) && Proposed(input, id) ==> Has(p.nodes, id))
    && (Safe(input, id) && IsGate(input.overlays, id) ==> AcceptanceWaits(p.nodes, id))
    && (Safe(input, id) && Has(input.fragment, id) ==>
          id in p.provenance && p.provenance[id] == NodeProvenance("intent", input.intent))
  }

  /** One investigator, which the implementer waits for alone, and no planning. */
  ghost predicate FastProfile(nodes: seq<Node>) {
    && (forall n :: n in nodes && n.role == "investigator" ==> n.id == "investigator")
    && (forall id :: id in FAST_DROPS ==> !Has(nodes, id))
    && (forall n, d :: n in nodes && n.id == "implementer" && d in n.dependsOn ==> d == "investigator")
  }

  lemma FastIs(nodes: seq<Node>)
    requires forall n :: n in nodes && n.role == "investigator" ==> n.id == "investigator"
    requires forall id :: id in FAST_DROPS ==> !Has(nodes, id)
    requires forall n :: n in nodes && n.id == "implementer" ==> n.dependsOn == ["investigator"]
    ensures FastProfile(nodes)
  {
    hide Has;
  }

  /** Every node of the resolved list is one of the list with fewer dependencies. */
  lemma ResolvedOrigin(nodes: seq<Node>, n: Node)
    requires n in Resolved(nodes, Ids(nodes))
    ensures exists m :: m in nodes && n == m.(dependsOn := Restrict(m.dependsOn, Ids(nodes)))
  {
    ResolvedAt(nodes, Ids(nodes));
    var i :| 0 <= i < |nodes| && Resolved(nodes, Ids(nodes))[i] == n;
    assert nodes[i] in nodes;
  }

  lemma ResolvedProfile(nodes: seq<Node>)
    requires UniqueIds(nodes)
    ensures var r := Resolved(nodes, Ids(nodes));
      && (forall id :: Has(r, id) <==> Has(nodes, id)) && (NoImplementers(nodes) ==> NoImplementers(r))
      && (FastProfile(nodes) ==> FastProfile(r))
  {
    hide UniqueIds, Has, Resolved;
    ResolvedKeeps(nodes);
    var r := Resolved(nodes, Ids(nodes));
    DescendsNoImplementers(r, nodes);
    if FastProfile(nodes) {
      DescendsInvestigators(r, nodes);
      forall n, d | n in r && n.id == "implementer" && d in n.dependsOn ensures d == "investigator" {
        ResolvedOrigin(nodes, n);
        var m :| m in nodes && n == m.(dependsOn := Restrict(m.dependsOn, Ids(nodes)));
        RestrictMembers(m.dependsOn, Ids(nodes), d);
      }
    }
  }

  lemma ResolvedWaits(nodes: seq<Node>, id: string)
    requires AcceptanceWaits(nodes, id) && Has(nodes, id)
    ensures AcceptanceWaits(Resolved(nodes, Ids(nodes)), id)
  {
    HasIsIds(nodes);
    hide Has, Resolved;
    forall n | n in Resolved(nodes, Ids(nodes)) && n.id == "acceptance" ensures id in n.dependsOn {
      ResolvedOrigin(nodes, n);
      var m :| m in nodes && n == m.(dependsOn := Restrict(m.dependsOn, Ids(nodes)));
      RestrictMembers(m.dependsOn, Ids(nodes), id);
    }
  }

  /** A profile the compiler returns honours its composition. */
  lemma CheckedHonours(input: Composition, id: string)
    requires Checked(Composed(input)).Ok?
    ensures Honours(Checked(Composed(input)).profile, input, id)
  {
    ComposedKeeps(input, id);
    var d := Composed(input);
    GateProposed(input, id);
    FragmentProposed(input, id);
    hide Composed, Safe, Proposed, IsGate, AddedLater, Has, UniqueIds, AcceptanceWaits, Resolved;
    ResolvedKeeps(d.nodes);
    if AcceptanceWaits(d.nodes, id) && Has(d.nodes, id) { ResolvedWaits(d.nodes, id); }
  }

  lemma HonoursEach(input: Composition)
    ensures Checked(Composed(input)).Ok? ==> forall id :: Honours(Checked(Composed(input)).profile, input, id)
  {
    hide Composed, Honours, Checked;
    if Checked(Composed(input)).Ok? {
      forall id ensures Honours(Checked(Composed(input)).profile, input, id) { CheckedHonours(input, id); }
    }
  }

  lemma AnalysisForbids(actions: seq<string>)
    ensures var forbidden := Forbidden(actions, AnalysisOnly);
      "write-lease" in Unique(forbidden) && "apply" in Unique(forbidden)
  {
    var all := actions + ["write-lease", "apply", "implementer"];
    UniqueMembers(all, "write-lease");
    UniqueMembers(all, "apply");
    UniqueMembers(Unique(all), "write-lease");
    UniqueMembers(Unique(all), "apply");
    hide Unique;
  }
}
