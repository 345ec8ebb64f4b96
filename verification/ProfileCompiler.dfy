/** Graph rewriting of the profile compiler, in place. */
module ProfileCompiler {
  import opened Digraph
  import opened Workflow
  import opened ProfileGraph
  import opened ProfileCompose
  import CycleCheck
  import DagEngine
  import DagRuns

  class GraphState {
    var nodes: seq<Node>
    var provenance: map<string, NodeProvenance>
    var deferredGates: seq<string>
    var forbiddenActions: seq<string>

    ghost predicate Valid()
      reads this
    {
      UniqueIds(nodes) && forall id :: id in provenance <==> Has(nodes, id)
    }

    ghost function Contents(): Draft
      reads this
    {
      Draft(nodes, provenance, deferredGates, forbiddenActions)
    }

    constructor ()
      ensures Valid() && Contents() == EMPTY_DRAFT
    {
      nodes, provenance, deferredGates, forbiddenActions := [], map[], [], [];
    }

    method AddNode(node: Node, source: NodeProvenance)
      requires Valid()
      modifies this`nodes, this`provenance
      ensures Valid() && Contents() == WithNode(old(Contents()), node, source)
      ensures nodes == Added(old(nodes), node)
      ensures provenance == if Has(old(nodes), node.id) then old(provenance) else old(provenance)[node.id := source]
    {
      AddedKeeps(nodes, node);
      if !Has(nodes, node.id) {
        provenance := provenance[node.id := source];
      }
      nodes := Added(nodes, node);
    }

    method RemoveNode(id: string)
      requires Valid()
      modifies this`nodes, this`provenance
      ensures Valid() && Contents() == WithoutNode(old(Contents()), id)
      ensures nodes == Removed(old(nodes), id) && provenance == old(provenance) - {id}
    {
      RemovedKeeps(nodes, id);
      nodes := Removed(nodes, id);
      provenance := provenance - {id};
    }

    method AttachBeforeAcceptance(node: Node, source: NodeProvenance)
      requires Valid()
      modifies this`nodes, this`provenance
      ensures Valid() && Contents() == WithAttached(old(Contents()), node, source)
      ensures nodes == Attached(old(nodes), node)
      ensures provenance == if Has(old(nodes), node.id) then old(provenance) else old(provenance)[node.id := source]
    {
      AttachedKeeps(nodes, node);
      var known := NodeById(nodes, "acceptance").Some?;
      AddNode(node.(dependsOn := AttachedDependencies(nodes, node)), source);
      if known {
        var acceptance := NodeById(nodes, "acceptance");
        if acceptance.Some? && node.id !in acceptance.value.dependsOn {
          nodes := Redirected(nodes, "acceptance", Unique(acceptance.value.dependsOn + [node.id]));
        }
      }
    }

    /** Walks a copy of the node list and removes the doomed nodes one by one. */
    method RemoveAll(doomed: Node -> bool)
      requires Valid() && forall a, b :: SameKind(a, b) ==> doomed(a) == doomed(b)
      modifies this`nodes, this`provenance
      ensures Valid() && Descends(nodes, old(nodes))
      ensures forall n :: n in nodes ==> !doomed(n)
      ensures forall m :: m in old(nodes) && !doomed(m) ==> Has(nodes, m.id)
      ensures Contents() == Cleared(old(Contents()), old(nodes), doomed)
    {
      hide Descends, Has, Removed;
      var snapshot := nodes;
      assert snapshot[0..] == snapshot;
      DescendsSelf(nodes);
      HasEach(nodes);
      var index := 0;
      while index < |snapshot|
        invariant 0 <= index <= |snapshot|
        invariant Valid() && Descends(nodes, snapshot)
        invariant Cleared(Contents(), snapshot[index..], doomed) == Cleared(old(Contents()), snapshot, doomed)
        invariant forall j :: 0 <= j < index && doomed(snapshot[j]) ==> !Has(nodes, snapshot[j].id)
        invariant forall j :: 0 <= j < |snapshot| && !doomed(snapshot[j]) ==> Has(nodes, snapshot[j].id)
      {
        var node := snapshot[index];
        assert snapshot[index..][0] == node && snapshot[index..][1..] == snapshot[index + 1..];
        if doomed(node) {
          RemovedKeeps(nodes, node.id);
          DescendsStep(Removed(nodes, node.id), nodes, snapshot);
          RemoveNode(node.id);
        }
        index := index + 1;
      }
      SurvivorsSpared(nodes, snapshot, doomed);
    }

    /** No overlay adds a writer. Each adds exactly its nodes, its gate stands before acceptance, and only the emergency
        one takes nodes away, of the two deferrable operations. */
    method ApplyOverlay(overlay: Overlay)
      requires Valid()
      modifies this
      ensures Valid() && (NoWriters(old(nodes)) ==> NoWriters(nodes)) && Contents() == Overlaid(old(Contents()), overlay)
      ensures overlay != Emergency ==>
                nodes == WithGate(WithExtra(old(nodes), OverlayExtra(overlay, old(nodes))), OverlayGate(overlay))
      ensures overlay != Emergency ==> forall id :: Has(old(nodes), id) ==> Has(nodes, id) && provenance[id] == old(provenance)[id]
      ensures overlay != Emergency ==> forall id :: Has(nodes, id) && !Has(old(nodes), id) ==>
                provenance[id] == NodeProvenance("overlay", OverlayName(overlay))
      ensures OverlayGate(overlay).Some? ==> AcceptanceWaits(nodes, OverlayGate(overlay).value.id)
      ensures overlay == Emergency ==> forall id :: Has(nodes, id) ==> Has(old(nodes), id)
      ensures overlay == Emergency ==> forall m :: m in old(nodes) && !DeferrableOperation(m.operation) ==> Has(nodes, m.id)
      ensures overlay == Emergency ==> "SPEC_CONSISTENCY" in deferredGates && old(deferredGates) <= deferredGates
      ensures overlay != Emergency ==> deferredGates == old(deferredGates)
      ensures forbiddenActions ==
              if overlay == Destructive then Unique(old(forbiddenActions) + ["apply-without-authorization"])
              else old(forbiddenActions)
    {
      hide UniqueIds, Has, NoWriters, AcceptanceWaits, Attached, Added, Unique;
      if overlay == Emergency {
        ApplyEmergency();
        return;
      }
      hide OverlayExtra, OverlayGate, OverlayName, WithGate, WithExtra;
      AddOverlayNodes(overlay);
      if overlay == Destructive {
        forbiddenActions := Unique(forbiddenActions + ["apply-without-authorization"]);
      }
    }

    /** An overlay's node and its gate before acceptance. */
    method AddOverlayNodes(overlay: Overlay)
      requires Valid() && overlay != Emergency
      modifies this
      ensures Valid() && (NoWriters(old(nodes)) ==> NoWriters(nodes)) && Contents() == OverlaidNodes(old(Contents()), overlay)
      ensures nodes == WithGate(WithExtra(old(nodes), OverlayExtra(overlay, old(nodes))), OverlayGate(overlay))
      ensures forall id :: Has(old(nodes), id) ==> Has(nodes, id) && provenance[id] == old(provenance)[id]
      ensures forall id :: Has(nodes, id) && !Has(old(nodes), id) ==>
                provenance[id] == NodeProvenance("overlay", OverlayName(overlay))
      ensures OverlayGate(overlay).Some? ==> AcceptanceWaits(nodes, OverlayGate(overlay).value.id)
      ensures deferredGates == old(deferredGates) && forbiddenActions == old(forbiddenActions)
    {
      hide UniqueIds, Has, NoWriters, AcceptanceWaits, Attached, Added;
      OverlayNodesRead(overlay, nodes);
      var extra, gate := OverlayExtra(overlay, nodes), OverlayGate(overlay);
      hide OverlayExtra, OverlayGate, OverlayName;
      if extra.Some? { AddNonWriter(extra.value, NodeProvenance("overlay", OverlayName(overlay))); }
      if gate.Some? { AttachNonWriter(gate.value, NodeProvenance("overlay", OverlayName(overlay))); }
    }

    method ApplyEmergency()
      requires Valid()
      modifies this
      ensures Valid() && (NoWriters(old(nodes)) ==> NoWriters(nodes)) && forbiddenActions == old(forbiddenActions)
      ensures forall id :: Has(nodes, id) ==> Has(old(nodes), id)
      ensures forall m :: m in old(nodes) && !DeferrableOperation(m.operation) ==> Has(nodes, m.id)
      ensures "SPEC_CONSISTENCY" in deferredGates && old(deferredGates) <= deferredGates
      ensures Contents() == Overlaid(old(Contents()), Emergency)
    {
      hide UniqueIds, Has, NoWriters, Spares;
      DeferGate("SPEC_CONSISTENCY");
      ghost var middle := nodes;
      DeferGate("BEHAVIORAL_EQUIVALENCE");
      TwiceSpared(old(nodes), middle, nodes);
      if "SPEC_CONSISTENCY" !in deferredGates {
        deferredGates := deferredGates + ["SPEC_CONSISTENCY"];
      }
    }

    /** The emergency overlay removes the first node of an operation and defers its gate. */
    method DeferGate(operation: string)
      requires Valid()
      modifies this
      ensures Valid() && forbiddenActions == old(forbiddenActions)
      ensures NoWriters(old(nodes)) ==> NoWriters(nodes)
      ensures forall id :: Has(nodes, id) ==> Has(old(nodes), id)
      ensures Spares(old(nodes), nodes, operation) && Contents() == Deferred(old(Contents()), operation)
      ensures deferredGates == old(deferredGates) + if FirstWithOperation(old(nodes), operation).Some? then [operation] else []
    {
      hide UniqueIds, Has, NoWriters, Descends;
      var first := FirstWithOperation(nodes, operation);
      HasEach(nodes);
      if first.Some? {
        FirstOperation(nodes, operation);
        RemovedSpares(nodes, first.value, operation);
        RemovedKeeps(nodes, first.value.id);
        DescendsNoWriters(Removed(nodes, first.value.id), nodes);
        RemoveNode(first.value.id);
        deferredGates := deferredGates + [operation];
      }
    }

    method AttachNonWriter(node: Node, source: NodeProvenance)
      requires Valid()
      modifies this`nodes, this`provenance
      ensures Valid() && nodes == Attached(old(nodes), node) && Contents() == WithAttached(old(Contents()), node, source)
      ensures NoWriters(old(nodes)) && !IsWriter(node) ==> NoWriters(nodes)
      ensures forall id :: Has(nodes, id) <==> Has(old(nodes), id) || id == node.id
      ensures node.id != "acceptance" ==> AcceptanceWaits(nodes, node.id)
      ensures provenance == if Has(old(nodes), node.id) then old(provenance) else old(provenance)[node.id := source]
    {
      AttachedKeeps(nodes, node);
      if node.id != "acceptance" { AttachedPrecedes(nodes, node); }
      AttachBeforeAcceptance(node, source);
    }

    /** Resolved packs make sure that what is implemented is verified. */
    method AttachPackNodes(resolved: seq<string>)
      requires Valid()
      modifies this`nodes, this`provenance
      ensures Valid() && Contents() == Packed(old(Contents()), resolved)
      ensures resolved == [] ==> nodes == old(nodes) && provenance == old(provenance)
      ensures resolved != [] ==> forall id ::
                Has(nodes, id) <==> Has(old(nodes), id) || (id == "verification" && Has(old(nodes), "implementer"))
    {
      hide UniqueIds, Has;
      if resolved == [] {
        return;
      }
      FindExactly(nodes, "verification");
      FindExactly(nodes, "implementer");
      AddedKeeps(nodes, VERIFICATION);
      if NodeById(nodes, "verification").None? && NodeById(nodes, "implementer").Some? {
        AddNode(VERIFICATION, NodeProvenance("pack", resolved[0]));
      }
    }

    /** After an analysis-only delivery no node may write and all others are left; after a runbook none implements and
        all others are left; a mitigation is accepted only with rollback evidence; no other delivery changes the graph. */
    method ApplyDelivery(mode: Delivery)
      requires Valid()
      modifies this
      ensures Valid() && Contents() == Delivered(old(Contents()), mode)
      ensures mode == AnalysisOnly ==> NoWriters(nodes) && forall m :: m in old(nodes) && !IsWriter(m) ==> Has(nodes, m.id)
      ensures mode == Runbook ==> NoImplementers(nodes)
      ensures mode == Runbook ==> forall m :: m in old(nodes) && m.role != "implementer" ==> Has(nodes, m.id)
      ensures mode == AnalysisOnly || mode == Runbook ==> Descends(nodes, old(nodes))
      ensures mode == MitigationPatch ==> AcceptanceWaits(nodes, "rollback-evidence") && "SPEC_CONSISTENCY" in deferredGates
      ensures mode == MitigationPatch ==> forall id :: Has(nodes, id) <==> Has(old(nodes), id) || id == "rollback-evidence"
      ensures mode != AnalysisOnly && mode != Runbook && mode != MitigationPatch ==>
                nodes == old(nodes) && provenance == old(provenance)
      ensures forbiddenActions == Forbidden(old(forbiddenActions), mode)
    {
      hide UniqueIds, Has, Descends, AcceptanceWaits, Cleared, Unique;
      match mode
      case AnalysisOnly =>
        RemoveAll(IsWriter);
        forbiddenActions := Unique(forbiddenActions + ["write-lease", "apply", "implementer"]);
        ClearedLast(old(Contents()), old(nodes), IsWriter, forbiddenActions);
      case Runbook =>
        RemoveAll(Implements);
        forbiddenActions := Unique(forbiddenActions + ["apply", "write-lease"]);
        ClearedLast(old(Contents()), old(nodes), Implements, forbiddenActions);
      case SpecArtifact =>
        forbiddenActions := Unique(forbiddenActions + ["apply-to-user-tree"]);
      case MitigationPatch =>
        forbiddenActions := Unique(forbiddenActions + ["apply-to-user-tree"]);
        if "SPEC_CONSISTENCY" !in deferredGates {
          deferredGates := deferredGates + ["SPEC_CONSISTENCY"];
        }
        AttachNonWriter(RollbackEvidence(nodes), NodeProvenance("delivery", "mitigation-patch"));
      case IntegrationBranch =>
      case Patch =>
      case PullRequestReady =>
      case MigrationSeries =>
      case ApplyToWorktree =>
    }

    /** No budget brings a writer back into a graph that has none. The fast one drops planning, keeps one investigator and
        implements straight from it; the thorough one has every plan criticised. */
    method ApplyBudget(budget: Budget)
      requires Valid()
      modifies this`nodes, this`provenance
      ensures Valid() && (NoWriters(old(nodes)) ==> NoWriters(nodes)) && Contents() == Budgeted(old(Contents()), budget)
      ensures NoImplementers(old(nodes)) ==> NoImplementers(nodes)
      ensures budget == Fast ==> forall n :: n in nodes && n.role == "investigator" ==> n.id == "investigator"
      ensures budget == Fast ==> forall id :: id in FAST_DROPS ==> !Has(nodes, id)
      ensures budget == Fast && Has(old(nodes), "analyst") ==> Has(nodes, "investigator")
      ensures budget == Fast ==> forall n :: n in nodes && n.id == "implementer" ==> n.dependsOn == ["investigator"]
      ensures budget == Standard ==> nodes == old(nodes) && provenance == old(provenance)
      ensures budget == Thorough ==> forall id ::
                Has(nodes, id) <==> Has(old(nodes), id) || (id == "plan-critic" && Has(old(nodes), "planner"))
    {
      hide UniqueIds, Has, Descends;
      match budget
      case Standard =>
      case Thorough =>
        FindExactly(nodes, "planner");
        FindExactly(nodes, "plan-critic");
        if NodeById(nodes, "planner").Some? && NodeById(nodes, "plan-critic").None? {
          AddNonWriter(PLAN_CRITIC, NodeProvenance("budget", "thorough"));
        }
      case Fast =>
        DropsSpare();
        ApplyFast(FAST_DROPS);
    }

    method ApplyFast(drops: seq<string>)
      requires Valid() && "investigator" !in drops && "analyst" !in drops
      modifies this`nodes, this`provenance
      ensures Valid() && (NoWriters(old(nodes)) ==> NoWriters(nodes))
      ensures NoImplementers(old(nodes)) ==> NoImplementers(nodes)
      ensures forall n :: n in nodes && n.role == "investigator" ==> n.id == "investigator"
      ensures forall id :: id in drops ==> !Has(nodes, id)
      ensures Has(old(nodes), "analyst") ==> Has(nodes, "investigator")
      ensures forall n :: n in nodes && n.id == "implementer" ==> n.dependsOn == ["investigator"]
      ensures var one := OneInvestigator(Trimmed(old(Contents()), drops));
        Contents() == Direct(Cleared(one, one.nodes, IsOtherInvestigator))
    {
      hide UniqueIds, Has, Descends, NoWriters, NoImplementers, NodeById, Trimmed, OneInvestigator, Cleared, Direct;
      RemoveListed(drops);
      DescendsNoWriters(nodes, old(nodes));
      DescendsNoImplementers(nodes, old(nodes));
      KeepOneInvestigator();
      ghost var before := nodes;
      RemoveOtherInvestigators();
      DescendsNoWriters(nodes, before);
      DescendsNoImplementers(nodes, before);
      ImplementDirectly();
    }

    /** The implementer, if there is one, waits for the investigator alone. */
    method ImplementDirectly()
      requires Valid() && forall n :: n in nodes && n.role == "investigator" ==> n.id == "investigator"
      modifies this`nodes
      ensures Valid() && (NoWriters(old(nodes)) ==> NoWriters(nodes))
      ensures NoImplementers(old(nodes)) ==> NoImplementers(nodes)
      ensures forall n :: n in nodes && n.role == "investigator" ==> n.id == "investigator"
      ensures forall id :: Has(nodes, id) <==> Has(old(nodes), id)
      ensures forall n :: n in nodes && n.id == "implementer" ==> n.dependsOn == ["investigator"]
      ensures Contents() == Direct(old(Contents()))
    {
      hide UniqueIds, Has, Descends, NoWriters, NoImplementers, NodeById;
      FindExactly(nodes, "implementer");
      HasEach(nodes);
      if NodeById(nodes, "implementer").Some? {
        RedirectImplementer();
        DescendsNoWriters(nodes, old(nodes));
        DescendsNoImplementers(nodes, old(nodes));
        DescendsInvestigators(nodes, old(nodes));
      }
    }

    method RedirectImplementer()
      requires Valid()
      modifies this`nodes
      ensures Valid() && nodes == Redirected(old(nodes), "implementer", ["investigator"])
      ensures Descends(nodes, old(nodes)) && forall id :: Has(nodes, id) <==> Has(old(nodes), id)
      ensures forall n :: n in nodes && n.id == "implementer" ==> n.dependsOn == ["investigator"]
    {
      RedirectedKeeps(nodes, "implementer", ["investigator"]);
      RedirectedSets(nodes, "implementer", ["investigator"]);
      nodes := Redirected(nodes, "implementer", ["investigator"]);
    }

    method AddNonWriter(node: Node, source: NodeProvenance)
      requires Valid()
      modifies this`nodes, this`provenance
      ensures Valid() && nodes == Added(old(nodes), node) && Contents() == WithNode(old(Contents()), node, source)
      ensures NoWriters(old(nodes)) && !IsWriter(node) ==> NoWriters(nodes)
      ensures NoImplementers(old(nodes)) && node.role != "implementer" ==> NoImplementers(nodes)
      ensures forall id :: Has(nodes, id) <==> Has(old(nodes), id) || id == node.id
      ensures provenance == if Has(old(nodes), node.id) then old(provenance) else old(provenance)[node.id := source]
    {
      AddedKeeps(nodes, node);
      AddNode(node, source);
    }

    method RemoveListed(ids: seq<string>)
      requires Valid()
      modifies this`nodes, this`provenance
      ensures Valid() && Descends(nodes, old(nodes))
      ensures forall id :: Has(nodes, id) <==> Has(old(nodes), id) && id !in ids
      ensures Contents() == Trimmed(old(Contents()), ids)
    {
      hide UniqueIds, Has, Descends, Removed;
      assert ids[0..] == ids;
      DescendsSelf(nodes);
      var index := 0;
      while index < |ids|
        invariant 0 <= index <= |ids|
        invariant Valid() && Descends(nodes, old(nodes))
        invariant forall id :: Has(nodes, id) <==> Has(old(nodes), id) && id !in ids[..index]
        invariant Trimmed(Contents(), ids[index..]) == Trimmed(old(Contents()), ids)
      {
        assert ids[index..][0] == ids[index] && ids[index..][1..] == ids[index + 1..];
        assert ids[..index + 1] == ids[..index] + [ids[index]];
        if NodeById(nodes, ids[index]).Some? {
          RemovedKeeps(nodes, ids[index]);
          DescendsStep(Removed(nodes, ids[index]), nodes, old(nodes));
          RemoveNode(ids[index]);
        } else {
          NotFound(nodes, ids[index]);
        }
        index := index + 1;
      }
      assert ids[..index] == ids;
    }

    /** The fast budget renames its investigator, or adds one after the analyst. */
    method KeepOneInvestigator()
      requires Valid()
      modifies this`nodes, this`provenance
      ensures Valid() && (NoWriters(old(nodes)) ==> NoWriters(nodes))
      ensures NoImplementers(old(nodes)) ==> NoImplementers(nodes)
      ensures forall id :: Has(nodes, id) ==> Has(old(nodes), id) || id == "investigator"
      ensures Has(old(nodes), "analyst") ==> Has(nodes, "investigator")
      ensures Contents() == OneInvestigator(old(Contents()))
    {
      hide UniqueIds, Has, Descends;
      FindExactly(nodes, "investigator");
      FindExactly(nodes, "analyst");
      var source := InvestigatorSource(nodes);
      SourceIsNode(nodes);
      HasEach(nodes);
      if source.Some? && source.value.id != "investigator" {
        RemovedKeeps(nodes, source.value.id);
        DescendsNoWriters(Removed(nodes, source.value.id), nodes);
        DescendsNoImplementers(Removed(nodes, source.value.id), nodes);
        RemoveNode(source.value.id);
        AddNonWriter(source.value.(id := "investigator", dependsOn := ["analyst"]), NodeProvenance("budget", "fast"));
      } else if NodeById(nodes, "investigator").None? && NodeById(nodes, "analyst").Some? {
        AddNonWriter(INVESTIGATOR, NodeProvenance("budget", "fast"));
      }
    }

    method RemoveOtherInvestigators()
      requires Valid()
      modifies this`nodes, this`provenance
      ensures Valid() && Descends(nodes, old(nodes))
      ensures forall n :: n in nodes && n.role == "investigator" ==> n.id == "investigator"
      ensures Has(old(nodes), "investigator") ==> Has(nodes, "investigator")
      ensures forall id :: Has(nodes, id) ==> Has(old(nodes), id)
      ensures Contents() == Cleared(old(Contents()), old(nodes), IsOtherInvestigator)
    {
      ghost var before := nodes;
      RemoveAll(IsOtherInvestigator);
      DescendsHas(nodes, before);
    }
  }

  /** The checks after rewriting: rejected exactly for a cycle, or else for size. */
  method Finish(graph: GraphState) returns (r: Result)
    requires graph.Valid()
    ensures r == Error(CycleFound) <==> !Acyclic(graph.nodes)
    ensures r == Error(TooManyNodes) <==> Acyclic(graph.nodes) && |graph.nodes| > MAX_NODES
    ensures r.Ok? ==> Sound(r.profile) && r.profile.nodes == Resolved(graph.nodes, Ids(graph.nodes))
    ensures r.Ok? ==> NoWriters(graph.nodes) ==> NoWriters(r.profile.nodes)
    ensures r.Ok? ==> r.profile.deferredGates == Unique(graph.deferredGates)
                      && r.profile.forbiddenActions == Unique(graph.forbiddenActions)
    ensures r == Checked(graph.Contents())
  {
    var cyclic := CycleCheck.HasCycle(graph.nodes);
    if cyclic {
      return Error(CycleFound);
    }
    if |graph.nodes| > MAX_NODES {
      return Error(TooManyNodes);
    }
    ResolvedKeeps(graph.nodes);
    ResolvedAcyclic(graph.nodes);
    ResolvedAt(graph.nodes, Ids(graph.nodes));
    DescendsNoWriters(Resolved(graph.nodes, Ids(graph.nodes)), graph.nodes);
    return Ok(Compiled(Resolved(graph.nodes, Ids(graph.nodes)), graph.provenance,
                       Unique(graph.deferredGates), Unique(graph.forbiddenActions)));
  }

  method AddAll(graph: GraphState, nodes: seq<Node>, source: NodeProvenance)
    requires graph.Valid()
    modifies graph
    ensures graph.Valid() && forall id :: Has(graph.nodes, id) <==> Has(old(graph.nodes), id) || Has(nodes, id)
    ensures graph.Contents() == WithAll(old(graph.Contents()), nodes, source)
  {
    hide UniqueIds, Has, NoWriters, Added;
    assert nodes[0..] == nodes;
    HasNone();
    var index := 0;
    assert nodes[..0] == [];
    while index < |nodes|
      invariant 0 <= index <= |nodes| && graph.Valid()
      invariant forall id :: Has(graph.nodes, id) <==> Has(old(graph.nodes), id) || Has(nodes[..index], id)
      invariant WithAll(graph.Contents(), nodes[index..], source) == WithAll(old(graph.Contents()), nodes, source)
    {
      assert nodes[index..][0] == nodes[index] && nodes[index..][1..] == nodes[index + 1..];
      HasSnoc(nodes[..index], nodes[index]);
      assert nodes[..index + 1] == nodes[..index] + [nodes[index]];
      graph.AddNonWriter(nodes[index], source);
      index := index + 1;
    }
    assert nodes[..index] == nodes;
  }

  lemma HasNone()
    ensures forall id :: !Has([], id)
  {
  }

  lemma HasSnoc(init: seq<Node>, n: Node)
    ensures forall id :: Has(init + [n], id) <==> Has(init, id) || id == n.id
  {
    assert forall m :: m in init + [n] <==> m in init || m == n;
  }

  /** The proposed nodes and the overlays on them. */
  method Plan(graph: GraphState, input: Composition)
    requires graph.Valid() && graph.Contents() == EMPTY_DRAFT
    modifies graph
    ensures graph.Valid() && graph.Contents() == Planned(input)
  {
    hide UniqueIds, Has, NoWriters, AcceptanceWaits, Overlaid, WithAll, WithGate, WithExtra, OverlayGate, OverlayExtra, Unique;
    AddAll(graph, input.fragment, NodeProvenance("intent", input.intent));
    assert input.secondary[0..] == input.secondary && input.overlays[0..] == input.overlays;
    for i := 0 to |input.secondary|
      invariant graph.Valid()
      invariant OverlaidAll(WithSecondary(graph.Contents(), input.secondary[i..]), input.overlays) == Planned(input)
    {
      assert input.secondary[i..][0] == input.secondary[i] && input.secondary[i..][1..] == input.secondary[i + 1..];
      AddAll(graph, input.secondary[i].1, NodeProvenance("secondary", input.secondary[i].0));
    }
    for i := 0 to |input.overlays|
      invariant graph.Valid()
      invariant OverlaidAll(graph.Contents(), input.overlays[i..]) == Planned(input)
    {
      assert input.overlays[i..][0] == input.overlays[i] && input.overlays[i..][1..] == input.overlays[i + 1..];
      graph.ApplyOverlay(input.overlays[i]);
    }
  }

  /** Packs, delivery and budget on top of the plan. */
  method Tailor(graph: GraphState, input: Composition)
    requires graph.Valid()
    modifies graph
    ensures graph.Valid()
    ensures graph.Contents() == Budgeted(Delivered(Packed(old(graph.Contents()), input.packs), input.delivery), input.budget)
    ensures input.delivery == AnalysisOnly ==>
              && NoWriters(graph.nodes)
              && "write-lease" in Unique(graph.forbiddenActions) && "apply" in Unique(graph.forbiddenActions)
    ensures input.delivery == Runbook ==> NoImplementers(graph.nodes)
    ensures input.delivery == MitigationPatch ==> "SPEC_CONSISTENCY" in Unique(graph.deferredGates)
    ensures input.budget == Fast ==> FastProfile(graph.nodes)
    ensures input.budget == Thorough && Has(graph.nodes, "planner") ==> Has(graph.nodes, "plan-critic")
  {
    hide UniqueIds, Has, Descends, AcceptanceWaits, NoWriters, NoImplementers, FastProfile, Packed, Delivered, Budgeted;
    graph.AttachPackNodes(input.packs);
    ghost var actions := graph.forbiddenActions;
    graph.ApplyDelivery(input.delivery);
    AnalysisForbids(actions);
    UniqueMembers(graph.deferredGates, "SPEC_CONSISTENCY");
    hide Unique, Forbidden;
    graph.ApplyBudget(input.budget);
    if input.budget == Fast { FastIs(graph.nodes); }
  }

  /** Every profile the compiler returns is sound and honours its composition: what is proposed and spared is in it, gates
      stand before acceptance, and nothing else came in. It is refused exactly for a cycle or too many nodes. With an
      analysis-only delivery it has no writer, with a runbook no implementer; a mitigation waits for its gate; the fast
      budget has one investigator, and the thorough one criticises every plan. */
  method CompileRunComposition(input: Composition) returns (r: Result)
    ensures r == Checked(Composed(input)) && (r.Ok? ==> Sound(r.profile))
    ensures r.Ok? ==> forall id :: Honours(r.profile, input, id)
    ensures r.Ok? && input.delivery == AnalysisOnly ==>
              NoWriters(r.profile.nodes) && "write-lease" in r.profile.forbiddenActions && "apply" in r.profile.forbiddenActions
    ensures r.Ok? && input.delivery == Runbook ==> NoImplementers(r.profile.nodes)
    ensures r.Ok? && input.delivery == MitigationPatch ==> "SPEC_CONSISTENCY" in r.profile.deferredGates
    ensures r.Ok? && input.budget == Fast ==> FastProfile(r.profile.nodes)
    ensures r.Ok? && input.budget == Thorough && Has(r.profile.nodes, "planner") ==> Has(r.profile.nodes, "plan-critic")
  {
    hide UniqueIds, Has, Sound, Descends, Checked, Honours, NoImplementers, FastProfile, NoWriters, Planned, Unique;
    hide Packed, Delivered, Budgeted;
    var graph := new GraphState();
    Plan(graph, input);
    Tailor(graph, input);
    r := Finish(graph);
    HonoursEach(input);
    ResolvedProfile(graph.nodes);
  }

  /** On a compiled profile, whatever the state of its nodes, the scheduler is silently stuck exactly when nothing
      is active or ready while one node has failed and another waits to retry. */
  lemma CompiledProfileSticksExactly(p: Compiled, records: seq<DagEngine.Record>, predicates: seq<string>)
    requires Sound(p)
    requires |records| == |p.nodes| && forall i :: 0 <= i < |records| ==> records[i].nodeId == p.nodes[i].id
    requires DagEngine.DisabledAccepted(DagEngine.Cursor(p.nodes, records, predicates))
    ensures var c := DagEngine.Cursor(p.nodes, records, predicates);
            && DagEngine.DagComplete(c).Some? && DagEngine.DagUnrecoverable(c).Some? && DagEngine.ReadySpec(c).Some?
            && (DagEngine.Stuck(c) <==>
                && !DagEngine.Live(c)
                && DagEngine.SomeNode(c, {DagEngine.Failed}) && DagEngine.SomeNode(c, {DagEngine.Retrying}))
  {
    var c := DagEngine.Cursor(p.nodes, records, predicates);
    forall n | n in p.nodes ensures DagEngine.StatusOf(c, n.id).Some? {
      var i :| 0 <= i < |p.nodes| && p.nodes[i] == n;
      RecordFound(records, i);
    }
    CompiledResolved(p);
    forall q | q in records
      ensures DagEngine.StatusOf(c, q.nodeId) == Some(q.status) && DagEngine.NodeOf(p.nodes, q.nodeId).Some?
    {
      var i :| 0 <= i < |records| && records[i] == q;
      RecordFound(records, i);
      NotFound(p.nodes, q.nodeId);
      assert p.nodes[i] in p.nodes;
    }
    DagEngine.StuckExactly(c);
  }

  lemma CompiledResolved(p: Compiled)
    requires Sound(p)
    ensures DagRuns.Resolved(p.nodes)
  {
    forall n, d | n in p.nodes && d in n.dependsOn ensures exists m :: m in p.nodes && m.id == d {
      assert Has(p.nodes, d);
    }
  }

  /** No run of a compiled profile is ever silently stuck. */
  lemma CompiledRunsNeverStick(p: Compiled, states: seq<DagEngine.Cursor>, steps: seq<DagRuns.Step>, k: nat)
    requires Sound(p) && DagRuns.IsRun(states, steps) && states[0].profile == p.nodes && k < |states|
    ensures DagEngine.Skipped(states[k]).Some?
    ensures var c := DagEngine.Skipped(states[k]).value;
            DagEngine.ReadySpec(c).Some? && !DagEngine.Stuck(c)
  {
    CompiledResolved(p);
    DagRuns.RunsNeverStick(states, steps, k);
  }

  lemma {:induction false} RecordFound(records: seq<DagEngine.Record>, i: nat)
    requires i < |records| && forall a, b :: 0 <= a < b < |records| ==> records[a].nodeId != records[b].nodeId
    ensures DagEngine.RecordOf(records, records[i].nodeId) == Some(records[i])
  {
    if i > 0 {
      assert records[0].nodeId != records[i].nodeId;
      RecordFound(records[1..], i - 1);
    }
  }
}
