/** The node lists the profile compiler rewrites. A field the source leaves
    undefined (role, operation, concurrency group) is the empty string. */
module ProfileGraph {
  import opened Digraph
  import opened Workflow
  import DagEngine

  datatype NodeProvenance = NodeProvenance(source: string, id: string)

  datatype Overlay =
    | SecuritySensitive | Authentication | PublicApi | DataMutation | Migration | Concurrency | CrossCutting
    | UiVisible | ExternalContract | ProductionImpact | Destructive | NoTests | Emergency | GeneratedCode

  datatype Delivery =
    | AnalysisOnly | SpecArtifact | IntegrationBranch | Patch | PullRequestReady
    | MitigationPatch | MigrationSeries | Runbook | ApplyToWorktree

  datatype Budget = Fast | Standard | Thorough

  const MAX_NODES := 96

  // ---------- sequences of ids ----------

  /** Each item once, in order of first occurrence. */
  function Unique(s: seq<string>): seq<string> {
    if s == [] then []
    else
      var init := Unique(s[..|s| - 1]);
      if s[|s| - 1] in init then init else init + [s[|s| - 1]]
  }

  lemma {:induction false} UniqueMembers(s: seq<string>, x: string)
    ensures x in Unique(s) <==> x in s
  {
    if s != [] {
      UniqueMembers(s[..|s| - 1], x);
      UniqueMembers(s[..|s| - 1], s[|s| - 1]);
      assert s == s[..|s| - 1] + [s[|s| - 1]];
    }
  }

  function Drop(s: seq<string>, id: string): seq<string> {
    if s == [] then []
    else if s[0] == id then Drop(s[1..], id)
    else [s[0]] + Drop(s[1..], id)
  }

  lemma {:induction false} DropMembers(s: seq<string>, id: string, x: string)
    ensures x in Drop(s, id) <==> x in s && x != id
  {
    if s != [] {
      DropMembers(s[1..], id, x);
      assert s == [s[0]] + s[1..];
    }
  }

  function Restrict(s: seq<string>, ids: set<string>): seq<string> {
    if s == [] then []
    else if s[0] in ids then [s[0]] + Restrict(s[1..], ids)
    else Restrict(s[1..], ids)
  }

  lemma {:induction false} RestrictMembers(s: seq<string>, ids: set<string>, x: string)
    ensures x in Restrict(s, ids) <==> x in s && x in ids
  {
    if s != [] {
      RestrictMembers(s[1..], ids, x);
      assert s == [s[0]] + s[1..];
    }
  }

  // ---------- node lists ----------

  function NodeById(nodes: seq<Node>, id: string): Option<Node> {
    DagEngine.NodeOf(nodes, id)
  }

  function Merged(existing: Node, node: Node): Node {
    existing.(dependsOn := Unique(existing.dependsOn + node.dependsOn),
              invalidates := Unique(existing.invalidates + node.invalidates),
              when := if existing.when.None? then node.when else existing.when)
  }

  /** The node list after `addNode`. */
  function Added(nodes: seq<Node>, node: Node): seq<Node> {
    if nodes == [] then [node]
    else if nodes[0].id == node.id then [Merged(nodes[0], node)] + nodes[1..]
    else [nodes[0]] + Added(nodes[1..], node)
  }

  function Forget(n: Node, id: string): Node {
    n.(dependsOn := Drop(n.dependsOn, id), invalidates := Drop(n.invalidates, id))
  }

  /** The node list after `removeNode`. */
  function Removed(nodes: seq<Node>, id: string): seq<Node> {
    if nodes == [] then []
    else if nodes[0].id == id then Removed(nodes[1..], id)
    else [Forget(nodes[0], id)] + Removed(nodes[1..], id)
  }

  /** The node list after assigning `dependsOn` of the first node of an id. */
  function Redirected(nodes: seq<Node>, id: string, deps: seq<string>): seq<Node> {
    if nodes == [] then []
    else if nodes[0].id == id then [nodes[0].(dependsOn := deps)] + nodes[1..]
    else [nodes[0]] + Redirected(nodes[1..], id, deps)
  }

  predicate Has(nodes: seq<Node>, id: string) {
    exists n :: n in nodes && n.id == id
  }

  ghost predicate NoWriters(nodes: seq<Node>) {
    forall n :: n in nodes ==> !IsWriter(n)
  }

  ghost predicate NoImplementers(nodes: seq<Node>) {
    forall n :: n in nodes ==> n.role != "implementer"
  }

  /** Same id, role, operation and group: what no rewriting step changes. */
  predicate SameKind(a: Node, b: Node) {
    a.id == b.id && a.role == b.role && a.operation == b.operation && a.concurrencyGroup == b.concurrencyGroup
  }

  /** Every node of `nodes` is a node of `from`, up to its dependencies. */
  ghost predicate Descends(nodes: seq<Node>, from: seq<Node>) {
    forall n :: n in nodes ==> exists m :: m in from && SameKind(n, m)
  }

  lemma {:induction false} AddedKeeps(nodes: seq<Node>, node: Node)
    ensures UniqueIds(nodes) ==> UniqueIds(Added(nodes, node))
    ensures forall id :: Has(Added(nodes, node), id) <==> Has(nodes, id) || id == node.id
    ensures forall n :: n in Added(nodes, node) ==> (exists m :: m in nodes && SameKind(n, m)) || n == node
  {
    if nodes == [] {
      assert node in Added(nodes, node);
    } else if nodes[0].id == node.id {
      var m := Merged(nodes[0], node);
      HasCons(nodes[0], nodes[1..]);
      HasCons(m, nodes[1..]);
      UniqueCons(nodes[0], nodes[1..]);
      UniqueCons(m, nodes[1..]);
      assert nodes == [nodes[0]] + nodes[1..] && SameKind(m, nodes[0]);
      assert forall n :: n in nodes[1..] ==> n in nodes && SameKind(n, n);
    } else {
      AddedKeeps(nodes[1..], node);
      HasCons(nodes[0], nodes[1..]);
      HasCons(nodes[0], Added(nodes[1..], node));
      UniqueCons(nodes[0], nodes[1..]);
      UniqueCons(nodes[0], Added(nodes[1..], node));
      assert nodes == [nodes[0]] + nodes[1..] && SameKind(nodes[0], nodes[0]);
      assert forall n :: n in nodes[1..] ==> n in nodes;
    }
  }

  /** The node a second proposal is merged into: of the same kind, with the dependencies and invalidations of both, and
      its own condition unless it had none. */
  ghost predicate MergesTo(n: Node, existing: Node, node: Node) {
    && SameKind(n, existing)
    && (forall d :: d in n.dependsOn <==> d in existing.dependsOn || d in node.dependsOn)
    && (forall d :: d in n.invalidates <==> d in existing.invalidates || d in node.invalidates)
    && (existing.when.Some? ==> n.when == existing.when) && (existing.when.None? ==> n.when == node.when)
  }

  lemma MergedMerges(existing: Node, node: Node)
    requires existing.id == node.id
    ensures MergesTo(Merged(existing, node), existing, node)
  {
    var n := Merged(existing, node);
    forall d ensures d in n.dependsOn <==> d in existing.dependsOn || d in node.dependsOn {
      UniqueMembers(existing.dependsOn + node.dependsOn, d);
    }
    forall d ensures d in n.invalidates <==> d in existing.invalidates || d in node.invalidates {
      UniqueMembers(existing.invalidates + node.invalidates, d);
    }
    hide Unique;
  }

  /** Adding changes only the node of that id: merged if it is known, and else the node itself. */
  lemma {:induction false} AddedExactly(nodes: seq<Node>, node: Node, m: Node)
    requires UniqueIds(nodes) && m in nodes
    ensures m.id != node.id ==> m in Added(nodes, node)
    ensures m.id == node.id ==> exists n :: n in Added(nodes, node) && MergesTo(n, m, node)
    ensures !Has(nodes, node.id) ==> node in Added(nodes, node)
  {
    var rest := nodes[1..];
    assert nodes == [nodes[0]] + rest;
    UniqueCons(nodes[0], rest);
    if !Has(nodes, node.id) { AddedNew(nodes, node); }
    if nodes[0].id == node.id {
      MergedMerges(nodes[0], node);
      hide MergesTo, Merged;
      var merged := Merged(nodes[0], node);
      assert merged in Added(nodes, node) && forall x :: x in rest ==> x in Added(nodes, node);
      HasEach(rest);
    } else if m != nodes[0] {
      hide MergesTo, Merged;
      AddedExactly(rest, node, m);
    }
  }

  lemma HasCons(n: Node, rest: seq<Node>)
    ensures forall id :: Has([n] + rest, id) <==> n.id == id || Has(rest, id)
  {
    assert n in [n] + rest;
    assert forall m :: m in rest ==> m in [n] + rest;
  }

  lemma UniqueCons(n: Node, rest: seq<Node>)
    ensures UniqueIds([n] + rest) <==> UniqueIds(rest) && !Has(rest, n.id)
  {
    var all := [n] + rest;
    if UniqueIds(all) {
      forall m | m in rest ensures m.id != n.id {
        var k :| 0 <= k < |rest| && rest[k] == m;
        assert all[0].id != all[k + 1].id;
      }
      forall i, j | 0 <= i < j < |rest| ensures rest[i].id != rest[j].id {
        assert all[i + 1].id != all[j + 1].id;
      }
    }
    if UniqueIds(rest) && !Has(rest, n.id) {
      forall i, j | 0 <= i < j < |all| ensures all[i].id != all[j].id {
        if i == 0 { assert all[j] in rest; } else { assert all[i] == rest[i - 1] && all[j] == rest[j - 1]; }
      }
    }
  }

  /** No node and no reference to the id is left. */
  lemma {:induction false} RemovedKeeps(nodes: seq<Node>, id: string)
    ensures UniqueIds(nodes) ==> UniqueIds(Removed(nodes, id))
    ensures forall x :: Has(Removed(nodes, id), x) <==> Has(nodes, x) && x != id
    ensures Descends(Removed(nodes, id), nodes)
    ensures forall n :: n in Removed(nodes, id) ==> id !in n.dependsOn && id !in n.invalidates
  {
    if nodes != [] {
      hide Has, UniqueIds;
      RemovedKeeps(nodes[1..], id);
      HasCons(nodes[0], nodes[1..]);
      UniqueCons(nodes[0], nodes[1..]);
      assert nodes == [nodes[0]] + nodes[1..];
      assert forall n :: n in nodes[1..] ==> n in nodes;
      if nodes[0].id != id {
        var f := Forget(nodes[0], id);
        assert SameKind(f, nodes[0]) && nodes[0] in nodes;
        DropMembers(nodes[0].dependsOn, id, id);
        DropMembers(nodes[0].invalidates, id, id);
        HasCons(f, Removed(nodes[1..], id));
        UniqueCons(f, Removed(nodes[1..], id));
      }
    }
  }

  lemma {:induction false} RedirectedKeeps(nodes: seq<Node>, id: string, deps: seq<string>)
    ensures UniqueIds(nodes) ==> UniqueIds(Redirected(nodes, id, deps))
    ensures forall x :: Has(Redirected(nodes, id, deps), x) <==> Has(nodes, x)
    ensures Descends(Redirected(nodes, id, deps), nodes)
  {
    if nodes != [] {
      RedirectedKeeps(nodes[1..], id, deps);
      HasCons(nodes[0], nodes[1..]);
      UniqueCons(nodes[0], nodes[1..]);
      assert nodes == [nodes[0]] + nodes[1..] && nodes[0] in nodes;
      assert forall n :: n in nodes[1..] ==> n in nodes && SameKind(n, n);
      var head := if nodes[0].id == id then nodes[0].(dependsOn := deps) else nodes[0];
      assert SameKind(head, nodes[0]);
      HasCons(head, nodes[1..]);
      UniqueCons(head, nodes[1..]);
      HasCons(head, Redirected(nodes[1..], id, deps));
      UniqueCons(head, Redirected(nodes[1..], id, deps));
    }
  }

  lemma HasIsIds(nodes: seq<Node>)
    ensures forall id :: id in Ids(nodes) <==> Has(nodes, id)
  {
    forall id ensures id in Ids(nodes) <==> Has(nodes, id) {
      if Has(nodes, id) {
        var n :| n in nodes && n.id == id;
        var k :| 0 <= k < |nodes| && nodes[k] == n;
        assert nodes[k].id in Ids(nodes);
      }
      if id in Ids(nodes) {
        var k :| 0 <= k < |nodes| && nodes[k].id == id;
        assert nodes[k] in nodes;
      }
    }
  }

  // ---------- the mutable graph ----------

  function WorkflowNode(id: string, role: string, operation: string, dependsOn: seq<string>, group: string): Node {
    Node(id, role, operation, dependsOn, None, group, [])
  }

  /** The dependencies `attachBeforeAcceptance` gives the attached node. */
  function AttachedDependencies(nodes: seq<Node>, node: Node): seq<string> {
    match NodeById(nodes, "acceptance")
    case None => node.dependsOn
    case Some(a) => if a.dependsOn == [] then node.dependsOn else Drop(a.dependsOn, node.id)
  }

  /** The node list after `attachBeforeAcceptance`. */
  function Attached(nodes: seq<Node>, node: Node): seq<Node> {
    var added := Added(nodes, node.(dependsOn := AttachedDependencies(nodes, node)));
    match NodeById(nodes, "acceptance")
    case None => added
    case Some(_) =>
      match NodeById(added, "acceptance")
      case None => added
      case Some(a) => if node.id in a.dependsOn then added
                      else Redirected(added, "acceptance", Unique(a.dependsOn + [node.id]))
  }

  lemma AttachedKeeps(nodes: seq<Node>, node: Node)
    ensures UniqueIds(nodes) ==> UniqueIds(Attached(nodes, node))
    ensures forall id :: Has(Attached(nodes, node), id) <==> Has(nodes, id) || id == node.id
    ensures NoWriters(nodes) && !IsWriter(node) ==> NoWriters(Attached(nodes, node))
  {
    var n := node.(dependsOn := AttachedDependencies(nodes, node));
    AddedKeeps(nodes, n);
    var added := Added(nodes, n);
    var a := NodeById(added, "acceptance");
    if a.Some? {
      RedirectedKeeps(added, "acceptance", Unique(a.value.dependsOn + [node.id]));
    }
  }

  /** Acceptance, where there is one, waits for the node. */
  ghost predicate AcceptanceWaits(nodes: seq<Node>, id: string) {
    forall a :: a in nodes && a.id == "acceptance" ==> id in a.dependsOn
  }

  lemma {:induction false} RedirectedSets(nodes: seq<Node>, id: string, deps: seq<string>)
    requires UniqueIds(nodes)
    ensures forall n :: n in Redirected(nodes, id, deps) && n.id == id ==> n.dependsOn == deps
  {
    if nodes != [] {
      var rest := nodes[1..];
      assert nodes == [nodes[0]] + rest;
      UniqueCons(nodes[0], rest);
      if nodes[0].id != id { RedirectedSets(rest, id, deps); }
    }
  }

  lemma {:induction false} FoundOnce(nodes: seq<Node>, id: string, n: Node)
    requires UniqueIds(nodes) && n in nodes && n.id == id
    ensures NodeById(nodes, id) == Some(n)
  {
    var rest := nodes[1..];
    assert nodes == [nodes[0]] + rest;
    UniqueCons(nodes[0], rest);
    if n != nodes[0] { FoundOnce(rest, id, n); }
  }

  /** A node attached before acceptance is one acceptance waits for. */
  lemma AttachedPrecedes(nodes: seq<Node>, node: Node)
    requires UniqueIds(nodes) && node.id != "acceptance"
    ensures AcceptanceWaits(Attached(nodes, node), node.id)
  {
    var n := node.(dependsOn := AttachedDependencies(nodes, node));
    var added := Added(nodes, n);
    AddedKeeps(nodes, n);
    var a := NodeById(added, "acceptance");
    var deps := if a.Some? then Unique(a.value.dependsOn + [node.id]) else [];
    RedirectedSets(added, "acceptance", deps);
    UniqueMembers(if a.Some? then a.value.dependsOn + [node.id] else [], node.id);
    NotFound(nodes, "acceptance");
    DagEngine.NodeOfMember(nodes, "acceptance");
    forall m | m in Attached(nodes, node) && m.id == "acceptance" ensures node.id in m.dependsOn {
      if m in added { FoundOnce(added, "acceptance", m); }
    }
  }

  /** A new node attached before acceptance waits for what acceptance waited for, where that was anything. */
  lemma AttachedTakesOver(nodes: seq<Node>, node: Node, acceptance: Node)
    requires UniqueIds(nodes) && node.id != "acceptance" && !Has(nodes, node.id)
    requires acceptance in nodes && acceptance.id == "acceptance"
    ensures exists n :: n in Attached(nodes, node) && n.id == node.id
              && (if acceptance.dependsOn == [] then n.dependsOn == node.dependsOn
                  else forall d :: d in n.dependsOn <==> d in acceptance.dependsOn && d != node.id)
  {
    var n := node.(dependsOn := AttachedDependencies(nodes, node));
    FoundOnce(nodes, "acceptance", acceptance);
    AddedNew(nodes, n);
    var added := Added(nodes, n);
    var a := NodeById(added, "acceptance");
    if a.Some? { RedirectedSpares(added, "acceptance", Unique(a.value.dependsOn + [node.id]), n); }
    if acceptance.dependsOn != [] {
      forall d ensures d in n.dependsOn <==> d in acceptance.dependsOn && d != node.id {
        DropMembers(acceptance.dependsOn, node.id, d);
      }
    }
    assert n in Attached(nodes, node);
  }

  lemma {:induction false} AddedNew(nodes: seq<Node>, node: Node)
    requires !Has(nodes, node.id)
    ensures node in Added(nodes, node)
  {
    if nodes != [] {
      assert nodes[0] in nodes && forall m :: m in nodes[1..] ==> m in nodes;
      AddedNew(nodes[1..], node);
    }
  }

  lemma {:induction false} RedirectedSpares(nodes: seq<Node>, id: string, deps: seq<string>, n: Node)
    requires n in nodes && n.id != id
    ensures n in Redirected(nodes, id, deps)
  {
    assert nodes == [nodes[0]] + nodes[1..];
    if n != nodes[0] && nodes[0].id != id { RedirectedSpares(nodes[1..], id, deps, n); }
  }

  const ARCHITECTURE_REVIEWER :=
    WorkflowNode("architecture-reviewer", "architecture-reviewer", "", ["reviewer"], "review")

  const MIGRATION_DRY_RUN := WorkflowNode("migration-dry-run", "", "MIGRATION_DRY_RUN", ["implementer"], "")

  /** The node an overlay adds to the work before review. */
  function OverlayExtra(overlay: Overlay, nodes: seq<Node>): Option<Node> {
    match overlay
    case PublicApi => Some(WorkflowNode("consumer-investigator", "investigator", "", ["analyst"], "read"))
    case Concurrency =>
      var deps := if NodeById(nodes, "reproduction-investigator").Some? then ["reproduction-investigator"] else ["analyst"];
      Some(WorkflowNode("second-hypothesis", "investigator", "", deps, "read"))
    case NoTests => Some(WorkflowNode("characterization", "", "BASELINE_CHARACTERIZATION", ["analyst"], ""))
    case GeneratedCode => Some(WorkflowNode("generator-investigator", "investigator", "", ["analyst"], "read"))
    case _ => None
  }

  /** The node an overlay puts before acceptance. */
  function OverlayGate(overlay: Overlay): Option<Node> {
    match overlay
    case SecuritySensitive => Some(WorkflowNode("security-reviewer", "security-reviewer", "", ["reviewer"], "review"))
    case PublicApi => Some(ARCHITECTURE_REVIEWER)
    case CrossCutting => Some(ARCHITECTURE_REVIEWER)
    case DataMutation => Some(MIGRATION_DRY_RUN)
    case Migration => Some(MIGRATION_DRY_RUN)
    case ProductionImpact => Some(WorkflowNode("rollback-evidence", "", "ROLLBACK_EVIDENCE", ["verification"], ""))
    case _ => None
  }

  function OverlayName(overlay: Overlay): string {
    match overlay
    case SecuritySensitive => "security-sensitive"
    case Authentication => "authentication"
    case PublicApi => "public-api"
    case DataMutation => "data-mutation"
    case Migration => "migration"
    case Concurrency => "concurrency"
    case CrossCutting => "cross-cutting"
    case UiVisible => "ui-visible"
    case ExternalContract => "external-contract"
    case ProductionImpact => "production-impact"
    case Destructive => "destructive"
    case NoTests => "no-tests"
    case Emergency => "emergency"
    case GeneratedCode => "generated-code"
  }

  lemma OverlayNodesRead(overlay: Overlay, nodes: seq<Node>)
    ensures OverlayExtra(overlay, nodes).Some? ==> !IsWriter(OverlayExtra(overlay, nodes).value)
    ensures OverlayGate(overlay).Some? ==> !IsWriter(OverlayGate(overlay).value) && OverlayGate(overlay).value.id != "acceptance"
  {
    hide NodeById;
  }

  function WithExtra(nodes: seq<Node>, extra: Option<Node>): seq<Node> {
    if extra.Some? then Added(nodes, extra.value) else nodes
  }

  function WithGate(nodes: seq<Node>, gate: Option<Node>): seq<Node> {
    if gate.Some? then Attached(nodes, gate.value) else nodes
  }

  predicate DeferrableOperation(operation: string) {
    operation == "SPEC_CONSISTENCY" || operation == "BEHAVIORAL_EQUIVALENCE"
  }

  const FAST_DROPS: seq<string> := [
    "planner", "plan-critic", "spec-investigator", "spec-consistency", "root-cause-investigator", "reproduction-investigator"]

  lemma DropsSpare()
    ensures "investigator" !in FAST_DROPS && "analyst" !in FAST_DROPS
  {
  }

  function Forbidden(actions: seq<string>, mode: Delivery): seq<string> {
    match mode
    case AnalysisOnly => Unique(actions + ["write-lease", "apply", "implementer"])
    case Runbook => Unique(actions + ["apply", "write-lease"])
    case SpecArtifact => Unique(actions + ["apply-to-user-tree"])
    case MitigationPatch => Unique(actions + ["apply-to-user-tree"])
    case _ => actions
  }

  lemma FindExactly(nodes: seq<Node>, id: string)
    ensures NodeById(nodes, id).Some? <==> Has(nodes, id)
  {
    NotFound(nodes, id);
    DagEngine.NodeOfMember(nodes, id);
  }

  lemma DescendsHas(a: seq<Node>, b: seq<Node>)
    requires Descends(a, b)
    ensures forall id :: Has(a, id) ==> Has(b, id)
  {
    forall id | Has(a, id) ensures Has(b, id) {
      var n :| n in a && n.id == id;
      var m :| m in b && SameKind(n, m);
    }
  }

  /** Only nodes of one operation may be gone; what is left keeps its operation. */
  ghost predicate Spares(before: seq<Node>, after: seq<Node>, operation: string) {
    forall m :: m in before && m.operation != operation ==> exists n :: n in after && SameKind(n, m)
  }

  lemma {:induction false} FirstOperation(nodes: seq<Node>, operation: string)
    ensures FirstWithOperation(nodes, operation).Some? ==>
              FirstWithOperation(nodes, operation).value in nodes && FirstWithOperation(nodes, operation).value.operation == operation
  {
    if nodes != [] { FirstOperation(nodes[1..], operation); }
  }

  lemma {:induction false} RemovedHas(nodes: seq<Node>, id: string, m: Node)
    requires m in nodes && m.id != id
    ensures Forget(m, id) in Removed(nodes, id)
  {
    assert nodes == [nodes[0]] + nodes[1..];
    if m != nodes[0] { RemovedHas(nodes[1..], id, m); }
  }

  lemma RemovedSpares(nodes: seq<Node>, gone: Node, operation: string)
    requires UniqueIds(nodes) && gone in nodes && gone.operation == operation
    ensures Spares(nodes, Removed(nodes, gone.id), operation)
  {
    forall m | m in nodes && m.operation != operation ensures exists n :: n in Removed(nodes, gone.id) && SameKind(n, m) {
      if m.id == gone.id {
        FoundOnce(nodes, m.id, m);
        FoundOnce(nodes, m.id, gone);
      }
      RemovedHas(nodes, gone.id, m);
      assert SameKind(Forget(m, gone.id), m);
    }
  }

  lemma TwiceSpared(before: seq<Node>, middle: seq<Node>, after: seq<Node>)
    requires Spares(before, middle, "SPEC_CONSISTENCY") && Spares(middle, after, "BEHAVIORAL_EQUIVALENCE")
    ensures forall m :: m in before && !DeferrableOperation(m.operation) ==> Has(after, m.id)
  {
    forall m | m in before && !DeferrableOperation(m.operation) ensures Has(after, m.id) {
      var n :| n in middle && SameKind(n, m);
      var o :| o in after && SameKind(o, n);
    }
  }

  predicate Implements(n: Node) {
    n.role == "implementer"
  }

  predicate IsOtherInvestigator(n: Node) {
    n.role == "investigator" && n.id != "investigator"
  }

  function FirstWithOperation(nodes: seq<Node>, operation: string): Option<Node> {
    if nodes == [] then None
    else if nodes[0].operation == operation then Some(nodes[0])
    else FirstWithOperation(nodes[1..], operation)
  }

  function FirstWithRole(nodes: seq<Node>, role: string): Option<Node> {
    if nodes == [] then None
    else if nodes[0].role == role then Some(nodes[0])
    else FirstWithRole(nodes[1..], role)
  }

  function InvestigatorSource(nodes: seq<Node>): Option<Node> {
    if NodeById(nodes, "code-investigator").Some? then NodeById(nodes, "code-investigator")
    else if NodeById(nodes, "investigator").Some? then NodeById(nodes, "investigator")
    else FirstWithRole(nodes, "investigator")
  }

  lemma {:induction false} FirstWithRoleMember(nodes: seq<Node>, role: string)
    ensures FirstWithRole(nodes, role).Some? ==> FirstWithRole(nodes, role).value in nodes
  {
    if nodes != [] && nodes[0].role != role { FirstWithRoleMember(nodes[1..], role); }
  }

  lemma SourceIsNode(nodes: seq<Node>)
    ensures InvestigatorSource(nodes).Some? ==> InvestigatorSource(nodes).value in nodes
  {
    DagEngine.NodeOfMember(nodes, "code-investigator");
    DagEngine.NodeOfMember(nodes, "investigator");
    FirstWithRoleMember(nodes, "investigator");
  }

  lemma {:induction false} NotFound(nodes: seq<Node>, id: string)
    ensures NodeById(nodes, id).None? ==> !Has(nodes, id)
  {
    if nodes != [] {
      NotFound(nodes[1..], id);
      HasCons(nodes[0], nodes[1..]);
      assert nodes == [nodes[0]] + nodes[1..];
    }
  }

  lemma DescendsSelf(nodes: seq<Node>)
    ensures Descends(nodes, nodes)
  {
    assert forall n :: n in nodes ==> SameKind(n, n);
  }

  lemma DescendsStep(a: seq<Node>, b: seq<Node>, c: seq<Node>)
    requires Descends(a, b) && Descends(b, c)
    ensures Descends(a, c)
  {
    forall n | n in a ensures exists m :: m in c && SameKind(n, m) {
      var k :| k in b && SameKind(n, k);
      var m :| m in c && SameKind(k, m);
      assert SameKind(n, m);
    }
  }

  lemma DescendsNoWriters(a: seq<Node>, b: seq<Node>)
    requires Descends(a, b)
    ensures NoWriters(b) ==> NoWriters(a)
  {
  }

  lemma DescendsNoImplementers(a: seq<Node>, b: seq<Node>)
    requires Descends(a, b)
    ensures NoImplementers(b) ==> NoImplementers(a)
  {
  }

  lemma DescendsInvestigators(a: seq<Node>, b: seq<Node>)
    requires Descends(a, b) && forall n :: n in b && n.role == "investigator" ==> n.id == "investigator"
    ensures forall n :: n in a && n.role == "investigator" ==> n.id == "investigator"
  {
  }

  lemma HasEach(nodes: seq<Node>)
    ensures forall n :: n in nodes ==> Has(nodes, n.id)
  {
  }

  lemma SurvivorsSpared(nodes: seq<Node>, snapshot: seq<Node>, doomed: Node -> bool)
    requires Descends(nodes, snapshot) && forall a, b :: SameKind(a, b) ==> doomed(a) == doomed(b)
    requires forall j :: 0 <= j < |snapshot| && doomed(snapshot[j]) ==> !Has(nodes, snapshot[j].id)
    ensures forall n :: n in nodes ==> !doomed(n)
  {
    forall n | n in nodes ensures !doomed(n) {
      var m :| m in snapshot && SameKind(n, m);
      var j :| 0 <= j < |snapshot| && snapshot[j] == m;
      assert Has(nodes, m.id);
    }
  }
}
