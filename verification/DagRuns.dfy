/** Whole runs of the workflow scheduler: rounds that start ready nodes and
    settle them, events of single nodes in between, and what the control plane
    does besides: it adds predicates, retries failed nodes and settles finished
    jobs. */
module DagRuns {
  import opened Digraph
  import opened Workflow
  import opened DagEngine

  datatype NodeEvent =
    NodeSpawned | ArtifactAccepted | NodeFailed | NodeCompleted | NodeRetrying | NodeBlocked | NodeSteered

  /** The events the reducer lets a node take in a status. */
  function Allowed(s: Status): set<NodeEvent> {
    match s
    case Pending => {NodeSpawned}
    case Spawned => {NodeSteered, NodeBlocked, NodeFailed, ArtifactAccepted, NodeRetrying}
    case WaitingArtifact => {ArtifactAccepted, NodeFailed, NodeSteered, NodeBlocked, NodeRetrying}
    case Validating => {ArtifactAccepted, NodeFailed, NodeRetrying}
    case Accepted => {NodeCompleted}
    case Retrying => {NodeSpawned, NodeFailed}
    case Failed => {NodeSpawned}
  }

  function Next(e: NodeEvent): Status {
    match e
    case NodeSpawned => Spawned
    case ArtifactAccepted => Accepted
    case NodeFailed => Failed
    case NodeCompleted => Accepted
    case NodeRetrying => Retrying
    case NodeBlocked => WaitingArtifact
    case NodeSteered => WaitingArtifact
  }

  /** A round accepts skipped nodes, then settles ready nodes in any way; an event moves one node. */
  datatype Step =
    | Round(outcome: map<string, Status>)
    | Event(id: string, event: NodeEvent)
    | AddPredicate(name: string)
    | RetryFailed(id: string)
    | FinishJob(id: string, status: Status)

  /** Only ready nodes are started; a failed node may be started again. A job was queued for a node that was ready then,
      so it finishes for one that may start now. */
  ghost predicate Possible(c: Cursor, step: Step) {
    match step
    case Round(outcome) =>
      Skipped(c).Some? && ReadySpec(Skipped(c).value).Some? && outcome.Keys <= ReadyIds(Skipped(c).value)
    case Event(id, e) =>
      && StatusOf(c, id).Some? && e in Allowed(StatusOf(c, id).value)
      && (e == NodeSpawned && StatusOf(c, id) != Some(Failed) ==> ReadySpec(c).Some? && id in ReadyIds(c))
    case AddPredicate(_) => true
    case RetryFailed(id) => StatusOf(c, id) == Some(Failed)
    case FinishJob(id, _) =>
      StatusOf(c, id) != Some(Accepted) && forall n :: n in c.profile && n.id == id ==> Startable(c, n)
  }

  /** An enabled node whose dependencies are accepted. */
  ghost predicate Startable(c: Cursor, n: Node) {
    Enabled(c, n) && DependenciesAccepted(c, n)
  }

  ghost function After(c: Cursor, step: Step): Cursor
    requires Possible(c, step)
  {
    match step
    case Round(outcome) => Settled(Skipped(c).value, outcome)
    case Event(id, e) => Settled(c, map[id := Next(e)])
    case AddPredicate(p) => if p in c.predicates then c else c.(predicates := c.predicates + [p])
    case RetryFailed(id) => Settled(c, map[id := Retrying])
    case FinishJob(id, status) => Settled(c, map[id := status])
  }

  function Settled(c: Cursor, changes: map<string, Status>): Cursor {
    c.(records := Settle(c.records, changes))
  }

  predicate HasBegun(s: Status) {
    !s.Pending? && !s.Accepted?
  }

  ghost predicate DependenciesAccepted(c: Cursor, n: Node) {
    forall d :: d in n.dependsOn ==> StatusOf(c, d) == Some(Accepted)
  }

  /** What a node's status may be: begun only when enabled and with its dependencies accepted. */
  ghost predicate Grounded(c: Cursor, n: Node, s: Status) {
    HasBegun(s) ==> Startable(c, n)
  }

  ghost predicate Orderly(c: Cursor) {
    WellFormed(c) && forall n :: n in c.profile ==> Grounded(c, n, StatusOf(c, n.id).value)
  }

  lemma {:induction false} SettleShape(records: seq<Record>, changes: map<string, Status>)
    ensures |Settle(records, changes)| == |records|
    ensures forall i :: 0 <= i < |records| ==>
              var r := records[i];
              Settle(records, changes)[i] == if r.nodeId in changes then r.(status := changes[r.nodeId]) else r
  {
    if records != [] { SettleShape(records[1..], changes); }
  }

  lemma StatusAfter(c: Cursor, changes: map<string, Status>, id: string)
    requires StatusOf(c, id).Some?
    ensures StatusOf(Settled(c, changes), id) == if id in changes then Some(changes[id]) else StatusOf(c, id)
  {
    SettleLookup(c.records, changes, id);
  }

  lemma SettledWellFormed(c: Cursor, changes: map<string, Status>)
    requires WellFormed(c)
    ensures WellFormed(Settled(c, changes))
  {
    var c' := Settled(c, changes);
    SettleShape(c.records, changes);
    forall n | n in c.profile ensures StatusOf(c', n.id).Some? {
      StatusAfter(c, changes, n.id);
    }
    forall r | r in c'.records
      ensures StatusOf(c', r.nodeId) == Some(r.status) && NodeOf(c.profile, r.nodeId).Some?
    {
      var i :| 0 <= i < |c'.records| && c'.records[i] == r;
      assert c.records[i] in c.records;
      StatusAfter(c, changes, r.nodeId);
    }
  }

  /** A change that keeps acceptances and begins only grounded nodes keeps the order. */
  lemma SettledOrderly(c: Cursor, changes: map<string, Status>)
    requires Orderly(c)
    requires forall id :: id in changes && StatusOf(c, id) == Some(Accepted) ==> changes[id] == Accepted
    requires forall n :: n in c.profile && n.id in changes ==> Grounded(c, n, changes[n.id])
    ensures Orderly(Settled(c, changes))
  {
    var c' := Settled(c, changes);
    SettledWellFormed(c, changes);
    forall n | n in c'.profile ensures Grounded(c', n, StatusOf(c', n.id).value) {
      StatusAfter(c, changes, n.id);
      assert Grounded(c, n, StatusOf(c', n.id).value);
      if HasBegun(StatusOf(c', n.id).value) {
        forall d | d in n.dependsOn ensures StatusOf(c', d) == Some(Accepted) {
          StatusAfter(c, changes, d);
        }
      }
    }
  }

  lemma SkippedOrderly(c: Cursor)
    requires Orderly(c)
    ensures Skipped(c).Some? && Orderly(Skipped(c).value) && DisabledAccepted(Skipped(c).value)
  {
    forall n | n in c.profile && !Enabled(c, n)
      ensures StatusOf(c, n.id) == Some(Pending) || StatusOf(c, n.id) == Some(Accepted)
    {
      assert Grounded(c, n, StatusOf(c, n.id).value);
    }
    SkippingDisablesNothingElse(c);
    var ids := SkippedDisabled(c, c.profile).value;
    SettledOrderly(c, map id | id in ids :: Accepted);
  }

  /** A ready node may begin. */
  lemma ReadyGrounded(c: Cursor, n: Node, s: Status)
    requires WellFormed(c) && UniqueIds(c.profile) && ReadySpec(c).Some?
    requires n in c.profile && n.id in ReadyIds(c)
    ensures StatusOf(c, n.id) != Some(Accepted) && Grounded(c, n, s)
  {
    Answers(c);
    var m :| m in ReadySpec(c).value && m.id == n.id;
    var i :| 0 <= i < |c.profile| && c.profile[i] == n;
    var j :| 0 <= j < |c.profile| && c.profile[j] == m;
    assert i == j;
    forall d | d in n.dependsOn ensures StatusOf(c, d).Some? {
      var k :| k in c.profile && k.id == d;
    }
    AllAcceptedMeans(c, n.dependsOn);
  }

  lemma RoundOrderly(c: Cursor, outcome: map<string, Status>)
    requires Orderly(c) && UniqueIds(c.profile) && ReadySpec(c).Some? && outcome.Keys <= ReadyIds(c)
    ensures Orderly(Settled(c, outcome))
  {
    Answers(c);
    forall n | n in c.profile && n.id in outcome
      ensures Grounded(c, n, outcome[n.id]) && StatusOf(c, n.id) != Some(Accepted)
    {
      ReadyGrounded(c, n, outcome[n.id]);
    }
    SettledOrderly(c, outcome);
  }

  lemma EventOrderly(c: Cursor, id: string, e: NodeEvent)
    requires Orderly(c) && UniqueIds(c.profile) && Possible(c, Event(id, e))
    ensures Orderly(Settled(c, map[id := Next(e)]))
  {
    forall n | n in c.profile && n.id == id ensures Grounded(c, n, Next(e)) {
      assert Grounded(c, n, StatusOf(c, id).value);
      if ReadySpec(c).Some? && id in ReadyIds(c) { ReadyGrounded(c, n, Next(e)); }
    }
    SettledOrderly(c, map[id := Next(e)]);
  }

  /** An event moves its node alone: to accepted or failed exactly when it says so, and else leaves it at work. */
  lemma EventMoves(c: Cursor, id: string, e: NodeEvent, other: string)
    requires Possible(c, Event(id, e)) && StatusOf(c, other).Some?
    ensures var next := After(c, Event(id, e));
      && (other != id ==> StatusOf(next, other) == StatusOf(c, other))
      && (StatusOf(next, id) == Some(Accepted) <==> e in {ArtifactAccepted, NodeCompleted})
      && (StatusOf(next, id) == Some(Failed) <==> e == NodeFailed)
      && (StatusOf(next, id) == Some(Retrying) <==> e == NodeRetrying)
      && (StatusOf(next, id) == Some(Spawned) <==> e == NodeSpawned)
      && (StatusOf(next, id) == Some(WaitingArtifact) <==> e in {NodeBlocked, NodeSteered})
  {
    StatusAfter(c, map[id := Next(e)], id);
    StatusAfter(c, map[id := Next(e)], other);
  }

  /** Every step keeps: a node has begun only when it is enabled and its dependencies are accepted. */
  lemma StepKeepsOrderly(c: Cursor, step: Step)
    requires Orderly(c) && UniqueIds(c.profile) && Possible(c, step)
    ensures Orderly(After(c, step)) && After(c, step).profile == c.profile
  {
    match step
    case Round(outcome) =>
      SkippedOrderly(c);
      RoundOrderly(Skipped(c).value, outcome);
    case Event(id, e) => EventOrderly(c, id, e);
    case AddPredicate(p) => PredicateOrderly(c, p);
    case RetryFailed(id) =>
      forall n | n in c.profile && n.id == id ensures Grounded(c, n, Retrying) {
        assert Grounded(c, n, StatusOf(c, id).value);
      }
      SettledOrderly(c, map[id := Retrying]);
    case FinishJob(id, status) => SettledOrderly(c, map[id := status]);
  }

  lemma PredicateOrderly(c: Cursor, p: string)
    requires Orderly(c)
    ensures Orderly(c.(predicates := c.predicates + [p]))
  {
    var c' := c.(predicates := c.predicates + [p]);
    forall id ensures StatusOf(c', id) == StatusOf(c, id) { }
    forall n | n in c'.profile ensures Grounded(c', n, StatusOf(c', n.id).value) {
      assert Grounded(c, n, StatusOf(c, n.id).value);
    }
  }

  /** No step takes an acceptance back. */
  lemma AcceptedStays(c: Cursor, step: Step, id: string)
    requires Orderly(c) && UniqueIds(c.profile) && Possible(c, step) && StatusOf(c, id) == Some(Accepted)
    ensures StatusOf(After(c, step), id) == Some(Accepted)
  {
    match step
    case Round(outcome) =>
      SkippedOrderly(c);
      var skipped := Skipped(c).value;
      var ids := SkippedDisabled(c, c.profile).value;
      StatusAfter(c, map d | d in ids :: Accepted, id);
      if id in outcome {
        Answers(skipped);
        var n :| n in ReadySpec(skipped).value && n.id == id;
        ReadyGrounded(skipped, n, Spawned);
      }
      StatusAfter(skipped, outcome, id);
    case Event(d, e) => StatusAfter(c, map[d := Next(e)], id);
    case AddPredicate(_) =>
    case RetryFailed(d) => StatusAfter(c, map[d := Retrying], id);
    case FinishJob(d, status) => StatusAfter(c, map[d := status], id);
  }

  /** A node that may start may start ever after: a queued job finishes for such a node. */
  lemma StartableStays(c: Cursor, step: Step, n: Node)
    requires Orderly(c) && UniqueIds(c.profile) && Possible(c, step) && Startable(c, n)
    ensures Startable(After(c, step), n)
  {
    forall d | d in n.dependsOn ensures StatusOf(After(c, step), d) == Some(Accepted) { AcceptedStays(c, step, d); }
  }

  /** `initialNodeRecords` */
  function InitialRecords(nodes: seq<Node>): seq<Record> {
    if nodes == [] then [] else [Record(nodes[0].id, Pending, 0)] + InitialRecords(nodes[1..])
  }

  lemma {:induction false} InitialLookup(nodes: seq<Node>, id: string)
    ensures RecordOf(InitialRecords(nodes), id) ==
            if exists n :: n in nodes && n.id == id then Some(Record(id, Pending, 0)) else None
    ensures NodeOf(nodes, id).Some? <==> exists n :: n in nodes && n.id == id
  {
    if nodes != [] {
      InitialLookup(nodes[1..], id);
      assert InitialRecords(nodes)[1..] == InitialRecords(nodes[1..]);
      HasIdCons(nodes, id);
    }
  }

  lemma HasIdCons(nodes: seq<Node>, id: string)
    requires nodes != []
    ensures (exists n :: n in nodes && n.id == id) <==> nodes[0].id == id || exists n :: n in nodes[1..] && n.id == id
  {
    if n :| n in nodes && n.id == id && n != nodes[0] {
      assert n in nodes[1..];
    }
    if n :| n in nodes[1..] && n.id == id {
      assert n in nodes;
    }
    assert nodes[0] in nodes;
  }

  lemma {:induction false} InitialMembers(nodes: seq<Node>)
    ensures forall r :: r in InitialRecords(nodes) ==> r.status == Pending && exists n :: n in nodes && n.id == r.nodeId
  {
    if nodes != [] {
      InitialMembers(nodes[1..]);
      assert nodes[0] in nodes;
      assert forall n :: n in nodes[1..] ==> n in nodes;
    }
  }

  ghost predicate Resolved(nodes: seq<Node>) {
    forall n, d :: n in nodes && d in n.dependsOn ==> exists m :: m in nodes && m.id == d
  }

  lemma InitialOrderly(nodes: seq<Node>, predicates: seq<string>)
    requires Resolved(nodes)
    ensures Orderly(Cursor(nodes, InitialRecords(nodes), predicates))
  {
    var c := Cursor(nodes, InitialRecords(nodes), predicates);
    forall n | n in nodes ensures StatusOf(c, n.id) == Some(Pending) {
      InitialLookup(nodes, n.id);
    }
    InitialMembers(nodes);
    forall r | r in c.records ensures StatusOf(c, r.nodeId) == Some(r.status) && NodeOf(nodes, r.nodeId).Some? {
      InitialLookup(nodes, r.nodeId);
    }
  }

  ghost predicate IsRun(states: seq<Cursor>, steps: seq<Step>) {
    && |states| == |steps| + 1
    && states[0].records == InitialRecords(states[0].profile)
    && forall i :: 0 <= i < |steps| ==> Moves(states[i], steps[i], states[i + 1])
  }

  ghost predicate Moves(c: Cursor, step: Step, c': Cursor) {
    Possible(c, step) && c' == After(c, step)
  }

  lemma {:induction false} RunOrderly(states: seq<Cursor>, steps: seq<Step>, k: nat)
    requires IsRun(states, steps) && k < |states|
    requires UniqueIds(states[0].profile) && Resolved(states[0].profile)
    ensures Orderly(states[k]) && states[k].profile == states[0].profile
  {
    if k == 0 {
      InitialOrderly(states[0].profile, states[0].predicates);
    } else {
      RunOrderly(states, steps, k - 1);
      assert Moves(states[k - 1], steps[k - 1], states[k - 1 + 1]);
      StepKeepsOrderly(states[k - 1], steps[k - 1]);
    }
  }

  /** Once a node may start it may in every later state of the run. */
  lemma {:induction false} StartableForever(states: seq<Cursor>, steps: seq<Step>, i: nat, k: nat, n: Node)
    requires IsRun(states, steps) && i <= k < |states| && Startable(states[i], n)
    requires UniqueIds(states[0].profile) && Resolved(states[0].profile)
    ensures Startable(states[k], n)
  {
    hide Possible, After, UniqueIds, Resolved, Startable;
    if i < k {
      StartableForever(states, steps, i, k - 1, n);
      RunOrderly(states, steps, k - 1);
      assert Moves(states[k - 1], steps[k - 1], states[k - 1 + 1]);
      StartableStays(states[k - 1], steps[k - 1], n);
    }
  }

  /** In every state of every run on an acyclic profile, what the controller schedules from is complete,
      unrecoverable or live, and only one of them: retries stay startable, so no run is silently stuck. */
  lemma RunsNeverStick(states: seq<Cursor>, steps: seq<Step>, k: nat)
    requires IsRun(states, steps) && k < |states|
    requires UniqueIds(states[0].profile) && Resolved(states[0].profile) && Acyclic(states[0].profile)
    ensures Skipped(states[k]).Some?
    ensures var c := Skipped(states[k]).value;
            && DagComplete(c).Some? && DagUnrecoverable(c).Some? && ReadySpec(c).Some?
            && (DagComplete(c).value || DagUnrecoverable(c).value || Live(c))
            && (DagComplete(c).value ==> !DagUnrecoverable(c).value && !Live(c))
            && (DagUnrecoverable(c).value ==> !Live(c))
  {
    RunOrderly(states, steps, k);
    SkippedOrderly(states[k]);
    var c := Skipped(states[k]).value;
    forall n, d | n in c.profile && Enabled(c, n) && StatusOf(c, n.id) == Some(Retrying) && d in n.dependsOn
      ensures StatusOf(c, d) == Some(Accepted)
    {
      assert Grounded(c, n, StatusOf(c, n.id).value);
    }
    NoSilentDeadlock(c);
  }
}
