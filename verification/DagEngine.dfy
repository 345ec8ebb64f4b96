/** Readiness, completion and stuck detection of the workflow scheduler. A
    lookup of an unknown node throws in the source; here it is `None`. */
module DagEngine {
  import opened Digraph
  import opened Workflow

  datatype Status = Pending | Spawned | WaitingArtifact | Validating | Retrying | Failed | Accepted

  datatype Record = Record(nodeId: string, status: Status, attempt: nat)

  datatype Cursor = Cursor(profile: seq<Node>, records: seq<Record>, predicates: seq<string>)

  function RecordOf(records: seq<Record>, id: string): Option<Record> {
    if records == [] then None
    else if records[0].nodeId == id then Some(records[0])
    else RecordOf(records[1..], id)
  }

  function NodeOf(nodes: seq<Node>, id: string): Option<Node> {
    if nodes == [] then None
    else if nodes[0].id == id then Some(nodes[0])
    else NodeOf(nodes[1..], id)
  }

  predicate Enabled(c: Cursor, n: Node) {
    n.when.None? || n.when.value in c.predicates
  }

  function StatusOf(c: Cursor, id: string): Option<Status> {
    match RecordOf(c.records, id)
    case None => None
    case Some(r) => Some(r.status)
  }

  predicate StillWorking(s: Status) {
    s.Spawned? || s.WaitingArtifact? || s.Validating? || s.Retrying?
  }

  function OccupiesWriterSlot(c: Cursor, r: Record): Option<bool> {
    if r.status.Pending? || r.status.Retrying? || r.status.Failed? || r.status.Accepted? then Some(false)
    else match NodeOf(c.profile, r.nodeId)
         case None => None
         case Some(n) => Some(IsWriter(n))
  }

  /** Whether some record holds the writer slot; every record is looked at. */
  function WriterBusy(c: Cursor, records: seq<Record>): Option<bool> {
    if records == [] then Some(false)
    else match OccupiesWriterSlot(c, records[0])
         case None => None
         case Some(w) =>
           match WriterBusy(c, records[1..])
           case None => None
           case Some(rest) => Some(w || rest)
  }

  /** Whether every dependency is accepted. */
  function AllAccepted(c: Cursor, deps: seq<string>): Option<bool> {
    if deps == [] then Some(true)
    else match StatusOf(c, deps[0])
         case None => None
         case Some(s) => if !s.Accepted? then Some(false) else AllAccepted(c, deps[1..])
  }

  function IsReady(c: Cursor, n: Node, busy: bool): Option<bool> {
    match StatusOf(c, n.id)
    case None => None
    case Some(s) =>
      if !s.Pending? && !s.Retrying? then Some(false)
      else if !Enabled(c, n) then Some(false)
      else match AllAccepted(c, n.dependsOn)
           case None => None
           case Some(all) => Some(all && !(IsWriter(n) && busy))
  }

  function ReadyAmong(c: Cursor, nodes: seq<Node>, busy: bool): Option<seq<Node>> {
    if nodes == [] then Some([])
    else
      var last := nodes[|nodes| - 1];
      match ReadyAmong(c, nodes[..|nodes| - 1], busy)
      case None => None
      case Some(ready) =>
        match IsReady(c, last, busy)
        case None => None
        case Some(yes) => Some(if yes then ready + [last] else ready)
  }

  function ReadySpec(c: Cursor): Option<seq<Node>> {
    match WriterBusy(c, c.records)
    case None => None
    case Some(busy) => ReadyAmong(c, c.profile, busy)
  }

  lemma {:induction false} ReadyAmongFails(c: Cursor, nodes: seq<Node>, busy: bool, k: nat)
    requires k <= |nodes| && ReadyAmong(c, nodes[..k], busy).None?
    ensures ReadyAmong(c, nodes, busy).None?
    decreases |nodes|
  {
    if k < |nodes| {
      assert nodes[..|nodes| - 1][..k] == nodes[..k];
      ReadyAmongFails(c, nodes[..|nodes| - 1], busy, k);
    } else {
      assert nodes[..k] == nodes;
    }
  }

  // ---------- readiness in plain terms ----------

  /** Some record of the id has one of the statuses. */
  ghost predicate RecordedAs(c: Cursor, id: string, statuses: set<Status>) {
    exists r :: r in c.records && r.nodeId == id && r.status in statuses
  }

  /** The record belongs to a node that may write: the first of its id has the role or the group of a writer. */
  ghost predicate BelongsToWriter(c: Cursor, r: Record) {
    exists i :: 0 <= i < |c.profile| && c.profile[i].id == r.nodeId &&
                (forall j :: 0 <= j < i ==> c.profile[j].id != r.nodeId) &&
                (c.profile[i].role == "implementer" || c.profile[i].concurrencyGroup == "write")
  }

  /** A node may start now: it is enabled and waiting, all it depends on is accepted, and a writer finds no other
      writer at work. */
  ghost predicate MayStart(c: Cursor, n: Node) {
    && (n.when.None? || n.when.value in c.predicates)
    && RecordedAs(c, n.id, {Pending, Retrying})
    && (forall d :: d in n.dependsOn ==> RecordedAs(c, d, {Accepted}))
    && (n.role == "implementer" || n.concurrencyGroup == "write" ==>
          forall r :: r in c.records && r.status in {Spawned, WaitingArtifact, Validating} ==> !BelongsToWriter(c, r))
  }

  /** The nodes of a list that may start, in its order. */
  ghost function Startables(c: Cursor, nodes: seq<Node>): seq<Node> {
    if nodes == [] then []
    else if MayStart(c, nodes[0]) then [nodes[0]] + Startables(c, nodes[1..])
    else Startables(c, nodes[1..])
  }

  lemma {:induction false} StartablesMembers(c: Cursor, nodes: seq<Node>, n: Node)
    ensures n in Startables(c, nodes) <==> n in nodes && MayStart(c, n)
  {
    hide MayStart;
    if nodes != [] {
      StartablesMembers(c, nodes[1..], n);
      assert nodes == [nodes[0]] + nodes[1..];
    }
  }

  lemma {:induction false} StartablesSnoc(c: Cursor, nodes: seq<Node>, n: Node)
    ensures Startables(c, nodes + [n]) == Startables(c, nodes) + if MayStart(c, n) then [n] else []
  {
    hide MayStart;
    if nodes == [] {
      assert nodes + [n] == [n] && [n][1..] == [];
    } else {
      StartablesSnoc(c, nodes[1..], n);
      assert (nodes + [n])[1..] == nodes[1..] + [n] && (nodes + [n])[0] == nodes[0];
    }
  }

  lemma RecordedExactly(c: Cursor, id: string, statuses: set<Status>)
    requires WellFormed(c) && StatusOf(c, id).Some?
    ensures RecordedAs(c, id, statuses) <==> StatusOf(c, id).value in statuses
  {
    hide NodeOf;
    if StatusOf(c, id).value in statuses {
      RecordOfMember(c.records, id);
    }
  }

  lemma {:induction false} RecordOfMember(records: seq<Record>, id: string)
    ensures RecordOf(records, id).Some? ==> RecordOf(records, id).value in records && RecordOf(records, id).value.nodeId == id
  {
    if records != [] && records[0].nodeId != id { RecordOfMember(records[1..], id); }
  }

  lemma {:induction false} NodeOfFirst(nodes: seq<Node>, id: string) returns (i: nat)
    requires NodeOf(nodes, id).Some?
    ensures i < |nodes| && nodes[i] == NodeOf(nodes, id).value && nodes[i].id == id
    ensures forall j :: 0 <= j < i ==> nodes[j].id != id
  {
    if nodes[0].id == id {
      i := 0;
    } else {
      var k := NodeOfFirst(nodes[1..], id);
      i := k + 1;
    }
  }

  lemma BelongsExactly(c: Cursor, r: Record)
    requires NodeOf(c.profile, r.nodeId).Some?
    ensures BelongsToWriter(c, r) <==> IsWriter(NodeOf(c.profile, r.nodeId).value)
  {
    var i := NodeOfFirst(c.profile, r.nodeId);
    if BelongsToWriter(c, r) {
      var k :| 0 <= k < |c.profile| && c.profile[k].id == r.nodeId &&
               (forall j :: 0 <= j < k ==> c.profile[j].id != r.nodeId) &&
               (c.profile[k].role == "implementer" || c.profile[k].concurrencyGroup == "write");
      assert k == i;
    }
  }

  lemma BusyExactly(c: Cursor)
    requires WellFormed(c)
    ensures WriterBusy(c, c.records) == Some(exists r ::
              r in c.records && r.status in {Spawned, WaitingArtifact, Validating} && BelongsToWriter(c, r))
  {
    BusyMeans(c, c.records);
    hide WriterBusy, BelongsToWriter;
    forall r | r in c.records
      ensures OccupiesWriterSlot(c, r) == Some(true) <==>
              r.status in {Spawned, WaitingArtifact, Validating} && BelongsToWriter(c, r)
    {
      BelongsExactly(c, r);
    }
  }

  lemma MayStartExactly(c: Cursor, n: Node, busy: bool)
    requires WellFormed(c) && n in c.profile && WriterBusy(c, c.records) == Some(busy)
    ensures IsReady(c, n, busy) == Some(MayStart(c, n))
  {
    BusyExactly(c);
    RecordedExactly(c, n.id, {Pending, Retrying});
    forall d | d in n.dependsOn
      ensures StatusOf(c, d).Some? && (RecordedAs(c, d, {Accepted}) <==> StatusOf(c, d) == Some(Accepted))
    {
      var m :| m in c.profile && m.id == d;
      RecordedExactly(c, d, {Accepted});
    }
    AllAcceptedMeans(c, n.dependsOn);
    hide WellFormed, RecordedAs, BelongsToWriter, WriterBusy, AllAccepted;
  }

  lemma {:induction false} ReadyAreStartables(c: Cursor, nodes: seq<Node>, busy: bool)
    requires WellFormed(c) && WriterBusy(c, c.records) == Some(busy) && forall n :: n in nodes ==> n in c.profile
    ensures ReadyAmong(c, nodes, busy) == Some(Startables(c, nodes))
  {
    hide WellFormed, WriterBusy, IsReady, MayStart;
    if nodes != [] {
      var init, last := nodes[..|nodes| - 1], nodes[|nodes| - 1];
      assert nodes == init + [last] && last in nodes;
      assert forall n :: n in init ==> n in nodes;
      ReadyAreStartables(c, init, busy);
      MayStartExactly(c, last, busy);
      StartablesSnoc(c, init, last);
      assert Startables(c, nodes) == Startables(c, init) + if MayStart(c, last) then [last] else [];
      assert Startables(c, init) + [] == Startables(c, init);
    }
  }

  /** On a well-formed cursor the ready nodes are exactly those of the profile that may start, in profile order. */
  lemma ReadyExactly(c: Cursor)
    requires WellFormed(c)
    ensures ReadySpec(c) == Some(Startables(c, c.profile))
    ensures forall n :: n in ReadySpec(c).value <==> n in c.profile && MayStart(c, n)
  {
    BusyExactly(c);
    hide WriterBusy, MayStart, WellFormed;
    ReadyAreStartables(c, c.profile, WriterBusy(c, c.records).value);
    forall n ensures n in Startables(c, c.profile) <==> n in c.profile && MayStart(c, n) {
      StartablesMembers(c, c.profile, n);
    }
  }

  /** The loop; on a well-formed cursor it lists the nodes that may start, in profile order, and no others. */
  method ReadyNodes(c: Cursor) returns (r: Option<seq<Node>>)
    ensures r == ReadySpec(c)
    ensures WellFormed(c) ==> r == Some(Startables(c, c.profile))
    ensures WellFormed(c) ==> forall n :: n in r.value <==> n in c.profile && MayStart(c, n)
  {
    hide MayStart, WellFormed, IsReady, WriterBusy;
    if WellFormed(c) { ReadyExactly(c); }
    var busy := WriterBusy(c, c.records);
    if busy.None? {
      return None;
    }
    var ready: seq<Node> := [];
    var index := 0;
    while index < |c.profile|
      invariant 0 <= index <= |c.profile|
      invariant ReadyAmong(c, c.profile[..index], busy.value) == Some(ready)
    {
      var spec := c.profile[index];
      assert c.profile[..index + 1][..index] == c.profile[..index];
      var yes := IsReady(c, spec, busy.value);
      if yes.None? {
        ReadyAmongFails(c, c.profile, busy.value, index + 1);
        return None;
      }
      if yes.value {
        ready := ready + [spec];
      }
      index := index + 1;
    }
    assert c.profile[..index] == c.profile;
    return Some(ready);
  }

  /** `dagComplete`: every enabled node is accepted. */
  function Complete(c: Cursor, nodes: seq<Node>): Option<bool> {
    if nodes == [] then Some(true)
    else if !Enabled(c, nodes[0]) then Complete(c, nodes[1..])
    else match StatusOf(c, nodes[0].id)
         case None => None
         case Some(s) => if s.Accepted? then Complete(c, nodes[1..]) else Some(false)
  }

  /** Whether some enabled node has a status that passes the test. */
  function SomeEnabled(c: Cursor, nodes: seq<Node>, test: Status -> bool): Option<bool> {
    if nodes == [] then Some(false)
    else if !Enabled(c, nodes[0]) then SomeEnabled(c, nodes[1..], test)
    else match StatusOf(c, nodes[0].id)
         case None => None
         case Some(s) => if test(s) then Some(true) else SomeEnabled(c, nodes[1..], test)
  }

  function DagComplete(c: Cursor): Option<bool> {
    Complete(c, c.profile)
  }

  predicate HasFailed(s: Status) {
    s.Failed?
  }

  function DagUnrecoverable(c: Cursor): Option<bool> {
    match SomeEnabled(c, c.profile, HasFailed)
    case None => None
    case Some(failed) =>
      if !failed then Some(false)
      else match SomeEnabled(c, c.profile, StillWorking)
           case None => None
           case Some(working) =>
             if working then Some(false)
             else match ReadySpec(c)
                  case None => None
                  case Some(ready) => Some(ready == [])
  }

  // ---------- what the answers mean ----------

  /** One record per node, and every dependency resolved. */
  ghost predicate WellFormed(c: Cursor) {
    && (forall n :: n in c.profile ==> StatusOf(c, n.id).Some?)
    && (forall n, d :: n in c.profile && d in n.dependsOn ==> exists m :: m in c.profile && m.id == d)
    && (forall r :: r in c.records ==> StatusOf(c, r.nodeId) == Some(r.status) && NodeOf(c.profile, r.nodeId).Some?)
  }

  /** The controller marks disabled nodes accepted before it schedules. */
  ghost predicate DisabledAccepted(c: Cursor) {
    forall n :: n in c.profile && !Enabled(c, n) ==> StatusOf(c, n.id) == Some(Accepted)
  }

  /** Some enabled node has one of the statuses. */
  ghost predicate SomeNode(c: Cursor, statuses: set<Status>) {
    exists n :: n in c.profile && Enabled(c, n) && StatusOf(c, n.id).Some? && StatusOf(c, n.id).value in statuses
  }

  /** The statuses of a node an agent is at work on. A retrying node waits to be started again. */
  const ACTIVE := {Spawned, WaitingArtifact, Validating}

  /** Some enabled node is active, or some node can be started now. */
  ghost predicate Live(c: Cursor)
    requires ReadySpec(c).Some?
  {
    SomeNode(c, ACTIVE) || ReadySpec(c).value != []
  }

  /** Nothing runs, nothing can start, and the scheduler reports neither end. */
  ghost predicate Stuck(c: Cursor)
    requires ReadySpec(c).Some?
  {
    DagComplete(c) == Some(false) && DagUnrecoverable(c) == Some(false) && !Live(c)
  }

  lemma {:induction false} NodeOfMember(nodes: seq<Node>, id: string)
    ensures NodeOf(nodes, id).Some? ==> NodeOf(nodes, id).value in nodes && NodeOf(nodes, id).value.id == id
  {
    if nodes != [] && nodes[0].id != id { NodeOfMember(nodes[1..], id); }
  }

  lemma {:induction false} AllAcceptedMeans(c: Cursor, deps: seq<string>)
    requires forall d :: d in deps ==> StatusOf(c, d).Some?
    ensures AllAccepted(c, deps) == Some(forall d :: d in deps ==> StatusOf(c, d) == Some(Accepted))
  {
    if deps != [] {
      assert deps[0] in deps;
      assert forall d :: d in deps[1..] ==> d in deps;
      AllAcceptedMeans(c, deps[1..]);
      assert deps == [deps[0]] + deps[1..];
    }
  }

  lemma {:induction false} BusyMeans(c: Cursor, records: seq<Record>)
    requires forall r :: r in records ==> NodeOf(c.profile, r.nodeId).Some?
    ensures WriterBusy(c, records) == Some(exists r :: r in records && OccupiesWriterSlot(c, r) == Some(true))
  {
    if records != [] {
      assert records[0] in records;
      assert forall r :: r in records[1..] ==> r in records;
      BusyMeans(c, records[1..]);
      assert records == [records[0]] + records[1..];
    }
  }

  lemma {:induction false} CompleteMeans(c: Cursor, nodes: seq<Node>)
    requires forall n :: n in nodes ==> StatusOf(c, n.id).Some?
    ensures Complete(c, nodes) == Some(forall n :: n in nodes && Enabled(c, n) ==> StatusOf(c, n.id) == Some(Accepted))
  {
    if nodes != [] {
      assert nodes[0] in nodes;
      assert forall n :: n in nodes[1..] ==> n in nodes;
      CompleteMeans(c, nodes[1..]);
      assert nodes == [nodes[0]] + nodes[1..];
    }
  }

  lemma {:induction false} SomeEnabledMeans(c: Cursor, nodes: seq<Node>, test: Status -> bool)
    requires forall n :: n in nodes ==> StatusOf(c, n.id).Some?
    ensures SomeEnabled(c, nodes, test) ==
            Some(exists n :: n in nodes && Enabled(c, n) && test(StatusOf(c, n.id).value))
  {
    if nodes != [] {
      assert nodes[0] in nodes;
      assert forall n :: n in nodes[1..] ==> n in nodes;
      SomeEnabledMeans(c, nodes[1..], test);
      assert nodes == [nodes[0]] + nodes[1..];
    }
  }

  lemma {:induction false} ReadyMeans(c: Cursor, nodes: seq<Node>, busy: bool)
    requires forall n :: n in nodes ==> IsReady(c, n, busy).Some?
    ensures ReadyAmong(c, nodes, busy).Some?
    ensures forall n :: n in ReadyAmong(c, nodes, busy).value <==> n in nodes && IsReady(c, n, busy) == Some(true)
  {
    if nodes != [] {
      var init := nodes[..|nodes| - 1];
      assert nodes[|nodes| - 1] in nodes;
      assert forall n :: n in init ==> n in nodes;
      ReadyMeans(c, init, busy);
      assert nodes == init + [nodes[|nodes| - 1]];
    }
  }

  lemma {:induction false} DependencyLookup(nodes: seq<Node>, n: Node)
    requires UniqueIds(nodes) && n in nodes
    ensures n.id in DependencyMap(nodes) && DependencyMap(nodes)[n.id] == n.dependsOn
  {
    var last := nodes[|nodes| - 1];
    var init := nodes[..|nodes| - 1];
    assert nodes == init + [last];
    if n != last {
      assert n in init;
      DependencyLookup(init, n);
      var k :| 0 <= k < |init| && init[k] == n;
      assert nodes[k].id != nodes[|nodes| - 1].id;
    }
  }

  lemma DependencyEdge(nodes: seq<Node>, n: Node, d: string)
    requires UniqueIds(nodes) && n in nodes && d in n.dependsOn
    ensures Edge(DependencyGraph(nodes), n.id, d)
  {
    DependencyLookup(nodes, n);
  }

  /** All three questions have an answer on a well-formed cursor. */
  lemma Answers(c: Cursor)
    requires WellFormed(c)
    ensures WriterBusy(c, c.records).Some? && ReadySpec(c).Some?
    ensures forall n :: n in ReadySpec(c).value <==>
              n in c.profile && IsReady(c, n, WriterBusy(c, c.records).value) == Some(true)
    ensures DagComplete(c).Some? && DagUnrecoverable(c).Some?
  {
    BusyMeans(c, c.records);
    var busy := WriterBusy(c, c.records).value;
    forall n | n in c.profile ensures IsReady(c, n, busy).Some? {
      forall d | d in n.dependsOn ensures StatusOf(c, d).Some? {
        var m :| m in c.profile && m.id == d;
      }
      AllAcceptedMeans(c, n.dependsOn);
    }
    ReadyMeans(c, c.profile, busy);
    CompleteMeans(c, c.profile);
    SomeEnabledMeans(c, c.profile, HasFailed);
    SomeEnabledMeans(c, c.profile, StillWorking);
  }

  /** A busy writer slot is held by an enabled node that is active. */
  lemma BusyIsActive(c: Cursor)
    requires WellFormed(c) && DisabledAccepted(c)
    ensures WriterBusy(c, c.records) == Some(true) ==> SomeNode(c, ACTIVE)
  {
    BusyMeans(c, c.records);
    if WriterBusy(c, c.records) == Some(true) {
      var r :| r in c.records && OccupiesWriterSlot(c, r) == Some(true);
      NodeOfMember(c.profile, r.nodeId);
      var n := NodeOf(c.profile, r.nodeId).value;
      assert n in c.profile && Enabled(c, n) && StatusOf(c, n.id) == Some(r.status);
    }
  }

  /** What the three answers mean on a well-formed cursor. */
  lemma AnswersMean(c: Cursor)
    requires WellFormed(c)
    ensures ReadySpec(c).Some? && DagComplete(c).Some? && DagUnrecoverable(c).Some?
    ensures DagComplete(c).value <==> !SomeNode(c, {Pending, Retrying, Failed} + ACTIVE)
    ensures DagUnrecoverable(c).value <==> SomeNode(c, {Failed}) && !SomeNode(c, {Retrying} + ACTIVE) && ReadySpec(c).value == []
  {
    Answers(c);
    CompleteAnswer(c);
    FailedAnswer(c);
    WorkingAnswer(c);
    hide WellFormed, SomeNode, Complete, SomeEnabled, ReadySpec;
  }

  lemma CompleteAnswer(c: Cursor)
    requires WellFormed(c)
    ensures Complete(c, c.profile) == Some(!SomeNode(c, {Pending, Retrying, Failed} + ACTIVE))
  {
    CompleteMeans(c, c.profile);
    hide StatusOf, NodeOf, Complete;
    forall n | n in c.profile && Enabled(c, n)
      ensures StatusOf(c, n.id) == Some(Accepted) <==> StatusOf(c, n.id).value !in {Pending, Retrying, Failed} + ACTIVE
    {
      Statuses(StatusOf(c, n.id).value);
    }
  }

  lemma Statuses(s: Status)
    ensures s in {Pending, Retrying, Failed} + ACTIVE <==> s != Accepted
  {
    match s case _ =>
  }

  lemma FailedAnswer(c: Cursor)
    requires WellFormed(c)
    ensures SomeEnabled(c, c.profile, HasFailed) == Some(SomeNode(c, {Failed}))
  {
    SomeEnabledMeans(c, c.profile, HasFailed);
    hide StatusOf, NodeOf, SomeEnabled;
  }

  lemma WorkingAnswer(c: Cursor)
    requires WellFormed(c)
    ensures SomeEnabled(c, c.profile, StillWorking) == Some(SomeNode(c, {Retrying} + ACTIVE))
  {
    SomeEnabledMeans(c, c.profile, StillWorking);
    hide StatusOf, NodeOf, SomeEnabled;
  }

  /** A waiting enabled node that cannot start waits for another unaccepted enabled node. */
  lemma WaitsFor(c: Cursor, n: Node) returns (m: Node)
    requires WellFormed(c) && DisabledAccepted(c) && UniqueIds(c.profile)
    requires n in c.profile && Enabled(c, n) && StatusOf(c, n.id) in {Some(Pending), Some(Retrying)}
    requires ReadySpec(c) == Some([]) && !SomeNode(c, ACTIVE)
    ensures m in c.profile && Enabled(c, m) && StatusOf(c, m.id) != Some(Accepted)
    ensures Edge(DependencyGraph(c.profile), n.id, m.id)
  {
    Answers(c);
    BusyIsActive(c);
    assert IsReady(c, n, false) != Some(true) by { assert n !in ReadySpec(c).value; }
    forall d | d in n.dependsOn ensures StatusOf(c, d).Some? {
      var k :| k in c.profile && k.id == d;
    }
    AllAcceptedMeans(c, n.dependsOn);
    var d :| d in n.dependsOn && StatusOf(c, d) != Some(Accepted);
    m :| m in c.profile && m.id == d;
    DependencyEdge(c.profile, n, d);
  }

  lemma HeadMember<T>(s: seq<T>)
    ensures s == [] || exists x :: x in s
  {
    assert s == [] || s[0] in s;
  }

  /** A stuck run without a failed node has a cyclic profile. */
  lemma StuckIsCyclic(c: Cursor)
    requires WellFormed(c) && UniqueIds(c.profile) && DisabledAccepted(c)
    requires ReadySpec(c).Some? && Stuck(c) && !SomeNode(c, {Failed})
    ensures Cyclic(DependencyGraph(c.profile))
  {
    AnswersMean(c);
    forall n | n in c.profile && Enabled(c, n) && StatusOf(c, n.id) != Some(Accepted)
      ensures StatusOf(c, n.id) in {Some(Pending), Some(Retrying)}
    {
      var s := StatusOf(c, n.id).value;
      assert s !in {Failed} && s !in ACTIVE;
      assert s != Spawned && s != WaitingArtifact && s != Validating && s != Accepted;
    }
    hide WellFormed, DisabledAccepted, Complete, DagUnrecoverable, ReadyAmong, StatusOf;
    var g := DependencyGraph(c.profile);
    var stuck := set n | n in c.profile && Enabled(c, n) && StatusOf(c, n.id) != Some(Accepted) :: n.id;
    forall id | id in stuck ensures HasSuccessorIn(g, id, stuck) {
      var n :| n in c.profile && Enabled(c, n) && StatusOf(c, n.id) != Some(Accepted) && n.id == id;
      var m := WaitsFor(c, n);
      assert m.id in stuck;
    }
    var n :| n in c.profile && Enabled(c, n) && StatusOf(c, n.id) != Some(Accepted);
    assert n.id in stuck;
    TrappedHasCycle(stuck, g);
  }

  /** On an acyclic profile exactly one holds: complete, unrecoverable, live, or stuck. It is stuck exactly when
      nothing is active or ready while one enabled node has failed and another is waiting to retry. */
  lemma StuckExactly(c: Cursor)
    requires WellFormed(c) && UniqueIds(c.profile) && Acyclic(c.profile) && DisabledAccepted(c)
    ensures DagComplete(c).Some? && DagUnrecoverable(c).Some? && ReadySpec(c).Some?
    ensures Stuck(c) <==>
            !SomeNode(c, ACTIVE) && ReadySpec(c).value == [] && SomeNode(c, {Failed}) && SomeNode(c, {Retrying})
    ensures DagComplete(c).value ==> !DagUnrecoverable(c).value && !Live(c)
    ensures DagUnrecoverable(c).value ==> !Live(c)
  {
    AnswersMean(c);
    Answers(c);
    if DagComplete(c).value { HeadMember(ReadySpec(c).value); }
    if Stuck(c) && !SomeNode(c, {Failed}) { StuckIsCyclic(c); }
  }

  /** Every node waiting to retry has its dependencies accepted. */
  ghost predicate RetriesCanStart(c: Cursor) {
    forall n, d :: n in c.profile && Enabled(c, n) && StatusOf(c, n.id) == Some(Retrying) && d in n.dependsOn ==>
      StatusOf(c, d) == Some(Accepted)
  }

  /** Then the run is complete, unrecoverable or live, and only one of them. */
  lemma NoSilentDeadlock(c: Cursor)
    requires WellFormed(c) && UniqueIds(c.profile) && Acyclic(c.profile) && DisabledAccepted(c) && RetriesCanStart(c)
    ensures DagComplete(c).Some? && DagUnrecoverable(c).Some? && ReadySpec(c).Some?
    ensures DagComplete(c).value || DagUnrecoverable(c).value || Live(c)
    ensures DagComplete(c).value ==> !DagUnrecoverable(c).value && !Live(c)
    ensures DagUnrecoverable(c).value ==> !Live(c)
  {
    StuckExactly(c);
    if Stuck(c) {
      Answers(c);
      BusyIsActive(c);
      var n :| n in c.profile && Enabled(c, n) && StatusOf(c, n.id).Some? && StatusOf(c, n.id).value in {Retrying};
      AllAcceptedMeans(c, n.dependsOn);
    }
  }

  /** The failing input: a dependency that failed while its dependent waits to retry. */
  lemma RetryingDependentSticks()
    ensures exists c :: WellFormed(c) && UniqueIds(c.profile) && Acyclic(c.profile) && DisabledAccepted(c) &&
                        ReadySpec(c).Some? && Stuck(c)
  {
    var a := Node("a", "analyst", "", [], None, "read", []);
    var b := Node("b", "analyst", "", ["a"], None, "read", []);
    var c := TwoNodeCursor(a, b, Failed, Retrying);
    TwoNodesWellFormed(a, b, Failed, Retrying);
    NothingReady(c, a, b);
    hide WellFormed, UniqueIds, Acyclic, DisabledAccepted, ReadySpec, DagComplete, DagUnrecoverable, NodeOf;
    assert a in c.profile && Enabled(c, a) && b in c.profile && Enabled(c, b);
    assert StatusOf(c, a.id).value in {Failed} && StatusOf(c, b.id).value in {Retrying};
    assert SomeNode(c, {Failed}) && SomeNode(c, {Retrying}) && !SomeNode(c, ACTIVE);
    StuckExactly(c);
  }

  /** Two nodes where the second depends on the unaccepted first, which cannot start. */
  lemma NothingReady(c: Cursor, a: Node, b: Node)
    requires WellFormed(c) && c.profile == [a, b] && b.dependsOn == [a.id] && StatusOf(c, a.id) != Some(Accepted)
    requires StatusOf(c, a.id) == Some(Failed) || !Enabled(c, a)
    ensures ReadySpec(c) == Some([])
  {
    Answers(c);
    var busy := WriterBusy(c, c.records).value;
    hide WriterBusy;
    assert a in c.profile && b in c.profile && a.id in b.dependsOn;
    AllAcceptedMeans(c, b.dependsOn);
    assert IsReady(c, a, busy) != Some(true) && IsReady(c, b, busy) != Some(true);
    HeadMember(ReadySpec(c).value);
  }

  /** `skippedDisabledNodes` */
  function SkippedDisabled(c: Cursor, nodes: seq<Node>): Option<seq<string>> {
    if nodes == [] then Some([])
    else match StatusOf(c, nodes[0].id)
         case None => None
         case Some(s) =>
           match SkippedDisabled(c, nodes[1..])
           case None => None
           case Some(rest) => Some(if s.Pending? && !Enabled(c, nodes[0]) then [nodes[0].id] + rest else rest)
  }

  /** The records with some statuses changed. */
  function Settle(records: seq<Record>, changes: map<string, Status>): seq<Record> {
    if records == [] then []
    else
      var r := records[0];
      [if r.nodeId in changes then r.(status := changes[r.nodeId]) else r] + Settle(records[1..], changes)
  }

  lemma {:induction false} SettleLookup(records: seq<Record>, changes: map<string, Status>, id: string)
    ensures RecordOf(records, id).None? ==> RecordOf(Settle(records, changes), id).None?
    ensures RecordOf(records, id).Some? ==>
              var r := RecordOf(records, id).value;
              RecordOf(Settle(records, changes), id) == Some(if id in changes then r.(status := changes[id]) else r)
  {
    if records != [] {
      SettleLookup(records[1..], changes, id);
      assert Settle(records, changes)[1..] == Settle(records[1..], changes);
    }
  }

  /** The cursor the controller schedules from: pending disabled nodes are accepted first. */
  function Skipped(c: Cursor): Option<Cursor> {
    match SkippedDisabled(c, c.profile)
    case None => None
    case Some(ids) => Some(c.(records := Settle(c.records, map id | id in ids :: Accepted)))
  }

  lemma {:induction false} SkippedMeans(c: Cursor, nodes: seq<Node>)
    requires forall n :: n in nodes ==> StatusOf(c, n.id).Some?
    ensures SkippedDisabled(c, nodes).Some?
    ensures forall id :: id in SkippedDisabled(c, nodes).value <==>
              exists n :: n in nodes && n.id == id && !Enabled(c, n) && StatusOf(c, n.id) == Some(Pending)
  {
    if nodes != [] {
      assert nodes[0] in nodes;
      assert forall n :: n in nodes[1..] ==> n in nodes;
      SkippedMeans(c, nodes[1..]);
      assert nodes == [nodes[0]] + nodes[1..];
    }
  }

  /** Accepting the skipped nodes establishes what `NoSilentDeadlock` asks for,
      provided no disabled node had been started before it was disabled. */
  lemma SkippingDisablesNothingElse(c: Cursor)
    requires forall n :: n in c.profile ==> StatusOf(c, n.id).Some?
    requires forall n :: n in c.profile && !Enabled(c, n) ==>
               StatusOf(c, n.id) == Some(Pending) || StatusOf(c, n.id) == Some(Accepted)
    ensures Skipped(c).Some? && DisabledAccepted(Skipped(c).value)
  {
    SkippedMeans(c, c.profile);
    var ids := SkippedDisabled(c, c.profile).value;
    var changes := map id | id in ids :: Accepted;
    var c' := c.(records := Settle(c.records, changes));
    forall n | n in c.profile && !Enabled(c', n) ensures StatusOf(c', n.id) == Some(Accepted) {
      SettleLookup(c.records, changes, n.id);
    }
  }

  /** Without that step the promise fails: a pending disabled dependency leaves the run
      stuck. */
  lemma DisabledDependencyDeadlocks()
    ensures exists c :: WellFormed(c) && UniqueIds(c.profile) && Acyclic(c.profile) && !DisabledAccepted(c) &&
                        ReadySpec(c).Some? && Stuck(c)
  {
    var a := Node("a", "analyst", "", [], Some("X"), "read", []);
    var b := Node("b", "analyst", "", ["a"], None, "read", []);
    var c := TwoNodeCursor(a, b, Pending, Pending);
    TwoNodesWellFormed(a, b, Pending, Pending);
    NothingReady(c, a, b);
    AnswersMean(c);
    assert a in c.profile && !Enabled(c, a) && b in c.profile && Enabled(c, b) && StatusOf(c, "b").value in {Pending};
  }

  function TwoNodeCursor(a: Node, b: Node, first: Status, second: Status): Cursor {
    Cursor([a, b], [Record(a.id, first, 0), Record(b.id, second, 0)], [])
  }

  lemma TwoNodesWellFormed(a: Node, b: Node, first: Status, second: Status)
    requires a.id != b.id && a.dependsOn == [] && (b.dependsOn == [] || b.dependsOn == [a.id])
    ensures var c := TwoNodeCursor(a, b, first, second);
            WellFormed(c) && UniqueIds(c.profile) && Acyclic(c.profile) &&
            StatusOf(c, a.id) == Some(first) && StatusOf(c, b.id) == Some(second)
  {
    var c := TwoNodeCursor(a, b, first, second);
    var ra, rb := c.records[0], c.records[1];
    assert RecordOf([ra, rb], a.id) == Some(ra) && RecordOf([ra, rb][1..], b.id) == Some(rb);
    assert NodeOf(c.profile, a.id) == Some(a) && NodeOf(c.profile[1..], b.id) == Some(b);
    assert a in c.profile;
    TwoNodesAcyclic(a, b);
  }

  lemma TwoNodesAcyclic(a: Node, b: Node)
    requires a.id != b.id && a.dependsOn == [] && (b.dependsOn == [] || b.dependsOn == [a.id])
    ensures Acyclic([a, b])
  {
    var nodes := [a, b];
    var g := DependencyGraph(nodes);
    DependencyLookup(nodes, a);
    DependencyLookup(nodes, b);
    var order := [a.id, b.id];
    forall i, w | 0 <= i < |order| && Edge(g, order[i], w) ensures w in order[..i] {
      assert i == 1 && w == a.id && order[..1] == [a.id];
    }
    forall p | IsCycle(p, g) ensures false {
      CycleStartsAtKey(p, g);
      DependencyMapKeys(nodes, p[0]);
      assert p[0] in order;
      TopologicalAcyclic(order, g, p);
    }
  }

  // ---------- the single writer ----------

  /** The number of active writers. */
  function ActiveWriters(c: Cursor, records: seq<Record>): nat {
    if records == [] then 0
    else (if OccupiesWriterSlot(c, records[0]) == Some(true) then 1 else 0) + ActiveWriters(c, records[1..])
  }

  /** The records after starting the nodes of some ids. */
  function Started(records: seq<Record>, ids: set<string>): seq<Record> {
    if records == [] then []
    else [if records[0].nodeId in ids then records[0].(status := Spawned) else records[0]] + Started(records[1..], ids)
  }

  predicate WriterId(c: Cursor, id: string) {
    NodeOf(c.profile, id).Some? && IsWriter(NodeOf(c.profile, id).value)
  }

  /** How many of the records to start belong to writers. */
  function StartingWriters(c: Cursor, records: seq<Record>, ids: set<string>): nat {
    if records == [] then 0
    else (if records[0].nodeId in ids && WriterId(c, records[0].nodeId) then 1 else 0) + StartingWriters(c, records[1..], ids)
  }

  ghost predicate Waiting(records: seq<Record>, ids: set<string>) {
    forall r :: r in records && r.nodeId in ids ==> r.status == Pending || r.status == Retrying
  }

  lemma {:induction false} StartedWriters(c: Cursor, records: seq<Record>, ids: set<string>)
    requires Waiting(records, ids)
    ensures ActiveWriters(c, Started(records, ids)) == ActiveWriters(c, records) + StartingWriters(c, records, ids)
  {
    if records != [] {
      assert records[0] in records && forall r :: r in records[1..] ==> r in records;
      StartedWriters(c, records[1..], ids);
      assert Started(records, ids)[1..] == Started(records[1..], ids);
    }
  }

  lemma {:induction false} NoWriterActive(c: Cursor, records: seq<Record>)
    ensures ActiveWriters(c, records) == 0 <==> forall r :: r in records ==> OccupiesWriterSlot(c, r) != Some(true)
  {
    if records != [] {
      NoWriterActive(c, records[1..]);
      assert records == [records[0]] + records[1..];
    }
  }

  lemma {:induction false} NoWriterStarts(c: Cursor, records: seq<Record>, ids: set<string>)
    requires forall id :: id in ids ==> !WriterId(c, id)
    ensures StartingWriters(c, records, ids) == 0
  {
    hide WriterId;
    if records != [] { NoWriterStarts(c, records[1..], ids); }
  }

  ghost predicate OneRecordEach(records: seq<Record>) {
    forall i, j :: 0 <= i < j < |records| ==> records[i].nodeId != records[j].nodeId
  }

  lemma {:induction false} OneStartsOnce(c: Cursor, records: seq<Record>, id: string)
    requires OneRecordEach(records)
    ensures StartingWriters(c, records, {id}) <= 1
    ensures (forall r :: r in records ==> r.nodeId != id) ==> StartingWriters(c, records, {id}) == 0
  {
    hide WriterId;
    if records != [] {
      var rest := records[1..];
      assert records == [records[0]] + rest;
      forall i, j | 0 <= i < j < |rest| ensures rest[i].nodeId != rest[j].nodeId {
        assert rest[i] == records[i + 1] && rest[j] == records[j + 1];
      }
      OneStartsOnce(c, rest, id);
      if records[0].nodeId == id {
        forall r | r in rest ensures r.nodeId != id {
          var k :| 0 <= k < |rest| && rest[k] == r;
          assert records[0].nodeId != records[k + 1].nodeId;
        }
      }
    }
  }

  ghost function ReadyIds(c: Cursor): set<string>
    requires ReadySpec(c).Some?
  {
    set n | n in ReadySpec(c).value :: n.id
  }

  lemma ReadyAreWaiting(c: Cursor)
    requires WellFormed(c) && UniqueIds(c.profile)
    ensures ReadySpec(c).Some? && Waiting(c.records, ReadyIds(c))
    ensures ActiveWriters(c, c.records) > 0 ==> forall id :: id in ReadyIds(c) ==> !WriterId(c, id)
  {
    Answers(c);
    BusyMeans(c, c.records);
    NoWriterActive(c, c.records);
    hide OccupiesWriterSlot, NodeOf;
    forall id | id in ReadyIds(c) && ActiveWriters(c, c.records) > 0 ensures !WriterId(c, id) {
      var n :| n in ReadySpec(c).value && n.id == id;
      ReadyIsReadable(c, n);
    }
  }

  lemma ReadyIsReadable(c: Cursor, n: Node)
    requires WellFormed(c) && UniqueIds(c.profile) && WriterBusy(c, c.records) == Some(true)
    requires n in c.profile && IsReady(c, n, true) == Some(true)
    ensures !WriterId(c, n.id)
  {
    NodeOfMember(c.profile, n.id);
  }

  /** Starting every ready node keeps at most one active writer exactly when at most one was active and at most one
      writer is ready. */
  lemma BatchKeepsSingleWriterExactly(c: Cursor)
    requires WellFormed(c) && UniqueIds(c.profile)
    ensures ReadySpec(c).Some?
    ensures ActiveWriters(c, Started(c.records, ReadyIds(c))) <= 1 <==>
            ActiveWriters(c, c.records) <= 1 && StartingWriters(c, c.records, ReadyIds(c)) <= 1
  {
    ReadyAreWaiting(c);
    hide WellFormed, ReadySpec, WriterId;
    StartedWriters(c, c.records, ReadyIds(c));
    if ActiveWriters(c, c.records) > 0 { NoWriterStarts(c, c.records, ReadyIds(c)); }
  }

  /** Starting ready nodes one at a time always keeps it. */
  lemma OneStartKeepsSingleWriter(c: Cursor, id: string)
    requires WellFormed(c) && UniqueIds(c.profile) && OneRecordEach(c.records)
    requires ReadySpec(c).Some? && id in ReadyIds(c) && ActiveWriters(c, c.records) <= 1
    ensures ActiveWriters(c, Started(c.records, {id})) <= 1
  {
    ReadyAreWaiting(c);
    hide WellFormed, ReadySpec, WriterId;
    StartedWriters(c, c.records, {id});
    OneStartsOnce(c, c.records, id);
    if ActiveWriters(c, c.records) > 0 { NoWriterStarts(c, c.records, {id}); }
  }

  /** The failing input: two writers without dependencies, both ready in the first round. */
  lemma TwoReadyWritersBothStart()
    ensures exists c :: WellFormed(c) && UniqueIds(c.profile) && ReadySpec(c).Some? &&
                        ActiveWriters(c, c.records) == 0 && ActiveWriters(c, Started(c.records, ReadyIds(c))) == 2
  {
    var a := Node("a", "implementer", "", [], None, "write", []);
    var b := Node("b", "implementer", "", [], None, "write", []);
    var c := TwoNodeCursor(a, b, Pending, Pending);
    TwoNodesWellFormed(a, b, Pending, Pending);
    ReadyAreWaiting(c);
    NoWriterActive(c, c.records);
    BusyMeans(c, c.records);
    Answers(c);
    assert a in c.profile && b in c.profile && a in ReadySpec(c).value && b in ReadySpec(c).value;
    assert a.id in ReadyIds(c) && b.id in ReadyIds(c);
    assert NodeOf(c.profile, "a") == Some(a) && NodeOf(c.profile[1..], "b") == Some(b);
    assert StartingWriters(c, c.records[1..], ReadyIds(c)) == 1;
    assert StartingWriters(c, c.records, ReadyIds(c)) == 2;
    StartedWriters(c, c.records, ReadyIds(c));
  }
}
