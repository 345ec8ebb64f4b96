/** Evidence nodes, edges and their provenance: identities, merging and the structural graph check.
    Hashes and the text of a provenance key are parameters. */
module EvidenceGraph {
  import opened Text16
  import opened Sorting

  datatype Option<+T> = None | Some(value: T)

  datatype Result<+T> = Ok(value: T) | Err(error: Error)

  datatype Error =
    | DistinctIdentities | FieldsDisagree | HistoricalAndCurrent | AuthorshipTransmuted
    | DuplicateNode | DuplicateEdge | DroppedProvenance | IdentityMismatch | MissingNodes
    | NoRepositorySnapshot

  datatype Lines = Lines(startLine: nat, endLine: nat)

  datatype Range = Whole | Bytes(byteStart: nat, byteEnd: nat, displayLines: Option<Lines>)

  datatype RepositoryKind = Repository | GitHistory | ProjectInstruction

  datatype ArtifactKind = UserTask | PlatformPolicy | Runtime | ModelOutput

  datatype Source =
    | RepositorySource(repositoryKind: RepositoryKind, snapshotId: Text, artifact: Text, path: Text, range: Range, quote: Text)
    | ArtifactSource(artifactKind: ArtifactKind, artifact: Text, range: Range, quote: Text)
    | ExternalSource(receipt: Text, artifact: Text, url: Text, range: Range, quote: Text)

  datatype Provenance = Provenance(
    source: Source, extractorId: Text, extractorVersion: Text, queryId: Option<Text>, observedAt: Text, contentDigest: Text)

  datatype Kind = Commit | DiffHunk | Symbol | TestNode | TestResult | CodeRegion | OtherKind(name: Text)

  datatype Status = Verified | Probable | Unknown | Conflicted | Invalidated

  datatype Authorship = Deterministic | User | LocalModel | CloudModel

  datatype Trust = Trust(
    authority: real, directness: Text, extractorReliability: real, freshness: real, independenceGroup: Text,
    adversarialRisk: real)

  datatype Node = Node(
    id: Text, kind: Kind, identityKey: Text, authorship: Authorship, title: Text, content: Option<Text>,
    status: Status, trust: Trust, provenance: seq<Provenance>, estimatedTokens: nat)

  datatype Edge = Edge(
    id: Text, from: Text, to: Text, relation: Text, polarity: Text, confidence: real, provenance: seq<Provenance>)

  datatype Graph = Graph(snapshotId: Text, nodes: seq<Node>, edges: seq<Edge>)

  // ---------- provenance identity ----------

  const FUSION_EXTRACTOR_ID: Text := // pi-hec-rrf-fusion/v1
    [112, 105, 45, 104, 101, 99, 45, 114, 114, 102, 45, 102, 117, 115, 105, 111, 110, 47, 118, 49]

  const COMMITS: Text := [46, 103, 105, 116, 47, 99, 111, 109, 109, 105, 116, 115, 47] // .git/commits/

  const DIFF: Text := [46, 100, 105, 102, 102] // .diff

  predicate IsVolatile(p: Provenance) { p.extractorId == FUSION_EXTRACTOR_ID }

  function CommitOf(path: Text): Text {
    var tail := if COMMITS <= path then path[|COMMITS|..] else path;
    if |DIFF| <= |tail| && tail[|tail| - |DIFF|..] == DIFF then tail[..|tail| - |DIFF|] else tail
  }

  /** The path of a commit and that of its diff name one commit, exactly when its name does not end as a diff does. */
  lemma CommitNamed(commit: Text)
    ensures CommitOf(COMMITS + commit + DIFF) == commit
    ensures CommitOf(COMMITS + commit) == commit <==> !(|DIFF| <= |commit| && commit[|commit| - |DIFF|..] == DIFF)
  {
    Between(COMMITS, commit, DIFF);
  }

  lemma Between(before: Text, middle: Text, after: Text)
    ensures before <= before + middle && (before + middle)[|before|..] == middle
    ensures var all := before + middle + after; before <= all && all[|before|..] == middle + after
    ensures (middle + after)[|middle|..] == after && (middle + after)[..|middle|] == middle
  {
    assert before + middle + after == before + (middle + after);
  }

  datatype Identity =
    | VolatileIdentity(extractorId: Text, extractorVersion: Text, contentDigest: Text)
    | GitIdentity(commit: Text)
    | RepositoryIdentity(path: Text)
    | ExternalIdentity(url: Text, artifact: Text, quote: Text, extractorId: Text, extractorVersion: Text)
    | ArtifactIdentity(artifact: Text, quote: Text, extractorId: Text, extractorVersion: Text)

  function IdentityOf(p: Provenance): Identity {
    if IsVolatile(p) then VolatileIdentity(p.extractorId, p.extractorVersion, p.contentDigest)
    else match p.source
      case RepositorySource(kind, _, _, path, _, _) =>
        if kind == GitHistory then GitIdentity(CommitOf(path)) else RepositoryIdentity(path)
      case ExternalSource(_, artifact, url, _, quote) =>
        ExternalIdentity(url, artifact, quote, p.extractorId, p.extractorVersion)
      case ArtifactSource(_, artifact, _, quote) => ArtifactIdentity(artifact, quote, p.extractorId, p.extractorVersion)
  }

  predicate FromHistory(p: Provenance, path: Text) {
    !IsVolatile(p) && p.source.RepositorySource? && p.source.repositoryKind == GitHistory && p.source.path == path
  }

  /** History identifies a source by its commit: a commit and a diff have one identity exactly when they are of one commit. */
  lemma HistoryIdentity(p: Provenance, q: Provenance, commit: Text, other: Text)
    requires FromHistory(p, COMMITS + commit) && FromHistory(q, COMMITS + other + DIFF)
    requires !(|DIFF| <= |commit| && commit[|commit| - |DIFF|..] == DIFF)
    ensures IdentityOf(p) == IdentityOf(q) <==> commit == other
  {
    CommitNamed(commit);
    CommitNamed(other);
    hide CommitOf;
  }

  /** The sorted list without repeats that goes into an identity hash, as the set it lists. */
  function Identities(ps: seq<Provenance>): set<Identity> {
    set p | p in ps && !IsVolatile(p) :: IdentityOf(p)
  }

  datatype Key = Key(
    source: Source, extractorId: Text, extractorVersion: Text, queryId: Option<Text>, contentDigest: Text)

  function KeyOf(p: Provenance): Key {
    Key(p.source, p.extractorId, p.extractorVersion, p.queryId, p.contentDigest)
  }

  function Keys(ps: seq<Provenance>): set<Key> {
    set p | p in ps :: KeyOf(p)
  }

  /** What an identity hash covers. */
  datatype NodeIdentity = NodeIdentity(
    snapshotId: Text, kind: Kind, identityKey: Text, identities: set<Identity>, content: Option<Text>)

  datatype EdgeIdentity = EdgeIdentity(from: Text, to: Text, relation: Text, polarity: Text, identities: set<Identity>)

  /** The hashes, and the canonical text of a key. */
  datatype Codes = Codes(node: NodeIdentity -> Text, edge: EdgeIdentity -> Text, key: Key -> Text)

  ghost predicate Injective(codes: Codes) {
    && (forall a, b :: codes.node(a) == codes.node(b) ==> a == b)
    && (forall a, b :: codes.edge(a) == codes.edge(b) ==> a == b)
  }

  function IdentityOfNode(n: Node, snapshotId: Text): NodeIdentity {
    NodeIdentity(snapshotId, n.kind, n.identityKey, Identities(n.provenance), n.content)
  }

  /** The id of a node is the hash of its identity in a snapshot. */
  ghost predicate WellIdentified(n: Node, snapshotId: Text, codes: Codes) {
    n.id == codes.node(IdentityOfNode(n, snapshotId))
  }

  function IdentityOfEdge(e: Edge): EdgeIdentity {
    EdgeIdentity(e.from, e.to, e.relation, e.polarity, Identities(e.provenance))
  }

  predicate IsHistory(p: Provenance) {
    p.source.RepositorySource? && p.source.repositoryKind == GitHistory
  }

  predicate IsHistorical(n: Node) {
    n.kind == Commit || n.kind == DiffHunk || exists p :: p in n.provenance && IsHistory(p)
  }

  // ---------- merging provenance ----------

  predicate KeyAtMost(codes: Codes, a: Provenance, b: Provenance) {
    AtMost(codes.key(KeyOf(a)), codes.key(KeyOf(b)))
  }

  function Unrepeated(ps: seq<Provenance>, seen: set<Key>): seq<Provenance> {
    if ps == [] then []
    else if KeyOf(ps[0]) in seen then Unrepeated(ps[1..], seen)
    else [ps[0]] + Unrepeated(ps[1..], seen + {KeyOf(ps[0])})
  }

  function MergeProvenance(left: seq<Provenance>, right: seq<Provenance>, codes: Codes): seq<Provenance> {
    Sort(Unrepeated(left + right, {}), (a, b) => KeyAtMost(codes, a, b))
  }

  method MergeProvenanceLists(left: seq<Provenance>, right: seq<Provenance>, codes: Codes)
    returns (merged: seq<Provenance>)
    ensures merged == MergeProvenance(left, right, codes)
  {
    hide Sort;
    var seen: set<Key> := {};
    merged := [];
    var all := left + right;
    assert all[0..] == all;
    for i := 0 to |all|
      invariant merged + Unrepeated(all[i..], seen) == Unrepeated(all, {})
    {
      var item := all[i];
      assert all[i..][0] == item && all[i..][1..] == all[i + 1..];
      var key := KeyOf(item);
      if key !in seen {
        seen := seen + {key};
        merged := merged + [item];
      }
    }
    assert merged == Unrepeated(all, {});
    merged := Sort(merged, (a, b) => KeyAtMost(codes, a, b));
  }

  lemma {:induction false} UnrepeatedKeys(ps: seq<Provenance>, seen: set<Key>)
    ensures Keys(Unrepeated(ps, seen)) == Keys(ps) - seen
    ensures forall p :: p in Unrepeated(ps, seen) ==> p in ps
    decreases |ps|
  {
    if ps != [] {
      var head, rest := ps[0], ps[1..];
      assert ps == [head] + rest;
      assert Keys(ps) == {KeyOf(head)} + Keys(rest) by { KeysCons(head, rest); }
      if KeyOf(head) in seen {
        UnrepeatedKeys(rest, seen);
      } else {
        var more := Unrepeated(rest, seen + {KeyOf(head)});
        UnrepeatedKeys(rest, seen + {KeyOf(head)});
        KeysCons(head, more);
      }
    }
  }

  lemma KeysCons(p: Provenance, ps: seq<Provenance>)
    ensures Keys([p] + ps) == {KeyOf(p)} + Keys(ps)
  {
    assert forall q :: q in [p] + ps <==> q == p || q in ps;
  }

  lemma KeysAppend(a: seq<Provenance>, b: seq<Provenance>)
    ensures Keys(a + b) == Keys(a) + Keys(b)
  {
    assert forall q :: q in a + b <==> q in a || q in b;
  }

  /** Merging keeps every key of both lists and invents no item. */
  lemma MergeKeepsKeys(left: seq<Provenance>, right: seq<Provenance>, codes: Codes)
    ensures Keys(MergeProvenance(left, right, codes)) == Keys(left) + Keys(right)
    ensures forall p :: p in MergeProvenance(left, right, codes) ==> p in left || p in right
  {
    var le := (a, b) => KeyAtMost(codes, a, b);
    var once := Unrepeated(left + right, {});
    UnrepeatedKeys(left + right, {});
    KeysAppend(left, right);
    hide Unrepeated, Sort;
    forall p ensures p in Sort(once, le) <==> p in once { SortMembers(once, le, p); }
    assert Keys(Sort(once, le)) == Keys(once);
  }

  predicate VolatileKey(k: Key) { k.extractorId == FUSION_EXTRACTOR_ID }

  function IdentityOfKey(k: Key): Identity {
    IdentityOf(Provenance(k.source, k.extractorId, k.extractorVersion, k.queryId, [], k.contentDigest))
  }

  /** Identities and history depend on the keys alone. */
  lemma KeysDecide(ps: seq<Provenance>)
    ensures Identities(ps) == (set k | k in Keys(ps) && !VolatileKey(k) :: IdentityOfKey(k))
    ensures (exists p :: p in ps && IsHistory(p)) <==>
            exists k :: k in Keys(ps) && k.source.RepositorySource? && k.source.repositoryKind == GitHistory
  {
    forall p ensures IdentityOf(p) == IdentityOfKey(KeyOf(p)) { }
    hide IdentityOfKey, IdentityOf;
    forall p | p in ps ensures KeyOf(p) in Keys(ps) { }
    var fromKeys := set k | k in Keys(ps) && !VolatileKey(k) :: IdentityOfKey(k);
    forall i | i in Identities(ps) ensures i in fromKeys {
      var p :| p in ps && !IsVolatile(p) && IdentityOf(p) == i;
      assert KeyOf(p) in Keys(ps) && !VolatileKey(KeyOf(p));
    }
    forall i | i in fromKeys ensures i in Identities(ps) {
      var k :| k in Keys(ps) && !VolatileKey(k) && IdentityOfKey(k) == i;
      var p :| p in ps && KeyOf(p) == k;
      assert IdentityOf(p) == IdentityOfKey(KeyOf(p));
    }
  }

  lemma SameKeysSameIdentities(a: seq<Provenance>, b: seq<Provenance>)
    requires Keys(a) == Keys(b)
    ensures Identities(a) == Identities(b)
    ensures (exists p :: p in a && IsHistory(p)) <==> (exists p :: p in b && IsHistory(p))
  {
    KeysDecide(a);
    KeysDecide(b);
  }

  lemma IdentitiesAppend(a: seq<Provenance>, b: seq<Provenance>)
    ensures Identities(a + b) == Identities(a) + Identities(b)
  {
    assert forall q :: q in a + b <==> q in a || q in b;
  }

  /** The identities of a merge are those of both sides. */
  lemma MergeKeepsIdentities(left: seq<Provenance>, right: seq<Provenance>, codes: Codes)
    ensures Identities(MergeProvenance(left, right, codes)) == Identities(left) + Identities(right)
    ensures (exists p :: p in MergeProvenance(left, right, codes) && IsHistory(p)) <==>
            (exists p :: p in left && IsHistory(p)) || (exists p :: p in right && IsHistory(p))
    ensures MergeProvenance(left, right, codes) == [] <==> left == [] && right == []
  {
    hide MergeProvenance, Identities, IsHistory;
    var merged := MergeProvenance(left, right, codes);
    MergeKeepsKeys(left, right, codes);
    KeysAppend(left, right);
    SameKeysSameIdentities(merged, left + right);
    IdentitiesAppend(left, right);
    assert forall q :: q in left + right <==> q in left || q in right;
    KeysEmpty(merged);
    KeysEmpty(left + right);
  }

  lemma KeysEmpty(ps: seq<Provenance>)
    ensures Keys(ps) == {} <==> ps == []
  {
    if ps != [] { assert KeyOf(ps[0]) in Keys(ps); }
  }
}
