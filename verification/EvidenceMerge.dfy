/** Merging evidence into a graph and the structural check that guards the result. */
module EvidenceMerge {
  import opened Text16
  import opened Sorting
  import opened EvidenceGraph

  // ---------- one node with another of the same id ----------

  function Rank(s: Status): nat {
    match s
    case Verified => 0
    case Probable => 1
    case Unknown => 2
    case Conflicted => 3
    case Invalidated => 4
  }

  function WorseStatus(a: Status, b: Status): Status { if Rank(a) >= Rank(b) then a else b }

  function MergeAuthorship(a: Authorship, b: Authorship): Authorship {
    if a == CloudModel || b == CloudModel then CloudModel
    else if a == LocalModel || b == LocalModel then LocalModel
    else if a == User || b == User then User
    else Deterministic
  }

  function Least(a: real, b: real): real { if a <= b then a else b }

  function Greatest(a: real, b: real): real { if a <= b then b else a }

  function MergeTrust(a: Trust, b: Trust): Trust {
    if a.independenceGroup != b.independenceGroup then a
    else a.(extractorReliability := Least(a.extractorReliability, b.extractorReliability),
            freshness := Least(a.freshness, b.freshness),
            adversarialRisk := Greatest(a.adversarialRisk, b.adversarialRisk))
  }

  function MergeNodes(a: Node, b: Node, codes: Codes): Result<Node> {
    if a.id != b.id then Err(DistinctIdentities)
    else if a.kind != b.kind || a.identityKey != b.identityKey then Err(FieldsDisagree)
    else if IsHistorical(a) != IsHistorical(b) then Err(HistoricalAndCurrent)
    else
      var authorship := MergeAuthorship(a.authorship, b.authorship);
      if (a.authorship == Deterministic || a.authorship == User) && (b.authorship == LocalModel || b.authorship == CloudModel)
         && authorship == Deterministic
      then Err(AuthorshipTransmuted)
      else Ok(Node(
        a.id, a.kind, a.identityKey, authorship,
        if AtMost(a.title, b.title) then a.title else b.title,
        if a.content.Some? then a.content else b.content,
        if a.trust.independenceGroup != b.trust.independenceGroup then Conflicted else WorseStatus(a.status, b.status),
        MergeTrust(a.trust, b.trust),
        MergeProvenance(a.provenance, b.provenance, codes),
        if a.estimatedTokens >= b.estimatedTokens then a.estimatedTokens else b.estimatedTokens))
  }

  // ---------- what a merge makes of status, authorship and trust ----------

  /** The status that stands for some: invalidated before conflicted before unknown before probable before verified. */
  ghost predicate WorstOf(s: Status, seen: set<Status>) {
    && (s == Invalidated <==> Invalidated in seen)
    && (s == Conflicted <==> Invalidated !in seen && Conflicted in seen)
    && (s == Probable <==> seen <= {Verified, Probable} && Probable in seen)
    && (s == Verified <==> seen == {Verified})
  }

  /** The authorship that stands for some: a model's as soon as one is, the cloud's first, then the user's. */
  ghost predicate AuthorOf(a: Authorship, seen: set<Authorship>) {
    && (a == CloudModel <==> CloudModel in seen)
    && (a == LocalModel <==> CloudModel !in seen && LocalModel in seen)
    && (a == User <==> CloudModel !in seen && LocalModel !in seen && User in seen)
    && (a == Deterministic <==> seen == {Deterministic})
  }

  ghost predicate OneGroup(seen: set<Node>) {
    forall x, y :: x in seen && y in seen ==> x.trust.independenceGroup == y.trust.independenceGroup
  }

  ghost function StatusesIn(seen: set<Node>): set<Status> { set x | x in seen :: x.status }

  ghost function AuthorsIn(seen: set<Node>): set<Authorship> { set x | x in seen :: x.authorship }

  /** The risk is the greatest seen, freshness and reliability the least. */
  ghost predicate TrustOf(t: Trust, seen: set<Node>) {
    && (forall x :: x in seen ==>
          && t.adversarialRisk >= x.trust.adversarialRisk && t.freshness <= x.trust.freshness
          && t.extractorReliability <= x.trust.extractorReliability)
    && (exists x :: x in seen && t.adversarialRisk == x.trust.adversarialRisk)
    && (exists x :: x in seen && t.freshness == x.trust.freshness)
    && (exists x :: x in seen && t.extractorReliability == x.trust.extractorReliability)
  }

  /** How a node stands for those merged into it. In one independence group it has the worst status and the least
      trust; across groups its status is conflicted or invalidated. */
  ghost predicate Standing(n: Node, seen: set<Node>) {
    && AuthorOf(n.authorship, AuthorsIn(seen))
    && (OneGroup(seen) ==> WorstOf(n.status, StatusesIn(seen)) && TrustOf(n.trust, seen))
    && (!OneGroup(seen) ==> n.status == Conflicted || n.status == Invalidated)
    && (exists x :: x in seen && n.trust.independenceGroup == x.trust.independenceGroup)
    && (forall x :: x in seen ==> n.estimatedTokens >= x.estimatedTokens && AtMost(n.title, x.title))
    && (exists x :: x in seen && n.estimatedTokens == x.estimatedTokens)
    && (exists x :: x in seen && n.title == x.title)
  }

  lemma StandsAlone(n: Node)
    ensures Standing(n, {n})
  {
    assert n in {n};
    assert StatusesIn({n}) == {n.status} && AuthorsIn({n}) == {n.authorship};
    LessAsymmetric(n.title, n.title);
  }

  /** One merge: two nodes of one group give the worse status and the lesser trust, two of different groups conflict;
      a model's hand on either side shows. */
  lemma MergeStands(a: Node, b: Node, codes: Codes)
    requires MergeNodes(a, b, codes).Ok?
    ensures var m := MergeNodes(a, b, codes).value;
      && AuthorOf(m.authorship, {a.authorship, b.authorship})
      && (if a.trust.independenceGroup == b.trust.independenceGroup
          then WorstOf(m.status, {a.status, b.status}) && TrustOf(m.trust, {a, b})
          else m.status == Conflicted && m.trust == a.trust)
      && m.trust.independenceGroup == a.trust.independenceGroup
      && m.trust.authority == a.trust.authority && m.trust.directness == a.trust.directness
      && (m.title == a.title || m.title == b.title) && AtMost(m.title, a.title) && AtMost(m.title, b.title)
      && m.estimatedTokens >= a.estimatedTokens && m.estimatedTokens >= b.estimatedTokens
      && (m.estimatedTokens == a.estimatedTokens || m.estimatedTokens == b.estimatedTokens)
      && m.content == (if a.content.Some? then a.content else b.content)
      && m.kind == a.kind && m.identityKey == a.identityKey
  {
    hide MergeProvenance, IsHistorical;
    LessConnected(a.title, b.title);
    LessAsymmetric(a.title, b.title);
    LessAsymmetric(a.title, a.title);
    LessAsymmetric(b.title, b.title);
    assert a in {a, b} && b in {a, b};
    WorseIsWorst(a.status, b.status);
    HigherIsAuthor(a.authorship, b.authorship);
    hide Less, WorseStatus, MergeAuthorship, WorstOf, AuthorOf;
  }

  lemma WorseIsWorst(a: Status, b: Status)
    ensures WorstOf(WorseStatus(a, b), {a, b})
  {
    assert a in {a, b} && b in {a, b};
    if a == b { assert {a, b} == {a}; }
  }

  lemma HigherIsAuthor(a: Authorship, b: Authorship)
    ensures AuthorOf(MergeAuthorship(a, b), {a, b})
  {
    assert a in {a, b} && b in {a, b};
    if a == b { assert {a, b} == {a}; }
  }

  lemma WorstJoin(s: Status, seen: set<Status>, t: Status, m: Status)
    requires WorstOf(s, seen) && seen != {} && WorstOf(m, {s, t})
    ensures WorstOf(m, seen + {t})
  {
    assert t in seen + {t};
    assert {s, t} <= {Verified, Probable} <==> seen + {t} <= {Verified, Probable} by { SeenBoth(s, seen, t); }
    if seen + {t} == {Verified} { assert seen == {Verified}; }
  }

  lemma SeenBoth(s: Status, seen: set<Status>, t: Status)
    requires WorstOf(s, seen) && seen != {}
    ensures {s, t} <= {Verified, Probable} <==> seen + {t} <= {Verified, Probable}
  {
    assert s in {s, t} && t in {s, t} && t in seen + {t};
    if s == Probable || s == Verified { assert seen <= {Verified, Probable}; }
    if seen <= {Verified, Probable} {
      assert s == Probable || s == Verified by {
        if Probable !in seen {
          var x :| x in seen;
          assert seen == {Verified};
        }
      }
    }
  }

  lemma AuthorJoin(a: Authorship, seen: set<Authorship>, b: Authorship, m: Authorship)
    requires AuthorOf(a, seen) && seen != {} && AuthorOf(m, {a, b})
    ensures AuthorOf(m, seen + {b})
  {
    assert a in {a, b} && b in {a, b} && b in seen + {b};
    if seen + {b} == {Deterministic} {
      var x :| x in seen;
      assert x in seen + {b};
      assert seen == {Deterministic};
    }
  }

  /** A merge with one more node stands for that one too. */
  lemma StandsWith(a: Node, seen: set<Node>, b: Node, codes: Codes)
    requires Standing(a, seen) && MergeNodes(a, b, codes).Ok?
    ensures Standing(MergeNodes(a, b, codes).value, seen + {b})
  {
    hide MergeNodes, AuthorOf, OneGroup, WorstOf, TrustOf, AtMost;
    var m := MergeNodes(a, b, codes).value;
    MergeStands(a, b, codes);
    AuthorStands(a, seen, b, m);
    StatusStands(a, seen, b, m);
    TitleStands(a, seen, b, m);
    var x :| x in seen && a.trust.independenceGroup == x.trust.independenceGroup;
    assert x in seen + {b};
  }

  lemma AuthorStands(a: Node, seen: set<Node>, b: Node, m: Node)
    requires Standing(a, seen) && AuthorOf(m.authorship, {a.authorship, b.authorship})
    ensures AuthorOf(m.authorship, AuthorsIn(seen + {b}))
  {
    var x :| x in seen && a.trust.independenceGroup == x.trust.independenceGroup;
    assert x.authorship in AuthorsIn(seen);
    hide OneGroup, WorstOf, TrustOf, AuthorOf;
    AuthorJoin(a.authorship, AuthorsIn(seen), b.authorship, m.authorship);
    assert AuthorsIn(seen + {b}) == AuthorsIn(seen) + {b.authorship};
  }

  lemma StatusStands(a: Node, seen: set<Node>, b: Node, m: Node)
    requires Standing(a, seen) && m.trust.independenceGroup == a.trust.independenceGroup
    requires if a.trust.independenceGroup == b.trust.independenceGroup
             then WorstOf(m.status, {a.status, b.status}) && TrustOf(m.trust, {a, b})
             else m.status == Conflicted && m.trust == a.trust
    ensures OneGroup(seen + {b}) ==> WorstOf(m.status, StatusesIn(seen + {b})) && TrustOf(m.trust, seen + {b})
    ensures !OneGroup(seen + {b}) ==> m.status == Conflicted || m.status == Invalidated
  {
    var more := seen + {b};
    var x :| x in seen && a.trust.independenceGroup == x.trust.independenceGroup;
    assert b in more && x in more && x.status in StatusesIn(seen);
    assert StatusesIn(more) == StatusesIn(seen) + {b.status};
    hide AuthorOf;
    if OneGroup(more) {
      assert OneGroup(seen) by { assert forall y :: y in seen ==> y in more; }
      assert a.trust.independenceGroup == b.trust.independenceGroup;
      WorstJoin(a.status, StatusesIn(seen), b.status, m.status);
      TrustJoin(a, seen, b, m.trust);
    } else if a.trust.independenceGroup == b.trust.independenceGroup {
      if OneGroup(seen) {
        forall y, z | y in more && z in more ensures y.trust.independenceGroup == z.trust.independenceGroup {
          assert y.trust.independenceGroup == x.trust.independenceGroup;
          assert z.trust.independenceGroup == x.trust.independenceGroup;
        }
        assert false;
      }
      assert a.status in {a.status, b.status};
    }
  }

  lemma TrustJoin(a: Node, seen: set<Node>, b: Node, t: Trust)
    requires TrustOf(a.trust, seen) && TrustOf(t, {a, b})
    ensures TrustOf(t, seen + {b})
  {
    var more := seen + {b};
    assert a in {a, b} && b in {a, b} && b in more;
    forall x | x in more
      ensures && t.adversarialRisk >= x.trust.adversarialRisk && t.freshness <= x.trust.freshness
              && t.extractorReliability <= x.trust.extractorReliability
    {
    }
    var r :| r in seen && a.trust.adversarialRisk == r.trust.adversarialRisk;
    var f :| f in seen && a.trust.freshness == f.trust.freshness;
    var e :| e in seen && a.trust.extractorReliability == e.trust.extractorReliability;
    assert r in more && f in more && e in more;
  }

  lemma TitleStands(a: Node, seen: set<Node>, b: Node, m: Node)
    requires Standing(a, seen)
    requires (m.title == a.title || m.title == b.title) && AtMost(m.title, a.title) && AtMost(m.title, b.title)
    requires m.estimatedTokens >= a.estimatedTokens && m.estimatedTokens >= b.estimatedTokens
    requires m.estimatedTokens == a.estimatedTokens || m.estimatedTokens == b.estimatedTokens
    ensures forall x :: x in seen + {b} ==> m.estimatedTokens >= x.estimatedTokens && AtMost(m.title, x.title)
    ensures exists x :: x in seen + {b} && m.estimatedTokens == x.estimatedTokens
    ensures exists x :: x in seen + {b} && m.title == x.title
  {
    hide OneGroup, WorstOf, AuthorOf, TrustOf;
    var more := seen + {b};
    assert b in more;
    forall x | x in more ensures m.estimatedTokens >= x.estimatedTokens && AtMost(m.title, x.title) {
      if x in seen { AtMostTransitive(m.title, a.title, x.title); }
    }
    var n :| n in seen && a.estimatedTokens == n.estimatedTokens;
    var t :| t in seen && a.title == t.title;
    assert n in more && t in more;
  }

  /** Two well-identified nodes of one id merge exactly when they agree on being historical, and the merge
      keeps the id, the identity hash and all provenance. In one independence group it has the worse status and the
      lesser trust; across groups it is conflicted; a model's authorship on either side shows. */
  lemma MergeNodesExactly(a: Node, b: Node, snapshotId: Text, codes: Codes)
    requires Injective(codes) && WellIdentified(a, snapshotId, codes) && WellIdentified(b, snapshotId, codes)
    requires a.id == b.id
    ensures MergeNodes(a, b, codes).Ok? <==> IsHistorical(a) == IsHistorical(b)
    ensures MergeNodes(a, b, codes).Ok? ==>
              var m := MergeNodes(a, b, codes).value;
              && m.id == a.id && WellIdentified(m, snapshotId, codes)
              && Keys(m.provenance) == Keys(a.provenance) + Keys(b.provenance)
              && (a.provenance != [] ==> m.provenance != [])
              && IsHistorical(m) == IsHistorical(a)
              && Standing(m, {a, b}) && AuthorOf(m.authorship, {a.authorship, b.authorship})
              && (if a.trust.independenceGroup == b.trust.independenceGroup
                  then WorstOf(m.status, {a.status, b.status}) && TrustOf(m.trust, {a, b})
                  else m.status == Conflicted && m.trust == a.trust)
  {
    MergeNodesKept(a, b, snapshotId, codes);
    hide Standing, AuthorOf, WorstOf, TrustOf, WellIdentified, Keys, IsHistorical, MergeNodes, Injective;
    if MergeNodes(a, b, codes).Ok? {
      StandsAlone(a);
      StandsWith(a, {a}, b, codes);
      MergeStands(a, b, codes);
      assert {a} + {b} == {a, b};
    }
  }

  lemma MergeNodesKept(a: Node, b: Node, snapshotId: Text, codes: Codes)
    requires Injective(codes) && WellIdentified(a, snapshotId, codes) && WellIdentified(b, snapshotId, codes)
    requires a.id == b.id
    ensures MergeNodes(a, b, codes).Ok? <==> IsHistorical(a) == IsHistorical(b)
    ensures MergeNodes(a, b, codes).Ok? ==>
              var m := MergeNodes(a, b, codes).value;
              && m.id == a.id && WellIdentified(m, snapshotId, codes)
              && Keys(m.provenance) == Keys(a.provenance) + Keys(b.provenance)
              && (a.provenance != [] ==> m.provenance != [])
              && IsHistorical(m) == IsHistorical(a)
  {
    assert IdentityOfNode(a, snapshotId) == IdentityOfNode(b, snapshotId);
    MergeKeepsIdentities(a.provenance, b.provenance, codes);
    MergeKeepsKeys(a.provenance, b.provenance, codes);
    hide MergeProvenance, Identities, Keys, IsHistory;
    if MergeNodes(a, b, codes).Ok? {
      var m := MergeNodes(a, b, codes).value;
      assert Identities(m.provenance) == Identities(a.provenance);
      assert IdentityOfNode(m, snapshotId) == IdentityOfNode(a, snapshotId);
    }
  }

  /** Across groups even an invalidated node comes out conflicted: it stays invalidated exactly within one group. */
  lemma InvalidatedStaysExactly(a: Node, b: Node, codes: Codes)
    requires MergeNodes(a, b, codes).Ok? && (a.status == Invalidated || b.status == Invalidated)
    ensures MergeNodes(a, b, codes).value.status == Invalidated <==> a.trust.independenceGroup == b.trust.independenceGroup
  {
    MergeStands(a, b, codes);
    hide MergeNodes;
    assert a.status in {a.status, b.status} && b.status in {a.status, b.status};
  }

  /** The failing input: one node invalidated by one group and verified by another. */
  lemma GroupsHideInvalidation(snapshotId: Text, codes: Codes)
    ensures exists a: Node, b: Node ::
              && WellIdentified(a, snapshotId, codes) && WellIdentified(b, snapshotId, codes) && a.id == b.id
              && a.status == Invalidated && MergeNodes(a, b, codes).Ok? && MergeNodes(a, b, codes).value.status == Conflicted
  {
    var plain := Provenance(ArtifactSource(Runtime, [], Whole, []), [], [], None, [], []);
    var id := codes.node(NodeIdentity(snapshotId, Symbol, [], Identities([plain]), None));
    var a := Node(id, Symbol, [], Deterministic, [], None, Invalidated, Trust(0.0, [], 0.0, 0.0, [], 0.0), [plain], 0);
    var b := a.(status := Verified, trust := a.trust.(independenceGroup := [0]));
    assert a.trust.independenceGroup != b.trust.independenceGroup;
    hide Identities, MergeProvenance;
    assert IsHistorical(a) == IsHistorical(b) && a.authorship == b.authorship == Deterministic;
    assert MergeNodes(a, b, codes).Ok?;
    InvalidatedStaysExactly(a, b, codes);
    MergeStands(a, b, codes);
  }

  /** Fusion provenance never claims git history. */
  ghost predicate CleanHistory(n: Node) {
    forall p :: p in n.provenance && IsVolatile(p) ==> !IsHistory(p)
  }

  lemma HistoryFromIdentity(a: Node, b: Node)
    requires CleanHistory(a) && a.kind == b.kind && Identities(a.provenance) == Identities(b.provenance)
    requires IsHistorical(a)
    ensures IsHistorical(b)
  {
    if a.kind != Commit && a.kind != DiffHunk {
      var p :| p in a.provenance && IsHistory(p);
      assert IdentityOf(p) in Identities(b.provenance);
      var q :| q in b.provenance && !IsVolatile(q) && IdentityOf(q) == IdentityOf(p);
      hide CommitOf;
      assert IdentityOf(p).GitIdentity?;
      assert IsHistory(q);
    }
  }

  /** Clean well-identified nodes of one id always merge. */
  lemma CleanNodesMerge(a: Node, b: Node, snapshotId: Text, codes: Codes)
    requires Injective(codes) && WellIdentified(a, snapshotId, codes) && WellIdentified(b, snapshotId, codes)
    requires a.id == b.id && CleanHistory(a) && CleanHistory(b)
    ensures MergeNodes(a, b, codes).Ok?
  {
    assert IdentityOfNode(a, snapshotId) == IdentityOfNode(b, snapshotId);
    MergeNodesKept(a, b, snapshotId, codes);
    hide Identities, MergeNodes;
    if IsHistorical(a) { HistoryFromIdentity(a, b); }
    if IsHistorical(b) { HistoryFromIdentity(b, a); }
  }

  /** Without that, two well-identified nodes of one id can refuse to merge. */
  lemma FusionHistoryBlocksMerge(snapshotId: Text, codes: Codes)
    requires Injective(codes)
    ensures exists a: Node, b: Node ::
              WellIdentified(a, snapshotId, codes) && WellIdentified(b, snapshotId, codes) && a.id == b.id
              && MergeNodes(a, b, codes) == Err(HistoricalAndCurrent)
  {
    var plain := Provenance(ArtifactSource(Runtime, [], Whole, []), [], [], None, [], []);
    var fused := Provenance(RepositorySource(GitHistory, [], [], [], Whole, []), FUSION_EXTRACTOR_ID, [], None, [], []);
    var id := codes.node(NodeIdentity(snapshotId, Symbol, [], Identities([plain]), None));
    var a := Node(id, Symbol, [], Deterministic, [], None, Verified, Trust(0.0, [], 0.0, 0.0, [], 0.0), [plain], 0);
    var b := a.(provenance := [plain, fused]);
    assert b.provenance == [plain] + [fused];
    IdentitiesAppend([plain], [fused]);
    assert Identities([fused]) == {};
    assert Identities(b.provenance) == Identities(a.provenance);
    assert fused in b.provenance && IsHistory(fused);
    assert !IsHistorical(a);
    assert WellIdentified(a, snapshotId, codes) && WellIdentified(b, snapshotId, codes);
  }

  // ---------- many nodes ----------

  function PutNode(m: map<Text, Node>, n: Node, codes: Codes): Result<map<Text, Node>> {
    if n.id !in m then Ok(m[n.id := n])
    else match MergeNodes(m[n.id], n, codes)
      case Ok(merged) => Ok(m[n.id := merged])
      case Err(e) => Err(e)
  }

  function PutNodes(m: map<Text, Node>, nodes: seq<Node>, codes: Codes): Result<map<Text, Node>>
    decreases |nodes|
  {
    if nodes == [] then Ok(m)
    else match PutNode(m, nodes[0], codes)
      case Ok(next) => PutNodes(next, nodes[1..], codes)
      case Err(e) => Err(e)
  }

  ghost predicate GoodNodes(m: map<Text, Node>, snapshotId: Text, codes: Codes) {
    forall id :: id in m ==> m[id].id == id && WellIdentified(m[id], snapshotId, codes) && m[id].provenance != []
  }

  ghost predicate GoodNodeList(nodes: seq<Node>, snapshotId: Text, codes: Codes) {
    forall n :: n in nodes ==> WellIdentified(n, snapshotId, codes) && n.provenance != []
  }

  /** Nodes of one id agree on being historical. */
  ghost predicate HistoryAgrees(m: map<Text, Node>, nodes: seq<Node>) {
    && (forall n :: n in nodes && n.id in m ==> IsHistorical(n) == IsHistorical(m[n.id]))
    && (forall n, o :: n in nodes && o in nodes && n.id == o.id ==> IsHistorical(n) == IsHistorical(o))
  }

  ghost function KeysAt(m: map<Text, Node>, id: Text): set<Key> {
    if id in m then Keys(m[id].provenance) else {}
  }

  ghost function KeysUnder(nodes: seq<Node>, id: Text): set<Key> {
    if nodes == [] then {}
    else (if nodes[0].id == id then Keys(nodes[0].provenance) else {}) + KeysUnder(nodes[1..], id)
  }

  ghost function NodeIds(nodes: seq<Node>): set<Text> { set n | n in nodes :: n.id }

  lemma StoredGood(m: map<Text, Node>, id: Text, n: Node, snapshotId: Text, codes: Codes)
    requires GoodNodes(m, snapshotId, codes) && n.id == id && WellIdentified(n, snapshotId, codes) && n.provenance != []
    ensures GoodNodes(m[id := n], snapshotId, codes)
  {
    hide WellIdentified;
  }

  lemma PutNodeExactly(m: map<Text, Node>, n: Node, snapshotId: Text, codes: Codes)
    requires Injective(codes) && GoodNodes(m, snapshotId, codes)
    requires WellIdentified(n, snapshotId, codes) && n.provenance != []
    ensures PutNode(m, n, codes).Ok? <==> (n.id in m ==> IsHistorical(n) == IsHistorical(m[n.id]))
    ensures PutNode(m, n, codes).Ok? ==>
              var next := PutNode(m, n, codes).value;
              && GoodNodes(next, snapshotId, codes)
              && next.Keys == m.Keys + {n.id}
              && IsHistorical(next[n.id]) == IsHistorical(n)
              && (forall id :: id in m && id != n.id ==> next[id] == m[id])
              && KeysAt(next, n.id) == KeysAt(m, n.id) + Keys(n.provenance)
  {
    if n.id in m { MergeNodesKept(m[n.id], n, snapshotId, codes); }
    hide MergeNodes, WellIdentified, Keys, IsHistorical, Injective, IdentityOfNode, GoodNodes;
    if PutNode(m, n, codes).Ok? { StoredGood(m, n.id, PutNode(m, n, codes).value[n.id], snapshotId, codes); }
  }

  lemma AgreementStep(m: map<Text, Node>, next: map<Text, Node>, nodes: seq<Node>)
    requires nodes != [] && (nodes[0].id in m ==> IsHistorical(nodes[0]) == IsHistorical(m[nodes[0].id]))
    requires next.Keys == m.Keys + {nodes[0].id}
    requires IsHistorical(next[nodes[0].id]) == IsHistorical(nodes[0])
    requires forall id :: id in m && id != nodes[0].id ==> next[id] == m[id]
    ensures HistoryAgrees(m, nodes) <==> HistoryAgrees(next, nodes[1..])
  {
    hide IsHistorical;
    var n, rest := nodes[0], nodes[1..];
    assert nodes == [n] + rest && n in nodes;
    if HistoryAgrees(next, rest) {
      forall o, q | o in nodes && q in nodes && o.id == q.id ensures IsHistorical(o) == IsHistorical(q) {
        assert o == n || o in rest;
        assert q == n || q in rest;
      }
      forall o | o in nodes && o.id in m ensures IsHistorical(o) == IsHistorical(m[o.id]) {
        assert o == n || o in rest;
        assert o.id in next;
      }
    }
  }

  /** The nodes of an id, in a collection and in a list. */
  ghost function SeenAt(m: map<Text, Node>, id: Text): set<Node> { if id in m then {m[id]} else {} }

  ghost function SeenUnder(nodes: seq<Node>, id: Text): set<Node> { set n | n in nodes && n.id == id }

  lemma {:induction false} PutNodesStand(m: map<Text, Node>, nodes: seq<Node>, codes: Codes, id: Text, seen: set<Node>)
    requires PutNodes(m, nodes, codes).Ok? && (if id in m then Standing(m[id], seen) else seen == {})
    ensures id in PutNodes(m, nodes, codes).value ==>
              Standing(PutNodes(m, nodes, codes).value[id], seen + SeenUnder(nodes, id))
    decreases |nodes|
  {
    hide Standing, MergeNodes;
    if nodes == [] {
      assert seen + SeenUnder(nodes, id) == seen;
    } else {
      var n, rest := nodes[0], nodes[1..];
      var next := PutNode(m, n, codes).value;
      assert nodes == [n] + rest;
      if n.id == id {
        if id in m { StandsWith(m[id], seen, n, codes); } else { StandsAlone(n); assert seen + {n} == {n}; }
        assert seen + {n} + SeenUnder(rest, id) == seen + SeenUnder(nodes, id);
        PutNodesStand(next, rest, codes, id, seen + {n});
      } else {
        assert SeenUnder(rest, id) == SeenUnder(nodes, id);
        PutNodesStand(next, rest, codes, id, seen);
      }
    }
  }

  /** Merging a list succeeds exactly when history agrees; then it loses no id and no provenance, and every node stands
      for all nodes of its id. */
  lemma PutNodesExactly(m: map<Text, Node>, nodes: seq<Node>, snapshotId: Text, codes: Codes)
    requires Injective(codes) && GoodNodes(m, snapshotId, codes) && GoodNodeList(nodes, snapshotId, codes)
    ensures PutNodes(m, nodes, codes).Ok? <==> HistoryAgrees(m, nodes)
    ensures PutNodes(m, nodes, codes).Ok? ==>
              var next := PutNodes(m, nodes, codes).value;
              && GoodNodes(next, snapshotId, codes)
              && next.Keys == m.Keys + NodeIds(nodes)
              && (forall id :: id in next ==> KeysAt(next, id) == KeysAt(m, id) + KeysUnder(nodes, id))
              && forall id :: id in next ==> Standing(next[id], SeenAt(m, id) + SeenUnder(nodes, id))
  {
    PutNodesKept(m, nodes, snapshotId, codes);
    hide Standing, PutNodes, GoodNodes, KeysAt, KeysUnder, HistoryAgrees, GoodNodeList;
    if PutNodes(m, nodes, codes).Ok? {
      var next := PutNodes(m, nodes, codes).value;
      forall id | id in next ensures Standing(next[id], SeenAt(m, id) + SeenUnder(nodes, id)) {
        if id in m { StandsAlone(m[id]); }
        PutNodesStand(m, nodes, codes, id, SeenAt(m, id));
      }
    }
  }

  lemma {:induction false} PutNodesKept(m: map<Text, Node>, nodes: seq<Node>, snapshotId: Text, codes: Codes)
    requires Injective(codes) && GoodNodes(m, snapshotId, codes) && GoodNodeList(nodes, snapshotId, codes)
    ensures PutNodes(m, nodes, codes).Ok? <==> HistoryAgrees(m, nodes)
    ensures PutNodes(m, nodes, codes).Ok? ==>
              var next := PutNodes(m, nodes, codes).value;
              && GoodNodes(next, snapshotId, codes)
              && next.Keys == m.Keys + NodeIds(nodes)
              && forall id :: id in next ==> KeysAt(next, id) == KeysAt(m, id) + KeysUnder(nodes, id)
    decreases |nodes|
  {
    hide GoodNodes, WellIdentified, IsHistorical, PutNode, Keys, KeysAt, KeysUnder, HistoryAgrees, Injective;
    KeysUnderNone();
    NothingDisagrees(m);
    if nodes != [] {
      var n, rest := nodes[0], nodes[1..];
      assert nodes == [n] + rest && n in nodes;
      assert NodeIds(nodes) == {n.id} + NodeIds(rest);
      PutNodeExactly(m, n, snapshotId, codes);
      if HistoryAgrees(m, nodes) { HeadAgrees(m, nodes); }
      if PutNode(m, n, codes).Ok? {
        var next := PutNode(m, n, codes).value;
        AgreementStep(m, next, nodes);
        PutNodesKept(next, rest, snapshotId, codes);
        if PutNodes(next, rest, codes).Ok? {
          KeysStep(m, nodes, next, PutNodes(next, rest, codes).value);
        }
      }
    }
  }

  lemma KeysUnderNone()
    ensures forall id :: KeysUnder([], id) == {}
  {
  }

  lemma NothingDisagrees(m: map<Text, Node>)
    ensures HistoryAgrees(m, [])
  {
  }

  lemma HeadAgrees(m: map<Text, Node>, nodes: seq<Node>)
    requires nodes != [] && HistoryAgrees(m, nodes)
    ensures nodes[0].id in m ==> IsHistorical(nodes[0]) == IsHistorical(m[nodes[0].id])
  {
    assert nodes[0] in nodes;
  }

  lemma KeysStep(m: map<Text, Node>, nodes: seq<Node>, next: map<Text, Node>, last: map<Text, Node>)
    requires nodes != [] && next.Keys == m.Keys + {nodes[0].id}
    requires forall id :: id in m && id != nodes[0].id ==> next[id] == m[id]
    requires KeysAt(next, nodes[0].id) == KeysAt(m, nodes[0].id) + Keys(nodes[0].provenance)
    requires forall id :: id in last ==> KeysAt(last, id) == KeysAt(next, id) + KeysUnder(nodes[1..], id)
    ensures forall id :: id in last ==> KeysAt(last, id) == KeysAt(m, id) + KeysUnder(nodes, id)
  {
    hide Keys;
    forall id | id in last ensures KeysAt(last, id) == KeysAt(m, id) + KeysUnder(nodes, id) {
      assert id != nodes[0].id ==> KeysAt(next, id) == KeysAt(m, id);
    }
  }

  // ---------- edges ----------

  /** Edges are looked up by id before they are merged, so their ids agree. */
  function MergeEdges(a: Edge, b: Edge, codes: Codes): Edge {
    a.(confidence := Greatest(a.confidence, b.confidence), provenance := MergeProvenance(a.provenance, b.provenance, codes))
  }

  function PutEdge(m: map<Text, Edge>, e: Edge, codes: Codes): map<Text, Edge> {
    m[e.id := if e.id in m then MergeEdges(m[e.id], e, codes) else e]
  }

  function PutEdges(m: map<Text, Edge>, edges: seq<Edge>, codes: Codes): map<Text, Edge>
    decreases |edges|
  {
    if edges == [] then m else PutEdges(PutEdge(m, edges[0], codes), edges[1..], codes)
  }

  ghost predicate GoodEdge(e: Edge, nodeIds: set<Text>, codes: Codes) {
    e.from in nodeIds && e.to in nodeIds && e.id == codes.edge(IdentityOfEdge(e)) && e.provenance != []
  }

  ghost predicate GoodEdges(m: map<Text, Edge>, nodeIds: set<Text>, codes: Codes) {
    forall id :: id in m ==> m[id].id == id && GoodEdge(m[id], nodeIds, codes)
  }

  ghost function EdgeKeysAt(m: map<Text, Edge>, id: Text): set<Key> {
    if id in m then Keys(m[id].provenance) else {}
  }

  ghost function EdgeKeysUnder(edges: seq<Edge>, id: Text): set<Key> {
    if edges == [] then {}
    else (if edges[0].id == id then Keys(edges[0].provenance) else {}) + EdgeKeysUnder(edges[1..], id)
  }

  ghost function EdgeIds(edges: seq<Edge>): set<Text> { set e | e in edges :: e.id }

  lemma PutEdgeGood(m: map<Text, Edge>, e: Edge, nodeIds: set<Text>, codes: Codes)
    requires Injective(codes) && GoodEdges(m, nodeIds, codes) && GoodEdge(e, nodeIds, codes)
    ensures GoodEdges(PutEdge(m, e, codes), nodeIds, codes)
  {
    if e.id in m {
      var a := m[e.id];
      assert IdentityOfEdge(a) == IdentityOfEdge(e);
      MergeKeepsIdentities(a.provenance, e.provenance, codes);
      hide MergeProvenance, Identities;
      assert IdentityOfEdge(MergeEdges(a, e, codes)) == IdentityOfEdge(a);
    }
  }

  lemma PutEdgeKeys(m: map<Text, Edge>, e: Edge, codes: Codes, id: Text)
    ensures EdgeKeysAt(PutEdge(m, e, codes), id) == EdgeKeysAt(m, id) + if e.id == id then Keys(e.provenance) else {}
  {
    if e.id in m { MergeKeepsKeys(m[e.id].provenance, e.provenance, codes); }
    hide Keys, MergeProvenance;
  }

  /** An edge has the greatest confidence of those merged into it, and the rest of the first. */
  ghost predicate EdgeStands(e: Edge, seen: set<Edge>) {
    && (forall x :: x in seen ==> e.confidence >= x.confidence)
    && (exists x :: x in seen && e.confidence == x.confidence)
    && (exists x :: x in seen && e == x.(confidence := e.confidence, provenance := e.provenance))
  }

  ghost function EdgesAt(m: map<Text, Edge>, id: Text): set<Edge> { if id in m then {m[id]} else {} }

  ghost function EdgesUnder(edges: seq<Edge>, id: Text): set<Edge> { set e | e in edges && e.id == id }

  lemma EdgeStandsAlone(e: Edge)
    ensures EdgeStands(e, {e})
  {
    assert e in {e};
  }

  lemma EdgeStandsWith(a: Edge, seen: set<Edge>, b: Edge, codes: Codes)
    requires EdgeStands(a, seen)
    ensures EdgeStands(MergeEdges(a, b, codes), seen + {b})
  {
    hide MergeProvenance;
    var more := seen + {b};
    var c :| c in seen && a.confidence == c.confidence;
    var k :| k in seen && a == k.(confidence := a.confidence, provenance := a.provenance);
    assert b in more && c in more && k in more;
  }

  lemma {:induction false} PutEdgesStand(m: map<Text, Edge>, edges: seq<Edge>, codes: Codes, id: Text, seen: set<Edge>)
    requires if id in m then EdgeStands(m[id], seen) else seen == {}
    ensures id in PutEdges(m, edges, codes) ==> EdgeStands(PutEdges(m, edges, codes)[id], seen + EdgesUnder(edges, id))
    decreases |edges|
  {
    hide EdgeStands, MergeEdges;
    if edges == [] {
      assert seen + EdgesUnder(edges, id) == seen;
    } else {
      var e, rest := edges[0], edges[1..];
      var next := PutEdge(m, e, codes);
      assert edges == [e] + rest;
      if e.id == id {
        if id in m { EdgeStandsWith(m[id], seen, e, codes); } else { EdgeStandsAlone(e); assert seen + {e} == {e}; }
        assert seen + {e} + EdgesUnder(rest, id) == seen + EdgesUnder(edges, id);
        PutEdgesStand(next, rest, codes, id, seen + {e});
      } else {
        assert EdgesUnder(rest, id) == EdgesUnder(edges, id);
        PutEdgesStand(next, rest, codes, id, seen);
      }
    }
  }

  /** Merging good edges keeps every edge good, has exactly the old and new ids, loses no provenance, and gives each the
      greatest confidence of its id. */
  lemma PutEdgesGood(m: map<Text, Edge>, edges: seq<Edge>, nodeIds: set<Text>, codes: Codes)
    requires Injective(codes) && GoodEdges(m, nodeIds, codes) && forall e :: e in edges ==> GoodEdge(e, nodeIds, codes)
    ensures GoodEdges(PutEdges(m, edges, codes), nodeIds, codes)
    ensures PutEdges(m, edges, codes).Keys == m.Keys + EdgeIds(edges)
    ensures forall id :: EdgeKeysAt(PutEdges(m, edges, codes), id) == EdgeKeysAt(m, id) + EdgeKeysUnder(edges, id)
    ensures var next := PutEdges(m, edges, codes);
            forall id :: id in next ==> EdgeStands(next[id], EdgesAt(m, id) + EdgesUnder(edges, id))
  {
    PutEdgesKept(m, edges, nodeIds, codes);
    hide EdgeStands, PutEdges, GoodEdges, GoodEdge, EdgeKeysAt, EdgeKeysUnder, Injective;
    var next := PutEdges(m, edges, codes);
    forall id | id in next ensures EdgeStands(next[id], EdgesAt(m, id) + EdgesUnder(edges, id)) {
      if id in m { EdgeStandsAlone(m[id]); }
      PutEdgesStand(m, edges, codes, id, EdgesAt(m, id));
    }
  }

  lemma {:induction false} PutEdgesKept(m: map<Text, Edge>, edges: seq<Edge>, nodeIds: set<Text>, codes: Codes)
    requires Injective(codes) && GoodEdges(m, nodeIds, codes) && forall e :: e in edges ==> GoodEdge(e, nodeIds, codes)
    ensures GoodEdges(PutEdges(m, edges, codes), nodeIds, codes)
    ensures PutEdges(m, edges, codes).Keys == m.Keys + EdgeIds(edges)
    ensures forall id :: EdgeKeysAt(PutEdges(m, edges, codes), id) == EdgeKeysAt(m, id) + EdgeKeysUnder(edges, id)
    decreases |edges|
  {
    hide GoodEdges, GoodEdge, MergeEdges, Keys, EdgeKeysAt;
    if edges != [] {
      var e, rest := edges[0], edges[1..];
      assert edges == [e] + rest && e in edges;
      PutEdgeGood(m, e, nodeIds, codes);
      var next := PutEdge(m, e, codes);
      PutEdgesKept(next, rest, nodeIds, codes);
      forall id ensures EdgeKeysAt(PutEdges(m, edges, codes), id) == EdgeKeysAt(m, id) + EdgeKeysUnder(edges, id) {
        PutEdgeKeys(m, e, codes, id);
        assert EdgeKeysAt(PutEdges(next, rest, codes), id) == EdgeKeysAt(next, id) + EdgeKeysUnder(rest, id);
      }
    }
  }

  // ---------- the graph ----------

  ghost predicate UniqueNodes(nodes: seq<Node>) {
    forall i, j :: 0 <= i < j < |nodes| ==> nodes[i].id != nodes[j].id
  }

  ghost predicate UniqueEdges(edges: seq<Edge>) {
    forall i, j :: 0 <= i < j < |edges| ==> edges[i].id != edges[j].id
  }

  /** What the structural check demands of a graph. */
  ghost predicate ValidGraph(g: Graph, codes: Codes) {
    && UniqueNodes(g.nodes)
    && GoodNodeList(g.nodes, g.snapshotId, codes)
    && UniqueEdges(g.edges)
    && forall e :: e in g.edges ==> GoodEdge(e, NodeIds(g.nodes), codes)
  }

  function NodeMap(nodes: seq<Node>): map<Text, Node> {
    if nodes == [] then map[] else NodeMap(nodes[..|nodes| - 1])[nodes[|nodes| - 1].id := nodes[|nodes| - 1]]
  }

  function EdgeMap(edges: seq<Edge>): map<Text, Edge> {
    if edges == [] then map[] else EdgeMap(edges[..|edges| - 1])[edges[|edges| - 1].id := edges[|edges| - 1]]
  }

  predicate NodeAtMost(a: Node, b: Node) { AtMost(a.id, b.id) }

  predicate EdgeAtMost(a: Edge, b: Edge) { AtMost(a.id, b.id) }

  /** The ids in the order a keyed collection first received them. */
  function Arrivals(ids: seq<Text>): (r: seq<Text>)
    ensures Distinct(r)
    ensures forall id :: id in r <==> id in ids
  {
    if ids == [] then []
    else
      var before := Arrivals(ids[..|ids| - 1]);
      assert ids == ids[..|ids| - 1] + [ids[|ids| - 1]];
      if ids[|ids| - 1] in before then before else before + [ids[|ids| - 1]]
  }

  function IdList(nodes: seq<Node>): seq<Text> { seq(|nodes|, i requires 0 <= i < |nodes| => nodes[i].id) }

  function EdgeIdList(edges: seq<Edge>): seq<Text> { seq(|edges|, i requires 0 <= i < |edges| => edges[i].id) }

  function Values<T>(m: map<Text, T>, order: seq<Text>): seq<T>
    requires forall id :: id in order ==> id in m
  {
    seq(|order|, i requires 0 <= i < |order| => m[order[i]])
  }

  ghost predicate CoversAll<T>(m: map<Text, T>, order: seq<Text>) {
    Distinct(order) && forall id :: id in order <==> id in m
  }

  lemma ListedNodes(m: map<Text, Node>, order: seq<Text>, snapshotId: Text, codes: Codes)
    requires CoversAll(m, order) && GoodNodes(m, snapshotId, codes)
    ensures var nodes := Sort(Values(m, order), NodeAtMost);
      && UniqueNodes(nodes) && GoodNodeList(nodes, snapshotId, codes) && NodeIds(nodes) == m.Keys
      && forall n :: n in nodes <==> n.id in m && m[n.id] == n
  {
    hide WellIdentified;
    var values := Values(m, order);
    var nodes := Sort(values, NodeAtMost);
    assert Distinct(values) by {
      forall i, j | 0 <= i < j < |values| ensures values[i] != values[j] {
        assert m[order[i]].id == order[i] && m[order[j]].id == order[j];
      }
    }
    forall n ensures n in nodes <==> n.id in m && m[n.id] == n {
      SortMembers(values, NodeAtMost, n);
      if n.id in m && m[n.id] == n {
        var i :| 0 <= i < |order| && order[i] == n.id;
        assert values[i] == n;
      }
    }
    SortSorts(values, NodeAtMost);
    PermutationDistinct(values, nodes);
    forall id | id in m ensures id in NodeIds(nodes) { assert m[id] in nodes; }
    forall i, j | 0 <= i < j < |nodes| ensures nodes[i].id != nodes[j].id {
      assert nodes[i] in nodes && nodes[j] in nodes;
    }
  }

  lemma ListedEdges(m: map<Text, Edge>, order: seq<Text>, nodeIds: set<Text>, codes: Codes)
    requires CoversAll(m, order) && GoodEdges(m, nodeIds, codes)
    ensures var edges := Sort(Values(m, order), EdgeAtMost);
      && UniqueEdges(edges) && (forall e :: e in edges ==> GoodEdge(e, nodeIds, codes)) && EdgeIds(edges) == m.Keys
      && forall e :: e in edges <==> e.id in m && m[e.id] == e
  {
    hide GoodEdge;
    var values := Values(m, order);
    var edges := Sort(values, EdgeAtMost);
    assert Distinct(values) by {
      forall i, j | 0 <= i < j < |values| ensures values[i] != values[j] {
        assert m[order[i]].id == order[i] && m[order[j]].id == order[j];
      }
    }
    forall e ensures e in edges <==> e.id in m && m[e.id] == e {
      SortMembers(values, EdgeAtMost, e);
      if e.id in m && m[e.id] == e {
        var i :| 0 <= i < |order| && order[i] == e.id;
        assert values[i] == e;
      }
    }
    forall id | id in m ensures id in EdgeIds(edges) { assert m[id] in edges; }
    SortSorts(values, EdgeAtMost);
    PermutationDistinct(values, edges);
    forall i, j | 0 <= i < j < |edges| ensures edges[i].id != edges[j].id {
      assert edges[i] in edges && edges[j] in edges;
    }
  }
}
