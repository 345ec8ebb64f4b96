/** Evidence deduplication: five union-find passes over subjects, then a rewrite of the edges. */
module Dedupe {
  import opened Text16
  import opened Sorting
  import opened EvidenceGraph
  import opened UnionFind

  datatype Subject = Subject(
    node: Node, producer: Text, blobDigest: Text, scipSymbolId: Text, fqSignature: Text, astFingerprint: Text,
    path: Text, byteStart: int, byteEnd: int, generated: bool, overloadKey: Text, normalizedTextDigest: Text)

  /** A subject with the input subjects it stands for; their node ids are the source's member ids. */
  datatype Working = Working(subject: Subject, members: seq<Subject>)

  /** The hashes, and the commit a path names. */
  datatype Env = Env(codes: Codes, commitIn: Text -> Option<Text>)

  datatype Rule = SameBlob | SameSymbol | SameTree | Contained | CloneText

  // ---------- which pairs may merge ----------

  const SLASH: Unit := 47

  function LastSlash(path: Text): (i: int)
    ensures -1 <= i < |path|
  {
    if path == [] then -1
    else if path[|path| - 1] == SLASH then |path| - 1
    else LastSlash(path[..|path| - 1])
  }

  function Dirname(path: Text): Text {
    if LastSlash(path) <= 0 then [] else path[..LastSlash(path)]
  }

  predicate SameProducerBlob(a: Subject, b: Subject) {
    a.producer == b.producer && a.blobDigest == b.blobDigest && a.blobDigest != []
  }

  function CommitIdentity(s: Subject, env: Env): Text {
    if !IsHistorical(s.node) then []
    else match env.commitIn(s.path)
      case Some(commit) => commit
      case None => if s.node.kind == Commit || s.node.kind == DiffHunk then s.scipSymbolId else []
  }

  predicate RevisionMismatch(a: Subject, b: Subject, env: Env) {
    if IsHistorical(a.node) != IsHistorical(b.node) then true
    else if !IsHistorical(a.node) then false
    else if a.blobDigest != b.blobDigest && a.blobDigest != [] && b.blobDigest != [] then true
    else CommitIdentity(a, env) != [] && CommitIdentity(b, env) != [] && CommitIdentity(a, env) != CommitIdentity(b, env)
  }

  predicate BlockedPair(a: Subject, b: Subject, env: Env) {
    || (a.producer != b.producer && !SameProducerBlob(a, b))
    || RevisionMismatch(a, b, env)
    || a.generated != b.generated
    || (a.generated && b.generated && a.path != b.path)
    || (a.overloadKey != [] && b.overloadKey != [] && a.overloadKey != b.overloadKey)
  }

  predicate SameScipOrFq(a: Subject, b: Subject) {
    (a.scipSymbolId != [] && a.scipSymbolId == b.scipSymbolId) || (a.fqSignature != [] && a.fqSignature == b.fqSignature)
  }

  predicate IntervalContains(outer: Subject, inner: Subject) {
    && outer.path == inner.path && outer.node.kind == inner.node.kind
    && outer.byteStart <= inner.byteStart && outer.byteEnd >= inner.byteEnd
    && (outer.byteStart != inner.byteStart || outer.byteEnd != inner.byteEnd)
  }

  predicate ShouldMerge(rule: Rule, a: Subject, b: Subject, env: Env) {
    !BlockedPair(a, b, env) &&
    match rule
    case SameBlob => SameProducerBlob(a, b) && a.blobDigest != [] && b.blobDigest != []
    case SameSymbol => SameScipOrFq(a, b)
    case SameTree => a.astFingerprint != [] && a.astFingerprint == b.astFingerprint
    case Contained => a.producer == b.producer && (IntervalContains(a, b) || IntervalContains(b, a))
    case CloneText =>
      && a.producer == b.producer && a.normalizedTextDigest == b.normalizedTextDigest
      && Dirname(a.path) == Dirname(b.path) && !a.generated && !b.generated
  }

  /** The differences no amount of merging bridges. */
  ghost predicate Alike(a: Subject, b: Subject) {
    && a.producer == b.producer && a.generated == b.generated && IsHistorical(a.node) == IsHistorical(b.node)
    && (a.generated ==> a.path == b.path)
  }

  lemma MergeableAlike(rule: Rule, a: Subject, b: Subject, env: Env)
    requires ShouldMerge(rule, a, b, env)
    ensures Alike(a, b)
  {
    hide IsHistorical;
  }

  /** Both are set and the same. */
  predicate Agree(a: Text, b: Text) { a == b && a != [] }

  /** They do not tell two things apart: one is unset, or they are the same. */
  predicate Compatible(a: Text, b: Text) { a == [] || b == [] || a == b }

  /** The folder of a path: what stands before its last slash, if that is not the first unit. */
  ghost predicate IsFolder(folder: Text, path: Text) {
    if exists i :: 0 < i < |path| && path[i] == SLASH
    then folder + [SLASH] <= path && folder != [] && SLASH !in path[|folder| + 1..]
    else folder == []
  }

  /** What each rule asks for, beside what all of them do. */
  ghost predicate Related(rule: Rule, a: Subject, b: Subject) {
    match rule
    case SameBlob => Agree(a.blobDigest, b.blobDigest)
    case SameSymbol => Agree(a.scipSymbolId, b.scipSymbolId) || Agree(a.fqSignature, b.fqSignature)
    case SameTree => Agree(a.astFingerprint, b.astFingerprint)
    case Contained =>
      && a.path == b.path && a.node.kind == b.node.kind && (a.byteStart, a.byteEnd) != (b.byteStart, b.byteEnd)
      && ((a.byteStart <= b.byteStart && b.byteEnd <= a.byteEnd) || (b.byteStart <= a.byteStart && a.byteEnd <= b.byteEnd))
    case CloneText =>
      && a.normalizedTextDigest == b.normalizedTextDigest && !a.generated && !b.generated
      && exists folder :: IsFolder(folder, a.path) && IsFolder(folder, b.path)
  }

  /** The commit a subject names: the one in its path, or else the symbol of a commit or a hunk. */
  ghost predicate NamesCommit(s: Subject, env: Env, commit: Text) {
    && commit != []
    && (env.commitIn(s.path) == Some(commit)
        || (env.commitIn(s.path) == None && s.node.kind in {Commit, DiffHunk} && s.scipSymbolId == commit))
  }

  /** Two subjects a rule joins: alike, not told apart by an overload key nor, if historical, by blob or commit, and
      related by the rule. */
  ghost predicate Kin(rule: Rule, a: Subject, b: Subject, env: Env) {
    && Alike(a, b) && Compatible(a.overloadKey, b.overloadKey) && Related(rule, a, b)
    && (IsHistorical(a.node) ==>
          && Compatible(a.blobDigest, b.blobDigest)
          && forall c, d :: NamesCommit(a, env, c) && NamesCommit(b, env, d) ==> c == d)
  }

  lemma {:induction false} NoSlashAfter(path: Text, i: nat)
    requires LastSlash(path) < i < |path|
    ensures path[i] != SLASH
  {
    if path[|path| - 1] != SLASH && i < |path| - 1 { NoSlashAfter(path[..|path| - 1], i); }
  }

  lemma {:induction false} LastSlashFound(path: Text)
    ensures LastSlash(path) >= 0 ==> path[LastSlash(path)] == SLASH
  {
    if path != [] && path[|path| - 1] != SLASH { LastSlashFound(path[..|path| - 1]); }
  }

  lemma LastSlashIsLast(path: Text)
    ensures LastSlash(path) >= 0 ==> path[LastSlash(path)] == SLASH
    ensures SLASH !in path[LastSlash(path) + 1..]
  {
    LastSlashFound(path);
    hide LastSlash;
    forall i | LastSlash(path) < i < |path| ensures path[i] != SLASH { NoSlashAfter(path, i); }
  }

  lemma NoneAfter(path: Text, k: int, i: nat)
    requires -1 <= k < i < |path| && SLASH !in path[k + 1..]
    ensures path[i] != SLASH
  {
    assert path[i] == path[k + 1..][i - k - 1];
  }

  lemma DirnameIsFolder(path: Text, folder: Text)
    ensures IsFolder(folder, path) <==> folder == Dirname(path)
  {
    LastSlashIsLast(path);
    var k := LastSlash(path);
    hide LastSlash;
    if k > 0 {
      assert path == path[..k] + [SLASH] + path[k + 1..];
      assert path[..k] + [SLASH] <= path && SLASH !in path[|path[..k]| + 1..];
      if IsFolder(folder, path) {
        var j := |folder|;
        assert path[j] == SLASH && path[..j] == folder;
        forall i | j < i < |path| ensures path[i] != SLASH { NoneAfter(path, j, i); }
        forall i | k < i < |path| ensures path[i] != SLASH { NoneAfter(path, k, i); }
        assert j == k;
      }
    } else {
      forall i | 0 < i < |path| ensures path[i] != SLASH { NoneAfter(path, k, i); }
    }
  }

  lemma CommitsAgree(a: Subject, b: Subject, env: Env)
    requires IsHistorical(a.node) && IsHistorical(b.node)
    ensures Compatible(CommitIdentity(a, env), CommitIdentity(b, env)) <==>
            forall c, d :: NamesCommit(a, env, c) && NamesCommit(b, env, d) ==> c == d
  {
    hide IsHistorical;
    var x, y := CommitIdentity(a, env), CommitIdentity(b, env);
    assert x != [] ==> NamesCommit(a, env, x);
    assert y != [] ==> NamesCommit(b, env, y);
    assert forall c :: (NamesCommit(a, env, c) ==> c == x) && (NamesCommit(b, env, c) ==> c == y);
  }

  /** A rule joins exactly the kin. */
  lemma MergeableExactly(rule: Rule, a: Subject, b: Subject, env: Env)
    ensures ShouldMerge(rule, a, b, env) <==> Kin(rule, a, b, env)
    ensures Kin(rule, a, b, env) <==> Kin(rule, b, a, env)
  {
    hide IsHistorical, CommitIdentity, NamesCommit, IsFolder, Dirname;
    if IsHistorical(a.node) && IsHistorical(b.node) {
      CommitsAgree(a, b, env);
      CommitsAgree(b, a, env);
    }
    assert (exists folder :: IsFolder(folder, a.path) && IsFolder(folder, b.path)) <==> Dirname(a.path) == Dirname(b.path) by {
      DirnameIsFolder(a.path, Dirname(a.path));
      DirnameIsFolder(b.path, Dirname(a.path));
      forall folder | IsFolder(folder, a.path) && IsFolder(folder, b.path) ensures Dirname(a.path) == Dirname(b.path) {
        DirnameIsFolder(a.path, folder);
        DirnameIsFolder(b.path, folder);
      }
    }
  }

  // ---------- merging two subjects ----------

  function SnapshotOf(ps: seq<Provenance>): Option<Text> {
    if ps == [] then None
    else if ps[0].source.RepositorySource? then Some(ps[0].source.snapshotId)
    else SnapshotOf(ps[1..])
  }

  function MaxOf(a: int, b: int): int { if a >= b then a else b }

  function MinOf(a: int, b: int): int { if a <= b then a else b }

  function MergedNode(keep: Node, drop: Node, codes: Codes): Node {
    keep.(provenance := MergeProvenance(keep.provenance, drop.provenance, codes),
          estimatedTokens := if keep.estimatedTokens >= drop.estimatedTokens then keep.estimatedTokens else drop.estimatedTokens,
          status := if keep.status == Conflicted || drop.status == Conflicted then Conflicted else keep.status,
          trust := keep.trust.(
            adversarialRisk := if keep.trust.adversarialRisk >= drop.trust.adversarialRisk
                               then keep.trust.adversarialRisk else drop.trust.adversarialRisk,
            freshness := if keep.trust.freshness <= drop.trust.freshness then keep.trust.freshness else drop.trust.freshness))
  }

  function Remint(n: Node, snapshotId: Text, codes: Codes): Node {
    n.(id := codes.node(IdentityOfNode(n, snapshotId)))
  }

  function MergeKept(keep: Working, drop: Working, env: Env): Result<Working> {
    var merged := MergedNode(keep.subject.node, drop.subject.node, env.codes);
    var own := SnapshotOf(merged.provenance);
    var snapshotId := if own.Some? then own else SnapshotOf(drop.subject.node.provenance);
    if snapshotId.None? then Err(NoRepositorySnapshot)
    else Ok(Working(
      keep.subject.(node := Remint(merged, snapshotId.value, env.codes),
                    byteStart := MinOf(keep.subject.byteStart, drop.subject.byteStart),
                    byteEnd := MaxOf(keep.subject.byteEnd, drop.subject.byteEnd)),
      keep.members + drop.members))
  }

  function MergeSubjects(a: Working, b: Working, env: Env): Result<Working> {
    if AtMost(a.subject.node.id, b.subject.node.id) then MergeKept(a, b, env) else MergeKept(b, a, env)
  }

  predicate HasRepository(ps: seq<Provenance>) { exists p :: p in ps && p.source.RepositorySource? }

  predicate Anchored(w: Working) { HasRepository(w.subject.node.provenance) }

  lemma {:induction false} SnapshotExactly(ps: seq<Provenance>)
    ensures SnapshotOf(ps).Some? <==> HasRepository(ps)
  {
    if ps != [] {
      assert ps == [ps[0]] + ps[1..];
      SnapshotExactly(ps[1..]);
    }
  }

  lemma MergeKeepsRepository(left: seq<Provenance>, right: seq<Provenance>, codes: Codes)
    ensures HasRepository(MergeProvenance(left, right, codes)) <==> HasRepository(left) || HasRepository(right)
  {
    MergeKeepsKeys(left, right, codes);
    hide MergeProvenance;
    var merged := MergeProvenance(left, right, codes);
    KeysRepository(merged);
    KeysRepository(left);
    KeysRepository(right);
    assert forall k :: k in Keys(merged) <==> k in Keys(left) || k in Keys(right);
  }

  lemma KeysRepository(ps: seq<Provenance>)
    ensures HasRepository(ps) <==> exists k :: k in Keys(ps) && k.source.RepositorySource?
  {
    if HasRepository(ps) {
      var p :| p in ps && p.source.RepositorySource?;
      assert KeyOf(p) in Keys(ps);
    }
  }

  /** Two subjects merge exactly when one of them has repository provenance; the result has it too, stands for the
      members of both, and stays alike. */
  lemma MergeKeptCorrect(keep: Working, drop: Working, env: Env)
    ensures MergeKept(keep, drop, env).Ok? <==> Anchored(keep) || Anchored(drop)
    ensures MergeKept(keep, drop, env).Ok? ==>
              var w := MergeKept(keep, drop, env).value;
              && Anchored(w) && w.members == keep.members + drop.members
              && (Alike(keep.subject, drop.subject) ==> Alike(w.subject, keep.subject))
  {
    var a, b := keep.subject.node, drop.subject.node;
    var merged := MergedNode(a, b, env.codes);
    assert merged.provenance == MergeProvenance(a.provenance, b.provenance, env.codes) && merged.kind == a.kind;
    MergeKeepsRepository(a.provenance, b.provenance, env.codes);
    MergeKeepsIdentities(a.provenance, b.provenance, env.codes);
    SnapshotExactly(merged.provenance);
    SnapshotExactly(b.provenance);
    hide MergeProvenance, Identities, SnapshotOf, HasRepository, IsHistory, MergedNode;
  }

  ghost predicate Homogeneous(w: Working) {
    forall m :: m in w.members ==> Alike(m, w.subject)
  }

  // ---------- what a merged subject sums up ----------

  ghost function MemberKeys(members: seq<Subject>): set<Key> {
    set m, k | m in members && k in Keys(m.node.provenance) :: k
  }

  /** The subject spans one of its members: bytes, risk and tokens at least, freshness at most. */
  ghost predicate Spans(s: Subject, m: Subject) {
    && s.byteStart <= m.byteStart && s.byteEnd >= m.byteEnd
    && s.node.trust.adversarialRisk >= m.node.trust.adversarialRisk && s.node.trust.freshness <= m.node.trust.freshness
    && s.node.estimatedTokens >= m.node.estimatedTokens
  }

  /** Each bound is one of the members'. */
  ghost predicate Attained(s: Subject, members: seq<Subject>) {
    && (exists m :: m in members && s.byteStart == m.byteStart) && (exists m :: m in members && s.byteEnd == m.byteEnd)
    && (exists m :: m in members && s.node.trust.adversarialRisk == m.node.trust.adversarialRisk)
    && (exists m :: m in members && s.node.trust.freshness == m.node.trust.freshness)
    && (exists m :: m in members && s.node.estimatedTokens == m.node.estimatedTokens)
  }

  /** The subject is one of its members in all that is not summed up, and conflicted as soon as one of them is. */
  ghost predicate TakenFrom(s: Subject, m: Subject) {
    s == m.(node := m.node.(id := s.node.id, provenance := s.node.provenance, estimatedTokens := s.node.estimatedTokens,
                            status := s.node.status, trust := m.node.trust.(adversarialRisk := s.node.trust.adversarialRisk,
                                                                            freshness := s.node.trust.freshness)),
            byteStart := s.byteStart, byteEnd := s.byteEnd)
    && (s.node.status == Conflicted || s.node.status == m.node.status)
  }

  /** The id of a node is its hash in a snapshot its own provenance names. */
  ghost predicate Reminted(n: Node, codes: Codes) {
    exists p :: p in n.provenance && p.source.RepositorySource? && WellIdentified(n, p.source.snapshotId, codes)
  }

  /** A subject sums up its members: their provenance, the span of their bytes and trust, and a fresh id where there are
      several. A subject with one member is that member. */
  ghost predicate SumsUp(w: Working, codes: Codes) {
    && Keys(w.subject.node.provenance) == MemberKeys(w.members)
    && (forall m :: m in w.members ==> Spans(w.subject, m)) && Attained(w.subject, w.members)
    && (w.subject.node.status == Conflicted <==> exists m :: m in w.members && m.node.status == Conflicted)
    && (exists m :: m in w.members && TakenFrom(w.subject, m))
    && (if |w.members| == 1 then w.subject == w.members[0] else Reminted(w.subject.node, codes))
  }

  ghost predicate AllSumUp(ws: seq<Working>, codes: Codes) {
    forall w :: w in ws ==> SumsUp(w, codes)
  }

  /** A node that belongs to one snapshot: hashed in it, and no repository provenance from another. */
  ghost predicate Placed(n: Node, snapshotId: Text, codes: Codes) {
    && WellIdentified(n, snapshotId, codes)
    && forall p :: p in n.provenance && p.source.RepositorySource? ==> p.source.snapshotId == snapshotId
  }

  ghost predicate AllPlaced(ws: seq<Working>, snapshotId: Text, codes: Codes) {
    forall w :: w in ws ==> Placed(w.subject.node, snapshotId, codes)
  }

  lemma {:induction false} SnapshotNamed(ps: seq<Provenance>)
    ensures SnapshotOf(ps).Some? ==>
              exists p :: p in ps && p.source.RepositorySource? && p.source.snapshotId == SnapshotOf(ps).value
  {
    if ps != [] {
      SnapshotNamed(ps[1..]);
      assert ps == [ps[0]] + ps[1..];
    }
  }

  /** The id of a merge is re-minted in a snapshot its provenance names. */
  lemma KeptReminted(keep: Working, drop: Working, env: Env)
    requires MergeKept(keep, drop, env).Ok?
    ensures Reminted(MergeKept(keep, drop, env).value.subject.node, env.codes)
  {
    var a, b := keep.subject.node, drop.subject.node;
    var merged := MergedNode(a, b, env.codes);
    MergeKeepsRepository(a.provenance, b.provenance, env.codes);
    SnapshotExactly(merged.provenance);
    SnapshotExactly(b.provenance);
    SnapshotNamed(merged.provenance);
    hide MergeProvenance, Identities, SnapshotOf;
    var n := MergeKept(keep, drop, env).value.subject.node;
    assert n.provenance == merged.provenance;
  }

  lemma KeptPlaced(keep: Working, drop: Working, env: Env, snapshotId: Text)
    requires MergeKept(keep, drop, env).Ok?
    requires Placed(keep.subject.node, snapshotId, env.codes) && Placed(drop.subject.node, snapshotId, env.codes)
    ensures Placed(MergeKept(keep, drop, env).value.subject.node, snapshotId, env.codes)
  {
    var a, b := keep.subject.node, drop.subject.node;
    var n := MergeKept(keep, drop, env).value.subject.node;
    assert n.provenance == MergeProvenance(a.provenance, b.provenance, env.codes);
    MergeKeepsKeys(a.provenance, b.provenance, env.codes);
    KeptReminted(keep, drop, env);
    hide MergeProvenance, MergeKept, Identities, Keys;
  }

  lemma KeptKeys(keep: Working, drop: Working, env: Env)
    requires MergeKept(keep, drop, env).Ok?
    requires Keys(keep.subject.node.provenance) == MemberKeys(keep.members)
    requires Keys(drop.subject.node.provenance) == MemberKeys(drop.members)
    ensures var w := MergeKept(keep, drop, env).value; Keys(w.subject.node.provenance) == MemberKeys(w.members)
  {
    MergeKeepsKeys(keep.subject.node.provenance, drop.subject.node.provenance, env.codes);
    hide MergeProvenance, SnapshotOf, Keys, Identities;
    var w := MergeKept(keep, drop, env).value;
    assert MemberKeys(w.members) == MemberKeys(keep.members) + MemberKeys(drop.members);
  }

  lemma KeptSpan(keep: Working, drop: Working, env: Env)
    requires MergeKept(keep, drop, env).Ok?
    requires (forall m :: m in keep.members ==> Spans(keep.subject, m)) && Attained(keep.subject, keep.members)
    requires (forall m :: m in drop.members ==> Spans(drop.subject, m)) && Attained(drop.subject, drop.members)
    ensures var w := MergeKept(keep, drop, env).value;
            (forall m :: m in w.members ==> Spans(w.subject, m)) && Attained(w.subject, w.members)
  {
    hide MergeProvenance, SnapshotOf, Identities;
    var w := MergeKept(keep, drop, env).value;
    forall m | m in w.members ensures Spans(w.subject, m) { }
    AttainedMore(keep.subject, keep.members, drop.members);
    AttainedMore(drop.subject, drop.members, keep.members);
    assert forall m :: m in drop.members + keep.members <==> m in w.members;
    hide MergeKept;
  }

  lemma AttainedMore(s: Subject, members: seq<Subject>, others: seq<Subject>)
    requires Attained(s, members)
    ensures Attained(s, members + others)
  {
    assert forall m :: m in members ==> m in members + others;
  }

  lemma KeptTaken(keep: Working, drop: Working, env: Env)
    requires MergeKept(keep, drop, env).Ok? && exists m :: m in keep.members && TakenFrom(keep.subject, m)
    requires keep.subject.node.status == Conflicted <==> exists m :: m in keep.members && m.node.status == Conflicted
    requires drop.subject.node.status == Conflicted <==> exists m :: m in drop.members && m.node.status == Conflicted
    ensures var w := MergeKept(keep, drop, env).value;
            && (w.subject.node.status == Conflicted <==> exists m :: m in w.members && m.node.status == Conflicted)
            && exists m :: m in w.members && TakenFrom(w.subject, m)
  {
    hide MergeProvenance, SnapshotOf, Identities;
    var w := MergeKept(keep, drop, env).value;
    var m :| m in keep.members && TakenFrom(keep.subject, m);
    assert m in w.members && TakenFrom(w.subject, m);
    if w.subject.node.status == Conflicted {
      if keep.subject.node.status == Conflicted {
        var x :| x in keep.members && x.node.status == Conflicted;
        assert x in w.members;
      } else {
        var x :| x in drop.members && x.node.status == Conflicted;
        assert x in w.members;
      }
    }
  }

  lemma KeptSumsUp(keep: Working, drop: Working, env: Env)
    requires MergeKept(keep, drop, env).Ok? && SumsUp(keep, env.codes) && SumsUp(drop, env.codes)
    ensures SumsUp(MergeKept(keep, drop, env).value, env.codes)
  {
    hide MergeKept, Reminted, Attained, TakenFrom, Spans, Keys, MemberKeys, Anchored, Alike;
    KeptReminted(keep, drop, env);
    KeptKeys(keep, drop, env);
    KeptSpan(keep, drop, env);
    KeptTaken(keep, drop, env);
    MergeKeptCorrect(keep, drop, env);
    var k :| k in keep.members && TakenFrom(keep.subject, k);
    var d :| d in drop.members && TakenFrom(drop.subject, d);
    assert |keep.members + drop.members| >= 2;
  }

  lemma MergeSumsUp(a: Working, b: Working, env: Env)
    requires MergeSubjects(a, b, env).Ok?
    ensures Reminted(MergeSubjects(a, b, env).value.subject.node, env.codes)
    ensures SumsUp(a, env.codes) && SumsUp(b, env.codes) ==> SumsUp(MergeSubjects(a, b, env).value, env.codes)
  {
    hide MergeKept, SumsUp, Reminted;
    if AtMost(a.subject.node.id, b.subject.node.id) {
      KeptReminted(a, b, env);
      if SumsUp(a, env.codes) && SumsUp(b, env.codes) { KeptSumsUp(a, b, env); }
    } else {
      KeptReminted(b, a, env);
      if SumsUp(a, env.codes) && SumsUp(b, env.codes) { KeptSumsUp(b, a, env); }
    }
  }

  lemma MergePlaced(a: Working, b: Working, env: Env, snapshotId: Text)
    requires MergeSubjects(a, b, env).Ok?
    requires Placed(a.subject.node, snapshotId, env.codes) && Placed(b.subject.node, snapshotId, env.codes)
    ensures Placed(MergeSubjects(a, b, env).value.subject.node, snapshotId, env.codes)
  {
    hide MergeKept, Placed;
    if AtMost(a.subject.node.id, b.subject.node.id) { KeptPlaced(a, b, env, snapshotId); } else { KeptPlaced(b, a, env, snapshotId); }
  }

  /** Two subjects merge exactly when one of them has repository provenance. The result has it too, stands for the
      members of both and stays alike, sums them up, and has a fresh id: the hash of its node in a snapshot it names, and
      in the one snapshot where both belong to one. */
  lemma MergeSubjectsCorrect(a: Working, b: Working, env: Env)
    ensures MergeSubjects(a, b, env).Ok? <==> Anchored(a) || Anchored(b)
    ensures MergeSubjects(a, b, env).Ok? ==>
              var w := MergeSubjects(a, b, env).value;
              && Anchored(w) && multiset(w.members) == multiset(a.members) + multiset(b.members)
              && (Alike(a.subject, b.subject) ==> Alike(w.subject, a.subject))
              && (Alike(a.subject, b.subject) && Homogeneous(a) && Homogeneous(b) ==> Homogeneous(w))
              && Reminted(w.subject.node, env.codes)
              && (AtMost(a.subject.node.id, b.subject.node.id) ==> TakenFrom(w.subject, a.subject))
              && (Less(b.subject.node.id, a.subject.node.id) ==> TakenFrom(w.subject, b.subject))
              && (SumsUp(a, env.codes) && SumsUp(b, env.codes) ==> SumsUp(w, env.codes))
              && forall s :: Placed(a.subject.node, s, env.codes) && Placed(b.subject.node, s, env.codes) ==>
                   Placed(w.subject.node, s, env.codes)
  {
    MergeSubjectsKept(a, b, env);
    hide TakenFrom, Less;
    hide MergeSubjects, Anchored, Alike, Homogeneous, Reminted, SumsUp, Placed;
    if MergeSubjects(a, b, env).Ok? {
      MergeTakes(a, b, env);
      MergeSumsUp(a, b, env);
      forall s | Placed(a.subject.node, s, env.codes) && Placed(b.subject.node, s, env.codes)
        ensures Placed(MergeSubjects(a, b, env).value.subject.node, s, env.codes)
      {
        MergePlaced(a, b, env, s);
      }
    }
  }

  lemma KeptTakes(keep: Working, drop: Working, env: Env)
    requires MergeKept(keep, drop, env).Ok?
    ensures TakenFrom(MergeKept(keep, drop, env).value.subject, keep.subject)
  {
    hide MergeProvenance, SnapshotOf, Identities;
  }

  /** The subject with the smaller id is the one kept. */
  lemma MergeTakes(a: Working, b: Working, env: Env)
    requires MergeSubjects(a, b, env).Ok?
    ensures var w := MergeSubjects(a, b, env).value;
      && (AtMost(a.subject.node.id, b.subject.node.id) ==> TakenFrom(w.subject, a.subject))
      && (Less(b.subject.node.id, a.subject.node.id) ==> TakenFrom(w.subject, b.subject))
  {
    hide MergeKept, TakenFrom, Less;
    LessAsymmetric(a.subject.node.id, b.subject.node.id);
    if AtMost(a.subject.node.id, b.subject.node.id) { KeptTakes(a, b, env); } else { KeptTakes(b, a, env); }
  }

  lemma MergeSubjectsKept(a: Working, b: Working, env: Env)
    ensures MergeSubjects(a, b, env).Ok? <==> Anchored(a) || Anchored(b)
    ensures MergeSubjects(a, b, env).Ok? ==>
              var w := MergeSubjects(a, b, env).value;
              && Anchored(w) && multiset(w.members) == multiset(a.members) + multiset(b.members)
              && (Alike(a.subject, b.subject) ==> Alike(w.subject, a.subject))
              && (Alike(a.subject, b.subject) && Homogeneous(a) && Homogeneous(b) ==> Homogeneous(w))
  {
    MergeKeptCorrect(a, b, env);
    MergeKeptCorrect(b, a, env);
    hide MergeKept, Anchored, IsHistorical;
  }

  // ---------- merging a group ----------

  function MergeGroup(head: Working, rest: seq<Working>, env: Env): Result<Working>
    decreases |rest|
  {
    if rest == [] then Ok(head)
    else match MergeSubjects(head, rest[0], env)
      case Ok(w) => MergeGroup(w, rest[1..], env)
      case Err(e) => Err(e)
  }

  function MembersOf(ws: seq<Working>): seq<Subject> {
    if ws == [] then [] else ws[0].members + MembersOf(ws[1..])
  }

  ghost predicate AllAlike(s: Subject, ws: seq<Working>) {
    forall w :: w in ws ==> Alike(s, w.subject) && Homogeneous(w)
  }

  lemma {:induction false} MergeGroupCorrect(head: Working, rest: seq<Working>, env: Env)
    ensures MergeGroup(head, rest, env).Ok? <==> rest == [] || Anchored(head) || Anchored(rest[0])
    ensures MergeGroup(head, rest, env).Ok? ==>
              var w := MergeGroup(head, rest, env).value;
              && multiset(w.members) == multiset(head.members) + multiset(MembersOf(rest))
              && (Anchored(head) ==> Anchored(w))
              && (AllAlike(head.subject, rest) && Homogeneous(head) ==> Homogeneous(w) && Alike(w.subject, head.subject))
    decreases |rest|
  {
    hide MergeSubjects, Anchored, IsHistorical, Homogeneous;
    if rest != [] {
      var first, more := rest[0], rest[1..];
      assert rest == [first] + more && first in rest;
      MergeSubjectsKept(head, first, env);
      if MergeSubjects(head, first, env).Ok? {
        MergeGroupCorrect(MergeSubjects(head, first, env).value, more, env);
      }
    }
  }

  lemma {:induction false} MergeGroupSumsUp(head: Working, rest: seq<Working>, env: Env)
    requires MergeGroup(head, rest, env).Ok? && SumsUp(head, env.codes) && AllSumUp(rest, env.codes)
    ensures SumsUp(MergeGroup(head, rest, env).value, env.codes)
    decreases |rest|
  {
    hide MergeSubjects, SumsUp;
    if rest != [] {
      assert rest[0] in rest && forall w :: w in rest[1..] ==> w in rest;
      MergeSumsUp(head, rest[0], env);
      MergeGroupSumsUp(MergeSubjects(head, rest[0], env).value, rest[1..], env);
    }
  }

  lemma {:induction false} MergeGroupPlaced(head: Working, rest: seq<Working>, env: Env, snapshotId: Text)
    requires MergeGroup(head, rest, env).Ok?
    requires Placed(head.subject.node, snapshotId, env.codes) && AllPlaced(rest, snapshotId, env.codes)
    ensures Placed(MergeGroup(head, rest, env).value.subject.node, snapshotId, env.codes)
    decreases |rest|
  {
    hide MergeSubjects, Placed;
    if rest != [] {
      assert rest[0] in rest && forall w :: w in rest[1..] ==> w in rest;
      MergePlaced(head, rest[0], env, snapshotId);
      MergeGroupPlaced(MergeSubjects(head, rest[0], env).value, rest[1..], env, snapshotId);
    }
  }

  // ---------- one pass ----------

  function LinkOf(ws: seq<Working>, rule: Rule, env: Env): (nat, nat) -> bool {
    (i: nat, j: nat) => i < |ws| && j < |ws| && ShouldMerge(rule, ws[i].subject, ws[j].subject, env)
  }

  predicate InRange(g: seq<nat>, n: nat) { forall i :: i in g ==> i < n }

  function Pick(ws: seq<Working>, g: seq<nat>): seq<Working>
    requires InRange(g, |ws|)
  {
    seq(|g|, i requires 0 <= i < |g| => assert g[i] in g; ws[g[i]])
  }

  predicate WellFormedGroups(groups: seq<seq<nat>>, n: nat) {
    forall g :: g in groups ==> g != [] && InRange(g, n)
  }

  function MergeOne(ws: seq<Working>, g: seq<nat>, env: Env): Result<Working>
    requires g != [] && InRange(g, |ws|)
  {
    var picked := Pick(ws, g);
    MergeGroup(picked[0], picked[1..], env)
  }

  function MergeGroups(ws: seq<Working>, groups: seq<seq<nat>>, env: Env): Result<seq<Working>>
    requires WellFormedGroups(groups, |ws|)
  {
    if groups == [] then Ok([])
    else
      assert groups[0] in groups && forall g :: g in groups[1..] ==> g in groups;
      match MergeOne(ws, groups[0], env)
      case Err(e) => Err(e)
      case Ok(w) =>
        match MergeGroups(ws, groups[1..], env)
        case Err(e) => Err(e)
        case Ok(more) => Ok([w] + more)
  }

  predicate WorkingAtMost(a: Working, b: Working) { AtMost(a.subject.node.id, b.subject.node.id) }

  /** One pass as a relation: the groups are the classes of the rule, and each is merged into one subject. */
  ghost predicate PassOf(ws: seq<Working>, rule: Rule, env: Env, groups: seq<seq<nat>>, out: Result<seq<Working>>) {
    && IsGrouping(groups, |ws|, LinkOf(ws, rule, env)) && WellFormedGroups(groups, |ws|)
    && match MergeGroups(ws, groups, env)
      case Err(e) => out == Err(e)
      case Ok(merged) => out == Ok(Sort(merged, WorkingAtMost))
  }

  /** Members joined by a chain of mergeable pairs are alike. */
  lemma {:induction false} ChainAlike(ws: seq<Working>, rule: Rule, env: Env, p: seq<nat>)
    requires IsChain(LinkOf(ws, rule, env), |ws|, p)
    ensures Alike(ws[p[0]].subject, ws[p[|p| - 1]].subject)
    decreases |p|
  {
    var link := LinkOf(ws, rule, env);
    hide ShouldMerge, IsHistorical;
    if |p| > 1 {
      var n := |p| - 1;
      var front := p[..n];
      forall k, l | 0 <= k && l == k + 1 && l < |front| ensures Linked(link, front[k], front[l]) {
        assert Linked(link, p[k], p[l]);
      }
      ChainAlike(ws, rule, env, front);
      assert Linked(link, p[n - 1], p[n]);
      if p[n - 1] < p[n] {
        MergeableAlike(rule, ws[p[n - 1]].subject, ws[p[n]].subject, env);
      } else {
        MergeableAlike(rule, ws[p[n]].subject, ws[p[n - 1]].subject, env);
      }
    }
  }

  ghost predicate AllHomogeneous(ws: seq<Working>) {
    forall w :: w in ws ==> Homogeneous(w)
  }

  lemma GroupAlike(ws: seq<Working>, rule: Rule, env: Env, groups: seq<seq<nat>>, g: seq<nat>)
    requires IsGrouping(groups, |ws|, LinkOf(ws, rule, env)) && WellFormedGroups(groups, |ws|) && g in groups
    requires AllHomogeneous(ws)
    ensures AllAlike(Pick(ws, g)[0].subject, Pick(ws, g)[1..])
  {
    hide Alike, Homogeneous, LinkOf, Connected, Flatten;
    var picked := Pick(ws, g);
    assert g[0] in g;
    forall w | w in picked[1..] ensures Alike(picked[0].subject, w.subject) && Homogeneous(w) {
      var i :| 1 <= i < |picked| && picked[i] == w;
      assert g[i] in g;
      assert Connected(LinkOf(ws, rule, env), |ws|, g[0], g[i]);
      ConnectedAlike(ws, rule, env, g[0], g[i]);
    }
  }

  lemma ConnectedAlike(ws: seq<Working>, rule: Rule, env: Env, a: nat, b: nat)
    requires Connected(LinkOf(ws, rule, env), |ws|, a, b)
    ensures a < |ws| && b < |ws| && Alike(ws[a].subject, ws[b].subject)
  {
    hide LinkOf, Alike;
    var p :| IsChain(LinkOf(ws, rule, env), |ws|, p) && p[0] == a && p[|p| - 1] == b;
    ChainAlike(ws, rule, env, p);
  }

  lemma {:induction false} MembersAppend(a: seq<Working>, b: seq<Working>)
    ensures MembersOf(a + b) == MembersOf(a) + MembersOf(b)
  {
    if a == [] {
      assert a + b == b;
    } else {
      MembersAppend(a[1..], b);
      assert (a + b)[1..] == a[1..] + b && (a + b)[0] == a[0];
      assert a[0].members + (MembersOf(a[1..]) + MembersOf(b)) == a[0].members + MembersOf(a[1..]) + MembersOf(b);
    }
  }

  lemma MembersMove(a: seq<Working>, w: Working, b: seq<Working>)
    ensures multiset(MembersOf(a + [w] + b)) == multiset(w.members) + multiset(MembersOf(a + b))
  {
    MembersAppend(a + [w], b);
    MembersAppend(a, [w]);
    MembersAppend(a, b);
    assert MembersOf([w]) == w.members;
  }

  /** The members of a list do not depend on its order. */
  lemma {:induction false} MembersPermuted(a: seq<Working>, b: seq<Working>)
    requires multiset(a) == multiset(b)
    ensures multiset(MembersOf(a)) == multiset(MembersOf(b))
    decreases |a|
  {
    assert |a| == |multiset(a)| == |multiset(b)| == |b|;
    if a != [] {
      assert a[0] in multiset(a);
      assert a[0] in b;
      var k :| 0 <= k < |b| && b[k] == a[0];
      TakeOutHead(a, b, k);
      MembersPermuted(a[1..], b[..k] + b[k + 1..]);
      MembersMove(b[..k], a[0], b[k + 1..]);
    }
  }

  lemma {:induction false} PickPermuted(ws: seq<Working>, a: seq<nat>, b: seq<nat>)
    requires InRange(a, |ws|) && InRange(b, |ws|) && multiset(a) == multiset(b)
    ensures multiset(Pick(ws, a)) == multiset(Pick(ws, b))
    decreases |a|
  {
    assert |a| == |multiset(a)| == |multiset(b)| == |b|;
    if a != [] {
      assert a[0] in multiset(a) && a[0] in a;
      assert a[0] in b;
      var k :| 0 <= k < |b| && b[k] == a[0];
      TakeOutHead(a, b, k);
      var rest := b[..k] + b[k + 1..];
      assert forall i :: i in a[1..] ==> i in a;
      assert forall i :: i in rest ==> i in b;
      PickPermuted(ws, a[1..], rest);
      PickSplit(ws, b, k);
      assert Pick(ws, a) == [ws[a[0]]] + Pick(ws, a[1..]);
    }
  }

  lemma PickSplit(ws: seq<Working>, b: seq<nat>, k: nat)
    requires InRange(b, |ws|) && k < |b|
    ensures InRange(b[..k] + b[k + 1..], |ws|)
    ensures b[k] < |ws| && multiset(Pick(ws, b)) == multiset{ws[b[k]]} + multiset(Pick(ws, b[..k] + b[k + 1..]))
  {
    var rest := b[..k] + b[k + 1..];
    assert b[k] in b && forall i :: i in rest ==> i in b;
    var p, q := Pick(ws, b), Pick(ws, rest);
    assert p == p[..k] + [p[k]] + p[k + 1..];
    assert q == p[..k] + p[k + 1..];
  }

  ghost predicate AllAnchored(ws: seq<Working>) {
    forall w :: w in ws ==> Anchored(w)
  }

  lemma MergeOneCorrect(ws: seq<Working>, g: seq<nat>, env: Env)
    requires g != [] && InRange(g, |ws|)
    ensures MergeOne(ws, g, env).Ok? ==>
              var w := MergeOne(ws, g, env).value;
              && multiset(w.members) == multiset(MembersOf(Pick(ws, g)))
              && (AllHomogeneous(ws) && AllAlike(Pick(ws, g)[0].subject, Pick(ws, g)[1..]) ==> Homogeneous(w))
    ensures AllAnchored(ws) ==> MergeOne(ws, g, env).Ok? && Anchored(MergeOne(ws, g, env).value)
  {
    hide Homogeneous, Anchored, Alike, MergeSubjects;
    var picked := Pick(ws, g);
    MergeGroupCorrect(picked[0], picked[1..], env);
    assert picked == [picked[0]] + picked[1..];
    assert g[0] in g && picked[0] == ws[g[0]] && picked[0] in ws;
  }

  lemma {:induction false} MergeGroupsCorrect(ws: seq<Working>, groups: seq<seq<nat>>, env: Env)
    requires WellFormedGroups(groups, |ws|)
    ensures InRange(Flatten(groups), |ws|)
    ensures MergeGroups(ws, groups, env).Ok? ==>
              var out := MergeGroups(ws, groups, env).value;
              && multiset(MembersOf(out)) == multiset(MembersOf(Pick(ws, Flatten(groups))))
              && ((AllHomogeneous(ws) && forall g :: g in groups ==> AllAlike(Pick(ws, g)[0].subject, Pick(ws, g)[1..]))
                  ==> AllHomogeneous(out))
    ensures AllAnchored(ws) ==> MergeGroups(ws, groups, env).Ok? && AllAnchored(MergeGroups(ws, groups, env).value)
    decreases |groups|
  {
    hide Homogeneous, Anchored, AllAlike, MergeOne;
    if groups != [] {
      var g, rest := groups[0], groups[1..];
      assert groups == [g] + rest && g in groups;
      assert forall h :: h in rest ==> h in groups;
      MergeOneCorrect(ws, g, env);
      MergeGroupsCorrect(ws, rest, env);
      PickAppend(ws, g, Flatten(rest));
      MembersAppend(Pick(ws, g), Pick(ws, Flatten(rest)));
    }
  }

  lemma PickAppend(ws: seq<Working>, a: seq<nat>, b: seq<nat>)
    requires InRange(a, |ws|) && InRange(b, |ws|)
    ensures InRange(a + b, |ws|) && Pick(ws, a + b) == Pick(ws, a) + Pick(ws, b)
  {
    assert forall i :: i in a + b <==> i in a || i in b;
  }

  lemma PickedFrom(ws: seq<Working>, g: seq<nat>)
    requires InRange(g, |ws|)
    ensures forall w :: w in Pick(ws, g) ==> w in ws
  {
    forall w | w in Pick(ws, g) ensures w in ws {
      var i :| 0 <= i < |g| && Pick(ws, g)[i] == w;
      assert g[i] in g && ws[g[i]] == w;
    }
  }

  lemma {:induction false} GroupsSumUp(ws: seq<Working>, groups: seq<seq<nat>>, env: Env)
    requires WellFormedGroups(groups, |ws|) && MergeGroups(ws, groups, env).Ok? && AllSumUp(ws, env.codes)
    ensures AllSumUp(MergeGroups(ws, groups, env).value, env.codes)
    decreases |groups|
  {
    hide SumsUp, MergeGroup;
    if groups != [] {
      var g := groups[0];
      assert g in groups && forall h :: h in groups[1..] ==> h in groups;
      var picked := Pick(ws, g);
      PickedFrom(ws, g);
      assert picked[0] in picked && forall w :: w in picked[1..] ==> w in picked;
      MergeGroupSumsUp(picked[0], picked[1..], env);
      GroupsSumUp(ws, groups[1..], env);
    }
  }

  lemma {:induction false} GroupsPlaced(ws: seq<Working>, groups: seq<seq<nat>>, env: Env, snapshotId: Text)
    requires WellFormedGroups(groups, |ws|) && MergeGroups(ws, groups, env).Ok? && AllPlaced(ws, snapshotId, env.codes)
    ensures AllPlaced(MergeGroups(ws, groups, env).value, snapshotId, env.codes)
    decreases |groups|
  {
    hide Placed, MergeGroup;
    if groups != [] {
      var g := groups[0];
      assert g in groups && forall h :: h in groups[1..] ==> h in groups;
      var picked := Pick(ws, g);
      PickedFrom(ws, g);
      assert picked[0] in picked && forall w :: w in picked[1..] ==> w in picked;
      MergeGroupPlaced(picked[0], picked[1..], env, snapshotId);
      GroupsPlaced(ws, groups[1..], env, snapshotId);
    }
  }

  lemma PassSumsUp(ws: seq<Working>, rule: Rule, env: Env, groups: seq<seq<nat>>, out: Result<seq<Working>>)
    requires PassOf(ws, rule, env, groups, out) && out.Ok?
    ensures AllSumUp(ws, env.codes) ==> AllSumUp(out.value, env.codes)
    ensures forall s :: AllPlaced(ws, s, env.codes) ==> AllPlaced(out.value, s, env.codes)
  {
    hide IsGrouping, MergeGroups, Sort, SumsUp, Placed;
    var merged := MergeGroups(ws, groups, env).value;
    forall w ensures w in out.value <==> w in merged { SortMembers(merged, WorkingAtMost, w); }
    if AllSumUp(ws, env.codes) { GroupsSumUp(ws, groups, env); }
    forall s | AllPlaced(ws, s, env.codes) ensures AllPlaced(out.value, s, env.codes) { GroupsPlaced(ws, groups, env, s); }
  }

  /** A pass conserves the members, mixes nothing that must stay apart, and cannot fail on anchored subjects. Its outputs
      sum up their members as its inputs did, and belong to the one snapshot its inputs belong to. */
  lemma PassCorrect(ws: seq<Working>, rule: Rule, env: Env, groups: seq<seq<nat>>, out: Result<seq<Working>>)
    requires PassOf(ws, rule, env, groups, out)
    ensures out.Ok? ==> multiset(MembersOf(out.value)) == multiset(MembersOf(ws))
    ensures out.Ok? && AllHomogeneous(ws) ==> AllHomogeneous(out.value)
    ensures AllAnchored(ws) ==> out.Ok? && AllAnchored(out.value)
    ensures out.Ok? && AllSumUp(ws, env.codes) ==> AllSumUp(out.value, env.codes)
    ensures out.Ok? ==> forall s :: AllPlaced(ws, s, env.codes) ==> AllPlaced(out.value, s, env.codes)
  {
    PassKept(ws, rule, env, groups, out);
    hide PassOf, AllHomogeneous, AllAnchored, MembersOf, AllSumUp, AllPlaced;
    if out.Ok? { PassSumsUp(ws, rule, env, groups, out); }
  }

  lemma PassKept(ws: seq<Working>, rule: Rule, env: Env, groups: seq<seq<nat>>, out: Result<seq<Working>>)
    requires PassOf(ws, rule, env, groups, out)
    ensures out.Ok? ==> multiset(MembersOf(out.value)) == multiset(MembersOf(ws))
    ensures out.Ok? && AllHomogeneous(ws) ==> AllHomogeneous(out.value)
    ensures AllAnchored(ws) ==> out.Ok? && AllAnchored(out.value)
  {
    hide Homogeneous, Anchored, LinkOf, MergeGroups, Sort, AllAlike;
    MergeGroupsCorrect(ws, groups, env);
    if out.Ok? {
      var merged := MergeGroups(ws, groups, env).value;
      SortSorts(merged, WorkingAtMost);
      forall w ensures w in out.value <==> w in merged { SortMembers(merged, WorkingAtMost, w); }
      MembersPermuted(merged, out.value);
      PickEverything(ws, Flatten(groups));
      MembersPermuted(Pick(ws, Flatten(groups)), ws);
      if AllHomogeneous(ws) {
        forall g | g in groups ensures AllAlike(Pick(ws, g)[0].subject, Pick(ws, g)[1..]) {
          GroupAlike(ws, rule, env, groups, g);
        }
      }
    }
  }

  /** A class that cannot be merged: neither of its first two subjects has repository provenance. */
  predicate Unmergeable(ws: seq<Working>, g: seq<nat>)
    requires InRange(g, |ws|)
  {
    |g| >= 2 && assert g[0] in g && g[1] in g; !Anchored(ws[g[0]]) && !Anchored(ws[g[1]])
  }

  lemma MergeOneExactly(ws: seq<Working>, g: seq<nat>, env: Env)
    requires g != [] && InRange(g, |ws|)
    ensures MergeOne(ws, g, env).Err? <==> Unmergeable(ws, g)
  {
    hide Anchored, MergeGroup;
    var picked := Pick(ws, g);
    MergeGroupCorrect(picked[0], picked[1..], env);
    if |g| >= 2 { assert picked[1..][0] == picked[1]; }
  }

  lemma {:induction false} MergeGroupsExactly(ws: seq<Working>, groups: seq<seq<nat>>, env: Env)
    requires WellFormedGroups(groups, |ws|)
    ensures MergeGroups(ws, groups, env).Err? <==> exists g :: g in groups && Unmergeable(ws, g)
    decreases |groups|
  {
    hide Unmergeable, MergeOne;
    if groups != [] {
      var g, rest := groups[0], groups[1..];
      assert groups == [g] + rest && g in groups;
      assert forall h :: h in rest ==> h in groups;
      MergeOneExactly(ws, g, env);
      MergeGroupsExactly(ws, rest, env);
    }
  }

  /** A pass fails exactly when some class cannot be merged. */
  lemma PassFailsExactly(ws: seq<Working>, rule: Rule, env: Env, groups: seq<seq<nat>>, out: Result<seq<Working>>)
    requires PassOf(ws, rule, env, groups, out)
    ensures out.Err? <==> exists g :: g in groups && Unmergeable(ws, g)
  {
    hide MergeGroups, IsGrouping, Unmergeable;
    MergeGroupsExactly(ws, groups, env);
  }

  lemma PickEverything(ws: seq<Working>, idx: seq<nat>)
    requires InRange(idx, |ws|) && multiset(idx) == multiset(Indices(|ws|))
    ensures multiset(Pick(ws, idx)) == multiset(ws)
  {
    var all := Indices(|ws|);
    PickPermuted(ws, idx, all);
    assert Pick(ws, all) == ws;
  }

  // ---------- the loops ----------

  method MergeSubjectList(group: seq<Working>, env: Env) returns (r: Result<Working>)
    requires group != []
    ensures r == MergeGroup(group[0], group[1..], env)
  {
    hide MergeSubjects;
    var acc := group[0];
    for i := 1 to |group|
      invariant MergeGroup(acc, group[i..], env) == MergeGroup(group[0], group[1..], env)
    {
      assert group[i..][0] == group[i] && group[i..][1..] == group[i + 1..];
      match MergeSubjects(acc, group[i], env) {
        case Err(e) => return Err(e);
        case Ok(w) => acc := w;
      }
    }
    return Ok(acc);
  }

  lemma TailWellFormed(groups: seq<seq<nat>>, k: nat, n: nat)
    requires WellFormedGroups(groups, n) && k <= |groups|
    ensures WellFormedGroups(groups[k..], n)
  {
    forall g | g in groups[k..] ensures g != [] && InRange(g, n) { assert g in groups; }
  }

  method MergeEachGroup(ws: seq<Working>, groups: seq<seq<nat>>, env: Env) returns (out: Result<seq<Working>>)
    requires WellFormedGroups(groups, |ws|)
    ensures out == MergeGroups(ws, groups, env)
  {
    hide MergeGroup;
    var merged: seq<Working> := [];
    assert groups[0..] == groups;
    PrefixedNone(MergeGroups(ws, groups, env));
    for k := 0 to |groups|
      invariant WellFormedGroups(groups[k..], |ws|)
      invariant Prefixed(merged, MergeGroups(ws, groups[k..], env)) == MergeGroups(ws, groups, env)
    {
      assert groups[k..][0] == groups[k] && groups[k..][1..] == groups[k + 1..] && groups[k] in groups;
      TailWellFormed(groups, k + 1, |ws|);
      var w := MergeSubjectList(Pick(ws, groups[k]), env);
      if w.Err? { return Err(w.error); }
      PrefixedSnoc(merged, w.value, MergeGroups(ws, groups[k + 1..], env));
      merged := merged + [w.value];
    }
    assert merged + [] == merged;
    return Ok(merged);
  }

  /** One union-find pass: subjects are grouped exactly along chains of mergeable pairs. */
  method UnionFindMerge(ws: seq<Working>, rule: Rule, env: Env) returns (out: Result<seq<Working>>)
    ensures exists groups :: PassOf(ws, rule, env, groups, out)
  {
    hide LinkOf, Connected, Flatten, MergeGroups, Sort;
    var found := GroupLinked(|ws|, LinkOf(ws, rule, env));
    out := MergeEachGroup(ws, found, env);
    if out.Ok? { out := Ok(Sort(out.value, WorkingAtMost)); }
    assert PassOf(ws, rule, env, found, out);
  }

  function Prefixed(front: seq<Working>, r: Result<seq<Working>>): Result<seq<Working>> {
    match r
    case Err(e) => Err(e)
    case Ok(rest) => Ok(front + rest)
  }

  lemma PrefixedNone(r: Result<seq<Working>>)
    ensures Prefixed([], r) == r
  {
    if r.Ok? { assert [] + r.value == r.value; }
  }

  lemma PrefixedSnoc(front: seq<Working>, w: Working, r: Result<seq<Working>>)
    ensures Prefixed(front + [w], r) == Prefixed(front, Prefixed([w], r))
  {
    if r.Ok? { assert front + [w] + r.value == front + ([w] + r.value); }
  }

  // ---------- who ends up together ----------

  /** Two input subjects stand in one subject. */
  ghost predicate Together(ws: seq<Working>, x: Subject, y: Subject) {
    exists w :: w in ws && x in w.members && y in w.members
  }

  lemma {:induction false} MemberListed(ws: seq<Working>, w: Working, x: Subject)
    requires w in ws && x in w.members
    ensures x in MembersOf(ws)
  {
    if w != ws[0] {
      assert w in ws[1..];
      MemberListed(ws[1..], w, x);
    }
  }

  /** The merge of a class has the members of all its subjects. */
  lemma GroupHolds(ws: seq<Working>, g: seq<nat>, env: Env, i: nat, x: Subject)
    requires g != [] && InRange(g, |ws|) && MergeOne(ws, g, env).Ok? && i in g && x in ws[i].members
    ensures x in MergeOne(ws, g, env).value.members
  {
    MergeOneCorrect(ws, g, env);
    hide MergeOne, MembersOf;
    var k :| 0 <= k < |g| && g[k] == i;
    assert Pick(ws, g)[k] == ws[i];
    MemberListed(Pick(ws, g), ws[i], x);
    var w := MergeOne(ws, g, env).value;
    assert x in multiset(w.members);
  }

  lemma {:induction false} GroupOutput(ws: seq<Working>, groups: seq<seq<nat>>, env: Env, g: seq<nat>)
    requires WellFormedGroups(groups, |ws|) && MergeGroups(ws, groups, env).Ok? && g in groups
    ensures MergeOne(ws, g, env).Ok? && MergeOne(ws, g, env).value in MergeGroups(ws, groups, env).value
    decreases |groups|
  {
    hide MergeOne;
    assert groups[0] in groups && forall h :: h in groups[1..] ==> h in groups;
    if g != groups[0] {
      assert g in groups[1..];
      GroupOutput(ws, groups[1..], env, g);
    }
  }

  /** After a pass the members of two subjects it joins are together. */
  lemma PassMeets(ws: seq<Working>, rule: Rule, env: Env, groups: seq<seq<nat>>, out: Result<seq<Working>>, i: nat, j: nat,
                  x: Subject, y: Subject)
    requires PassOf(ws, rule, env, groups, out) && out.Ok? && i < |ws| && j < |ws| && x in ws[i].members && y in ws[j].members
    requires i == j || Kin(rule, ws[i].subject, ws[j].subject, env)
    ensures Together(out.value, x, y)
  {
    var link := LinkOf(ws, rule, env);
    MergeableExactly(rule, ws[i].subject, ws[j].subject, env);
    MergeableExactly(rule, ws[j].subject, ws[i].subject, env);
    if i == j { ConnectedSelf(link, |ws|, i); } else { ConnectedPair(link, |ws|, i, j); }
    hide LinkOf, Kin, ShouldMerge, MergeGroups, Sort, MergeOne, Connected;
    var g := GroupWith(groups, |ws|, link, i);
    assert j in g;
    GroupOutput(ws, groups, env, g);
    GroupHolds(ws, g, env, i, x);
    GroupHolds(ws, g, env, j, y);
    SortMembers(MergeGroups(ws, groups, env).value, WorkingAtMost, MergeOne(ws, g, env).value);
  }

  lemma GroupWith(groups: seq<seq<nat>>, n: nat, link: (nat, nat) -> bool, i: nat) returns (g: seq<nat>)
    requires IsGrouping(groups, n, link) && i < n
    ensures g in groups && i in g
  {
    assert Indices(n)[i] == i;
    assert i in multiset(Indices(n));
    assert i in Flatten(groups) by { assert i in multiset(Flatten(groups)); }
    g := FlattenSource(groups, i);
  }

  lemma {:induction false} FlattenSource(groups: seq<seq<nat>>, i: nat) returns (g: seq<nat>)
    requires i in Flatten(groups)
    ensures g in groups && i in g
  {
    if i in groups[0] {
      g := groups[0];
    } else {
      g := FlattenSource(groups[1..], i);
    }
  }

  /** A pass parts nobody. */
  lemma PassCoarsens(ws: seq<Working>, rule: Rule, env: Env, groups: seq<seq<nat>>, out: Result<seq<Working>>,
                     x: Subject, y: Subject)
    requires PassOf(ws, rule, env, groups, out) && out.Ok? && Together(ws, x, y)
    ensures Together(out.value, x, y)
  {
    hide PassOf;
    var w :| w in ws && x in w.members && y in w.members;
    var i :| 0 <= i < |ws| && ws[i] == w;
    PassMeets(ws, rule, env, groups, out, i, i, x, y);
  }

  /** The first pass brings together all inputs of one blob that nothing keeps apart. */
  lemma BlobsMeet(input: seq<Subject>, env: Env, groups: seq<seq<nat>>, out: Result<seq<Working>>, x: Subject, y: Subject)
    requires PassOf(ToWorkingAll(input), SameBlob, env, groups, out) && out.Ok?
    requires x in input && y in input && Kin(SameBlob, x, y, env)
    ensures Together(out.value, x, y)
  {
    hide PassOf, Kin;
    var i :| 0 <= i < |input| && input[i] == x;
    var j :| 0 <= j < |input| && input[j] == y;
    var ws := ToWorkingAll(input);
    assert ws[i].subject == x && ws[j].subject == y && x in ws[i].members && y in ws[j].members;
    PassMeets(ws, SameBlob, env, groups, out, i, j, x, y);
  }

  ghost predicate BlobsTogether(input: seq<Subject>, env: Env, ws: seq<Working>) {
    forall x, y :: x in input && y in input && Kin(SameBlob, x, y, env) ==> Together(ws, x, y)
  }

  lemma BlobsStay(input: seq<Subject>, ws: seq<Working>, k: nat, env: Env, groups: seq<seq<nat>>, out: Result<seq<Working>>)
    requires k < |RULES| && PassOf(ws, RULES[k], env, groups, out) && out.Ok?
    requires if k == 0 then ws == ToWorkingAll(input) else BlobsTogether(input, env, ws)
    ensures BlobsTogether(input, env, out.value)
  {
    hide PassOf, Kin, Together;
    forall x, y | x in input && y in input && Kin(SameBlob, x, y, env) ensures Together(out.value, x, y) {
      if k == 0 { BlobsMeet(input, env, groups, out, x, y); } else { PassCoarsens(ws, RULES[k], env, groups, out, x, y); }
    }
  }

  // ---------- all five passes ----------

  function ToWorking(s: Subject): Working { Working(s, [s]) }

  function ToWorkingAll(input: seq<Subject>): seq<Working> {
    seq(|input|, i requires 0 <= i < |input| => ToWorking(input[i]))
  }

  lemma {:induction false} StartMembers(input: seq<Subject>)
    ensures MembersOf(ToWorkingAll(input)) == input
  {
    if input != [] {
      StartMembers(input[1..]);
      assert ToWorkingAll(input)[1..] == ToWorkingAll(input[1..]);
      assert input == [input[0]] + input[1..];
    }
  }

  lemma StartsHomogeneous(input: seq<Subject>)
    ensures AllHomogeneous(ToWorkingAll(input))
    ensures (forall s :: s in input ==> HasRepository(s.node.provenance)) ==> AllAnchored(ToWorkingAll(input))
  {
    hide HasRepository, IsHistorical;
    forall w | w in ToWorkingAll(input) ensures Homogeneous(w) && w.subject in input {
      var i :| 0 <= i < |input| && ToWorkingAll(input)[i] == w;
    }
  }

  lemma StartsSummedUp(input: seq<Subject>, codes: Codes)
    ensures AllSumUp(ToWorkingAll(input), codes)
    ensures forall s :: AllBelong(input, s, codes) ==> AllPlaced(ToWorkingAll(input), s, codes)
  {
    hide Placed;
    forall w | w in ToWorkingAll(input) ensures SumsUp(w, codes) && w.subject in input {
      var i :| 0 <= i < |input| && ToWorkingAll(input)[i] == w;
      OneSumsUp(input[i], codes);
    }
  }

  lemma OneSumsUp(s: Subject, codes: Codes)
    ensures SumsUp(ToWorking(s), codes)
  {
    hide Keys;
    assert s in [s];
    assert MemberKeys([s]) == Keys(s.node.provenance);
    assert TakenFrom(s, s);
  }

  /** All inputs belong to one snapshot. */
  ghost predicate AllBelong(input: seq<Subject>, snapshotId: Text, codes: Codes) {
    forall x :: x in input ==> Placed(x.node, snapshotId, codes)
  }

  /** What deduplication guarantees of its output. */
  ghost predicate Deduplicated(input: seq<Subject>, out: seq<Working>) {
    multiset(MembersOf(out)) == multiset(input) && AllHomogeneous(out)
  }

  /** Members of one output subject agree on producer, origin and age, and generated ones on their path. */
  lemma MembersNeverMix(input: seq<Subject>, out: seq<Working>, w: Working, a: Subject, b: Subject)
    requires Deduplicated(input, out) && w in out && a in w.members && b in w.members
    ensures a.producer == b.producer && a.generated == b.generated && IsHistorical(a.node) == IsHistorical(b.node)
    ensures a.generated ==> a.path == b.path
  {
    assert Homogeneous(w);
    assert Alike(a, w.subject) && Alike(b, w.subject);
  }

  const RULES: seq<Rule> := [SameBlob, SameSymbol, SameTree, Contained, CloneText]

  /** One pass turns a list into a result. */
  ghost predicate Passes(ws: seq<Working>, rule: Rule, env: Env, out: Result<seq<Working>>) {
    exists groups :: PassOf(ws, rule, env, groups, out)
  }

  /** The rule of each pass. */
  ghost function RuleAt(k: nat): Rule
    requires k < 5
  {
    if k == 0 then SameBlob else if k == 1 then SameSymbol else if k == 2 then SameTree
    else if k == 3 then Contained else CloneText
  }

  ghost predicate StagesPass(stages: seq<seq<Working>>, env: Env) {
    forall k, l :: 0 <= k && l == k + 1 && l < |stages| && k < 5 ==> Passes(stages[k], RuleAt(k), env, Ok(stages[l]))
  }

  /** The stages run through the rules in order: to the end, or to the first pass that fails. */
  ghost predicate Staged(stages: seq<seq<Working>>, input: seq<Subject>, env: Env, r: Result<seq<Working>>) {
    && 1 <= |stages| <= 6 && stages[0] == ToWorkingAll(input) && StagesPass(stages, env)
    && match r
      case Ok(out) => |stages| == 6 && out == stages[5]
      case Err(_) => |stages| <= 5 && Passes(stages[|stages| - 1], RuleAt(|stages| - 1), env, r)
  }

  lemma StageMore(stages: seq<seq<Working>>, env: Env, next: seq<Working>)
    requires 1 <= |stages| <= 5 && StagesPass(stages, env)
    requires Passes(stages[|stages| - 1], RuleAt(|stages| - 1), env, Ok(next))
    ensures StagesPass(stages + [next], env)
  {
    hide Passes;
  }

  /** The five passes, one per rule in order, each along the classes of its rule. Every input subject is a member of
      exactly one output subject, no output subject mixes producers, generated with hand-written, historical with
      current, or generated paths; nothing fails when every subject has repository provenance. Every output
      sums up its members, with a fresh id where it has several, and belongs to the snapshot the inputs belong to; and
      all inputs of one blob that nothing keeps apart end up together. */
  method DedupePasses(input: seq<Subject>, env: Env) returns (r: Result<seq<Working>>)
    ensures exists stages :: Staged(stages, input, env, r)
    ensures r.Ok? ==> Deduplicated(input, r.value)
    ensures (forall s :: s in input ==> HasRepository(s.node.provenance)) ==> r.Ok?
    ensures r.Ok? ==> BlobsTogether(input, env, r.value)
    ensures r.Ok? ==> AllSumUp(r.value, env.codes)
    ensures r.Ok? ==> forall s :: AllBelong(input, s, env.codes) ==> AllPlaced(r.value, s, env.codes)
  {
    hide PassOf, AllHomogeneous, AllAnchored, HasRepository, MembersOf, StagesPass, AllSumUp, AllPlaced, AllBelong;
    hide BlobsTogether;
    var current := ToWorkingAll(input);
    StartMembers(input);
    StartsHomogeneous(input);
    StartsSummedUp(input, env.codes);
    ghost var stages := [current];
    StageFirst(current, env);
    for k := 0 to |RULES|
      invariant multiset(MembersOf(current)) == multiset(input) && AllHomogeneous(current)
      invariant (forall s :: s in input ==> HasRepository(s.node.provenance)) ==> AllAnchored(current)
      invariant k > 0 ==> BlobsTogether(input, env, current)
      invariant AllSumUp(current, env.codes)
      invariant forall s :: AllBelong(input, s, env.codes) ==> AllPlaced(current, s, env.codes)
      invariant |stages| == k + 1 && stages[0] == ToWorkingAll(input) && stages[k] == current && StagesPass(stages, env)
    {
      var next := UnionFindMerge(current, RULES[k], env);
      ghost var groups :| PassOf(current, RULES[k], env, groups, next);
      assert RULES[k] == RuleAt(k);
      PassCorrect(current, RULES[k], env, groups, next);
      if next.Err? {
        assert Staged(stages, input, env, Err(next.error));
        return Err(next.error);
      }
      BlobsStay(input, current, k, env, groups, next);
      StageMore(stages, env, next.value);
      stages := stages + [next.value];
      current := next.value;
    }
    assert Staged(stages, input, env, Ok(current));
    return Ok(current);
  }

  lemma StageFirst(ws: seq<Working>, env: Env)
    ensures StagesPass([ws], env)
  {
  }

  // ---------- the replacement map ----------

  ghost predicate Stands(ws: seq<Working>, id: Text, survivor: Text) {
    exists w, m :: w in ws && m in w.members && m.node.id == id && w.subject.node.id == survivor
  }

  ghost predicate IsMember(ws: seq<Working>, id: Text) {
    exists w, m :: w in ws && m in w.members && m.node.id == id
  }

  /** The map sends exactly the member ids, each to the id of an output subject it is a member of. */
  ghost predicate IsReplacement(r: map<Text, Text>, ws: seq<Working>) {
    && (forall id :: id in r <==> IsMember(ws, id))
    && (forall id :: id in r ==> Stands(ws, id, r[id]))
  }

  predicate HasId(members: seq<Subject>, id: Text) { exists m :: m in members && m.node.id == id }

  /** Every member id now leads to the survivor. */
  function SetAll(r: map<Text, Text>, members: seq<Subject>, survivor: Text): map<Text, Text> {
    if members == [] then r else SetAll(r, members[..|members| - 1], survivor)[members[|members| - 1].node.id := survivor]
  }

  function Replacements(ws: seq<Working>): map<Text, Text> {
    if ws == [] then map[]
    else SetAll(Replacements(ws[..|ws| - 1]), ws[|ws| - 1].members, ws[|ws| - 1].subject.node.id)
  }

  lemma {:induction false} SetAllSets(r: map<Text, Text>, members: seq<Subject>, survivor: Text, id: Text)
    ensures id in SetAll(r, members, survivor) <==> id in r || HasId(members, id)
    ensures HasId(members, id) ==> SetAll(r, members, survivor)[id] == survivor
    ensures id in r && !HasId(members, id) ==> SetAll(r, members, survivor)[id] == r[id]
  {
    if members != [] {
      var n := |members| - 1;
      SetAllSets(r, members[..n], survivor, id);
      assert members == members[..n] + [members[n]];
    }
  }

  lemma {:induction false} ReplacementsStand(ws: seq<Working>, id: Text)
    ensures id in Replacements(ws) <==> IsMember(ws, id)
    ensures id in Replacements(ws) ==> Stands(ws, id, Replacements(ws)[id])
  {
    if ws != [] {
      var n := |ws| - 1;
      var front, w := ws[..n], ws[n];
      assert ws == front + [w] && w in ws;
      ReplacementsStand(front, id);
      SetAllSets(Replacements(front), w.members, w.subject.node.id, id);
      if HasId(w.members, id) {
        var m :| m in w.members && m.node.id == id;
      }
    }
  }

  lemma ReplacementsCorrect(ws: seq<Working>)
    ensures IsReplacement(Replacements(ws), ws)
  {
    forall id ensures id in Replacements(ws) <==> IsMember(ws, id)
      ensures id in Replacements(ws) ==> Stands(ws, id, Replacements(ws)[id])
    {
      ReplacementsStand(ws, id);
    }
  }

  method ReplacementsFrom(ws: seq<Working>) returns (r: map<Text, Text>)
    ensures r == Replacements(ws)
  {
    r := map[];
    for i := 0 to |ws|
      invariant r == Replacements(ws[..i])
    {
      var w := ws[i];
      for j := 0 to |w.members|
        invariant r == SetAll(Replacements(ws[..i]), w.members[..j], w.subject.node.id)
      {
        assert w.members[..j + 1][..j] == w.members[..j];
        r := r[w.members[j].node.id := w.subject.node.id];
      }
      assert w.members[..|w.members|] == w.members && ws[..i + 1][..i] == ws[..i];
    }
    assert ws[..|ws|] == ws;
  }

  /** Every original id leads to the id of a subject that survives. */
  lemma OriginalsSurvive(input: seq<Subject>, out: seq<Working>, s: Subject)
    requires Deduplicated(input, out) && s in input
    ensures s.node.id in Replacements(out) && Stands(out, s.node.id, Replacements(out)[s.node.id])
  {
    assert s in multiset(input);
    assert s in MembersOf(out);
    MemberSomewhere(out, s);
    ReplacementsStand(out, s.node.id);
  }

  lemma {:induction false} MemberSomewhere(ws: seq<Working>, s: Subject)
    requires s in MembersOf(ws)
    ensures exists w :: w in ws && s in w.members
  {
    if s in ws[0].members {
      assert ws[0] in ws;
    } else {
      MemberSomewhere(ws[1..], s);
    }
  }

  // ---------- rewriting the edges ----------

  function Follow(r: map<Text, Text>, id: Text): Text { if id in r then r[id] else id }

  function CreateEdge(e: Edge, from: Text, to: Text, codes: Codes): Edge {
    var next := e.(from := from, to := to);
    next.(id := codes.edge(IdentityOfEdge(next)))
  }

  function Rewrite(e: Edge, r: map<Text, Text>, codes: Codes): Edge {
    CreateEdge(e, Follow(r, e.from), Follow(r, e.to), codes)
  }

  predicate Loops(e: Edge, r: map<Text, Text>) { Follow(r, e.from) == Follow(r, e.to) }

  predicate EdgeAtMost(a: Edge, b: Edge) { AtMost(a.id, b.id) }

  function Rewritten(edges: seq<Edge>, r: map<Text, Text>, codes: Codes): seq<Edge> {
    if edges == [] then []
    else
      var before, e := Rewritten(edges[..|edges| - 1], r, codes), edges[|edges| - 1];
      if Loops(e, r) || (exists x :: x in before && x.id == Rewrite(e, r, codes).id) then before
      else before + [Rewrite(e, r, codes)]
  }

  ghost predicate UniqueIds(edges: seq<Edge>) {
    forall i, j :: 0 <= i < j < |edges| ==> edges[i].id != edges[j].id
  }

  /** Rewritten edges come from given ones, are no loops and repeat no id; every other edge left its id behind. */
  lemma {:induction false} RewrittenCorrect(edges: seq<Edge>, r: map<Text, Text>, codes: Codes)
    ensures var out := Rewritten(edges, r, codes);
      && UniqueIds(out)
      && (forall x :: x in out ==> x.from != x.to && exists e :: e in edges && x == Rewrite(e, r, codes))
      && (forall e :: e in edges && !Loops(e, r) ==> exists x :: x in out && x.id == Rewrite(e, r, codes).id)
  {
    hide CreateEdge;
    if edges != [] {
      var n := |edges| - 1;
      var front, e := edges[..n], edges[n];
      assert edges == front + [e] && e in edges;
      RewrittenCorrect(front, r, codes);
      EndpointsOf(e, r, codes);
    }
  }

  lemma EndpointsOf(e: Edge, r: map<Text, Text>, codes: Codes)
    ensures Rewrite(e, r, codes).from == Follow(r, e.from) && Rewrite(e, r, codes).to == Follow(r, e.to)
    ensures Rewrite(e, r, codes).id == codes.edge(IdentityOfEdge(Rewrite(e, r, codes)))
  {
  }

  function Remapped(edges: seq<Edge>, r: map<Text, Text>, codes: Codes): seq<Edge> {
    Sort(Rewritten(edges, r, codes), EdgeAtMost)
  }

  method RemapEdges(edges: seq<Edge>, r: map<Text, Text>, codes: Codes) returns (rewritten: seq<Edge>)
    ensures rewritten == Remapped(edges, r, codes)
  {
    hide CreateEdge, Sort;
    rewritten := [];
    var seen: set<Text> := {};
    for i := 0 to |edges|
      invariant rewritten == Rewritten(edges[..i], r, codes)
      invariant forall id :: id in seen <==> exists x :: x in rewritten && x.id == id
    {
      assert edges[..i + 1][..i] == edges[..i];
      var edge := edges[i];
      var from, to := Follow(r, edge.from), Follow(r, edge.to);
      if from != to {
        var next := CreateEdge(edge, from, to, codes);
        if next.id !in seen {
          assert next in rewritten + [next] && forall x :: x in rewritten ==> x in rewritten + [next];
          seen := seen + {next.id};
          rewritten := rewritten + [next];
        }
      }
    }
    assert edges[..|edges|] == edges;
    rewritten := Sort(rewritten, EdgeAtMost);
  }

  ghost predicate Survives(out: seq<Working>, id: Text) {
    exists w :: w in out && w.subject.node.id == id
  }

  ghost predicate EndsAmong(edges: seq<Edge>, input: seq<Subject>) {
    forall e :: e in edges ==> HasId(input, e.from) && HasId(input, e.to)
  }

  lemma FollowSurvives(input: seq<Subject>, out: seq<Working>, id: Text)
    requires Deduplicated(input, out) && HasId(input, id)
    ensures Survives(out, Follow(Replacements(out), id))
  {
    var s :| s in input && s.node.id == id;
    hide Deduplicated, Replacements;
    OriginalsSurvive(input, out, s);
    var w, m :| w in out && m in w.members && m.node.id == id && w.subject.node.id == Replacements(out)[id];
    assert Survives(out, w.subject.node.id);
  }

  /** No edge loops, no id repeats, ids match their hash, and edges between original nodes join surviving ones. */
  lemma RemappedCorrect(input: seq<Subject>, out: seq<Working>, edges: seq<Edge>, codes: Codes)
    requires Deduplicated(input, out)
    ensures var r := Remapped(edges, Replacements(out), codes);
      && UniqueIds(r)
      && (forall x :: x in r ==> x.from != x.to && x.id == codes.edge(IdentityOfEdge(x)))
      && (EndsAmong(edges, input) ==> forall x :: x in r ==> Survives(out, x.from) && Survives(out, x.to))
  {
    var map_ := Replacements(out);
    var once := Rewritten(edges, map_, codes);
    RewrittenCorrect(edges, map_, codes);
    hide Rewritten, Replacements, CreateEdge, Deduplicated, Survives, HasId;
    var r := Sort(once, EdgeAtMost);
    SortSorts(once, EdgeAtMost);
    PermutationUnique(once, r);
    forall x | x in r ensures x.from != x.to && x.id == codes.edge(IdentityOfEdge(x))
      ensures EndsAmong(edges, input) ==> Survives(out, x.from) && Survives(out, x.to)
    {
      SortMembers(once, EdgeAtMost, x);
      var e :| e in edges && x == Rewrite(e, map_, codes);
      EndpointsOf(e, map_, codes);
      if EndsAmong(edges, input) {
        FollowSurvives(input, out, e.from);
        FollowSurvives(input, out, e.to);
      }
    }
  }

  lemma PermutationUnique(a: seq<Edge>, b: seq<Edge>)
    requires UniqueIds(a) && multiset(a) == multiset(b)
    ensures UniqueIds(b)
  {
    assert Distinct(a) by {
      forall i, j | 0 <= i < j < |a| ensures a[i] != a[j] { assert a[i].id != a[j].id; }
    }
    PermutationDistinct(a, b);
    forall i, j | 0 <= i < j < |b| ensures b[i].id != b[j].id {
      assert b[i] in multiset(b) && b[j] in multiset(b);
      assert b[i] in a && b[j] in a;
      var k, l :| 0 <= k < |a| && 0 <= l < |a| && a[k] == b[i] && a[l] == b[j];
      if k < l { assert a[k].id != a[l].id; } else if l < k { assert a[l].id != a[k].id; }
    }
  }

  method DedupeEvidence(subjects: seq<Subject>, edges: seq<Edge>, env: Env)
    returns (r: Result<seq<Working>>, remapped: seq<Edge>)
    ensures exists stages :: Staged(stages, subjects, env, r)
    ensures r.Ok? ==> Deduplicated(subjects, r.value) && BlobsTogether(subjects, env, r.value)
    ensures r.Ok? ==> AllSumUp(r.value, env.codes)
    ensures r.Ok? ==> forall s :: AllBelong(subjects, s, env.codes) ==> AllPlaced(r.value, s, env.codes)
    ensures r.Ok? ==> remapped == Remapped(edges, Replacements(r.value), env.codes)
    ensures r.Ok? ==> UniqueIds(remapped) && forall x :: x in remapped ==> x.from != x.to
    ensures r.Ok? && EndsAmong(edges, subjects) ==>
              forall x :: x in remapped ==> Survives(r.value, x.from) && Survives(r.value, x.to)
    ensures (forall s :: s in subjects ==> HasRepository(s.node.provenance)) ==> r.Ok?
  {
    hide BlobsTogether, AllSumUp, AllBelong, AllPlaced, Staged, Deduplicated, HasRepository, Remapped, Replacements;
    hide Survives, EndsAmong, UniqueIds;
    remapped := [];
    r := DedupePasses(subjects, env);
    if r.Ok? {
      var replacements := ReplacementsFrom(r.value);
      remapped := RemapEdges(edges, replacements, env.codes);
      RemappedCorrect(subjects, r.value, edges, env.codes);
    }
  }
}
