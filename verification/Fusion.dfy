/** Reciprocal rank fusion of channel rankings, over any division and addition:
    the source adds doubles, whose addition commutes but does not associate. */
module Fusion {
  import opened Text16
  import opened Sorting
  import opened EvidenceGraph
  import opened EvidenceMerge

  /** The retrieval channels, declared in the order of their names. */
  datatype Channel =
    | Analogues | Ast | Bm25 | BuildConfig | Dataflow | Dense | Exact | ExternalDocs | GitHistoryChannel | Hybrid
    | Instructions | LocalHypothesis | Scip | Tests

  function Place(c: Channel): nat {
    match c
    case Analogues => 0
    case Ast => 1
    case Bm25 => 2
    case BuildConfig => 3
    case Dataflow => 4
    case Dense => 5
    case Exact => 6
    case ExternalDocs => 7
    case GitHistoryChannel => 8
    case Hybrid => 9
    case Instructions => 10
    case LocalHypothesis => 11
    case Scip => 12
    case Tests => 13
  }

  const RRF_K := 60

  function Weight(c: Channel): (w: real)
    ensures w > 0.0
  {
    match c
    case Analogues => 0.8
    case Ast => 1.2
    case Bm25 => 1.0
    case BuildConfig => 1.0
    case Dataflow => 1.2
    case Dense => 1.0
    case Exact => 1.4
    case ExternalDocs => 0.6
    case GitHistoryChannel => 1.1
    case Hybrid => 1.1
    case Instructions => 1.4
    case LocalHypothesis => 0.4
    case Scip => 1.3
    case Tests => 1.3
  }

  /** How quotients and sums come out; doubles round both. */
  datatype Arithmetic = Arithmetic(divide: (real, real) -> real, plus: (real, real) -> real)

  ghost predicate Commutative(plus: (real, real) -> real) {
    forall x, y :: plus(x, y) == plus(y, x)
  }

  ghost predicate Associative(plus: (real, real) -> real) {
    forall x, y, z :: plus(plus(x, y), z) == plus(x, plus(y, z))
  }

  datatype Candidate = Candidate(evidenceId: Text, identityKey: Text, node: Node, edges: seq<Edge>)

  datatype Ranking = Ranking(channel: Channel, candidates: seq<Candidate>)

  /** One candidate at its 1-based place in one channel. */
  datatype Hit = Hit(channel: Channel, place: nat, candidate: Candidate)

  datatype Entry = Entry(
    identityKey: Text, evidenceId: Text, node: Node, edges: seq<Edge>, score: real, channels: seq<Channel>,
    lexicalRank: Option<nat>, denseRank: Option<nat>)

  function HitsFrom(r: Ranking, start: nat): seq<Hit>
    requires start <= |r.candidates|
    decreases |r.candidates| - start
  {
    if start == |r.candidates| then [] else [Hit(r.channel, start, r.candidates[start])] + HitsFrom(r, start + 1)
  }

  function Hits(rankings: seq<Ranking>): seq<Hit> {
    if rankings == [] then [] else HitsFrom(rankings[0], 0) + Hits(rankings[1..])
  }

  /** A hit's share: the channel weight over the damped 1-based rank. */
  function HitScore(h: Hit, ar: Arithmetic): real {
    (ar.divide)(Weight(h.channel), (RRF_K + h.place + 1) as real)
  }

  function RankIf(c: Channel, h: Hit, otherwise: Option<nat>): Option<nat> {
    if h.channel == c then Some(h.place + 1) else otherwise
  }

  function FirstEntry(h: Hit, ar: Arithmetic): Entry {
    var c := h.candidate;
    Entry(c.identityKey, c.evidenceId, c.node, c.edges, HitScore(h, ar), [h.channel], RankIf(Bm25, h, None), RankIf(Dense, h, None))
  }

  function NextEntry(e: Entry, h: Hit, ar: Arithmetic): Entry {
    var c := h.candidate;
    Entry(e.identityKey, e.evidenceId,
          e.node.(provenance := e.node.provenance + c.node.provenance,
                  estimatedTokens := if e.node.estimatedTokens >= c.node.estimatedTokens
                                     then e.node.estimatedTokens else c.node.estimatedTokens),
          e.edges + c.edges, (ar.plus)(e.score, HitScore(h, ar)), e.channels + [h.channel],
          RankIf(Bm25, h, e.lexicalRank), RankIf(Dense, h, e.denseRank))
  }

  function Absorb(m: map<Text, Entry>, h: Hit, ar: Arithmetic): map<Text, Entry> {
    var id := h.candidate.evidenceId;
    m[id := if id in m then NextEntry(m[id], h, ar) else FirstEntry(h, ar)]
  }

  function AbsorbAll(m: map<Text, Entry>, hits: seq<Hit>, ar: Arithmetic): map<Text, Entry>
    decreases |hits|
  {
    if hits == [] then m else AbsorbAll(Absorb(m, hits[0], ar), hits[1..], ar)
  }

  // ---------- what an entry gathers ----------

  /** The shares of an id, in the order its hits arrive. */
  function SharesOf(hits: seq<Hit>, id: Text, ar: Arithmetic): seq<real> {
    if hits == [] then []
    else (if hits[0].candidate.evidenceId == id then [HitScore(hits[0], ar)] else []) + SharesOf(hits[1..], id, ar)
  }

  /** Adding one share after another to a running total. */
  function SumFrom(total: real, xs: seq<real>, plus: (real, real) -> real): real
    decreases |xs|
  {
    if xs == [] then total else SumFrom(plus(total, xs[0]), xs[1..], plus)
  }

  function Sum(xs: seq<real>, plus: (real, real) -> real): real {
    if xs == [] then 0.0 else SumFrom(xs[0], xs[1..], plus)
  }

  function ScoreOf(hits: seq<Hit>, id: Text, ar: Arithmetic): real {
    Sum(SharesOf(hits, id, ar), ar.plus)
  }

  function ChannelsOf(hits: seq<Hit>, id: Text): seq<Channel> {
    if hits == [] then []
    else (if hits[0].candidate.evidenceId == id then [hits[0].channel] else []) + ChannelsOf(hits[1..], id)
  }

  function ProvenanceOf(hits: seq<Hit>, id: Text): seq<Provenance> {
    if hits == [] then []
    else (if hits[0].candidate.evidenceId == id then hits[0].candidate.node.provenance else []) + ProvenanceOf(hits[1..], id)
  }

  function EdgesOf(hits: seq<Hit>, id: Text): seq<Edge> {
    if hits == [] then []
    else (if hits[0].candidate.evidenceId == id then hits[0].candidate.edges else []) + EdgesOf(hits[1..], id)
  }

  ghost function IdsIn(hits: seq<Hit>): set<Text> { set h | h in hits :: h.candidate.evidenceId }

  /** What an entry of `m` becomes after the hits. */
  ghost predicate Gathered(m: map<Text, Entry>, hits: seq<Hit>, next: map<Text, Entry>, id: Text, ar: Arithmetic)
    requires id in next
  {
    var e := next[id];
    if id in m then
      && e.score == SumFrom(m[id].score, SharesOf(hits, id, ar), ar.plus) && e.channels == m[id].channels + ChannelsOf(hits, id)
      && e.node.provenance == m[id].node.provenance + ProvenanceOf(hits, id) && e.edges == m[id].edges + EdgesOf(hits, id)
    else
      && e.score == ScoreOf(hits, id, ar) && e.channels == ChannelsOf(hits, id)
      && e.node.provenance == ProvenanceOf(hits, id) && e.edges == EdgesOf(hits, id)
  }

  lemma {:induction false} AbsorbGathers(m: map<Text, Entry>, hits: seq<Hit>, id: Text, ar: Arithmetic)
    ensures AbsorbAll(m, hits, ar).Keys == m.Keys + IdsIn(hits)
    ensures id in AbsorbAll(m, hits, ar) ==> Gathered(m, hits, AbsorbAll(m, hits, ar), id, ar)
    decreases |hits|
  {
    hide HitScore;
    if hits != [] {
      var h, rest := hits[0], hits[1..];
      assert hits == [h] + rest;
      var next := Absorb(m, h, ar);
      AbsorbGathers(next, rest, id, ar);
      if id in AbsorbAll(m, hits, ar) { GatherStep(m, h, rest, id, ar); }
    } else {
      GatheredNothing(m, id, ar);
    }
  }

  lemma GatheredNothing(m: map<Text, Entry>, id: Text, ar: Arithmetic)
    ensures id in m ==> Gathered(m, [], m, id, ar)
  {
    if id in m {
      assert m[id].channels + [] == m[id].channels && m[id].edges + [] == m[id].edges;
      assert m[id].node.provenance + [] == m[id].node.provenance;
    }
  }

  lemma GatherStep(m: map<Text, Entry>, h: Hit, rest: seq<Hit>, id: Text, ar: Arithmetic)
    requires var next := Absorb(m, h, ar);
      id in AbsorbAll(next, rest, ar) && Gathered(next, rest, AbsorbAll(next, rest, ar), id, ar)
    ensures id in AbsorbAll(m, [h] + rest, ar) && Gathered(m, [h] + rest, AbsorbAll(m, [h] + rest, ar), id, ar)
  {
    hide HitScore;
    var next := Absorb(m, h, ar);
    assert ([h] + rest)[1..] == rest;
    assert AbsorbAll(m, [h] + rest, ar) == AbsorbAll(next, rest, ar);
    hide AbsorbAll;
    OfCons(h, rest, id, ar);
    hide SharesOf, ChannelsOf, ProvenanceOf, EdgesOf;
    assert ([HitScore(h, ar)] + SharesOf(rest, id, ar))[1..] == SharesOf(rest, id, ar);
    if h.candidate.evidenceId == id && id in m {
      var e := m[id];
      Regroup3(e.channels, [h.channel], ChannelsOf(rest, id));
      Regroup3(e.edges, h.candidate.edges, EdgesOf(rest, id));
      Regroup3(e.node.provenance, h.candidate.node.provenance, ProvenanceOf(rest, id));
    }
  }

  /** What one more hit in front adds for an id. */
  lemma OfCons(h: Hit, rest: seq<Hit>, id: Text, ar: Arithmetic)
    ensures var own := h.candidate.evidenceId == id;
      && SharesOf([h] + rest, id, ar) == (if own then [HitScore(h, ar)] + SharesOf(rest, id, ar) else SharesOf(rest, id, ar))
      && ChannelsOf([h] + rest, id) == (if own then [h.channel] + ChannelsOf(rest, id) else ChannelsOf(rest, id))
      && ProvenanceOf([h] + rest, id) ==
         (if own then h.candidate.node.provenance + ProvenanceOf(rest, id) else ProvenanceOf(rest, id))
      && EdgesOf([h] + rest, id) == (if own then h.candidate.edges + EdgesOf(rest, id) else EdgesOf(rest, id))
  {
    hide HitScore;
    assert ([h] + rest)[1..] == rest && ([h] + rest)[0] == h;
  }

  // ---------- node identity ----------

  ghost predicate ConsistentCandidate(c: Candidate, snapshotId: Text, codes: Codes) {
    c.node.id == c.evidenceId && c.identityKey == c.node.identityKey && WellIdentified(c.node, snapshotId, codes)
  }

  ghost predicate Consistent(hits: seq<Hit>, snapshotId: Text, codes: Codes) {
    forall h :: h in hits ==> ConsistentCandidate(h.candidate, snapshotId, codes)
  }

  ghost predicate EntryKeepsIdentity(e: Entry, id: Text, snapshotId: Text, codes: Codes) {
    e.evidenceId == id && e.node.id == id && e.identityKey == e.node.identityKey && WellIdentified(e.node, snapshotId, codes)
  }

  ghost predicate KeepsIdentity(m: map<Text, Entry>, snapshotId: Text, codes: Codes) {
    forall id :: id in m ==> EntryKeepsIdentity(m[id], id, snapshotId, codes)
  }

  lemma NextKeepsIdentity(e: Entry, h: Hit, snapshotId: Text, codes: Codes, ar: Arithmetic)
    requires Injective(codes) && ConsistentCandidate(h.candidate, snapshotId, codes)
    requires EntryKeepsIdentity(e, h.candidate.evidenceId, snapshotId, codes)
    ensures EntryKeepsIdentity(NextEntry(e, h, ar), h.candidate.evidenceId, snapshotId, codes)
  {
    hide HitScore;
    var a, b := e.node, h.candidate.node;
    assert IdentityOfNode(a, snapshotId) == IdentityOfNode(b, snapshotId);
    IdentitiesAppend(a.provenance, b.provenance);
    hide Identities;
    var n := NextEntry(e, h, ar).node;
    assert n.provenance == a.provenance + b.provenance;
    assert Identities(n.provenance) == Identities(a.provenance);
    assert IdentityOfNode(n, snapshotId) == IdentityOfNode(a, snapshotId);
  }

  lemma {:induction false} AbsorbKeepsIdentity(m: map<Text, Entry>, hits: seq<Hit>, snapshotId: Text, codes: Codes, ar: Arithmetic)
    requires Injective(codes) && Consistent(hits, snapshotId, codes) && KeepsIdentity(m, snapshotId, codes)
    ensures KeepsIdentity(AbsorbAll(m, hits, ar), snapshotId, codes)
    decreases |hits|
  {
    hide WellIdentified, NextEntry;
    if hits != [] {
      var h := hits[0];
      assert h in hits && forall k :: k in hits[1..] ==> k in hits;
      if h.candidate.evidenceId in m { NextKeepsIdentity(m[h.candidate.evidenceId], h, snapshotId, codes, ar); }
      AbsorbKeepsIdentity(Absorb(m, h, ar), hits[1..], snapshotId, codes, ar);
    }
  }

  // ---------- the fused list ----------

  const FUSION_EXTRACTOR_VERSION: Text := // fusion-weights/v1
    [102, 117, 115, 105, 111, 110, 45, 119, 101, 105, 103, 104, 116, 115, 47, 118, 49]

  datatype Stamp = Stamp(observedAt: Text, weightsDigest: Text)

  function FusionProvenance(s: Stamp): Provenance {
    Provenance(ArtifactSource(Runtime, s.weightsDigest, Whole, s.weightsDigest), FUSION_EXTRACTOR_ID,
               FUSION_EXTRACTOR_VERSION, None, s.observedAt, s.weightsDigest)
  }

  datatype RankKey = RankKey(score: real, identityKey: Text, channel: Channel, evidenceId: Text)

  datatype Fused = Fused(
    key: RankKey, node: Node, edges: seq<Edge>, channels: seq<Channel>, lexicalRank: Option<nat>, denseRank: Option<nat>)

  predicate PlaceAtMost(a: Channel, b: Channel) { Place(a) <= Place(b) }

  function FuseEntry(e: Entry, s: Stamp): Fused
    requires e.channels != []
  {
    SortSorts(e.channels, PlaceAtMost);
    var sorted := Sort(e.channels, PlaceAtMost);
    Fused(RankKey(e.score, e.identityKey, sorted[0], e.evidenceId),
          e.node.(provenance := e.node.provenance + [FusionProvenance(s)]),
          e.edges, sorted, e.lexicalRank, e.denseRank)
  }

  /** Higher scores first, then identity key, channel and id. */
  predicate RanksBefore(a: RankKey, b: RankKey) {
    if a.score != b.score then a.score > b.score
    else if a.identityKey != b.identityKey then Less(a.identityKey, b.identityKey)
    else if a.channel != b.channel then Place(a.channel) <= Place(b.channel)
    else AtMost(a.evidenceId, b.evidenceId)
  }

  predicate FusedAtMost(a: Fused, b: Fused) { RanksBefore(a.key, b.key) }

  lemma PlaceInjective(a: Channel, b: Channel)
    requires Place(a) == Place(b)
    ensures a == b
  {
  }

  lemma RanksTotal(a: RankKey, b: RankKey)
    ensures RanksBefore(a, b) || RanksBefore(b, a)
    ensures RanksBefore(a, b) && RanksBefore(b, a) ==> a == b
  {
    LessConnected(a.identityKey, b.identityKey);
    LessAsymmetric(a.identityKey, b.identityKey);
    LessConnected(a.evidenceId, b.evidenceId);
    LessAsymmetric(a.evidenceId, b.evidenceId);
    hide Less, Place;
    if Place(a.channel) == Place(b.channel) { PlaceInjective(a.channel, b.channel); }
  }

  lemma RanksTransitive(a: RankKey, b: RankKey, c: RankKey)
    requires RanksBefore(a, b) && RanksBefore(b, c)
    ensures RanksBefore(a, c)
  {
    hide Less, Place;
    if a.score == b.score == c.score {
      if a.identityKey != b.identityKey || b.identityKey != c.identityKey {
        if a.identityKey != b.identityKey && b.identityKey != c.identityKey {
          LessTransitive(a.identityKey, b.identityKey, c.identityKey);
        }
        LessAsymmetric(a.identityKey, b.identityKey);
        LessAsymmetric(a.identityKey, c.identityKey);
      } else {
        if Place(a.channel) == Place(b.channel) { PlaceInjective(a.channel, b.channel); }
        if a.channel == b.channel == c.channel { AtMostTransitive(a.evidenceId, b.evidenceId, c.evidenceId); }
      }
    }
  }

  lemma RankOrder()
    ensures TotalPreorder(RanksBefore) && TotalPreorder(FusedAtMost)
  {
    hide RanksBefore;
    forall a, b ensures RanksBefore(a, b) || RanksBefore(b, a) { RanksTotal(a, b); }
    forall a, b, c | RanksBefore(a, b) && RanksBefore(b, c) ensures RanksBefore(a, c) { RanksTransitive(a, b, c); }
  }

  function HitIds(hits: seq<Hit>): seq<Text> {
    seq(|hits|, i requires 0 <= i < |hits| => hits[i].candidate.evidenceId)
  }

  ghost predicate Listable(m: map<Text, Entry>, order: seq<Text>) {
    forall id :: id in order ==> id in m && m[id].evidenceId == id && m[id].channels != []
  }

  lemma {:induction false} EntriesStayListable(m: map<Text, Entry>, hits: seq<Hit>, id: Text, ar: Arithmetic)
    requires id in m ==> m[id].evidenceId == id && m[id].channels != []
    ensures id in AbsorbAll(m, hits, ar) ==> AbsorbAll(m, hits, ar)[id].evidenceId == id && AbsorbAll(m, hits, ar)[id].channels != []
    decreases |hits|
  {
    hide HitScore;
    if hits != [] { EntriesStayListable(Absorb(m, hits[0], ar), hits[1..], id, ar); }
  }

  lemma AllListable(hits: seq<Hit>, ar: Arithmetic)
    ensures Listable(AbsorbAll(map[], hits, ar), Arrivals(HitIds(hits)))
    ensures forall id :: id in Arrivals(HitIds(hits)) <==> id in IdsIn(hits)
  {
    hide AbsorbAll, Arrivals, Gathered;
    forall id ensures id in HitIds(hits) <==> id in IdsIn(hits) {
      if id in IdsIn(hits) {
        var i :| 0 <= i < |hits| && hits[i].candidate.evidenceId == id;
        assert HitIds(hits)[i] == id;
      }
    }
    forall id | id in Arrivals(HitIds(hits)) ensures
      id in AbsorbAll(map[], hits, ar) && AbsorbAll(map[], hits, ar)[id].evidenceId == id && AbsorbAll(map[], hits, ar)[id].channels != []
    {
      AbsorbGathers(map[], hits, id, ar);
      EntriesStayListable(map[], hits, id, ar);
    }
  }

  function FuseAll(m: map<Text, Entry>, order: seq<Text>, s: Stamp): seq<Fused>
    requires Listable(m, order)
  {
    seq(|order|, i requires 0 <= i < |order| => FuseEntry(m[order[i]], s))
  }

  function Fuse(rankings: seq<Ranking>, s: Stamp, ar: Arithmetic): seq<Fused> {
    AllListable(Hits(rankings), ar);
    Sort(FuseAll(AbsorbAll(map[], Hits(rankings), ar), Arrivals(HitIds(Hits(rankings))), s), FusedAtMost)
  }

  lemma FuseMembers(rankings: seq<Ranking>, s: Stamp, f: Fused, ar: Arithmetic)
    ensures f in Fuse(rankings, s, ar) <==>
      var m := AbsorbAll(map[], Hits(rankings), ar);
      var id := f.key.evidenceId;
      id in IdsIn(Hits(rankings)) && id in m && m[id].channels != [] && f == FuseEntry(m[id], s)
  {
    var hits := Hits(rankings);
    AllListable(hits, ar);
    var m, order := AbsorbAll(map[], hits, ar), Arrivals(HitIds(hits));
    hide Hits, AbsorbAll, Arrivals, Sort;
    SortMembers(FuseAll(m, order, s), FusedAtMost, f);
    var id := f.key.evidenceId;
    if id in IdsIn(hits) && id in m && m[id].channels != [] && f == FuseEntry(m[id], s) {
      var i :| 0 <= i < |order| && order[i] == id;
      assert FuseAll(m, order, s)[i] == f;
    }
  }

  lemma FusedDistinct(rankings: seq<Ranking>, s: Stamp, ar: Arithmetic)
    ensures Distinct(Fuse(rankings, s, ar)) && Sorted(Fuse(rankings, s, ar), FusedAtMost)
  {
    var hits := Hits(rankings);
    AllListable(hits, ar);
    var m, order := AbsorbAll(map[], hits, ar), Arrivals(HitIds(hits));
    hide Hits, AbsorbAll, RanksBefore, Sort;
    var all := FuseAll(m, order, s);
    forall i, j | 0 <= i < j < |all| ensures all[i] != all[j] {
      assert all[i].key.evidenceId == order[i] && all[j].key.evidenceId == order[j];
    }
    RankOrder();
    SortSorts(all, FusedAtMost);
    PermutationDistinct(all, Sort(all, FusedAtMost));
  }

  // ---------- what an entry takes from its hits ----------

  /** The hits of an id, in the order they arrive. */
  function OwnHits(hits: seq<Hit>, id: Text): seq<Hit> {
    if hits == [] then []
    else
      var last := |hits| - 1;
      OwnHits(hits[..last], id) + if hits[last].candidate.evidenceId == id then [hits[last]] else []
  }

  /** The rank is that of the last of the hits in the channel, and none where there is no such hit. */
  ghost predicate RankStands(rank: Option<nat>, own: seq<Hit>, c: Channel) {
    match rank
    case None => forall h :: h in own ==> h.channel != c
    case Some(r) => exists i :: 0 <= i < |own| && LastIn(own, i, c) && r == own[i].place + 1
  }

  ghost predicate LastIn(own: seq<Hit>, i: nat, c: Channel)
    requires i < |own|
  {
    own[i].channel == c && forall j :: i < j < |own| ==> own[j].channel != c
  }

  function Bare(n: Node): Node { n.(provenance := [], estimatedTokens := 0) }

  /** An id keeps the key and the node of its first hit, with the greatest token count and its last ranks. */
  ghost predicate Carries(identityKey: Text, node: Node, lexicalRank: Option<nat>, denseRank: Option<nat>, own: seq<Hit>)
  {
    && own != [] && identityKey == own[0].candidate.identityKey && Bare(node) == Bare(own[0].candidate.node)
    && (forall h :: h in own ==> h.candidate.node.estimatedTokens <= node.estimatedTokens)
    && (exists h :: h in own && h.candidate.node.estimatedTokens == node.estimatedTokens)
    && RankStands(lexicalRank, own, Bm25) && RankStands(denseRank, own, Dense)
  }

  ghost predicate EntryCarries(e: Entry, own: seq<Hit>) {
    Carries(e.identityKey, e.node, e.lexicalRank, e.denseRank, own)
  }

  lemma RankFollows(rank: Option<nat>, own: seq<Hit>, h: Hit, c: Channel)
    requires RankStands(rank, own, c)
    ensures RankStands(RankIf(c, h, rank), own + [h], c)
  {
    var more := own + [h];
    if h.channel == c {
      assert LastIn(more, |own|, c);
    } else if rank.Some? {
      var i :| 0 <= i < |own| && LastIn(own, i, c) && rank.value == own[i].place + 1;
      assert LastIn(more, i, c);
    }
  }

  lemma FirstCarries(h: Hit, ar: Arithmetic)
    ensures EntryCarries(FirstEntry(h, ar), [h])
  {
    hide HitScore;
    RankFollows(None, [], h, Bm25);
    RankFollows(None, [], h, Dense);
    assert [] + [h] == [h] && h in [h];
  }

  lemma NextCarries(e: Entry, own: seq<Hit>, h: Hit, ar: Arithmetic)
    requires EntryCarries(e, own)
    ensures EntryCarries(NextEntry(e, h, ar), own + [h])
  {
    RankFollows(e.lexicalRank, own, h, Bm25);
    RankFollows(e.denseRank, own, h, Dense);
    hide HitScore, RankStands, RankIf;
    var k :| k in own && k.candidate.node.estimatedTokens == e.node.estimatedTokens;
    assert k in own + [h] && h in own + [h] && (own + [h])[0] == own[0];
  }

  lemma {:induction false} AbsorbCarries(hits: seq<Hit>, id: Text, ar: Arithmetic)
    ensures var m := AbsorbAll(map[], hits, ar);
      if id in m then EntryCarries(m[id], OwnHits(hits, id)) else OwnHits(hits, id) == []
    decreases |hits|
  {
    hide EntryCarries, NextEntry, FirstEntry;
    if hits == [] {
      StartsEmpty(ar);
    } else {
      var before, h := hits[..|hits| - 1], hits[|hits| - 1];
      assert hits == before + [h];
      AbsorbCarries(before, id, ar);
      AbsorbSnoc(map[], before, h, ar);
      var m := AbsorbAll(map[], before, ar);
      hide AbsorbAll;
      if h.candidate.evidenceId == id {
        if id in m { NextCarries(m[id], OwnHits(before, id), h, ar); } else { FirstCarries(h, ar); }
        assert [] + [h] == [h];
      } else {
        assert OwnHits(before, id) + [] == OwnHits(before, id);
      }
    }
  }

  /** The contributions of hits: each channel's weight over its 1-based rank damped by 60. */
  ghost function Contributions(own: seq<Hit>, ar: Arithmetic): seq<real> {
    seq(|own|, i requires 0 <= i < |own| => (ar.divide)(Weight(own[i].channel), (60 + (own[i].place + 1)) as real))
  }

  lemma {:induction false} SharesAreContributions(hits: seq<Hit>, id: Text, ar: Arithmetic)
    ensures SharesOf(hits, id, ar) == Contributions(OwnHits(hits, id), ar)
    decreases |hits|
  {
    if hits != [] {
      var before, h := hits[..|hits| - 1], hits[|hits| - 1];
      assert hits == before + [h];
      SharesAreContributions(before, id, ar);
      SharesAppend(before, [h], id, ar);
      assert [h][1..] == [];
      hide Weight;
    }
  }

  /** Each id that occurs comes out exactly once, in rank order, with the sum of its reciprocal-rank contributions, all
      the provenance and edges that came with it, the node of its first hit and the first of its channels by name. */
  lemma FuseCorrect(rankings: seq<Ranking>, s: Stamp, ar: Arithmetic)
    ensures Sorted(Fuse(rankings, s, ar), FusedAtMost)
    ensures forall i, j :: 0 <= i < j < |Fuse(rankings, s, ar)| ==>
              Fuse(rankings, s, ar)[i].key.evidenceId != Fuse(rankings, s, ar)[j].key.evidenceId
    ensures forall id :: id in IdsIn(Hits(rankings)) <==> exists f :: f in Fuse(rankings, s, ar) && f.key.evidenceId == id
    ensures forall f :: f in Fuse(rankings, s, ar) ==> FusedFrom(f, rankings, s, ar)
  {
    FusedDistinct(rankings, s, ar);
    AllListable(Hits(rankings), ar);
    hide Fuse, AbsorbAll, RanksBefore, FusedFrom;
    var m := AbsorbAll(map[], Hits(rankings), ar);
    forall f | f in Fuse(rankings, s, ar) ensures FusedFrom(f, rankings, s, ar) && f.key.evidenceId in IdsIn(Hits(rankings)) {
      FusedIsFrom(rankings, s, f, ar);
      FuseMembers(rankings, s, f, ar);
    }
    forall i, j | 0 <= i < j < |Fuse(rankings, s, ar)|
      ensures Fuse(rankings, s, ar)[i].key.evidenceId != Fuse(rankings, s, ar)[j].key.evidenceId
    {
      FuseMembers(rankings, s, Fuse(rankings, s, ar)[i], ar);
      FuseMembers(rankings, s, Fuse(rankings, s, ar)[j], ar);
    }
    forall id | id in IdsIn(Hits(rankings)) ensures exists f :: f in Fuse(rankings, s, ar) && f.key.evidenceId == id {
      FuseMembers(rankings, s, FuseEntry(m[id], s), ar);
    }
  }

  ghost predicate FirstByName(c: Channel, channels: seq<Channel>) {
    c in channels && forall d :: d in channels ==> Place(c) <= Place(d)
  }

  lemma FusedTakes(e: Entry, s: Stamp, own: seq<Hit>)
    requires e.channels != [] && EntryCarries(e, own)
    ensures var f := FuseEntry(e, s);
      && multiset(f.channels) == multiset(e.channels) && FirstByName(f.key.channel, f.channels)
      && Carries(f.key.identityKey, f.node, f.lexicalRank, f.denseRank, own)
  {
    hide Place, Sort, RankStands;
    PlaceOrder();
    SortSorts(e.channels, PlaceAtMost);
    var f := FuseEntry(e, s);
    forall d | d in f.channels ensures Place(f.channels[0]) <= Place(d) {
      var i :| 0 <= i < |f.channels| && f.channels[i] == d;
      if i > 0 { assert PlaceAtMost(f.channels[0], f.channels[i]); }
    }
  }

  lemma PlaceOrder()
    ensures TotalPreorder(PlaceAtMost)
  {
    hide Place;
  }

  ghost predicate FusedFrom(f: Fused, rankings: seq<Ranking>, s: Stamp, ar: Arithmetic) {
    && f.key.evidenceId in IdsIn(Hits(rankings))
    && f.key.score == ScoreOf(Hits(rankings), f.key.evidenceId, ar)
       == Sum(Contributions(OwnHits(Hits(rankings), f.key.evidenceId), ar), ar.plus)
    && Carries(f.key.identityKey, f.node, f.lexicalRank, f.denseRank, OwnHits(Hits(rankings), f.key.evidenceId))
    && FirstByName(f.key.channel, f.channels)
    && f.node.provenance == ProvenanceOf(Hits(rankings), f.key.evidenceId) + [FusionProvenance(s)]
    && f.edges == EdgesOf(Hits(rankings), f.key.evidenceId)
    && multiset(f.channels) == multiset(ChannelsOf(Hits(rankings), f.key.evidenceId))
  }

  lemma FusedIsFrom(rankings: seq<Ranking>, s: Stamp, f: Fused, ar: Arithmetic)
    requires f in Fuse(rankings, s, ar)
    ensures FusedFrom(f, rankings, s, ar)
  {
    hide Fuse, Hits, AbsorbAll, RanksBefore, ChannelsOf, ProvenanceOf, EdgesOf, SharesOf, OwnHits, Contributions, Carries, Sum;
    hide FirstByName;
    var hits, id := Hits(rankings), f.key.evidenceId;
    FuseMembers(rankings, s, f, ar);
    AbsorbGathers(map[], hits, id, ar);
    AbsorbCarries(hits, id, ar);
    SharesAreContributions(hits, id, ar);
    FusedTakes(AbsorbAll(map[], hits, ar)[id], s, OwnHits(hits, id));
  }

  /** Fusing leaves node identity unchanged, and its own provenance never claims history. */
  lemma FusionKeepsIdentity(rankings: seq<Ranking>, s: Stamp, snapshotId: Text, codes: Codes, f: Fused, ar: Arithmetic)
    requires Injective(codes) && Consistent(Hits(rankings), snapshotId, codes) && f in Fuse(rankings, s, ar)
    ensures f.node.id == f.key.evidenceId && f.key.identityKey == f.node.identityKey
    ensures WellIdentified(f.node, snapshotId, codes)
    ensures (forall h :: h in Hits(rankings) ==> CleanHistory(h.candidate.node)) ==> CleanHistory(f.node)
  {
    hide Fuse, Hits;
    FuseMembers(rankings, s, f, ar);
    var hits := Hits(rankings);
    AbsorbKeepsIdentity(map[], hits, snapshotId, codes, ar);
    AbsorbGathers(map[], hits, f.key.evidenceId, ar);
    var n := AbsorbAll(map[], hits, ar)[f.key.evidenceId].node;
    IdentitiesAppend(n.provenance, [FusionProvenance(s)]);
    FusionIsVolatile(s);
    if forall h :: h in hits ==> CleanHistory(h.candidate.node) { CleanProvenance(hits, f.key.evidenceId); }
    hide Identities, AbsorbAll;
    assert IdentityOfNode(f.node, snapshotId) == IdentityOfNode(n, snapshotId);
  }

  lemma FusionIsVolatile(s: Stamp)
    ensures Identities([FusionProvenance(s)]) == {} && !IsHistory(FusionProvenance(s))
  {
  }

  lemma {:induction false} CleanProvenance(hits: seq<Hit>, id: Text)
    requires forall h :: h in hits ==> CleanHistory(h.candidate.node)
    ensures forall p :: p in ProvenanceOf(hits, id) && IsVolatile(p) ==> !IsHistory(p)
  {
    if hits != [] {
      assert hits[0] in hits && forall h :: h in hits[1..] ==> h in hits;
      CleanProvenance(hits[1..], id);
    }
  }

  // ---------- the loops ----------

  lemma {:induction false} AbsorbSnoc(m: map<Text, Entry>, hits: seq<Hit>, h: Hit, ar: Arithmetic)
    ensures AbsorbAll(m, hits + [h], ar) == Absorb(AbsorbAll(m, hits, ar), h, ar)
    decreases |hits|
  {
    hide Absorb;
    if hits == [] {
      assert hits + [h] == [h];
    } else {
      AbsorbSnoc(Absorb(m, hits[0], ar), hits[1..], h, ar);
      assert (hits + [h])[1..] == hits[1..] + [h];
    }
  }

  lemma OrderSnoc(hits: seq<Hit>, h: Hit)
    ensures var id := h.candidate.evidenceId;
      Arrivals(HitIds(hits + [h])) ==
      if id in Arrivals(HitIds(hits)) then Arrivals(HitIds(hits)) else Arrivals(HitIds(hits)) + [id]
  {
    assert HitIds(hits + [h]) == HitIds(hits) + [h.candidate.evidenceId];
    assert (HitIds(hits) + [h.candidate.evidenceId])[..|hits|] == HitIds(hits);
  }

  method FuseRankings(rankings: seq<Ranking>, s: Stamp, ar: Arithmetic) returns (ranked: seq<Fused>)
    ensures ranked == Fuse(rankings, s, ar)
  {
    hide Absorb, AbsorbAll, Arrivals, FuseEntry, Sort;
    var byId: map<Text, Entry> := map[];
    var order: seq<Text> := [];
    ghost var done: seq<Hit> := [];
    StartsEmpty(ar);
    assert rankings[0..] == rankings && done + Hits(rankings) == Hits(rankings);
    for i := 0 to |rankings|
      invariant done + Hits(rankings[i..]) == Hits(rankings)
      invariant byId == AbsorbAll(map[], done, ar) && order == Arrivals(HitIds(done))
    {
      var ranking := rankings[i];
      ghost var later := Hits(rankings[i + 1..]);
      assert rankings[i..][0] == ranking && rankings[i..][1..] == rankings[i + 1..];
      assert done + HitsFrom(ranking, 0) + later == done + (HitsFrom(ranking, 0) + later);
      for j := 0 to |ranking.candidates|
        invariant done + HitsFrom(ranking, j) + later == Hits(rankings)
        invariant byId == AbsorbAll(map[], done, ar) && order == Arrivals(HitIds(done))
      {
        var h := Hit(ranking.channel, j, ranking.candidates[j]);
        assert done + ([h] + HitsFrom(ranking, j + 1)) == done + [h] + HitsFrom(ranking, j + 1);
        AbsorbSnoc(map[], done, h, ar);
        OrderSnoc(done, h);
        if h.candidate.evidenceId !in order { order := order + [h.candidate.evidenceId]; }
        byId := Absorb(byId, h, ar);
        done := done + [h];
      }
      assert done + [] == done;
    }
    assert done == Hits(rankings);
    AllListable(done, ar);
    ranked := Sort(FuseAll(byId, order, s), FusedAtMost);
  }

  lemma StartsEmpty(ar: Arithmetic)
    ensures AbsorbAll(map[], [], ar) == map[] && Arrivals(HitIds([])) == []
  {
  }

  // ---------- the order of the channels does not matter ----------

  lemma {:induction false} SharesAppend(a: seq<Hit>, b: seq<Hit>, id: Text, ar: Arithmetic)
    ensures SharesOf(a + b, id, ar) == SharesOf(a, id, ar) + SharesOf(b, id, ar)
    ensures ChannelsOf(a + b, id) == ChannelsOf(a, id) + ChannelsOf(b, id)
  {
    hide HitScore;
    if a == [] {
      assert a + b == b;
      assert ChannelsOf(a, id) + ChannelsOf(b, id) == ChannelsOf(b, id);
      assert SharesOf(a, id, ar) + SharesOf(b, id, ar) == SharesOf(b, id, ar);
    } else {
      SharesAppend(a[1..], b, id, ar);
      assert (a + b)[1..] == a[1..] + b && (a + b)[0] == a[0];
      var first := if a[0].candidate.evidenceId == id then [a[0].channel] else [];
      assert ChannelsOf(a + b, id) == first + ChannelsOf(a[1..] + b, id);
      Regroup3(first, ChannelsOf(a[1..], id), ChannelsOf(b, id));
      var share := if a[0].candidate.evidenceId == id then [HitScore(a[0], ar)] else [];
      assert SharesOf(a + b, id, ar) == share + SharesOf(a[1..] + b, id, ar);
      Regroup3(share, SharesOf(a[1..], id, ar), SharesOf(b, id, ar));
    }
  }

  lemma {:induction false} HitsAppend(a: seq<Ranking>, b: seq<Ranking>)
    ensures Hits(a + b) == Hits(a) + Hits(b)
  {
    hide HitsFrom;
    if a == [] {
      assert a + b == b;
    } else {
      HitsAppend(a[1..], b);
      assert (a + b)[1..] == a[1..] + b && (a + b)[0] == a[0];
      Regroup3(HitsFrom(a[0], 0), Hits(a[1..]), Hits(b));
    }
  }

  /** Moving one ranking to the front changes no multiset of shares, hits or channels. */
  lemma MoveToFront(a: seq<Ranking>, r: Ranking, b: seq<Ranking>, id: Text, ar: Arithmetic)
    ensures multiset(SharesOf(Hits(a + [r] + b), id, ar)) == multiset(SharesOf(Hits([r] + (a + b)), id, ar))
    ensures multiset(ChannelsOf(Hits(a + [r] + b), id)) == multiset(ChannelsOf(Hits([r] + (a + b)), id))
    ensures multiset(Hits(a + [r] + b)) == multiset(Hits([r] + (a + b)))
  {
    HitsAppend(a + [r], b);
    HitsAppend(a, [r]);
    HitsAppend([r], a + b);
    HitsAppend(a, b);
    SharesAppend(Hits(a) + Hits([r]), Hits(b), id, ar);
    SharesAppend(Hits(a), Hits([r]), id, ar);
    SharesAppend(Hits([r]), Hits(a) + Hits(b), id, ar);
    SharesAppend(Hits(a), Hits(b), id, ar);
    hide Hits, SharesOf, ChannelsOf;
  }

  lemma {:induction false} PermutedRankings(a: seq<Ranking>, b: seq<Ranking>, id: Text, ar: Arithmetic)
    requires multiset(a) == multiset(b)
    ensures multiset(SharesOf(Hits(a), id, ar)) == multiset(SharesOf(Hits(b), id, ar))
    ensures multiset(ChannelsOf(Hits(a), id)) == multiset(ChannelsOf(Hits(b), id))
    ensures multiset(Hits(a)) == multiset(Hits(b))
    decreases |a|
  {
    hide Hits, SharesOf, ChannelsOf;
    assert |a| == |multiset(a)| == |multiset(b)| == |b|;
    if a == [] {
      assert b == [];
    } else {
      var r, rest := a[0], a[1..];
      assert a == [r] + rest && r in multiset(b);
      var k :| 0 <= k < |b| && b[k] == r;
      var before, after := b[..k], b[k + 1..];
      TakeOutHead(a, b, k);
      PermutedRankings(rest, before + after, id, ar);
      MoveToFront(before, r, after, id, ar);
      SameFront(r, rest, before + after, id, ar);
    }
  }

  lemma SameFront(r: Ranking, a: seq<Ranking>, b: seq<Ranking>, id: Text, ar: Arithmetic)
    requires multiset(SharesOf(Hits(a), id, ar)) == multiset(SharesOf(Hits(b), id, ar))
    requires multiset(ChannelsOf(Hits(a), id)) == multiset(ChannelsOf(Hits(b), id))
    requires multiset(Hits(a)) == multiset(Hits(b))
    ensures multiset(SharesOf(Hits([r] + a), id, ar)) == multiset(SharesOf(Hits([r] + b), id, ar))
    ensures multiset(ChannelsOf(Hits([r] + a), id)) == multiset(ChannelsOf(Hits([r] + b), id))
    ensures multiset(Hits([r] + a)) == multiset(Hits([r] + b))
  {
    HitsAppend([r], a);
    HitsAppend([r], b);
    SharesAppend(Hits([r]), Hits(a), id, ar);
    SharesAppend(Hits([r]), Hits(b), id, ar);
    hide Hits, SharesOf, ChannelsOf;
  }

  function KeysOf(fused: seq<Fused>): seq<RankKey> {
    seq(|fused|, i requires 0 <= i < |fused| => fused[i].key)
  }

  lemma LeastChannel(a: seq<Channel>, b: seq<Channel>)
    requires multiset(a) == multiset(b)
    ensures Sort(a, PlaceAtMost) == Sort(b, PlaceAtMost)
  {
    hide Place;
    forall x, y | x in a && y in a && PlaceAtMost(x, y) && PlaceAtMost(y, x) ensures x == y { PlaceInjective(x, y); }
    SortIgnoresOrder(a, b, PlaceAtMost);
  }

  lemma SameKey(a: seq<Ranking>, b: seq<Ranking>, s: Stamp, snapshotId: Text, codes: Codes, f: Fused, g: Fused, ar: Arithmetic)
    requires Injective(codes) && Consistent(Hits(a), snapshotId, codes) && multiset(a) == multiset(b)
    requires forall id :: ScoreOf(Hits(a), id, ar) == ScoreOf(Hits(b), id, ar)
    requires f in Fuse(a, s, ar) && g in Fuse(b, s, ar) && f.key.evidenceId == g.key.evidenceId
    ensures f.key == g.key
  {
    var id := f.key.evidenceId;
    hide Fuse, Hits, ScoreOf, ChannelsOf, RanksBefore, AbsorbAll, WellIdentified;
    PermutedRankings(a, b, id, ar);
    forall h | h in Hits(b) ensures h in Hits(a) { assert h in multiset(Hits(b)); }
    FusionKeepsIdentity(a, s, snapshotId, codes, f, ar);
    FusionKeepsIdentity(b, s, snapshotId, codes, g, ar);
    FuseMembers(a, s, f, ar);
    FuseMembers(b, s, g, ar);
    AbsorbGathers(map[], Hits(a), id, ar);
    AbsorbGathers(map[], Hits(b), id, ar);
    LeastChannel(ChannelsOf(Hits(a), id), ChannelsOf(Hits(b), id));
    SameIdentityKey(f.node, g.node, snapshotId, codes);
  }

  lemma SameIdentityKey(a: Node, b: Node, snapshotId: Text, codes: Codes)
    requires Injective(codes) && a.id == b.id
    requires WellIdentified(a, snapshotId, codes) && WellIdentified(b, snapshotId, codes)
    ensures a.identityKey == b.identityKey
  {
    hide Identities;
    assert IdentityOfNode(a, snapshotId) == IdentityOfNode(b, snapshotId);
  }

  lemma KeysCarryOver(a: seq<Ranking>, b: seq<Ranking>, s: Stamp, snapshotId: Text, codes: Codes, key: RankKey, ar: Arithmetic)
    requires Injective(codes) && Consistent(Hits(a), snapshotId, codes) && multiset(a) == multiset(b)
    requires forall id :: ScoreOf(Hits(a), id, ar) == ScoreOf(Hits(b), id, ar)
    requires key in KeysOf(Fuse(a, s, ar))
    ensures key in KeysOf(Fuse(b, s, ar))
  {
    hide Fuse, Hits, RanksBefore, FusedFrom, FuseEntry, AbsorbAll, WellIdentified, ScoreOf, ChannelsOf;
    var i :| 0 <= i < |Fuse(a, s, ar)| && Fuse(a, s, ar)[i].key == key;
    var f := Fuse(a, s, ar)[i];
    PermutedRankings(a, b, key.evidenceId, ar);
    FuseMembers(a, s, f, ar);
    FuseCorrect(b, s, ar);
    assert key.evidenceId in IdsIn(Hits(b)) by {
      var h :| h in Hits(a) && h.candidate.evidenceId == key.evidenceId;
      assert h in multiset(Hits(a));
    }
    var g :| g in Fuse(b, s, ar) && g.key.evidenceId == key.evidenceId;
    SameKey(a, b, s, snapshotId, codes, f, g, ar);
    var j :| 0 <= j < |Fuse(b, s, ar)| && Fuse(b, s, ar)[j] == g;
    assert KeysOf(Fuse(b, s, ar))[j] == key;
  }

  lemma KeysRanked(rankings: seq<Ranking>, s: Stamp, ar: Arithmetic)
    ensures var keys := KeysOf(Fuse(rankings, s, ar));
            Distinct(keys) && Sorted(keys, RanksBefore) && Separates(keys, RanksBefore)
  {
    hide Fuse, Hits, RanksBefore, FusedFrom;
    FuseCorrect(rankings, s, ar);
    var fused := Fuse(rankings, s, ar);
    var keys := KeysOf(fused);
    forall i, j | 0 <= i < j < |keys| ensures keys[i] != keys[j] && RanksBefore(keys[i], keys[j]) {
      assert FusedAtMost(fused[i], fused[j]);
    }
    forall k, l | k in keys && l in keys && RanksBefore(k, l) && RanksBefore(l, k) ensures k == l { RanksTotal(k, l); }
  }

  /** Equal scores make equal ranks, whatever the order of the channels. */
  lemma RanksFollowScores(a: seq<Ranking>, b: seq<Ranking>, s: Stamp, snapshotId: Text, codes: Codes, ar: Arithmetic)
    requires Injective(codes) && Consistent(Hits(a), snapshotId, codes) && multiset(a) == multiset(b)
    requires forall id :: ScoreOf(Hits(a), id, ar) == ScoreOf(Hits(b), id, ar)
    ensures KeysOf(Fuse(a, s, ar)) == KeysOf(Fuse(b, s, ar))
  {
    hide Fuse, Hits, RanksBefore, ScoreOf, KeysOf, ConsistentCandidate;
    PermutedRankings(a, b, [], ar);
    forall h | h in Hits(b) ensures h in Hits(a) { assert h in multiset(Hits(b)); }
    var x, y := KeysOf(Fuse(a, s, ar)), KeysOf(Fuse(b, s, ar));
    forall key ensures key in x <==> key in y {
      if key in x { KeysCarryOver(a, b, s, snapshotId, codes, key, ar); }
      if key in y { KeysCarryOver(b, a, s, snapshotId, codes, key, ar); }
    }
    KeysRanked(a, s, ar);
    KeysRanked(b, s, ar);
    SameMembers(x, y);
    RankOrder();
    SortedUnique(x, y, RanksBefore);
  }

  // ---------- sums of permuted shares ----------

  lemma {:induction false} SumFromAppend(total: real, xs: seq<real>, ys: seq<real>, plus: (real, real) -> real)
    ensures SumFrom(total, xs + ys, plus) == SumFrom(SumFrom(total, xs, plus), ys, plus)
    decreases |xs|
  {
    if xs == [] {
      assert xs + ys == ys;
    } else {
      assert (xs + ys)[1..] == xs[1..] + ys;
      SumFromAppend(plus(total, xs[0]), xs[1..], ys, plus);
    }
  }

  lemma Exchange(total: real, x: real, y: real, plus: (real, real) -> real)
    requires Commutative(plus) && Associative(plus)
    ensures plus(plus(total, x), y) == plus(plus(total, y), x)
  {
    assert plus(plus(total, x), y) == plus(total, plus(x, y));
    assert plus(plus(total, y), x) == plus(total, plus(y, x));
    assert plus(x, y) == plus(y, x);
  }

  /** A share may be added before or after others. */
  lemma {:induction false} AddEarly(total: real, x: real, xs: seq<real>, plus: (real, real) -> real)
    requires Commutative(plus) && Associative(plus)
    ensures SumFrom(plus(total, x), xs, plus) == plus(SumFrom(total, xs, plus), x)
    decreases |xs|
  {
    if xs != [] {
      Exchange(total, x, xs[0], plus);
      AddEarly(plus(total, xs[0]), x, xs[1..], plus);
    }
  }

  lemma TakeEarly(total: real, before: seq<real>, x: real, after: seq<real>, plus: (real, real) -> real)
    requires Commutative(plus) && Associative(plus)
    ensures SumFrom(total, before + [x] + after, plus) == SumFrom(plus(total, x), before + after, plus)
  {
    SumFromAppend(total, before + [x], after, plus);
    SumFromAppend(total, before, [x], plus);
    SumFromAppend(plus(total, x), before, after, plus);
    AddEarly(total, x, before, plus);
    assert SumFrom(SumFrom(total, before, plus), [x], plus) == plus(SumFrom(total, before, plus), x);
  }

  lemma {:induction false} SumFromPermuted(total: real, xs: seq<real>, ys: seq<real>, plus: (real, real) -> real)
    requires Commutative(plus) && Associative(plus) && multiset(xs) == multiset(ys)
    ensures SumFrom(total, xs, plus) == SumFrom(total, ys, plus)
    decreases |xs|
  {
    assert |xs| == |multiset(xs)| == |multiset(ys)| == |ys|;
    if xs != [] {
      assert xs[0] in multiset(ys);
      var k :| 0 <= k < |ys| && ys[k] == xs[0];
      TakeOutHead(xs, ys, k);
      SumFromPermuted(plus(total, xs[0]), xs[1..], ys[..k] + ys[k + 1..], plus);
      assert ys == ys[..k] + [xs[0]] + ys[k + 1..];
      TakeEarly(total, ys[..k], xs[0], ys[k + 1..], plus);
    }
  }

  lemma SumPermuted(xs: seq<real>, ys: seq<real>, plus: (real, real) -> real)
    requires Commutative(plus) && Associative(plus) && multiset(xs) == multiset(ys)
    ensures Sum(xs, plus) == Sum(ys, plus)
  {
    assert |xs| == |multiset(xs)| == |multiset(ys)| == |ys|;
    if xs != [] {
      var x := xs[0];
      assert x in multiset(ys);
      var k :| 0 <= k < |ys| && ys[k] == x;
      TakeOutHead(xs, ys, k);
      var before, after := ys[..k], ys[k + 1..];
      SumFromPermuted(x, xs[1..], before + after, plus);
      if k > 0 {
        assert ys[1..] == before[1..] + [x] + after && (before + after)[1..] == before[1..] + after;
        TakeEarly(ys[0], before[1..], x, after, plus);
        assert plus(ys[0], x) == plus(x, ys[0]);
      } else {
        assert before + after == ys[1..];
      }
    }
  }

  /** Two shares only need addition to commute. */
  lemma PairPermuted(xs: seq<real>, ys: seq<real>, plus: (real, real) -> real)
    requires Commutative(plus) && multiset(xs) == multiset(ys) && |xs| <= 2
    ensures Sum(xs, plus) == Sum(ys, plus)
  {
    assert |xs| == |multiset(xs)| == |multiset(ys)| == |ys|;
    if |xs| == 2 {
      SwappedPair(xs, ys);
      SumOfTwo(xs[0], xs[1], plus);
      SumOfTwo(xs[1], xs[0], plus);
      assert xs == [xs[0], xs[1]];
    } else if |xs| == 1 {
      assert xs == [xs[0]] && ys == [ys[0]] && ys[0] in multiset(xs);
    }
  }

  lemma SumOfTwo(x: real, y: real, plus: (real, real) -> real)
    ensures Sum([x, y], plus) == plus(x, y)
  {
    assert [x, y][1..] == [y] && [y][1..] == [];
    assert SumFrom(x, [y], plus) == SumFrom(plus(x, y), [], plus);
  }

  lemma SwappedPair<T>(xs: seq<T>, ys: seq<T>)
    requires multiset(xs) == multiset(ys) && |xs| == 2 && |ys| == 2
    ensures ys == xs || ys == [xs[1], xs[0]]
  {
    assert xs[0] in multiset(ys);
    var k :| 0 <= k < |ys| && ys[k] == xs[0];
    TakeOutHead(xs, ys, k);
    var rest := ys[..k] + ys[k + 1..];
    assert rest == [ys[1 - k]] && xs[1..] == [xs[1]];
    assert ys[1 - k] in multiset(rest);
  }

  // ---------- the order of the channels ----------

  /** With an addition that associates, scores and ranks come out the same whatever the order in which the channels
      are given. */
  lemma RanksIgnoreChannelOrder(a: seq<Ranking>, b: seq<Ranking>, s: Stamp, snapshotId: Text, codes: Codes, ar: Arithmetic)
    requires Injective(codes) && Consistent(Hits(a), snapshotId, codes) && multiset(a) == multiset(b)
    requires Commutative(ar.plus) && Associative(ar.plus)
    ensures KeysOf(Fuse(a, s, ar)) == KeysOf(Fuse(b, s, ar))
  {
    hide Fuse, Hits, Sum, SharesOf;
    forall id ensures ScoreOf(Hits(a), id, ar) == ScoreOf(Hits(b), id, ar) {
      PermutedRankings(a, b, id, ar);
      SumPermuted(SharesOf(Hits(a), id, ar), SharesOf(Hits(b), id, ar), ar.plus);
    }
    RanksFollowScores(a, b, s, snapshotId, codes, ar);
  }

  /** No id is hit more than twice. */
  ghost predicate HitAtMostTwice(hits: seq<Hit>) {
    forall id :: |ChannelsOf(hits, id)| <= 2
  }

  lemma {:induction false} OneSharePerChannel(hits: seq<Hit>, id: Text, ar: Arithmetic)
    ensures |SharesOf(hits, id, ar)| == |ChannelsOf(hits, id)|
  {
    if hits != [] { OneSharePerChannel(hits[1..], id, ar); }
  }

  /** With any addition that commutes, as that of doubles does, they do where no id is hit more than twice. */
  lemma PairRanksIgnoreChannelOrder(a: seq<Ranking>, b: seq<Ranking>, s: Stamp, snapshotId: Text, codes: Codes, ar: Arithmetic)
    requires Injective(codes) && Consistent(Hits(a), snapshotId, codes) && multiset(a) == multiset(b)
    requires Commutative(ar.plus) && HitAtMostTwice(Hits(a))
    ensures KeysOf(Fuse(a, s, ar)) == KeysOf(Fuse(b, s, ar))
  {
    hide Fuse, Hits, Sum, SharesOf, ChannelsOf;
    forall id ensures ScoreOf(Hits(a), id, ar) == ScoreOf(Hits(b), id, ar) {
      PermutedRankings(a, b, id, ar);
      OneSharePerChannel(Hits(a), id, ar);
      PairPermuted(SharesOf(Hits(a), id, ar), SharesOf(Hits(b), id, ar), ar.plus);
    }
    RanksFollowScores(a, b, s, snapshotId, codes, ar);
  }

  function Down(x: real, grid: real): real
    requires grid > 0.0
  {
    (x * grid).Floor as real / grid
  }

  /** Quotients kept to ten-thousandths and sums, one binade up, to every second one of those, both rounded down. */
  const COARSE := Arithmetic((w: real, d: real) => if d > 0.0 then Down(w / d, 10000.0) else 0.0,
                             (x: real, y: real) => Down(x + y, 5000.0))

  lemma CoarseSums()
    ensures Commutative(COARSE.plus)
    ensures (COARSE.divide)(1.0, 61.0) == 0.0163 && (COARSE.divide)(1.0, 62.0) == 0.0161 && (COARSE.divide)(1.2, 61.0) == 0.0196
    ensures Sum([0.0163, 0.0196, 0.0161], COARSE.plus) == 0.0518 && Sum([0.0161, 0.0163, 0.0196], COARSE.plus) == 0.052
    ensures Sum([0.0163, 0.0161, 0.0196], COARSE.plus) == 0.052 && Sum([0.0161, 0.0196, 0.0163], COARSE.plus) == 0.0518
  {
    SumOfThree(0.0163, 0.0196, 0.0161, COARSE.plus);
    SumOfThree(0.0161, 0.0163, 0.0196, COARSE.plus);
    SumOfThree(0.0163, 0.0161, 0.0196, COARSE.plus);
    SumOfThree(0.0161, 0.0196, 0.0163, COARSE.plus);
  }

  lemma SumOfThree(x: real, y: real, z: real, plus: (real, real) -> real)
    ensures Sum([x, y, z], plus) == plus(plus(x, y), z)
  {
    assert [x, y, z][1..] == [y, z] && [y, z][1..] == [z] && [z][1..] == [];
    assert SumFrom(x, [y, z], plus) == SumFrom(plus(x, y), [z], plus);
    assert SumFrom(plus(x, y), [z], plus) == SumFrom(plus(plus(x, y), z), [], plus);
  }

  function SwapExample(x: Candidate, y: Candidate, early: Channel, late: Channel, first: Candidate, second: Candidate): seq<Ranking> {
    [Ranking(Bm25, [x, y]), Ranking(early, [first]), Ranking(Dense, [y, x]), Ranking(late, [second])]
  }

  lemma SwapExampleHits(x: Candidate, y: Candidate, early: Channel, late: Channel, first: Candidate, second: Candidate)
    ensures Hits(SwapExample(x, y, early, late, first, second)) ==
            [Hit(Bm25, 0, x), Hit(Bm25, 1, y), Hit(early, 0, first), Hit(Dense, 0, y), Hit(Dense, 1, x), Hit(late, 0, second)]
  {
    var rs := SwapExample(x, y, early, late, first, second);
    assert rs == [rs[0]] + ([rs[1]] + ([rs[2]] + [rs[3]]));
    HitsAppend([rs[0]], [rs[1]] + ([rs[2]] + [rs[3]]));
    HitsAppend([rs[1]], [rs[2]] + [rs[3]]);
    HitsAppend([rs[2]], [rs[3]]);
    HitsOfPair(Bm25, x, y);
    HitsOfOne(early, first);
    HitsOfPair(Dense, y, x);
    HitsOfOne(late, second);
  }

  lemma HitsOfOne(c: Channel, x: Candidate)
    ensures Hits([Ranking(c, [x])]) == [Hit(c, 0, x)]
  {
    var r := Ranking(c, [x]);
    assert HitsFrom(r, 1) == [] && HitsFrom(r, 0) == [Hit(c, 0, x)];
    assert [r][1..] == [] && Hits([]) == [];
  }

  lemma HitsOfPair(c: Channel, x: Candidate, y: Candidate)
    ensures Hits([Ranking(c, [x, y])]) == [Hit(c, 0, x), Hit(c, 1, y)]
  {
    var r := Ranking(c, [x, y]);
    assert HitsFrom(r, 2) == [] && HitsFrom(r, 1) == [Hit(c, 1, y)];
    assert HitsFrom(r, 0) == [Hit(c, 0, x)] + [Hit(c, 1, y)];
    assert [r][1..] == [] && Hits([]) == [];
  }

  /** The shares of an id that owns three of six hits. */
  lemma SharesOfThree(hits: seq<Hit>, id: Text, ar: Arithmetic, i: nat, j: nat, k: nat)
    requires i < j < k < |hits| == 6
    requires forall n :: 0 <= n < 6 ==> (hits[n].candidate.evidenceId == id <==> n == i || n == j || n == k)
    ensures SharesOf(hits, id, ar) == [HitScore(hits[i], ar), HitScore(hits[j], ar), HitScore(hits[k], ar)]
  {
    hide HitScore, SharesOf;
    SharesSplit(hits, i, id, ar);
    var rest := hits[i + 1..];
    assert forall n :: 0 <= n < |rest| ==> rest[n] == hits[i + 1 + n];
    SharesSplit(rest, j - i - 1, id, ar);
    var last := rest[j - i..];
    assert last == hits[j + 1..];
    assert forall n :: 0 <= n < |last| ==> last[n] == hits[j + 1 + n];
    SharesSplit(last, k - j - 1, id, ar);
    NoShares(hits[k + 1..], id, ar);
    assert last[k - j..] == hits[k + 1..];
  }

  /** Shares start at the first own hit. */
  lemma SharesSplit(hits: seq<Hit>, i: nat, id: Text, ar: Arithmetic)
    requires i < |hits| && hits[i].candidate.evidenceId == id
    requires forall n :: 0 <= n < i ==> hits[n].candidate.evidenceId != id
    ensures SharesOf(hits, id, ar) == [HitScore(hits[i], ar)] + SharesOf(hits[i + 1..], id, ar)
  {
    hide HitScore;
    assert hits == hits[..i] + ([hits[i]] + hits[i + 1..]);
    SharesAppend(hits[..i], [hits[i]] + hits[i + 1..], id, ar);
    NoShares(hits[..i], id, ar);
    OfCons(hits[i], hits[i + 1..], id, ar);
  }

  lemma {:induction false} NoShares(hits: seq<Hit>, id: Text, ar: Arithmetic)
    requires forall n :: 0 <= n < |hits| ==> hits[n].candidate.evidenceId != id
    ensures SharesOf(hits, id, ar) == []
  {
    if hits != [] { NoShares(hits[1..], id, ar); }
  }

  /** The failing input: two candidates with three hits each and the same shares. Giving the last two single-hit
      channels in the other order swaps the two scores, and with them the ranks. */
  lemma ThirdHitSwapsRanks(x: Candidate, y: Candidate, s: Stamp)
    requires x.evidenceId != y.evidenceId
    ensures Commutative(COARSE.plus)
    ensures var a, b := SwapExample(x, y, Ast, Dataflow, x, y), SwapExample(x, y, Dataflow, Ast, y, x);
            && multiset(a) == multiset(b)
            && Fuse(a, s, COARSE) != [] && Fuse(a, s, COARSE)[0].key.evidenceId == y.evidenceId
            && Fuse(b, s, COARSE) != [] && Fuse(b, s, COARSE)[0].key.evidenceId == x.evidenceId
  {
    CoarseSums();
    var a, b := SwapExample(x, y, Ast, Dataflow, x, y), SwapExample(x, y, Dataflow, Ast, y, x);
    hide ScoreOf, Hits, Fuse, IdsIn, Commutative;
    SameChannels(a[0], a[1], a[2], a[3]);
    hide SwapExample;
    ScoresAstFirst(x, y);
    ScoresDataflowFirst(x, y);
    HigherScoreLeads(a, s, y.evidenceId, x.evidenceId, COARSE);
    HigherScoreLeads(b, s, x.evidenceId, y.evidenceId, COARSE);
  }

  lemma SameChannels(p: Ranking, q: Ranking, r: Ranking, t: Ranking)
    ensures multiset([p, q, r, t]) == multiset([p, t, r, q])
  {
  }

  lemma ScoresAstFirst(x: Candidate, y: Candidate)
    requires x.evidenceId != y.evidenceId
    ensures var hits := Hits(SwapExample(x, y, Ast, Dataflow, x, y));
            && IdsIn(hits) == {y.evidenceId, x.evidenceId}
            && ScoreOf(hits, x.evidenceId, COARSE) == 0.0518 && ScoreOf(hits, y.evidenceId, COARSE) == 0.052
  {
    CoarseSums();
    SwapExampleHits(x, y, Ast, Dataflow, x, y);
    var hits := Hits(SwapExample(x, y, Ast, Dataflow, x, y));
    hide Hits, Sum, SharesOf;
    SharesOfThree(hits, x.evidenceId, COARSE, 0, 2, 4);
    SharesOfThree(hits, y.evidenceId, COARSE, 1, 3, 5);
    assert hits[0] in hits && hits[1] in hits;
  }

  lemma ScoresDataflowFirst(x: Candidate, y: Candidate)
    requires x.evidenceId != y.evidenceId
    ensures var hits := Hits(SwapExample(x, y, Dataflow, Ast, y, x));
            && IdsIn(hits) == {y.evidenceId, x.evidenceId}
            && ScoreOf(hits, x.evidenceId, COARSE) == 0.052 && ScoreOf(hits, y.evidenceId, COARSE) == 0.0518
  {
    CoarseSums();
    SwapExampleHits(x, y, Dataflow, Ast, y, x);
    var hits := Hits(SwapExample(x, y, Dataflow, Ast, y, x));
    hide Hits, Sum, SharesOf;
    SharesOfThree(hits, x.evidenceId, COARSE, 0, 4, 5);
    SharesOfThree(hits, y.evidenceId, COARSE, 1, 2, 3);
    assert hits[0] in hits && hits[1] in hits;
  }

  /** Of two ids the one with the higher score comes first. */
  lemma HigherScoreLeads(rankings: seq<Ranking>, s: Stamp, first: Text, second: Text, ar: Arithmetic)
    requires IdsIn(Hits(rankings)) == {first, second}
    requires ScoreOf(Hits(rankings), first, ar) > ScoreOf(Hits(rankings), second, ar)
    ensures Fuse(rankings, s, ar) != [] && Fuse(rankings, s, ar)[0].key.evidenceId == first
  {
    hide Fuse, Hits, ScoreOf;
    FuseCorrect(rankings, s, ar);
    var fused := Fuse(rankings, s, ar);
    var f :| f in fused && f.key.evidenceId == first;
    assert fused[0] in fused;
    RankOrder();
    FirstIsLeast(fused, f, FusedAtMost);
  }
}
