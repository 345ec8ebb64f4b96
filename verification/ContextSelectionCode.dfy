/** The selection loops, each proved to compute the selection of ContextSelection. */
module ContextSelectionCode {
  import opened Text16
  import opened Sorting
  import opened ContextSelection
  import opened ContextUtilityCode

  method OmitNodes(b: Bundle, reason: Reason, selectedIds: set<Text>, into: seq<Omitted>) returns (out: seq<Omitted>)
    ensures out == into + Omissions(b.nodeIds, reason, selectedIds)
  {
    out := into;
    for i := 0 to |b.nodeIds|
      invariant out + Omissions(b.nodeIds[i..], reason, selectedIds) == into + Omissions(b.nodeIds, reason, selectedIds)
    {
      var rest := b.nodeIds[i..];
      assert rest[1..] == b.nodeIds[i + 1..];
      if b.nodeIds[i] !in selectedIds {
        out := out + [Omitted(b.nodeIds[i], reason)];
      }
    }
  }

  method AddIds(b: Bundle, selected: seq<Bundle>, selectedIds: set<Text>) returns (out: set<Text>)
    requires selectedIds == IdsOf(selected)
    ensures out == IdsOf(selected + [b])
  {
    out := selectedIds;
    for i := 0 to |b.nodeIds|
      invariant out == selectedIds + (set id | id in b.nodeIds[..i])
    {
      assert b.nodeIds[..i + 1] == b.nodeIds[..i] + [b.nodeIds[i]];
      out := out + {b.nodeIds[i]};
    }
    assert b.nodeIds[..|b.nodeIds|] == b.nodeIds;
    forall id ensures id in IdsOf(selected + [b]) <==> id in IdsOf(selected) || id in b.nodeIds {
      assert forall c :: c in selected + [b] <==> c in selected || c == b;
    }
  }

  /** The first loop: every never-omit bundle in order, or a full window. */
  method SelectMandatory(mandatory: seq<Bundle>, input: Input)
    returns (full: bool, selected: seq<Bundle>, omitted: seq<Omitted>, selectedIds: set<Text>, used: int)
    ensures full ==> MandatoryPass(mandatory, Progress([], [], 0), input) == Full(omitted)
    ensures !full ==> MandatoryPass(mandatory, Progress([], [], 0), input) == Going(Progress(selected, omitted, used))
    ensures selectedIds == IdsOf(selected)
  {
    hide IsUntrusted, IdsOf;
    full, selected, omitted, selectedIds, used := false, [], [], {}, 0;
    assert IdsOf([]) == {} by { EmptyIds(); }
    ghost var whole := MandatoryPass(mandatory, Progress([], [], 0), input);
    assert mandatory[0..] == mandatory;
    for i := 0 to |mandatory|
      invariant !full && selectedIds == IdsOf(selected)
      invariant whole == MandatoryPass(mandatory[i..], Progress(selected, omitted, used), input)
    {
      var b := mandatory[i];
      assert mandatory[i..][0] == b && mandatory[i..][1..] == mandatory[i + 1..];
      if IsUntrusted(b, input.graph) {
        omitted := OmitNodes(b, Untrusted, selectedIds, omitted);
      } else {
        var cost := input.cost(b);
        if used + cost > input.tokenBudget {
          full := true;
          return;
        }
        selectedIds := AddIds(b, selected, selectedIds);
        selected := selected + [b];
        used := used + cost;
      }
    }
  }

  lemma EmptyIds()
    ensures IdsOf([]) == {}
  {
  }

  /** One sweep over the candidates: the greatest positive gain, the smallest id among equals. */
  method PickBest(remaining: seq<Bundle>, selected: seq<Bundle>, input: Input)
    returns (bestIndex: int, bestGain: real)
    ensures bestIndex == BestAmong(remaining, selected, input).index
    ensures bestGain == BestAmong(remaining, selected, input).gain
  {
    hide Utility, Less;
    var baseline := UtilityOf(selected, input, 0);
    var bestId: Text := [];
    bestIndex, bestGain := -1, 0.0;
    for index := 0 to |remaining|
      invariant Best(bestIndex, bestGain, bestId) == BestAmong(remaining[..index], selected, input)
    {
      var b := remaining[index];
      assert remaining[..index + 1][..index] == remaining[..index];
      var cost := ChargedCost(b, input);
      var next := UtilityOf(selected + [b], input, cost);
      var gain := (next - baseline) / cost as real;
      var order := Utf16Compare(b.id, bestId);
      if gain > bestGain || (gain == bestGain && order < 0 && gain > 0.0) {
        bestGain, bestIndex, bestId := gain, index, b.id;
      }
    }
    assert remaining[..|remaining|] == remaining;
  }

  method OmitAll(remaining: seq<Bundle>, selected: seq<Bundle>, selectedIds: set<Text>, omitted: seq<Omitted>, used: int)
    returns (out: seq<Omitted>)
    requires selectedIds == IdsOf(selected)
    ensures Progress(selected, out, used) == SkipAll(remaining, Progress(selected, omitted, used))
  {
    hide IdsOf, Omissions;
    out := omitted;
    assert remaining[0..] == remaining;
    for i := 0 to |remaining|
      invariant SkipAll(remaining[i..], Progress(selected, out, used)) == SkipAll(remaining, Progress(selected, omitted, used))
    {
      assert remaining[i..][0] == remaining[i] && remaining[i..][1..] == remaining[i + 1..];
      out := OmitNodes(remaining[i], LowerUtility, selectedIds, out);
    }
  }

  /** One turn of the greedy loop: the chosen bundle is selected or recorded. */
  method Decide(chosen: Bundle, p: Progress, selectedIds: set<Text>, input: Input)
    returns (next: Progress, ids: set<Text>)
    requires selectedIds == IdsOf(p.selected)
    ensures next == Settle(chosen, p, input) && ids == IdsOf(next.selected)
  {
    hide IsUntrusted, IsDuplicateOf, IdsOf, Omissions;
    next, ids := p, selectedIds;
    if IsUntrusted(chosen, input.graph) {
      var omitted := OmitNodes(chosen, Untrusted, selectedIds, p.omitted);
      next := p.(omitted := omitted);
    } else if IsDuplicateOf(chosen, p.selected, input.graph) {
      var omitted := OmitNodes(chosen, Duplicate, selectedIds, p.omitted);
      next := p.(omitted := omitted);
    } else {
      var cost := input.cost(chosen);
      if p.used + cost > input.tokenBudget {
        var omitted := OmitNodes(chosen, WindowCapacity, selectedIds, p.omitted);
        next := p.(omitted := omitted);
      } else {
        ids := AddIds(chosen, p.selected, selectedIds);
        next := Progress(p.selected + [chosen], p.omitted, p.used + cost);
      }
    }
  }

  method SelectOptional(optional: seq<Bundle>, start: Progress, startIds: set<Text>, input: Input)
    returns (p: Progress, selectedIds: set<Text>)
    requires startIds == IdsOf(start.selected)
    ensures p == GreedyPass(optional, start, input) && selectedIds == IdsOf(p.selected)
  {
    hide BestAmong, Settle, SkipAll, IdsOf;
    p, selectedIds := start, startIds;
    var remaining := optional;
    while remaining != []
      invariant GreedyPass(remaining, p, input) == GreedyPass(optional, start, input)
      invariant selectedIds == IdsOf(p.selected)
      decreases |remaining|
    {
      var bestIndex, bestGain := PickBest(remaining, p.selected, input);
      if bestIndex < 0 || bestGain <= 0.0 {
        var omitted := OmitAll(remaining, p.selected, selectedIds, p.omitted, p.used);
        assert GreedyPass(remaining, p, input) == SkipAll(remaining, p);
        p := p.(omitted := omitted);
        return;
      }
      var chosen := remaining[bestIndex];
      remaining := Without(remaining, bestIndex);
      p, selectedIds := Decide(chosen, p, selectedIds, input);
    }
  }

  /** The last loop: selected ids and repeated entries are dropped. */
  method UniqueOmissions(omitted: seq<Omitted>, selectedIds: set<Text>) returns (unique: seq<Omitted>)
    ensures unique == Unseen(omitted, selectedIds, {})
  {
    unique := [];
    var seen: set<Omitted> := {};
    assert omitted[0..] == omitted;
    for i := 0 to |omitted|
      invariant unique + Unseen(omitted[i..], selectedIds, seen) == Unseen(omitted, selectedIds, {})
    {
      var item := omitted[i];
      assert omitted[i..][0] == item && omitted[i..][1..] == omitted[i + 1..];
      if item.evidenceId !in selectedIds && item !in seen {
        seen := seen + {item};
        unique := unique + [item];
      }
    }
  }

  method SelectBundles(input: Input) returns (r: Selection)
    ensures r == Select(input)
  {
    hide Filter, Sort, IsNeverOmit, MandatoryPass, GreedyPass, Unseen, IdsOf;
    var ordered := Sort(input.bundles, BundleAtMost);
    var mandatory := Filter(ordered, input.graph, true);
    var optional := Filter(ordered, input.graph, false);
    var full, selected, omitted, selectedIds, used := SelectMandatory(mandatory, input);
    if full { return Capacity(omitted); }
    var p, ids := SelectOptional(optional, Progress(selected, omitted, used), selectedIds, input);
    var unique := UniqueOmissions(Sort(p.omitted, OmittedAtMost), ids);
    return Selected(p.selected, unique);
  }

  /** The omissions that must stop a dispatch: of a node some never-omit candidate lists, left out as untrusted or for
      want of room. */
  method CriticalOmissionEntries(omitted: seq<Omitted>, bundles: seq<Bundle>, g: Graph) returns (entries: seq<Omitted>)
    ensures entries == CriticalOmissions(omitted, bundles, g)
    ensures forall o :: o in entries <==>
              && o in omitted && o.reason in {Untrusted, WindowCapacity}
              && exists b :: b in bundles && IsNeverOmit(b, g) && o.evidenceId in b.nodeIds
  {
    hide Sort, IsNeverOmit;
    var criticalIds := NeverOmitIds(bundles, g);
    entries := [];
    assert omitted[0..] == omitted && [] + Critical(omitted, criticalIds) == Critical(omitted, criticalIds);
    for i := 0 to |omitted|
      invariant entries + Critical(omitted[i..], criticalIds) == Critical(omitted, criticalIds)
    {
      var item := omitted[i];
      assert omitted[i..][0] == item && omitted[i..][1..] == omitted[i + 1..];
      if IsCritical(item, criticalIds) {
        Regroup3(entries, [item], Critical(omitted[i + 1..], criticalIds));
        entries := entries + [item];
      } else {
        assert [] + Critical(omitted[i + 1..], criticalIds) == Critical(omitted[i + 1..], criticalIds);
      }
    }
    assert entries == Critical(omitted, criticalIds);
    entries := Sort(entries, OmittedAtMost);
    forall o ensures o in entries <==> o in omitted && IsCritical(o, criticalIds) {
      CriticalOmissionsMembers(omitted, bundles, g, o);
    }
  }

  /** The compiler's path from candidates to dispatch. When it goes on, every never-omit candidate is in what it
      dispatches, and that fits the budget. */
  method CompileCloudContext(input: Input) returns (r: Gate)
    ensures r == CompileGate(input)
    ensures r.Dispatched? ==> AllNeverOmitsChosen(r.bundles, input.bundles, input.graph)
    ensures r.Dispatched? && input.tokenBudget >= 0 ==> TotalCost(r.bundles, input) <= input.tokenBudget
  {
    var selection := SelectBundles(input);
    if selection.Capacity? { return Waiting; }
    GatePassesExactly(input);
    SelectionFits(input);
    hide Select, CriticalOmissions, IsNeverOmit, IsUntrusted, TotalCost;
    var critical := CriticalOmissionEntries(selection.omitted, input.bundles, input.graph);
    if critical != [] { return CriticalOmission; }
    return Dispatched(selection.bundles);
  }
}
