/** The depth-first closure of skill dependencies: it lists dependencies before
    dependents and sets aside the skills of every cycle it meets. */
module SkillClosure {
  import opened Digraph
  import opened Workflow
  import CycleCheck

  /** `dependencies` of every discovered skill, by id. */
  type Catalog = map<string, seq<string>>

  ghost predicate Distinct<T>(s: seq<T>) {
    forall i, j :: 0 <= i < j < |s| ==> s[i] != s[j]
  }

  /** A reported list is a cycle once its first id is appended. */
  ghost predicate RealCycle(c: seq<string>, byId: Catalog) {
    |c| > 0 && IsCycle(c + [c[0]], GraphOf(byId))
  }

  ghost predicate Reachable(roots: set<string>, byId: Catalog, id: string) {
    exists p :: |p| > 0 && p[0] in roots && p[|p| - 1] == id && IsPath(p, GraphOf(byId))
  }

  /** Each known dependency of `ordered[i]` stands before position i or is flagged. */
  ghost predicate DependenciesFirst(ordered: seq<string>, flagged: set<string>, byId: Catalog) {
    forall i, w :: 0 <= i < |ordered| && w in byId && Edge(GraphOf(byId), ordered[i], w) ==>
      w in ordered[..i] || w in flagged
  }

  /** `flagged` is exactly what the reported cycles mention. */
  ghost predicate FlagsReported(flagged: set<string>, reports: seq<seq<string>>) {
    forall id :: id in flagged <==> exists k :: 0 <= k < |reports| && id in reports[k]
  }

  ghost predicate ReportsReal(reports: seq<seq<string>>, byId: Catalog) {
    forall k :: 0 <= k < |reports| ==> RealCycle(reports[k], byId)
  }

  ghost predicate AllReachable(ids: set<string>, roots: set<string>, byId: Catalog) {
    forall id :: id in ids ==> Reachable(roots, byId, id)
  }

  lemma ReachableStep(roots: set<string>, byId: Catalog, v: string, w: string)
    requires Reachable(roots, byId, v) && Edge(GraphOf(byId), v, w)
    ensures Reachable(roots, byId, w)
  {
    var p :| |p| > 0 && p[0] in roots && p[|p| - 1] == v && IsPath(p, GraphOf(byId));
    ExtendPath(p, GraphOf(byId), w);
    assert (p + [w])[|p + [w]| - 1] == w;
  }

  lemma ReachableRoot(roots: set<string>, byId: Catalog, id: string)
    requires id in roots
    ensures Reachable(roots, byId, id)
  {
    var p := [id];
    assert p[0] in roots && IsPath(p, GraphOf(byId));
  }

  lemma StackCycle(stack: seq<string>, byId: Catalog, start: nat)
    requires start < |stack| && IsPath(stack, GraphOf(byId))
    requires Edge(GraphOf(byId), stack[|stack| - 1], stack[start])
    ensures RealCycle(stack[start..], byId)
  {
    SubPath(stack, GraphOf(byId), start, |stack|);
    ExtendPath(stack[start..], GraphOf(byId), stack[start]);
  }

  lemma FlagMore(flagged: set<string>, reports: seq<seq<string>>, cycle: seq<string>)
    requires FlagsReported(flagged, reports)
    ensures FlagsReported(flagged + ToSet(cycle), reports + [cycle])
  {
    var more := reports + [cycle];
    forall id ensures id in flagged + ToSet(cycle) <==> exists k :: 0 <= k < |more| && id in more[k] {
      if id in flagged {
        var k :| 0 <= k < |reports| && id in reports[k];
        assert id in more[k];
      }
      if id in cycle {
        assert id in more[|reports|];
      }
      if exists k :: 0 <= k < |more| && id in more[k] {
        var k :| 0 <= k < |more| && id in more[k];
        if k < |reports| { assert id in reports[k]; }
      }
    }
  }

  lemma AppendOrdered(ordered: seq<string>, flagged: set<string>, byId: Catalog, id: string)
    requires DependenciesFirst(ordered, flagged, byId)
    requires forall w :: w in byId && Edge(GraphOf(byId), id, w) ==> w in ordered || w in flagged
    ensures DependenciesFirst(ordered + [id], flagged, byId)
  {
    var longer := ordered + [id];
    forall i, w | 0 <= i < |longer| && w in byId && Edge(GraphOf(byId), longer[i], w)
      ensures w in longer[..i] || w in flagged
    {
      if i < |ordered| {
        assert longer[..i] == ordered[..i];
      } else {
        assert longer[..i] == ordered;
      }
    }
  }

  /** Each skill is on the stack or listed at most once, and only those are flagged. */
  ghost predicate Marked(keys: set<string>, stack: seq<string>, ordered: seq<string>, flagged: set<string>) {
    && ToSet(stack) !! ToSet(ordered) && ToSet(stack) + ToSet(ordered) <= keys && flagged <= ToSet(stack) + ToSet(ordered)
    && Distinct(ordered)
  }

  /** The last skill of the stack is listed. */
  lemma LastOut(keys: set<string>, stack: seq<string>, ordered: seq<string>, flagged: set<string>)
    requires Marked(keys, stack, ordered, flagged) && stack != [] && stack[|stack| - 1] !in stack[..|stack| - 1]
    ensures var init, id := stack[..|stack| - 1], stack[|stack| - 1];
      && ToSet(init) == ToSet(stack) - {id} && ToSet(ordered + [id]) == ToSet(ordered) + {id}
      && ToSet(init) + ToSet(ordered + [id]) == ToSet(stack) + ToSet(ordered)
      && Marked(keys, init, ordered + [id], flagged)
  {
    var init, id := stack[..|stack| - 1], stack[|stack| - 1];
    assert stack == init + [id];
    assert ToSet(init) == ToSet(stack) - {id};
    assert ToSet(ordered + [id]) == ToSet(ordered) + {id};
    assert id !in ordered;
  }

  lemma ShorterPath(stack: seq<string>, g: Graph<string>)
    requires IsPath(stack, g) && stack != []
    ensures IsPath(stack[..|stack| - 1], g)
  {
    SubPath(stack, g, 0, |stack| - 1);
    assert stack[0..|stack| - 1] == stack[..|stack| - 1];
  }

  /** How many skills can still be entered. */
  ghost function Room(keys: set<string>, visiting: set<string>): nat {
    |keys - visiting|
  }

  /** One more skill on the stack leaves fewer to enter. */
  lemma Deeper(keys: set<string>, visiting: set<string>, id: string)
    requires id in keys && id !in visiting
    ensures Room(keys, visiting + {id}) < Room(keys, visiting)
  {
    CycleCheck.Smaller(keys - (visiting + {id}), keys - visiting, id);
  }

  // ---------- the walk as a function ----------

  /** What the walk has gathered: the skills it has left, in that order, the flagged ones, and the reported cycles. */
  datatype Tally = Tally(ordered: seq<string>, flagged: set<string>, reports: seq<seq<string>>)

  /** The first place of an id, as `indexOf` finds it. */
  function IndexOf(stack: seq<string>, id: string): (k: nat)
    requires id in stack
    ensures k < |stack| && stack[k] == id
  {
    if stack[0] == id then 0 else 1 + IndexOf(stack[1..], id)
  }

  function Visited(byId: Catalog, stack: seq<string>, id: string, t: Tally): Tally
    decreases |byId.Keys - ToSet(stack)|, 0
  {
    if id in t.ordered || id in t.flagged then t
    else if id in stack then
      var cycle := stack[IndexOf(stack, id)..];
      t.(flagged := t.flagged + ToSet(cycle), reports := t.reports + [cycle])
    else if id !in byId then t
    else
      CycleCheck.Smaller(byId.Keys - ToSet(stack + [id]), byId.Keys - ToSet(stack), id);
      Left(VisitedAll(byId, stack + [id], byId[id], t), id)
  }

  function Left(t: Tally, id: string): Tally {
    t.(ordered := t.ordered + [id])
  }

  function VisitedAll(byId: Catalog, stack: seq<string>, ids: seq<string>, t: Tally): Tally
    decreases |byId.Keys - ToSet(stack)|, 1 + |ids|
  {
    if ids == [] then t else VisitedAll(byId, stack, ids[1..], Visited(byId, stack, ids[0], t))
  }

  /** An id the walk may visit next. */
  ghost predicate NextUp(stack: seq<string>, roots: set<string>, byId: Catalog, id: string) {
    Reachable(roots, byId, id) && (stack != [] ==> Edge(GraphOf(byId), stack[|stack| - 1], id))
  }

  lemma DependenciesNext(stack: seq<string>, roots: set<string>, byId: Catalog)
    requires stack != [] && stack[|stack| - 1] in byId && Reachable(roots, byId, stack[|stack| - 1])
    ensures var id := stack[|stack| - 1];
      && (forall k :: 0 <= k < |byId[id]| ==> NextUp(stack, roots, byId, byId[id][k]))
      && (forall w :: Edge(GraphOf(byId), id, w) ==> w in byId[id])
  {
    hide Reachable;
    var id := stack[|stack| - 1];
    forall k | 0 <= k < |byId[id]| ensures NextUp(stack, roots, byId, byId[id][k]) {
      assert Edge(GraphOf(byId), id, byId[id][k]);
      ReachableStep(roots, byId, id, byId[id][k]);
    }
  }

  lemma VisitedFrom(byId: Catalog, stack: seq<string>, ids: seq<string>, t: Tally)
    ensures VisitedAll(byId, stack, ids[0..], t) == VisitedAll(byId, stack, ids, t)
  {
    assert ids[0..] == ids;
  }

  /** What is left of a list after one more visit. */
  lemma VisitedNext(byId: Catalog, stack: seq<string>, ids: seq<string>, k: nat, t: Tally)
    requires k <= |ids|
    ensures VisitedAll(byId, stack, ids[k..], t) ==
            if k == |ids| then t else VisitedAll(byId, stack, ids[k + 1..], Visited(byId, stack, ids[k], t))
  {
    hide Visited;
    if k < |ids| { assert ids[k..][0] == ids[k] && ids[k..][1..] == ids[k + 1..]; }
  }

  /** What a visit does, case by case. */
  lemma VisitedCases(byId: Catalog, stack: seq<string>, id: string, t: Tally)
    ensures Visited(byId, stack, id, t) ==
      if id in t.ordered || id in t.flagged then t
      else if id in stack then
        var cycle := stack[IndexOf(stack, id)..];
        t.(flagged := t.flagged + ToSet(cycle), reports := t.reports + [cycle])
      else if id !in byId then t
      else Left(VisitedAll(byId, stack + [id], byId[id], t), id)
  {
  }

  /** The walk over all roots. */
  function Walked(roots: seq<string>, byId: Catalog): Tally {
    VisitedAll(byId, [], roots, Tally([], {}, []))
  }

  class Closure {
    const byId: Catalog
    ghost const roots: set<string>
    var visiting: set<string>
    var visited: set<string>
    var ordered: seq<string>
    var stack: seq<string>
    var cycleIds: set<string>
    var reports: seq<seq<string>>

    ghost predicate Marks()
      reads this
    {
      visiting == ToSet(stack) && visited == ToSet(ordered) && Marked(byId.Keys, stack, ordered, cycleIds)
    }

    ghost predicate Walk()
      reads this
    {
      IsPath(stack, GraphOf(byId)) && AllReachable(visiting + visited, roots, byId)
    }

    ghost predicate Findings()
      reads this
    {
      && DependenciesFirst(ordered, cycleIds, byId)
      && FlagsReported(cycleIds, reports) && ReportsReal(reports, byId)
    }

    ghost predicate Valid()
      reads this
    {
      Marks() && Walk() && Findings()
    }

    function Tallied(): Tally
      reads this
    {
      Tally(ordered, cycleIds, reports)
    }

    constructor (byId: Catalog, ghost roots: set<string>)
      ensures Tallied() == Tally([], {}, []) && Valid() && this.byId == byId && this.roots == roots && stack == []
    {
      this.byId := byId;
      this.roots := roots;
      visiting, visited, ordered, stack, cycleIds, reports := {}, {}, [], [], {}, [];
    }

    twostate predicate Grows()
      reads this
    {
      && stack == old(stack) && visiting == old(visiting)
      && old(visited) <= visited && old(cycleIds) <= cycleIds
    }

    method Report(id: string)
      requires Valid() && id in visiting && Edge(GraphOf(byId), stack[|stack| - 1], id)
      modifies this`cycleIds, this`reports
      ensures Valid() && old(cycleIds) <= cycleIds && id in cycleIds
      ensures var cycle := stack[IndexOf(stack, id)..];
              cycleIds == old(cycleIds) + ToSet(cycle) && reports == old(reports) + [cycle]
    {
      var start := IndexOf(stack, id);
      var cycle := stack[start..];
      assert cycle[0] == id;
      StackCycle(stack, byId, start);
      FlagMore(cycleIds, reports, cycle);
      cycleIds := cycleIds + ToSet(cycle);
      reports := reports + [cycle];
    }

    method Visit(id: string)
      requires Valid() && Reachable(roots, byId, id)
      requires stack != [] ==> Edge(GraphOf(byId), stack[|stack| - 1], id)
      modifies this
      ensures Valid() && Grows()
      ensures id in byId ==> id in visited || id in cycleIds
      ensures Tallied() == Visited(byId, stack, id, old(Tallied()))
      decreases Room(byId.Keys, visiting), 1
    {
      hide DependenciesFirst, FlagsReported, ReportsReal, IsPath, Reachable, Visited, VisitedAll;
      VisitedCases(byId, stack, id, Tallied());
      if id in visited || id in cycleIds {
        return;
      }
      if id in visiting {
        Report(id);
        return;
      }
      if id !in byId {
        return;
      }
      Explore(id);
    }

    /** The part of a visit that goes through the dependencies. */
    method Explore(id: string)
      requires Valid() && Reachable(roots, byId, id)
      requires id in byId && id !in visiting && id !in visited
      requires stack != [] ==> Edge(GraphOf(byId), stack[|stack| - 1], id)
      modifies this
      ensures Valid() && Grows() && id in visited
      ensures Tallied() == Left(VisitedAll(byId, stack + [id], byId[id], old(Tallied())), id)
      decreases Room(byId.Keys, visiting), 0
    {
      hide DependenciesFirst, FlagsReported, ReportsReal, IsPath, Reachable, VisitedAll, Distinct, AllReachable, Left, Room;
      Enter(id);
      Deeper(byId.Keys, old(visiting), id);
      VisitDependencies(id);
      assert stack == old(stack) + [id] && stack[..|stack| - 1] == old(stack);
      Leave(id);
    }

    method Enter(id: string)
      requires Valid() && Reachable(roots, byId, id)
      requires id in byId && id !in visiting && id !in visited
      requires stack != [] ==> Edge(GraphOf(byId), stack[|stack| - 1], id)
      modifies this`visiting, this`stack
      ensures Valid() && visiting == old(visiting) + {id} && stack == old(stack) + [id]
    {
      ExtendPath(stack, GraphOf(byId), id);
      visiting := visiting + {id};
      stack := stack + [id];
    }

    method Leave(id: string)
      requires Valid() && stack != [] && stack[|stack| - 1] == id && id !in stack[..|stack| - 1]
      requires forall w :: w in byId && Edge(GraphOf(byId), id, w) ==> w in ordered || w in cycleIds
      modifies this
      ensures Valid() && stack == old(stack)[..|old(stack)| - 1] && visiting == old(visiting) - {id}
      ensures visited == old(visited) + {id} && cycleIds == old(cycleIds)
      ensures Tallied() == Left(old(Tallied()), id)
    {
      hide DependenciesFirst, FlagsReported, ReportsReal, IsPath, Reachable, AllReachable, Marked, Edge, GraphOf;
      AppendOrdered(ordered, cycleIds, byId, id);
      LastOut(byId.Keys, stack, ordered, cycleIds);
      ShorterPath(stack, GraphOf(byId));
      hide ToSet;
      stack := stack[..|stack| - 1];
      visiting := visiting - {id};
      visited := visited + {id};
      ordered := ordered + [id];
    }

    method VisitDependencies(id: string)
      requires Valid() && id in byId && stack != [] && stack[|stack| - 1] == id
      modifies this
      ensures Valid() && Grows()
      ensures forall w :: w in byId && Edge(GraphOf(byId), id, w) ==> w in visited || w in cycleIds
      ensures Tallied() == VisitedAll(byId, stack, byId[id], old(Tallied()))
      decreases Room(byId.Keys, visiting), 3
    {
      hide DependenciesFirst, FlagsReported, ReportsReal, IsPath, Reachable, VisitedAll, Distinct, Room;
      assert Reachable(roots, byId, id) by { assert id in visiting + visited; }
      DependenciesNext(stack, roots, byId);
      hide NextUp;
      VisitEach(byId[id]);
    }

    /** Visits ids in turn from the same place. */
    method VisitEach(ids: seq<string>)
      requires Valid() && forall k :: 0 <= k < |ids| ==> NextUp(stack, roots, byId, ids[k])
      modifies this
      ensures Valid() && Grows()
      ensures forall k :: 0 <= k < |ids| && ids[k] in byId ==> ids[k] in visited || ids[k] in cycleIds
      ensures Tallied() == VisitedAll(byId, stack, ids, old(Tallied()))
      decreases Room(byId.Keys, visiting), 2
    {
      hide VisitedAll, Visited, Room, Marks, Walk, Findings, GraphOf, Edge;
      VisitedFrom(byId, stack, ids, Tallied());
      var index := 0;
      while index < |ids|
        invariant 0 <= index <= |ids|
        invariant Valid() && Grows()
        invariant forall k :: 0 <= k < index && ids[k] in byId ==> ids[k] in visited || ids[k] in cycleIds
        invariant VisitedAll(byId, stack, ids[index..], Tallied()) == VisitedAll(byId, stack, ids, old(Tallied()))
      {
        VisitedNext(byId, stack, ids, index, Tallied());
        assert NextUp(stack, roots, byId, ids[index]);
        Visit(ids[index]);
        index := index + 1;
      }
      VisitedNext(byId, stack, ids, index, Tallied());
    }

    /** The outer loop: every root in turn, each with an empty stack. */
    method VisitRoots(ids: seq<string>)
      requires Valid() && stack == [] && ToSet(ids) <= roots
      modifies this
      ensures Valid() && stack == []
      ensures forall k :: 0 <= k < |ids| && ids[k] in byId ==> ids[k] in visited
      ensures Tallied() == VisitedAll(byId, [], ids, old(Tallied()))
    {
      hide DependenciesFirst, FlagsReported, ReportsReal, IsPath, Reachable, VisitedAll;
      forall k | 0 <= k < |ids| ensures NextUp(stack, roots, byId, ids[k]) { ReachableRoot(roots, byId, ids[k]); }
      hide NextUp;
      VisitEach(ids);
    }
  }

  /** The listed ids that are not flagged. */
  function Unflagged(ordered: seq<string>, flagged: set<string>): seq<string> {
    if ordered == [] then []
    else
      var last := ordered[|ordered| - 1];
      var kept := Unflagged(ordered[..|ordered| - 1], flagged);
      if last in flagged then kept else kept + [last]
  }

  lemma {:induction false} UnflaggedMembers(ordered: seq<string>, flagged: set<string>, id: string)
    ensures id in Unflagged(ordered, flagged) <==> id in ordered && id !in flagged
  {
    if ordered != [] {
      var init := ordered[..|ordered| - 1];
      UnflaggedMembers(init, flagged, id);
      assert ordered == init + [ordered[|ordered| - 1]];
    }
  }

  lemma {:induction false} UnflaggedOrder(ordered: seq<string>, flagged: set<string>, byId: Catalog)
    requires Distinct(ordered) && DependenciesFirst(ordered, flagged, byId)
    ensures Distinct(Unflagged(ordered, flagged))
    ensures DependenciesFirst(Unflagged(ordered, flagged), flagged, byId)
  {
    if ordered != [] {
      var last := ordered[|ordered| - 1];
      var init := ordered[..|ordered| - 1];
      forall i, w | 0 <= i < |init| && w in byId && Edge(GraphOf(byId), init[i], w)
        ensures w in init[..i] || w in flagged
      {
        assert init[..i] == ordered[..i] && init[i] == ordered[i];
      }
      UnflaggedOrder(init, flagged, byId);
      if last !in flagged {
        var kept := Unflagged(init, flagged);
        UnflaggedMembers(init, flagged, last);
        forall w | w in byId && Edge(GraphOf(byId), last, w) ensures w in kept || w in flagged {
          assert Edge(GraphOf(byId), ordered[|ordered| - 1], w);
          UnflaggedMembers(init, flagged, w);
        }
        AppendOrdered(kept, flagged, byId, last);
      }
    }
  }

  // ---------- every reachable skill, every reachable cycle ----------

  /** Where the walk has been is closed under known dependencies. */
  lemma {:induction false} ReachedAlong(p: seq<string>, ordered: seq<string>, flagged: set<string>, byId: Catalog, k: nat)
    requires IsPath(p, GraphOf(byId)) && k < |p| && p[0] in ordered && p[k] in byId
    requires DependenciesFirst(ordered, flagged, byId) && flagged <= ToSet(ordered)
    ensures p[k] in ordered
  {
    if k > 0 {
      var j := k - 1;
      assert Edge(GraphOf(byId), p[j], p[k]);
      ReachedAlong(p, ordered, flagged, byId, j);
      var i :| 0 <= i < |ordered| && ordered[i] == p[j];
      assert p[k] in ordered[..i] || p[k] in flagged;
    }
  }

  lemma {:induction false} UnflaggedDescends(
    p: seq<string>, closed: seq<string>, flagged: set<string>, byId: Catalog, at: nat, k: nat) returns (there: nat)
    requires IsPath(p, GraphOf(byId)) && k < |p| && at < |closed| && closed[at] == p[0]
    requires DependenciesFirst(closed, flagged, byId)
    requires forall i :: 0 <= i <= k ==> p[i] in byId && p[i] !in flagged
    ensures there < |closed| && closed[there] == p[k] && there <= at && (k > 0 ==> there < at)
  {
    if k == 0 {
      there := at;
    } else {
      var j := k - 1;
      var before := UnflaggedDescends(p, closed, flagged, byId, at, j);
      assert Edge(GraphOf(byId), p[j], p[k]);
      assert p[k] in closed[..before];
      there :| 0 <= there < before && closed[there] == p[k];
    }
  }

  /** Some skill of every reachable cycle is flagged. */
  ghost predicate CyclesBroken(roots: seq<string>, byId: Catalog, flagged: set<string>) {
    forall c :: IsCycle(c, GraphOf(byId)) && Reachable(ToSet(roots), byId, c[0]) ==>
      exists k :: 0 <= k < |c| && c[k] in flagged
  }

  ghost predicate Covered(roots: seq<string>, byId: Catalog, closed: seq<string>, flagged: set<string>) {
    forall id :: id in byId && Reachable(ToSet(roots), byId, id) ==> id in closed || id in flagged
  }

  lemma CoveredBreaks(roots: seq<string>, byId: Catalog, closed: seq<string>, flagged: set<string>)
    requires Covered(roots, byId, closed, flagged) && Distinct(closed) && DependenciesFirst(closed, flagged, byId)
    ensures CyclesBroken(roots, byId, flagged)
  {
    forall c | IsCycle(c, GraphOf(byId)) && Reachable(ToSet(roots), byId, c[0])
      ensures exists k :: 0 <= k < |c| && c[k] in flagged
    {
      if forall k :: 0 <= k < |c| ==> c[k] !in flagged {
        CycleKnown(c, byId);
        assert c[0] in closed;
        var at :| 0 <= at < |closed| && closed[at] == c[0];
        var there := UnflaggedDescends(c, closed, flagged, byId, at, |c| - 1);
      }
    }
  }

  lemma CycleKnown(c: seq<string>, byId: Catalog)
    requires IsCycle(c, GraphOf(byId))
    ensures forall k :: 0 <= k < |c| ==> c[k] in byId
  {
    forall k | 0 <= k < |c| ensures c[k] in byId {
      var i := if k < |c| - 1 then k else 0;
      var j := i + 1;
      assert Edge(GraphOf(byId), c[i], c[j]);
    }
  }

  lemma WalkCovers(roots: seq<string>, byId: Catalog, ordered: seq<string>, flagged: set<string>)
    requires DependenciesFirst(ordered, flagged, byId) && flagged <= ToSet(ordered)
    requires forall k :: 0 <= k < |roots| && roots[k] in byId ==> roots[k] in ordered
    ensures forall id :: id in byId && Reachable(ToSet(roots), byId, id) ==> id in ordered
  {
    forall id | id in byId && Reachable(ToSet(roots), byId, id) ensures id in ordered {
      var p :| |p| > 0 && p[0] in ToSet(roots) && p[|p| - 1] == id && IsPath(p, GraphOf(byId));
      if |p| > 1 {
        var j := 1;
        assert Edge(GraphOf(byId), p[0], p[j]);
      }
      ReachedAlong(p, ordered, flagged, byId, |p| - 1);
    }
  }

  ghost predicate HasReachableCycle(roots: seq<string>, byId: Catalog) {
    exists c :: IsCycle(c, GraphOf(byId)) && Reachable(ToSet(roots), byId, c[0])
  }

  lemma ReportedIsReachable(roots: seq<string>, byId: Catalog, flagged: set<string>, reports: seq<seq<string>>, k: nat)
    requires FlagsReported(flagged, reports) && ReportsReal(reports, byId) && k < |reports|
    requires AllReachable(flagged, ToSet(roots), byId)
    ensures HasReachableCycle(roots, byId)
  {
    hide IsPath, Reachable;
    var c := reports[k];
    assert RealCycle(c, byId) && c[0] in reports[k];
    assert c[0] in flagged;
    var whole := c + [c[0]];
    assert whole[0] == c[0] && IsCycle(whole, GraphOf(byId));
  }

  /** Nothing is flagged exactly when no cycle can be reached. */
  lemma FlagsExactly(roots: seq<string>, byId: Catalog, flagged: set<string>, reports: seq<seq<string>>)
    requires CyclesBroken(roots, byId, flagged) && FlagsReported(flagged, reports) && ReportsReal(reports, byId)
    requires AllReachable(flagged, ToSet(roots), byId)
    ensures flagged != {} <==> HasReachableCycle(roots, byId)
  {
    hide IsPath, Reachable;
    if flagged != {} {
      var id :| id in flagged;
      var k :| 0 <= k < |reports| && id in reports[k];
      ReportedIsReachable(roots, byId, flagged, reports, k);
    } else {
      assert forall c :: IsCycle(c, GraphOf(byId)) ==> !Reachable(ToSet(roots), byId, c[0]);
    }
  }

  /** The whole closure: what is listed, in which order, and what is reported. Every reachable skill is listed or
      flagged, every reachable cycle has a flagged skill, and nothing is flagged exactly without such a cycle. */
  method CloseDependencies(roots: seq<string>, byId: Catalog)
      returns (closed: seq<string>, cyclic: set<string>, reports: seq<seq<string>>)
    ensures Distinct(closed) && DependenciesFirst(closed, cyclic, byId)
    ensures forall id :: id in closed ==> id in byId && id !in cyclic && Reachable(ToSet(roots), byId, id)
    ensures Covered(roots, byId, closed, cyclic) && AllReachable(cyclic, ToSet(roots), byId)
    ensures FlagsReported(cyclic, reports) && ReportsReal(reports, byId)
    ensures CyclesBroken(roots, byId, cyclic)
    ensures cyclic != {} <==> HasReachableCycle(roots, byId)
    ensures CyclesApart(roots, byId) ==> forall id :: id in cyclic <==> OnReachableCycle(roots, byId, id)
    ensures var t := Walked(roots, byId);
            closed == Unflagged(t.ordered, t.flagged) && cyclic == t.flagged && reports == t.reports
  {
    var walk := new Closure(byId, ToSet(roots));
    walk.VisitRoots(roots);
    hide Visited, VisitedAll, Reachable, DependenciesFirst, FlagsReported, ReportsReal, CyclesApart, OnReachableCycle;
    hide CyclesBroken, HasReachableCycle, Unflagged, Distinct, IsPath, Covered;
    Concludes(roots, byId, walk.Tallied());
    closed, cyclic, reports := Unflagged(walk.ordered, walk.cycleIds), walk.cycleIds, walk.reports;
  }

  /** What a finished walk leaves. */
  lemma Concludes(roots: seq<string>, byId: Catalog, t: Tally)
    requires Distinct(t.ordered) && DependenciesFirst(t.ordered, t.flagged, byId) && ToSet(t.ordered) <= byId.Keys
    requires t.flagged <= ToSet(t.ordered) && AllReachable(ToSet(t.ordered), ToSet(roots), byId)
    requires forall k :: 0 <= k < |roots| && roots[k] in byId ==> roots[k] in t.ordered
    requires FlagsReported(t.flagged, t.reports) && ReportsReal(t.reports, byId)
    ensures var closed := Unflagged(t.ordered, t.flagged);
      && Distinct(closed) && DependenciesFirst(closed, t.flagged, byId)
      && (forall id :: id in closed ==> id in byId && id !in t.flagged && Reachable(ToSet(roots), byId, id))
      && Covered(roots, byId, closed, t.flagged) && AllReachable(t.flagged, ToSet(roots), byId)
    ensures CyclesBroken(roots, byId, t.flagged) && (t.flagged != {} <==> HasReachableCycle(roots, byId))
    ensures CyclesApart(roots, byId) ==> forall id :: id in t.flagged <==> OnReachableCycle(roots, byId, id)
  {
    UnflaggedOrder(t.ordered, t.flagged, byId);
    WalkCovers(roots, byId, t.ordered, t.flagged);
    hide DependenciesFirst, FlagsReported, ReportsReal, CyclesBroken, CyclesApart, Reachable, HasReachableCycle;
    hide OnReachableCycle, Unflagged;
    var closed := Unflagged(t.ordered, t.flagged);
    forall id ensures id in closed <==> id in ToSet(t.ordered) && id !in t.flagged {
      UnflaggedMembers(t.ordered, t.flagged, id);
    }
    FlagsFit(roots, byId, closed, t.flagged, t.reports);
  }

  /** What the flags amount to, once every reachable skill is listed or flagged. */
  lemma FlagsFit(roots: seq<string>, byId: Catalog, closed: seq<string>, flagged: set<string>, reports: seq<seq<string>>)
    requires Covered(roots, byId, closed, flagged) && Distinct(closed) && DependenciesFirst(closed, flagged, byId)
    requires FlagsReported(flagged, reports) && ReportsReal(reports, byId) && AllReachable(flagged, ToSet(roots), byId)
    ensures CyclesBroken(roots, byId, flagged) && (flagged != {} <==> HasReachableCycle(roots, byId))
    ensures CyclesApart(roots, byId) ==> forall id :: id in flagged <==> OnReachableCycle(roots, byId, id)
  {
    CoveredBreaks(roots, byId, closed, flagged);
    FlagsExactly(roots, byId, flagged, reports);
    hide DependenciesFirst, FlagsReported, ReportsReal, CyclesBroken, CyclesApart, Reachable;
    if CyclesApart(roots, byId) { FlagsAllOnCycles(roots, byId, flagged, reports); }
  }

  // ---------- when every skill on a cycle is flagged ----------

  ghost predicate OnReachableCycle(roots: seq<string>, byId: Catalog, id: string) {
    exists c :: IsCycle(c, GraphOf(byId)) && c[0] == id && Reachable(ToSet(roots), byId, id)
  }

  /** No reachable skill is on two cycles: all cycles through it leave it by the same dependency. */
  ghost predicate CyclesApart(roots: seq<string>, byId: Catalog) {
    forall c, d ::
      IsCycle(c, GraphOf(byId)) && IsCycle(d, GraphOf(byId)) && c[0] == d[0] && Reachable(ToSet(roots), byId, c[0]) ==>
        c[1] == d[1]
  }

  /** The same cycle, started at another of its skills. */
  ghost function Rotated(c: seq<string>, k: nat): seq<string>
    requires k + 1 < |c|
  {
    c[k..|c| - 1] + c[..k + 1]
  }

  lemma RotatedCycle(c: seq<string>, byId: Catalog, k: nat)
    requires IsCycle(c, GraphOf(byId)) && k + 1 < |c|
    ensures IsCycle(Rotated(c, k), GraphOf(byId)) && Rotated(c, k)[0] == c[k] && Rotated(c, k)[1] == c[k + 1]
  {
    var g := GraphOf(byId);
    var r := Rotated(c, k);
    var n := |c| - 1;
    forall i, j | 0 <= i && j == i + 1 && j < |r| ensures Edge(g, r[i], r[j]) {
      if j < n - k {
        assert r[i] == c[k + i] && r[j] == c[k + j];
      } else if i < n - k {
        var a, b := n - 1, n;
        assert r[i] == c[a] && r[j] == c[0] == c[b];
      } else {
        assert r[i] == c[i - (n - k)] && r[j] == c[j - (n - k)];
      }
    }
  }

  lemma {:induction false} ReachableAlong(c: seq<string>, roots: set<string>, byId: Catalog, k: nat)
    requires IsPath(c, GraphOf(byId)) && k < |c| && Reachable(roots, byId, c[0])
    ensures Reachable(roots, byId, c[k])
  {
    if k > 0 {
      var j := k - 1;
      ReachableAlong(c, roots, byId, j);
      assert Edge(GraphOf(byId), c[j], c[k]);
      ReachableStep(roots, byId, c[j], c[k]);
    }
  }

  /** Where cycles are apart, one that enters a reported cycle stays in it. */
  lemma StaysInReport(c: seq<string>, report: seq<string>, roots: seq<string>, byId: Catalog, k: nat)
    requires CyclesApart(roots, byId) && IsCycle(c, GraphOf(byId)) && RealCycle(report, byId)
    requires k + 1 < |c| && c[k] in report && Reachable(ToSet(roots), byId, c[0])
    ensures c[k + 1] in report
  {
    var d := report + [report[0]];
    var m :| 0 <= m < |report| && report[m] == c[k];
    RotatedCycle(c, byId, k);
    RotatedCycle(d, byId, m);
    ReachableAlong(c, ToSet(roots), byId, k);
    assert Rotated(c, k)[1] == Rotated(d, m)[1] == d[m + 1];
    assert d[m + 1] in report;
  }

  lemma {:induction false} AllInReport(c: seq<string>, report: seq<string>, roots: seq<string>, byId: Catalog, k: nat, n: nat)
    requires CyclesApart(roots, byId) && IsCycle(c, GraphOf(byId)) && RealCycle(report, byId)
    requires k <= n < |c| && c[k] in report && Reachable(ToSet(roots), byId, c[0])
    ensures c[n] in report
  {
    if k < n {
      AllInReport(c, report, roots, byId, k, n - 1);
      StaysInReport(c, report, roots, byId, n - 1);
    }
  }

  /** A flagged skill is on a reachable cycle. */
  lemma FlaggedIsOnCycle(roots: seq<string>, byId: Catalog, report: seq<string>, id: string)
    requires RealCycle(report, byId) && id in report && Reachable(ToSet(roots), byId, id)
    ensures OnReachableCycle(roots, byId, id)
  {
    hide Reachable, IsPath;
    var k :| 0 <= k < |report| && report[k] == id;
    RotatedCycle(report + [report[0]], byId, k);
  }

  /** Where no reachable skill is on two cycles, exactly the skills on reachable cycles are flagged. */
  lemma FlagsAllOnCycles(roots: seq<string>, byId: Catalog, flagged: set<string>, reports: seq<seq<string>>)
    requires CyclesBroken(roots, byId, flagged) && FlagsReported(flagged, reports) && ReportsReal(reports, byId)
    requires AllReachable(flagged, ToSet(roots), byId) && CyclesApart(roots, byId)
    ensures forall id :: id in flagged <==> OnReachableCycle(roots, byId, id)
  {
    hide CyclesApart, RealCycle, Reachable, IsPath;
    forall id | OnReachableCycle(roots, byId, id) ensures id in flagged {
      var c :| IsCycle(c, GraphOf(byId)) && c[0] == id && Reachable(ToSet(roots), byId, id);
      var k :| 0 <= k < |c| && c[k] in flagged;
      var m :| 0 <= m < |reports| && c[k] in reports[m];
      AllInReport(c, reports[m], roots, byId, k, |c| - 1);
    }
    forall id | id in flagged ensures OnReachableCycle(roots, byId, id) {
      var m :| 0 <= m < |reports| && id in reports[m];
      FlaggedIsOnCycle(roots, byId, reports[m], id);
    }
  }

  // ---------- a cycle left half flagged ----------

  /** Two cycles share the skills a and b; the second is met when b is already flagged. */
  const SHARED: Catalog := map["a" := ["b", "c"], "b" := ["a"], "c" := ["b"]]

  /** The failing input: c is on the reachable cycle c, b, a and stays listed. */
  lemma SharedCycleStaysListed()
    ensures Walked(["a"], SHARED) == Tally(["b", "c", "a"], {"a", "b"}, [["a", "b"]])
    ensures Unflagged(["b", "c", "a"], {"a", "b"}) == ["c"]
    ensures OnReachableCycle(["a"], SHARED, "c")
  {
    hide Walked, Unflagged, OnReachableCycle;
    SharedWalk();
    SharedListed();
    SharedCycle();
  }

  lemma SharedListed()
    ensures Unflagged(["b", "c", "a"], {"a", "b"}) == ["c"]
  {
    assert ["b", "c", "a"][..2] == ["b", "c"] && ["b", "c"][..1] == ["b"] && ["b"][..0] == [];
    assert Unflagged(["b"], {"a", "b"}) == [];
    assert Unflagged(["b", "c"], {"a", "b"}) == ["c"];
  }

  lemma SharedCycle()
    ensures OnReachableCycle(["a"], SHARED, "c")
  {
    var g := GraphOf(SHARED);
    var c, p := ["c", "b", "a", "c"], ["a", "c"];
    assert Edge(g, "c", "b") && Edge(g, "b", "a") && Edge(g, "a", "c");
    assert IsCycle(c, g) && IsPath(p, g) && p[0] in ToSet(["a"]) && p[|p| - 1] == "c";
  }

  lemma SharedWalk()
    ensures Walked(["a"], SHARED) == Tally(["b", "c", "a"], {"a", "b"}, [["a", "b"]])
  {
    var t0 := Tally([], {}, []);
    var t1 := Tally([], {"a", "b"}, [["a", "b"]]);
    var t2 := Tally(["b"], {"a", "b"}, [["a", "b"]]);
    var t3 := Tally(["b", "c"], {"a", "b"}, [["a", "b"]]);
    hide Visited, VisitedAll;
    assert Visited(SHARED, ["a", "b"], "a", t0) == t1 by {
      VisitedCases(SHARED, ["a", "b"], "a", t0);
      assert IndexOf(["a", "b"], "a") == 0 && ["a", "b"][0..] == ["a", "b"] && ToSet(["a", "b"]) == {"a", "b"};
    }
    VisitedOne(SHARED, ["a", "b"], "a", t0);
    assert Visited(SHARED, ["a"], "b", t0) == t2 by {
      VisitedCases(SHARED, ["a"], "b", t0);
      assert ["a"] + ["b"] == ["a", "b"];
    }
    assert Visited(SHARED, ["a", "c"], "b", t2) == t2 by { VisitedCases(SHARED, ["a", "c"], "b", t2); }
    VisitedOne(SHARED, ["a", "c"], "b", t2);
    assert Visited(SHARED, ["a"], "c", t2) == t3 by {
      VisitedCases(SHARED, ["a"], "c", t2);
      assert ["a"] + ["c"] == ["a", "c"];
    }
    VisitedTwo(SHARED, ["a"], "b", "c", t0);
    VisitedCases(SHARED, [], "a", t0);
    assert [] + ["a"] == ["a"];
    VisitedOne(SHARED, [], "a", t0);
  }

  lemma VisitedOne(byId: Catalog, stack: seq<string>, id: string, t: Tally)
    ensures VisitedAll(byId, stack, [id], t) == Visited(byId, stack, id, t)
  {
    hide Visited;
    assert [id][1..] == [];
  }

  lemma VisitedTwo(byId: Catalog, stack: seq<string>, first: string, second: string, t: Tally)
    ensures VisitedAll(byId, stack, [first, second], t) == Visited(byId, stack, second, Visited(byId, stack, first, t))
  {
    hide Visited;
    assert [first, second][1..] == [second];
    VisitedOne(byId, stack, second, Visited(byId, stack, first, t));
  }

  /** A skill with a dependency on itself, inside a longer cycle. */
  const NESTED: Catalog := map["u" := ["d"], "d" := ["d", "u"]]

  /** Overlap alone does not leave a skill unflagged: here d is on two cycles and everything is flagged. */
  lemma OverlapMayBeFlagged()
    ensures Walked(["u"], NESTED) == Tally(["d", "u"], {"d", "u"}, [["d"], ["u", "d"]])
    ensures !CyclesApart(["u"], NESTED)
  {
    NestedWalk();
    var g := GraphOf(NESTED);
    var c, d, p := ["d", "d"], ["d", "u", "d"], ["u", "d"];
    assert Edge(g, "d", "d") && Edge(g, "d", "u") && Edge(g, "u", "d");
    assert IsCycle(c, g) && IsCycle(d, g) && c[1] != d[1];
    assert IsPath(p, g) && p[0] in ToSet(["u"]) && p[|p| - 1] == "d";
  }

  lemma NestedWalk()
    ensures Walked(["u"], NESTED) == Tally(["d", "u"], {"d", "u"}, [["d"], ["u", "d"]])
  {
    var t0 := Tally([], {}, []);
    var t1 := Tally([], {"d"}, [["d"]]);
    var t2 := Tally([], {"d", "u"}, [["d"], ["u", "d"]]);
    hide Visited, VisitedAll;
    assert Visited(NESTED, ["u", "d"], "d", t0) == t1 by {
      VisitedCases(NESTED, ["u", "d"], "d", t0);
      assert IndexOf(["u", "d"], "d") == 1 && ["u", "d"][1..] == ["d"] && ToSet(["d"]) == {"d"};
    }
    assert Visited(NESTED, ["u", "d"], "u", t1) == t2 by {
      VisitedCases(NESTED, ["u", "d"], "u", t1);
      assert IndexOf(["u", "d"], "u") == 0 && ["u", "d"][0..] == ["u", "d"] && ToSet(["u", "d"]) == {"u", "d"};
    }
    VisitedTwo(NESTED, ["u", "d"], "d", "u", t0);
    VisitedCases(NESTED, ["u"], "d", t0);
    assert ["u"] + ["d"] == ["u", "d"];
    VisitedOne(NESTED, ["u"], "d", t0);
    VisitedCases(NESTED, [], "u", t0);
    assert [] + ["u"] == ["u"];
    VisitedOne(NESTED, [], "u", t0);
  }
}
