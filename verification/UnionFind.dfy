/** Union-find over an array of parents, with recursive path compression. */
module UnionFind {

  // ---------- chains of links ----------

  predicate Linked(link: (nat, nat) -> bool, a: nat, b: nat) {
    (a < b && link(a, b)) || (b < a && link(b, a))
  }

  ghost predicate IsChain(link: (nat, nat) -> bool, n: nat, p: seq<nat>) {
    && p != []
    && (forall k :: 0 <= k < |p| ==> p[k] < n)
    && (forall k, l :: 0 <= k && l == k + 1 && l < |p| ==> Linked(link, p[k], p[l]))
  }

  /** A chain of linked pairs leads from a to b. */
  ghost predicate Connected(link: (nat, nat) -> bool, n: nat, a: nat, b: nat) {
    exists p :: IsChain(link, n, p) && p[0] == a && p[|p| - 1] == b
  }

  lemma ConnectedSelf(link: (nat, nat) -> bool, n: nat, a: nat)
    requires a < n
    ensures Connected(link, n, a, a)
  {
    assert IsChain(link, n, [a]);
  }

  lemma ConnectedPair(link: (nat, nat) -> bool, n: nat, a: nat, b: nat)
    requires a < n && b < n && Linked(link, a, b)
    ensures Connected(link, n, a, b)
  {
    assert IsChain(link, n, [a, b]);
    assert [a, b][0] == a && [a, b][1] == b;
  }

  lemma ConnectedThrough(link: (nat, nat) -> bool, n: nat, a: nat, b: nat, c: nat)
    requires Connected(link, n, a, b) && Connected(link, n, b, c)
    ensures Connected(link, n, a, c)
  {
    var p :| IsChain(link, n, p) && p[0] == a && p[|p| - 1] == b;
    var q :| IsChain(link, n, q) && q[0] == b && q[|q| - 1] == c;
    var r := p + q[1..];
    hide Linked;
    forall k, l | 0 <= k && l == k + 1 && l < |r| ensures Linked(link, r[k], r[l]) {
      if l < |p| {
        assert Linked(link, p[k], p[l]);
      } else {
        assert r[l] == q[l - |p| + 1];
        assert r[k] == q[k - |p| + 1];
        assert Linked(link, q[k - |p| + 1], q[l - |p| + 1]);
      }
    }
    assert IsChain(link, n, r) && r[0] == a && r[|r| - 1] == c;
  }

  lemma ConnectedBack(link: (nat, nat) -> bool, n: nat, a: nat, b: nat)
    requires Connected(link, n, a, b)
    ensures Connected(link, n, b, a)
  {
    var p :| IsChain(link, n, p) && p[0] == a && p[|p| - 1] == b;
    var r := seq(|p|, i requires 0 <= i < |p| => p[|p| - 1 - i]);
    forall k, l | 0 <= k && l == k + 1 && l < |r| ensures Linked(link, r[k], r[l]) {
      assert Linked(link, p[|p| - 1 - l], p[|p| - 1 - k]);
    }
    assert IsChain(link, n, r) && r[0] == b && r[|r| - 1] == a;
  }

  // ---------- the forest ----------

  /** The parents form a forest in which `root` names each node's root and `depth` falls towards it. */
  ghost predicate Forest(parent: seq<nat>, root: seq<nat>, depth: seq<nat>) {
    |parent| == |root| == |depth| && forall i :: 0 <= i < |parent| ==> Placement(parent, root, depth, i)
  }

  ghost predicate Placement(parent: seq<nat>, root: seq<nat>, depth: seq<nat>, i: nat)
    requires |parent| == |root| == |depth| && i < |parent|
  {
    && parent[i] < |parent| && root[i] < |parent|
    && root[parent[i]] == root[i] && root[root[i]] == root[i]
    && (parent[i] == i <==> root[i] == i)
    && (parent[i] != i ==> depth[parent[i]] < depth[i])
  }

  lemma ForestAt(parent: seq<nat>, root: seq<nat>, depth: seq<nat>, i: nat)
    requires Forest(parent, root, depth) && i < |parent|
    ensures |parent| == |root| == |depth| && parent[i] < |parent| && root[i] < |parent|
    ensures root[parent[i]] == root[i] && (parent[i] == i <==> root[i] == i)
    ensures parent[i] != i ==> depth[parent[i]] < depth[i]
  {
    assert Placement(parent, root, depth, i);
  }

  lemma CompressKeepsForest(parent: seq<nat>, root: seq<nat>, depth: seq<nat>, i: nat)
    requires Forest(parent, root, depth) && i < |parent| && root[i] < |parent|
    requires root[i] != i && depth[root[i]] < depth[i]
    ensures Forest(parent[i := root[i]], root, depth)
  {
    var next := parent[i := root[i]];
    forall k | 0 <= k < |parent| ensures Placement(next, root, depth, k) {
      assert Placement(parent, root, depth, k);
    }
  }

  /** Finds the root of i, making it the parent of all nodes on the way; no root changes. */
  method Find(parent: array<nat>, ghost root: seq<nat>, ghost depth: seq<nat>, i: nat) returns (r: nat)
    requires i < parent.Length && Forest(parent[..], root, depth)
    modifies parent
    ensures Forest(parent[..], root, depth)
    ensures r == root[i] && r < parent.Length && (r != i ==> depth[r] < depth[i])
    decreases depth[i]
  {
    hide Forest;
    ForestAt(parent[..], root, depth, i);
    var current := parent[i];
    assert parent[..][i] == current;
    r := i;
    if current != i {
      r := Find(parent, root, depth, current);
      CompressKeepsForest(parent[..], root, depth, i);
      ghost var before := parent[..];
      parent[i] := r;
      assert parent[..] == before[i := r];
    }
  }

  /** Every pair linked so far shares a root, and nodes share a root only when a chain connects them. */
  ghost predicate Explained(root: seq<nat>, link: (nat, nat) -> bool) {
    forall a, b :: 0 <= a < |root| && 0 <= b < |root| && root[a] == root[b] ==> Connected(link, |root|, a, b)
  }

  ghost function JoinRoots(root: seq<nat>, left: nat, right: nat): seq<nat> {
    seq(|root|, i requires 0 <= i < |root| => if root[i] == right then left else root[i])
  }

  ghost function JoinDepths(root: seq<nat>, depth: seq<nat>, left: nat, right: nat): seq<nat>
    requires |root| == |depth| && left < |depth|
  {
    seq(|root|, i requires 0 <= i < |root| => if root[i] == right then depth[i] + depth[left] + 1 else depth[i])
  }

  lemma JoinKeepsForest(parent: seq<nat>, root: seq<nat>, depth: seq<nat>, left: nat, right: nat)
    requires Forest(parent, root, depth) && left < |parent| && right < |parent|
    requires root[left] == left && root[right] == right && left != right
    ensures Forest(parent[right := left], JoinRoots(root, left, right), JoinDepths(root, depth, left, right))
  {
    var next, roots, depths := parent[right := left], JoinRoots(root, left, right), JoinDepths(root, depth, left, right);
    forall k | 0 <= k < |parent| ensures Placement(next, roots, depths, k) {
      assert Placement(parent, root, depth, k);
    }
  }

  lemma JoinExplained(root: seq<nat>, link: (nat, nat) -> bool, i: nat, j: nat)
    requires i < |root| && j < |root| && Explained(root, link) && Linked(link, i, j)
    ensures Explained(JoinRoots(root, root[i], root[j]), link)
  {
    var n, joined := |root|, JoinRoots(root, root[i], root[j]);
    hide Connected, Linked;
    ConnectedPair(link, n, i, j);
    forall a, b | 0 <= a < n && 0 <= b < n && joined[a] == joined[b] ensures Connected(link, n, a, b) {
      if root[a] != root[b] {
        if root[a] == root[j] { Bridge(link, n, b, i, j, a); } else { Bridge(link, n, a, i, j, b); }
      }
    }
  }

  lemma Bridge(link: (nat, nat) -> bool, n: nat, a: nat, i: nat, j: nat, b: nat)
    requires Connected(link, n, a, i) && Connected(link, n, i, j) && Connected(link, n, j, b)
    ensures Connected(link, n, a, b) && Connected(link, n, b, a)
  {
    ConnectedThrough(link, n, a, i, j);
    ConnectedThrough(link, n, a, j, b);
    ConnectedBack(link, n, a, b);
  }

  method Union(parent: array<nat>, ghost root: seq<nat>, ghost depth: seq<nat>, i: nat, j: nat)
    returns (ghost root': seq<nat>, ghost depth': seq<nat>)
    requires i < parent.Length && j < parent.Length && Forest(parent[..], root, depth)
    modifies parent
    ensures Forest(parent[..], root', depth')
    ensures root' == JoinRoots(root, root[i], root[j])
  {
    hide Forest;
    var rootLeft := Find(parent, root, depth, i);
    var rootRight := Find(parent, root, depth, j);
    ForestRoots(parent[..], root, depth, i);
    ForestRoots(parent[..], root, depth, j);
    if rootLeft != rootRight {
      JoinKeepsForest(parent[..], root, depth, rootLeft, rootRight);
      ghost var before := parent[..];
      parent[rootRight] := rootLeft;
      assert parent[..] == before[rootRight := rootLeft];
      root', depth' := JoinRoots(root, rootLeft, rootRight), JoinDepths(root, depth, rootLeft, rootRight);
    } else {
      root', depth' := root, depth;
      assert root == JoinRoots(root, rootLeft, rootRight);
    }
  }

  lemma ForestRoots(parent: seq<nat>, root: seq<nat>, depth: seq<nat>, i: nat)
    requires Forest(parent, root, depth) && i < |parent|
    ensures |parent| == |root| == |depth| && root[i] < |parent| && root[root[i]] == root[i]
  {
    assert Placement(parent, root, depth, i);
  }

  /** All linked pairs before row i, and those of row i before column j, share a root. */
  ghost predicate Joined(root: seq<nat>, link: (nat, nat) -> bool, i: nat, j: nat) {
    forall a, b :: 0 <= a < b < |root| && link(a, b) && (a < i || (a == i && b < j)) ==> root[a] == root[b]
  }

  lemma {:induction false} ChainSharesRoot(root: seq<nat>, link: (nat, nat) -> bool, p: seq<nat>)
    requires Joined(root, link, |root|, 0) && IsChain(link, |root|, p)
    ensures root[p[0]] == root[p[|p| - 1]]
    decreases |p|
  {
    if |p| > 1 {
      var front := p[..|p| - 1];
      forall k, l | 0 <= k && l == k + 1 && l < |front| ensures Linked(link, front[k], front[l]) {
        assert Linked(link, p[k], p[l]);
      }
      ChainSharesRoot(root, link, front);
      assert Linked(link, p[|p| - 2], p[|p| - 1]);
    }
  }

  lemma RootsAreClasses(root: seq<nat>, link: (nat, nat) -> bool, a: nat, b: nat)
    requires Joined(root, link, |root|, 0) && Explained(root, link) && a < |root| && b < |root|
    ensures root[a] == root[b] <==> Connected(link, |root|, a, b)
  {
    if Connected(link, |root|, a, b) {
      var p :| IsChain(link, |root|, p) && p[0] == a && p[|p| - 1] == b;
      ChainSharesRoot(root, link, p);
    }
  }

  lemma JoinedStep(root: seq<nat>, link: (nat, nat) -> bool, i: nat, j: nat)
    requires Joined(root, link, i, j) && i < j < |root|
    ensures Joined(JoinRoots(root, root[i], root[j]), link, i, j + 1)
    ensures !link(i, j) ==> Joined(root, link, i, j + 1)
  {
  }

  lemma JoinedRow(root: seq<nat>, link: (nat, nat) -> bool, i: nat)
    ensures Joined(root, link, i, 0) ==> Joined(root, link, i, i + 1)
    ensures Joined(root, link, i, |root|) ==> Joined(root, link, i + 1, 0)
  {
  }

  /** The double loop over all pairs. */
  method UnionLinked(parent: array<nat>, link: (nat, nat) -> bool) returns (ghost root: seq<nat>, ghost depth: seq<nat>)
    requires forall i :: 0 <= i < parent.Length ==> parent[i] == i
    modifies parent
    ensures Forest(parent[..], root, depth)
    ensures Joined(root, link, |root|, 0) && Explained(root, link) && |root| == parent.Length
  {
    root, depth := parent[..], seq(parent.Length, _ => 0);
    StartsExplained(root, link);
    StartsForest(root);
    hide Forest, Explained, Joined, JoinRoots;
    for i := 0 to parent.Length
      invariant Forest(parent[..], root, depth) && |root| == parent.Length
      invariant Joined(root, link, i, 0) && Explained(root, link)
    {
      JoinedRow(root, link, i);
      for j := i + 1 to parent.Length
        invariant Forest(parent[..], root, depth) && |root| == parent.Length
        invariant Joined(root, link, i, j) && Explained(root, link)
      {
        JoinedStep(root, link, i, j);
        if link(i, j) {
          JoinExplained(root, link, i, j);
          root, depth := Union(parent, root, depth, i, j);
          ForestSize(parent[..], root, depth);
        }
      }
      JoinedRow(root, link, i);
    }
  }

  lemma StartsForest(parent: seq<nat>)
    requires forall i :: 0 <= i < |parent| ==> parent[i] == i
    ensures Forest(parent, parent, seq(|parent|, _ => 0))
  {
  }

  lemma StartsExplained(root: seq<nat>, link: (nat, nat) -> bool)
    requires forall i :: 0 <= i < |root| ==> root[i] == i
    ensures Explained(root, link)
  {
    forall a, b | 0 <= a < |root| && 0 <= b < |root| && root[a] == root[b] ensures Connected(link, |root|, a, b) {
      ConnectedSelf(link, |root|, a);
    }
  }

  // ---------- the groups ----------

  function Flatten<T>(groups: seq<seq<T>>): seq<T> {
    if groups == [] then [] else groups[0] + Flatten(groups[1..])
  }

  function Indices(n: nat): seq<nat> { seq(n, i => i) }

  ghost predicate Ascending(g: seq<nat>) {
    forall i, j :: 0 <= i < j < |g| ==> g[i] < g[j]
  }

  /** Each group ascends, and the groups follow their first members. */
  ghost predicate InOrder(groups: seq<seq<nat>>) {
    && (forall g :: 0 <= g < |groups| ==> groups[g] != [] && Ascending(groups[g]))
    && (forall g, h :: 0 <= g < h < |groups| ==> groups[g][0] < groups[h][0])
  }

  /** The groups list every index once, and two indices share a group exactly when a chain connects them. */
  ghost predicate IsGrouping(groups: seq<seq<nat>>, n: nat, link: (nat, nat) -> bool) {
    && multiset(Flatten(groups)) == multiset(Indices(n)) && InOrder(groups)
    && (forall g :: g in groups ==> g != [] && forall a :: a in g ==> a < n)
    && (forall g, a, b :: g in groups && a in g && 0 <= b < n ==> (b in g <==> Connected(link, n, a, b)))
  }

  lemma {:induction false} FlattenAppend<T>(a: seq<seq<T>>, b: seq<seq<T>>)
    ensures Flatten(a + b) == Flatten(a) + Flatten(b)
  {
    if a == [] {
      assert a + b == b;
    } else {
      FlattenAppend(a[1..], b);
      assert (a + b)[1..] == a[1..] + b && (a + b)[0] == a[0];
      assert a[0] + (Flatten(a[1..]) + Flatten(b)) == a[0] + Flatten(a[1..]) + Flatten(b);
    }
  }

  lemma {:induction false} FlattenInsert<T>(groups: seq<seq<T>>, k: nat, x: T)
    requires k < |groups|
    ensures multiset(Flatten(groups[k := groups[k] + [x]])) == multiset(Flatten(groups)) + multiset{x}
  {
    var next := groups[k := groups[k] + [x]];
    if k == 0 {
      assert next[1..] == groups[1..];
    } else {
      FlattenInsert(groups[1..], k - 1, x);
      assert next[1..] == groups[1..][k - 1 := groups[1..][k - 1] + [x]];
    }
  }

  ghost predicate Placed(root: seq<nat>, k: nat, slots: map<nat, nat>, g: nat, a: nat) {
    a < k && a < |root| && root[a] in slots && slots[root[a]] == g
  }

  /** The groups built from the first k indices; `slots` says which group a root has. */
  ghost predicate Grouped(root: seq<nat>, k: nat, groups: seq<seq<nat>>, slots: map<nat, nat>) {
    && k <= |root|
    && (forall r :: r in slots ==> slots[r] < |groups|)
    && (forall r, q :: r in slots && q in slots && slots[r] == slots[q] ==> r == q)
    && (forall g, a :: 0 <= g < |groups| && a in groups[g] ==> Placed(root, k, slots, g, a))
    && InOrder(groups)
    && (forall a :: 0 <= a < k ==> root[a] in slots && a in groups[slots[root[a]]])
    && multiset(Flatten(groups)) == multiset(Indices(k))
  }

  lemma FlattenNew<T>(groups: seq<seq<T>>, x: T)
    ensures multiset(Flatten(groups + [[x]])) == multiset(Flatten(groups)) + multiset{x}
  {
    FlattenAppend(groups, [[x]]);
    assert Flatten([[x]]) == [x];
  }

  lemma IndicesNext(k: nat)
    ensures multiset(Indices(k + 1)) == multiset(Indices(k)) + multiset{k}
  {
    assert Indices(k + 1) == Indices(k) + [k];
  }

  lemma GroupedNew(root: seq<nat>, k: nat, groups: seq<seq<nat>>, slots: map<nat, nat>)
    requires Grouped(root, k, groups, slots) && k < |root| && root[k] !in slots
    ensures Grouped(root, k + 1, groups + [[k]], slots[root[k] := |groups|])
  {
    hide Flatten, Indices;
    FlattenNew(groups, k);
    IndicesNext(k);
    forall g | 0 <= g < |groups| ensures groups[g][0] < k { assert Placed(root, k, slots, g, groups[g][0]); }
    var next, more := groups + [[k]], slots[root[k] := |groups|];
    forall g, a | 0 <= g < |next| && a in next[g] ensures Placed(root, k + 1, more, g, a) {
      if g < |groups| { assert Placed(root, k, slots, g, a); }
    }
    forall a | 0 <= a < k + 1 ensures root[a] in more && a in next[more[root[a]]] {
      if a < k { assert a in groups[slots[root[a]]]; }
    }
  }

  lemma GroupedMore(root: seq<nat>, k: nat, groups: seq<seq<nat>>, slots: map<nat, nat>)
    requires Grouped(root, k, groups, slots) && k < |root| && root[k] in slots
    ensures var g := slots[root[k]];
      Grouped(root, k + 1, groups[g := groups[g] + [k]], slots)
  {
    hide Flatten, Indices;
    FlattenInsert(groups, slots[root[k]], k);
    IndicesNext(k);
    var own := groups[slots[root[k]]];
    forall i | 0 <= i < |own| ensures own[i] < k { assert Placed(root, k, slots, slots[root[k]], own[i]); }
    assert Ascending(own + [k]);
  }

  lemma GroupedIsGrouping(root: seq<nat>, groups: seq<seq<nat>>, slots: map<nat, nat>, link: (nat, nat) -> bool)
    requires Grouped(root, |root|, groups, slots) && Joined(root, link, |root|, 0) && Explained(root, link)
    ensures IsGrouping(groups, |root|, link)
  {
    hide Joined, Explained, Connected;
    forall g | g in groups ensures g != [] && forall a :: a in g ==> a < |root| {
      var k :| 0 <= k < |groups| && groups[k] == g;
      forall a | a in g ensures a < |root| { assert Placed(root, |root|, slots, k, a); }
    }
    forall g, a, b | g in groups && a in g && 0 <= b < |root| ensures b in g <==> Connected(link, |root|, a, b) {
      var k :| 0 <= k < |groups| && groups[k] == g;
      RootsAreClasses(root, link, a, b);
      assert a in groups[k] && b in groups[slots[root[b]]];
    }
  }

  /** Unions all linked pairs, then lists the indices by root. */
  method GroupLinked(n: nat, link: (nat, nat) -> bool) returns (groups: seq<seq<nat>>)
    ensures IsGrouping(groups, n, link)
  {
    hide Forest, Grouped, Joined, Explained, IsGrouping, Connected;
    var parent := new nat[n](i => i);
    ghost var root, depth := UnionLinked(parent, link);
    groups := [];
    var slots: map<nat, nat> := map[];
    StartsGrouped(root);
    for k := 0 to n
      invariant Forest(parent[..], root, depth) && Grouped(root, k, groups, slots)
    {
      var r := Find(parent, root, depth, k);
      GroupSlot(root, k, groups, slots);
      if r in slots {
        GroupedMore(root, k, groups, slots);
        groups := groups[slots[r] := groups[slots[r]] + [k]];
      } else {
        GroupedNew(root, k, groups, slots);
        slots := slots[r := |groups|];
        groups := groups + [[k]];
      }
    }
    GroupedIsGrouping(root, groups, slots, link);
  }

  lemma ForestSize(parent: seq<nat>, root: seq<nat>, depth: seq<nat>)
    requires Forest(parent, root, depth)
    ensures |root| == |parent|
  {
  }

  lemma GroupSlot(root: seq<nat>, k: nat, groups: seq<seq<nat>>, slots: map<nat, nat>)
    requires Grouped(root, k, groups, slots) && k < |root|
    ensures root[k] in slots ==> slots[root[k]] < |groups|
  {
  }

  lemma StartsGrouped(root: seq<nat>)
    ensures Grouped(root, 0, [], map[])
  {
  }
}
