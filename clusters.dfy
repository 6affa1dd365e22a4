/** The graph half of the cluster post-process of generate_obstacles: the
    adjacency lists of the "nearby" graph and its connected components, found
    by an explicit-stack depth first search. */
module Clusters {
  import opened Geometry
  import opened Placement

  // ---------------------------------------------------------------------------
  // Adjacency

  /** Obstacles i and j are distinct and their centres are closer than NEAR_RADIUS. */
  predicate Adjacent(obs: seq<Obstacle>, i: nat, j: nat)
    requires i < |obs| && j < |obs|
  {
    i != j && Near(obs[i].rect, obs[j].rect)
  }

  /** The neighbours of k among the indices below m, in increasing order. */
  function Nbrs(obs: seq<Obstacle>, k: nat, m: nat): (r: seq<nat>)
    requires k < |obs| && m <= |obs|
    ensures |r| <= m
    decreases m
  {
    if m == 0 then []
    else Nbrs(obs, k, m - 1) + (if Adjacent(obs, k, m - 1) then [m - 1] else [])
  }

  /** Strictly increasing, hence free of repetitions. */
  ghost predicate Increasing(s: seq<nat>) {
    forall i, j :: 0 <= i < j < |s| ==> s[i] < s[j]
  }

  ghost predicate NoDup(s: seq<nat>) {
    forall i, j :: 0 <= i < j < |s| ==> s[i] != s[j]
  }

  /** j is listed as a neighbour of k exactly when it is below m and adjacent
      to k; the list is strictly increasing. */
  lemma NbrsMeaning(obs: seq<Obstacle>, k: nat, m: nat)
    requires k < |obs| && m <= |obs|
    ensures forall j: nat {:trigger j in Nbrs(obs, k, m)} :: j in Nbrs(obs, k, m) <==> j < m && Adjacent(obs, k, j)
    ensures Increasing(Nbrs(obs, k, m))
  {
    NbrsMembers(obs, k, m);
    NbrsIncreasing(obs, k, m);
  }

  /** The membership half of NbrsMeaning. */
  lemma {:induction false} NbrsMembers(obs: seq<Obstacle>, k: nat, m: nat)
    requires k < |obs| && m <= |obs|
    ensures forall j: nat {:trigger j in Nbrs(obs, k, m)} :: j in Nbrs(obs, k, m) <==> j < m && Adjacent(obs, k, j)
    decreases m
  {
    if m > 0 {
      NbrsMembers(obs, k, m - 1);
      var prev := Nbrs(obs, k, m - 1);
      var tail: seq<nat> := if Adjacent(obs, k, m - 1) then [m - 1] else [];
      assert Nbrs(obs, k, m) == prev + tail;
      forall j: nat
        ensures j in prev + tail <==> j < m && Adjacent(obs, k, j)
      {
        assert j in prev + tail <==> j in prev || j in tail;
      }
    }
  }

  /** The ordering half of NbrsMeaning. */
  lemma {:induction false} NbrsIncreasing(obs: seq<Obstacle>, k: nat, m: nat)
    requires k < |obs| && m <= |obs|
    ensures Increasing(Nbrs(obs, k, m))
    decreases m
  {
    if m > 0 {
      NbrsIncreasing(obs, k, m - 1);
      NbrsMembers(obs, k, m - 1);
      var prev := Nbrs(obs, k, m - 1);
      var tail: seq<nat> := if Adjacent(obs, k, m - 1) then [m - 1] else [];
      assert Nbrs(obs, k, m) == prev + tail;
      forall i, j | 0 <= i < j < |prev + tail|
        ensures (prev + tail)[i] < (prev + tail)[j]
      {
        if j >= |prev| {
          assert (prev + tail)[i] in prev;
        }
      }
    }
  }

  /** The adjacency lists every index of the list gets. */
  ghost predicate IsAdjacency(obs: seq<Obstacle>, adj: seq<seq<nat>>) {
    |adj| == |obs| && forall k :: 0 <= k < |adj| ==> adj[k] == Nbrs(obs, k, |obs|)
  }

  /** Every listed neighbour is an index of the graph. */
  ghost predicate WellFormed(adj: seq<seq<nat>>) {
    forall u, v :: 0 <= u < |adj| && v in adj[u] ==> v < |adj|
  }

  ghost predicate Symmetric(adj: seq<seq<nat>>) {
    forall u, v {:trigger v in adj[u]} :: 0 <= u < |adj| && v in adj[u] ==> v < |adj| && u in adj[v]
  }

  /** The adjacency is irreflexive and symmetric, and an edge is exactly a
      pair of distinct obstacles with near centres. */
  lemma AdjacencyMeaning(obs: seq<Obstacle>, adj: seq<seq<nat>>)
    requires IsAdjacency(obs, adj)
    ensures forall i, j :: 0 <= i < |obs| && 0 <= j < |obs| ==>
      (j in adj[i] <==> i != j && Near(obs[i].rect, obs[j].rect))
    ensures forall i :: 0 <= i < |adj| ==> i !in adj[i]
    ensures WellFormed(adj) && Symmetric(adj)
    ensures forall i :: 0 <= i < |adj| ==> Increasing(adj[i])
  {
    forall i | 0 <= i < |obs| {
      NbrsMeaning(obs, i, |obs|);
    }
    forall i, j | 0 <= i < |obs| && 0 <= j < |obs| {
      NearSymmetric(obs[i].rect, obs[j].rect);
    }
  }

  /** build_adj_list: for every pair i < j of near obstacles, j is appended to
      adj[i] and i to adj[j]. */
  method BuildAdjList(obs: seq<Obstacle>) returns (adj: seq<seq<nat>>)
    ensures IsAdjacency(obs, adj)
  {
    var n := |obs|;
    adj := seq(n, _ => []);
    for i := 0 to n
      invariant |adj| == n
      invariant forall k :: 0 <= k < i ==> adj[k] == Nbrs(obs, k, n)
      invariant forall k :: i <= k < n ==> adj[k] == Nbrs(obs, k, i)
    {
      adj := LinkLater(obs, adj, i);
    }
  }

  /** The inner loop of build_adj_list for row i: every later obstacle j
      near obstacle i is appended to adj[i], and i to adj[j]. */
  method LinkLater(obs: seq<Obstacle>, adj0: seq<seq<nat>>, i: nat) returns (adj: seq<seq<nat>>)
    requires |adj0| == |obs| && i < |obs|
    requires adj0[i] == Nbrs(obs, i, i)
    ensures |adj| == |obs|
    ensures forall k :: 0 <= k < i ==> adj[k] == adj0[k]
    ensures adj[i] == Nbrs(obs, i, |obs|)
    ensures forall k :: i < k < |obs| ==> adj[k] == adj0[k] + (if Adjacent(obs, k, i) then [i] else [])
  {
    var n := |obs|;
    adj := adj0;
    assert adj[i] == Nbrs(obs, i, i + 1);
    for j := i + 1 to n
      invariant |adj| == n
      invariant forall k :: 0 <= k < i ==> adj[k] == adj0[k]
      invariant adj[i] == Nbrs(obs, i, j)
      invariant forall k :: i < k < j ==> adj[k] == adj0[k] + (if Adjacent(obs, k, i) then [i] else [])
      invariant forall k :: j <= k < n ==> adj[k] == adj0[k]
    {
      adj := LinkPair(obs, adj, i, j);
    }
  }

  /** One step of that inner loop: when obstacles i and j are near, j joins
      adj[i] and i joins adj[j]; no other list changes. */
  method LinkPair(obs: seq<Obstacle>, adj0: seq<seq<nat>>, i: nat, j: nat) returns (adj: seq<seq<nat>>)
    requires |adj0| == |obs| && i < j < |obs|
    ensures |adj| == |obs|
    ensures forall k :: 0 <= k < |obs| && k != i && k != j ==> adj[k] == adj0[k]
    ensures adj[i] == adj0[i] + (if Adjacent(obs, i, j) then [j] else [])
    ensures adj[j] == adj0[j] + (if Adjacent(obs, j, i) then [i] else [])
  {
    NearSymmetric(obs[i].rect, obs[j].rect);
    adj := adj0;
    if Near(obs[i].rect, obs[j].rect) {
      adj := adj[i := adj[i] + [j]];
      adj := adj[j := adj[j] + [i]];
    }
  }

  // ---------------------------------------------------------------------------
  // Connected components

  /** The components cover 0..n-1, each index exactly once. */
  ghost predicate IsPartition(comps: seq<seq<nat>>, n: nat) {
    && (forall a :: 0 <= a < |comps| ==> |comps[a]| > 0 && NoDup(comps[a]))
    && (forall a, x :: 0 <= a < |comps| && x in comps[a] ==> x < n)
    && Disjoint(comps)
    && (forall k :: 0 <= k < n ==> Covered(comps, k))
  }

  /** No vertex lies in two components. */
  ghost predicate Disjoint(comps: seq<seq<nat>>) {
    forall a, b, x {:trigger x in comps[a], x in comps[b]} :: 0 <= a < b < |comps| && x in comps[a] ==> x !in comps[b]
  }

  ghost predicate Covered(comps: seq<seq<nat>>, k: nat) {
    exists a {:trigger k in comps[a]} :: 0 <= a < |comps| && k in comps[a]
  }

  /** Each neighbour of a member of component a lies in component a or an
      earlier one: what the search guarantees without assuming symmetry. */
  ghost predicate ClosedInPrefix(adj: seq<seq<nat>>, comps: seq<seq<nat>>) {
    forall a, u, v {:trigger u in comps[a], v in adj[u]} ::
      0 <= a < |comps| && u in comps[a] && 0 <= u < |adj| && v in adj[u] ==>
      exists b {:trigger v in comps[b]} :: 0 <= b <= a && v in comps[b]
  }

  /** Each neighbour of a member lies in the same component. */
  ghost predicate Closed(adj: seq<seq<nat>>, comps: seq<seq<nat>>) {
    forall a, u, v {:trigger u in comps[a], v in adj[u]} ::
      0 <= a < |comps| && u in comps[a] && 0 <= u < |adj| && v in adj[u] ==> v in comps[a]
  }

  /** Over a partition, a vertex lies in one component only. */
  lemma PartitionUnique(comps: seq<seq<nat>>, a: nat, b: nat, x: nat)
    requires Disjoint(comps) && a < |comps| && b < |comps|
    requires x in comps[a] && x in comps[b]
    ensures a == b
  {
  }

  /** For a symmetric graph, closure into earlier components is closure into
      the same component. */
  lemma ClosedFromPrefix(adj: seq<seq<nat>>, comps: seq<seq<nat>>)
    requires Symmetric(adj) && IsPartition(comps, |adj|) && ClosedInPrefix(adj, comps)
    ensures Closed(adj, comps)
  {
    forall a, u, v | 0 <= a < |comps| && u in comps[a] && 0 <= u < |adj| && v in adj[u]
      ensures v in comps[a]
    {
      var b := PrefixWitness(adj, comps, a, u, v);
      assert u in adj[v];
      var c := PrefixWitness(adj, comps, b, v, u);
      PartitionUnique(comps, a, c, u);
      assert b == a;
    }
  }

  /** The earlier-or-same component ClosedInPrefix promises for an edge u-v. */
  lemma PrefixWitness(adj: seq<seq<nat>>, comps: seq<seq<nat>>, a: nat, u: nat, v: nat) returns (b: nat)
    requires ClosedInPrefix(adj, comps)
    requires a < |comps| && u in comps[a] && u < |adj| && v in adj[u]
    ensures b <= a && v in comps[b]
  {
    b :| 0 <= b <= a && v in comps[b];
  }

  lemma NoDupConcat(a: seq<nat>, b: seq<nat>)
    requires NoDup(a) && NoDup(b) && forall x :: x in a ==> x !in b
    ensures NoDup(a + b)
  {
    forall i, j | 0 <= i < j < |a + b|
      ensures (a + b)[i] != (a + b)[j]
    {
      if j >= |a| && i < |a| {
        assert (a + b)[i] in a && (a + b)[j] in b;
      }
    }
  }

  /** p is a path of the graph: each entry is a neighbour of the one before. */
  ghost predicate IsPath(adj: seq<seq<nat>>, p: seq<nat>) {
    |p| > 0 && forall t :: 0 <= t < |p| - 1 ==> p[t] < |adj| && p[t + 1] in adj[p[t]]
  }

  ghost predicate Reaches(adj: seq<seq<nat>>, x: nat, y: nat) {
    exists p :: IsPath(adj, p) && p[0] == x && p[|p| - 1] == y
  }

  lemma ReachesSelf(adj: seq<seq<nat>>, x: nat)
    ensures Reaches(adj, x, x)
  {
    assert IsPath(adj, [x]);
  }

  lemma ReachesStep(adj: seq<seq<nat>>, x: nat, u: nat, v: nat)
    requires Reaches(adj, x, u) && u < |adj| && v in adj[u]
    ensures Reaches(adj, x, v)
  {
    var p :| IsPath(adj, p) && p[0] == x && p[|p| - 1] == u;
    var q := p + [v];
    assert forall t :: 0 <= t < |p| ==> q[t] == p[t];
    assert IsPath(adj, q);
  }

  ghost predicate AllReached(adj: seq<seq<nat>>, i: nat, s: seq<nat>) {
    forall x :: x in s ==> Reaches(adj, i, x)
  }

  /** One step of the search keeps every collected and every stacked index
      reachable from the start: u was popped from the stack and its
      neighbours pushed. */
  lemma ReachedAfterStep(adj: seq<seq<nat>>, i: nat, oldStack: seq<nat>, oldComp: seq<nat>, u: nat,
                         before: seq<nat>, pushed: seq<nat>)
    requires AllReached(adj, i, oldComp) && AllReached(adj, i, oldStack)
    requires oldStack == before + [u] && u < |adj|
    requires forall x :: x in pushed ==> x in adj[u]
    ensures AllReached(adj, i, oldComp + [u]) && AllReached(adj, i, before + pushed)
  {
    assert u in oldStack;
    forall x | x in before + pushed ensures Reaches(adj, i, x) {
      if x in pushed {
        ReachesStep(adj, i, u, x);
      } else {
        assert x in oldStack;
      }
    }
  }

  /** Every member of the component is reachable from its first member. */
  ghost predicate Connected(adj: seq<seq<nat>>, comp: seq<nat>) {
    |comp| > 0 && forall x :: x in comp ==> Reaches(adj, comp[0], x)
  }

  /** The indices not yet visited. */
  ghost function Unvisited(visited: seq<bool>): set<nat> {
    set k | 0 <= k < |visited| && !visited[k]
  }

  /** The inner loop of the search: every neighbour of u that is not yet
      visited is marked visited and pushed, in the order of adj[u]. */
  method PushUnvisited(adj: seq<seq<nat>>, u: nat, visited0: seq<bool>, stack0: seq<nat>)
    returns (visited: seq<bool>, stack: seq<nat>)
    requires WellFormed(adj) && u < |adj| && |visited0| == |adj|
    ensures |visited| == |adj|
    ensures forall k :: 0 <= k < |adj| ==> (visited[k] <==> visited0[k] || k in adj[u])
    ensures stack0 <= stack
    ensures forall x :: x in stack[|stack0|..] ==> x < |adj| && !visited0[x] && visited[x] && x in adj[u]
    ensures forall k :: 0 <= k < |adj| && !visited0[k] && visited[k] ==> k in stack[|stack0|..]
    ensures NoDup(stack[|stack0|..])
    ensures Unvisited(visited) <= Unvisited(visited0)
    ensures |Unvisited(visited)| + |stack| == |Unvisited(visited0)| + |stack0|
  {
    var n := |adj|;
    visited, stack := visited0, stack0;
    for t := 0 to |adj[u]|
      invariant |visited| == n
      invariant stack0 <= stack
      invariant forall k :: 0 <= k < n ==> (visited[k] <==> visited0[k] || k in adj[u][..t])
      invariant forall x :: x in stack[|stack0|..] ==> x < n && !visited0[x] && visited[x] && x in adj[u]
      invariant forall k :: 0 <= k < n && !visited0[k] && visited[k] ==> k in stack[|stack0|..]
      invariant NoDup(stack[|stack0|..])
      invariant Unvisited(visited) <= Unvisited(visited0)
      invariant |Unvisited(visited)| + |stack| == |Unvisited(visited0)| + |stack0|
    {
      var v := adj[u][t];
      assert v in adj[u];
      assert adj[u][..t + 1] == adj[u][..t] + [v];
      if !visited[v] {
        assert Unvisited(visited[v := true]) == Unvisited(visited) - {v};
        assert (stack + [v])[|stack0|..] == stack[|stack0|..] + [v];
        visited := visited[v := true];
        stack := stack + [v];
      }
    }
    assert adj[u][..|adj[u]|] == adj[u];
  }

  /** The search invariant, part 1: visited marks exactly what was visited
      before, what is collected and what is stacked; those are new indices. */
  ghost predicate VisitInv(adj: seq<seq<nat>>, visited0: seq<bool>, visited: seq<bool>, comp: seq<nat>, stack: seq<nat>) {
    && |visited0| == |adj| && |visited| == |adj|
    && (forall k :: 0 <= k < |adj| ==> (visited[k] <==> visited0[k] || k in comp || k in stack))
    && (forall x :: x in comp ==> x < |adj| && !visited0[x])
    && (forall x :: x in stack ==> x < |adj| && !visited0[x])
  }

  /** The search invariant, part 2: no index is collected or stacked twice. */
  ghost predicate DupInv(comp: seq<nat>, stack: seq<nat>) {
    NoDup(comp) && NoDup(stack) && forall x :: x in stack ==> x !in comp
  }

  /** The search invariant, part 3: the start is collected first, every
      neighbour of a collected index is visited, and everything collected or
      stacked is reachable from the start. */
  ghost predicate ShapeInv(adj: seq<seq<nat>>, i: nat, visited: seq<bool>, comp: seq<nat>, stack: seq<nat>) {
    && |visited| == |adj|
    && (i in comp || i in stack)
    && ((comp == [] && stack == [i]) || (|comp| > 0 && comp[0] == i))
    && (forall u, v :: u in comp && u < |adj| && v in adj[u] ==> v < |adj| && visited[v])
    && AllReached(adj, i, comp) && AllReached(adj, i, stack)
  }

  /** What PushUnvisited promises about the indices it marks and pushes. */
  ghost predicate Pushed(adj: seq<seq<nat>>, u: nat, visitedBefore: seq<bool>, visited: seq<bool>, pushed: seq<nat>) {
    && u < |adj| && |visitedBefore| == |adj| && |visited| == |adj|
    && (forall k :: 0 <= k < |adj| ==> (visited[k] <==> visitedBefore[k] || k in adj[u]))
    && (forall x :: x in pushed ==> x < |adj| && !visitedBefore[x] && visited[x] && x in adj[u])
    && (forall k :: 0 <= k < |adj| && !visitedBefore[k] && visited[k] ==> k in pushed)
    && NoDup(pushed)
  }

  lemma VisitStep(adj: seq<seq<nat>>, visited0: seq<bool>, visited: seq<bool>, comp: seq<nat>,
                  before: seq<nat>, u: nat, visited1: seq<bool>, pushed: seq<nat>)
    requires VisitInv(adj, visited0, visited, comp, before + [u])
    requires Pushed(adj, u, visited, visited1, pushed)
    ensures VisitInv(adj, visited0, visited1, comp + [u], before + pushed)
  {
    assert forall x :: x in before + [u] <==> x in before || x == u;
    assert forall x :: x in before + pushed <==> x in before || x in pushed;
    assert forall x :: x in comp + [u] <==> x in comp || x == u;
  }

  lemma DupStep(adj: seq<seq<nat>>, visited0: seq<bool>, visited: seq<bool>, comp: seq<nat>,
                before: seq<nat>, u: nat, visited1: seq<bool>, pushed: seq<nat>)
    requires VisitInv(adj, visited0, visited, comp, before + [u]) && DupInv(comp, before + [u])
    requires Pushed(adj, u, visited, visited1, pushed)
    ensures DupInv(comp + [u], before + pushed)
  {
    var oldStack := before + [u];
    assert u in oldStack && u !in comp;
    forall t | 0 <= t < |before| ensures before[t] != u {
      assert oldStack[t] == before[t] && oldStack[|before|] == u;
    }
    assert NoDup(before) by {
      forall a, b | 0 <= a < b < |before| ensures before[a] != before[b] {
        assert oldStack[a] == before[a] && oldStack[b] == before[b];
      }
    }
    forall x | x in before ensures x < |visited| && visited[x] && x !in comp {
      assert x in oldStack;
    }
    NoDupConcat(comp, [u]);
    NoDupConcat(before, pushed);
    assert forall x :: x in comp + [u] <==> x in comp || x == u;
    forall x | x in before + pushed ensures x !in comp + [u] {
      if x in pushed {
        assert !visited[x];
        assert visited[u];
        assert forall c :: c in comp ==> visited[c];
      } else {
        assert x in before;
      }
    }
  }

  lemma ShapeStep(adj: seq<seq<nat>>, i: nat, visited0: seq<bool>, visited: seq<bool>, comp: seq<nat>,
                  before: seq<nat>, u: nat, visited1: seq<bool>, pushed: seq<nat>)
    requires WellFormed(adj) && ShapeInv(adj, i, visited, comp, before + [u])
    requires Pushed(adj, u, visited, visited1, pushed)
    ensures ShapeInv(adj, i, visited1, comp + [u], before + pushed)
  {
    assert forall x :: x in before + [u] <==> x in before || x == u;
    assert forall x :: x in before + pushed <==> x in before || x in pushed;
    assert forall x :: x in comp + [u] <==> x in comp || x == u;
    if comp == [] {
      assert before + [u] == [i];
      assert [u][0] == u;
    } else {
      assert (comp + [u])[0] == comp[0];
    }
    ReachedAfterStep(adj, i, before + [u], comp, u, before, pushed);
  }

  /** The body of connected_components for one unvisited index i: a depth
      first search with an explicit stack that marks and collects everything
      reachable from i that was not visited before. */
  method ExploreFrom(adj: seq<seq<nat>>, visited0: seq<bool>, i: nat) returns (comp: seq<nat>, visited: seq<bool>)
    requires WellFormed(adj) && |visited0| == |adj| && i < |adj| && !visited0[i]
    ensures |visited| == |adj|
    ensures forall k :: 0 <= k < |adj| ==> (visited[k] <==> visited0[k] || k in comp)
    ensures forall x :: x in comp ==> x < |adj| && !visited0[x]
    ensures NoDup(comp) && i in comp
    ensures forall u, v :: u in comp && u < |adj| && v in adj[u] ==> visited[v]
    ensures comp[0] == i && Connected(adj, comp)
  {
    var stack: seq<nat> := [i];
    comp := [];
    visited := visited0[i := true];
    ReachesSelf(adj, i);
    while stack != []
      invariant VisitInv(adj, visited0, visited, comp, stack)
      invariant DupInv(comp, stack)
      invariant ShapeInv(adj, i, visited, comp, stack)
      decreases |Unvisited(visited)| + |stack|
    {
      var u := stack[|stack| - 1];
      ghost var oldComp, oldVisited, oldStack := comp, visited, stack;
      stack := stack[..|stack| - 1];
      assert stack + [u] == oldStack && u in oldStack;
      comp := comp + [u];
      ghost var before := stack;
      visited, stack := PushUnvisited(adj, u, visited, stack);
      ghost var pushed := stack[|before|..];
      assert stack == before + pushed;
      VisitStep(adj, visited0, oldVisited, oldComp, before, u, visited, pushed);
      DupStep(adj, visited0, oldVisited, oldComp, before, u, visited, pushed);
      ShapeStep(adj, i, visited0, oldVisited, oldComp, before, u, visited, pushed);
    }
  }

  /** connected_components: every index not yet visited starts a new
      component, found by ExploreFrom. */
  method ConnectedComponents(adj: seq<seq<nat>>) returns (comps: seq<seq<nat>>)
    requires WellFormed(adj)
    ensures IsPartition(comps, |adj|)
    ensures ClosedInPrefix(adj, comps)
    ensures forall a :: 0 <= a < |comps| ==> Connected(adj, comps[a])
  {
    var n := |adj|;
    var visited := seq(n, _ => false);
    // owner[k] is the index of the component holding k, or -1 while k is unvisited
    ghost var owner: seq<int> := seq(n, _ => -1);
    comps := [];
    for i := 0 to n
      invariant |visited| == n && |owner| == n
      invariant forall k :: 0 <= k < n ==> (visited[k] <==> 0 <= owner[k])
      invariant forall k :: 0 <= k < n ==> owner[k] < |comps|
      invariant forall k :: 0 <= k < i ==> visited[k]
      invariant forall k :: 0 <= k < n && 0 <= owner[k] ==> k in comps[owner[k]]
      invariant forall a, x {:trigger x in comps[a]} :: 0 <= a < |comps| && x in comps[a] ==> x < n && owner[x] == a
      invariant forall a :: 0 <= a < |comps| ==> |comps[a]| > 0 && NoDup(comps[a]) && Connected(adj, comps[a])
      invariant forall a, u, v {:trigger u in comps[a], v in adj[u]} ::
        0 <= a < |comps| && u in comps[a] && u < n && v in adj[u] ==> 0 <= owner[v] <= a
    {
      if !visited[i] {
        var c := |comps|;
        var comp;
        ghost var visited0, owner0, comps0 := visited, owner, comps;
        comp, visited := ExploreFrom(adj, visited, i);
        owner := seq(n, k requires 0 <= k < n => if k in comp then c else owner0[k]);
        assert forall a, x {:trigger x in comps0[a]} :: 0 <= a < c && x in comps0[a] ==> x < n && x !in comp && owner[x] == a;
        comps := comps + [comp];
        assert forall a :: 0 <= a < c ==> comps[a] == comps0[a];
        assert comps[c] == comp;
      }
    }
    forall k | 0 <= k < n
      ensures Covered(comps, k)
    {
      assert k in comps[owner[k]];
    }
    forall a, u, v | 0 <= a < |comps| && u in comps[a] && 0 <= u < n && v in adj[u]
      ensures exists b :: 0 <= b <= a && v in comps[b]
    {
      assert v in comps[owner[v]];
    }
  }

  lemma ReachesSymmetric(adj: seq<seq<nat>>, x: nat, y: nat)
    requires Symmetric(adj) && Reaches(adj, x, y)
    ensures Reaches(adj, y, x)
  {
    var p :| IsPath(adj, p) && p[0] == x && p[|p| - 1] == y;
    var m := |p|;
    var q := seq(m, t requires 0 <= t < m => p[m - 1 - t]);
    forall t | 0 <= t < m - 1 ensures q[t] < |adj| && q[t + 1] in adj[q[t]] {
      assert p[m - 2 - t] < |adj| && p[m - 1 - t] in adj[p[m - 2 - t]];
    }
    assert IsPath(adj, q) && q[0] == y && q[m - 1] == x;
  }

  lemma ReachesTrans(adj: seq<seq<nat>>, x: nat, y: nat, z: nat)
    requires Reaches(adj, x, y) && Reaches(adj, y, z)
    ensures Reaches(adj, x, z)
  {
    var p :| IsPath(adj, p) && p[0] == x && p[|p| - 1] == y;
    var q :| IsPath(adj, q) && q[0] == y && q[|q| - 1] == z;
    var r := p + q[1..];
    forall t | 0 <= t < |r| - 1 ensures r[t] < |adj| && r[t + 1] in adj[r[t]] {
      if t < |p| - 1 {
        assert r[t] == p[t] && r[t + 1] == p[t + 1];
      } else {
        assert r[t] == q[t - |p| + 1] && r[t + 1] == q[t - |p| + 2];
      }
    }
    assert IsPath(adj, r);
  }

  /** A path that starts in a closed component never leaves it. */
  lemma {:induction false} PathStaysInComponent(adj: seq<seq<nat>>, comps: seq<seq<nat>>, a: nat, p: seq<nat>)
    requires Closed(adj, comps) && a < |comps| && IsPath(adj, p) && p[0] in comps[a]
    ensures p[|p| - 1] in comps[a]
    decreases |p|
  {
    if |p| > 1 {
      var front := p[..|p| - 1];
      assert IsPath(adj, front);
      PathStaysInComponent(adj, comps, a, front);
      assert p[|p| - 2] in comps[a] && p[|p| - 1] in adj[p[|p| - 2]];
    }
  }

  /** Over a symmetric graph, closed and connected components are exactly the
      connected components: an index shares x's component exactly when x
      reaches it. */
  lemma ComponentsAreReachability(adj: seq<seq<nat>>, comps: seq<seq<nat>>, a: nat, x: nat, y: nat)
    requires Symmetric(adj) && Closed(adj, comps)
    requires forall b :: 0 <= b < |comps| ==> Connected(adj, comps[b])
    requires a < |comps| && x in comps[a]
    ensures y in comps[a] <==> Reaches(adj, x, y)
  {
    var root := comps[a][0];
    if y in comps[a] {
      ReachesSymmetric(adj, root, x);
      ReachesTrans(adj, x, root, y);
    }
    if Reaches(adj, x, y) {
      var p :| IsPath(adj, p) && p[0] == x && p[|p| - 1] == y;
      PathStaysInComponent(adj, comps, a, p);
    }
  }
}
