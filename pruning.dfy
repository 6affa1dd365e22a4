/** The pruning step of generate_obstacles: in every component larger than
    MAX_NEARBY_OBSTACLES the highest-degree members are marked, and the
    marked obstacles are filtered out of the list in order. */
module Pruning {
  import opened Geometry
  import opened Placement
  import opened Clusters

  // ---------------------------------------------------------------------------
  // sorted(comp, key=lambda idx: len(adj[idx]), reverse=True)

  /** The set of elements of a list. */
  function Elems(s: seq<nat>): set<nat> {
    set x | x in s
  }

  /** len(adj[x]), the number of neighbours of obstacle x (0 off the graph). */
  function Degree(adj: seq<seq<nat>>, x: nat): nat {
    if x < |adj| then |adj[x]| else 0
  }

  /** Non-increasing by degree. */
  ghost predicate DescByDegree(adj: seq<seq<nat>>, s: seq<nat>) {
    forall i, j :: 0 <= i < j < |s| ==> Degree(adj, s[i]) >= Degree(adj, s[j])
  }

  /** Inserts x into a list ordered by decreasing degree, in front of the
      first element whose degree does not exceed its own. */
  function InsertByDegree(adj: seq<seq<nat>>, x: nat, s: seq<nat>): (r: seq<nat>)
    ensures multiset(r) == multiset(s) + multiset{x}
  {
    if s == [] then [x]
    else if Degree(adj, x) >= Degree(adj, s[0]) then [x] + s
    else
      assert s == [s[0]] + s[1..];
      [s[0]] + InsertByDegree(adj, x, s[1..])
  }

  /** Insertion into a list ordered by decreasing degree keeps it ordered. */
  lemma {:induction false} InsertKeepsOrder(adj: seq<seq<nat>>, x: nat, s: seq<nat>)
    requires DescByDegree(adj, s)
    ensures DescByDegree(adj, InsertByDegree(adj, x, s))
    decreases |s|
  {
    if s == [] {
    } else if Degree(adj, x) >= Degree(adj, s[0]) {
      forall k | 0 <= k < |s| ensures Degree(adj, s[k]) <= Degree(adj, x) {
        if k > 0 {
          assert Degree(adj, s[0]) >= Degree(adj, s[k]);
        }
      }
      DescCons(adj, x, s);
    } else {
      DescTail(adj, s);
      InsertKeepsOrder(adj, x, s[1..]);
      InsertStep(adj, x, s, InsertByDegree(adj, x, s[1..]));
    }
  }

  /** The tail of an ordered list is ordered. */
  lemma DescTail(adj: seq<seq<nat>>, s: seq<nat>)
    requires DescByDegree(adj, s) && s != []
    ensures DescByDegree(adj, s[1..])
  {
    forall i, j | 0 <= i < j < |s| - 1 ensures Degree(adj, s[1..][i]) >= Degree(adj, s[1..][j]) {
      assert s[1..][i] == s[i + 1] && s[1..][j] == s[j + 1];
    }
  }

  /** The recursive case of InsertByDegree keeps the order: every element of
      rest is s[1..]'s or x, each of degree at most s[0]'s. */
  lemma InsertStep(adj: seq<seq<nat>>, x: nat, s: seq<nat>, rest: seq<nat>)
    requires s != [] && Degree(adj, x) < Degree(adj, s[0])
    requires multiset(rest) == multiset(s[1..]) + multiset{x}
    requires DescByDegree(adj, s) && DescByDegree(adj, rest)
    ensures DescByDegree(adj, [s[0]] + rest)
  {
    var d := Degree(adj, s[0]);
    forall k | 0 <= k < |s[1..] + [x]| ensures Degree(adj, (s[1..] + [x])[k]) <= d {
      if k < |s| - 1 {
        assert (s[1..] + [x])[k] == s[k + 1];
      }
    }
    assert multiset(rest) == multiset(s[1..] + [x]);
    AtMostPermutation(adj, d, s[1..] + [x], rest);
    DescCons(adj, s[0], rest);
  }

  /** No element has degree above d. */
  ghost predicate AtMost(adj: seq<seq<nat>>, d: nat, s: seq<nat>) {
    forall k :: 0 <= k < |s| ==> Degree(adj, s[k]) <= d
  }

  /** A permutation keeps the degree bound. */
  lemma AtMostPermutation(adj: seq<seq<nat>>, d: nat, s: seq<nat>, r: seq<nat>)
    requires AtMost(adj, d, s) && multiset(r) == multiset(s)
    ensures AtMost(adj, d, r)
  {
    forall k | 0 <= k < |r| ensures Degree(adj, r[k]) <= d {
      assert r[k] in multiset(s);
      var t :| 0 <= t < |s| && s[t] == r[k];
    }
  }

  /** An element of at least every degree in an ordered list may go in front. */
  lemma DescCons(adj: seq<seq<nat>>, y: nat, r: seq<nat>)
    requires DescByDegree(adj, r) && AtMost(adj, Degree(adj, y), r)
    ensures DescByDegree(adj, [y] + r)
  {
    var q := [y] + r;
    forall i, j | 0 <= i < j < |q| ensures Degree(adj, q[i]) >= Degree(adj, q[j]) {
      assert q[j] == r[j - 1];
      if i > 0 {
        assert q[i] == r[i - 1];
      }
    }
  }

  /** Python's stable sort by decreasing degree: elements of equal degree keep
      their order in s. */
  function SortByDegree(adj: seq<seq<nat>>, s: seq<nat>): (r: seq<nat>)
    ensures multiset(r) == multiset(s) && |r| == |s|
  {
    if s == [] then []
    else
      assert s == [s[0]] + s[1..];
      InsertByDegree(adj, s[0], SortByDegree(adj, s[1..]))
  }

  /** The sorted list is ordered by decreasing degree. */
  lemma {:induction false} SortedByDegree(adj: seq<seq<nat>>, s: seq<nat>)
    ensures DescByDegree(adj, SortByDegree(adj, s))
    decreases |s|
  {
    if s != [] {
      SortedByDegree(adj, s[1..]);
      InsertKeepsOrder(adj, s[0], SortByDegree(adj, s[1..]));
    }
  }

  /** The members of s whose degree is d, in their order in s. */
  function WithDegree(adj: seq<seq<nat>>, s: seq<nat>, d: nat): seq<nat>
    decreases |s|
  {
    if s == [] then []
    else (if Degree(adj, s[0]) == d then [s[0]] else []) + WithDegree(adj, s[1..], d)
  }

  /** Selecting by degree distributes over concatenation. */
  lemma {:induction false} WithDegreeConcat(adj: seq<seq<nat>>, a: seq<nat>, b: seq<nat>, d: nat)
    ensures WithDegree(adj, a + b, d) == WithDegree(adj, a, d) + WithDegree(adj, b, d)
    decreases |a|
  {
    if a == [] {
      assert a + b == b;
    } else {
      assert (a + b)[0] == a[0] && (a + b)[1..] == a[1..] + b;
      WithDegreeConcat(adj, a[1..], b, d);
    }
  }

  /** Insertion places x ahead of every element of its own degree and behind
      only elements of larger degree. */
  lemma {:induction false} InsertWithDegree(adj: seq<seq<nat>>, x: nat, s: seq<nat>, d: nat)
    ensures WithDegree(adj, InsertByDegree(adj, x, s), d) == WithDegree(adj, [x] + s, d)
    decreases |s|
  {
    if s != [] && Degree(adj, x) < Degree(adj, s[0]) {
      var rest := InsertByDegree(adj, x, s[1..]);
      InsertWithDegree(adj, x, s[1..], d);
      WithDegreeConcat(adj, [s[0]], rest, d);
      WithDegreeConcat(adj, [x], s[1..], d);
      WithDegreeConcat(adj, [s[0]], s[1..], d);
      WithDegreeConcat(adj, [x], s, d);
      assert [s[0]] + s[1..] == s;
    }
  }

  /** The sort is stable: for every degree, the members of that degree appear
      in the sorted list in the order they have in s. */
  lemma {:induction false} SortStable(adj: seq<seq<nat>>, s: seq<nat>, d: nat)
    ensures WithDegree(adj, SortByDegree(adj, s), d) == WithDegree(adj, s, d)
    decreases |s|
  {
    if s != [] {
      var rest := SortByDegree(adj, s[1..]);
      calc {
        WithDegree(adj, SortByDegree(adj, s), d);
        WithDegree(adj, InsertByDegree(adj, s[0], rest), d);
        { InsertWithDegree(adj, s[0], rest, d); }
        WithDegree(adj, [s[0]] + rest, d);
        { WithDegreeConcat(adj, [s[0]], rest, d); }
        WithDegree(adj, [s[0]], d) + WithDegree(adj, rest, d);
        { SortStable(adj, s[1..], d); }
        WithDegree(adj, [s[0]], d) + WithDegree(adj, s[1..], d);
        { WithDegreeConcat(adj, [s[0]], s[1..], d); assert [s[0]] + s[1..] == s; }
        WithDegree(adj, s, d);
      }
    }
  }

  // ---------------------------------------------------------------------------
  // Marking

  /** The members of one component marked for removal: the first
      len(comp) - MAX_NEARBY_OBSTACLES of the sorted component. */
  function Marked(adj: seq<seq<nat>>, comp: seq<nat>): (marked: set<nat>)
    ensures marked <= Elems(comp)
    ensures |comp| <= MAX_NEARBY_OBSTACLES ==> marked == {}
  {
    if |comp| > MAX_NEARBY_OBSTACLES then
      var sorted := SortByDegree(adj, comp);
      ElemsOfPermutation(comp, sorted);
      assert Elems(sorted[..|comp| - MAX_NEARBY_OBSTACLES]) <= Elems(sorted);
      Elems(sorted[..|comp| - MAX_NEARBY_OBSTACLES])
    else {}
  }

  /** to_remove_indices after the loop over the components. */
  function MarkedAll(adj: seq<seq<nat>>, comps: seq<seq<nat>>): (marked: set<nat>)
    ensures forall x :: x in marked ==> exists a :: 0 <= a < |comps| && x in comps[a]
  {
    if comps == [] then {}
    else
      var front := comps[..|comps| - 1];
      var rest := MarkedAll(adj, front);
      assert forall a :: 0 <= a < |front| ==> front[a] == comps[a];
      rest + Marked(adj, comps[|comps| - 1])
  }

  /** The loop over the components that collects to_remove_indices. */
  method MarkForRemoval(adj: seq<seq<nat>>, comps: seq<seq<nat>>) returns (toRemove: set<nat>)
    ensures toRemove == MarkedAll(adj, comps)
  {
    toRemove := {};
    for a := 0 to |comps|
      invariant toRemove == MarkedAll(adj, comps[..a])
    {
      MarkedAllStep(adj, comps, a);
      toRemove := MarkComponent(adj, comps[a], toRemove);
    }
    assert comps[..|comps|] == comps;
  }

  /** One pass of that loop: the marks of one component join the set. */
  method MarkComponent(adj: seq<seq<nat>>, comp: seq<nat>, toRemove0: set<nat>) returns (toRemove: set<nat>)
    ensures toRemove == toRemove0 + Marked(adj, comp)
  {
    toRemove := toRemove0;
    if |comp| > MAX_NEARBY_OBSTACLES {
      var compSorted := SortByDegree(adj, comp);
      var removeNeeded := |comp| - MAX_NEARBY_OBSTACLES;
      for t := 0 to removeNeeded
        invariant toRemove == toRemove0 + Elems(compSorted[..t])
      {
        assert compSorted[..t + 1] == compSorted[..t] + [compSorted[t]];
        toRemove := toRemove + {compSorted[t]};
      }
    }
  }

  lemma {:induction false} NoDupSetSize(s: seq<nat>)
    requires NoDup(s)
    ensures |Elems(s)| == |s|
    decreases |s|
  {
    if s != [] {
      var t := s[..|s| - 1];
      NoDupSetSize(t);
      assert Elems(s) == Elems(t) + {s[|s| - 1]};
      assert s[|s| - 1] !in t;
    }
  }

  lemma NoDupMultiset(s: seq<nat>, r: seq<nat>)
    requires NoDup(s) && multiset(r) == multiset(s)
    ensures NoDup(r)
  {
    forall i, j | 0 <= i < j < |r| ensures r[i] != r[j] {
      if r[i] == r[j] {
        assert multiset(r[..j])[r[i]] >= 1 by { assert r[i] in r[..j]; }
        assert r == r[..j] + r[j..];
        assert multiset(r)[r[i]] >= 2 by {
          assert multiset(r) == multiset(r[..j]) + multiset(r[j..]);
          assert r[j] in r[j..];
        }
        SingleOccurrence(s, r[i]);
        assert false;
      }
    }
  }

  lemma {:induction false} SingleOccurrence(s: seq<nat>, x: nat)
    requires NoDup(s)
    ensures multiset(s)[x] <= 1
    decreases |s|
  {
    if s != [] {
      var t := s[..|s| - 1];
      assert s == t + [s[|s| - 1]];
      SingleOccurrence(t, x);
      if x == s[|s| - 1] {
        assert x !in t;
        assert x !in multiset(t);
      }
    }
  }

  lemma ElemsOfPermutation(s: seq<nat>, r: seq<nat>)
    requires multiset(r) == multiset(s)
    ensures Elems(r) == Elems(s)
  {
    forall x ensures x in Elems(r) <==> x in Elems(s) {
      assert x in r <==> x in multiset(r);
      assert x in s <==> x in multiset(s);
    }
  }

  /** MarkedAll over one more component adds that component's marks. */
  lemma MarkedAllStep(adj: seq<seq<nat>>, comps: seq<seq<nat>>, m: nat)
    requires m < |comps|
    ensures MarkedAll(adj, comps[..m + 1]) == MarkedAll(adj, comps[..m]) + Marked(adj, comps[m])
  {
    assert comps[..m + 1][..m] == comps[..m];
  }

  /** A large component loses exactly len(comp) - MAX_NEARBY_OBSTACLES of its
      own members. */
  lemma MarkedSize(adj: seq<seq<nat>>, comp: seq<nat>)
    requires NoDup(comp) && |comp| > MAX_NEARBY_OBSTACLES
    ensures Marked(adj, comp) <= Elems(comp)
    ensures |Marked(adj, comp)| == |comp| - MAX_NEARBY_OBSTACLES
  {
    var sorted := SortByDegree(adj, comp);
    var prefix := sorted[..|comp| - MAX_NEARBY_OBSTACLES];
    NoDupMultiset(comp, sorted);
    ElemsOfPermutation(comp, sorted);
    assert NoDup(prefix);
    NoDupSetSize(prefix);
  }

  /** Every marked member has at least the degree of every unmarked member. */
  lemma MarkedHeaviest(adj: seq<seq<nat>>, comp: seq<nat>, x: nat, y: nat)
    requires x in Marked(adj, comp) && y in comp && y !in Marked(adj, comp)
    ensures Degree(adj, x) >= Degree(adj, y)
  {
    var sorted := SortByDegree(adj, comp);
    var k := |comp| - MAX_NEARBY_OBSTACLES;
    var prefix := sorted[..k];
    var i :| 0 <= i < k && prefix[i] == x;
    assert y in multiset(comp);
    assert y in multiset(sorted);
    var j :| 0 <= j < |sorted| && sorted[j] == y;
    assert j >= k;
    assert sorted[i] == x;
    SortedByDegree(adj, comp);
  }

  /** For a component without repetitions: exactly len(comp) - MAX members are
      marked when it is too large and none otherwise, all marked members
      belong to it, at most MAX_NEARBY_OBSTACLES members stay, and every
      marked member has at least the degree of every member that stays. */
  lemma MarkedMeaning(adj: seq<seq<nat>>, comp: seq<nat>)
    requires NoDup(comp)
    ensures Marked(adj, comp) <= Elems(comp)
    ensures |comp| > MAX_NEARBY_OBSTACLES ==> |Marked(adj, comp)| == |comp| - MAX_NEARBY_OBSTACLES
    ensures |comp| <= MAX_NEARBY_OBSTACLES ==> Marked(adj, comp) == {}
    ensures forall x, y :: x in Marked(adj, comp) && y in comp && y !in Marked(adj, comp) ==> Degree(adj, x) >= Degree(adj, y)
    ensures |Elems(comp) - Marked(adj, comp)| == Min(|comp|, MAX_NEARBY_OBSTACLES)
  {
    NoDupSetSize(comp);
    if |comp| > MAX_NEARBY_OBSTACLES {
      MarkedSize(adj, comp);
    }
    forall x, y | x in Marked(adj, comp) && y in comp && y !in Marked(adj, comp)
      ensures Degree(adj, x) >= Degree(adj, y)
    {
      MarkedHeaviest(adj, comp, x, y);
    }
  }

  /** Over a partition, the marks among the first m components that fall into
      component a are the marks chosen for a when a is one of them, and none
      otherwise. */
  lemma {:induction false} MarkedPrefixWithin(adj: seq<seq<nat>>, comps: seq<seq<nat>>, m: nat, a: nat)
    requires Disjoint(comps) && m <= |comps| && a < |comps|
    ensures MarkedAll(adj, comps[..m]) * (Elems(comps[a])) == (if a < m then Marked(adj, comps[a]) else {})
    decreases m
  {
    if m > 0 {
      MarkedPrefixWithin(adj, comps, m - 1, a);
      if m - 1 != a {
        PrefixStepOther(adj, comps, m, a);
      } else {
        PrefixStepSame(adj, comps, m, a);
      }
    } else {
      assert comps[..0] == [];
    }
  }

  /** The induction step of MarkedPrefixWithin for a component other than a. */
  lemma PrefixStepOther(adj: seq<seq<nat>>, comps: seq<seq<nat>>, m: nat, a: nat)
    requires Disjoint(comps) && 0 < m <= |comps| && a < |comps| && m - 1 != a
    requires MarkedAll(adj, comps[..m - 1]) * Elems(comps[a]) == (if a < m - 1 then Marked(adj, comps[a]) else {})
    ensures MarkedAll(adj, comps[..m]) * Elems(comps[a]) == (if a < m then Marked(adj, comps[a]) else {})
  {
    var front, marks, here := MarkedAll(adj, comps[..m - 1]), Marked(adj, comps[m - 1]), Elems(comps[a]);
    MarkedAllStep(adj, comps, m - 1);
    MarkedOutside(adj, comps, m - 1, a);
    DistributeMeet(front, marks, here);
  }

  /** The induction step of MarkedPrefixWithin for component a itself. */
  lemma PrefixStepSame(adj: seq<seq<nat>>, comps: seq<seq<nat>>, m: nat, a: nat)
    requires 0 < m <= |comps| && a == m - 1
    requires MarkedAll(adj, comps[..m - 1]) * Elems(comps[a]) == {}
    ensures MarkedAll(adj, comps[..m]) * Elems(comps[a]) == Marked(adj, comps[a])
  {
    var front, marks, here := MarkedAll(adj, comps[..m - 1]), Marked(adj, comps[a]), Elems(comps[a]);
    MarkedAllStep(adj, comps, m - 1);
    DistributeMeet(front, marks, here);
    assert marks * here == marks;
  }

  /** Marks chosen for one component miss every other component. */
  lemma MarkedOutside(adj: seq<seq<nat>>, comps: seq<seq<nat>>, b: nat, a: nat)
    requires Disjoint(comps) && b < |comps| && a < |comps| && b != a
    ensures Marked(adj, comps[b]) * Elems(comps[a]) == {}
  {
    forall x | x in Marked(adj, comps[b]) ensures x !in Elems(comps[a]) {
      if x in Elems(comps[a]) {
        PartitionUnique(comps, b, a, x);
      }
    }
  }

  /** Intersection distributes over union. */
  lemma DistributeMeet(front: set<nat>, marks: set<nat>, here: set<nat>)
    ensures (front + marks) * here == front * here + marks * here
  {
  }

  /** The marks over all components, restricted to one component. */
  lemma MarkedAllWithin(adj: seq<seq<nat>>, comps: seq<seq<nat>>, a: nat)
    requires Disjoint(comps) && a < |comps|
    ensures MarkedAll(adj, comps) * (Elems(comps[a])) == Marked(adj, comps[a])
  {
    MarkedPrefixWithin(adj, comps, |comps|, a);
    assert comps[..|comps|] == comps;
  }

  // ---------------------------------------------------------------------------
  // [o for idx, o in enumerate(obs) if idx not in to_remove_indices]

  /** The indices below m that are not removed, in increasing order. */
  function KeptIndices(removed: set<nat>, m: nat): (idx: seq<nat>)
    ensures forall i: nat :: i in idx <==> i < m && i !in removed
    ensures forall r :: 0 <= r < |idx| ==> idx[r] < m
    ensures Increasing(idx)
  {
    if m == 0 then []
    else
      var front := KeptIndices(removed, m - 1);
      if m - 1 in removed then front
      else
        var idx := front + [m - 1];
        assert Increasing(idx) by {
          forall i, j | 0 <= i < j < |idx| ensures idx[i] < idx[j] {
            assert idx[i] == front[i] || i == |front|;
          }
        }
        assert forall i: nat :: i in idx <==> i in front || i == m - 1;
        idx
  }

  /** The obstacles among the first m whose index is not removed, in order. */
  function Keep(obs: seq<Obstacle>, removed: set<nat>, m: nat): (res: seq<Obstacle>)
    requires m <= |obs|
    ensures |res| <= m
  {
    if m == 0 then []
    else Keep(obs, removed, m - 1) + (if m - 1 in removed then [] else [obs[m - 1]])
  }

  /** The r-th obstacle kept is the obstacle at the r-th kept index. */
  lemma {:induction false} KeepMeaning(obs: seq<Obstacle>, removed: set<nat>, m: nat)
    requires m <= |obs|
    ensures |Keep(obs, removed, m)| == |KeptIndices(removed, m)|
    ensures forall r :: 0 <= r < |Keep(obs, removed, m)| ==> Keep(obs, removed, m)[r] == obs[KeptIndices(removed, m)[r]]
    decreases m
  {
    if m > 0 {
      KeepMeaning(obs, removed, m - 1);
      var front, before := Keep(obs, removed, m - 1), KeptIndices(removed, m - 1);
      if m - 1 !in removed {
        var res, idx := front + [obs[m - 1]], before + [m - 1];
        assert Keep(obs, removed, m) == res && KeptIndices(removed, m) == idx;
        forall r | 0 <= r < |res| ensures res[r] == obs[idx[r]] {
          if r < |front| {
            assert res[r] == front[r] && idx[r] == before[r];
          }
        }
      }
    }
  }

  /** Removing nothing changes nothing, so the `if to_remove_indices` guard
      does not affect the result. */
  lemma {:induction false} KeepNothing(obs: seq<Obstacle>, m: nat)
    requires m <= |obs|
    ensures Keep(obs, {}, m) == obs[..m]
    decreases m
  {
    if m > 0 {
      KeepNothing(obs, m - 1);
      assert obs[..m] == obs[..m - 1] + [obs[m - 1]];
    }
  }

  /** The kept obstacles find no more neighbours of a rectangle than the
      original list did. */
  lemma {:induction false} KeepNearbyCount(obs: seq<Obstacle>, removed: set<nat>, m: nat, rect: Rect)
    requires m <= |obs|
    ensures NearbyCount(Keep(obs, removed, m), rect) <= NearbyCount(obs[..m], rect)
    decreases m
  {
    if m > 0 {
      KeepNearbyCount(obs, removed, m - 1, rect);
      var front := Keep(obs, removed, m - 1);
      var o := obs[m - 1];
      assert obs[..m] == obs[..m - 1] + [o];
      NearbyCountAppend(obs[..m - 1], o, rect);
      if m - 1 !in removed {
        assert Keep(obs, removed, m) == front + [o];
        NearbyCountAppend(front, o, rect);
      } else {
        assert Keep(obs, removed, m) == front;
      }
    }
  }

  /** A rectangle that no original obstacle overlaps is overlapped by no kept one. */
  lemma KeepOverlaps(obs: seq<Obstacle>, removed: set<nat>, m: nat, rect: Rect)
    requires m <= |obs|
    ensures Overlaps(Keep(obs, removed, m), rect) ==> Overlaps(obs[..m], rect)
  {
    KeepMeaning(obs, removed, m);
    var res, idx := Keep(obs, removed, m), KeptIndices(removed, m);
    if Overlaps(res, rect) {
      var r :| 0 <= r < |res| && CollideRect(WithMargin(rect), res[r].rect);
      assert obs[..m][idx[r]] == res[r];
    }
  }

  /** A rectangle the first m obstacles accept is accepted by those of them kept. */
  lemma KeepAccepts(obs: seq<Obstacle>, removed: set<nat>, m: nat, rect: Rect)
    requires m <= |obs| && Accepts(obs[..m], rect)
    ensures Accepts(Keep(obs, removed, m), rect)
  {
    KeepNearbyCount(obs, removed, m, rect);
    KeepOverlaps(obs, removed, m, rect);
  }

  /** Filtering a greedy list leaves a greedy list: every kept obstacle is
      still accepted against the kept obstacles before it. */
  lemma {:induction false} KeepGreedy(obs: seq<Obstacle>, removed: set<nat>, m: nat)
    requires Greedy(obs) && m <= |obs|
    ensures Greedy(Keep(obs, removed, m))
    decreases m
  {
    if m > 0 {
      KeepGreedy(obs, removed, m - 1);
      var front := Keep(obs, removed, m - 1);
      if m - 1 !in removed {
        var o := obs[m - 1];
        assert InWorld(o.rect) && Accepts(obs[..m - 1], o.rect);
        KeepAccepts(obs, removed, m - 1, o.rect);
        AppendKeepsGreedy(front, o);
        assert Keep(obs, removed, m) == front + [o];
      } else {
        assert Keep(obs, removed, m) == front;
      }
    }
  }

  // ---------------------------------------------------------------------------
  // No cluster of the result exceeds MAX_NEARBY_OBSTACLES

  /** A walk through the list: consecutive obstacles have near centres. */
  ghost predicate IsWalk(obs: seq<Obstacle>, p: seq<nat>) {
    && |p| > 0
    && (forall t :: 0 <= t < |p| ==> p[t] < |obs|)
    && (forall t :: 0 <= t < |p| - 1 ==> Near(obs[p[t]].rect, obs[p[t + 1]].rect))
  }

  ghost predicate Linked(obs: seq<Obstacle>, r: nat, s: nat) {
    exists p :: IsWalk(obs, p) && p[0] == r && p[|p| - 1] == s
  }

  /** The cluster of obstacle r: every obstacle reachable from it through
      obstacles with near centres. */
  ghost function Cluster(obs: seq<Obstacle>, r: nat): set<nat> {
    set s | 0 <= s < |obs| && Linked(obs, r, s)
  }

  /** A set mapped one-to-one into t is no larger than t. */
  lemma {:induction false} CardViaInjection(s: set<nat>, t: set<nat>, f: seq<nat>)
    requires forall r :: r in s ==> r < |f| && f[r] in t
    requires forall r, q :: r in s && q in s && r != q ==> f[r] != f[q]
    ensures |s| <= |t|
    decreases |s|
  {
    if s != {} {
      var r :| r in s;
      CardViaInjection(s - {r}, t - {f[r]}, f);
    }
  }

  /** res lists obstacles of obs: its r-th element is obs[idx[r]]. */
  ghost predicate Selects(obs: seq<Obstacle>, res: seq<Obstacle>, idx: seq<nat>) {
    |res| == |idx| && forall r :: 0 <= r < |res| ==> idx[r] < |obs| && res[r] == obs[idx[r]]
  }

  /** Along a walk of a list drawn from obs, the original indices stay in one
      component of a closed partition of the adjacency of obs. */
  lemma {:induction false} WalkStaysInComponent(obs: seq<Obstacle>, adj: seq<seq<nat>>, comps: seq<seq<nat>>,
                                                res: seq<Obstacle>, idx: seq<nat>, p: seq<nat>, a: nat)
    requires IsAdjacency(obs, adj) && Closed(adj, comps) && a < |comps|
    requires Selects(obs, res, idx) && IsWalk(res, p)
    requires idx[p[0]] in comps[a]
    ensures idx[p[|p| - 1]] in comps[a]
    decreases |p|
  {
    if |p| > 1 {
      var front := p[..|p| - 1];
      WalkStaysInComponent(obs, adj, comps, res, idx, front, a);
      var u, v := idx[p[|p| - 2]], idx[p[|p| - 1]];
      assert Near(res[p[|p| - 2]].rect, res[p[|p| - 1]].rect);
      if u != v {
        AdjacencyMeaning(obs, adj);
        assert v in adj[u];
      }
    }
  }

  /** A cluster of a list drawn without repetition from obs, avoiding the
      removed indices, is no larger than what is left of its component. */
  lemma ClusterWithinComponent(obs: seq<Obstacle>, adj: seq<seq<nat>>, comps: seq<seq<nat>>,
                               res: seq<Obstacle>, idx: seq<nat>, removed: set<nat>, r: nat, a: nat)
    requires IsAdjacency(obs, adj) && Closed(adj, comps) && a < |comps|
    requires Selects(obs, res, idx) && Increasing(idx) && forall i :: i in idx ==> i !in removed
    requires r < |res| && idx[r] in comps[a]
    ensures |Cluster(res, r)| <= |Elems(comps[a]) - removed|
  {
    var target := Elems(comps[a]) - removed;
    forall s | s in Cluster(res, r) ensures s < |idx| && idx[s] in target {
      var p :| IsWalk(res, p) && p[0] == r && p[|p| - 1] == s;
      WalkStaysInComponent(obs, adj, comps, res, idx, p, a);
      assert idx[s] in idx;
    }
    forall s, q | s in Cluster(res, r) && q in Cluster(res, r) && s != q ensures idx[s] != idx[q] {
      if s < q {
        assert idx[s] < idx[q];
      } else {
        assert idx[q] < idx[s];
      }
    }
    CardViaInjection(Cluster(res, r), target, idx);
  }

  /** At most MAX_NEARBY_OBSTACLES members of each component escape the marks. */
  lemma UnmarkedPerComponent(adj: seq<seq<nat>>, comps: seq<seq<nat>>, a: nat)
    requires Disjoint(comps) && a < |comps| && NoDup(comps[a])
    ensures |Elems(comps[a]) - MarkedAll(adj, comps)| <= MAX_NEARBY_OBSTACLES
  {
    MarkedAllWithin(adj, comps, a);
    MarkedMeaning(adj, comps[a]);
    MeetDifference(Elems(comps[a]), MarkedAll(adj, comps), Marked(adj, comps[a]));
  }

  /** Removing a set from here removes exactly its part inside here. */
  lemma MeetDifference(here: set<nat>, all: set<nat>, mine: set<nat>)
    requires all * here == mine
    ensures here - all == here - mine
  {
  }

  /** After the pruning step no cluster of the generated obstacles has more
      than MAX_NEARBY_OBSTACLES members, given any partition of the original
      adjacency into closed components without repetitions. */
  lemma PrunedClustersBounded(obs: seq<Obstacle>, adj: seq<seq<nat>>, comps: seq<seq<nat>>, r: nat)
    requires IsAdjacency(obs, adj) && IsPartition(comps, |obs|) && Closed(adj, comps)
    requires r < |Keep(obs, MarkedAll(adj, comps), |obs|)|
    ensures |Cluster(Keep(obs, MarkedAll(adj, comps), |obs|), r)| <= MAX_NEARBY_OBSTACLES
  {
    var removed := MarkedAll(adj, comps);
    var res := Keep(obs, removed, |obs|);
    var idx := KeptIndices(removed, |obs|);
    KeepMeaning(obs, removed, |obs|);
    assert Selects(obs, res, idx);
    assert Covered(comps, idx[r]);
    var a :| 0 <= a < |comps| && idx[r] in comps[a];
    ClusterWithinComponent(obs, adj, comps, res, idx, removed, r, a);
    UnmarkedPerComponent(adj, comps, a);
  }
}
