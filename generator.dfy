/** generate_obstacles end to end: the grid phase, the random phase, the
    adjacency, the components, the marking of oversized components and the
    final filter. */
module Generator {
  import opened Geometry
  import opened Placement
  import opened Clusters
  import opened Pruning

  /** The list both placement phases leave behind, before pruning: it starts
      with what the grid phase kept and holds at most `count` obstacles. */
  function Placed(count: nat, candidates: seq<GridTry>, draws: seq<RandomDraw>): (r: seq<Obstacle>)
    requires |draws| >= count * 12
    ensures GridPhase([], candidates, count) <= r && |r| <= count
  {
    RandomPhase(GridPhase([], candidates, count), draws, count, 0)
  }

  /** adj and comps are what build_adj_list and connected_components compute
      for obs: its adjacency lists and a partition of its indices into
      connected components closed under adjacency. */
  ghost predicate Decomposition(obs: seq<Obstacle>, adj: seq<seq<nat>>, comps: seq<seq<nat>>) {
    && IsAdjacency(obs, adj)
    && IsPartition(comps, |obs|)
    && Closed(adj, comps)
    && (forall a :: 0 <= a < |comps| ==> Connected(adj, comps[a]))
  }

  /** The placed list is greedy and holds at most `count` obstacles. */
  lemma PlacedSound(count: nat, candidates: seq<GridTry>, draws: seq<RandomDraw>)
    requires forall i :: 0 <= i < |candidates| ==> GridTryInRange(candidates[i])
    requires forall i :: 0 <= i < |draws| ==> RandomDrawInRange(draws[i])
    requires |draws| >= count * 12
    ensures Greedy(Placed(count, candidates, draws)) && |Placed(count, candidates, draws)| <= count
  {
    GridPhaseSound([], candidates, count);
    RandomPhaseSound(GridPhase([], candidates, count), draws, count, 0);
  }

  /** generate_obstacles(count): the shuffled grid candidates and the draws of
      the random phase are inputs. The result is the placed list with the
      marked members of its oversized components filtered out, in order; at
      most `count` of them, each inside the world and off
      the spawn area, no two within the safety margin of each other, each
      accepted against fewer than MAX_NEARBY_OBSTACLES near obstacles before
      it, and no cluster of obstacles with near centres larger than
      MAX_NEARBY_OBSTACLES. */
  method GenerateObstacles(count: nat, candidates: seq<GridTry>, draws: seq<RandomDraw>) returns (obs: seq<Obstacle>)
    requires forall i :: 0 <= i < |candidates| ==> GridTryInRange(candidates[i])
    requires forall i :: 0 <= i < |draws| ==> RandomDrawInRange(draws[i])
    requires |draws| >= count * 12
    ensures exists adj, comps :: (Decomposition(Placed(count, candidates, draws), adj, comps)
      && obs == Keep(Placed(count, candidates, draws), MarkedAll(adj, comps), |Placed(count, candidates, draws)|))
    ensures |obs| <= count
    ensures forall k :: 0 <= k < |obs| ==> InWorld(obs[k].rect) && !CollideRect(obs[k].rect, CENTER_AREA)
    ensures forall k, l :: 0 <= k < |obs| && 0 <= l < |obs| && k != l ==> !CollideRect(WithMargin(obs[k].rect), obs[l].rect)
    ensures forall k :: 0 <= k < |obs| ==> NearbyCount(obs[..k], obs[k].rect) < MAX_NEARBY_OBSTACLES
    ensures forall r :: 0 <= r < |obs| ==> |Cluster(obs, r)| <= MAX_NEARBY_OBSTACLES
  {
    obs := PlaceOnGrid(count, candidates);
    obs := PlaceRandomly(count, obs, draws);
    ghost var placed := obs;
    PlacedSound(count, candidates, draws);

    var adj := BuildAdjList(obs);
    AdjacencyMeaning(obs, adj);
    var comps := ConnectedComponents(adj);
    ClosedFromPrefix(adj, comps);
    var toRemove := MarkForRemoval(adj, comps);
    if toRemove != {} {
      obs := Keep(obs, toRemove, |obs|);
    } else {
      KeepNothing(obs, |obs|);
      assert obs[..|obs|] == obs;
    }
    assert obs == Keep(placed, toRemove, |placed|);
    assert Decomposition(placed, adj, comps);

    KeepGreedy(placed, toRemove, |placed|);
    GreedySpaced(obs);
    forall r | 0 <= r < |obs| ensures |Cluster(obs, r)| <= MAX_NEARBY_OBSTACLES {
      PrunedClustersBounded(placed, adj, comps, r);
    }
  }
}
