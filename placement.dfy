/** The two greedy placement loops of generate_obstacles. Every random draw
    (candidate centre, size, jitter, kind) is an input; what remains is the
    deterministic acceptance filter and the loop structure around it. */
module Placement {
  import opened Geometry

  /** The cosmetic obstacle kinds ('tree', 'rock', 'house', 'water', 'hay'). */
  datatype Kind = Tree | Rock | House | Water | Hay

  datatype Obstacle = Obstacle(rect: Rect, kind: Kind)

  /** One try of the grid phase: a shuffled, jittered candidate centre and the
      values drawn for it: width, height, placement jitter on each axis, and
      the kind used if the obstacle is accepted. */
  datatype GridTry = GridTry(cx: int, cy: int, w: int, h: int, jx: int, jy: int, kind: Kind)

  /** The ranges of the randint calls of the grid phase. */
  predicate GridTryInRange(t: GridTry) {
    40 <= t.w <= 160 && 40 <= t.h <= 140 &&
    -(GRID_BIAS / 2) <= t.jx <= GRID_BIAS / 2 && -(GRID_BIAS / 2) <= t.jy <= GRID_BIAS / 2
  }

  /** One try of the random phase: size, top-left corner and kind. */
  datatype RandomDraw = RandomDraw(w: int, h: int, x: int, y: int, kind: Kind)

  /** The ranges of the randint calls of the random phase. */
  predicate RandomDrawInRange(d: RandomDraw) {
    40 <= d.w <= 140 && 40 <= d.h <= 120 && 0 <= d.x <= WORLD_W - d.w && 0 <= d.y <= WORLD_H - d.h
  }

  /** The grid-phase rectangle: the jittered centre, clamped so that the
      rectangle stays inside the world. */
  function GridRect(t: GridTry): (r: Rect)
    ensures r.w == t.w && r.h == t.h
    ensures t.w <= WORLD_W && t.h <= WORLD_H ==> InWorld(r)
    ensures InWorld(Rect(t.cx + t.jx, t.cy + t.jy, t.w, t.h)) ==> r == Rect(t.cx + t.jx, t.cy + t.jy, t.w, t.h)
  {
    Rect(Clamp(t.cx + t.jx, 0, WORLD_W - t.w), Clamp(t.cy + t.jy, 0, WORLD_H - t.h), t.w, t.h)
  }

  function RandomRect(d: RandomDraw): (r: Rect)
    ensures RandomDrawInRange(d) ==> InWorld(r)
  {
    Rect(d.x, d.y, d.w, d.h)
  }

  /** The margin-inflated rectangle collides with some obstacle of the list. */
  predicate Overlaps(obs: seq<Obstacle>, r: Rect) {
    exists k :: 0 <= k < |obs| && CollideRect(WithMargin(r), obs[k].rect)
  }

  /** How many obstacles of the list have a centre within NEAR_RADIUS of r's centre. */
  function NearbyCount(obs: seq<Obstacle>, r: Rect): (c: nat)
    ensures c <= |obs|
  {
    if obs == [] then 0
    else NearbyCount(obs[..|obs| - 1], r) + (if Near(obs[|obs| - 1].rect, r) then 1 else 0)
  }

  lemma NearbyCountAppend(obs: seq<Obstacle>, o: Obstacle, r: Rect)
    ensures NearbyCount(obs + [o], r) == NearbyCount(obs, r) + (if Near(o.rect, r) then 1 else 0)
  {
    assert (obs + [o])[..|obs|] == obs;
  }

  /** Counting over a longer list never finds fewer neighbours. */
  lemma {:induction false} NearbyCountPrefix(obs: seq<Obstacle>, m: nat, r: Rect)
    requires m <= |obs|
    ensures NearbyCount(obs[..m], r) <= NearbyCount(obs, r)
    decreases |obs|
  {
    if m < |obs| {
      assert obs[..|obs| - 1][..m] == obs[..m];
      NearbyCountPrefix(obs[..|obs| - 1], m, r);
    } else {
      assert obs[..m] == obs;
    }
  }

  /** The acceptance filter shared by both phases: the rectangle misses the
      spawn area, its margin-inflated rectangle misses every accepted
      obstacle, and fewer than MAX_NEARBY_OBSTACLES accepted centres are near. */
  predicate Accepts(obs: seq<Obstacle>, r: Rect): (ok: bool)
    ensures ok ==> forall k :: 0 <= k < |obs| ==>
      !CollideRect(WithMargin(r), obs[k].rect) && !CollideRect(WithMargin(obs[k].rect), r)
    ensures ok ==> forall m :: 0 <= m <= |obs| ==> NearbyCount(obs[..m], r) < MAX_NEARBY_OBSTACLES
  {
    MarginSymmetricAll(obs, r);
    NearbyCountPrefixes(obs, r);
    !CollideRect(r, CENTER_AREA) && !Overlaps(obs, r) && NearbyCount(obs, r) < MAX_NEARBY_OBSTACLES
  }

  lemma MarginSymmetricAll(obs: seq<Obstacle>, r: Rect)
    ensures forall k :: 0 <= k < |obs| ==>
      (CollideRect(WithMargin(r), obs[k].rect) <==> CollideRect(WithMargin(obs[k].rect), r))
  {
    forall k | 0 <= k < |obs| {
      MarginCollisionSymmetric(r, obs[k].rect);
    }
  }

  lemma NearbyCountPrefixes(obs: seq<Obstacle>, r: Rect)
    ensures forall m :: 0 <= m <= |obs| ==> NearbyCount(obs[..m], r) <= NearbyCount(obs, r)
  {
    forall m | 0 <= m <= |obs| {
      NearbyCountPrefix(obs, m, r);
    }
  }

  /** Offers one candidate: the list grows by exactly the candidate when the
      filter accepts it, and stays as it was otherwise. */
  function Offer(obs: seq<Obstacle>, r: Rect, kind: Kind): (res: seq<Obstacle>)
    ensures obs <= res && |res| <= |obs| + 1
    ensures |res| > |obs| <==> Accepts(obs, r)
    ensures |res| > |obs| ==> res[|obs|] == Obstacle(r, kind)
  {
    if Accepts(obs, r) then obs + [Obstacle(r, kind)] else obs
  }

  /** Every obstacle lies in the world and was accepted against the obstacles
      before it in the list. */
  ghost predicate Greedy(obs: seq<Obstacle>) {
    forall k :: 0 <= k < |obs| ==> InWorld(obs[k].rect) && Accepts(obs[..k], obs[k].rect)
  }

  /** Appending an in-world obstacle that the list accepts keeps it greedy. */
  lemma AppendKeepsGreedy(obs: seq<Obstacle>, o: Obstacle)
    requires Greedy(obs) && InWorld(o.rect) && Accepts(obs, o.rect)
    ensures Greedy(obs + [o])
  {
    var res := obs + [o];
    forall k | 0 <= k < |res|
      ensures InWorld(res[k].rect) && Accepts(res[..k], res[k].rect)
    {
      if k < |obs| {
        assert res[..k] == obs[..k];
      } else {
        assert res[..k] == obs;
      }
    }
  }

  lemma OfferKeepsGreedy(obs: seq<Obstacle>, r: Rect, kind: Kind)
    requires Greedy(obs) && InWorld(r)
    ensures Greedy(Offer(obs, r, kind))
    ensures obs <= Offer(obs, r, kind)
  {
    if Accepts(obs, r) {
      AppendKeepsGreedy(obs, Obstacle(r, kind));
    }
  }

  /** A greedy list is pairwise separated: every obstacle lies in the world,
      misses the spawn area, and no two obstacles come within the safety
      margin of each other. */
  lemma GreedySpaced(obs: seq<Obstacle>)
    requires Greedy(obs)
    ensures forall k :: 0 <= k < |obs| ==> InWorld(obs[k].rect) && !CollideRect(obs[k].rect, CENTER_AREA)
    ensures forall k, l :: 0 <= k < |obs| && 0 <= l < |obs| && k != l ==> !CollideRect(WithMargin(obs[k].rect), obs[l].rect)
  {
    forall k, l | 0 <= k < |obs| && 0 <= l < |obs| && k != l
      ensures !CollideRect(WithMargin(obs[k].rect), obs[l].rect)
    {
      if k < l {
        assert obs[..l][k] == obs[k];
        assert !CollideRect(WithMargin(obs[l].rect), obs[..l][k].rect);
        MarginCollisionSymmetric(obs[l].rect, obs[k].rect);
      } else {
        assert obs[..k][l] == obs[l];
      }
    }
  }

  /** The grid phase: candidates are offered in order until `count` obstacles
      are accepted or the candidates run out. */
  function GridPhase(obs: seq<Obstacle>, ts: seq<GridTry>, count: nat): (res: seq<Obstacle>)
    ensures obs <= res && |res| <= |obs| + |ts|
    ensures |obs| <= count ==> |res| <= count
    decreases |ts|
  {
    if ts == [] || |obs| >= count then obs
    else GridPhase(Offer(obs, GridRect(ts[0]), ts[0].kind), ts[1..], count)
  }

  /** The random phase: try k uses draws[k]; it stops at `count` obstacles or
      after count * 12 tries. */
  function RandomPhase(obs: seq<Obstacle>, draws: seq<RandomDraw>, count: nat, k: nat): (res: seq<Obstacle>)
    requires |draws| >= count * 12
    ensures obs <= res
    ensures |obs| <= count ==> |res| <= count
    ensures k <= count * 12 ==> |res| <= |obs| + (count * 12 - k)
    decreases count * 12 - k
  {
    if |obs| >= count || k >= count * 12 then obs
    else RandomPhase(Offer(obs, RandomRect(draws[k]), draws[k].kind), draws, count, k + 1)
  }

  /** The grid phase only appends accepted, in-world obstacles and never
      exceeds the target count. */
  lemma {:induction false} GridPhaseSound(obs: seq<Obstacle>, ts: seq<GridTry>, count: nat)
    requires Greedy(obs) && |obs| <= count
    requires forall i :: 0 <= i < |ts| ==> GridTryInRange(ts[i])
    ensures Greedy(GridPhase(obs, ts, count))
    ensures |GridPhase(obs, ts, count)| <= count
    ensures obs <= GridPhase(obs, ts, count)
    decreases |ts|
  {
    if ts != [] && |obs| < count {
      var next := Offer(obs, GridRect(ts[0]), ts[0].kind);
      OfferKeepsGreedy(obs, GridRect(ts[0]), ts[0].kind);
      GridPhaseSound(next, ts[1..], count);
    }
  }

  /** The random phase keeps the same guarantees as the grid phase. */
  lemma {:induction false} RandomPhaseSound(obs: seq<Obstacle>, draws: seq<RandomDraw>, count: nat, k: nat)
    requires |draws| >= count * 12
    requires Greedy(obs) && |obs| <= count
    requires forall i :: 0 <= i < |draws| ==> RandomDrawInRange(draws[i])
    ensures Greedy(RandomPhase(obs, draws, count, k))
    ensures |RandomPhase(obs, draws, count, k)| <= count
    ensures obs <= RandomPhase(obs, draws, count, k)
    decreases count * 12 - k
  {
    if |obs| < count && k < count * 12 {
      var next := Offer(obs, RandomRect(draws[k]), draws[k].kind);
      OfferKeepsGreedy(obs, RandomRect(draws[k]), draws[k].kind);
      RandomPhaseSound(next, draws, count, k + 1);
    }
  }

  function Min(a: int, b: int): int { if a <= b then a else b }

  /** The overlap loop of the grid phase, stopping at the first collision. */
  method HasOverlap(obs: seq<Obstacle>, rect: Rect) returns (overlapped: bool)
    ensures overlapped == Overlaps(obs, rect)
  {
    overlapped := false;
    for k := 0 to |obs|
      invariant !overlapped
      invariant forall j :: 0 <= j < k ==> !CollideRect(WithMargin(rect), obs[j].rect)
    {
      if CollideRect(WithMargin(rect), obs[k].rect) {
        overlapped := true;
        break;
      }
    }
  }

  /** The nearby-count loop of the grid phase, which stops counting once
      MAX_NEARBY_OBSTACLES neighbours are found. */
  method CountNearby(obs: seq<Obstacle>, rect: Rect) returns (nearby: nat)
    ensures nearby == Min(NearbyCount(obs, rect), MAX_NEARBY_OBSTACLES)
  {
    nearby := 0;
    for k := 0 to |obs|
      invariant nearby == NearbyCount(obs[..k], rect) < MAX_NEARBY_OBSTACLES
    {
      assert obs[..k + 1][..k] == obs[..k];
      if Near(obs[k].rect, rect) {
        nearby := nearby + 1;
        if nearby >= MAX_NEARBY_OBSTACLES {
          NearbyCountPrefix(obs, k + 1, rect);
          break;
        }
      }
    }
    if nearby < MAX_NEARBY_OBSTACLES {
      assert obs[..|obs|] == obs;
    }
  }

  /** The first placement loop over the shuffled grid candidates. */
  method PlaceOnGrid(count: nat, candidates: seq<GridTry>) returns (obs: seq<Obstacle>)
    ensures obs == GridPhase([], candidates, count)
  {
    obs := [];
    var tries := 0;
    var maxTries := |candidates| * 6;
    for i := 0 to |candidates|
      invariant tries == i
      invariant GridPhase(obs, candidates[i..], count) == GridPhase([], candidates, count)
    {
      if |obs| >= count || tries >= maxTries {
        break;
      }
      assert candidates[i..][1..] == candidates[i + 1..];
      var t := candidates[i];
      var rect := GridRect(t);
      tries := tries + 1;
      if CollideRect(rect, CENTER_AREA) {
        continue;
      }
      var overlapped := HasOverlap(obs, rect);
      if overlapped {
        continue;
      }
      var nearby := CountNearby(obs, rect);
      if nearby >= MAX_NEARBY_OBSTACLES {
        continue;
      }
      obs := obs + [Obstacle(rect, t.kind)];
    }
  }

  /** The second placement loop: uniformly random rectangles, tried while
      fewer than `count` obstacles exist and fewer than count * 12 tries were made. */
  method PlaceRandomly(count: nat, start: seq<Obstacle>, draws: seq<RandomDraw>) returns (obs: seq<Obstacle>)
    requires |draws| >= count * 12
    ensures obs == RandomPhase(start, draws, count, 0)
  {
    obs := start;
    var extraTries := 0;
    while |obs| < count && extraTries < count * 12
      invariant 0 <= extraTries
      invariant RandomPhase(obs, draws, count, extraTries) == RandomPhase(start, draws, count, 0)
      decreases count * 12 - extraTries
    {
      var d := draws[extraTries];
      var rect := RandomRect(d);
      if CollideRect(rect, CENTER_AREA) {
        extraTries := extraTries + 1;
        continue;
      }
      var overlapped := Overlaps(obs, rect);
      if overlapped {
        extraTries := extraTries + 1;
        continue;
      }
      var nearby := NearbyCount(obs, rect);
      if nearby >= MAX_NEARBY_OBSTACLES {
        extraTries := extraTries + 1;
        continue;
      }
      obs := obs + [Obstacle(rect, d.kind)];
      extraTries := extraTries + 1;
    }
  }
}
