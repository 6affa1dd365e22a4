# Cartoon Survivor: obstacle world generator and game-state rule

This project models the deterministic core of the pygame game *Cartoon Survivor* (`main.py`) and proves properties of it. Two parts are covered.

The first is `generate_obstacles`, which fills the 2400×1800 world with up to `count` rectangular obstacles in five steps:

1. A grid phase offers shuffled, jittered grid candidates, clamped into the world.
2. A random phase offers uniformly drawn rectangles, up to `count * 12` tries.
3. Both phases share one acceptance filter. A candidate is accepted only if it misses the central spawn area, its 8-pixel margin rectangle overlaps no accepted obstacle, and fewer than `MAX_NEARBY_OBSTACLES` (2) accepted centres lie within `NEAR_RADIUS` (120).
4. A post-process builds the "near centres" graph (`build_adj_list`) and splits it into components with an explicit-stack depth-first search (`connected_components`).
5. In every component larger than 2 it marks the highest-degree members, then filters the marked obstacles out of the list in order.

The second part is the game-state rule of the main loop:

- the champion menu and `choose_champion`;
- the level-up choice keys;
- the level-up, win and death checks at the end of a playing frame.

Every random draw is an input of the model. For the grid phase this is a `Placement.GridTry` per shuffled candidate: centre, size, jitter and kind. For the random phase it is a `Placement.RandomDraw` per try. The physics of a playing frame is summarised by two inputs: the damage the player takes and the number of mobs killed.

Modules, in dependency order:

- `Geometry` (`geometry.dfy`): world constants, pygame `Rect` operations, `clamp`, and the near relation.
- `Placement` (`placement.dfy`): the acceptance filter and both placement loops.
- `Clusters` (`clusters.dfy`): the adjacency lists and the component search.
- `Pruning` (`pruning.dfy`): the stable sort by degree, the marking, the filter, and the cluster bound on the result.
- `Generator` (`generator.dfy`): `generate_obstacles` end to end.
- `Progression` (`progression.dfy`): the `Player` and `Game` classes and the state rule.

Notes on the semantics:

- `distance(...) < NEAR_RADIUS` on the integer centres is stated exactly as `dx*dx + dy*dy < 120*120`, instead of through `math.hypot`.
- pygame's `centerx`, `centery` and `inflate` halve sizes with C integer division, which rounds toward zero (`Geometry.TruncHalf`).
- `colliderect` is strict overlap of the two rectangles. Every rectangle built here has a positive size.
- Player attributes that are Python floats are `real`. No rounding is modelled.
- Level-up option 3 is shown on screen as "+ Max HP & heal", but the code only does `hp += 40`, and the player has no maximum HP. The model follows the code.
- The grid loop's `tries >= max_tries` test can never fire: `tries` equals the candidate index, which is below `len(candidates) < 6 * len(candidates)`. `Placement.PlaceOnGrid` keeps the test and carries `tries == i` as an invariant.

## Model

| member | source | states |
|---|---|---|
| Geometry.Clamp | main.py:120-121 | `max(a, min(b, v))`: inside `[a, b]` when `a <= b`, identity inside the range, `a` below it, `b` above it, and `a` whenever `b < a` |
| Geometry.TruncHalf | main.py:243 | half of a size rounded toward zero, as pygame's C arithmetic does for `centerx`, `centery` and `inflate`: `0 <= 2r <= v < 2r + 2` for `v >= 0`, mirrored for negatives |
| Geometry.Rect.CenterX | main.py:243 | for a non-negative width the centre lies between the left and right edges, at their midpoint rounded down |
| Geometry.Rect.CenterY | main.py:243 | the same for the top and bottom edges |
| Geometry.CollideRect | main.py:228 | for rectangles of positive size, `colliderect` holds exactly when some integer point lies inside both |
| Geometry.Inflate | main.py:234 | `Rect.inflate(dx, dy)` widens by `dx`, `dy`; for even non-negative amounts every edge moves out by half |
| Geometry.WithMargin | main.py:234 | the inflated rectangle's edges are exactly `OBSTACLE_SAFETY_MARGIN` outside the original's on all four sides |
| Geometry.MarginCollisionSymmetric | main.py:234 | inflating either rectangle gives the same collision test, and no collision means the two are at least the margin apart on some axis |
| Geometry.CentreDistSq | main.py:243 | the squared centre distance is non-negative and zero exactly when the centres coincide |
| Geometry.Near | main.py:243 | near centres differ by less than `NEAR_RADIUS` on each axis, and coinciding centres are near |
| Geometry.NearSymmetric | main.py:124-125 | the centre distance, and hence the near test, is symmetric |
| Placement.GridRect | main.py:220-224 | the clamped grid rectangle keeps the drawn size, lies in the world when the size fits, and is the jittered rectangle itself when that already lies in the world |
| Placement.RandomRect | main.py:255-259 | a random-phase rectangle drawn in the `randint` ranges lies in the world |
| Placement.NearbyCount | main.py:265 | counts accepted centres near the candidate, bounded by the list length |
| Placement.NearbyCountPrefix | main.py:241-246 | a prefix of the list never has more near centres than the whole list |
| Placement.HasOverlap | main.py:232-236 | the overlap loop with its early `break` answers exactly whether some accepted obstacle collides with the margin rectangle |
| Placement.CountNearby | main.py:241-247 | the counting loop that stops at `MAX_NEARBY_OBSTACLES` returns `min(true count, MAX)`, so its `>= MAX` test agrees with the full count |
| Placement.Accepts | main.py:227-248 | an accepted rectangle is at least the margin away from every accepted obstacle, in both inflation orders, and has fewer than MAX near centres in every prefix of the list |
| Placement.Offer | main.py:250 | the list grows by exactly the candidate, at the end, when it is accepted, and is unchanged otherwise |
| Placement.PlaceOnGrid | main.py:212-250 | the grid loop (`break` at `count`, the dead `max_tries` test, three `continue`s) computes the grid-phase specification `GridPhase` |
| Placement.PlaceRandomly | main.py:253-269 | the random loop, whose `extra_tries` rises on every path, computes `RandomPhase` with at most `count * 12` tries |
| Placement.GridPhase | main.py:216-250 | extends the start list by at most one obstacle per candidate and never beyond `count` |
| Placement.RandomPhase | main.py:253-269 | extends the start list by at most one obstacle per remaining try and never beyond `count` |
| Placement.OfferKeepsGreedy | main.py:228-250 | offering a candidate keeps the "every obstacle accepted against its predecessors" invariant and only appends |
| Placement.GridPhaseSound | main.py:216-250 | the grid phase yields at most `count` obstacles, all in the world and each accepted against those before it; the start list is a prefix |
| Placement.RandomPhaseSound | main.py:254-269 | the same guarantees for the random phase |
| Placement.GreedySpaced | main.py:228-264 | an accepted list misses the spawn area, lies in the world, and has no two obstacles within the safety margin of each other, in either order |
| Clusters.NbrsMeaning | main.py:276-281 | `j` is listed for `k` below `m` exactly when `j != k` and the centres are near; the list is strictly increasing |
| Clusters.Nbrs | main.py:276-281 | at most `m` neighbours are listed below `m` |
| Clusters.NbrsMembers | main.py:276-281 | the membership half of `NbrsMeaning` |
| Clusters.NbrsIncreasing | main.py:276-281 | the ordering half of `NbrsMeaning` |
| Clusters.BuildAdjList | main.py:273-282 | the nested loops produce, for every `k`, the ascending list of obstacles near `k` |
| Clusters.LinkLater | main.py:277-281 | the inner loop for row `i` completes `adj[i]` and appends `i` to exactly the later rows near `i` |
| Clusters.LinkPair | main.py:278-281 | one test: when `i` and `j` are near, `j` joins `adj[i]` and `i` joins `adj[j]`; every other list is unchanged |
| Clusters.AdjacencyMeaning | main.py:273-282 | `j in adj[i]` iff `i != j` and the centres are near; irreflexive, symmetric, in range, increasing |
| Clusters.PushUnvisited | main.py:294-297 | every unvisited neighbour of `u` is marked and pushed once, and only those; unvisited count plus stack size strictly accounts for them |
| Clusters.ExploreFrom | main.py:287-299 | one search from an unvisited `i` collects `i` first, then only newly visited indices, each once; each is reachable from `i`, and all its neighbours end up visited |
| Clusters.ConnectedComponents | main.py:284-300 | the components partition `0..n-1` (non-empty, no repetitions, disjoint, covering), each is connected, and neighbours lie in the same or an earlier component |
| Clusters.ClosedFromPrefix | main.py:284-300 | on a symmetric graph the neighbours of a component lie in that same component |
| Clusters.ComponentsAreReachability | main.py:284-300 | with these components, `y` shares `x`'s component iff there is a path from `x` to `y`: they are exactly the connected components |
| Pruning.InsertByDegree | main.py:309 | inserting `x` adds exactly one `x` to the multiset of elements |
| Pruning.InsertKeepsOrder | main.py:309 | inserting into a list ordered by non-increasing degree leaves it ordered |
| Pruning.SortByDegree | main.py:309 | `sorted(comp, key=degree, reverse=True)` is a permutation of `comp` |
| Pruning.SortedByDegree | main.py:309 | the sorted list is non-increasing by degree |
| Pruning.InsertWithDegree | main.py:309 | insertion puts `x` ahead of every element of its own degree, so members of each degree keep their order |
| Pruning.SortStable | main.py:309 | the sort is stable, as Python's is: for every degree, its members appear in the sorted list in their order in `comp` |
| Pruning.MarkForRemoval | main.py:305-312 | the loop over components builds exactly `MarkedAll`, the union over components of the first `len(comp) - MAX` sorted members |
| Pruning.MarkComponent | main.py:307-312 | one pass of the loop adds exactly the marks `Marked` chooses for the component |
| Pruning.Marked | main.py:307-312 | only members of the component are marked for it, and none when it has at most MAX members |
| Pruning.MarkedAll | main.py:305-312 | every mark belongs to some component |
| Pruning.MarkedSize | main.py:309-312 | a component larger than MAX has exactly `len(comp) - MAX` members marked, all its own |
| Pruning.MarkedHeaviest | main.py:309-312 | every marked member has degree at least that of every unmarked member of its component |
| Pruning.MarkedMeaning | main.py:306-312 | marks lie in the component, number `len(comp) - MAX` or none, are the heaviest, and leave `min(len(comp), MAX)` members |
| Pruning.MarkedOutside | main.py:305-312 | over disjoint components, the marks chosen for one component miss every other component |
| Pruning.MarkedAllWithin | main.py:305-312 | over disjoint components, the marks falling in a component are exactly the marks chosen for it |
| Pruning.UnmarkedPerComponent | main.py:305-312 | at most MAX members of each component escape the marks |
| Pruning.KeptIndices | main.py:315 | the indices kept are exactly those below `m` that are not marked, in increasing order |
| Pruning.Keep | main.py:315 | the filtered list is never longer than the list it filters |
| Pruning.KeepMeaning | main.py:315 | the filtered list has one entry per kept index, and its `r`-th entry is the obstacle at the `r`-th kept index |
| Pruning.KeepNothing | main.py:314-315 | removing nothing returns the list unchanged, so the `if to_remove_indices` guard does not change the result |
| Pruning.KeepAccepts | main.py:314-315 | a rectangle the first `m` obstacles accept is accepted by those of them that are kept |
| Pruning.KeepGreedy | main.py:314-315 | filtering keeps every remaining obstacle accepted against the remaining obstacles before it |
| Pruning.PrunedClustersBounded | main.py:271-316 | after pruning, every set of obstacles linked by chains of near centres has at most `MAX_NEARBY_OBSTACLES` members |
| Generator.PlacedSound | main.py:198-269 | the list both phases leave is accepted step by step and holds at most `count` obstacles |
| Generator.Placed | main.py:198-269 | the list both phases leave starts with the grid phase's list and holds at most `count` obstacles |
| Generator.GenerateObstacles | main.py:190-316 | the result is the placed list with `MarkedAll` of its adjacency lists and connected, adjacency-closed component partition filtered out; at most `count` long, inside the world, off the spawn area, pairwise margin-separated, each accepted with fewer than MAX near predecessors, with every cluster at most MAX |
| Progression.PresetOf | main.py:34-62 | only the knight is melee (projectile speed 0); all presets have positive damage, cooldown and range |
| Progression.ChampionAtClick | main.py:370-376 | a click picks mage iff `mx < SCREEN_W / 3`, rogue iff `SCREEN_W / 3 <= mx < 2 * SCREEN_W / 3`, knight otherwise, with the comparisons on reals as Python's true division makes them |
| Progression.MenuOutcomeOf | main.py:359-377 | QUIT, and only QUIT, leaves; Escape and other keys do nothing; key 1 picks mage, key 2 rogue, key 3 knight, and a click picks the champion under it |
| Progression.MenuDecision | main.py:357-377 | the first event of a menu frame that is not ignored decides; `Ignore` iff every event is ignored |
| Progression.Game.ChampionMenuFrame | main.py:355-377 | one menu frame exits exactly on a deciding QUIT; on a pick it installs the preset loadout, damage and range and starts playing; otherwise it stays in the menu with the whole player unchanged; time, `running`, position, hp, level, xp and speed never change |
| Progression.Game.ChooseChampion | main.py:396-405 | copies the preset's cooldown, projectile speed, damage, range and attack type, sets the state to playing, and leaves hp, level, xp, speed and position alone |
| Progression.Game.ApplyChoice | main.py:422-435 | option 1 adds `8 + 2 * level` damage and 10 range, option 2 adds 40 speed, option 3 adds 40 hp; the state returns to playing; level, xp, position and loadout are unchanged |
| Progression.FirstChoice | main.py:416-435 | the first 1/2/3 key of a frame, `OtherKey` iff there is none |
| Progression.Game.HandleEvent | main.py:416-435 | one event: QUIT or Escape clears `running`; a 1/2/3 key on the level-up screen applies that option and resumes play; anything else changes nothing; level, xp, position and loadout never change |
| Progression.Game.HandleEvents | main.py:416-435 | QUIT or Escape stops the main loop; in the level-up screen only the first choice key of the frame applies; otherwise nothing changes; level, xp, position and loadout never change |
| Progression.FrameChecks | main.py:658-667 | level rises by exactly one iff `xp >= 5 * level`; the state is dead iff `hp <= 0`, win iff alive at 600 s or more, level-up iff alive, earlier and at the XP threshold, else playing |
| Progression.Game.Frame | main.py:412-667 | elapsed time grows by `dt`; when play runs after the events (it was playing, or the level-up screen was answered, with that option's bonus) damage and kills apply and the state and level follow `FrameChecks`; an unanswered level-up screen, win and death leave the state and every player field unchanged |
| Progression.Game.PlayingFrame | main.py:437-667 | the playing block applies damage and kills and sets state and level as `FrameChecks` says; nothing else changes |
| Progression.Player.constructor | main.py:103-116 | the dataclass defaults: hp 100, level 1, xp 0, speed 250, cooldown 0.5, mage, projectile 420/20, range 520 |
| Progression.Game.constructor | main.py:332-343 | the state starts at the champion menu with no time elapsed, and the player is at the world centre with the dataclass defaults |

## Left out

- Rendering, camera, fonts, window and event polling (`pygame`) are not modelled. Events enter as a sequence per frame.
- Random number generation is not modelled. Every `randint`/`choice` result is an input, and the ranges the grid and random phases draw from are preconditions.
- The grid candidate centres are not modelled: they come from float `uniform` jitter and `random.shuffle`, so the model takes the shuffled list as input.
- `spawn_mob`, mob steering, projectiles, lava pools, melee and ranged attacks, and player movement are float and trigonometric physics. One frame of it enters the model as the damage taken and the kills made.
- `circle_rect_collision` and `math.hypot` are not modelled. The obstacle core uses the exact integer squared-distance test instead.
- The spawn accumulator timing is not modelled. It is float arithmetic that only decides when mobs appear.
- pygame `Rect` behaviour for zero or negative sizes is not modelled; no such rectangle is built here.
- Generator.GenerateObstacles: the components are pinned down as the connected components of the adjacency (`Generator.Decomposition`), not in the exact visiting order of the depth-first search. The sort is stable, so that order breaks ties in degree; the contract leaves open which of several equal-degree members are removed.
- Progression.Game.Frame: player movement is not modelled, so the position stays fixed; the physics' effect on `hp` and `xp` is taken as given inputs.
- Progression.Game.PlayingFrame: likewise holds the position fixed, since movement is part of the unmodelled physics; its "nothing else changes" is about the modelled fields only.
- Progression.Player.constructor: the `attack_timer` field (main.py:111) is not modelled; only the attack code of the physics reads and sets it.
- The default `OBSTACLE_COUNT` of 80 is not a constant of the model: `count` is a parameter of `Generator.GenerateObstacles`.
