/** Integer rectangle geometry used by the obstacle generator: the world and
    tuning constants, the pygame Rect operations the generator relies on
    (inflate, colliderect, centre), clamping, and the "nearby" relation on
    obstacle centres. */
module Geometry {

  const WORLD_W: int := 2400
  const WORLD_H: int := 1800
  const NEAR_RADIUS: int := 120
  const MAX_NEARBY_OBSTACLES: int := 2
  const GRID_BIAS: int := 200
  const OBSTACLE_SAFETY_MARGIN: int := 8

  /** A pygame Rect: top-left corner and size. */
  datatype Rect = Rect(x: int, y: int, w: int, h: int) {
    function Left(): int { x }
    function Right(): int { x + w }
    function Top(): int { y }
    function Bottom(): int { y + h }
    /** pygame's centerx/centery: the corner plus half the size, rounded toward
        zero; for a non-negative size the centre lies within the rectangle,
        at most half a pixel left of (above) the true midpoint. */
    function CenterX(): (c: int)
      ensures w >= 0 ==> Left() <= c <= Right() && 2 * c <= Left() + Right() < 2 * c + 2
    {
      x + TruncHalf(w)
    }

    function CenterY(): (c: int)
      ensures h >= 0 ==> Top() <= c <= Bottom() && 2 * c <= Top() + Bottom() < 2 * c + 2
    {
      y + TruncHalf(h)
    }
  }

  /** C integer division by two, which rounds toward zero (Dafny's `/` is Euclidean). */
  function TruncHalf(v: int): (r: int)
    ensures v >= 0 ==> 0 <= r && 2 * r <= v < 2 * r + 2
    ensures v < 0 ==> r <= 0 && 2 * r - 2 < v <= 2 * r
  {
    if v >= 0 then v / 2 else -((-v) / 2)
  }

  /** clamp(v, a, b) = max(a, min(b, v)). */
  function Clamp(v: int, a: int, b: int): (r: int)
    ensures a <= b ==> a <= r <= b
    ensures a <= v <= b ==> r == v
    ensures v < a ==> r == a
    ensures a <= b < v ==> r == b
    ensures b < a ==> r == a
  {
    if b < v then (if a < b then b else a) else (if a < v then v else a)
  }

  /** Rect.inflate(dx, dy): grows the rectangle by dx, dy while keeping it centred. */
  function Inflate(r: Rect, dx: int, dy: int): (q: Rect)
    ensures q.w == r.w + dx && q.h == r.h + dy
    ensures dx >= 0 && dx % 2 == 0 ==> q.Left() == r.Left() - dx / 2 && q.Right() == r.Right() + dx / 2
    ensures dy >= 0 && dy % 2 == 0 ==> q.Top() == r.Top() - dy / 2 && q.Bottom() == r.Bottom() + dy / 2
  {
    Rect(r.x - TruncHalf(dx), r.y - TruncHalf(dy), r.w + dx, r.h + dy)
  }

  /** The rectangle covers pixel (px, py). */
  predicate Covers(r: Rect, px: int, py: int) {
    r.Left() <= px < r.Right() && r.Top() <= py < r.Bottom()
  }

  /** Rect.colliderect for rectangles of positive size: the interiors overlap,
      that is, the two rectangles share a pixel. */
  predicate CollideRect(a: Rect, b: Rect): (c: bool)
    ensures a.w > 0 && a.h > 0 && b.w > 0 && b.h > 0 ==>
      (c <==> exists px, py :: Covers(a, px, py) && Covers(b, px, py))
  {
    var px := if a.Left() < b.Left() then b.Left() else a.Left();
    var py := if a.Top() < b.Top() then b.Top() else a.Top();
    assert (a.w > 0 && a.h > 0 && b.w > 0 && b.h > 0 &&
            a.Left() < b.Right() && b.Left() < a.Right() && a.Top() < b.Bottom() && b.Top() < a.Bottom())
      ==> Covers(a, px, py) && Covers(b, px, py);
    a.Left() < b.Right() && b.Left() < a.Right() && a.Top() < b.Bottom() && b.Top() < a.Bottom()
  }

  /** The rectangle inflated by the safety margin on every side. */
  function WithMargin(r: Rect): (q: Rect)
    ensures q.Left() == r.Left() - OBSTACLE_SAFETY_MARGIN && q.Right() == r.Right() + OBSTACLE_SAFETY_MARGIN
    ensures q.Top() == r.Top() - OBSTACLE_SAFETY_MARGIN && q.Bottom() == r.Bottom() + OBSTACLE_SAFETY_MARGIN
  {
    Inflate(r, OBSTACLE_SAFETY_MARGIN * 2, OBSTACLE_SAFETY_MARGIN * 2)
  }

  /** Inflating either rectangle by the margin gives the same collision test,
      and the test fails exactly when the two are at least a margin apart on
      some axis. */
  lemma MarginCollisionSymmetric(a: Rect, b: Rect)
    ensures CollideRect(WithMargin(a), b) <==> CollideRect(WithMargin(b), a)
    ensures !CollideRect(WithMargin(a), b) <==>
      (b.Right() + OBSTACLE_SAFETY_MARGIN <= a.Left() || a.Right() + OBSTACLE_SAFETY_MARGIN <= b.Left() ||
       b.Bottom() + OBSTACLE_SAFETY_MARGIN <= a.Top() || a.Bottom() + OBSTACLE_SAFETY_MARGIN <= b.Top())
  {
    var ma, mb := WithMargin(a), WithMargin(b);
    assert ma.Left() == a.Left() - OBSTACLE_SAFETY_MARGIN && ma.Right() == a.Right() + OBSTACLE_SAFETY_MARGIN;
    assert mb.Left() == b.Left() - OBSTACLE_SAFETY_MARGIN && mb.Right() == b.Right() + OBSTACLE_SAFETY_MARGIN;
  }

  /** The rectangle lies inside the world: 0 <= x <= WORLD_W - w and 0 <= y <= WORLD_H - h. */
  predicate InWorld(r: Rect) {
    0 <= r.x <= WORLD_W - r.w && 0 <= r.y <= WORLD_H - r.h
  }

  /** The player's spawn area at the centre of the world, kept free of obstacles. */
  const CENTER_AREA: Rect := Rect(WORLD_W / 2 - 400, WORLD_H / 2 - 300, 800, 600)

  function Sq(d: int): (q: int)
    ensures q >= 0 && (q == 0 <==> d == 0)
    ensures q >= (if d < 0 then -d else d)
  {
    var e: nat := if d < 0 then -d else d;
    SqBound(e);
    assert d * d == e * e;
    d * d
  }

  lemma SqBound(d: nat)
    ensures d * d >= d && (d > 0 ==> d * d > 0)
  {
    if d > 0 {
      assert d * d == d * (d - 1) + d;
      assert d * (d - 1) >= 0;
    }
  }

  /** The squared distance between the centres of two rectangles: zero
      exactly when the centres coincide. */
  function CentreDistSq(a: Rect, b: Rect): (d: int)
    ensures d >= 0
    ensures d == 0 <==> a.CenterX() == b.CenterX() && a.CenterY() == b.CenterY()
  {
    Sq(a.CenterX() - b.CenterX()) + Sq(a.CenterY() - b.CenterY())
  }

  /** distance(centre a, centre b) < NEAR_RADIUS, stated exactly on integers;
      near centres are then closer than NEAR_RADIUS on each axis, and a
      rectangle is near any rectangle with the same centre. */
  predicate Near(a: Rect, b: Rect): (n: bool)
    ensures n ==> -NEAR_RADIUS < a.CenterX() - b.CenterX() < NEAR_RADIUS && -NEAR_RADIUS < a.CenterY() - b.CenterY() < NEAR_RADIUS
    ensures a.CenterX() == b.CenterX() && a.CenterY() == b.CenterY() ==> n
  {
    var dx, dy := a.CenterX() - b.CenterX(), a.CenterY() - b.CenterY();
    SqAtLeast(dx, NEAR_RADIUS);
    SqAtLeast(dy, NEAR_RADIUS);
    CentreDistSq(a, b) < NEAR_RADIUS * NEAR_RADIUS
  }

  /** A number at least r away from zero has a square of at least r * r. */
  lemma SqAtLeast(d: int, r: int)
    ensures r >= 0 && (d >= r || d <= -r) ==> Sq(d) >= r * r
  {
    var e := if d < 0 then -d else d;
    assert Sq(d) == e * e;
    if r >= 0 && e >= r {
      assert e * e >= r * e;
      assert r * e >= r * r;
    }
  }

  lemma NearSymmetric(a: Rect, b: Rect)
    ensures CentreDistSq(a, b) == CentreDistSq(b, a)
    ensures Near(a, b) == Near(b, a)
  {
    var dx, dy := a.CenterX() - b.CenterX(), a.CenterY() - b.CenterY();
    assert Sq(dx) == Sq(-dx) && Sq(dy) == Sq(-dy);
  }
}
