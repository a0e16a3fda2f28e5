/**
 * The pairwise intersection tests of `intersect.ts` and the helpers they share.
 * Every test is a function of its shapes; `enlargeAABB`, which updates the corners of
 * a box in place, is a method on the two corner vectors.
 * Square roots and trigonometry are not computed: a length is passed in as a
 * parameter characterised by its square, an angle as its cosine and sine.
 */
module Intersect {
  import opened Options
  import opened Utils
  import opened Vec2Algebra
  import opened Shapes
  import Vector2
  import Gjk

  // Helpers.

  /** `parallel`: the two directions have a cross product of exactly zero; no normalisation needed. */
  predicate AreParallel(v1: Vec2Like, v2: Vec2Like) {
    v1.x * v2.y - v1.y * v2.x == 0.0
  }

  /** Being parallel is symmetric, every vector is parallel to itself and to the zero vector. */
  lemma AreParallelProperties(v1: Vec2Like, v2: Vec2Like, k: real)
    ensures AreParallel(v1, v2) <==> Cross(v1, v2) == 0.0
    ensures AreParallel(v1, v2) == AreParallel(v2, v1)
    ensures AreParallel(v1, Scaled(v1, k)) && AreParallel(v1, Zero)
  {
  }

  /** A scalar step: `(a x b) d + (b x d) a + (d x a) b = 0` componentwise. */
  lemma CrossCycle(ux: real, uy: real, vx: real, vy: real, wx: real, wy: real)
    ensures (ux * vy - uy * vx) * wx + (vx * wy - vy * wx) * ux + (wx * uy - wy * ux) * vx == 0.0
    ensures (ux * vy - uy * vx) * wy + (vx * wy - vy * wx) * uy + (wx * uy - wy * ux) * vy == 0.0
  {
  }

  /** A scalar step: a number that sends a non-zero vector to zero is zero. */
  lemma ZeroFactor(k: real, vx: real, vy: real)
    requires k * vx == 0.0 && k * vy == 0.0
    requires vx != 0.0 || vy != 0.0
    ensures k == 0.0
  {
  }

  /** Two vectors parallel to the same non-zero vector are parallel to each other. */
  lemma AreParallelTransitive(a: Vec2Like, b: Vec2Like, d: Vec2Like)
    requires AreParallel(a, b) && AreParallel(b, d)
    requires b != Zero
    ensures AreParallel(a, d)
  {
    CrossCycle(a.x, a.y, b.x, b.y, d.x, d.y);
    ZeroFactor(d.x * a.y - d.y * a.x, b.x, b.y);
  }

  /**
   * `whichSide`: zero when `p` is on the line, otherwise positive on one side and
   * negative on the other.
   */
  function WhichSide(line: Line, p: Vec2Like): real
  {
    var x := Difference(p, line.position);
    var n := Vec2Like(-line.direction.y, line.direction.x);
    Dot(n, x)
  }

  /**
   * `whichSide` is the cross product of the direction with `p - position`. Points of
   * the line give zero; moving along the direction keeps the side; the mirror images
   * `position + a` and `position - a` get opposite signs; reversing the direction
   * flips every sign.
   */
  lemma WhichSideProperties(line: Line, p: Vec2Like, a: Vec2Like, t: real)
    ensures WhichSide(line, p) == Cross(line.direction, Difference(p, line.position))
    ensures WhichSide(line, PointAt(line.position, line.direction, t)) == 0.0
    ensures WhichSide(line, PointAt(p, line.direction, t)) == WhichSide(line, p)
    ensures WhichSide(line, Sum(line.position, a)) == -WhichSide(line, Difference(line.position, a))
    ensures WhichSide(Line(line.position, Negated(line.direction)), p) == -WhichSide(line, p)
  {
    var d := line.direction;
    assert Cross(d, Scaled(d, t)) == 0.0;
    assert Cross(d, Difference(PointAt(p, d, t), line.position)) == Cross(d, Difference(p, line.position)) + Cross(d, Scaled(d, t));
  }

  /** `whichSide` as a cross product, for use in other proofs. */
  lemma WhichSideIsCross(line: Line, p: Vec2Like)
    ensures WhichSide(line, p) == Cross(line.direction, Difference(p, line.position))
  {
  }

  /** The cases checked by the library's tests. */
  lemma WhichSideExamples()
    ensures WhichSide(Line(Vec2Like(1.0, 1.0), Vec2Like(2.0, 1.0)), Vec2Like(2.0, 2.0)) > 0.0
    ensures WhichSide(Line(Vec2Like(1.0, 1.0), Vec2Like(2.0, 1.0)), Vec2Like(2.0, 1.0)) < 0.0
    ensures WhichSide(Line(Vec2Like(1.0, 1.0), Vec2Like(2.0, 2.0)), Vec2Like(1.0, 1.0)) == 0.0
  {
    assert WhichSide(Line(Vec2Like(1.0, 1.0), Vec2Like(2.0, 1.0)), Vec2Like(2.0, 2.0)) > 0.0 by {}
    assert WhichSide(Line(Vec2Like(1.0, 1.0), Vec2Like(2.0, 1.0)), Vec2Like(2.0, 1.0)) < 0.0 by {}
  }

  /** One of the four corner numbers `0`, `1`, `2`, `3`. */
  predicate IsCornerIndex(idx: real) {
    idx == 0.0 || idx == 1.0 || idx == 2.0 || idx == 3.0
  }

  /**
   * `getAABBCorner`: corners 0 to 3 are `(max.x, max.y)`, `(min.x, max.y)`,
   * `(min.x, min.y)` and `(max.x, min.y)`; any other index gives no corner.
   */
  function GetAABBCorner(aabb: AABB, idx: real): (r: Option<Vec2Like>)
    ensures r.Some? <==> IsCornerIndex(idx)
    ensures r.Some? ==> (r.value.x == aabb.min.x || r.value.x == aabb.max.x) && (r.value.y == aabb.min.y || r.value.y == aabb.max.y)
    ensures idx == 0.0 ==> r == Some(aabb.max)
    ensures idx == 1.0 ==> r == Some(Vec2Like(aabb.min.x, aabb.max.y))
    ensures idx == 2.0 ==> r == Some(aabb.min)
    ensures idx == 3.0 ==> r == Some(Vec2Like(aabb.max.x, aabb.min.y))
  {
    if idx == 0.0 then Some(Vec2Like(aabb.max.x, aabb.max.y))
    else if idx == 1.0 then Some(Vec2Like(aabb.min.x, aabb.max.y))
    else if idx == 2.0 then Some(Vec2Like(aabb.min.x, aabb.min.y))
    else if idx == 3.0 then Some(Vec2Like(aabb.max.x, aabb.min.y))
    else None
  }

  /**
   * The four corners are exactly the four combinations of the bounds, they lie in a
   * well-formed box, and consecutive corners (0-1, 1-2, 2-3, 3-0) share one coordinate.
   */
  lemma AABBCorners(aabb: AABB)
    ensures {GetAABBCorner(aabb, 0.0).value, GetAABBCorner(aabb, 1.0).value, GetAABBCorner(aabb, 2.0).value, GetAABBCorner(aabb, 3.0).value}
         == {aabb.min, aabb.max, Vec2Like(aabb.min.x, aabb.max.y), Vec2Like(aabb.max.x, aabb.min.y)}
    ensures aabb.min.x <= aabb.max.x && aabb.min.y <= aabb.max.y ==>
      forall idx | IsCornerIndex(idx) :: AabbToVec(aabb, GetAABBCorner(aabb, idx).value)
    ensures GetAABBCorner(aabb, 0.0).value.y == GetAABBCorner(aabb, 1.0).value.y
    ensures GetAABBCorner(aabb, 1.0).value.x == GetAABBCorner(aabb, 2.0).value.x
    ensures GetAABBCorner(aabb, 2.0).value.y == GetAABBCorner(aabb, 3.0).value.y
    ensures GetAABBCorner(aabb, 3.0).value.x == GetAABBCorner(aabb, 0.0).value.x
  {
  }

  /** Corner `idx` of a box in its own frame: `halfExtend` with the signs `getBoxCorner` applies. */
  function LocalBoxCorner(h: Vec2Like, idx: real): Vec2Like {
    if idx == 1.0 then Vec2Like(h.x * -1.0, h.y)
    else if idx == 2.0 then Negated(h)
    else if idx == 3.0 then Vec2Like(h.x, h.y * -1.0)
    else h
  }

  /**
   * `getBoxCorner`, where `c` and `s` are the cosine and sine of `b.angle`: no corner
   * for an index below 0 or above 3; otherwise a signed half extent turned by the angle
   * and moved to the box's position.
   */
  function GetBoxCorner(b: Box, idx: real, c: real, s: real): (r: Option<Vec2Like>)
    ensures r.None? <==> idx < 0.0 || idx > 3.0
  {
    if idx < 0.0 || idx > 3.0 then None
    else Some(Sum(Rotated(LocalBoxCorner(b.halfExtend, idx), c, s), b.position))
  }

  /**
   * `getBoxEdge`, with the angle given by its cosine `c` and sine `s`: no edge for an
   * index below 0 or above 3; otherwise the segment between two signed half extents,
   * turned and moved like the corners.
   */
  function GetBoxEdge(b: Box, idx: real, c: real, s: real): (r: Option<Segment>)
    ensures r.None? <==> idx < 0.0 || idx > 3.0
  {
    if idx < 0.0 || idx > 3.0 then None
    else
      var h := b.halfExtend;
      var (v1, v2) :=
        if idx == 0.0 then (h, Vec2Like(h.x * -1.0, h.y))
        else if idx == 1.0 then (Vec2Like(h.x * -1.0, h.y), Negated(h))
        else if idx == 2.0 then (Negated(h), Vec2Like(h.x, h.y * -1.0))
        else (Vec2Like(h.x, h.y * -1.0), h);
      Some(Segment(Sum(Rotated(v1, c, s), b.position), Sum(Rotated(v2, c, s), b.position)))
  }

  /**
   * For a genuine cosine/sine pair, every corner of a box, taken back into the box's
   * own frame (moved by `-position`, turned by `-angle`), is `(±halfExtend.x, ±halfExtend.y)`,
   * and so lies at the distance of `halfExtend` from the centre.
   */
  lemma BoxCornerInFrame(b: Box, idx: real, c: real, s: real)
    requires c * c + s * s == 1.0
    requires GetBoxCorner(b, idx, c, s).Some?
    ensures var local := Rotated(Difference(GetBoxCorner(b, idx, c, s).value, b.position), c, -s);
      Abs(local.x) == Abs(b.halfExtend.x) && Abs(local.y) == Abs(b.halfExtend.y)
    ensures LengthSq(Difference(GetBoxCorner(b, idx, c, s).value, b.position)) == LengthSq(b.halfExtend)
  {
    var corner := LocalBoxCorner(b.halfExtend, idx);
    RotatedIsometry(corner, c, s);
    assert Difference(GetBoxCorner(b, idx, c, s).value, b.position) == Rotated(corner, c, s);
  }

  /** Edge `i` runs from corner `i` to corner `i + 1`, and edge 3 back to corner 0. */
  lemma BoxEdgesJoinCorners(b: Box, c: real, s: real)
    ensures GetBoxEdge(b, 0.0, c, s).value == Segment(GetBoxCorner(b, 0.0, c, s).value, GetBoxCorner(b, 1.0, c, s).value)
    ensures GetBoxEdge(b, 1.0, c, s).value == Segment(GetBoxCorner(b, 1.0, c, s).value, GetBoxCorner(b, 2.0, c, s).value)
    ensures GetBoxEdge(b, 2.0, c, s).value == Segment(GetBoxCorner(b, 2.0, c, s).value, GetBoxCorner(b, 3.0, c, s).value)
    ensures GetBoxEdge(b, 3.0, c, s).value == Segment(GetBoxCorner(b, 3.0, c, s).value, GetBoxCorner(b, 0.0, c, s).value)
  {
  }

  /**
   * An index strictly between 0 and 3 that is not a whole number is not rejected:
   * it yields corner 0 and edge 3.
   */
  lemma BoxFractionalIndex(b: Box, idx: real, c: real, s: real)
    requires 0.0 <= idx <= 3.0 && !IsCornerIndex(idx)
    ensures GetBoxCorner(b, idx, c, s) == GetBoxCorner(b, 0.0, c, s)
    ensures GetBoxEdge(b, idx, c, s) == GetBoxEdge(b, 3.0, c, s)
  {
  }

  /** `aabbToVec`: `v` lies in the closed box. */
  predicate AabbToVec(aabb: AABB, v: Vec2Like) {
    aabb.min.x <= v.x && v.x <= aabb.max.x &&
    aabb.min.y <= v.y && v.y <= aabb.max.y
  }

  /** The box `enlargeAABB(aabb, p)` leaves: each bound moved just far enough to take in `p`. */
  function Enlarged(aabb: AABB, p: Vec2Like): AABB {
    AABB(Vec2Like(Min(aabb.min.x, p.x), Min(aabb.min.y, p.y)),
         Vec2Like(Max(aabb.max.x, p.x), Max(aabb.max.y, p.y)))
  }

  /**
   * `enlargeAABB` on a box whose corners are the objects `min` and `max`, updated in
   * place. When both corners are one and the same object, that object ends up equal to `p`.
   */
  method EnlargeAABB(min: Vector2.Vec2, max: Vector2.Vec2, p: Vec2Like)
    modifies min, max
    ensures min != max ==> AABB(min.Value(), max.Value()) == Enlarged(old(AABB(min.Value(), max.Value())), p)
    ensures min == max ==> min.Value() == p
  {
    min.x := Min(min.x, p.x);
    max.x := Max(max.x, p.x);
    min.y := Min(min.y, p.y);
    max.y := Max(max.y, p.y);
  }

  /**
   * After enlarging, the box contains `p`, still contains every point it contained,
   * and is contained in any box that contains both the old box and `p`.
   */
  lemma EnlargedContains(aabb: AABB, p: Vec2Like, q: Vec2Like, outer: AABB)
    ensures AabbToVec(Enlarged(aabb, p), p)
    ensures AabbToVec(aabb, q) ==> AabbToVec(Enlarged(aabb, p), q)
    ensures AabbToVec(outer, aabb.min) && AabbToVec(outer, aabb.max) && AabbToVec(outer, p) && AabbToVec(Enlarged(aabb, p), q) ==>
      AabbToVec(outer, q)
  {
  }

  // Predicates on pairs of shapes.

  /** `aabbToAABB`: the two boxes overlap on both axes, closed intervals. */
  predicate AabbToAABB(a: AABB, b: AABB) {
    Overlap(a.min.x, a.max.x, b.min.x, b.max.x) &&
    Overlap(a.min.y, a.max.y, b.min.y, b.max.y)
  }

  /**
   * `aabbToAABB` does not depend on the order of the boxes, and for well-formed boxes it
   * holds exactly when they share a point (boxes that only touch count).
   */
  lemma AabbToAABBCommonPoint(a: AABB, b: AABB)
    ensures AabbToAABB(a, b) == AabbToAABB(b, a)
    ensures a.min.x <= a.max.x && a.min.y <= a.max.y && b.min.x <= b.max.x && b.min.y <= b.max.y ==>
      (AabbToAABB(a, b) <==> exists p :: AabbToVec(a, p) && AabbToVec(b, p))
  {
    if AabbToAABB(a, b) {
      var p := Vec2Like(Max(a.min.x, b.min.x), Max(a.min.y, b.min.y));
      assert a.min.x <= a.max.x && a.min.y <= a.max.y && b.min.x <= b.max.x && b.min.y <= b.max.y ==>
        AabbToVec(a, p) && AabbToVec(b, p);
    }
  }

  /** The cases checked by the library's tests. */
  lemma AabbToAABBExamples()
    ensures AabbToAABB(AABB(Vec2Like(1.0, 1.0), Vec2Like(3.0, 2.0)), AABB(Vec2Like(2.0, 1.5), Vec2Like(4.0, 3.0)))
    ensures !AabbToAABB(AABB(Vec2Like(1.0, 1.0), Vec2Like(3.0, 2.0)), AABB(Vec2Like(4.0, 2.0), Vec2Like(5.0, 5.0)))
  {
  }

  /** `circleToVec`: `v` lies in the closed disc. */
  predicate CircleToVec(c: Circle, v: Vec2Like) {
    var dx := v.x - c.position.x;
    var dy := v.y - c.position.y;
    dx * dx + dy * dy <= c.radius * c.radius
  }

  /** A circle contains its centre and, since the test is `<=`, every point of its rim. */
  lemma CircleToVecBoundary(c: Circle, v: Vec2Like)
    ensures CircleToVec(c, c.position)
    ensures LengthSq(Difference(v, c.position)) == c.radius * c.radius ==> CircleToVec(c, v)
  {
  }

  /** `circleToCircle`: the squared distance of the centres is at most the squared sum of the radii. */
  predicate CircleToCircle(a: Circle, b: Circle) {
    var d := Difference(b.position, a.position);
    var d2 := LengthSq(d);
    var r := b.radius + a.radius;
    d2 <= r * r
  }

  /** A scalar step: multiplication is monotone on non-negative numbers. */
  lemma MulMono(a: real, b: real, c: real, d: real)
    requires 0.0 <= a <= b && 0.0 <= c <= d
    ensures a * c <= b * d
  {
    assert a * c <= b * c;
    assert b * c <= b * d;
  }

  /** A scalar step: a square is never negative. */
  lemma SquareNonNegative(x: real)
    ensures x * x >= 0.0
  {
    if x < 0.0 {
      Gjk.PositiveProduct(-x, -x);
    } else if x > 0.0 {
      Gjk.PositiveProduct(x, x);
    }
  }

  /** A scalar step: squaring is strictly monotone on non-negative numbers. */
  lemma SquareMono(x: real, y: real)
    requires 0.0 <= y < x
    ensures y * y < x * x
  {
    Gjk.PositiveProduct(x - y, x + y);
    assert x * x - y * y == (x - y) * (x + y);
  }

  /**
   * A scalar step: if `u` and `w` have squared lengths at most `ra^2` and `rb^2`,
   * their difference has squared length at most `(ra + rb)^2`.
   */
  lemma TriangleSquared(ux: real, uy: real, wx: real, wy: real, ra: real, rb: real)
    requires ra >= 0.0 && rb >= 0.0
    requires ux * ux + uy * uy <= ra * ra && wx * wx + wy * wy <= rb * rb
    ensures (ux - wx) * (ux - wx) + (uy - wy) * (uy - wy) <= (rb + ra) * (rb + ra)
  {
    var uu, ww := ux * ux + uy * uy, wx * wx + wy * wy;
    var p := ux * wx + uy * wy;
    var q := ux * wy - uy * wx;
    assert p * p + q * q == uu * ww;
    SquareNonNegative(ux);
    SquareNonNegative(uy);
    SquareNonNegative(wx);
    SquareNonNegative(wy);
    SquareNonNegative(q);
    MulMono(uu, ra * ra, ww, rb * rb);
    assert (ra * ra) * (rb * rb) == (ra * rb) * (ra * rb);
    MulMono(0.0, ra, 0.0, rb);
    if -p > ra * rb {
      SquareMono(-p, ra * rb);
      assert false;
    }
    assert (ux - wx) * (ux - wx) + (uy - wy) * (uy - wy) == uu + ww - 2.0 * p;
    assert (rb + ra) * (rb + ra) == ra * ra + rb * rb + 2.0 * (ra * rb);
  }

  /** `circleToCircle` does not depend on the order of the circles. */
  lemma CircleToCircleSymmetric(a: Circle, b: Circle)
    ensures CircleToCircle(a, b) == CircleToCircle(b, a)
  {
    assert LengthSq(Difference(b.position, a.position)) == LengthSq(Difference(a.position, b.position));
    assert (b.radius + a.radius) * (b.radius + a.radius) == (a.radius + b.radius) * (a.radius + b.radius);
  }

  /** Two circles with non-negative radii whose closed discs share a point `q` intersect. */
  lemma CircleToCircleSharedPoint(a: Circle, b: Circle, q: Vec2Like)
    requires a.radius >= 0.0 && b.radius >= 0.0 && CircleToVec(a, q) && CircleToVec(b, q)
    ensures CircleToCircle(a, b)
  {
    var u := Difference(q, a.position);
    var w := Difference(q, b.position);
    TriangleSquared(u.x, u.y, w.x, w.y, a.radius, b.radius);
    assert Difference(b.position, a.position) == Difference(u, w);
  }

  /**
   * `circleToCircle` does not depend on the order of the circles, holds for concentric
   * circles, and holds whenever the two closed discs (non-negative radii) share a point.
   */
  lemma CircleToCircleProperties(a: Circle, b: Circle, q: Vec2Like)
    ensures CircleToCircle(a, b) == CircleToCircle(b, a)
    ensures a.position == b.position ==> CircleToCircle(a, b)
    ensures a.radius >= 0.0 && b.radius >= 0.0 && CircleToVec(a, q) && CircleToVec(b, q) ==> CircleToCircle(a, b)
  {
    CircleToCircleSymmetric(a, b);
    SquareNonNegative(b.radius + a.radius);
    if a.radius >= 0.0 && b.radius >= 0.0 && CircleToVec(a, q) && CircleToVec(b, q) {
      CircleToCircleSharedPoint(a, b, q);
    }
  }

  /** The cases checked by the library's tests. */
  lemma CircleToCircleExamples()
    ensures CircleToCircle(Circle(Vec2Like(1.0, 2.0), 1.0), Circle(Vec2Like(2.0, 3.0), 1.0))
    ensures !CircleToCircle(Circle(Vec2Like(1.0, 2.0), 1.0), Circle(Vec2Like(3.0, 4.0), 1.0))
  {
    assert LengthSq(Vec2Like(1.0, 1.0)) == 2.0;
    assert LengthSq(Vec2Like(2.0, 2.0)) == 8.0;
  }

  /**
   * `circleToCircleContact`, where `dist` is the distance of the centres (`Math.sqrt` of
   * their squared distance): no contact exactly when the circles do not touch.
   * Otherwise the separation is `dist` minus the sum of the radii, the normal is the
   * centre-to-centre vector normalised (`length() || 1`), and the point lies
   * `radius + separation` along the normal from the first centre.
   */
  function CircleToCircleContact(a: Circle, b: Circle, dist: real): (r: Option<Contact>)
    requires dist >= 0.0 && dist * dist == LengthSq(Difference(b.position, a.position))
    ensures r.None? <==> !CircleToCircle(a, b)
  {
    var d := Difference(b.position, a.position);
    var d2 := LengthSq(d);
    var rr := a.radius + b.radius;
    if d2 <= rr * rr then
      var separation := dist - rr;
      var normal := Normalized(d, if dist > 0.0 then dist else 1.0);
      var point := Sum(Scaled(normal, a.radius + separation), a.position);
      Some(Contact(point, separation, normal))
    else
      None
  }

  /** For touching circles with non-negative radii the separation, `dist` minus the radii, is at most zero. */
  lemma ContactSeparation(a: Circle, b: Circle, dist: real)
    requires dist >= 0.0 && dist * dist == LengthSq(Difference(b.position, a.position))
    requires CircleToCircle(a, b)
    ensures CircleToCircleContact(a, b, dist).value.separation == dist - (a.radius + b.radius)
    ensures a.radius + b.radius >= 0.0 ==> CircleToCircleContact(a, b, dist).value.separation <= 0.0
  {
    var rr := a.radius + b.radius;
    if rr >= 0.0 && dist > rr {
      SquareMono(dist, rr);
      assert false;
    }
  }

  /** A scalar step: the contact point seen from the second centre. */
  lemma ContactPointScalar(ax: real, bx: real, ra: real, rb: real, dist: real, nx: real)
    requires dist > 0.0 && nx == (bx - ax) / dist
    ensures nx * (ra + (dist - (ra + rb))) + ax == bx - nx * rb
  {
    assert nx * dist == bx - ax;
  }

  /**
   * When the centres of touching circles are apart, the normal is a unit vector pointing
   * from the first centre to the second, and the point lies on the second circle's rim,
   * `radius` back along the normal from its centre.
   */
  lemma ContactNormal(a: Circle, b: Circle, dist: real)
    requires dist > 0.0 && dist * dist == LengthSq(Difference(b.position, a.position))
    requires CircleToCircle(a, b)
    ensures var r := CircleToCircleContact(a, b, dist).value;
      LengthSq(r.normal) == 1.0 && Dot(r.normal, Difference(b.position, a.position)) == dist &&
      r.point == Difference(b.position, Scaled(r.normal, b.radius))
  {
    var d := Difference(b.position, a.position);
    var n := Normalized(d, dist);
    assert CircleToCircleContact(a, b, dist).value.normal == n;
    assert IsLength(d, dist);
    NormalizedUnit(d, dist);
    assert n.x * dist == d.x && n.y * dist == d.y;
    assert Dot(n, d) * dist == LengthSq(d);
    ContactPointScalar(a.position.x, b.position.x, a.radius, b.radius, dist, n.x);
    ContactPointScalar(a.position.y, b.position.y, a.radius, b.radius, dist, n.y);
  }

  /** Concentric circles always touch, with the zero normal and the common centre as contact point. */
  lemma ContactConcentric(a: Circle, b: Circle, dist: real)
    requires a.position == b.position && dist == 0.0
    ensures CircleToCircle(a, b)
    ensures CircleToCircleContact(a, b, dist).value.normal == Zero
    ensures CircleToCircleContact(a, b, dist).value.point == a.position
  {
    SquareNonNegative(a.radius + b.radius);
    assert Difference(b.position, a.position) == Zero;
    var r := CircleToCircleContact(a, b, dist).value;
    assert r.normal == Normalized(Zero, 1.0);
    assert r.point == Sum(Scaled(Zero, a.radius + r.separation), a.position);
  }

  /** `vecToVec`: the two points are equal, the same exact comparison as `Vec2.equal`. */
  function VecToVec(a: Vec2Like, b: Vec2Like): (r: bool)
    ensures r <==> a == b
  {
    Equal(a, b)
  }

  /**
   * The left-hand side of the line equation `n . p + d` that `vecToLine`, `vecToSegment`
   * and `aabbToLine` evaluate, with `n` the direction turned by 270 degrees and
   * `d = -n . position`.
   */
  function LineEquation(l: Line, p: Vec2Like): real {
    var n := Rotated270(l.direction);
    var d := -Dot(n, l.position);
    Dot(n, p) + d
  }

  /** The line equation and `whichSide` compute the same number. */
  lemma LineEquationIsWhichSide(l: Line, p: Vec2Like)
    ensures LineEquation(l, p) == WhichSide(l, p)
  {
    WhichSideIsCross(l, p);
  }

  /** `vecToLine`: `v` satisfies the line equation. */
  predicate VecToLine(v: Vec2Like, l: Line) {
    LineEquation(l, v) == 0.0
  }

  /** `vecToLine` holds exactly when `whichSide` is zero. */
  lemma VecToLineWhichSide(v: Vec2Like, l: Line)
    ensures VecToLine(v, l) <==> WhichSide(l, v) == 0.0
  {
    LineEquationIsWhichSide(l, v);
  }

  /** A scalar step: a vector with zero cross product against a non-zero `w` is a multiple of `w`. */
  lemma MultipleOf(ux: real, uy: real, wx: real, wy: real, ll: real)
    requires ll == wx * wx + wy * wy && ll > 0.0 && wx * uy - wy * ux == 0.0
    ensures ux == wx * ((ux * wx + uy * wy) / ll) && uy == wy * ((ux * wx + uy * wy) / ll)
  {
    var p := ux * wx + uy * wy;
    var k := p / ll;
    assert k * ll == p;
    assert wx * p == ux * ll;
    assert wy * p == uy * ll;
    assert (wx * k) * ll == ux * ll;
    assert (wy * k) * ll == uy * ll;
  }

  /** A point on a line with a non-zero direction is `position + t * direction` for some `t`. */
  lemma OnLineHasParameter(v: Vec2Like, l: Line)
    requires LengthSq(l.direction) > 0.0 && VecToLine(v, l)
    ensures exists t :: v == PointAt(l.position, l.direction, t)
  {
    VecToLineWhichSide(v, l);
    WhichSideIsCross(l, v);
    var u := Difference(v, l.position);
    var w := l.direction;
    MultipleOf(u.x, u.y, w.x, w.y, LengthSq(w));
    var t := (u.x * w.x + u.y * w.y) / LengthSq(w);
    assert v == PointAt(l.position, w, t);
  }

  /** Every point `position + t * direction` satisfies `vecToLine`. */
  lemma ParameterIsOnLine(l: Line, t: real)
    ensures VecToLine(PointAt(l.position, l.direction, t), l)
  {
    var v := PointAt(l.position, l.direction, t);
    VecToLineWhichSide(v, l);
    WhichSideProperties(l, v, v, t);
  }

  /** For a non-zero direction, `vecToLine` holds exactly when `v` is `position + t * direction` for some `t`. */
  lemma VecToLineOnLine(v: Vec2Like, l: Line)
    requires LengthSq(l.direction) > 0.0
    ensures VecToLine(v, l) <==> exists t :: v == PointAt(l.position, l.direction, t)
  {
    if VecToLine(v, l) {
      OnLineHasParameter(v, l);
    }
    if exists t :: v == PointAt(l.position, l.direction, t) {
      var t :| v == PointAt(l.position, l.direction, t);
      ParameterIsOnLine(l, t);
    }
  }

  /** `lineToLine`: lines with non-parallel directions always meet; parallel ones must share a point. */
  predicate LineToLine(a: Line, b: Line) {
    if AreParallel(a.direction, b.direction) then
      var d := Difference(a.position, b.position);
      AreParallel(d, b.direction)
    else
      true
  }

  /**
   * `lineToLine` is true for non-parallel directions; for parallel ones it holds
   * exactly when the first line's position lies on the second line.
   */
  lemma LineToLineParallel(a: Line, b: Line)
    ensures !AreParallel(a.direction, b.direction) ==> LineToLine(a, b)
    ensures AreParallel(a.direction, b.direction) ==> (LineToLine(a, b) <==> VecToLine(a.position, b))
  {
    VecToLineWhichSide(a.position, b);
    WhichSideIsCross(b, a.position);
  }

  /** For non-zero directions `lineToLine` does not depend on the order of the lines. */
  lemma LineToLineSymmetric(a: Line, b: Line)
    requires a.direction != Zero && b.direction != Zero
    ensures LineToLine(a, b) == LineToLine(b, a)
  {
    if AreParallel(a.direction, b.direction) {
      var d := Difference(a.position, b.position);
      var e := Difference(b.position, a.position);
      assert AreParallel(d, b.direction) <==> AreParallel(e, b.direction);
      assert AreParallel(d, a.direction) <==> AreParallel(e, a.direction);
      assert AreParallel(b.direction, a.direction);
      if AreParallel(e, b.direction) {
        AreParallelTransitive(e, b.direction, a.direction);
      }
      if AreParallel(d, a.direction) {
        AreParallelTransitive(d, a.direction, b.direction);
      }
    }
  }

  /** A scalar step: a common point of two parallel lines makes their offset parallel too. */
  lemma CommonPointScalar(px: real, py: real, ax: real, ay: real, qx: real, qy: real, bx: real, by_: real, s: real, t: real)
    requires px + ax * s == qx + bx * t && py + ay * s == qy + by_ * t
    requires ax * by_ - ay * bx == 0.0
    ensures (px - qx) * by_ - (py - qy) * bx == 0.0
  {
    assert px - qx == bx * t - ax * s;
    assert py - qy == by_ * t - ay * s;
  }

  /** Two lines that share a point intersect according to `lineToLine`. */
  lemma LineToLineCommonPoint(a: Line, b: Line, s: real, t: real)
    requires PointAt(a.position, a.direction, s) == PointAt(b.position, b.direction, t)
    ensures LineToLine(a, b)
  {
    if AreParallel(a.direction, b.direction) {
      CommonPointScalar(a.position.x, a.position.y, a.direction.x, a.direction.y,
                        b.position.x, b.position.y, b.direction.x, b.direction.y, s, t);
    }
  }

  /** The cases checked by the library's tests. */
  lemma LineToLineExamples()
    ensures LineToLine(Line(Vec2Like(1.0, 2.0), Vec2Like(1.0, 1.0)), Line(Vec2Like(2.0, 1.0), Vec2Like(1.0, -1.0)))
    ensures LineToLine(Line(Vec2Like(1.0, 1.0), Vec2Like(1.0, 1.0)), Line(Vec2Like(2.0, 2.0), Vec2Like(1.0, 1.0)))
    ensures !LineToLine(Line(Vec2Like(1.0, 2.0), Vec2Like(1.0, 1.0)), Line(Vec2Like(2.0, 1.0), Vec2Like(1.0, 1.0)))
  {
  }

  /**
   * The closed intervals spanned by `a1, a2` and by `b1, b2`, each taken in whichever
   * order is increasing (`if (t1 < t2)`), overlap.
   */
  predicate SortedOverlap(a1: real, a2: real, b1: real, b2: real) {
    var aMin := if a1 < a2 then a1 else a2;
    var aMax := if a1 < a2 then a2 else a1;
    var bMin := if b1 < b2 then b1 else b2;
    var bMax := if b1 < b2 then b2 else b1;
    Overlap(aMin, aMax, bMin, bMax)
  }

  /** `SortedOverlap` is `Overlap` of the two intervals, whatever the order of their end points. */
  lemma SortedOverlapIsOverlap(a1: real, a2: real, b1: real, b2: real)
    ensures SortedOverlap(a1, a2, b1, b2) == Overlap(Min(a1, a2), Max(a1, a2), Min(b1, b2), Max(b1, b2))
    ensures SortedOverlap(a1, a2, b1, b2) == SortedOverlap(a2, a1, b2, b1)
  {
  }

  /** A scalar step: a positive factor keeps the order of two numbers. */
  lemma ScaleKeepsOrder(x: real, y: real, k: real)
    requires k > 0.0
    ensures x < y <==> k * x < k * y
    ensures x <= y <==> k * x <= k * y
  {
    if x < y {
      Gjk.PositiveProduct(k, y - x);
    } else if y < x {
      Gjk.PositiveProduct(k, x - y);
    }
  }

  /** Scaling all four numbers by the same positive factor does not change `SortedOverlap`. */
  lemma SortedOverlapScaled(a1: real, a2: real, b1: real, b2: real, k: real)
    requires k > 0.0
    ensures SortedOverlap(k * a1, k * a2, k * b1, k * b2) == SortedOverlap(a1, a2, b1, b2)
  {
    var ka1, ka2, kb1, kb2 := k * a1, k * a2, k * b1, k * b2;
    ScaleKeepsOrder(a1, a2, k);
    ScaleKeepsOrder(b1, b2, k);
    assert a1 < a2 <==> ka1 < ka2;
    assert b1 < b2 <==> kb1 < kb2;
    if a1 < a2 {
      if b1 < b2 {
        OverlapScaled(a1, a2, b1, b2, k);
      } else {
        OverlapScaled(a1, a2, b2, b1, k);
      }
    } else {
      if b1 < b2 {
        OverlapScaled(a2, a1, b1, b2, k);
      } else {
        OverlapScaled(a2, a1, b2, b1, k);
      }
    }
  }

  /** The overlap test of the parallel branch of `segmentToSegment`: both segments projected on `dir`. */
  predicate ProjectionsOverlap(dir: Vec2Like, a: Segment, b: Segment) {
    SortedOverlap(Dot(dir, a.position), Dot(dir, a.endPosition), Dot(dir, b.position), Dot(dir, b.endPosition))
  }

  /**
   * `segmentToSegment`. False when the endpoints of either segment lie strictly on one
   * side of the other's line; for parallel segments, the projections of both segments
   * on the first segment's direction must overlap; otherwise true. The source projects
   * on the normalised direction; `ProjectionsOverlapNormalized` shows that this gives
   * the same answer, so the model projects on the direction itself.
   */
  predicate SegmentToSegment(a: Segment, b: Segment) {
    var dirA := Difference(a.endPosition, a.position);
    var axisA := Line(a.position, dirA);
    if WhichSide(axisA, b.position) * WhichSide(axisA, b.endPosition) > 0.0 then
      false
    else
      var dirB := Difference(b.endPosition, b.position);
      var axisB := Line(b.position, dirB);
      if WhichSide(axisB, a.position) * WhichSide(axisB, a.endPosition) > 0.0 then
        false
      else if AreParallel(axisA.direction, axisB.direction) then
        ProjectionsOverlap(dirA, a, b)
      else
        true
  }

  /** A scalar step: two numbers of the same strict sign have a positive product. */
  lemma SameSignProduct(a: real, b: real)
    requires (a > 0.0 && b > 0.0) || (a < 0.0 && b < 0.0)
    ensures a * b > 0.0
  {
    if a < 0.0 {
      Gjk.PositiveProduct(-a, -b);
      assert (-a) * (-b) == a * b;
    } else {
      Gjk.PositiveProduct(a, b);
    }
  }

  /**
   * `segmentToSegment` is false whenever both endpoints of one segment lie strictly on
   * the same side of the other segment's line.
   */
  lemma SegmentToSegmentSeparated(a: Segment, b: Segment)
    ensures var axisA := Line(a.position, Difference(a.endPosition, a.position));
      (WhichSide(axisA, b.position) > 0.0 && WhichSide(axisA, b.endPosition) > 0.0) ||
      (WhichSide(axisA, b.position) < 0.0 && WhichSide(axisA, b.endPosition) < 0.0) ==>
      !SegmentToSegment(a, b)
    ensures var axisB := Line(b.position, Difference(b.endPosition, b.position));
      (WhichSide(axisB, a.position) > 0.0 && WhichSide(axisB, a.endPosition) > 0.0) ||
      (WhichSide(axisB, a.position) < 0.0 && WhichSide(axisB, a.endPosition) < 0.0) ==>
      !SegmentToSegment(a, b)
  {
    var axisA := Line(a.position, Difference(a.endPosition, a.position));
    var axisB := Line(b.position, Difference(b.endPosition, b.position));
    var s1, s2 := WhichSide(axisA, b.position), WhichSide(axisA, b.endPosition);
    var t1, t2 := WhichSide(axisB, a.position), WhichSide(axisB, a.endPosition);
    if (s1 > 0.0 && s2 > 0.0) || (s1 < 0.0 && s2 < 0.0) {
      SameSignProduct(s1, s2);
    }
    if (t1 > 0.0 && t2 > 0.0) || (t1 < 0.0 && t2 < 0.0) {
      SameSignProduct(t1, t2);
    }
  }

  /**
   * The normalisation in the parallel branch of `segmentToSegment` does not matter:
   * projecting on the normalised direction (of length `len`) or on the direction
   * itself gives the same answer.
   */
  lemma ProjectionsOverlapNormalized(a: Segment, b: Segment, len: real)
    requires IsLength(Difference(a.endPosition, a.position), len)
    ensures ProjectionsOverlap(Normalized(Difference(a.endPosition, a.position), len), a, b)
         == ProjectionsOverlap(Difference(a.endPosition, a.position), a, b)
  {
    var d := Difference(a.endPosition, a.position);
    NormalizedPositiveMultiple(d, len);
    if Normalized(d, len) != d {
      ProjectionsScaled(d, 1.0 / len, a, b);
    }
  }

  /** The normalised vector is the vector itself or a positive multiple of it. */
  lemma NormalizedPositiveMultiple(d: Vec2Like, len: real)
    requires IsLength(d, len)
    ensures Normalized(d, len) == d || (1.0 / len > 0.0 && Normalized(d, len) == Scaled(d, 1.0 / len))
  {
    NormalizedUnit(d, len);
    if !(LengthSq(d) > 0.0) {
      assert len == 1.0;
    }
  }

  /** Projecting on a positive multiple of a direction gives the same overlap answer. */
  lemma ProjectionsScaled(d: Vec2Like, k: real, a: Segment, b: Segment)
    requires k > 0.0
    ensures ProjectionsOverlap(Scaled(d, k), a, b) == ProjectionsOverlap(d, a, b)
  {
    var n := Scaled(d, k);
    var y1, y2, y3, y4 := Dot(d, a.position), Dot(d, a.endPosition), Dot(d, b.position), Dot(d, b.endPosition);
    DotScaled(d, k, a.position);
    DotScaled(d, k, a.endPosition);
    DotScaled(d, k, b.position);
    DotScaled(d, k, b.endPosition);
    ProjectionsOverlapOf(n, a, b, k * y1, k * y2, k * y3, k * y4);
    SortedOverlapScaled(y1, y2, y3, y4, k);
  }

  /** `ProjectionsOverlap` in terms of the four projected values. */
  lemma ProjectionsOverlapOf(dir: Vec2Like, a: Segment, b: Segment, x1: real, x2: real, x3: real, x4: real)
    requires x1 == Dot(dir, a.position) && x2 == Dot(dir, a.endPosition)
    requires x3 == Dot(dir, b.position) && x4 == Dot(dir, b.endPosition)
    ensures ProjectionsOverlap(dir, a, b) == SortedOverlap(x1, x2, x3, x4)
  {
  }

  /** A scalar step: the dot product is linear in its first argument. */
  lemma DotScaled(d: Vec2Like, k: real, p: Vec2Like)
    ensures Dot(Scaled(d, k), p) == k * Dot(d, p)
  {
  }

  /** Along a segment, `whichSide` moves linearly from its value at one end to the other. */
  lemma WhichSideAlong(line: Line, s: Segment, t: real)
    ensures WhichSide(line, PointAt(s.position, Difference(s.endPosition, s.position), t))
         == WhichSide(line, s.position) + t * (WhichSide(line, s.endPosition) - WhichSide(line, s.position))
  {
  }

  /** Along a segment, the projection on `d` moves linearly from its value at one end to the other. */
  lemma DotAlong(d: Vec2Like, s: Segment, t: real)
    ensures Dot(d, PointAt(s.position, Difference(s.endPosition, s.position), t))
         == Dot(d, s.position) + t * (Dot(d, s.endPosition) - Dot(d, s.position))
  {
  }

  /** A scalar step: a number that an interpolation between `u` and `v` takes lies between them. */
  lemma BetweenEnds(u: real, v: real, t: real, x: real)
    requires 0.0 <= t <= 1.0 && x == u + t * (v - u)
    ensures Min(u, v) <= x <= Max(u, v)
  {
    if u <= v {
      MulMono(0.0, t, v - u, v - u);
      MulMono(t, 1.0, v - u, v - u);
    } else {
      MulMono(0.0, t, u - v, u - v);
      MulMono(t, 1.0, u - v, u - v);
    }
  }

  /** A scalar step: when an interpolation between `u` and `v` reaches zero, they do not share a strict sign. */
  lemma ZeroBetween(u: real, v: real, t: real)
    requires 0.0 <= t <= 1.0 && u + t * (v - u) == 0.0
    ensures !(u * v > 0.0)
  {
    BetweenEnds(u, v, t, 0.0);
    if u * v > 0.0 {
      if u > 0.0 && v < 0.0 {
        Gjk.PositiveProduct(u, -v);
      } else if u < 0.0 && v > 0.0 {
        Gjk.PositiveProduct(-u, v);
      }
    }
  }

  /**
   * Soundness of `segmentToSegment`: segments that share a point are reported as
   * intersecting.
   */
  lemma SegmentToSegmentCommonPoint(a: Segment, b: Segment, s: real, t: real)
    requires 0.0 <= s <= 1.0 && 0.0 <= t <= 1.0
    requires PointAt(a.position, Difference(a.endPosition, a.position), s)
          == PointAt(b.position, Difference(b.endPosition, b.position), t)
    ensures SegmentToSegment(a, b)
  {
    var dirA := Difference(a.endPosition, a.position);
    var dirB := Difference(b.endPosition, b.position);
    var q := PointAt(a.position, dirA, s);
    var axisA := Line(a.position, dirA);
    var axisB := Line(b.position, dirB);
    SideOfCommonPoint(axisA, b, t, q, s);
    SideOfCommonPoint(axisB, a, s, q, t);
    if AreParallel(dirA, dirB) {
      ProjectionOfCommonPoint(dirA, a, b, s, t);
    }
  }

  /** A step of `SegmentToSegmentCommonPoint`: a segment crossing a line at `q` has its ends on both sides. */
  lemma SideOfCommonPoint(line: Line, seg: Segment, t: real, q: Vec2Like, u: real)
    requires 0.0 <= t <= 1.0
    requires q == PointAt(seg.position, Difference(seg.endPosition, seg.position), t)
    requires q == PointAt(line.position, line.direction, u)
    ensures !(WhichSide(line, seg.position) * WhichSide(line, seg.endPosition) > 0.0)
  {
    WhichSideProperties(line, q, q, u);
    WhichSideAlong(line, seg, t);
    ZeroBetween(WhichSide(line, seg.position), WhichSide(line, seg.endPosition), t);
  }

  /** A step of `SegmentToSegmentCommonPoint`: the common point's projection lies in both projected intervals. */
  lemma ProjectionOfCommonPoint(d: Vec2Like, a: Segment, b: Segment, s: real, t: real)
    requires 0.0 <= s <= 1.0 && 0.0 <= t <= 1.0
    requires PointAt(a.position, Difference(a.endPosition, a.position), s)
          == PointAt(b.position, Difference(b.endPosition, b.position), t)
    ensures ProjectionsOverlap(d, a, b)
  {
    var x := Dot(d, PointAt(a.position, Difference(a.endPosition, a.position), s));
    var a1, a2, b1, b2 := Dot(d, a.position), Dot(d, a.endPosition), Dot(d, b.position), Dot(d, b.endPosition);
    DotAlong(d, a, s);
    DotAlong(d, b, t);
    CommonValueOverlap(a1, a2, b1, b2, s, t, x);
    ProjectionsOverlapOf(d, a, b, a1, a2, b1, b2);
  }

  /** A scalar step: two intervals that both hold the value `x` overlap. */
  lemma CommonValueOverlap(a1: real, a2: real, b1: real, b2: real, s: real, t: real, x: real)
    requires 0.0 <= s <= 1.0 && 0.0 <= t <= 1.0
    requires x == a1 + s * (a2 - a1) && x == b1 + t * (b2 - b1)
    ensures SortedOverlap(a1, a2, b1, b2)
  {
    BetweenEnds(a1, a2, s, x);
    BetweenEnds(b1, b2, t, x);
    SortedOverlapIsOverlap(a1, a2, b1, b2);
  }

  /** Segments that share an endpoint intersect. */
  lemma SegmentToSegmentSharedEndpoint(a: Segment, b: Segment)
    requires a.position == b.position || a.position == b.endPosition ||
             a.endPosition == b.position || a.endPosition == b.endPosition
    ensures SegmentToSegment(a, b)
  {
    var dirA := Difference(a.endPosition, a.position);
    var dirB := Difference(b.endPosition, b.position);
    assert PointAt(a.position, dirA, 0.0) == a.position && PointAt(a.position, dirA, 1.0) == a.endPosition;
    assert PointAt(b.position, dirB, 0.0) == b.position && PointAt(b.position, dirB, 1.0) == b.endPosition;
    if a.position == b.position {
      SegmentToSegmentCommonPoint(a, b, 0.0, 0.0);
    } else if a.position == b.endPosition {
      SegmentToSegmentCommonPoint(a, b, 0.0, 1.0);
    } else if a.endPosition == b.position {
      SegmentToSegmentCommonPoint(a, b, 1.0, 0.0);
    } else {
      SegmentToSegmentCommonPoint(a, b, 1.0, 1.0);
    }
  }

  /**
   * A segment of length zero that lies on the line of the other segment counts as
   * intersecting it, wherever on that line it is.
   */
  lemma SegmentToSegmentDegenerate(b: Segment, t: real)
    ensures SegmentToSegment(Segment(PointAt(b.position, Difference(b.endPosition, b.position), t),
                                     PointAt(b.position, Difference(b.endPosition, b.position), t)), b)
  {
    var dirB := Difference(b.endPosition, b.position);
    var q := PointAt(b.position, dirB, t);
    var a := Segment(q, q);
    var dirA := Difference(q, q);
    assert dirA == Zero;
    assert WhichSide(Line(q, dirA), b.position) == 0.0;
    assert WhichSide(Line(q, dirA), b.endPosition) == 0.0;
    var lineB := Line(b.position, dirB);
    WhichSideProperties(lineB, q, q, t);
    assert PointAt(lineB.position, lineB.direction, t) == q;
    assert WhichSide(lineB, q) == 0.0;
    assert AreParallel(dirA, dirB);
    ProjectionsOverlapOf(dirA, a, b, 0.0, 0.0, 0.0, 0.0);
    SortedOverlapIsOverlap(0.0, 0.0, 0.0, 0.0);
  }

  /** Segment `a` at parameter `s` and segment `b` at parameter `t` are the same point, with both parameters in `[0, 1]`. */
  predicate MeetAt(a: Segment, b: Segment, s: real, t: real) {
    0.0 <= s <= 1.0 && 0.0 <= t <= 1.0 &&
    PointAt(a.position, Difference(a.endPosition, a.position), s) == PointAt(b.position, Difference(b.endPosition, b.position), t)
  }

  /**
   * When the first segment has non-zero length, `segmentToSegment` holds exactly when the
   * two segments share a point.
   */
  lemma SegmentToSegmentMeets(a: Segment, b: Segment)
    requires LengthSq(Difference(a.endPosition, a.position)) > 0.0
    ensures SegmentToSegment(a, b) <==> exists s, t :: MeetAt(a, b, s, t)
  {
    if exists s, t :: MeetAt(a, b, s, t) {
      var s, t :| MeetAt(a, b, s, t);
      SegmentToSegmentCommonPoint(a, b, s, t);
    }
    if SegmentToSegment(a, b) {
      var s, t := SegmentToSegmentComplete(a, b);
    }
  }

  /**
   * The converse of `SegmentToSegmentCommonPoint` for a first segment of non-zero length:
   * a reported pair shares a point, at the parameters returned.
   */
  lemma SegmentToSegmentComplete(a: Segment, b: Segment) returns (s: real, t: real)
    requires LengthSq(Difference(a.endPosition, a.position)) > 0.0 && SegmentToSegment(a, b)
    ensures MeetAt(a, b, s, t)
  {
    var dirA, dirB := Difference(a.endPosition, a.position), Difference(b.endPosition, b.position);
    if AreParallel(dirA, dirB) {
      s, t := CollinearMeet(a, b);
    } else {
      s, t := CrossingMeet(a, b);
    }
  }

  /** Where `whichSide` does not have one strict sign at both ends of `seg`, the segment reaches the line. */
  lemma RootOnSegment(line: Line, seg: Segment) returns (t: real)
    requires !(WhichSide(line, seg.position) * WhichSide(line, seg.endPosition) > 0.0)
    ensures 0.0 <= t <= 1.0
    ensures WhichSide(line, PointAt(seg.position, Difference(seg.endPosition, seg.position), t)) == 0.0
  {
    var u, v := WhichSide(line, seg.position), WhichSide(line, seg.endPosition);
    if u == 0.0 {
      t := 0.0;
    } else {
      RootParameter(u, v);
      t := u / (u - v);
    }
    WhichSideAlong(line, seg, t);
  }

  /** Segments on non-parallel lines that each reach the other's line meet where the lines cross. */
  lemma CrossingMeet(a: Segment, b: Segment) returns (s: real, t: real)
    requires !AreParallel(Difference(a.endPosition, a.position), Difference(b.endPosition, b.position))
    requires var axisA := Line(a.position, Difference(a.endPosition, a.position));
      !(WhichSide(axisA, b.position) * WhichSide(axisA, b.endPosition) > 0.0)
    requires var axisB := Line(b.position, Difference(b.endPosition, b.position));
      !(WhichSide(axisB, a.position) * WhichSide(axisB, a.endPosition) > 0.0)
    ensures MeetAt(a, b, s, t)
  {
    var axisA := Line(a.position, Difference(a.endPosition, a.position));
    var axisB := Line(b.position, Difference(b.endPosition, b.position));
    t := RootOnSegment(axisA, b);
    s := RootOnSegment(axisB, a);
    var p := PointAt(a.position, axisA.direction, s);
    var q := PointAt(b.position, axisB.direction, t);
    WhichSideProperties(axisA, p, p, s);
    WhichSideProperties(axisB, q, q, t);
    CrossingLinesOnePoint(axisA, axisB, p, q);
  }

  /** Two points that lie on both of two non-parallel lines are the same point. */
  lemma CrossingLinesOnePoint(la: Line, lb: Line, p: Vec2Like, q: Vec2Like)
    requires !AreParallel(la.direction, lb.direction)
    requires WhichSide(la, p) == 0.0 && WhichSide(la, q) == 0.0
    requires WhichSide(lb, p) == 0.0 && WhichSide(lb, q) == 0.0
    ensures p == q
  {
    var w := Difference(p, q);
    var da, db := la.direction, lb.direction;
    WhichSideProperties(la, p, p, 0.0);
    WhichSideProperties(la, q, q, 0.0);
    WhichSideProperties(lb, p, p, 0.0);
    WhichSideProperties(lb, q, q, 0.0);
    assert Cross(da, w) == Cross(da, Difference(p, la.position)) - Cross(da, Difference(q, la.position));
    assert Cross(db, w) == Cross(db, Difference(p, lb.position)) - Cross(db, Difference(q, lb.position));
    TwoLinesOnePoint(da.x, da.y, db.x, db.y, w.x, w.y);
  }

  /** A scalar step: a vector with zero cross product against two non-parallel vectors is zero. */
  lemma TwoLinesOnePoint(ax: real, ay: real, bx: real, by_: real, wx: real, wy: real)
    requires ax * wy - ay * wx == 0.0 && bx * wy - by_ * wx == 0.0
    requires ax * by_ - ay * bx != 0.0
    ensures wx == 0.0 && wy == 0.0
  {
    var c := ax * by_ - ay * bx;
    assert wx * c == bx * (ax * wy - ay * wx) - ax * (bx * wy - by_ * wx);
    assert wy * c == by_ * (ax * wy - ay * wx) - ay * (bx * wy - by_ * wx);
    ZeroFactor(wx, c, c);
    ZeroFactor(wy, c, c);
  }

  /** A scalar step: a number whose square is not positive is zero. */
  lemma ZeroSquare(u: real, v: real)
    requires u == v && !(u * v > 0.0)
    ensures u == 0.0
  {
    if u != 0.0 {
      SameSignProduct(u, v);
    }
  }

  /** A scalar step: a value between `u` and `v` is reached by interpolating between them at some `t` in `[0, 1]`. */
  lemma InterpolationParameter(u: real, v: real, x: real) returns (t: real)
    requires Min(u, v) <= x <= Max(u, v)
    ensures 0.0 <= t <= 1.0 && u + t * (v - u) == x
  {
    if u == v {
      t := 0.0;
      assert x == u && v - u == 0.0;
      assert t * (v - u) == 0.0;
    } else if u < v {
      t := UnitRatio(x - u, v - u);
      assert u + t * (v - u) == u + (x - u);
    } else {
      t := UnitRatio(u - x, u - v);
      assert t * (v - u) == -(t * (u - v));
    }
  }

  /** A scalar step: the ratio of a part `q` of a positive whole `d` lies in `[0, 1]`. */
  lemma UnitRatio(q: real, d: real) returns (t: real)
    requires 0.0 <= q <= d && d > 0.0
    ensures 0.0 <= t <= 1.0 && t * d == q
  {
    t := q / d;
    if t < 0.0 {
      Gjk.PositiveProduct(-t, d);
    }
    if t > 1.0 {
      Gjk.PositiveProduct(t - 1.0, d);
    }
  }

  /** Two points of a line with a non-zero direction that project to the same value on it are the same point. */
  lemma SameProjectionOnLine(line: Line, p: Vec2Like, q: Vec2Like)
    requires LengthSq(line.direction) > 0.0
    requires WhichSide(line, p) == 0.0 && WhichSide(line, q) == 0.0
    requires Dot(line.direction, p) == Dot(line.direction, q)
    ensures p == q
  {
    var d, w := line.direction, Difference(p, q);
    WhichSideProperties(line, p, p, 0.0);
    WhichSideProperties(line, q, q, 0.0);
    assert Cross(d, w) == Cross(d, Difference(p, line.position)) - Cross(d, Difference(q, line.position));
    assert Dot(d, w) == Dot(d, p) - Dot(d, q);
    MultipleOf(w.x, w.y, d.x, d.y, LengthSq(d));
  }

  /** A segment parallel to `axis` whose ends are not strictly on one side of it lies on it. */
  lemma ParallelOnLine(axis: Line, b: Segment)
    requires AreParallel(axis.direction, Difference(b.endPosition, b.position))
    requires !(WhichSide(axis, b.position) * WhichSide(axis, b.endPosition) > 0.0)
    ensures WhichSide(axis, b.position) == 0.0 && WhichSide(axis, b.endPosition) == 0.0
  {
    var u, v := WhichSide(axis, b.position), WhichSide(axis, b.endPosition);
    WhichSideProperties(axis, b.position, b.position, 0.0);
    WhichSideProperties(axis, b.endPosition, b.endPosition, 0.0);
    AreParallelProperties(axis.direction, Difference(b.endPosition, b.position), 0.0);
    assert v - u == Cross(axis.direction, Difference(b.endPosition, b.position));
    ZeroSquare(u, v);
  }

  /** A scalar step: overlapping intervals, each given by its two ends in either order, share a value. */
  lemma CommonValue(a1: real, a2: real, b1: real, b2: real) returns (x: real)
    requires SortedOverlap(a1, a2, b1, b2)
    ensures Min(a1, a2) <= x <= Max(a1, a2) && Min(b1, b2) <= x <= Max(b1, b2)
  {
    SortedOverlapIsOverlap(a1, a2, b1, b2);
    x := Max(Min(a1, a2), Min(b1, b2));
  }

  /**
   * Parallel segments, the second on the first one's line, whose projections on the first
   * one's direction overlap, share a point.
   */
  lemma CollinearMeet(a: Segment, b: Segment) returns (s: real, t: real)
    requires LengthSq(Difference(a.endPosition, a.position)) > 0.0
    requires AreParallel(Difference(a.endPosition, a.position), Difference(b.endPosition, b.position))
    requires var axisA := Line(a.position, Difference(a.endPosition, a.position));
      !(WhichSide(axisA, b.position) * WhichSide(axisA, b.endPosition) > 0.0)
    requires ProjectionsOverlap(Difference(a.endPosition, a.position), a, b)
    ensures MeetAt(a, b, s, t)
  {
    var dirA, dirB := Difference(a.endPosition, a.position), Difference(b.endPosition, b.position);
    var axisA := Line(a.position, dirA);
    ParallelOnLine(axisA, b);
    s, t := CommonProjection(dirA, a, b);
    var p := PointAt(a.position, dirA, s);
    var q := PointAt(b.position, dirB, t);
    WhichSideProperties(axisA, p, p, s);
    WhichSideAlong(axisA, b, t);
    SameProjectionOnLine(axisA, p, q);
  }

  /** A step of `CollinearMeet`: overlapping projections on `d` give a point of each segment with the same projection. */
  lemma CommonProjection(d: Vec2Like, a: Segment, b: Segment) returns (s: real, t: real)
    requires ProjectionsOverlap(d, a, b)
    ensures 0.0 <= s <= 1.0 && 0.0 <= t <= 1.0
    ensures Dot(d, PointAt(a.position, Difference(a.endPosition, a.position), s))
         == Dot(d, PointAt(b.position, Difference(b.endPosition, b.position), t))
  {
    var a1, a2, b1, b2 := Dot(d, a.position), Dot(d, a.endPosition), Dot(d, b.position), Dot(d, b.endPosition);
    ProjectionsOverlapOf(d, a, b, a1, a2, b1, b2);
    s, t := CommonParameters(a1, a2, b1, b2);
    EqualProjectionsAlong(d, a, b, a1, a2, b1, b2, s, t);
  }

  /** Points of two segments whose interpolated projections agree have the same projection. */
  lemma EqualProjectionsAlong(d: Vec2Like, a: Segment, b: Segment, a1: real, a2: real, b1: real, b2: real, s: real, t: real)
    requires a1 == Dot(d, a.position) && a2 == Dot(d, a.endPosition)
    requires b1 == Dot(d, b.position) && b2 == Dot(d, b.endPosition)
    requires a1 + s * (a2 - a1) == b1 + t * (b2 - b1)
    ensures Dot(d, PointAt(a.position, Difference(a.endPosition, a.position), s))
         == Dot(d, PointAt(b.position, Difference(b.endPosition, b.position), t))
  {
    DotAlong(d, a, s);
    DotAlong(d, b, t);
  }

  /** A scalar step: overlapping intervals reach a common value at parameters `s` and `t` in `[0, 1]`. */
  lemma CommonParameters(a1: real, a2: real, b1: real, b2: real) returns (s: real, t: real)
    requires SortedOverlap(a1, a2, b1, b2)
    ensures 0.0 <= s <= 1.0 && 0.0 <= t <= 1.0
    ensures a1 + s * (a2 - a1) == b1 + t * (b2 - b1)
  {
    var x := CommonValue(a1, a2, b1, b2);
    s := InterpolationParameter(a1, a2, x);
    t := InterpolationParameter(b1, b2, x);
  }

  /**
   * A segment of zero length is reported against `b` exactly when its point lies on the
   * line through `b`'s end points, however far outside `b` it is.
   */
  lemma SegmentToSegmentPointFirst(p: Vec2Like, b: Segment)
    ensures SegmentToSegment(Segment(p, p), b) <==> WhichSide(Line(b.position, Difference(b.endPosition, b.position)), p) == 0.0
  {
    var a := Segment(p, p);
    var dirA := Difference(p, p);
    assert dirA == Zero;
    assert WhichSide(Line(p, dirA), b.position) == 0.0;
    assert WhichSide(Line(p, dirA), b.endPosition) == 0.0;
    var u := WhichSide(Line(b.position, Difference(b.endPosition, b.position)), p);
    if u == 0.0 {
      assert AreParallel(dirA, Difference(b.endPosition, b.position));
      ProjectionsOverlapOf(dirA, a, b, 0.0, 0.0, 0.0, 0.0);
      SortedOverlapIsOverlap(0.0, 0.0, 0.0, 0.0);
    } else {
      SameSignProduct(u, u);
    }
  }

  /** Two zero-length segments are always reported, even when they are two different points. */
  lemma SegmentToSegmentPoints(p: Vec2Like, q: Vec2Like)
    ensures SegmentToSegment(Segment(p, p), Segment(q, q))
    ensures p != q ==> !exists s, t :: MeetAt(Segment(p, p), Segment(q, q), s, t)
  {
    SegmentToSegmentPointFirst(p, Segment(q, q));
    assert Difference(q, q) == Zero;
    assert WhichSide(Line(q, Difference(q, q)), p) == 0.0;
    forall s, t | MeetAt(Segment(p, p), Segment(q, q), s, t)
      ensures p == q
    {
      assert PointAt(p, Difference(p, p), s) == p;
      assert PointAt(q, Difference(q, q), t) == q;
    }
  }

  /**
   * A false positive of `segmentToSegment`: a zero-length segment on the line of a
   * segment `b` of non-zero length, but outside `b` (at a parameter below 0 or above 1,
   * such as the point `(5, 0)` against `(0, 0)`-`(1, 0)`), is reported although the two
   * share no point.
   */
  lemma PointOffSegmentReported(b: Segment, t: real)
    requires LengthSq(Difference(b.endPosition, b.position)) > 0.0
    requires t < 0.0 || t > 1.0
    ensures var q := PointAt(b.position, Difference(b.endPosition, b.position), t);
      SegmentToSegment(Segment(q, q), b) && !exists s, u :: MeetAt(Segment(q, q), b, s, u)
  {
    SegmentToSegmentDegenerate(b, t);
    OffSegmentMeetsNothing(b, t);
  }

  /** A step of `PointOffSegmentReported`: a point of `b`'s line outside `b` shares no point with `b`. */
  lemma OffSegmentMeetsNothing(b: Segment, t: real)
    requires LengthSq(Difference(b.endPosition, b.position)) > 0.0
    requires t < 0.0 || t > 1.0
    ensures var q := PointAt(b.position, Difference(b.endPosition, b.position), t);
      !exists s, u :: MeetAt(Segment(q, q), b, s, u)
  {
    var d := Difference(b.endPosition, b.position);
    var q := PointAt(b.position, d, t);
    forall s, u | MeetAt(Segment(q, q), b, s, u)
      ensures false
    {
      assert PointAt(q, Difference(q, q), s) == q;
      assert PointAt(b.position, d, u) == q;
      assert (t - u) * d.x == 0.0 && (t - u) * d.y == 0.0;
      ZeroFactor(t - u, d.x, d.y);
    }
  }

  /**
   * The segment test as evidently intended: a zero-length first segment is reported only
   * when its point lies on `b` itself, end point included; any other pair is decided by
   * `segmentToSegment` as written.
   */
  predicate SegmentToSegmentCorrected(a: Segment, b: Segment) {
    if a.position == a.endPosition then
      VecToSegment(a.position, b) || a.position == b.endPosition
    else
      SegmentToSegment(a, b)
  }

  /**
   * A scalar step: a sum of two squares, not both of zero, is positive. Each square is
   * written as a product of two equal parameters.
   */
  lemma PositiveSumOfSquares(x: real, x2: real, y: real, y2: real, l: real)
    requires x == x2 && y == y2 && l == x * x2 + y * y2 && (x != 0.0 || y != 0.0)
    ensures l > 0.0
  {
    SquareNonNegative(y);
    if x != 0.0 {
      SameSignProduct(x, x2);
    } else {
      assert l == y * y2;
      SameSignProduct(y, y2);
    }
  }

  /** A vector other than zero has a positive squared length. */
  lemma NonZeroLength(v: Vec2Like)
    requires v != Zero
    ensures LengthSq(v) > 0.0
  {
    PositiveSumOfSquares(v.x, v.x, v.y, v.y, LengthSq(v));
  }

  /** A point is on the closed segment `b` exactly when it is on the half-open one or is its end point. */
  lemma OnClosedSegment(p: Vec2Like, b: Segment)
    ensures VecToSegment(p, b) || p == b.endPosition <==>
      exists t :: 0.0 <= t <= 1.0 && p == PointAt(b.position, Difference(b.endPosition, b.position), t)
  {
    var d := Difference(b.endPosition, b.position);
    assert PointAt(b.position, d, 1.0) == b.endPosition;
    if d == Zero {
      forall t ensures PointAt(b.position, d, t) == b.endPosition {
      }
      SquareNonNegative(p.x - b.position.x);
      SquareNonNegative(p.y - b.position.y);
      assert !VecToSegment(p, b);
    } else {
      NonZeroLength(d);
      VecToSegmentHalfOpen(p, b);
      if exists t :: 0.0 <= t <= 1.0 && p == PointAt(b.position, d, t) {
        var t :| 0.0 <= t <= 1.0 && p == PointAt(b.position, d, t);
        if t < 1.0 {
          assert VecToSegment(p, b);
        }
      }
    }
  }

  /** The corrected test holds exactly when the two segments share a point, for every pair of segments. */
  lemma SegmentToSegmentCorrectedMeets(a: Segment, b: Segment)
    ensures SegmentToSegmentCorrected(a, b) <==> exists s, t :: MeetAt(a, b, s, t)
  {
    var p := a.position;
    if p == a.endPosition {
      var d := Difference(b.endPosition, b.position);
      OnClosedSegment(p, b);
      forall s ensures PointAt(p, Difference(p, p), s) == p {
      }
      if exists t :: 0.0 <= t <= 1.0 && p == PointAt(b.position, d, t) {
        var t :| 0.0 <= t <= 1.0 && p == PointAt(b.position, d, t);
        assert MeetAt(a, b, 0.0, t);
      }
      if exists s, t :: MeetAt(a, b, s, t) {
        var s, t :| MeetAt(a, b, s, t);
        assert 0.0 <= t <= 1.0 && p == PointAt(b.position, d, t);
      }
    } else {
      NonZeroLength(Difference(a.endPosition, a.position));
      SegmentToSegmentMeets(a, b);
    }
  }

  /** The two tests differ only on zero-length first segments, and there the code's is never stricter. */
  lemma SegmentToSegmentCorrectedAgrees(a: Segment, b: Segment)
    ensures a.position != a.endPosition ==> (SegmentToSegmentCorrected(a, b) <==> SegmentToSegment(a, b))
    ensures SegmentToSegmentCorrected(a, b) ==> SegmentToSegment(a, b)
  {
    if a.position == a.endPosition && SegmentToSegmentCorrected(a, b) {
      SegmentToSegmentCorrectedMeets(a, b);
      var s, t :| MeetAt(a, b, s, t);
      SegmentToSegmentCommonPoint(a, b, s, t);
    }
  }

  /** A step for the fixtures: the value of `whichSide` at given coordinates. */
  lemma WhichSideAt(px: real, py: real, dx: real, dy: real, qx: real, qy: real, v: real)
    requires v == dx * (qy - py) - dy * (qx - px)
    ensures WhichSide(Line(Vec2Like(px, py), Vec2Like(dx, dy)), Vec2Like(qx, qy)) == v
  {
  }

  /*
   * The cases checked by the library's tests. Each fixture is passed in as a parameter
   * fixed by the precondition, which keeps the verifier from unfolding the test on
   * constants.
   */

  /** The fixture of two segments that cross at `(2.5, 1.75)`. */
  lemma CrossingExample(a: Segment, b: Segment)
    requires a == Segment(Vec2Like(1.0, 1.0), Vec2Like(3.0, 2.0)) && b == Segment(Vec2Like(2.0, 2.0), Vec2Like(4.0, 1.0))
    ensures SegmentToSegment(a, b)
  {
    assert PointAt(a.position, Difference(a.endPosition, a.position), 0.75) == Vec2Like(2.5, 1.75);
    assert PointAt(b.position, Difference(b.endPosition, b.position), 0.25) == Vec2Like(2.5, 1.75);
    SegmentToSegmentCommonPoint(a, b, 0.75, 0.25);
  }

  /** The fixtures of collinear segments that overlap and that touch at one end. */
  lemma CollinearExamples(a: Segment, b1: Segment, b2: Segment)
    requires a == Segment(Vec2Like(1.0, 1.0), Vec2Like(5.0, 3.0))
    requires b1 == Segment(Vec2Like(3.0, 2.0), Vec2Like(7.0, 4.0)) && b2 == Segment(Vec2Like(5.0, 3.0), Vec2Like(7.0, 4.0))
    ensures SegmentToSegment(a, b1) && SegmentToSegment(a, b2)
  {
    assert PointAt(a.position, Difference(a.endPosition, a.position), 0.5) == b1.position;
    assert PointAt(b1.position, Difference(b1.endPosition, b1.position), 0.0) == b1.position;
    SegmentToSegmentCommonPoint(a, b1, 0.5, 0.0);
    SegmentToSegmentSharedEndpoint(a, b2);
  }

  /** The two fixtures where one segment lies on one side of the other's line. */
  lemma SeparatedExamples(a: Segment, b2: Segment, b3: Segment)
    requires a == Segment(Vec2Like(1.0, 1.0), Vec2Like(3.0, 2.0))
    requires b2 == Segment(Vec2Like(2.0, 4.0), Vec2Like(3.0, 3.0)) && b3 == Segment(Vec2Like(3.0, 3.0), Vec2Like(4.0, 2.0))
    ensures !SegmentToSegment(a, b2) && !SegmentToSegment(a, b3)
  {
    assert Difference(a.endPosition, a.position) == Vec2Like(2.0, 1.0);
    assert Difference(b3.endPosition, b3.position) == Vec2Like(1.0, -1.0);
    WhichSideAt(1.0, 1.0, 2.0, 1.0, 2.0, 4.0, 5.0);
    WhichSideAt(1.0, 1.0, 2.0, 1.0, 3.0, 3.0, 2.0);
    WhichSideAt(3.0, 3.0, 1.0, -1.0, 1.0, 1.0, -4.0);
    WhichSideAt(3.0, 3.0, 1.0, -1.0, 3.0, 2.0, -1.0);
    SegmentToSegmentSeparated(a, b2);
    SegmentToSegmentSeparated(a, b3);
  }

  /** The fixture of two collinear segments that do not meet. */
  lemma ParallelDisjointExample(a: Segment, b: Segment)
    requires a == Segment(Vec2Like(1.0, 1.0), Vec2Like(3.0, 2.0)) && b == Segment(Vec2Like(5.0, 3.0), Vec2Like(7.0, 4.0))
    ensures !SegmentToSegment(a, b)
  {
    var d := Vec2Like(2.0, 1.0);
    assert Difference(a.endPosition, a.position) == d;
    assert Difference(b.endPosition, b.position) == d;
    WhichSideAt(1.0, 1.0, 2.0, 1.0, 5.0, 3.0, 0.0);
    WhichSideAt(1.0, 1.0, 2.0, 1.0, 7.0, 4.0, 0.0);
    WhichSideAt(5.0, 3.0, 2.0, 1.0, 1.0, 1.0, 0.0);
    WhichSideAt(5.0, 3.0, 2.0, 1.0, 3.0, 2.0, 0.0);
    assert !ProjectionsOverlap(d, a, b) by {
      assert Dot(d, a.position) == 3.0;
      assert Dot(d, a.endPosition) == 8.0;
      assert Dot(d, b.position) == 13.0;
      assert Dot(d, b.endPosition) == 18.0;
    }
  }

  // Circles against lines, segments and boxes

  /**
   * The squared distance from `(cx, cy)` to the point `(px, py) + t * (wx, wy)`, written
   * the way `circleToVec` computes it.
   */
  function SquaredDistanceAlong(px: real, cx: real, wx: real, py: real, cy: real, wy: real, t: real): real {
    ((px + wx * t) - cx) * ((px + wx * t) - cx) + ((py + wy * t) - cy) * ((py + wy * t) - cy)
  }

  /** `circleToVec` at a point of a line is a bound on `SquaredDistanceAlong`. */
  lemma CircleToVecAlong(c: Circle, p: Vec2Like, w: Vec2Like, t: real)
    ensures CircleToVec(c, PointAt(p, w, t)) <==>
      SquaredDistanceAlong(p.x, c.position.x, w.x, p.y, c.position.y, w.y, t) <= c.radius * c.radius
  {
  }

  /**
   * A scalar step: with `k` the parameter of the projection of `(cx, cy)` on the line,
   * no other point of the line is nearer.
   */
  lemma NearestParameter(px: real, cx: real, wx: real, py: real, cy: real, wy: real, t: real, k: real, ll: real)
    requires ll == wx * wx + wy * wy && ll > 0.0
    requires k * ll == (cx - px) * wx + (cy - py) * wy
    ensures SquaredDistanceAlong(px, cx, wx, py, cy, wy, k) <= SquaredDistanceAlong(px, cx, wx, py, cy, wy, t)
  {
    var p := (cx - px) * wx + (cy - py) * wy;
    assert SquaredDistanceAlong(px, cx, wx, py, cy, wy, t) - SquaredDistanceAlong(px, cx, wx, py, cy, wy, k)
        == (t - k) * ((t - k) * ll) + 2.0 * (t - k) * (k * ll - p);
    if t > k {
      Gjk.PositiveProduct(t - k, (t - k) * ll);
    } else if t < k {
      Gjk.PositiveProduct(k - t, (k - t) * ll);
      assert (k - t) * ((k - t) * ll) == (t - k) * ((t - k) * ll);
    }
  }

  /** A scalar step: when the projection falls before the start, the start is the nearest point of `t >= 0`. */
  lemma NearestStart(px: real, cx: real, wx: real, py: real, cy: real, wy: real, t: real, k: real, ll: real)
    requires ll == wx * wx + wy * wy && ll > 0.0
    requires k * ll == (cx - px) * wx + (cy - py) * wy
    requires k < 0.0 && t >= 0.0
    ensures SquaredDistanceAlong(px, cx, wx, py, cy, wy, 0.0) <= SquaredDistanceAlong(px, cx, wx, py, cy, wy, t)
  {
    assert SquaredDistanceAlong(px, cx, wx, py, cy, wy, t) - SquaredDistanceAlong(px, cx, wx, py, cy, wy, 0.0)
        == t * (t * ll - 2.0 * (k * ll));
    if t > 0.0 {
      Gjk.PositiveProduct(-k, ll);
      Gjk.PositiveProduct(t, ll);
      Gjk.PositiveProduct(t, t * ll - 2.0 * (k * ll));
    }
  }

  /** A scalar step: when the projection falls beyond the end, the end is the nearest point of `t <= 1`. */
  lemma NearestEnd(px: real, cx: real, wx: real, py: real, cy: real, wy: real, t: real, k: real, ll: real)
    requires ll == wx * wx + wy * wy && ll > 0.0
    requires k * ll == (cx - px) * wx + (cy - py) * wy
    requires k > 1.0 && t <= 1.0
    ensures SquaredDistanceAlong(px, cx, wx, py, cy, wy, 1.0) <= SquaredDistanceAlong(px, cx, wx, py, cy, wy, t)
  {
    assert SquaredDistanceAlong(px, cx, wx, py, cy, wy, t) - SquaredDistanceAlong(px, cx, wx, py, cy, wy, 1.0)
        == (1.0 - t) * ((2.0 * k - 1.0 - t) * ll);
    if t < 1.0 {
      Gjk.PositiveProduct(2.0 * k - 1.0 - t, ll);
      Gjk.PositiveProduct(1.0 - t, (2.0 * k - 1.0 - t) * ll);
    }
  }

  /**
   * `circleToLine`: the point of the line nearest the centre (the projection of the
   * centre on the direction) lies in the circle. With a zero direction, `project`
   * leaves its receiver unchanged and that point is the centre itself.
   */
  predicate CircleToLine(c: Circle, l: Line) {
    var lc := Difference(c.position, l.position);
    var nearest := Sum(Projection(lc, l.direction), l.position);
    CircleToVec(c, nearest)
  }

  /** The nearest point `circleToLine` computes is the point of the line at the projection parameter. */
  lemma ProjectionParameter(p: Vec2Like, c: Vec2Like, w: Vec2Like)
    requires LengthSq(w) > 0.0
    ensures var k := Dot(Difference(c, p), w) / LengthSq(w);
      Projection(Difference(c, p), w) == Scaled(w, k) &&
      Sum(Projection(Difference(c, p), w), p) == PointAt(p, w, k) &&
      k * LengthSq(w) == (c.x - p.x) * w.x + (c.y - p.y) * w.y
  {
  }

  /**
   * With a non-zero direction, `circleToLine` holds exactly when some point of the line
   * lies in the circle.
   */
  lemma CircleToLineNearest(c: Circle, l: Line)
    requires LengthSq(l.direction) > 0.0
    ensures CircleToLine(c, l) <==> exists t :: CircleToVec(c, PointAt(l.position, l.direction, t))
  {
    var p, w := l.position, l.direction;
    var ll := LengthSq(w);
    var k := Dot(Difference(c.position, p), w) / ll;
    ProjectionParameter(p, c.position, w);
    if exists t :: CircleToVec(c, PointAt(p, w, t)) {
      var t :| CircleToVec(c, PointAt(p, w, t));
      CircleToVecAlong(c, p, w, t);
      CircleToVecAlong(c, p, w, k);
      NearestParameter(p.x, c.position.x, w.x, p.y, c.position.y, w.y, t, k, ll);
    }
  }

  /** With a zero direction `circleToLine` compares the centre with itself, so it holds. */
  lemma CircleToLineZeroDirection(c: Circle, l: Line)
    requires l.direction == Zero
    ensures CircleToLine(c, l)
  {
    assert Projection(Difference(c.position, l.position), l.direction) == Difference(c.position, l.position);
    assert Sum(Difference(c.position, l.position), l.position) == c.position;
    CircleToVecBoundary(c, c.position);
  }

  /**
   * `circleToSegment`: an endpoint lies in the circle, or the point of the supporting
   * line nearest the centre lies in the circle and within the segment, which the source
   * tests as `|projected|^2 <= |dir|^2` and `projected . dir >= 0`.
   */
  predicate CircleToSegment(c: Circle, s: Segment) {
    if CircleToVec(c, s.position) then
      true
    else if CircleToVec(c, s.endPosition) then
      true
    else
      var dir := Difference(s.endPosition, s.position);
      var projected := Projection(Difference(c.position, s.position), dir);
      var nearest := Sum(projected, s.position);
      CircleToVec(c, nearest) && LengthSq(projected) <= LengthSq(dir) && Dot(projected, dir) >= 0.0
  }

  /** A scalar step: the projection `k * w` has squared length `k * k * |w|^2` and dot product `k * |w|^2` with `w`. */
  lemma ScaledMeasures(wx: real, wy: real, k: real, ll: real)
    requires ll == wx * wx + wy * wy
    ensures (wx * k) * (wx * k) + (wy * k) * (wy * k) == k * (k * ll)
    ensures (wx * k) * wx + (wy * k) * wy == k * ll
  {
  }

  /** A scalar step: the two range tests of `circleToSegment` on `k * w` say `0 <= k <= 1`. */
  lemma WithinSegmentTests(k: real, ll: real, sq: real, dt: real)
    requires ll > 0.0 && sq == k * (k * ll) && dt == k * ll
    ensures (sq <= ll && dt >= 0.0) <==> 0.0 <= k <= 1.0
  {
    if k < 0.0 {
      Gjk.PositiveProduct(-k, ll);
    } else if k > 1.0 {
      Gjk.PositiveProduct(k - 1.0, ll);
      Gjk.PositiveProduct(k - 1.0, k * ll);
    } else {
      MulMono(k, 1.0, ll, ll);
      MulMono(0.0, k, ll, ll);
      MulMono(k, 1.0, k * ll, k * ll);
    }
  }

  /** The endpoints of a segment are its points at parameters 0 and 1. */
  lemma SegmentEnds(s: Segment)
    ensures PointAt(s.position, Difference(s.endPosition, s.position), 0.0) == s.position
    ensures PointAt(s.position, Difference(s.endPosition, s.position), 1.0) == s.endPosition
  {
  }

  /**
   * With a non-zero length, `circleToSegment` is: an endpoint in the circle, or the
   * projection parameter `k` in `[0, 1]` with the point at `k` in the circle.
   */
  lemma CircleToSegmentByParameter(c: Circle, s: Segment, k: real)
    requires LengthSq(Difference(s.endPosition, s.position)) > 0.0
    requires k == Dot(Difference(c.position, s.position), Difference(s.endPosition, s.position)) / LengthSq(Difference(s.endPosition, s.position))
    ensures CircleToSegment(c, s) <==>
      CircleToVec(c, s.position) || CircleToVec(c, s.endPosition) ||
      (0.0 <= k <= 1.0 && CircleToVec(c, PointAt(s.position, Difference(s.endPosition, s.position), k)))
  {
    var p, w := s.position, Difference(s.endPosition, s.position);
    var ll := LengthSq(w);
    var projected := Projection(Difference(c.position, p), w);
    ProjectionParameter(p, c.position, w);
    ScaledMeasures(w.x, w.y, k, ll);
    assert projected == Vec2Like(w.x * k, w.y * k);
    WithinSegmentTests(k, ll, LengthSq(projected), Dot(projected, w));
  }

  /** A step of `CircleToSegmentNearest`: a point of the segment in the circle passes one of the tests. */
  lemma CircleToSegmentFromPoint(c: Circle, p: Vec2Like, w: Vec2Like, t: real, k: real)
    requires LengthSq(w) > 0.0
    requires k * LengthSq(w) == (c.position.x - p.x) * w.x + (c.position.y - p.y) * w.y
    requires 0.0 <= t <= 1.0 && CircleToVec(c, PointAt(p, w, t))
    ensures CircleToVec(c, PointAt(p, w, 0.0)) || CircleToVec(c, PointAt(p, w, 1.0)) ||
      (0.0 <= k <= 1.0 && CircleToVec(c, PointAt(p, w, k)))
  {
    var ll := LengthSq(w);
    CircleToVecAlong(c, p, w, t);
    if k < 0.0 {
      NearestStart(p.x, c.position.x, w.x, p.y, c.position.y, w.y, t, k, ll);
      CircleToVecAlong(c, p, w, 0.0);
    } else if k > 1.0 {
      NearestEnd(p.x, c.position.x, w.x, p.y, c.position.y, w.y, t, k, ll);
      CircleToVecAlong(c, p, w, 1.0);
    } else {
      NearestParameter(p.x, c.position.x, w.x, p.y, c.position.y, w.y, t, k, ll);
      CircleToVecAlong(c, p, w, k);
    }
  }

  /**
   * With a non-zero length, `circleToSegment` holds exactly when some point of the
   * segment lies in the circle.
   */
  lemma CircleToSegmentNearest(c: Circle, s: Segment)
    requires LengthSq(Difference(s.endPosition, s.position)) > 0.0
    ensures CircleToSegment(c, s) <==>
      exists t :: 0.0 <= t <= 1.0 && CircleToVec(c, PointAt(s.position, Difference(s.endPosition, s.position), t))
  {
    var p, w := s.position, Difference(s.endPosition, s.position);
    var k := Dot(Difference(c.position, p), w) / LengthSq(w);
    CircleToSegmentByParameter(c, s, k);
    ProjectionParameter(p, c.position, w);
    SegmentEnds(s);
    if CircleToSegment(c, s) {
      if CircleToVec(c, s.position) {
        assert CircleToVec(c, PointAt(p, w, 0.0));
      } else if CircleToVec(c, s.endPosition) {
        assert CircleToVec(c, PointAt(p, w, 1.0));
      } else {
        assert CircleToVec(c, PointAt(p, w, k));
      }
    }
    if exists t :: 0.0 <= t <= 1.0 && CircleToVec(c, PointAt(p, w, t)) {
      var t :| 0.0 <= t <= 1.0 && CircleToVec(c, PointAt(p, w, t));
      CircleToSegmentFromPoint(c, p, w, t, k);
    }
  }

  /** A segment of length zero is tested as the point it is. */
  lemma CircleToSegmentDegenerate(c: Circle, p: Vec2Like)
    ensures CircleToSegment(c, Segment(p, p)) <==> CircleToVec(c, p)
  {
    var lc := Difference(c.position, p);
    assert Difference(p, p) == Zero;
    assert Projection(lc, Zero) == lc;
    assert Sum(lc, p) == c.position;
    SquareNonNegative(c.radius);
    assert (p.x - c.position.x) * (p.x - c.position.x) + (p.y - c.position.y) * (p.y - c.position.y) == LengthSq(lc);
  }

  /**
   * `circleToAABB`: the point of the box nearest the centre, found by clamping each
   * coordinate of the centre to the box's range, lies in the circle.
   */
  predicate CircleToAABB(c: Circle, aabb: AABB) {
    var x := Clamp(c.position.x, aabb.min.x, aabb.max.x);
    var y := Clamp(c.position.y, aabb.min.y, aabb.max.y);
    CircleToVec(c, Vec2Like(x, y))
  }

  /** A scalar step: the clamped coordinate is at least as near `v` as any coordinate in the range. */
  lemma ClampNearest(v: real, lo: real, hi: real, p: real)
    requires lo <= p <= hi
    ensures (Clamp(v, lo, hi) - v) * (Clamp(v, lo, hi) - v) <= (p - v) * (p - v)
  {
    var x := Clamp(v, lo, hi);
    if v < lo {
      MulMono(lo - v, p - v, lo - v, p - v);
    } else if v > hi {
      MulMono(v - hi, v - p, v - hi, v - p);
      assert (x - v) * (x - v) == (v - hi) * (v - hi);
      assert (p - v) * (p - v) == (v - p) * (v - p);
    } else {
      SquareNonNegative(p - v);
    }
  }

  /** A step of `CircleToAABBNearest`: a point of the box in the circle makes the test hold. */
  lemma CircleToAABBFromPoint(c: Circle, aabb: AABB, p: Vec2Like)
    requires AabbToVec(aabb, p) && CircleToVec(c, p)
    ensures CircleToAABB(c, aabb)
  {
    var cx, cy := c.position.x, c.position.y;
    var x := Clamp(cx, aabb.min.x, aabb.max.x);
    var y := Clamp(cy, aabb.min.y, aabb.max.y);
    ClampNearest(cx, aabb.min.x, aabb.max.x, p.x);
    ClampNearest(cy, aabb.min.y, aabb.max.y, p.y);
    assert (x - cx) * (x - cx) + (y - cy) * (y - cy) <= (p.x - cx) * (p.x - cx) + (p.y - cy) * (p.y - cy);
  }

  /**
   * For a box with `min <= max` on both axes, `circleToAABB` holds exactly when some
   * point of the box lies in the circle.
   */
  lemma CircleToAABBNearest(c: Circle, aabb: AABB)
    requires aabb.min.x <= aabb.max.x && aabb.min.y <= aabb.max.y
    ensures CircleToAABB(c, aabb) <==> exists p :: AabbToVec(aabb, p) && CircleToVec(c, p)
  {
    var x := Clamp(c.position.x, aabb.min.x, aabb.max.x);
    var y := Clamp(c.position.y, aabb.min.y, aabb.max.y);
    assert AabbToVec(aabb, Vec2Like(x, y));
    if exists p :: AabbToVec(aabb, p) && CircleToVec(c, p) {
      var p :| AabbToVec(aabb, p) && CircleToVec(c, p);
      CircleToAABBFromPoint(c, aabb, p);
    }
  }

  /** A circle whose centre is in the box meets it, whatever its radius. */
  lemma CircleToAABBCentreInside(c: Circle, aabb: AABB)
    requires AabbToVec(aabb, c.position)
    ensures CircleToAABB(c, aabb)
  {
    CircleToVecBoundary(c, c.position);
  }

  // Boxes, points and lines against lines and segments

  /**
   * `aabbToLine`: the line equation is evaluated at the four corners and the test holds
   * when the first corner's value times some other corner's value is not positive.
   */
  predicate AabbToLine(aabb: AABB, l: Line) {
    var d1 := LineEquation(l, aabb.min);
    var d2 := LineEquation(l, aabb.max);
    var d3 := LineEquation(l, Vec2Like(aabb.max.x, aabb.min.y));
    var d4 := LineEquation(l, Vec2Like(aabb.min.x, aabb.max.y));
    d1 * d2 <= 0.0 || d1 * d3 <= 0.0 || d1 * d4 <= 0.0
  }

  /** A scalar step: the corner test fails exactly when all four values have the same strict sign. */
  lemma CornerSigns(d1: real, d2: real, d3: real, d4: real)
    ensures (d1 * d2 <= 0.0 || d1 * d3 <= 0.0 || d1 * d4 <= 0.0) <==>
      !((d1 > 0.0 && d2 > 0.0 && d3 > 0.0 && d4 > 0.0) || (d1 < 0.0 && d2 < 0.0 && d3 < 0.0 && d4 < 0.0))
  {
    if d1 > 0.0 && d2 > 0.0 && d3 > 0.0 && d4 > 0.0 {
      Gjk.PositiveProduct(d1, d2);
      Gjk.PositiveProduct(d1, d3);
      Gjk.PositiveProduct(d1, d4);
    } else if d1 < 0.0 && d2 < 0.0 && d3 < 0.0 && d4 < 0.0 {
      Gjk.PositiveProduct(-d1, -d2);
      Gjk.PositiveProduct(-d1, -d3);
      Gjk.PositiveProduct(-d1, -d4);
    } else if d1 > 0.0 {
      if d2 <= 0.0 {
        MulMono(0.0, d1, 0.0, -d2);
      } else if d3 <= 0.0 {
        MulMono(0.0, d1, 0.0, -d3);
      } else {
        MulMono(0.0, d1, 0.0, -d4);
      }
    } else if d1 < 0.0 {
      if d2 >= 0.0 {
        MulMono(0.0, -d1, 0.0, d2);
      } else if d3 >= 0.0 {
        MulMono(0.0, -d1, 0.0, d3);
      } else {
        MulMono(0.0, -d1, 0.0, d4);
      }
    }
  }

  /**
   * A scalar step: the affine form `nx * x + ny * y + d` takes, at some corner of the
   * box `[x0, x1] x [y0, y1]`, a value no larger, and at some corner a value no smaller,
   * than at a point `(px, py)` of the box.
   */
  lemma CornerBounds(nx: real, ny: real, d: real, x0: real, x1: real, y0: real, y1: real, px: real, py: real)
    requires x0 <= px <= x1 && y0 <= py <= y1
    ensures var v := nx * px + ny * py + d;
      !(nx * x0 + ny * y0 + d > v && nx * x1 + ny * y1 + d > v && nx * x1 + ny * y0 + d > v && nx * x0 + ny * y1 + d > v)
    ensures var v := nx * px + ny * py + d;
      !(nx * x0 + ny * y0 + d < v && nx * x1 + ny * y1 + d < v && nx * x1 + ny * y0 + d < v && nx * x0 + ny * y1 + d < v)
  {
    var v := nx * px + ny * py + d;
    if nx >= 0.0 {
      MulMono(0.0, nx, 0.0, px - x0);
      MulMono(0.0, nx, 0.0, x1 - px);
      if ny >= 0.0 {
        MulMono(0.0, ny, 0.0, py - y0);
        MulMono(0.0, ny, 0.0, y1 - py);
        assert nx * x0 + ny * y0 + d <= v <= nx * x1 + ny * y1 + d;
      } else {
        MulMono(0.0, -ny, 0.0, py - y0);
        MulMono(0.0, -ny, 0.0, y1 - py);
        assert nx * x0 + ny * y1 + d <= v <= nx * x1 + ny * y0 + d;
      }
    } else {
      MulMono(0.0, -nx, 0.0, px - x0);
      MulMono(0.0, -nx, 0.0, x1 - px);
      if ny >= 0.0 {
        MulMono(0.0, ny, 0.0, py - y0);
        MulMono(0.0, ny, 0.0, y1 - py);
        assert nx * x1 + ny * y0 + d <= v <= nx * x0 + ny * y1 + d;
      } else {
        MulMono(0.0, -ny, 0.0, py - y0);
        MulMono(0.0, -ny, 0.0, y1 - py);
        assert nx * x1 + ny * y1 + d <= v <= nx * x0 + ny * y0 + d;
      }
    }
  }

  /** The line equation is the affine form `n . p + d` with `n` the rotated direction. */
  lemma LineEquationAffine(l: Line, p: Vec2Like)
    ensures LineEquation(l, p) ==
      (-l.direction.y) * p.x + l.direction.x * p.y + -((-l.direction.y) * l.position.x + l.direction.x * l.position.y)
  {
  }

  /** `aabbToLine` fails exactly when the line equation has the same strict sign at all four corners. */
  lemma AabbToLineCorners(aabb: AABB, l: Line)
    ensures var d1, d2 := LineEquation(l, aabb.min), LineEquation(l, aabb.max);
      var d3, d4 := LineEquation(l, Vec2Like(aabb.max.x, aabb.min.y)), LineEquation(l, Vec2Like(aabb.min.x, aabb.max.y));
      AabbToLine(aabb, l) <==>
        !((d1 > 0.0 && d2 > 0.0 && d3 > 0.0 && d4 > 0.0) || (d1 < 0.0 && d2 < 0.0 && d3 < 0.0 && d4 < 0.0))
  {
    CornerSigns(LineEquation(l, aabb.min), LineEquation(l, aabb.max),
      LineEquation(l, Vec2Like(aabb.max.x, aabb.min.y)), LineEquation(l, Vec2Like(aabb.min.x, aabb.max.y)));
  }

  /**
   * At some corner of the box the line equation is no larger, and at some corner no
   * smaller, than at a point `p` of the box.
   */
  lemma LineEquationCornerBounds(aabb: AABB, l: Line, p: Vec2Like)
    requires AabbToVec(aabb, p)
    ensures var v := LineEquation(l, p);
      var d1, d2 := LineEquation(l, aabb.min), LineEquation(l, aabb.max);
      var d3, d4 := LineEquation(l, Vec2Like(aabb.max.x, aabb.min.y)), LineEquation(l, Vec2Like(aabb.min.x, aabb.max.y));
      !(d1 > v && d2 > v && d3 > v && d4 > v) && !(d1 < v && d2 < v && d3 < v && d4 < v)
  {
    var nx, ny := -l.direction.y, l.direction.x;
    var d := -(nx * l.position.x + ny * l.position.y);
    LineEquationAffine(l, p);
    LineEquationAffine(l, aabb.min);
    LineEquationAffine(l, aabb.max);
    LineEquationAffine(l, Vec2Like(aabb.max.x, aabb.min.y));
    LineEquationAffine(l, Vec2Like(aabb.min.x, aabb.max.y));
    CornerBounds(nx, ny, d, aabb.min.x, aabb.max.x, aabb.min.y, aabb.max.y, p.x, p.y);
  }

  /** A box that holds a point of the line passes `aabbToLine`. */
  lemma AabbToLineSound(aabb: AABB, l: Line, p: Vec2Like)
    requires AabbToVec(aabb, p) && VecToLine(p, l)
    ensures AabbToLine(aabb, l)
  {
    LineEquationCornerBounds(aabb, l, p);
    AabbToLineCorners(aabb, l);
  }

  /** A scalar step: where an affine function changes sign between 0 and 1, it has a root there. */
  lemma RootParameter(u: real, v: real)
    requires u != 0.0 && u * v <= 0.0
    ensures u - v != 0.0
    ensures var t := u / (u - v); 0.0 < t <= 1.0 && u + t * (v - u) == 0.0
    ensures var t := u / (u - v); v != 0.0 ==> t < 1.0
  {
    if u > 0.0 {
      if v > 0.0 {
        Gjk.PositiveProduct(u, v);
      }
    } else {
      if v < 0.0 {
        Gjk.PositiveProduct(-u, -v);
      }
    }
    var t := u / (u - v);
    assert t * (u - v) == u;
    if u > 0.0 {
      Gjk.PositiveProduct(u, 1.0 / (u - v));
      if t > 1.0 {
        Gjk.PositiveProduct(t - 1.0, u - v);
      }
    } else {
      Gjk.PositiveProduct(-u, 1.0 / (v - u));
      assert t == (-u) / (v - u);
      if t > 1.0 {
        Gjk.PositiveProduct(t - 1.0, v - u);
      }
    }
  }

  /** Along the segment from `a` to `b`, the line equation moves linearly between its values at the ends. */
  lemma LineEquationAlong(l: Line, a: Vec2Like, b: Vec2Like, t: real)
    ensures LineEquation(l, PointAt(a, Difference(b, a), t)) == LineEquation(l, a) + t * (LineEquation(l, b) - LineEquation(l, a))
  {
    WhichSideAlong(l, Segment(a, b), t);
    LineEquationIsWhichSide(l, a);
    LineEquationIsWhichSide(l, b);
    LineEquationIsWhichSide(l, PointAt(a, Difference(b, a), t));
  }

  /** A step of `AabbToLineMeets`: from a corner `q` whose value has the sign opposite to `min`'s, a point of the line in the box. */
  lemma AabbToLinePointTowards(aabb: AABB, l: Line, q: Vec2Like)
    requires aabb.min.x <= aabb.max.x && aabb.min.y <= aabb.max.y && AabbToVec(aabb, q)
    requires LineEquation(l, aabb.min) * LineEquation(l, q) <= 0.0
    ensures exists p :: AabbToVec(aabb, p) && VecToLine(p, l)
  {
    var u, v := LineEquation(l, aabb.min), LineEquation(l, q);
    if u == 0.0 {
      assert AabbToVec(aabb, aabb.min) && VecToLine(aabb.min, l);
    } else {
      RootParameter(u, v);
      var t := u / (u - v);
      var p := PointAt(aabb.min, Difference(q, aabb.min), t);
      LineEquationAlong(l, aabb.min, q, t);
      PointTowardsInBox(aabb, q, t);
      assert AabbToVec(aabb, p) && VecToLine(p, l);
    }
  }

  /** Every point of the segment from `aabb.min` to a point `q` of the box lies in the box. */
  lemma PointTowardsInBox(aabb: AABB, q: Vec2Like, t: real)
    requires aabb.min.x <= aabb.max.x && aabb.min.y <= aabb.max.y && AabbToVec(aabb, q)
    requires 0.0 <= t <= 1.0
    ensures AabbToVec(aabb, PointAt(aabb.min, Difference(q, aabb.min), t))
  {
    var p := PointAt(aabb.min, Difference(q, aabb.min), t);
    BetweenEnds(aabb.min.x, q.x, t, p.x);
    BetweenEnds(aabb.min.y, q.y, t, p.y);
  }

  /**
   * For a box with `min <= max` on both axes, `aabbToLine` holds exactly when some point
   * of the line lies in the box.
   */
  lemma AabbToLineMeets(aabb: AABB, l: Line)
    requires aabb.min.x <= aabb.max.x && aabb.min.y <= aabb.max.y
    ensures AabbToLine(aabb, l) <==> exists p :: AabbToVec(aabb, p) && VecToLine(p, l)
  {
    if exists p :: AabbToVec(aabb, p) && VecToLine(p, l) {
      var p :| AabbToVec(aabb, p) && VecToLine(p, l);
      AabbToLineSound(aabb, l, p);
    }
    if AabbToLine(aabb, l) {
      AabbToLineComplete(aabb, l);
    }
  }

  /** The converse of `AabbToLineSound`: when the corner test passes, the line meets the box. */
  lemma AabbToLineComplete(aabb: AABB, l: Line)
    requires aabb.min.x <= aabb.max.x && aabb.min.y <= aabb.max.y && AabbToLine(aabb, l)
    ensures exists p :: AabbToVec(aabb, p) && VecToLine(p, l)
  {
    var d1 := LineEquation(l, aabb.min);
    var c3, c4 := Vec2Like(aabb.max.x, aabb.min.y), Vec2Like(aabb.min.x, aabb.max.y);
    if d1 * LineEquation(l, aabb.max) <= 0.0 {
      AabbToLinePointTowards(aabb, l, aabb.max);
    } else if d1 * LineEquation(l, c3) <= 0.0 {
      AabbToLinePointTowards(aabb, l, c3);
    } else {
      AabbToLinePointTowards(aabb, l, c4);
    }
  }

  /**
   * `aabbToSegment`: the supporting line must pass `aabbToLine`, and the ranges the
   * segment spans on each axis (its end coordinates sorted ascending) must overlap the
   * box's ranges.
   */
  predicate AabbToSegment(aabb: AABB, s: Segment) {
    var l := Line(s.position, Difference(s.endPosition, s.position));
    if !AabbToLine(aabb, l) then
      false
    else if !Overlap(aabb.min.x, aabb.max.x, Min(s.position.x, s.endPosition.x), Max(s.position.x, s.endPosition.x)) then
      false
    else
      Overlap(aabb.min.y, aabb.max.y, Min(s.position.y, s.endPosition.y), Max(s.position.y, s.endPosition.y))
  }

  /** A box that holds a point of the segment passes `aabbToSegment`. */
  lemma AabbToSegmentSound(aabb: AABB, s: Segment, t: real)
    requires 0.0 <= t <= 1.0
    requires AabbToVec(aabb, PointAt(s.position, Difference(s.endPosition, s.position), t))
    ensures AabbToSegment(aabb, s)
  {
    var l := Line(s.position, Difference(s.endPosition, s.position));
    var p := PointAt(s.position, Difference(s.endPosition, s.position), t);
    ParameterIsOnLine(l, t);
    AabbToLineSound(aabb, l, p);
    BetweenEnds(s.position.x, s.endPosition.x, t, p.x);
    BetweenEnds(s.position.y, s.endPosition.y, t, p.y);
  }

  /**
   * `vecToSegment`: the point must satisfy the line equation of the segment's supporting
   * line exactly, and then `v - position` must be strictly shorter than the segment and
   * point along it.
   */
  predicate VecToSegment(v: Vec2Like, s: Segment) {
    var dir := Difference(s.endPosition, s.position);
    if LineEquation(Line(s.position, dir), v) != 0.0 then
      false
    else
      var vl := Difference(v, s.position);
      LengthSq(vl) < LengthSq(dir) && Dot(vl, dir) >= 0.0
  }

  /** A scalar step: the two range tests of `vecToSegment` on `k * w` say `0 <= k < 1`. */
  lemma HalfOpenTests(k: real, ll: real, sq: real, dt: real)
    requires ll > 0.0 && sq == k * (k * ll) && dt == k * ll
    ensures (sq < ll && dt >= 0.0) <==> 0.0 <= k < 1.0
  {
    if k < 0.0 {
      Gjk.PositiveProduct(-k, ll);
    } else if k >= 1.0 {
      MulMono(1.0, k, ll, ll);
      MulMono(1.0, k, ll, k * ll);
    } else {
      Gjk.PositiveProduct(1.0 - k, ll);
      MulMono(0.0, k, ll, ll);
      MulMono(k, 1.0, k * ll, k * ll);
    }
  }

  /** `vecToSegment` at the point of parameter `t` of a segment of non-zero length. */
  lemma VecToSegmentAt(s: Segment, t: real)
    requires LengthSq(Difference(s.endPosition, s.position)) > 0.0
    ensures VecToSegment(PointAt(s.position, Difference(s.endPosition, s.position), t), s) <==> 0.0 <= t < 1.0
  {
    var w := Difference(s.endPosition, s.position);
    var v := PointAt(s.position, w, t);
    ParameterIsOnLine(Line(s.position, w), t);
    assert Difference(v, s.position) == Vec2Like(w.x * t, w.y * t);
    ScaledMeasures(w.x, w.y, t, LengthSq(w));
    HalfOpenTests(t, LengthSq(w), LengthSq(Difference(v, s.position)), Dot(Difference(v, s.position), w));
  }

  /**
   * For a segment of non-zero length, `vecToSegment` holds exactly for the points
   * `position + t * (endPosition - position)` with `0 <= t < 1`: the start point is in,
   * the end point is out.
   */
  lemma VecToSegmentHalfOpen(v: Vec2Like, s: Segment)
    requires LengthSq(Difference(s.endPosition, s.position)) > 0.0
    ensures VecToSegment(v, s) <==> exists t :: 0.0 <= t < 1.0 && v == PointAt(s.position, Difference(s.endPosition, s.position), t)
  {
    var l := Line(s.position, Difference(s.endPosition, s.position));
    if VecToSegment(v, s) {
      OnLineHasParameter(v, l);
      var t :| v == PointAt(l.position, l.direction, t);
      VecToSegmentAt(s, t);
    }
    if exists t :: 0.0 <= t < 1.0 && v == PointAt(l.position, l.direction, t) {
      var t :| 0.0 <= t < 1.0 && v == PointAt(l.position, l.direction, t);
      VecToSegmentAt(s, t);
    }
  }

  /** The end point of a segment never passes `vecToSegment`; the start point passes unless the segment has length zero. */
  lemma VecToSegmentEnds(s: Segment)
    ensures !VecToSegment(s.endPosition, s)
    ensures VecToSegment(s.position, s) <==> LengthSq(Difference(s.endPosition, s.position)) > 0.0
  {
    assert Difference(s.position, s.position) == Zero;
  }

  /** `lineToSegment`: the two endpoints lie strictly on opposite sides of the line. */
  predicate LineToSegment(l: Line, s: Segment) {
    WhichSide(l, s.position) * WhichSide(l, s.endPosition) < 0.0
  }

  /** A scalar step: a negative product is a pair of strictly opposite signs. */
  lemma OppositeSigns(u: real, v: real)
    ensures u * v < 0.0 <==> (u > 0.0 && v < 0.0) || (u < 0.0 && v > 0.0)
  {
    if u > 0.0 && v < 0.0 {
      Gjk.PositiveProduct(u, -v);
    } else if u < 0.0 && v > 0.0 {
      Gjk.PositiveProduct(-u, v);
    } else if u >= 0.0 && v >= 0.0 {
      MulMono(0.0, u, 0.0, v);
    } else if u <= 0.0 && v <= 0.0 {
      MulMono(0.0, -u, 0.0, -v);
    }
  }

  /**
   * `lineToSegment` holds exactly when the endpoints lie strictly on opposite sides, so
   * a segment touching the line at an endpoint does not pass.
   */
  lemma LineToSegmentStrict(l: Line, s: Segment)
    ensures LineToSegment(l, s) <==>
      (WhichSide(l, s.position) > 0.0 && WhichSide(l, s.endPosition) < 0.0) ||
      (WhichSide(l, s.position) < 0.0 && WhichSide(l, s.endPosition) > 0.0)
    ensures WhichSide(l, s.position) == 0.0 || WhichSide(l, s.endPosition) == 0.0 ==> !LineToSegment(l, s)
  {
    OppositeSigns(WhichSide(l, s.position), WhichSide(l, s.endPosition));
  }

  /**
   * `lineToSegment` holds exactly when neither endpoint lies on the line and some point
   * strictly inside the segment does.
   */
  lemma LineToSegmentCrossing(l: Line, s: Segment)
    ensures LineToSegment(l, s) <==>
      WhichSide(l, s.position) != 0.0 && WhichSide(l, s.endPosition) != 0.0 &&
      exists t :: 0.0 < t < 1.0 && WhichSide(l, PointAt(s.position, Difference(s.endPosition, s.position), t)) == 0.0
  {
    var u, v := WhichSide(l, s.position), WhichSide(l, s.endPosition);
    var w := Difference(s.endPosition, s.position);
    OppositeSigns(u, v);
    if LineToSegment(l, s) {
      RootParameter(u, v);
      var t := u / (u - v);
      WhichSideAlong(l, s, t);
      assert WhichSide(l, PointAt(s.position, w, t)) == 0.0;
    }
    if u != 0.0 && v != 0.0 && exists t :: 0.0 < t < 1.0 && WhichSide(l, PointAt(s.position, w, t)) == 0.0 {
      var t :| 0.0 < t < 1.0 && WhichSide(l, PointAt(s.position, w, t)) == 0.0;
      WhichSideAlong(l, s, t);
      ZeroBetween(u, v, t);
      if u > 0.0 && v > 0.0 {
        Gjk.PositiveProduct(u, v);
      } else if u < 0.0 && v < 0.0 {
        Gjk.PositiveProduct(-u, -v);
      }
    }
  }

  // Polygons

  /** The points `supportPolygon` can return for `p`: its vertices, or the origin when it has none. */
  function SupportCandidates(p: Polygon): (r: seq<Vec2Like>)
    ensures |r| > 0
    ensures forall d :: Gjk.SupportPolygon(p, d) in r
  {
    if |p.vertices| == 0 then [Zero] else p.vertices
  }

  /** `x` is a convex combination of three (not necessarily distinct) points of `points`. */
  ghost predicate InHull(points: seq<Vec2Like>, x: Vec2Like) {
    exists i, j, k, la, lb, lc :: InHullAt(points, x, i, j, k, la, lb, lc)
  }

  /** `x` is the convex combination of `points[i]`, `points[j]` and `points[k]` with weights `la`, `lb`, `lc`. */
  predicate InHullAt(points: seq<Vec2Like>, x: Vec2Like, i: int, j: int, k: int, la: real, lb: real, lc: real) {
    0 <= i < |points| && 0 <= j < |points| && 0 <= k < |points| && Gjk.ConvexWeights(la, lb, lc) &&
    Gjk.Combination(points[i], points[j], points[k], la, lb, lc) == x
  }

  /**
   * `polygonToPolygon`: the GJK test with `supportPolygon` on both sides. The source's
   * loop is unbounded; here `fuel` bounds it as in `Gjk.GjkTest`. A `true` answer means
   * the hulls of the two polygons (of the origin for a polygon without vertices) share a point.
   */
  method PolygonToPolygon(p1: Polygon, p2: Polygon, fuel: nat) returns (r: bool)
    ensures r <==> Gjk.Outcome(p1, p1.position, Gjk.SupportPolygon, p2, p2.position, Gjk.SupportPolygon, fuel).state == Gjk.Found
    ensures p1.position == p2.position ==> !r
    ensures r ==> exists x :: InHull(SupportCandidates(p1), x) && InHull(SupportCandidates(p2), x)
  {
    ghost var result, triangle;
    r, result, triangle := Gjk.GjkTest(p1, p1.position, Gjk.SupportPolygon, p2, p2.position, Gjk.SupportPolygon, fuel);
    if r {
      SharedPointOfSupports(p1, p2, triangle);
    }
  }

  /**
   * A triangle of Minkowski support points of two polygons around the origin gives a point
   * both hulls contain: the same weights applied to the two sides' support points.
   */
  lemma SharedPointOfSupports(p1: Polygon, p2: Polygon, t: seq<Vec2Like>)
    requires |t| == 3 && Gjk.OriginInTriangle(t[0], t[1], t[2])
    requires forall v :: v in t ==> Gjk.IsSupportPoint(p1, Gjk.SupportPolygon, p2, Gjk.SupportPolygon, v)
    ensures exists x :: InHull(SupportCandidates(p1), x) && InHull(SupportCandidates(p2), x)
  {
    assert t[0] in t && t[1] in t && t[2] in t;
    var u0, w0 := SupportPointSides(p1, p2, t[0]);
    var u1, w1 := SupportPointSides(p1, p2, t[1]);
    var u2, w2 := SupportPointSides(p1, p2, t[2]);
    SharedPointOfDifferences(SupportCandidates(p1), SupportCandidates(p2), u0, u1, u2, w0, w1, w2);
  }

  /**
   * When the origin is a convex combination of the differences `u_i - w_i`, the same
   * weights give one point of the hull of the `u_i` and of the hull of the `w_i`.
   */
  lemma SharedPointOfDifferences(c1: seq<Vec2Like>, c2: seq<Vec2Like>, u0: Vec2Like, u1: Vec2Like, u2: Vec2Like,
                                 w0: Vec2Like, w1: Vec2Like, w2: Vec2Like)
    requires u0 in c1 && u1 in c1 && u2 in c1 && w0 in c2 && w1 in c2 && w2 in c2
    requires Gjk.OriginInTriangle(Difference(u0, w0), Difference(u1, w1), Difference(u2, w2))
    ensures exists x :: InHull(c1, x) && InHull(c2, x)
  {
    var la, lb, lc :| Gjk.ConvexWeights(la, lb, lc) &&
      Gjk.Combination(Difference(u0, w0), Difference(u1, w1), Difference(u2, w2), la, lb, lc) == Zero;
    CombinationOfDifferences(u0, u1, u2, w0, w1, w2, la, lb, lc);
    HullOfCandidates(c1, u0, u1, u2, la, lb, lc);
    HullOfCandidates(c2, w0, w1, w2, la, lb, lc);
    var x := Gjk.Combination(u0, u1, u2, la, lb, lc);
    assert InHull(c1, x) && InHull(c2, x);
  }

  /** A Minkowski support point of two polygons is a support candidate of the first minus one of the second. */
  lemma SupportPointSides(p1: Polygon, p2: Polygon, v: Vec2Like) returns (u: Vec2Like, w: Vec2Like)
    requires Gjk.IsSupportPoint(p1, Gjk.SupportPolygon, p2, Gjk.SupportPolygon, v)
    ensures u in SupportCandidates(p1) && w in SupportCandidates(p2) && v == Difference(u, w)
  {
    var d :| v == Gjk.MinkowskiSupport(p1, Gjk.SupportPolygon, p2, Gjk.SupportPolygon, d);
    u, w := Gjk.SupportPolygon(p1, d), Gjk.SupportPolygon(p2, Negated(d));
  }

  /** Combinations are linear: the same weights on differences give the difference of the combinations. */
  lemma CombinationOfDifferences(u0: Vec2Like, u1: Vec2Like, u2: Vec2Like, w0: Vec2Like, w1: Vec2Like, w2: Vec2Like,
                                 la: real, lb: real, lc: real)
    requires Gjk.Combination(Difference(u0, w0), Difference(u1, w1), Difference(u2, w2), la, lb, lc) == Zero
    ensures Gjk.Combination(u0, u1, u2, la, lb, lc) == Gjk.Combination(w0, w1, w2, la, lb, lc)
  {
    assert la * (u0.x - w0.x) + lb * (u1.x - w1.x) + lc * (u2.x - w2.x) == 0.0;
    assert la * (u0.y - w0.y) + lb * (u1.y - w1.y) + lc * (u2.y - w2.y) == 0.0;
  }

  /** Convex weights on three members of `points` give a point of their hull. */
  lemma HullOfCandidates(points: seq<Vec2Like>, a: Vec2Like, b: Vec2Like, c: Vec2Like, la: real, lb: real, lc: real)
    requires a in points && b in points && c in points && Gjk.ConvexWeights(la, lb, lc)
    ensures InHull(points, Gjk.Combination(a, b, c, la, lb, lc))
  {
    var i :| 0 <= i < |points| && points[i] == a;
    var j :| 0 <= j < |points| && points[j] == b;
    var k :| 0 <= k < |points| && points[k] == c;
    assert InHullAt(points, Gjk.Combination(a, b, c, la, lb, lc), i, j, k, la, lb, lc);
  }

  /** Every point `v` of `points` satisfies `dot(v, n) <= m`: they lie in one closed half-plane. */
  predicate BoundedBy(points: seq<Vec2Like>, n: Vec2Like, m: real) {
    forall i :: 0 <= i < |points| ==> Dot(points[i], n) <= m
  }

  /** A bound `dot(v, n) <= m` that every point satisfies holds on their whole hull. */
  lemma HullBound(points: seq<Vec2Like>, n: Vec2Like, m: real, x: Vec2Like)
    requires BoundedBy(points, n, m)
    requires InHull(points, x)
    ensures Dot(x, n) <= m
  {
    var i, j, k, la, lb, lc :| InHullAt(points, x, i, j, k, la, lb, lc);
    HullBoundAt(points, n, m, i, j, k, la, lb, lc, x);
  }

  /** The step of `HullBound` for one choice of three points and weights. */
  lemma HullBoundAt(points: seq<Vec2Like>, n: Vec2Like, m: real, i: int, j: int, k: int, la: real, lb: real, lc: real, x: Vec2Like)
    requires BoundedBy(points, n, m)
    requires 0 <= i < |points| && 0 <= j < |points| && 0 <= k < |points| && Gjk.ConvexWeights(la, lb, lc)
    requires Gjk.Combination(points[i], points[j], points[k], la, lb, lc) == x
    ensures Dot(x, n) <= m
  {
    CombinationBound(points[i], points[j], points[k], la, lb, lc, n, m);
  }

  /** A bound `dot(v, n) <= m` on three points holds on their convex combinations. */
  lemma CombinationBound(a: Vec2Like, b: Vec2Like, c: Vec2Like, la: real, lb: real, lc: real, n: Vec2Like, m: real)
    requires Gjk.ConvexWeights(la, lb, lc) && Dot(a, n) <= m && Dot(b, n) <= m && Dot(c, n) <= m
    ensures Dot(Gjk.Combination(a, b, c, la, lb, lc), n) <= m
  {
    CombinationDot(a.x, a.y, b.x, b.y, c.x, c.y, la, lb, lc, n.x, n.y);
    ConvexBound(la, lb, lc, Dot(a, n), Dot(b, n), Dot(c, n), m);
  }

  /** A scalar step: the dot product distributes over a combination of three points. */
  lemma CombinationDot(a1: real, a2: real, b1: real, b2: real, c1: real, c2: real,
                       la: real, lb: real, lc: real, n1: real, n2: real)
    ensures (la * a1 + lb * b1 + lc * c1) * n1 + (la * a2 + lb * b2 + lc * c2) * n2
         == la * (a1 * n1 + a2 * n2) + lb * (b1 * n1 + b2 * n2) + lc * (c1 * n1 + c2 * n2)
  {
  }

  /** A scalar step: a convex combination of numbers at most `m` is at most `m`. */
  lemma ConvexBound(la: real, lb: real, lc: real, da: real, db: real, dc: real, m: real)
    requires Gjk.ConvexWeights(la, lb, lc) && da <= m && db <= m && dc <= m
    ensures la * da + lb * db + lc * dc <= m
  {
    Gjk.MulNonPositive(la, da - m);
    Gjk.MulNonPositive(lb, db - m);
    Gjk.MulNonPositive(lc, dc - m);
    assert la * m + lb * m + lc * m == (la + lb + lc) * m;
  }

  /** Every vertex of the square `[2, 4] x [2, 4]` has both coordinates at least 2. */
  lemma SquareVertexBounds(vs: seq<Vec2Like>)
    requires vs == [Vec2Like(2.0, 2.0), Vec2Like(4.0, 2.0), Vec2Like(4.0, 4.0), Vec2Like(2.0, 4.0)]
    ensures BoundedBy(vs, Vec2Like(-1.0, 0.0), -2.0) && BoundedBy(vs, Vec2Like(0.0, -1.0), -2.0)
  {
  }

  /** Every vertex of the triangle `(0, 0)`, `(3, 0)`, `(0, 2)` lies under the line `2x + 3y = 6`. */
  lemma TriangleVertexBounds(vs: seq<Vec2Like>)
    requires vs == [Vec2Like(0.0, 0.0), Vec2Like(3.0, 0.0), Vec2Like(0.0, 2.0)]
    ensures BoundedBy(vs, Vec2Like(2.0, 3.0), 6.0)
  {
  }

  /**
   * Two separated polygons: the square `[2, 4] x [2, 4]` and the triangle `(0, 0)`,
   * `(3, 0)`, `(0, 2)` under the line `2x + 3y = 6`. Their hulls share no point.
   */
  lemma SeparatedHulls(p1: Polygon, p2: Polygon)
    requires p1 == Polygon(Vec2Like(3.0, 3.0), [Vec2Like(2.0, 2.0), Vec2Like(4.0, 2.0), Vec2Like(4.0, 4.0), Vec2Like(2.0, 4.0)])
    requires p2 == Polygon(Vec2Like(1.0, 2.0 / 3.0), [Vec2Like(0.0, 0.0), Vec2Like(3.0, 0.0), Vec2Like(0.0, 2.0)])
    ensures !exists x :: InHull(SupportCandidates(p1), x) && InHull(SupportCandidates(p2), x)
  {
    var c1, c2 := SupportCandidates(p1), SupportCandidates(p2);
    assert c1 == p1.vertices && c2 == p2.vertices;
    SquareVertexBounds(c1);
    TriangleVertexBounds(c2);
    forall x | InHull(c1, x) && InHull(c2, x)
      ensures false
    {
      HullBound(c1, Vec2Like(-1.0, 0.0), -2.0, x);
      HullBound(c1, Vec2Like(0.0, -1.0), -2.0, x);
      HullBound(c2, Vec2Like(2.0, 3.0), 6.0, x);
    }
  }

  /** `polygonToPolygon` rejects the separated pair, whatever the loop budget. */
  method SeparatedPolygonsRejected(fuel: nat) returns (r: bool)
    ensures !r
  {
    var p1 := Polygon(Vec2Like(3.0, 3.0), [Vec2Like(2.0, 2.0), Vec2Like(4.0, 2.0), Vec2Like(4.0, 4.0), Vec2Like(2.0, 4.0)]);
    var p2 := Polygon(Vec2Like(1.0, 2.0 / 3.0), [Vec2Like(0.0, 0.0), Vec2Like(3.0, 0.0), Vec2Like(0.0, 2.0)]);
    SeparatedHulls(p1, p2);
    r := PolygonToPolygon(p1, p2, fuel);
  }

  /*
   * The library's cases for the circle, box, point and line tests. The larger ones take
   * their fixtures as parameters fixed by the precondition, as above.
   */

  lemma CircleToVecExamples()
    ensures CircleToVec(Circle(Vec2Like(1.0, 1.0), 1.0), Vec2Like(1.1, 1.2))
    ensures !CircleToVec(Circle(Vec2Like(1.0, 1.0), 1.0), Vec2Like(2.0, 2.0))
  {
  }

  lemma CircleToLineExamples(c: Circle, l1: Line, l2: Line)
    requires c == Circle(Vec2Like(1.0, 1.0), 1.0)
    requires l1 == Line(Vec2Like(0.0, 2.0), Vec2Like(2.0, -1.0)) && l2 == Line(Vec2Like(0.0, 3.0), Vec2Like(2.0, -1.0))
    ensures CircleToLine(c, l1) && !CircleToLine(c, l2)
  {
    assert LengthSq(l1.direction) == 5.0;
    assert Dot(Difference(c.position, l1.position), l1.direction) == 3.0;
    assert Projection(Difference(c.position, l1.position), l1.direction) == Vec2Like(1.2, -0.6);
    assert Dot(Difference(c.position, l2.position), l2.direction) == 4.0;
    assert Projection(Difference(c.position, l2.position), l2.direction) == Vec2Like(1.6, -0.8);
  }

  lemma CircleToSegmentExamples(c: Circle, s1: Segment, s2: Segment)
    requires c == Circle(Vec2Like(1.0, 1.0), 1.0)
    requires s1 == Segment(Vec2Like(0.0, 2.0), Vec2Like(2.0, 1.0)) && s2 == Segment(Vec2Like(-1.0, 3.0), Vec2Like(0.0, 2.0))
    ensures CircleToSegment(c, s1) && !CircleToSegment(c, s2)
  {
    assert CircleToVec(c, s1.endPosition);
    var dir := Difference(s2.endPosition, s2.position);
    assert dir == Vec2Like(1.0, -1.0);
    assert LengthSq(dir) == 2.0;
    assert Dot(Difference(c.position, s2.position), dir) == 4.0;
    CircleToSegmentByParameter(c, s2, 2.0);
    assert !CircleToVec(c, s2.position) && !CircleToVec(c, s2.endPosition);
  }

  lemma CircleToAABBExamples()
    ensures CircleToAABB(Circle(Vec2Like(4.0, 3.0), 1.5), AABB(Vec2Like(1.0, 1.0), Vec2Like(3.0, 2.0)))
    ensures !CircleToAABB(Circle(Vec2Like(4.0, 3.0), 1.0), AABB(Vec2Like(1.0, 1.0), Vec2Like(3.0, 2.0)))
  {
  }

  lemma AabbToVecExamples()
    ensures AabbToVec(AABB(Vec2Like(1.0, 1.0), Vec2Like(4.0, 3.0)), Vec2Like(3.0, 2.0))
    ensures !AabbToVec(AABB(Vec2Like(1.0, 1.0), Vec2Like(4.0, 3.0)), Vec2Like(3.0, 4.0))
  {
  }

  lemma AabbToLineExamples(aabb: AABB, l1: Line, l2: Line)
    requires aabb == AABB(Vec2Like(1.0, 1.0), Vec2Like(3.0, 2.0))
    requires l1 == Line(Vec2Like(0.0, 4.0), Vec2Like(1.0, -1.0)) && l2 == Line(Vec2Like(3.0, 4.0), Vec2Like(1.0, -1.0))
    ensures AabbToLine(aabb, l1) && !AabbToLine(aabb, l2)
  {
    assert LineEquation(l1, aabb.min) == -2.0 && LineEquation(l1, aabb.max) == 1.0;
    AabbToLineCorners(aabb, l2);
    assert LineEquation(l2, aabb.min) == -5.0 && LineEquation(l2, aabb.max) == -2.0;
    assert LineEquation(l2, Vec2Like(3.0, 1.0)) == -3.0 && LineEquation(l2, Vec2Like(1.0, 2.0)) == -4.0;
  }

  lemma AabbToSegmentExamples(a1: AABB, s1: Segment, a2: AABB, s2: Segment)
    requires a1 == AABB(Vec2Like(1.0, 1.0), Vec2Like(3.0, 1.5)) && s1 == Segment(Vec2Like(2.0, 2.0), Vec2Like(10.0, -6.0))
    requires a2 == AABB(Vec2Like(1.0, 1.0), Vec2Like(3.0, 2.0)) && s2 == Segment(Vec2Like(0.0, 4.0), Vec2Like(1.0, 3.0))
    ensures AabbToSegment(a1, s1) && !AabbToSegment(a2, s2)
  {
    assert PointAt(s1.position, Difference(s1.endPosition, s1.position), 0.0625) == Vec2Like(2.5, 1.5);
    AabbToSegmentSound(a1, s1, 0.0625);
  }

  lemma VecToLineExamples()
    ensures VecToLine(Vec2Like(3.0, 2.0), Line(Vec2Like(1.0, 1.0), Vec2Like(2.0, 1.0)))
    ensures !VecToLine(Vec2Like(3.0, 3.0), Line(Vec2Like(1.0, 1.0), Vec2Like(2.0, 1.0)))
  {
  }

  lemma VecToSegmentExamples(s1: Segment, s2: Segment)
    requires s1 == Segment(Vec2Like(1.0, 1.0), Vec2Like(5.0, 3.0)) && s2 == Segment(Vec2Like(1.0, 1.0), Vec2Like(3.0, 2.0))
    ensures VecToSegment(Vec2Like(3.0, 2.0), s1) && !VecToSegment(Vec2Like(5.0, 3.0), s2)
  {
    assert Difference(s1.endPosition, s1.position) == Vec2Like(4.0, 2.0);
    assert Difference(s2.endPosition, s2.position) == Vec2Like(2.0, 1.0);
  }

  lemma LineToSegmentExamples()
    ensures LineToSegment(Line(Vec2Like(3.0, 3.0), Vec2Like(1.0, -1.0)), Segment(Vec2Like(2.0, 2.0), Vec2Like(4.0, 4.0)))
    ensures !LineToSegment(Line(Vec2Like(1.0, 1.0), Vec2Like(1.0, -1.0)), Segment(Vec2Like(2.0, 2.0), Vec2Like(4.0, 4.0)))
  {
  }
}
