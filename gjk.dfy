/**
 * The GJK intersection test of `gjk.ts`. Two shapes are given by their positions and
 * support functions; the simplex is a list of points of their Minkowski difference
 * that `addSupport` appends to and `evolveSimplex` prunes, and `gjkTest` repeats
 * `evolveSimplex` until it stops evolving.
 *
 * Each shape is passed with its `position` alongside, standing in for the `GJKShape`
 * interface; a support function is a function value over the shape.
 */
module Gjk {
  import opened Options
  import opened Vec2Algebra
  import opened Shapes

  // Support functions

  /**
   * The index `getFurthestVertex` settles on: the first vertex whose dot product with
   * `dir` is maximal. The loop starts from negative infinity and replaces its choice
   * only on a strictly larger value, so ties keep the earlier vertex.
   */
  function FurthestIndex(vertices: seq<Vec2Like>, dir: Vec2Like): (i: nat)
    requires |vertices| > 0
    ensures i < |vertices|
    ensures forall j :: 0 <= j < |vertices| ==> Dot(vertices[j], dir) <= Dot(vertices[i], dir)
    ensures forall j :: 0 <= j < i ==> Dot(vertices[j], dir) < Dot(vertices[i], dir)
  {
    if |vertices| == 1 then
      0
    else
      var k := FurthestIndex(vertices[..|vertices| - 1], dir);
      var last := |vertices| - 1;
      assert vertices[k] == vertices[..last][k];
      assert forall j :: 0 <= j < last ==> vertices[j] == vertices[..last][j];
      if Dot(vertices[last], dir) > Dot(vertices[k], dir) then last else k
  }

  /** Only one index is the first maximal one, so the contract of `FurthestIndex` pins it down. */
  lemma FurthestIndexUnique(vertices: seq<Vec2Like>, dir: Vec2Like, k: nat)
    requires k < |vertices|
    requires forall j :: 0 <= j < |vertices| ==> Dot(vertices[j], dir) <= Dot(vertices[k], dir)
    requires forall j :: 0 <= j < k ==> Dot(vertices[j], dir) < Dot(vertices[k], dir)
    ensures k == FurthestIndex(vertices, dir)
  {
    var i := FurthestIndex(vertices, dir);
    assert Dot(vertices[i], dir) <= Dot(vertices[k], dir) && Dot(vertices[k], dir) <= Dot(vertices[i], dir);
  }

  /** What `getFurthestVertex` returns: the first furthest vertex, or the origin for an empty list. */
  function FurthestVertex(vertices: seq<Vec2Like>, dir: Vec2Like): (r: Vec2Like)
    ensures |vertices| == 0 ==> r == Zero
    ensures |vertices| > 0 ==> r in vertices && forall v :: v in vertices ==> Dot(v, dir) <= Dot(r, dir)
  {
    if |vertices| == 0 then Zero else vertices[FurthestIndex(vertices, dir)]
  }

  /**
   * `getFurthestVertex`: a scan that keeps the largest dot product seen so far, starting
   * from negative infinity (`None`), and the vertex that gave it.
   */
  method GetFurthestVertex(vertices: seq<Vec2Like>, dir: Vec2Like) returns (furthestVertex: Vec2Like)
    ensures furthestVertex == FurthestVertex(vertices, dir)
  {
    var furthest: Option<real> := None;
    furthestVertex := Zero;
    ghost var k: nat := 0;
    for i := 0 to |vertices|
      invariant i == 0 ==> furthest == None && furthestVertex == Zero
      invariant i > 0 ==> k < i && furthestVertex == vertices[k] && furthest == Some(Dot(vertices[k], dir))
      invariant i > 0 ==> forall j :: 0 <= j < i ==> Dot(vertices[j], dir) <= Dot(vertices[k], dir)
      invariant i > 0 ==> forall j :: 0 <= j < k ==> Dot(vertices[j], dir) < Dot(vertices[k], dir)
    {
      var v := vertices[i];
      var distance := Dot(v, dir);
      if furthest.None? || distance > furthest.value {
        furthest := Some(distance);
        furthestVertex := v;
        k := i;
      }
    }
    if |vertices| > 0 {
      FurthestIndexUnique(vertices, dir, k);
    }
  }

  /** `supportPolygon`: the polygon's first furthest vertex; its `position` plays no part. */
  function SupportPolygon(p: Polygon, dir: Vec2Like): (r: Vec2Like)
    ensures |p.vertices| == 0 ==> r == Zero
    ensures |p.vertices| > 0 ==> r in p.vertices && forall v :: v in p.vertices ==> Dot(v, dir) <= Dot(r, dir)
  {
    FurthestVertex(p.vertices, dir)
  }

  /** `supportSegment`: the end point when it is strictly further along `dir`, the start point otherwise. */
  function SupportSegment(s: Segment, dir: Vec2Like): (r: Vec2Like)
    ensures Dot(s.endPosition, dir) > Dot(s.position, dir) ==> r == s.endPosition
    ensures Dot(s.endPosition, dir) <= Dot(s.position, dir) ==> r == s.position
  {
    var vs := [s.position, s.endPosition];
    var i := FurthestIndex(vs, dir);
    assert i == 1 ==> Dot(vs[0], dir) < Dot(vs[1], dir);
    FurthestVertex(vs, dir)
  }

  /** `supportVec`: a point shape supports itself in every direction. */
  function SupportVec(position: Vec2Like, dir: Vec2Like): Vec2Like {
    position
  }

  /** `supportVec` does not depend on the direction. */
  lemma SupportVecIgnoresDirection(position: Vec2Like, d1: Vec2Like, d2: Vec2Like)
    ensures SupportVec(position, d1) == SupportVec(position, d2) == position
  {
  }

  /** The case checked by the library's tests: the triangle's furthest vertex towards `(2, 5)`. */
  lemma SupportPolygonExample(p: Polygon)
    requires p == Polygon(Vec2Like(1.0, 2.0 / 3.0), [Vec2Like(0.0, 0.0), Vec2Like(3.0, 0.0), Vec2Like(0.0, 2.0)])
    ensures SupportPolygon(p, Vec2Like(2.0, 5.0)) == Vec2Like(0.0, 2.0)
  {
    var dir := Vec2Like(2.0, 5.0);
    var i := FurthestIndex(p.vertices, dir);
    assert Dot(p.vertices[0], dir) == 0.0 && Dot(p.vertices[1], dir) == 6.0 && Dot(p.vertices[2], dir) == 10.0;
    assert Dot(p.vertices[2], dir) <= Dot(p.vertices[i], dir);
  }

  /**
   * `tripleProduct(a, b, c)`: `cross(a, b)` times `c` turned a quarter to the left, so
   * the result is orthogonal to `c`, on its left when `cross(a, b) > 0`.
   */
  function TripleProduct(a: Vec2Like, b: Vec2Like, c: Vec2Like): (r: Vec2Like)
    ensures Dot(r, c) == 0.0
    ensures Cross(c, r) == Cross(a, b) * LengthSq(c)
  {
    var z := Cross(a, b);
    Vec2Like(-z * c.y, z * c.x)
  }

  /** Against any point, the triple product measures that point's side of `c`. */
  lemma TripleProductDot(a: Vec2Like, b: Vec2Like, c: Vec2Like, p: Vec2Like)
    ensures Dot(TripleProduct(a, b, c), p) == Cross(a, b) * Cross(c, p)
  {
  }

  // The simplex

  /** The state `evolveSimplex` reports. */
  datatype EvolveState = Found | Evolving | NoIntersection | Error

  /** The point of the Minkowski difference `addSupport` computes for `direction`. */
  function MinkowskiSupport<S1, S2>(s1: S1, sup1: (S1, Vec2Like) -> Vec2Like, s2: S2, sup2: (S2, Vec2Like) -> Vec2Like,
                                    direction: Vec2Like): Vec2Like {
    Difference(sup1(s1, direction), sup2(s2, Negated(direction)))
  }

  /** The vertex array shared by `gjkTest`, `evolveSimplex` and `addSupport`. */
  class Simplex {
    var vertices: seq<Vec2Like>

    constructor ()
      ensures vertices == []
    {
      vertices := [];
    }
  }

  /**
   * `addSupport`: appends the Minkowski support point for `direction` and reports whether
   * it lies strictly ahead along `direction`.
   */
  method AddSupport<S1, S2>(s1: S1, sup1: (S1, Vec2Like) -> Vec2Like, s2: S2, sup2: (S2, Vec2Like) -> Vec2Like,
                            direction: Vec2Like, simplex: Simplex) returns (ahead: bool)
    modifies simplex
    ensures simplex.vertices == old(simplex.vertices) + [MinkowskiSupport(s1, sup1, s2, sup2, direction)]
    ensures ahead <==> Dot(direction, MinkowskiSupport(s1, sup1, s2, sup2, direction)) > 0.0
  {
    var support := Difference(sup1(s1, direction), sup2(s2, Negated(direction)));
    simplex.vertices := simplex.vertices + [support];
    ahead := Dot(direction, support) > 0.0;
  }

  /** What `evolveSimplex` does to a simplex before any support point is added. */
  datatype Step = Extend(kept: seq<Vec2Like>, direction: Vec2Like) | Stop(state: EvolveState)

  /**
   * The decision `evolveSimplex` takes on the vertices `vs` (oldest first): with 0, 1 or 2
   * vertices it searches from the shape positions or across the edge towards the origin;
   * with 3 vertices `[c, b, a]` it drops `c` or `b` when the origin lies beyond edge `ab`
   * or `ac`, and otherwise reports `Found`; with more it reports `Error`.
   */
  function EvolveStep(vs: seq<Vec2Like>, position1: Vec2Like, position2: Vec2Like): Step {
    if |vs| == 0 then
      Extend(vs, Difference(position2, position1))
    else if |vs| == 1 then
      Extend(vs, Difference(position1, position2))
    else if |vs| == 2 then
      var cb := Difference(vs[1], vs[0]);
      Extend(vs, TripleProduct(cb, Negated(vs[0]), cb))
    else if |vs| == 3 then
      var a, b, c := vs[2], vs[1], vs[0];
      var ab, ac := Difference(b, a), Difference(c, a);
      var abPerp, acPerp := TripleProduct(ac, ab, ab), TripleProduct(ab, ac, ac);
      if Dot(abPerp, Negated(a)) > 0.0 then Extend(vs[1..], abPerp)
      else if Dot(acPerp, Negated(a)) > 0.0 then Extend(vs[..1] + vs[2..], acPerp)
      else Stop(Found)
    else
      Stop(Error)
  }

  /** The state `evolveSimplex` reports together with the vertices it leaves. */
  datatype Progress = Progress(state: EvolveState, vertices: seq<Vec2Like>)

  /** What one call of `evolveSimplex` leaves, as a function of the vertices it starts from. */
  function Advance<S1, S2>(s1: S1, position1: Vec2Like, sup1: (S1, Vec2Like) -> Vec2Like,
                           s2: S2, position2: Vec2Like, sup2: (S2, Vec2Like) -> Vec2Like,
                           vs: seq<Vec2Like>): Progress {
    match EvolveStep(vs, position1, position2)
    case Stop(st) => Progress(st, vs)
    case Extend(kept, d) =>
      var s := MinkowskiSupport(s1, sup1, s2, sup2, d);
      Progress(if Dot(d, s) > 0.0 then Evolving else NoIntersection, kept + [s])
  }

  /**
   * `evolveSimplex`: takes the step `EvolveStep` describes, then, unless it stopped,
   * appends the support point for the new direction and reports `Evolving` when that
   * point lies strictly ahead, `NoIntersection` otherwise.
   */
  method EvolveSimplex<S1, S2>(s1: S1, position1: Vec2Like, sup1: (S1, Vec2Like) -> Vec2Like,
                               s2: S2, position2: Vec2Like, sup2: (S2, Vec2Like) -> Vec2Like,
                               simplex: Simplex) returns (state: EvolveState)
    modifies simplex
    ensures match EvolveStep(old(simplex.vertices), position1, position2)
      case Stop(st) => state == st && simplex.vertices == old(simplex.vertices)
      case Extend(kept, d) =>
        var s := MinkowskiSupport(s1, sup1, s2, sup2, d);
        simplex.vertices == kept + [s] && state == (if Dot(d, s) > 0.0 then Evolving else NoIntersection)
    ensures Progress(state, simplex.vertices) == Advance(s1, position1, sup1, s2, position2, sup2, old(simplex.vertices))
  {
    var vs := simplex.vertices;
    var direction: Vec2Like;
    if |vs| == 0 {
      direction := Difference(position2, position1);
    } else if |vs| == 1 {
      direction := Difference(position1, position2);
    } else if |vs| == 2 {
      var b := vs[1];
      var c := vs[0];
      var cb := Difference(b, c);
      var c0 := Negated(c);
      direction := TripleProduct(cb, c0, cb);
    } else if |vs| == 3 {
      var a := vs[2];
      var b := vs[1];
      var c := vs[0];
      var a0 := Negated(a);
      var ab := Difference(b, a);
      var ac := Difference(c, a);
      var abPerp := TripleProduct(ac, ab, ab);
      var acPerp := TripleProduct(ab, ac, ac);
      if Dot(abPerp, a0) > 0.0 {
        simplex.vertices := vs[1..];
        direction := abPerp;
      } else if Dot(acPerp, a0) > 0.0 {
        simplex.vertices := vs[..1] + vs[2..];
        direction := acPerp;
      } else {
        return Found;
      }
    } else {
      return Error;
    }
    var ahead := AddSupport(s1, sup1, s2, sup2, direction, simplex);
    state := if ahead then Evolving else NoIntersection;
  }

  /**
   * From at most three vertices a step never reports `Error`: it either keeps at most two
   * vertices, removing only `vs[0]` or `vs[1]`, never the newest, or it reports `Found`
   * on exactly three. More than three vertices is the only way to `Error`.
   */
  lemma EvolveStepBounded(vs: seq<Vec2Like>, position1: Vec2Like, position2: Vec2Like)
    ensures |vs| <= 3 ==> EvolveStep(vs, position1, position2) != Stop(Error)
    ensures |vs| > 3 ==> EvolveStep(vs, position1, position2) == Stop(Error)
    ensures EvolveStep(vs, position1, position2).Stop? && |vs| <= 3 ==> |vs| == 3
    ensures match EvolveStep(vs, position1, position2)
      case Extend(kept, _) =>
        (|vs| < 3 ==> kept == vs) &&
        (|vs| == 3 ==> kept == vs[1..] || kept == [vs[0], vs[2]])
      case Stop(_) => true
  {
    if |vs| == 3 {
      assert vs[..1] + vs[2..] == [vs[0], vs[2]];
    }
  }

  /**
   * The search directions of the growing steps: from shape 1's position towards shape 2's
   * for an empty simplex, back the other way for one vertex, and for an edge `[c, b]` a
   * perpendicular of the edge that does not point away from the origin.
   */
  lemma EvolveStepDirections(vs: seq<Vec2Like>, position1: Vec2Like, position2: Vec2Like)
    ensures |vs| == 0 ==> EvolveStep(vs, position1, position2) == Extend(vs, Difference(position2, position1))
    ensures |vs| == 1 ==> EvolveStep(vs, position1, position2) == Extend(vs, Difference(position1, position2))
    ensures |vs| == 2 ==>
      var d := EvolveStep(vs, position1, position2).direction;
      Dot(d, Difference(vs[1], vs[0])) == 0.0 && Dot(d, Negated(vs[0])) >= 0.0
  {
    if |vs| == 2 {
      var cb := Difference(vs[1], vs[0]);
      TripleProductDot(cb, Negated(vs[0]), cb, Negated(vs[0]));
      var z := Cross(cb, Negated(vs[0]));
      assert z * z >= 0.0;
    }
  }

  /**
   * The fact the loop keeps about a three-vertex simplex `[c, b, a]`: `a` and the origin
   * lie strictly on the same side of the line through `c` and `b`, which `evolveSimplex`
   * ensures by searching for `a` across that edge towards the origin.
   */
  predicate OriginSide(vs: seq<Vec2Like>)
    requires |vs| == 3
  {
    var c, b, a := vs[0], vs[1], vs[2];
    Cross(Difference(b, c), c) * Cross(Difference(b, c), a) < 0.0
  }

  /** A scalar step: two numbers that share a strict sign with `k` share it with each other. */
  lemma SharedSign(k: real, u: real, v: real)
    requires k * u > 0.0 && k * v > 0.0
    ensures u * v > 0.0
  {
    if k > 0.0 {
      if u <= 0.0 { MulNonPositive(k, u); }
      if v <= 0.0 { MulNonPositive(k, v); }
      PositiveProduct(u, v);
    } else {
      if u >= 0.0 { MulNonPositive(u, k); }
      if v >= 0.0 { MulNonPositive(v, k); }
      PositiveProduct(-u, -v);
    }
  }

  /** A scalar step: the product of two positive numbers is positive. */
  lemma PositiveProduct(a: real, b: real)
    requires a > 0.0 && b > 0.0
    ensures a * b > 0.0
  {
  }

  /** A scalar step: a positive number times a non-positive one is non-positive. */
  lemma MulNonPositive(a: real, b: real)
    requires a >= 0.0 && b <= 0.0
    ensures a * b <= 0.0
  {
    if a > 0.0 && b < 0.0 {
      PositiveProduct(a, -b);
    }
  }

  /** The two-vertex step searches towards the origin, so a support point found ahead is on the origin's side. */
  lemma ExtendEdgeKeepsSide(c: Vec2Like, b: Vec2Like, s: Vec2Like)
    requires Dot(TripleProduct(Difference(b, c), Negated(c), Difference(b, c)), s) > 0.0
    ensures OriginSide([c, b, s])
  {
    var cb := Difference(b, c);
    TripleProductDot(cb, Negated(c), cb, s);
    assert Cross(cb, Negated(c)) == -Cross(cb, c);
  }

  /** Dropping `c` from `[c, b, a]`: a support point found ahead beyond edge `ab` is on the origin's side of it. */
  lemma DropFirstKeepsSide(c: Vec2Like, b: Vec2Like, a: Vec2Like, s: Vec2Like)
    requires Dot(TripleProduct(Difference(c, a), Difference(b, a), Difference(b, a)), Negated(a)) > 0.0
    requires Dot(TripleProduct(Difference(c, a), Difference(b, a), Difference(b, a)), s) > 0.0
    ensures OriginSide([b, a, s])
  {
    var ab, ac := Difference(b, a), Difference(c, a);
    TripleProductDot(ac, ab, ab, Negated(a));
    TripleProductDot(ac, ab, ab, s);
    SharedSign(Cross(ac, ab), Cross(ab, Negated(a)), Cross(ab, s));
    assert Cross(Difference(a, b), b) == Cross(ab, Negated(a));
    assert Cross(Difference(a, b), s) == -Cross(ab, s);
  }

  /** Dropping `b` from `[c, b, a]`: a support point found ahead beyond edge `ac` is on the origin's side of it. */
  lemma DropSecondKeepsSide(c: Vec2Like, b: Vec2Like, a: Vec2Like, s: Vec2Like)
    requires Dot(TripleProduct(Difference(b, a), Difference(c, a), Difference(c, a)), Negated(a)) > 0.0
    requires Dot(TripleProduct(Difference(b, a), Difference(c, a), Difference(c, a)), s) > 0.0
    ensures OriginSide([c, a, s])
  {
    var ab, ac := Difference(b, a), Difference(c, a);
    TripleProductDot(ab, ac, ac, Negated(a));
    TripleProductDot(ab, ac, ac, s);
    SharedSign(Cross(ab, ac), Cross(ac, Negated(a)), Cross(ac, s));
    assert Cross(Difference(a, c), c) == Cross(ac, Negated(a));
    assert Cross(Difference(a, c), s) == -Cross(ac, s);
  }

  /**
   * Whenever a step from two or three vertices extends the simplex with a point found
   * strictly ahead, the new three-vertex simplex has `OriginSide`.
   */
  lemma EvolveStepKeepsSide(vs: seq<Vec2Like>, position1: Vec2Like, position2: Vec2Like, s: Vec2Like)
    requires 2 <= |vs| <= 3
    requires EvolveStep(vs, position1, position2).Extend?
    requires Dot(EvolveStep(vs, position1, position2).direction, s) > 0.0
    ensures |EvolveStep(vs, position1, position2).kept + [s]| == 3
    ensures OriginSide(EvolveStep(vs, position1, position2).kept + [s])
  {
    if |vs| == 2 {
      ExtendEdgeKeepsSide(vs[0], vs[1], s);
      assert vs + [s] == [vs[0], vs[1], s];
    } else {
      var a, b, c := vs[2], vs[1], vs[0];
      var ab, ac := Difference(b, a), Difference(c, a);
      if Dot(TripleProduct(ac, ab, ab), Negated(a)) > 0.0 {
        DropFirstKeepsSide(c, b, a, s);
        assert vs[1..] + [s] == [b, a, s];
      } else {
        DropSecondKeepsSide(c, b, a, s);
        assert vs[..1] + vs[2..] + [s] == [c, a, s];
      }
    }
  }

  // Containing the origin

  /** The point `la * a + lb * b + lc * c`. */
  function Combination(a: Vec2Like, b: Vec2Like, c: Vec2Like, la: real, lb: real, lc: real): Vec2Like {
    Vec2Like(la * a.x + lb * b.x + lc * c.x, la * a.y + lb * b.y + lc * c.y)
  }

  /** Non-negative weights that sum to one. */
  predicate ConvexWeights(la: real, lb: real, lc: real) {
    la >= 0.0 && lb >= 0.0 && lc >= 0.0 && la + lb + lc == 1.0
  }

  /** The origin lies in the closed triangle `a`, `b`, `c`: it is a convex combination of the corners. */
  ghost predicate OriginInTriangle(a: Vec2Like, b: Vec2Like, c: Vec2Like) {
    exists la, lb, lc :: ConvexWeights(la, lb, lc) && Combination(a, b, c, la, lb, lc) == Zero
  }

  /** A scalar step: the cross products `x = b x c`, `y = c x a`, `z = a x b` weight the corners to the origin. */
  lemma CrossWeightsCancel(a1: real, a2: real, b1: real, b2: real, c1: real, c2: real)
    ensures (b1 * c2 - b2 * c1) * a1 + (c1 * a2 - c2 * a1) * b1 + (a1 * b2 - a2 * b1) * c1 == 0.0
    ensures (b1 * c2 - b2 * c1) * a2 + (c1 * a2 - c2 * a1) * b2 + (a1 * b2 - a2 * b1) * c2 == 0.0
  {
  }

  /**
   * A scalar step: when `x (y + z) > 0` and `t = x + y + z` has the sign of `y` and of
   * `z` (or they are zero), the ratios `x / t`, `y / t`, `z / t` are convex weights.
   */
  lemma BarycentricWeights(x: real, y: real, z: real)
    requires x * (y + z) > 0.0
    requires (x + y + z) * y >= 0.0 && (x + y + z) * z >= 0.0
    ensures x + y + z != 0.0
    ensures ConvexWeights(x / (x + y + z), y / (x + y + z), z / (x + y + z))
  {
    var t := x + y + z;
    SignOfFactor(t, y);
    SignOfFactor(t, z);
    if x > 0.0 {
      if y + z <= 0.0 { MulNonPositive(x, y + z); }
      ConvexRatios(x, y, z, t);
    } else {
      if y + z >= 0.0 { MulNonPositive(y + z, x); }
      ConvexRatios(-x, -y, -z, -t);
      NonNegativeRatio(-x, -t);
      NonNegativeRatio(-y, -t);
      NonNegativeRatio(-z, -t);
    }
  }

  /** A scalar step: non-negative parts over their positive total are convex weights. */
  lemma ConvexRatios(x: real, y: real, z: real, t: real)
    requires x >= 0.0 && y >= 0.0 && z >= 0.0 && t > 0.0 && t == x + y + z
    ensures ConvexWeights(x / t, y / t, z / t)
  {
    NonNegativeRatio(x, t);
    NonNegativeRatio(y, t);
    NonNegativeRatio(z, t);
    RatioSum(x, y, z, t);
  }

  /** A scalar step: the sign of one factor of a non-negative product fixes the sign of the other. */
  lemma SignOfFactor(t: real, u: real)
    requires t * u >= 0.0
    ensures t > 0.0 ==> u >= 0.0
    ensures t < 0.0 ==> u <= 0.0
  {
    if t > 0.0 && u < 0.0 { PositiveProduct(t, -u); }
    if t < 0.0 && u > 0.0 { PositiveProduct(-t, u); }
  }

  /** A scalar step: ratios over a common denominator add up. */
  lemma RatioSum(x: real, y: real, z: real, t: real)
    requires t != 0.0
    ensures x / t + y / t + z / t == (x + y + z) / t
  {
  }

  /** A scalar step: a non-negative number over a positive one is non-negative. */
  lemma NonNegativeRatio(u: real, t: real)
    requires u >= 0.0 && t > 0.0
    ensures u / t >= 0.0 && (-u) / (-t) == u / t
  {
  }

  /** Polynomial identities relating the cross products of the triangle `c`, `b`, `a` to those of its corners. */
  lemma TriangleCrosses(c: Vec2Like, b: Vec2Like, a: Vec2Like)
    ensures Cross(Difference(b, a), Difference(c, a)) == Cross(b, c) + Cross(c, a) + Cross(a, b)
    ensures Cross(Difference(c, a), Difference(b, a)) == -(Cross(b, c) + Cross(c, a) + Cross(a, b))
    ensures Cross(Difference(b, a), Negated(a)) == Cross(a, b)
    ensures Cross(Difference(c, a), Negated(a)) == -Cross(c, a)
    ensures Cross(Difference(b, c), c) == Cross(b, c)
    ensures Cross(Difference(b, c), a) == -(Cross(c, a) + Cross(a, b))
  {
  }

  /**
   * The origin is in the triangle `c`, `b`, `a` when `a` and the origin lie strictly on
   * the same side of edge `bc`, and the origin is beyond neither edge `ab` nor edge `ac`
   * in the sense of the perpendiculars `evolveSimplex` computes.
   */
  lemma OriginInTriangleBySides(c: Vec2Like, b: Vec2Like, a: Vec2Like)
    requires OriginSide([c, b, a])
    requires !(Dot(TripleProduct(Difference(c, a), Difference(b, a), Difference(b, a)), Negated(a)) > 0.0)
    requires !(Dot(TripleProduct(Difference(b, a), Difference(c, a), Difference(c, a)), Negated(a)) > 0.0)
    ensures OriginInTriangle(c, b, a)
  {
    var ab, ac := Difference(b, a), Difference(c, a);
    TripleProductDot(ac, ab, ab, Negated(a));
    TripleProductDot(ab, ac, ac, Negated(a));
    TriangleCrosses(c, b, a);
    OriginByWeights(c, b, a, Cross(b, c), Cross(c, a), Cross(a, b));
  }

  /** A scalar step of `OriginInTriangleBySides`, on the three corner cross products `x`, `y`, `z`. */
  lemma OriginByWeights(c: Vec2Like, b: Vec2Like, a: Vec2Like, x: real, y: real, z: real)
    requires x == Cross(b, c) && y == Cross(c, a) && z == Cross(a, b)
    requires x * (-(y + z)) < 0.0
    requires !(-(x + y + z) * z > 0.0) && !((x + y + z) * (-y) > 0.0)
    ensures OriginInTriangle(c, b, a)
  {
    assert x * (y + z) > 0.0;
    assert (x + y + z) * y >= 0.0 && (x + y + z) * z >= 0.0;
    BarycentricWeights(x, y, z);
    var t := x + y + z;
    var la, lb, lc := x / t, y / t, z / t;
    CrossWeightsCancel(a.x, a.y, b.x, b.y, c.x, c.y);
    CombinationOfRatios(c, b, a, lc, lb, la, z, y, x, t);
    assert ConvexWeights(lc, lb, la);
  }

  /**
   * When the three-vertex step reports `Found` on a simplex `[c, b, a]` with
   * `OriginSide`, the origin lies in the triangle.
   */
  lemma FoundContainsOrigin(vs: seq<Vec2Like>, position1: Vec2Like, position2: Vec2Like)
    requires |vs| == 3 && OriginSide(vs)
    requires EvolveStep(vs, position1, position2) == Stop(Found)
    ensures OriginInTriangle(vs[0], vs[1], vs[2])
  {
    assert vs == [vs[0], vs[1], vs[2]];
    OriginInTriangleBySides(vs[0], vs[1], vs[2]);
  }

  /** A scalar step: weights `u / t` whose numerators cancel the corners give the origin. */
  lemma CombinationOfRatios(a: Vec2Like, b: Vec2Like, c: Vec2Like, la: real, lb: real, lc: real,
                            u: real, v: real, w: real, t: real)
    requires t != 0.0 && la == u / t && lb == v / t && lc == w / t
    requires u * a.x + v * b.x + w * c.x == 0.0 && u * a.y + v * b.y + w * c.y == 0.0
    ensures Combination(a, b, c, la, lb, lc) == Zero
  {
    assert la * t == u && lb * t == v && lc * t == w;
    var sx := la * a.x + lb * b.x + lc * c.x;
    var sy := la * a.y + lb * b.y + lc * c.y;
    assert sx * t == u * a.x + v * b.x + w * c.x;
    assert sy * t == u * a.y + v * b.y + w * c.y;
  }

  // The loop

  /** A point of the simplex: the Minkowski support point for some direction. */
  ghost predicate IsSupportPoint<S1, S2>(s1: S1, sup1: (S1, Vec2Like) -> Vec2Like, s2: S2, sup2: (S2, Vec2Like) -> Vec2Like,
                                         v: Vec2Like) {
    exists d :: v == MinkowskiSupport(s1, sup1, s2, sup2, d)
  }

  /** The vertices a step keeps are support points, and so is the one it adds. */
  lemma SupportPointsAfterStep<S1, S2>(vs: seq<Vec2Like>, s1: S1, position1: Vec2Like, sup1: (S1, Vec2Like) -> Vec2Like,
                                       s2: S2, position2: Vec2Like, sup2: (S2, Vec2Like) -> Vec2Like, next: seq<Vec2Like>)
    requires forall v :: v in vs ==> IsSupportPoint(s1, sup1, s2, sup2, v)
    requires match EvolveStep(vs, position1, position2)
      case Stop(_) => next == vs
      case Extend(kept, d) => next == kept + [MinkowskiSupport(s1, sup1, s2, sup2, d)]
    ensures forall v :: v in next ==> IsSupportPoint(s1, sup1, s2, sup2, v)
  {
    EvolveStepBounded(vs, position1, position2);
    match EvolveStep(vs, position1, position2)
    case Stop(_) =>
    case Extend(kept, d) =>
      assert forall v :: v in kept ==> v in vs;
      assert IsSupportPoint(s1, sup1, s2, sup2, MinkowskiSupport(s1, sup1, s2, sup2, d));
  }

  /** Further calls of `evolveSimplex` from `p` while it reports `Evolving`, at most `fuel` of them. */
  function Iterate<S1, S2>(s1: S1, position1: Vec2Like, sup1: (S1, Vec2Like) -> Vec2Like,
                           s2: S2, position2: Vec2Like, sup2: (S2, Vec2Like) -> Vec2Like,
                           p: Progress, fuel: nat): Progress
    decreases fuel
  {
    if p.state == Evolving && fuel > 0 then
      Iterate(s1, position1, sup1, s2, position2, sup2, Advance(s1, position1, sup1, s2, position2, sup2, p.vertices), fuel - 1)
    else
      p
  }

  /** Where `gjkTest` ends: one call of `evolveSimplex` on the empty simplex, then at most `fuel` more. */
  function Outcome<S1, S2>(s1: S1, position1: Vec2Like, sup1: (S1, Vec2Like) -> Vec2Like,
                           s2: S2, position2: Vec2Like, sup2: (S2, Vec2Like) -> Vec2Like, fuel: nat): Progress {
    Iterate(s1, position1, sup1, s2, position2, sup2, Advance(s1, position1, sup1, s2, position2, sup2, []), fuel)
  }

  /** A run that has stopped evolving stays where it is. */
  lemma IterateStopped<S1, S2>(s1: S1, position1: Vec2Like, sup1: (S1, Vec2Like) -> Vec2Like,
                               s2: S2, position2: Vec2Like, sup2: (S2, Vec2Like) -> Vec2Like,
                               p: Progress, fuel: nat)
    requires p.state != Evolving || fuel == 0
    ensures Iterate(s1, position1, sup1, s2, position2, sup2, p, fuel) == p
  {
  }

  /** A run that is still evolving takes one more step of `evolveSimplex`. */
  lemma IterateStep<S1, S2>(s1: S1, position1: Vec2Like, sup1: (S1, Vec2Like) -> Vec2Like,
                            s2: S2, position2: Vec2Like, sup2: (S2, Vec2Like) -> Vec2Like,
                            p: Progress, fuel: nat)
    requires p.state == Evolving && fuel > 0
    ensures Iterate(s1, position1, sup1, s2, position2, sup2, p, fuel)
         == Iterate(s1, position1, sup1, s2, position2, sup2, Advance(s1, position1, sup1, s2, position2, sup2, p.vertices), fuel - 1)
  {
  }

  /**
   * Shapes given at the same position are never found to intersect, however much they
   * overlap: the first search direction `position2 - position1` is zero, so the first
   * support point is never strictly ahead of it and the run stops on `NoIntersection`.
   */
  lemma SamePositionMisses<S1, S2>(s1: S1, sup1: (S1, Vec2Like) -> Vec2Like, s2: S2, sup2: (S2, Vec2Like) -> Vec2Like,
                                   position: Vec2Like, fuel: nat)
    ensures Outcome(s1, position, sup1, s2, position, sup2, fuel).state == NoIntersection
  {
    SameSeedDirection(position);
    FirstStepMisses(s1, sup1, s2, sup2, position);
    IterateStopped(s1, position, sup1, s2, position, sup2, Advance(s1, position, sup1, s2, position, sup2, []), fuel);
  }

  /** A step of `SamePositionMisses`: the seed direction for equal positions is zero. */
  lemma SameSeedDirection(position: Vec2Like)
    ensures EvolveStep([], position, position) == Extend([], Zero)
  {
    EvolveStepDirections([], position, position);
    assert Difference(position, position) == Zero;
  }

  /** A step of `SamePositionMisses`: no support point lies strictly ahead of the zero direction. */
  lemma FirstStepMisses<S1, S2>(s1: S1, sup1: (S1, Vec2Like) -> Vec2Like, s2: S2, sup2: (S2, Vec2Like) -> Vec2Like,
                                position: Vec2Like)
    requires EvolveStep([], position, position) == Extend([], Zero)
    ensures Advance(s1, position, sup1, s2, position, sup2, []).state == NoIntersection
  {
    assert Dot(Zero, MinkowskiSupport(s1, sup1, s2, sup2, Zero)) == 0.0;
  }

  /**
   * The first search direction as evidently intended: from `position1` towards
   * `position2`, or a fixed axis when the positions coincide, so that it is never zero.
   */
  function SeedDirection(position1: Vec2Like, position2: Vec2Like): (d: Vec2Like)
    ensures d != Zero
    ensures position1 != position2 ==> d == Difference(position2, position1)
  {
    if position1 == position2 then Vec2Like(1.0, 0.0) else Difference(position2, position1)
  }

  /**
   * The code's first direction is `SeedDirection` for distinct positions, and is zero,
   * which `SeedDirection` never is, exactly when the positions coincide.
   */
  lemma SeedDirectionCorrects(position1: Vec2Like, position2: Vec2Like)
    ensures EvolveStep([], position1, position2).direction == SeedDirection(position1, position2)
        <==> position1 != position2
    ensures EvolveStep([], position1, position2).direction == Zero <==> position1 == position2
  {
  }

  /**
   * For polygons at the same position, the first support point for `SeedDirection` lies
   * strictly ahead of it whenever some vertex of `p1` is strictly to the right of some
   * vertex of `p2`, so a run seeded with it goes on evolving; the code's zero seed stops
   * the same run on `NoIntersection`.
   */
  lemma SeedDirectionFirstStep(p1: Polygon, p2: Polygon, position: Vec2Like, u: Vec2Like, w: Vec2Like)
    requires u in p1.vertices && w in p2.vertices && u.x > w.x
    ensures var d := SeedDirection(position, position);
            Dot(d, MinkowskiSupport(p1, SupportPolygon, p2, SupportPolygon, d)) > 0.0
    ensures Advance(p1, position, SupportPolygon, p2, position, SupportPolygon, []).state == NoIntersection
  {
    var d := SeedDirection(position, position);
    assert d == Vec2Like(1.0, 0.0);
    assert Dot(u, d) <= Dot(SupportPolygon(p1, d), d);
    assert Dot(w, Negated(d)) <= Dot(SupportPolygon(p2, Negated(d)), Negated(d));
    SameSeedDirection(position);
    FirstStepMisses(p1, SupportPolygon, p2, SupportPolygon, position);
  }

  /**
   * The facts a run keeps about its state and vertices: at most three vertices and never
   * `Error`; on `Found` a triangle around the origin; a three-vertex simplex still evolving
   * has `OriginSide`; every vertex is a Minkowski support point.
   */
  ghost predicate Sound<S1, S2>(s1: S1, sup1: (S1, Vec2Like) -> Vec2Like, s2: S2, sup2: (S2, Vec2Like) -> Vec2Like,
                                p: Progress) {
    |p.vertices| <= 3 && p.state != Error &&
    (p.state == Found ==> |p.vertices| == 3 && OriginInTriangle(p.vertices[0], p.vertices[1], p.vertices[2])) &&
    (p.state == Evolving && |p.vertices| == 3 ==> OriginSide(p.vertices)) &&
    (forall v :: v in p.vertices ==> IsSupportPoint(s1, sup1, s2, sup2, v))
  }

  /** One call of `evolveSimplex` on the vertices of a sound evolving run leaves a sound state. */
  lemma AdvanceSound<S1, S2>(s1: S1, position1: Vec2Like, sup1: (S1, Vec2Like) -> Vec2Like,
                             s2: S2, position2: Vec2Like, sup2: (S2, Vec2Like) -> Vec2Like,
                             vs: seq<Vec2Like>)
    requires Sound(s1, sup1, s2, sup2, Progress(Evolving, vs))
    ensures Sound(s1, sup1, s2, sup2, Advance(s1, position1, sup1, s2, position2, sup2, vs))
  {
    var next := Advance(s1, position1, sup1, s2, position2, sup2, vs);
    EvolveStepBounded(vs, position1, position2);
    match EvolveStep(vs, position1, position2)
    case Stop(st) =>
      if st == Found {
        FoundContainsOrigin(vs, position1, position2);
      }
    case Extend(kept, d) =>
      var s := MinkowskiSupport(s1, sup1, s2, sup2, d);
      if |vs| >= 2 && Dot(d, s) > 0.0 {
        EvolveStepKeepsSide(vs, position1, position2, s);
      }
    SupportPointsAfterStep(vs, s1, position1, sup1, s2, position2, sup2, next.vertices);
  }

  /** Further calls of `evolveSimplex` keep a run sound, however many there are. */
  lemma {:induction false} IterateSound<S1, S2>(s1: S1, position1: Vec2Like, sup1: (S1, Vec2Like) -> Vec2Like,
                                                s2: S2, position2: Vec2Like, sup2: (S2, Vec2Like) -> Vec2Like,
                                                p: Progress, fuel: nat)
    requires Sound(s1, sup1, s2, sup2, p)
    ensures Sound(s1, sup1, s2, sup2, Iterate(s1, position1, sup1, s2, position2, sup2, p, fuel))
    decreases fuel
  {
    if p.state == Evolving && fuel > 0 {
      AdvanceSound(s1, position1, sup1, s2, position2, sup2, p.vertices);
      IterateSound(s1, position1, sup1, s2, position2, sup2, Advance(s1, position1, sup1, s2, position2, sup2, p.vertices), fuel - 1);
    }
  }

  /**
   * Where a run of `gjkTest` ends is never `Error`; when it is `Found` the simplex is a
   * triangle around the origin; and every vertex it ends with is a Minkowski support point.
   */
  lemma OutcomeSound<S1, S2>(s1: S1, position1: Vec2Like, sup1: (S1, Vec2Like) -> Vec2Like,
                             s2: S2, position2: Vec2Like, sup2: (S2, Vec2Like) -> Vec2Like, fuel: nat)
    ensures var p := Outcome(s1, position1, sup1, s2, position2, sup2, fuel);
      p.state != Error && |p.vertices| <= 3 &&
      (p.state == Found ==> |p.vertices| == 3 && OriginInTriangle(p.vertices[0], p.vertices[1], p.vertices[2])) &&
      (forall v :: v in p.vertices ==> IsSupportPoint(s1, sup1, s2, sup2, v))
  {
    AdvanceSound(s1, position1, sup1, s2, position2, sup2, []);
    IterateSound(s1, position1, sup1, s2, position2, sup2, Advance(s1, position1, sup1, s2, position2, sup2, []), fuel);
  }

  /**
   * `gjkTest`: evolves a fresh simplex until it stops evolving and reports whether it
   * stopped on `Found`. The source's `do`-`while` loop has no bound; here it runs at most
   * `fuel` times after the first step. The answer and the final state are those of
   * `Outcome`; the result is never `Error`, and on `true` the final simplex is a
   * triangle of Minkowski support points around the origin. Shapes at the same position
   * are never reported.
   */
  method GjkTest<S1, S2>(s1: S1, position1: Vec2Like, sup1: (S1, Vec2Like) -> Vec2Like,
                         s2: S2, position2: Vec2Like, sup2: (S2, Vec2Like) -> Vec2Like,
                         fuel: nat)
    returns (found: bool, ghost result: EvolveState, ghost triangle: seq<Vec2Like>)
    ensures found <==> Outcome(s1, position1, sup1, s2, position2, sup2, fuel).state == Found
    ensures Progress(result, triangle) == Outcome(s1, position1, sup1, s2, position2, sup2, fuel)
    ensures position1 == position2 ==> !found
    ensures result != Error && (found <==> result == Found)
    ensures found ==> |triangle| == 3 && OriginInTriangle(triangle[0], triangle[1], triangle[2])
    ensures forall v :: v in triangle ==> IsSupportPoint(s1, sup1, s2, sup2, v)
  {
    var simplex := new Simplex();
    var state := EvolveSimplex(s1, position1, sup1, s2, position2, sup2, simplex);
    ghost var outcome := Outcome(s1, position1, sup1, s2, position2, sup2, fuel);
    var n := fuel;
    while state == Evolving && n > 0
      invariant Iterate(s1, position1, sup1, s2, position2, sup2, Progress(state, simplex.vertices), n) == outcome
      decreases n
    {
      IterateStep(s1, position1, sup1, s2, position2, sup2, Progress(state, simplex.vertices), n);
      state := EvolveSimplex(s1, position1, sup1, s2, position2, sup2, simplex);
      n := n - 1;
    }
    IterateStopped(s1, position1, sup1, s2, position2, sup2, Progress(state, simplex.vertices), n);
    found := state == Found;
    result := state;
    triangle := simplex.vertices;
    OutcomeSound(s1, position1, sup1, s2, position2, sup2, fuel);
    if position1 == position2 {
      SamePositionMisses(s1, sup1, s2, sup2, position1, fuel);
    }
  }
}
