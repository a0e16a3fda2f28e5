/**
 * Values of the `Vec2Like` shape `{x, y}` and the arithmetic of `Vec2` on them: the
 * static, non-mutating members of `Vec2` (`dot`, `cross`, `equal`, `parallel`) and, for
 * each mutating member, the value it leaves in its receiver.
 */
module Vec2Algebra {

  datatype Vec2Like = Vec2Like(x: real, y: real)

  /** `Vec2.zero`. */
  const Zero := Vec2Like(0.0, 0.0)

  function Abs(a: real): real {
    if a < 0.0 then -a else a
  }

  /** `Vec2.dot`. */
  function Dot(v1: Vec2Like, v2: Vec2Like): real {
    v1.x * v2.x + v1.y * v2.y
  }

  /** `Vec2.cross`: the z component of the 3D cross product. */
  function Cross(v1: Vec2Like, v2: Vec2Like): real {
    v1.x * v2.y - v1.y * v2.x
  }

  /** `Vec2.equal`: exact componentwise comparison, no tolerance. */
  function Equal(v1: Vec2Like, v2: Vec2Like): (r: bool)
    ensures r <==> v1 == v2
  {
    v1.x == v2.x && v1.y == v2.y
  }

  /**
   * `Vec2.parallel`: for unit vectors, whether the absolute cosine of their angle
   * reaches `threshold` (the library's default threshold is 1).
   */
  function Parallel(v1: Vec2Like, v2: Vec2Like, threshold: real): bool {
    Abs(Dot(v1, v2)) >= threshold
  }

  function LengthSq(v: Vec2Like): real {
    v.x * v.x + v.y * v.y
  }

  function Sum(a: Vec2Like, b: Vec2Like): Vec2Like {
    Vec2Like(a.x + b.x, a.y + b.y)
  }

  function Difference(a: Vec2Like, b: Vec2Like): Vec2Like {
    Vec2Like(a.x - b.x, a.y - b.y)
  }

  function Scaled(a: Vec2Like, s: real): Vec2Like {
    Vec2Like(a.x * s, a.y * s)
  }

  /** The componentwise (Hadamard) product computed by `mul`. */
  function Hadamard(a: Vec2Like, b: Vec2Like): Vec2Like {
    Vec2Like(a.x * b.x, a.y * b.y)
  }

  function Negated(a: Vec2Like): Vec2Like {
    Vec2Like(a.x * -1.0, a.y * -1.0)
  }

  /** What `rotate90` leaves: `(x, y)` becomes `(y, -x)`. */
  function Rotated90(a: Vec2Like): Vec2Like {
    Vec2Like(a.y, -a.x)
  }

  /** What `rotate270` leaves: `(x, y)` becomes `(-y, x)`. */
  function Rotated270(a: Vec2Like): Vec2Like {
    Vec2Like(-a.y, a.x)
  }

  /**
   * What `rotate(angle)` leaves, given `c` and `s`, the cosine and sine of `angle`:
   * `(c*x - s*y, s*x + c*y)`.
   */
  function Rotated(a: Vec2Like, c: real, s: real): Vec2Like {
    Vec2Like(c * a.x - s * a.y, s * a.x + c * a.y)
  }

  /** `Math.floor` on each component: the greatest integer not above it. */
  function Floored(a: Vec2Like): (r: Vec2Like)
    ensures r.x.Floor as real == r.x && r.x <= a.x < r.x + 1.0
    ensures r.y.Floor as real == r.y && r.y <= a.y < r.y + 1.0
  {
    Vec2Like(a.x.Floor as real, a.y.Floor as real)
  }

  /** `Math.ceil`: the least integer not below `t`. */
  function Ceiling(t: real): (k: int)
    ensures k as real - 1.0 < t <= k as real
  {
    -((-t).Floor)
  }

  /** `Math.ceil` on each component. */
  function Ceiled(a: Vec2Like): (r: Vec2Like)
    ensures r.x.Floor as real == r.x && r.x - 1.0 < a.x <= r.x
    ensures r.y.Floor as real == r.y && r.y - 1.0 < a.y <= r.y
  {
    Vec2Like(Ceiling(a.x) as real, Ceiling(a.y) as real)
  }

  /** `Math.round`: the nearest integer, a half going up (towards positive infinity). */
  function NearestInteger(t: real): (k: int)
    ensures t - 0.5 < k as real <= t + 0.5
  {
    (t + 0.5).Floor
  }

  /** `Math.round` on each component. */
  function Rounded(a: Vec2Like): (r: Vec2Like)
    ensures r.x.Floor as real == r.x && a.x - 0.5 < r.x <= a.x + 0.5
    ensures r.y.Floor as real == r.y && a.y - 0.5 < r.y <= a.y + 0.5
  {
    Vec2Like(NearestInteger(a.x) as real, NearestInteger(a.y) as real)
  }

  /** `Math.sign`: 1, -1 or 0 as `t` is positive, negative or zero. */
  function SignOf(t: real): (r: real)
    ensures r == 1.0 <==> t > 0.0
    ensures r == -1.0 <==> t < 0.0
    ensures r == 0.0 <==> t == 0.0
  {
    if t > 0.0 then 1.0 else if t < 0.0 then -1.0 else 0.0
  }

  /** `Math.sign` on each component. */
  function Signs(a: Vec2Like): Vec2Like {
    Vec2Like(SignOf(a.x), SignOf(a.y))
  }

  /** An integer is left alone by `Math.round`, `Math.floor` and `Math.ceil`. */
  lemma IntegerFixed(k: int)
    ensures NearestInteger(k as real) == k && (k as real).Floor == k && Ceiling(k as real) == k
  {
  }

  /** `round`, `floor` and `ceil` are idempotent, because their results are integral. */
  lemma RoundingIdempotent(a: Vec2Like)
    ensures Rounded(Rounded(a)) == Rounded(a) && Floored(Floored(a)) == Floored(a)
    ensures Ceiled(Ceiled(a)) == Ceiled(a)
  {
    IntegerFixed(NearestInteger(a.x));
    IntegerFixed(NearestInteger(a.y));
    IntegerFixed(a.x.Floor);
    IntegerFixed(a.y.Floor);
    IntegerFixed(Ceiling(a.x));
    IntegerFixed(Ceiling(a.y));
  }

  /** `sign` is idempotent, and a component times its sign is its absolute value. */
  lemma SignsIdempotent(a: Vec2Like)
    ensures Signs(Signs(a)) == Signs(a)
    ensures SignOf(a.x) * a.x == Abs(a.x) && SignOf(a.y) * a.y == Abs(a.y)
  {
  }

  /** The library's fixtures: `(2.4, -4.7)` rounds to `(2, -5)`, floors to `(2, -5)`, ceils to `(3, -4)`. */
  lemma RoundingExamples()
    ensures Rounded(Vec2Like(2.4, -4.7)) == Vec2Like(2.0, -5.0)
    ensures Floored(Vec2Like(2.4, -4.7)) == Vec2Like(2.0, -5.0)
    ensures Ceiled(Vec2Like(2.4, -4.7)) == Vec2Like(3.0, -4.0)
    ensures Signs(Vec2Like(2.4, 0.0)) == Vec2Like(1.0, 0.0)
  {
  }

  /** What `project(v)` leaves in a receiver holding `a`: unchanged when `v` is zero. */
  function Projection(a: Vec2Like, v: Vec2Like): Vec2Like {
    var d := LengthSq(v);
    if d > 0.0 then
      var s := Dot(a, v) / d;
      Vec2Like(v.x * s, v.y * s)
    else
      a
  }

  /** What `reject(v)` leaves: the receiver minus its projection on `v`. */
  function Rejection(a: Vec2Like, v: Vec2Like): Vec2Like {
    Difference(a, Projection(a, v))
  }

  /** What `reflect(n)` leaves: the receiver minus `2 * dot(a, n) * n`. */
  function Reflection(a: Vec2Like, n: Vec2Like): Vec2Like {
    var d2 := Dot(a, n) * 2.0;
    Difference(a, Vec2Like(n.x * d2, n.y * d2))
  }

  /**
   * `len` is the divisor `normalize` uses, `length() || 1`: the Euclidean length of `v`,
   * or 1 when that length is zero. Square roots are not computed here, so the length
   * is characterised by its square.
   */
  predicate IsLength(v: Vec2Like, len: real) {
    if LengthSq(v) > 0.0 then len > 0.0 && len * len == LengthSq(v) else len == 1.0
  }

  /** What `normalize` leaves when `len` is the length it computes. */
  function Normalized(a: Vec2Like, len: real): Vec2Like
    requires len != 0.0
  {
    Vec2Like(a.x / len, a.y / len)
  }

  // Properties of the arithmetic.

  /** `add` followed by `sub` of the same vector restores the receiver, and the other way round. */
  lemma SumDifferenceInverse(a: Vec2Like, v: Vec2Like)
    ensures Difference(Sum(a, v), v) == a
    ensures Sum(Difference(a, v), v) == a
  {
  }

  lemma DotSymmetric(v: Vec2Like, w: Vec2Like)
    ensures Dot(v, w) == Dot(w, v)
  {
  }

  lemma CrossAntisymmetric(v: Vec2Like, w: Vec2Like)
    ensures Cross(v, w) == -Cross(w, v)
    ensures Cross(v, v) == 0.0
  {
  }

  /** The fixtures of the library's tests for `cross`, `dot` and `mul`. */
  lemma ArithmeticExamples()
    ensures Cross(Vec2Like(1.0, 0.0), Vec2Like(0.0, 1.0)) == 1.0
    ensures Dot(Vec2Like(1.0, 0.0), Vec2Like(0.0, 1.0)) == 0.0
    ensures Dot(Vec2Like(1.0, 2.0), Vec2Like(2.0, 4.0)) == 10.0
    ensures Hadamard(Vec2Like(1.0, 2.0), Vec2Like(3.0, -4.0)) == Vec2Like(3.0, -8.0)
  {
    assert Cross(Vec2Like(1.0, 0.0), Vec2Like(0.0, 1.0)) == 1.0 * 1.0 - 0.0 * 0.0;
    assert Dot(Vec2Like(1.0, 2.0), Vec2Like(2.0, 4.0)) == 1.0 * 2.0 + 2.0 * 4.0;
    assert Hadamard(Vec2Like(1.0, 2.0), Vec2Like(3.0, -4.0)) == Vec2Like(1.0 * 3.0, 2.0 * -4.0);
  }

  /** Reflecting `(1, -1)` about the unit normal `(0, 1)` gives `(1, 1)`. */
  lemma ReflectionExample()
    ensures Reflection(Vec2Like(1.0, -1.0), Vec2Like(0.0, 1.0)) == Vec2Like(1.0, 1.0)
  {
    assert Dot(Vec2Like(1.0, -1.0), Vec2Like(0.0, 1.0)) == -1.0;
  }

  /** Projecting `(1, 4)` onto the x axis keeps `(1, 0)` and rejects `(0, 4)`. */
  lemma ProjectionExample()
    ensures Projection(Vec2Like(1.0, 4.0), Vec2Like(1.0, 0.0)) == Vec2Like(1.0, 0.0)
    ensures Rejection(Vec2Like(1.0, 4.0), Vec2Like(1.0, 0.0)) == Vec2Like(0.0, 4.0)
  {
    var a, v := Vec2Like(1.0, 4.0), Vec2Like(1.0, 0.0);
    assert LengthSq(v) == 1.0 && Dot(a, v) == 1.0;
    assert Dot(a, v) / LengthSq(v) == 1.0;
  }

  /** `rotate90` and `rotate270` undo each other; two quarter turns negate; `negate` is an involution. */
  lemma RotationsInverse(a: Vec2Like)
    ensures Rotated270(Rotated90(a)) == a && Rotated90(Rotated270(a)) == a
    ensures Rotated90(Rotated90(a)) == Negated(a)
    ensures Negated(Negated(a)) == a
  {
  }

  /**
   * For a genuine cosine/sine pair, `rotate` keeps the squared length and rotating by
   * `-angle` (cosine `c`, sine `-s`) undoes it.
   */
  lemma RotatedIsometry(a: Vec2Like, c: real, s: real)
    requires c * c + s * s == 1.0
    ensures LengthSq(Rotated(a, c, s)) == LengthSq(a)
    ensures Rotated(Rotated(a, c, s), c, -s) == a
  {
    var r := Rotated(a, c, s);
    assert LengthSq(r) == (c * c + s * s) * LengthSq(a);
    assert Rotated(r, c, -s) == Vec2Like((c * c + s * s) * a.x, (c * c + s * s) * a.y);
  }

  /**
   * For a unit vector `u`, the default threshold 1 finds `u` parallel to itself and to
   * its negation, and a quarter turn of `u` is parallel to it only for thresholds up to 0.
   */
  lemma ParallelUnit(u: Vec2Like, threshold: real)
    requires LengthSq(u) == 1.0
    ensures Parallel(u, u, 1.0) && Parallel(u, Negated(u), 1.0)
    ensures Parallel(u, Rotated90(u), threshold) <==> threshold <= 0.0
  {
    assert Dot(u, Negated(u)) == -LengthSq(u);
    assert Dot(u, Rotated90(u)) == 0.0;
  }

  /** `rotate270` and `rotate90` are the rotations by a quarter turn and by minus a quarter turn. */
  lemma QuarterTurns(a: Vec2Like)
    ensures Rotated270(a) == Rotated(a, 0.0, 1.0)
    ensures Rotated90(a) == Rotated(a, 0.0, -1.0)
  {
  }

  /** Lagrange's identity in the plane: `dot^2 + cross^2 = |v|^2 |w|^2`. */
  lemma Lagrange(v: Vec2Like, w: Vec2Like)
    ensures Dot(v, w) * Dot(v, w) + Cross(v, w) * Cross(v, w) == LengthSq(v) * LengthSq(w)
  {
  }

  /**
   * `project(v)` with a non-zero `v` yields a vector parallel to `v`; with a zero `v`
   * the receiver is unchanged.
   */
  lemma ProjectionParallel(a: Vec2Like, v: Vec2Like)
    ensures LengthSq(v) > 0.0 ==> Cross(Projection(a, v), v) == 0.0
    ensures LengthSq(v) == 0.0 ==> Projection(a, v) == a
  {
  }

  /** Projecting twice onto the same vector is the same as projecting once. */
  lemma ProjectionIdempotent(a: Vec2Like, v: Vec2Like)
    ensures Projection(Projection(a, v), v) == Projection(a, v)
  {
    var d := LengthSq(v);
    if d > 0.0 {
      var s := Dot(a, v) / d;
      var p := Vec2Like(v.x * s, v.y * s);
      assert Dot(p, v) == s * d;
      assert Dot(p, v) / d == s;
    }
  }

  /** `reject(v)` with a non-zero `v` is orthogonal to `v`, and projection plus rejection is the original. */
  lemma RejectionOrthogonal(a: Vec2Like, v: Vec2Like)
    ensures LengthSq(v) > 0.0 ==> Dot(Rejection(a, v), v) == 0.0
    ensures Sum(Projection(a, v), Rejection(a, v)) == a
  {
    var d := LengthSq(v);
    if d > 0.0 {
      var s := Dot(a, v) / d;
      assert s * d == Dot(a, v);
      var p := Projection(a, v);
      assert Dot(p, v) == s * d;
    }
  }

  /** For a unit normal `n`, `reflect(n)` keeps the squared length and applying it twice restores the vector. */
  lemma ReflectionIsometry(a: Vec2Like, n: Vec2Like)
    requires LengthSq(n) == 1.0
    ensures LengthSq(Reflection(a, n)) == LengthSq(a)
    ensures Reflection(Reflection(a, n), n) == a
  {
    var k := Dot(a, n);
    var r := Reflection(a, n);
    assert r == Vec2Like(a.x - 2.0 * k * n.x, a.y - 2.0 * k * n.y);
    assert Dot(r, n) == k - 2.0 * k * LengthSq(n);
    assert Dot(r, n) == -k;
  }

  /**
   * `normalize` with the length it computes: a non-zero vector becomes a unit vector
   * pointing the same way, and the zero vector stays zero.
   */
  lemma NormalizedUnit(a: Vec2Like, len: real)
    requires IsLength(a, len)
    ensures LengthSq(a) > 0.0 ==> LengthSq(Normalized(a, len)) == 1.0
    ensures LengthSq(a) > 0.0 ==> Normalized(a, len) == Scaled(a, 1.0 / len) && 1.0 / len > 0.0
    ensures a == Zero ==> Normalized(a, len) == Zero
  {
    if LengthSq(a) > 0.0 {
      var n := Normalized(a, len);
      assert n.x * len == a.x && n.y * len == a.y;
      assert LengthSq(n) * (len * len) == LengthSq(a);
    }
  }
}

/**
 * The `Vec2` class: a mutable 2D vector whose mutating members overwrite `x` and `y`
 * and return the receiver, and the static members that mutate their first argument.
 * Read-only arguments are passed as `Vec2Like` values; every member reads the
 * components it needs before it writes, so a receiver passed as its own argument
 * behaves the same way.
 */
module Vector2 {
  import opened Options
  import opened Vec2Algebra

  class Vec2 {
    var x: real
    var y: real

    /** The receiver's current components. */
    function Value(): Vec2Like
      reads this
    {
      Vec2Like(x, y)
    }

    /** `new Vec2(x, y)`. */
    constructor (x0: real, y0: real)
      ensures Value() == Vec2Like(x0, y0)
    {
      x, y := x0, y0;
    }

    /** `new Vec2(v)` and `new Vec2()`: a copy of `v`, or the zero vector. */
    constructor FromLike(v: Option<Vec2Like>)
      ensures Value() == v.GetOr(Zero)
    {
      var w := v.GetOr(Zero);
      x, y := w.x, w.y;
    }

    method Copy(v: Vec2Like) returns (r: Vec2)
      modifies this
      ensures r == this && Value() == v
    {
      x := v.x;
      y := v.y;
      r := this;
    }

    method Clone() returns (r: Vec2)
      ensures fresh(r) && r.Value() == Value()
    {
      r := new Vec2.FromLike(Some(Value()));
    }

    function Equal(v: Vec2Like): (r: bool)
      reads this
      ensures r <==> Value() == v
    {
      x == v.x && y == v.y
    }

    function Parallel(v: Vec2Like, threshold: real): (r: bool)
      reads this
      ensures r == Vec2Algebra.Parallel(Value(), v, threshold)
    {
      Abs(Dot(v)) >= threshold
    }

    method Add(v: Vec2Like) returns (r: Vec2)
      modifies this
      ensures r == this && Value() == Sum(old(Value()), v)
    {
      x := x + v.x;
      y := y + v.y;
      r := this;
    }

    method Sub(v: Vec2Like) returns (r: Vec2)
      modifies this
      ensures r == this && Value() == Difference(old(Value()), v)
    {
      x := x - v.x;
      y := y - v.y;
      r := this;
    }

    method Scale(s: real) returns (r: Vec2)
      modifies this
      ensures r == this && Value() == Scaled(old(Value()), s)
    {
      x := x * s;
      y := y * s;
      r := this;
    }

    method Mul(v: Vec2Like) returns (r: Vec2)
      modifies this
      ensures r == this && Value() == Hadamard(old(Value()), v)
    {
      x := x * v.x;
      y := y * v.y;
      r := this;
    }

    function Dot(v: Vec2Like): (r: real)
      reads this
      ensures r == Vec2Algebra.Dot(Value(), v)
    {
      x * v.x + y * v.y
    }

    function Cross(v: Vec2Like): (r: real)
      reads this
      ensures r == Vec2Algebra.Cross(Value(), v)
    {
      x * v.y - y * v.x
    }

    method Project(v: Vec2Like) returns (r: Vec2)
      modifies this
      ensures r == this && Value() == Projection(old(Value()), v)
    {
      var d := v.x * v.x + v.y * v.y;
      if d > 0.0 {
        var s := Dot(v) / d;
        x := v.x * s;
        y := v.y * s;
      }
      r := this;
    }

    /** `this.sub(this.clone().project(v))`. */
    method Reject(v: Vec2Like) returns (r: Vec2)
      modifies this
      ensures r == this && Value() == Rejection(old(Value()), v)
    {
      var c := Clone();
      var p := c.Project(v);
      r := Sub(p.Value());
    }

    method Reflect(n: Vec2Like) returns (r: Vec2)
      modifies this
      ensures r == this && Value() == Reflection(old(Value()), n)
    {
      var d2 := Dot(n) * 2.0;
      r := Sub(Vec2Like(n.x * d2, n.y * d2));
    }

    function SquaredLength(): (r: real)
      reads this
      ensures r == LengthSq(Value()) && r >= 0.0
    {
      x * x + y * y
    }

    /** `normalize`, given the length `length() || 1` it divides by. */
    method Normalize(len: real) returns (r: Vec2)
      requires IsLength(Value(), len)
      modifies this
      ensures r == this && Value() == Normalized(old(Value()), len)
    {
      x := x / len;
      y := y / len;
      r := this;
    }

    method Negate() returns (r: Vec2)
      modifies this
      ensures r == this && Value() == Negated(old(Value()))
    {
      x := x * -1.0;
      y := y * -1.0;
      r := this;
    }

    method Floor() returns (r: Vec2)
      modifies this
      ensures r == this && Value() == Floored(old(Value()))
    {
      x := x.Floor as real;
      y := y.Floor as real;
      r := this;
    }

    method Round() returns (r: Vec2)
      modifies this
      ensures r == this && Value() == Rounded(old(Value()))
    {
      x := (x + 0.5).Floor as real;
      y := (y + 0.5).Floor as real;
      r := this;
    }

    method Ceil() returns (r: Vec2)
      modifies this
      ensures r == this && Value() == Ceiled(old(Value()))
    {
      x := -((-x).Floor as real);
      y := -((-y).Floor as real);
      r := this;
    }

    method Sign() returns (r: Vec2)
      modifies this
      ensures r == this && Value() == Signs(old(Value()))
    {
      x := if x > 0.0 then 1.0 else if x < 0.0 then -1.0 else 0.0;
      y := if y > 0.0 then 1.0 else if y < 0.0 then -1.0 else 0.0;
      r := this;
    }

    /** `rotate(angle)`, given the cosine `c` and sine `s` of `angle`. */
    method Rotate(c: real, s: real) returns (r: Vec2)
      modifies this
      ensures r == this && Value() == Rotated(old(Value()), c, s)
    {
      var x1 := c * x - s * y;
      var y1 := s * x + c * y;
      x := x1;
      y := y1;
      r := this;
    }

    method Rotate90() returns (r: Vec2)
      modifies this
      ensures r == this && Value() == Rotated90(old(Value()))
    {
      var x0, y0 := x, y;
      x := y0;
      y := -x0;
      r := this;
    }

    method Rotate270() returns (r: Vec2)
      modifies this
      ensures r == this && Value() == Rotated270(old(Value()))
    {
      var x0, y0 := x, y;
      x := -y0;
      y := x0;
      r := this;
    }
  }

  /** Static `Vec2.copy(v1, v2)`: overwrites `v1` with `v2` and returns `v1`. */
  method Copy(v1: Vec2, v2: Vec2Like) returns (r: Vec2)
    modifies v1
    ensures r == v1 && v1.Value() == v2
  {
    v1.x := v2.x;
    v1.y := v2.y;
    r := v1;
  }

  /** Static `Vec2.add(v1, v2)`: adds `v2` into `v1` and returns `v1`. */
  method Add(v1: Vec2, v2: Vec2Like) returns (r: Vec2)
    modifies v1
    ensures r == v1 && v1.Value() == Sum(old(v1.Value()), v2)
  {
    v1.x := v1.x + v2.x;
    v1.y := v1.y + v2.y;
    r := v1;
  }

  /** Static `Vec2.sub(v1, v2)`: subtracts `v2` from `v1` and returns `v1`. */
  method Sub(v1: Vec2, v2: Vec2Like) returns (r: Vec2)
    modifies v1
    ensures r == v1 && v1.Value() == Difference(old(v1.Value()), v2)
  {
    v1.x := v1.x - v2.x;
    v1.y := v1.y - v2.y;
    r := v1;
  }

  /** Chaining `add` and `sub` of the same vector restores the receiver and returns it each time. */
  method AddSubRoundTrip(v: Vec2, w: Vec2Like)
    modifies v
    ensures v.Value() == old(v.Value())
  {
    var r1 := v.Add(w);
    var r2 := r1.Sub(w);
    assert r1 == v && r2 == v;
    SumDifferenceInverse(old(v.Value()), w);
  }
}
