/**
 * Values of the `Vec3Like` shape `{x, y, z}` and the arithmetic of `Vec3` on them: the
 * static, non-mutating members of `Vec3` (`dot`, `cross`, `equal`, `parallel`) and, for
 * each mutating member, the value it leaves in its receiver.
 */
module Vec3Algebra {

  datatype Vec3Like = Vec3Like(x: real, y: real, z: real)

  /** `Vec3.zero`. */
  const Zero := Vec3Like(0.0, 0.0, 0.0)

  function Abs(a: real): real {
    if a < 0.0 then -a else a
  }

  /** `Vec3.dot`. */
  function Dot(v1: Vec3Like, v2: Vec3Like): real {
    v1.x * v2.x + v1.y * v2.y + v1.z * v2.z
  }

  /** `Vec3.cross`: the vector-valued cross product. */
  function Cross(v1: Vec3Like, v2: Vec3Like): Vec3Like {
    Vec3Like(v1.y * v2.z - v1.z * v2.y, v1.z * v2.x - v1.x * v2.z, v1.x * v2.y - v1.y * v2.x)
  }

  /** `Vec3.equal`: exact componentwise comparison, no tolerance. */
  function Equal(v1: Vec3Like, v2: Vec3Like): (r: bool)
    ensures r <==> v1 == v2
  {
    v1.x == v2.x && v1.y == v2.y && v1.z == v2.z
  }

  /**
   * `Vec3.parallel`: for unit vectors, whether the absolute cosine of their angle
   * reaches `threshold` (the library's default threshold is 1).
   */
  function Parallel(v1: Vec3Like, v2: Vec3Like, threshold: real): bool {
    Abs(Dot(v1, v2)) >= threshold
  }

  function LengthSq(v: Vec3Like): real {
    v.x * v.x + v.y * v.y + v.z * v.z
  }

  function Sum(a: Vec3Like, b: Vec3Like): Vec3Like {
    Vec3Like(a.x + b.x, a.y + b.y, a.z + b.z)
  }

  function Difference(a: Vec3Like, b: Vec3Like): Vec3Like {
    Vec3Like(a.x - b.x, a.y - b.y, a.z - b.z)
  }

  function Scaled(a: Vec3Like, s: real): Vec3Like {
    Vec3Like(a.x * s, a.y * s, a.z * s)
  }

  function Negated(a: Vec3Like): Vec3Like {
    Vec3Like(a.x * -1.0, a.y * -1.0, a.z * -1.0)
  }

  /** What `project(v)` leaves in a receiver holding `a`: unchanged when `v` is zero. */
  function Projection(a: Vec3Like, v: Vec3Like): Vec3Like {
    var d := LengthSq(v);
    if d > 0.0 then
      var s := Dot(a, v) / d;
      Vec3Like(v.x * s, v.y * s, v.z * s)
    else
      a
  }

  /** What `reject(v)` leaves: the receiver minus its projection on `v`. */
  function Rejection(a: Vec3Like, v: Vec3Like): Vec3Like {
    Difference(a, Projection(a, v))
  }

  /** What `reflect(n)` leaves: the receiver minus `2 * dot(a, n) * n`. */
  function Reflection(a: Vec3Like, n: Vec3Like): Vec3Like {
    var d2 := Dot(a, n) * 2.0;
    Difference(a, Vec3Like(n.x * d2, n.y * d2, n.z * d2))
  }

  /**
   * `len` is the divisor `normalize` uses, `length() || 1`: the Euclidean length of `v`,
   * or 1 when that length is zero, characterised by its square.
   */
  predicate IsLength(v: Vec3Like, len: real) {
    if LengthSq(v) > 0.0 then len > 0.0 && len * len == LengthSq(v) else len == 1.0
  }

  /** What `normalize` leaves when `len` is the length it computes. */
  function Normalized(a: Vec3Like, len: real): Vec3Like
    requires len != 0.0
  {
    Vec3Like(a.x / len, a.y / len, a.z / len)
  }

  /** What `rotateX(angle)` leaves, given the cosine `c` and sine `s` of `angle`. */
  function AboutXRotated(a: Vec3Like, c: real, s: real): Vec3Like {
    Vec3Like(a.x, c * a.y - s * a.z, s * a.y + c * a.z)
  }

  /** What `rotateY(angle)` leaves. */
  function AboutYRotated(a: Vec3Like, c: real, s: real): Vec3Like {
    Vec3Like(s * a.z + c * a.x, a.y, c * a.z - s * a.x)
  }

  /** What `rotateZ(angle)` leaves. */
  function AboutZRotated(a: Vec3Like, c: real, s: real): Vec3Like {
    Vec3Like(c * a.x - s * a.y, s * a.x + c * a.y, a.z)
  }

  // Properties of the arithmetic.

  /** A rotation of the coordinate plane `(p, q)`, in scalars: it keeps `p*p + q*q` and is undone by `-s`. */
  lemma PlaneRotation(p: real, q: real, c: real, s: real)
    requires c * c + s * s == 1.0
    ensures (c * p - s * q) * (c * p - s * q) + (s * p + c * q) * (s * p + c * q) == p * p + q * q
    ensures c * (c * p - s * q) - -s * (s * p + c * q) == p
    ensures -s * (c * p - s * q) + c * (s * p + c * q) == q
  {
    var k := c * c + s * s;
    assert (c * p - s * q) * (c * p - s * q) + (s * p + c * q) * (s * p + c * q) == k * (p * p + q * q);
    assert c * (c * p - s * q) - -s * (s * p + c * q) == k * p;
    assert -s * (c * p - s * q) + c * (s * p + c * q) == k * q;
  }

  /**
   * For a genuine cosine/sine pair `rotateX` keeps the squared length and the `x`
   * component, and the rotation by the opposite angle undoes it.
   */
  lemma XRotatedIsometry(a: Vec3Like, c: real, s: real)
    requires c * c + s * s == 1.0
    ensures LengthSq(AboutXRotated(a, c, s)) == LengthSq(a) && AboutXRotated(AboutXRotated(a, c, s), c, -s) == a
  {
    PlaneRotation(a.y, a.z, c, s);
  }

  /** The same for `rotateY`, which turns the `(z, x)` plane and keeps `y`. */
  lemma YRotatedIsometry(a: Vec3Like, c: real, s: real)
    requires c * c + s * s == 1.0
    ensures LengthSq(AboutYRotated(a, c, s)) == LengthSq(a) && AboutYRotated(AboutYRotated(a, c, s), c, -s) == a
  {
    PlaneRotation(a.z, a.x, c, s);
  }

  /** The same for `rotateZ`, which turns the `(x, y)` plane and keeps `z`. */
  lemma ZRotatedIsometry(a: Vec3Like, c: real, s: real)
    requires c * c + s * s == 1.0
    ensures LengthSq(AboutZRotated(a, c, s)) == LengthSq(a) && AboutZRotated(AboutZRotated(a, c, s), c, -s) == a
  {
    PlaneRotation(a.x, a.y, c, s);
  }

  /** For a unit vector `u`, the default threshold 1 finds `u` parallel to itself and to its negation. */
  lemma ParallelUnit(u: Vec3Like)
    requires LengthSq(u) == 1.0
    ensures Parallel(u, u, 1.0) && Parallel(u, Negated(u), 1.0)
  {
    assert Dot(u, Negated(u)) == -LengthSq(u);
  }

  /** The library's fixtures: quarter turns (`c == 0`, `s == 1`) about each axis. */
  lemma AxisRotationExamples()
    ensures AboutXRotated(Vec3Like(0.0, 1.0, 2.0), 0.0, 1.0) == Vec3Like(0.0, -2.0, 1.0)
    ensures AboutYRotated(Vec3Like(2.0, 0.0, 1.0), 0.0, 1.0) == Vec3Like(1.0, 0.0, -2.0)
    ensures AboutZRotated(Vec3Like(1.0, 2.0, 0.0), 0.0, 1.0) == Vec3Like(-2.0, 1.0, 0.0)
  {
  }

  /** `add` followed by `sub` of the same vector restores the receiver, and the other way round. */
  lemma SumDifferenceInverse(a: Vec3Like, v: Vec3Like)
    ensures Difference(Sum(a, v), v) == a
    ensures Sum(Difference(a, v), v) == a
  {
  }

  lemma DotSymmetric(v: Vec3Like, w: Vec3Like)
    ensures Dot(v, w) == Dot(w, v)
  {
  }

  /** The cross product is orthogonal to both factors, antisymmetric, and zero on equal factors. */
  lemma CrossProperties(v: Vec3Like, w: Vec3Like)
    ensures Dot(Cross(v, w), v) == 0.0 && Dot(Cross(v, w), w) == 0.0
    ensures Cross(v, w) == Negated(Cross(w, v))
    ensures Cross(v, v) == Zero
  {
  }

  /** The fixture of the library's test for `cross`: `(1,2,3) x (4,5,6) = (-3, 6, -3)`. */
  lemma CrossExample()
    ensures Cross(Vec3Like(1.0, 2.0, 3.0), Vec3Like(4.0, 5.0, 6.0)) == Vec3Like(-3.0, 6.0, -3.0)
  {
    assert Cross(Vec3Like(1.0, 2.0, 3.0), Vec3Like(4.0, 5.0, 6.0))
      == Vec3Like(2.0 * 6.0 - 3.0 * 5.0, 3.0 * 4.0 - 1.0 * 6.0, 1.0 * 5.0 - 2.0 * 4.0);
  }

  /** `negate` is an involution and scaling by `-1` negates. */
  lemma NegatedInvolution(a: Vec3Like)
    ensures Negated(Negated(a)) == a
    ensures Negated(a) == Scaled(a, -1.0)
  {
  }

  /**
   * `project(v)` with a non-zero `v` yields a vector parallel to `v` (zero cross
   * product); with a zero `v` the receiver is unchanged.
   */
  lemma ProjectionParallel(a: Vec3Like, v: Vec3Like)
    ensures LengthSq(v) > 0.0 ==> Cross(Projection(a, v), v) == Zero
    ensures LengthSq(v) == 0.0 ==> Projection(a, v) == a
  {
  }

  /** `reject(v)` with a non-zero `v` is orthogonal to `v`, and projection plus rejection is the original. */
  lemma RejectionOrthogonal(a: Vec3Like, v: Vec3Like)
    ensures LengthSq(v) > 0.0 ==> Dot(Rejection(a, v), v) == 0.0
    ensures Sum(Projection(a, v), Rejection(a, v)) == a
  {
    var d := LengthSq(v);
    if d > 0.0 {
      var s := Dot(a, v) / d;
      assert s * d == Dot(a, v);
      var p := Projection(a, v);
      assert Dot(p, v) == s * d;
    }
  }

  /** For a unit normal `n`, `reflect(n)` keeps the squared length and applying it twice restores the vector. */
  lemma ReflectionIsometry(a: Vec3Like, n: Vec3Like)
    requires LengthSq(n) == 1.0
    ensures LengthSq(Reflection(a, n)) == LengthSq(a)
    ensures Reflection(Reflection(a, n), n) == a
  {
    var k := Dot(a, n);
    ReflectionScalar(a.x, a.y, a.z, n.x, n.y, n.z, k);
    var r := Reflection(a, n);
    assert Dot(r, n) == -k;
  }

  /** A scalar step: subtracting `2k n` for `k = a . n` and unit `n` keeps the squared length and negates `k`. */
  lemma ReflectionScalar(a1: real, a2: real, a3: real, n1: real, n2: real, n3: real, k: real)
    requires n1 * n1 + n2 * n2 + n3 * n3 == 1.0 && k == a1 * n1 + a2 * n2 + a3 * n3
    ensures (a1 - n1 * (k * 2.0)) * (a1 - n1 * (k * 2.0)) + (a2 - n2 * (k * 2.0)) * (a2 - n2 * (k * 2.0))
          + (a3 - n3 * (k * 2.0)) * (a3 - n3 * (k * 2.0)) == a1 * a1 + a2 * a2 + a3 * a3
    ensures (a1 - n1 * (k * 2.0)) * n1 + (a2 - n2 * (k * 2.0)) * n2 + (a3 - n3 * (k * 2.0)) * n3 == -k
  {
    var nn := n1 * n1 + n2 * n2 + n3 * n3;
    assert (a1 - n1 * (k * 2.0)) * n1 + (a2 - n2 * (k * 2.0)) * n2 + (a3 - n3 * (k * 2.0)) * n3 == k - 2.0 * k * nn;
    assert (a1 - n1 * (k * 2.0)) * (a1 - n1 * (k * 2.0)) + (a2 - n2 * (k * 2.0)) * (a2 - n2 * (k * 2.0))
         + (a3 - n3 * (k * 2.0)) * (a3 - n3 * (k * 2.0)) == a1 * a1 + a2 * a2 + a3 * a3 - 4.0 * k * k + 4.0 * k * k * nn;
  }

  /**
   * `normalize` with the length it computes: a non-zero vector becomes a unit vector,
   * and the zero vector stays zero.
   */
  lemma NormalizedUnit(a: Vec3Like, len: real)
    requires IsLength(a, len)
    ensures LengthSq(a) > 0.0 ==> LengthSq(Normalized(a, len)) == 1.0
    ensures a == Zero ==> Normalized(a, len) == Zero
  {
    if LengthSq(a) > 0.0 {
      var n := Normalized(a, len);
      assert n.x * len == a.x && n.y * len == a.y && n.z * len == a.z;
      assert LengthSq(n) * (len * len) == LengthSq(a);
    }
  }
}

/**
 * The `Vec3` class: a mutable 3D vector whose mutating members overwrite `x`, `y` and
 * `z` and return the receiver, and the static members that mutate their first
 * argument. Read-only arguments are passed as `Vec3Like` values; every member reads the
 * components it needs before it writes, so a receiver passed as its own argument
 * behaves the same way.
 */
module Vector3 {
  import opened Options
  import opened Vec3Algebra

  class Vec3 {
    var x: real
    var y: real
    var z: real

    /** The receiver's current components. */
    function Value(): Vec3Like
      reads this
    {
      Vec3Like(x, y, z)
    }

    /** `new Vec3(x, y, z)`. */
    constructor (x0: real, y0: real, z0: real)
      ensures Value() == Vec3Like(x0, y0, z0)
    {
      x, y, z := x0, y0, z0;
    }

    /** `new Vec3(v)` and `new Vec3()`: a copy of `v`, or the zero vector. */
    constructor FromLike(v: Option<Vec3Like>)
      ensures Value() == v.GetOr(Zero)
    {
      var w := v.GetOr(Zero);
      x, y, z := w.x, w.y, w.z;
    }

    method Copy(v: Vec3Like) returns (r: Vec3)
      modifies this
      ensures r == this && Value() == v
    {
      x := v.x;
      y := v.y;
      z := v.z;
      r := this;
    }

    method Clone() returns (r: Vec3)
      ensures fresh(r) && r.Value() == Value()
    {
      r := new Vec3(x, y, z);
    }

    function Equal(v: Vec3Like): (r: bool)
      reads this
      ensures r <==> Value() == v
    {
      x == v.x && y == v.y && z == v.z
    }

    function Parallel(v: Vec3Like, threshold: real): (r: bool)
      reads this
      ensures r == Vec3Algebra.Parallel(Value(), v, threshold)
    {
      Abs(Dot(v)) >= threshold
    }

    method Add(v: Vec3Like) returns (r: Vec3)
      modifies this
      ensures r == this && Value() == Sum(old(Value()), v)
    {
      x := x + v.x;
      y := y + v.y;
      z := z + v.z;
      r := this;
    }

    method Sub(v: Vec3Like) returns (r: Vec3)
      modifies this
      ensures r == this && Value() == Difference(old(Value()), v)
    {
      x := x - v.x;
      y := y - v.y;
      z := z - v.z;
      r := this;
    }

    method Scale(s: real) returns (r: Vec3)
      modifies this
      ensures r == this && Value() == Scaled(old(Value()), s)
    {
      x := x * s;
      y := y * s;
      z := z * s;
      r := this;
    }

    function Dot(v: Vec3Like): (r: real)
      reads this
      ensures r == Vec3Algebra.Dot(Value(), v)
    {
      x * v.x + y * v.y + z * v.z
    }

    /** The instance `cross`: a new vector, the receiver is unchanged. */
    method Cross(v: Vec3Like) returns (r: Vec3)
      ensures fresh(r) && r.Value() == Vec3Algebra.Cross(Value(), v)
    {
      r := new Vec3(y * v.z - z * v.y, z * v.x - x * v.z, x * v.y - y * v.x);
    }

    method Project(v: Vec3Like) returns (r: Vec3)
      modifies this
      ensures r == this && Value() == Projection(old(Value()), v)
    {
      ghost var a := Value();
      var d := v.x * v.x + v.y * v.y + v.z * v.z;
      assert d == LengthSq(v);
      if d > 0.0 {
        var s := Dot(v) / d;
        assert Projection(a, v) == Vec3Like(v.x * s, v.y * s, v.z * s);
        x := v.x * s;
        y := v.y * s;
        z := v.z * s;
      }
      r := this;
    }

    /** `this.sub(this.clone().project(v))`. */
    method Reject(v: Vec3Like) returns (r: Vec3)
      modifies this
      ensures r == this && Value() == Rejection(old(Value()), v)
    {
      var c := Clone();
      var p := c.Project(v);
      r := Sub(p.Value());
    }

    method Reflect(n: Vec3Like) returns (r: Vec3)
      modifies this
      ensures r == this && Value() == Reflection(old(Value()), n)
    {
      var d2 := Dot(n) * 2.0;
      r := Sub(Vec3Like(n.x * d2, n.y * d2, n.z * d2));
    }

    function SquaredLength(): (r: real)
      reads this
      ensures r == LengthSq(Value()) && r >= 0.0
    {
      x * x + y * y + z * z
    }

    /** `normalize`, given the length `length() || 1` it divides by. */
    method Normalize(len: real) returns (r: Vec3)
      requires IsLength(Value(), len)
      modifies this
      ensures r == this && Value() == Normalized(old(Value()), len)
    {
      x := x / len;
      y := y / len;
      z := z / len;
      r := this;
    }

    method Negate() returns (r: Vec3)
      modifies this
      ensures r == this && Value() == Negated(old(Value()))
    {
      x := x * -1.0;
      y := y * -1.0;
      z := z * -1.0;
      r := this;
    }

    /** `rotateX(angle)`, given the cosine `c` and sine `s` of `angle`. */
    method RotateX(c: real, s: real) returns (r: Vec3)
      modifies this
      ensures r == this && Value() == AboutXRotated(old(Value()), c, s)
    {
      var y0 := c * y - s * z;
      var z0 := s * y + c * z;
      y := y0;
      z := z0;
      r := this;
    }

    /** `rotateY(angle)`. */
    method RotateY(c: real, s: real) returns (r: Vec3)
      modifies this
      ensures r == this && Value() == AboutYRotated(old(Value()), c, s)
    {
      var x0 := s * z + c * x;
      var z0 := c * z - s * x;
      x := x0;
      z := z0;
      r := this;
    }

    /** `rotateZ(angle)`. */
    method RotateZ(c: real, s: real) returns (r: Vec3)
      modifies this
      ensures r == this && Value() == AboutZRotated(old(Value()), c, s)
    {
      var x0 := c * x - s * y;
      var y0 := s * x + c * y;
      x := x0;
      y := y0;
      r := this;
    }
  }

  /** Static `Vec3.copy(v1, v2)`: overwrites `v1` with `v2` and returns `v1`. */
  method Copy(v1: Vec3, v2: Vec3Like) returns (r: Vec3)
    modifies v1
    ensures r == v1 && v1.Value() == v2
  {
    v1.x := v2.x;
    v1.y := v2.y;
    v1.z := v2.z;
    r := v1;
  }

  /** Static `Vec3.add(v1, v2)`: adds `v2` into `v1` and returns `v1`. */
  method Add(v1: Vec3, v2: Vec3Like) returns (r: Vec3)
    modifies v1
    ensures r == v1 && v1.Value() == Sum(old(v1.Value()), v2)
  {
    v1.x := v1.x + v2.x;
    v1.y := v1.y + v2.y;
    v1.z := v1.z + v2.z;
    r := v1;
  }

  /** Static `Vec3.sub(v1, v2)`: subtracts `v2` from `v1` and returns `v1`. */
  method Sub(v1: Vec3, v2: Vec3Like) returns (r: Vec3)
    modifies v1
    ensures r == v1 && v1.Value() == Difference(old(v1.Value()), v2)
  {
    v1.x := v1.x - v2.x;
    v1.y := v1.y - v2.y;
    v1.z := v1.z - v2.z;
    r := v1;
  }

  /** Copying a vector into another and comparing them with `equal` gives true. */
  method CopyThenEqual(v1: Vec3, v2: Vec3Like) returns (same: bool)
    modifies v1
    ensures same
  {
    var r := Copy(v1, v2);
    same := r.Equal(v2);
  }
}
