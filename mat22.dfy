/**
 * 2x2 matrices as values: two columns `ex` and `ey` (column-major storage), and the
 * arithmetic `Mat22` performs on them.
 */
module Mat22Algebra {
  import opened Options
  import opened Vec2Algebra

  /** A matrix by its columns: the entry in row `i`, column `j` is `ex.x` for (1,1), `ey.x` for (1,2), and so on. */
  datatype M22 = M22(ex: Vec2Like, ey: Vec2Like)

  /** `Mat22.identity` and the value of `new Mat22()`. */
  const Identity := M22(Vec2Like(1.0, 0.0), Vec2Like(0.0, 1.0))

  /** The matrix-vector product `m * v` computed by `mulVec2`. */
  function Apply(m: M22, v: Vec2Like): Vec2Like {
    Vec2Like(m.ex.x * v.x + m.ey.x * v.y, m.ex.y * v.x + m.ey.y * v.y)
  }

  /** The product `a * b`: each column of `b` mapped through `a`, as `mul` computes it. */
  function Product(a: M22, b: M22): M22 {
    M22(Apply(a, b.ex), Apply(a, b.ey))
  }

  function Det(m: M22): real {
    m.ex.x * m.ey.y - m.ex.y * m.ey.x
  }

  function Transposed(m: M22): M22 {
    M22(Vec2Like(m.ex.x, m.ey.x), Vec2Like(m.ex.y, m.ey.y))
  }

  /** `diag(s.x, s.y)`, the value `makeScale(s)` builds. */
  function ScaleMatrix(s: Vec2Like): M22 {
    M22(Vec2Like(s.x, 0.0), Vec2Like(0.0, s.y))
  }

  /** The value `makeRotate(angle)` builds, given `c` and `s`, the cosine and sine of `angle`. */
  function RotationMatrix(c: real, s: real): M22 {
    M22(Vec2Like(c, s), Vec2Like(-s, c))
  }

  /** What `scale(s)` leaves: row 1 multiplied by `s.x`, row 2 by `s.y`. */
  function RowScaled(m: M22, s: Vec2Like): M22 {
    M22(Vec2Like(s.x * m.ex.x, s.y * m.ex.y), Vec2Like(s.x * m.ey.x, s.y * m.ey.y))
  }

  /** What `rotate(angle)` leaves, given the cosine `c` and sine `s` of `angle`. */
  function RowRotated(m: M22, c: real, s: real): M22 {
    M22(Vec2Like(c * m.ex.x - s * m.ex.y, s * m.ex.x + c * m.ex.y),
        Vec2Like(c * m.ey.x - s * m.ey.y, s * m.ey.x + c * m.ey.y))
  }

  /**
   * What `inverse` computes: nothing when the determinant is exactly zero, otherwise
   * the matrix it writes into the receiver, which is a two-sided inverse.
   */
  function Inverse(m: M22): (r: Option<M22>)
    ensures r.None? <==> Det(m) == 0.0
    ensures r.Some? ==> Product(r.value, m) == Identity && Product(m, r.value) == Identity
  {
    var det := Det(m);
    if det == 0.0 then None
    else
      var inv := M22(Vec2Like(m.ey.y / det, m.ex.y * -1.0 / det),
                     Vec2Like(m.ey.x * -1.0 / det, m.ex.x / det));
      InverseIsInverse(m, det, inv);
      Some(inv)
  }

  /** The entries `inverse` writes are the adjugate divided by the determinant, and they invert `m`. */
  lemma InverseIsInverse(m: M22, det: real, inv: M22)
    requires det == Det(m) && det != 0.0
    requires inv == M22(Vec2Like(m.ey.y / det, m.ex.y * -1.0 / det), Vec2Like(m.ey.x * -1.0 / det, m.ex.x / det))
    ensures Product(inv, m) == Identity && Product(m, inv) == Identity
  {
    var a, b, c, d := m.ex.x, m.ey.x, m.ex.y, m.ey.y;
    var k := 1.0 / det;
    assert inv == M22(Vec2Like(d * k, -c * k), Vec2Like(-b * k, a * k));
    assert (a * d - c * b) * k == 1.0;
    assert Product(inv, m) == M22(Vec2Like((a * d - c * b) * k, 0.0), Vec2Like(0.0, (a * d - c * b) * k));
    assert Product(m, inv) == M22(Vec2Like((a * d - c * b) * k, 0.0), Vec2Like(0.0, (a * d - c * b) * k));
  }

  // Properties of the arithmetic.

  /** The identity is a two-sided unit for the product and fixes every vector. */
  lemma IdentityUnit(m: M22, v: Vec2Like)
    ensures Product(Identity, m) == m && Product(m, Identity) == m
    ensures Apply(Identity, v) == v
  {
  }

  /** The product represents composition: `(a * b) * v == a * (b * v)`. */
  lemma ProductComposes(a: M22, b: M22, v: Vec2Like)
    ensures Apply(Product(a, b), v) == Apply(a, Apply(b, v))
  {
  }

  /** The determinant is multiplicative. */
  lemma DetProduct(a: M22, b: M22)
    ensures Det(Product(a, b)) == Det(a) * Det(b)
  {
  }

  /** `transpose` is an involution, keeps the determinant and the diagonal. */
  lemma TransposeProperties(m: M22)
    ensures Transposed(Transposed(m)) == m
    ensures Det(Transposed(m)) == Det(m)
    ensures Transposed(m).ex.x == m.ex.x && Transposed(m).ey.y == m.ey.y
  {
  }

  /** `scale(s)` is the product `diag(s) * m`, and `rotate` the product `R(angle) * m`. */
  lemma RowOperationsAreProducts(m: M22, s: Vec2Like, c: real, sn: real)
    ensures RowScaled(m, s) == Product(ScaleMatrix(s), m)
    ensures RowRotated(m, c, sn) == Product(RotationMatrix(c, sn), m)
  {
  }

  /** A rotation matrix built from a genuine cosine/sine pair has determinant 1. */
  lemma RotationDet(c: real, s: real)
    requires c * c + s * s == 1.0
    ensures Det(RotationMatrix(c, s)) == 1.0
  {
    assert Det(RotationMatrix(c, s)) == c * c + s * s;
  }

  /** The fixtures of the library's tests for `mul`, `mulVec2` and `determinant`. */
  lemma ArithmeticExamples()
    ensures Product(M22(Vec2Like(1.0, 2.0), Vec2Like(3.0, 4.0)), M22(Vec2Like(5.0, 6.0), Vec2Like(7.0, 8.0)))
         == M22(Vec2Like(23.0, 34.0), Vec2Like(31.0, 46.0))
    ensures Apply(M22(Vec2Like(1.0, 2.0), Vec2Like(3.0, 4.0)), Vec2Like(5.0, 6.0)) == Vec2Like(23.0, 34.0)
    ensures Det(M22(Vec2Like(2.0, 3.0), Vec2Like(1.0, 4.0))) == 5.0
  {
    var m, n := M22(Vec2Like(1.0, 2.0), Vec2Like(3.0, 4.0)), M22(Vec2Like(5.0, 6.0), Vec2Like(7.0, 8.0));
    assert Apply(m, n.ex) == Vec2Like(1.0 * 5.0 + 3.0 * 6.0, 2.0 * 5.0 + 4.0 * 6.0);
    assert Apply(m, n.ey) == Vec2Like(1.0 * 7.0 + 3.0 * 8.0, 2.0 * 7.0 + 4.0 * 8.0);
    assert Det(M22(Vec2Like(2.0, 3.0), Vec2Like(1.0, 4.0))) == 2.0 * 4.0 - 3.0 * 1.0;
  }

  /** The fixture of the library's test for `inverse`: `((2,3),(1,4))` inverts to `((4,-3),(-1,2)) / 5`. */
  lemma InverseExample()
    ensures Inverse(M22(Vec2Like(2.0, 3.0), Vec2Like(1.0, 4.0)))
         == Some(M22(Vec2Like(0.8, -0.6), Vec2Like(-0.2, 0.4)))
  {
    var m := M22(Vec2Like(2.0, 3.0), Vec2Like(1.0, 4.0));
    assert Det(m) == 2.0 * 4.0 - 3.0 * 1.0;
  }
}

/**
 * The `Mat22` class: a 2x2 matrix held as two mutable `Vec2` columns, whose mutating
 * members overwrite the columns' components in place and return the receiver.
 */
module Matrix22 {
  import opened Options
  import opened Vec2Algebra
  import opened Mat22Algebra
  import opened Vector2

  class Mat22 {
    /** The first column. The library never replaces the column objects, only their components. */
    const ex: Vec2
    /** The second column. */
    const ey: Vec2

    /** The two columns are distinct objects, as every constructor makes them. */
    predicate Valid()
      reads this
    {
      ex != ey
    }

    /** The matrix the columns currently hold. */
    function Value(): M22
      reads ex, ey
    {
      M22(ex.Value(), ey.Value())
    }

    /**
     * `new Mat22(ex, ey)`: copies of the given columns; a missing first column defaults
     * to `(1, 0)` and a missing second column to `(0, 1)`.
     */
    constructor (ex0: Option<Vec2Like>, ey0: Option<Vec2Like>)
      ensures Valid() && fresh(ex) && fresh(ey)
      ensures Value() == M22(ex0.GetOr(Vec2Like(1.0, 0.0)), ey0.GetOr(Vec2Like(0.0, 1.0)))
    {
      ex := new Vec2.FromLike(Some(ex0.GetOr(Vec2Like(1.0, 0.0))));
      ey := new Vec2.FromLike(Some(ey0.GetOr(Vec2Like(0.0, 1.0))));
    }

    method Clone() returns (r: Mat22)
      ensures r.Valid() && fresh(r) && fresh(r.ex) && fresh(r.ey) && r.Value() == Value()
    {
      r := new Mat22(Some(ex.Value()), Some(ey.Value()));
    }

    /** `equal`: exact comparison of both columns. */
    function Equal(m: Mat22): (r: bool)
      reads ex, ey, m.ex, m.ey
      ensures r <==> Value() == m.Value()
    {
      ex.Equal(m.ex.Value()) && ey.Equal(m.ey.Value())
    }

    /** `mul(m)`: the receiver becomes `this * m`; `m` may be the receiver itself. */
    method Mul(m: Mat22) returns (r: Mat22)
      requires Valid()
      modifies ex, ey
      ensures r == this && Value() == Product(old(Value()), old(m.Value()))
    {
      var m11 := ex.x * m.ex.x + ey.x * m.ex.y;
      var m21 := ex.y * m.ex.x + ey.y * m.ex.y;
      var m12 := ex.x * m.ey.x + ey.x * m.ey.y;
      var m22 := ex.y * m.ey.x + ey.y * m.ey.y;
      assert Product(Value(), m.Value()) == M22(Vec2Like(m11, m21), Vec2Like(m12, m22));
      ex.x := m11;
      ex.y := m21;
      ey.x := m12;
      ey.y := m22;
      r := this;
    }

    function Determinant(): (r: real)
      reads ex, ey
      ensures r == Det(Value())
    {
      ex.x * ey.y - ex.y * ey.x
    }

    /** `transpose`: swaps the two off-diagonal entries. */
    method Transpose() returns (r: Mat22)
      requires Valid()
      modifies ex, ey
      ensures r == this && Value() == Transposed(old(Value()))
    {
      var tmp := ey.x;
      ey.x := ex.y;
      ex.y := tmp;
      r := this;
    }

    /**
     * `inverse`: when the determinant is exactly zero, returns nothing and leaves the
     * matrix unchanged; otherwise turns the receiver into its inverse and returns it.
     */
    method Inverse() returns (r: Option<Mat22>)
      requires Valid()
      modifies ex, ey
      ensures r.None? <==> Det(old(Value())) == 0.0
      ensures r.None? ==> Value() == old(Value())
      ensures r.Some? ==> r.value == this && Some(Value()) == Mat22Algebra.Inverse(old(Value()))
    {
      var det := Determinant();
      if det == 0.0 {
        return None;
      }
      var exx := ex.x;
      ex.x := ey.y / det;
      ex.y := ex.y * -1.0 / det;
      ey.x := ey.x * -1.0 / det;
      ey.y := exx / det;
      r := Some(this);
    }

    method SetIdentity() returns (r: Mat22)
      requires Valid()
      modifies ex, ey
      ensures r == this && Value() == Identity
    {
      ex.x := 1.0;
      ex.y := 0.0;
      ey.x := 0.0;
      ey.y := 1.0;
      r := this;
    }

    /** `rotate(angle)`, given the cosine `c` and sine `s` of `angle`. */
    method Rotate(c: real, s: real) returns (r: Mat22)
      requires Valid()
      modifies ex, ey
      ensures r == this && Value() == RowRotated(old(Value()), c, s)
    {
      var m11, m21, m12, m22 := ex.x, ex.y, ey.x, ey.y;
      ex.x := c * m11 - s * m21;
      ex.y := s * m11 + c * m21;
      ey.x := c * m12 - s * m22;
      ey.y := s * m12 + c * m22;
      r := this;
    }

    /** `scale(s)`: row 1 is multiplied by `s.x` and row 2 by `s.y`. */
    method Scale(s: Vec2Like) returns (r: Mat22)
      requires Valid()
      modifies ex, ey
      ensures r == this && Value() == RowScaled(old(Value()), s)
    {
      var m11, m21, m12, m22 := ex.x, ex.y, ey.x, ey.y;
      ex.x := s.x * m11;
      ex.y := s.y * m21;
      ey.x := s.x * m12;
      ey.y := s.y * m22;
      r := this;
    }

    /** `mulVec2(v)`: the product in a new vector. */
    method MulVec2(v: Vec2Like) returns (r: Vec2)
      ensures fresh(r) && r.Value() == Apply(Value(), v)
    {
      var x := ex.x * v.x + ey.x * v.y;
      var y := ex.y * v.x + ey.y * v.y;
      r := new Vec2(x, y);
    }

    /**
     * `mulVec2(v, out)`: the product written into `out`, which is returned. The matrix
     * keeps its value unless `out` is one of its own columns.
     */
    method MulVec2Into(v: Vec2Like, out: Vec2) returns (r: Vec2)
      modifies out
      ensures r == out && out.Value() == Apply(old(Value()), v)
      ensures out != ex && out != ey ==> Value() == old(Value())
    {
      var x := ex.x * v.x + ey.x * v.y;
      var y := ex.y * v.x + ey.y * v.y;
      out.x := x;
      out.y := y;
      r := out;
    }
  }

  /** Static `Mat22.makeScale(s)`: a new diagonal matrix. */
  method MakeScale(s: Vec2Like) returns (r: Mat22)
    ensures r.Valid() && fresh(r) && fresh(r.ex) && fresh(r.ey) && r.Value() == ScaleMatrix(s)
  {
    r := new Mat22(Some(Vec2Like(s.x, 0.0)), Some(Vec2Like(0.0, s.y)));
  }

  /** Static `Mat22.makeRotate(angle)`, given the cosine `c` and sine `s` of `angle`. */
  method MakeRotate(c: real, s: real) returns (r: Mat22)
    ensures r.Valid() && fresh(r) && fresh(r.ex) && fresh(r.ey) && r.Value() == RotationMatrix(c, s)
  {
    r := new Mat22(Some(Vec2Like(c, s)), Some(Vec2Like(-s, c)));
  }
}
