/**
 * 3x3 matrices as values: three columns `ex`, `ey`, `ez` (column-major storage), and the
 * arithmetic `Mat33` performs on them. Used on 2D points, `ez` acts as a translation.
 */
module Mat33Algebra {
  import opened Options
  import V2 = Vec2Algebra
  import opened Vec3Algebra

  /** A matrix by its columns: row `i`, column `j` is component `i` of column `j`. */
  datatype M33 = M33(ex: Vec3Like, ey: Vec3Like, ez: Vec3Like)

  /** `Mat33.identity` and the value of `new Mat33()`. */
  const Identity := M33(Vec3Like(1.0, 0.0, 0.0), Vec3Like(0.0, 1.0, 0.0), Vec3Like(0.0, 0.0, 1.0))

  /** The matrix-vector product `m * v` computed by `mulVec3`. */
  function Apply(m: M33, v: Vec3Like): Vec3Like {
    Vec3Like(m.ex.x * v.x + m.ey.x * v.y + m.ez.x * v.z,
             m.ex.y * v.x + m.ey.y * v.y + m.ez.y * v.z,
             m.ex.z * v.x + m.ey.z * v.y + m.ez.z * v.z)
  }

  /** What `mulVec2` computes: `v` taken as `(v.x, v.y, 1)`, the first two rows of the product. */
  function ApplyPoint(m: M33, v: V2.Vec2Like): V2.Vec2Like {
    V2.Vec2Like(m.ex.x * v.x + m.ey.x * v.y + m.ez.x, m.ex.y * v.x + m.ey.y * v.y + m.ez.y)
  }

  /** The product `a * b`: each column of `b` mapped through `a`, as `mul` computes it. */
  function Product(a: M33, b: M33): M33 {
    M33(Apply(a, b.ex), Apply(a, b.ey), Apply(a, b.ez))
  }

  /** The determinant of the 2x2 matrix with rows `(a, b)` and `(c, d)`. */
  function Minor(a: real, b: real, c: real, d: real): real {
    a * d - b * c
  }

  /**
   * The determinant of the matrix with entries `mij` (row `i`, column `j`), by cofactor
   * expansion along the first row as `determinant` computes it.
   */
  function Det3(m00: real, m01: real, m02: real, m10: real, m11: real, m12: real,
                m20: real, m21: real, m22: real): real {
    m00 * (m22 * m11 - m12 * m21) + m01 * (-m22 * m10 + m12 * m20) + m02 * (m21 * m10 - m11 * m20)
  }

  function Det(m: M33): real {
    Det3(m.ex.x, m.ey.x, m.ez.x, m.ex.y, m.ey.y, m.ez.y, m.ex.z, m.ey.z, m.ez.z)
  }

  function Transposed(m: M33): M33 {
    M33(Vec3Like(m.ex.x, m.ey.x, m.ez.x), Vec3Like(m.ex.y, m.ey.y, m.ez.y), Vec3Like(m.ex.z, m.ey.z, m.ez.z))
  }

  /** The adjugate, the transposed matrix of cofactors: the entries `inverse` divides by the determinant. */
  function Adjugate(m: M33): M33 {
    var m00, m01, m02 := m.ex.x, m.ey.x, m.ez.x;
    var m10, m11, m12 := m.ex.y, m.ey.y, m.ez.y;
    var m20, m21, m22 := m.ex.z, m.ey.z, m.ez.z;
    M33(Vec3Like(Minor(m11, m12, m21, m22), -Minor(m10, m12, m20, m22), Minor(m10, m11, m20, m21)),
        Vec3Like(-Minor(m01, m02, m21, m22), Minor(m00, m02, m20, m22), -Minor(m00, m01, m20, m21)),
        Vec3Like(Minor(m01, m02, m11, m12), -Minor(m00, m02, m10, m12), Minor(m00, m01, m10, m11)))
  }

  /**
   * What `inverse` computes: nothing when the determinant is exactly zero, otherwise
   * the matrix it writes into the receiver, which is a two-sided inverse.
   */
  function Inverse(m: M33): (r: Option<M33>)
    ensures r.None? <==> Det(m) == 0.0
    ensures r.Some? ==> Product(r.value, m) == Identity && Product(m, r.value) == Identity
  {
    var det := Det(m);
    if det == 0.0 then None
    else
      var a := Adjugate(m);
      var inv := M33(Vec3Like(a.ex.x / det, a.ex.y / det, a.ex.z / det),
                     Vec3Like(a.ey.x / det, a.ey.y / det, a.ey.z / det),
                     Vec3Like(a.ez.x / det, a.ez.y / det, a.ez.z / det));
      InverseIsInverse(m, det, inv);
      Some(inv)
  }

  /** `inverse` written out entry by entry (`mij` is row `i`, column `j`), as the method computes it. */
  lemma InverseEntries(m00: real, m01: real, m02: real, m10: real, m11: real, m12: real,
                       m20: real, m21: real, m22: real, det: real)
    requires det == Det3(m00, m01, m02, m10, m11, m12, m20, m21, m22) && det != 0.0
    ensures Inverse(M33(Vec3Like(m00, m10, m20), Vec3Like(m01, m11, m21), Vec3Like(m02, m12, m22))) == Some(M33(
      Vec3Like((m11 * m22 - m12 * m21) / det, -(m10 * m22 - m12 * m20) / det, (m10 * m21 - m11 * m20) / det),
      Vec3Like(-(m01 * m22 - m02 * m21) / det, (m00 * m22 - m02 * m20) / det, -(m00 * m21 - m01 * m20) / det),
      Vec3Like((m01 * m12 - m02 * m11) / det, -(m00 * m12 - m02 * m10) / det, (m00 * m11 - m01 * m10) / det)))
  {
  }

  /** The entries `inverse` writes, the adjugate divided by the determinant, invert `m`. */
  lemma InverseIsInverse(m: M33, det: real, inv: M33)
    requires det == Det(m) && det != 0.0
    requires var a := Adjugate(m);
      inv == M33(Vec3Like(a.ex.x / det, a.ex.y / det, a.ex.z / det),
                 Vec3Like(a.ey.x / det, a.ey.y / det, a.ey.z / det),
                 Vec3Like(a.ez.x / det, a.ez.y / det, a.ez.z / det))
    ensures Product(inv, m) == Identity && Product(m, inv) == Identity
  {
    InverseIsLeftInverse(m, det, inv);
    InverseIsRightInverse(m, det, inv);
  }

  lemma InverseIsLeftInverse(m: M33, det: real, inv: M33)
    requires det == Det(m) && det != 0.0
    requires var a := Adjugate(m);
      inv == M33(Vec3Like(a.ex.x / det, a.ex.y / det, a.ex.z / det),
                 Vec3Like(a.ey.x / det, a.ey.y / det, a.ey.z / det),
                 Vec3Like(a.ez.x / det, a.ez.y / det, a.ez.z / det))
    ensures Product(inv, m) == Identity
  {
    InverseColumnLeftX(m, det, inv);
    InverseColumnLeftY(m, det, inv);
    InverseColumnLeftZ(m, det, inv);
  }

  lemma InverseIsRightInverse(m: M33, det: real, inv: M33)
    requires det == Det(m) && det != 0.0
    requires var a := Adjugate(m);
      inv == M33(Vec3Like(a.ex.x / det, a.ex.y / det, a.ex.z / det),
                 Vec3Like(a.ey.x / det, a.ey.y / det, a.ey.z / det),
                 Vec3Like(a.ez.x / det, a.ez.y / det, a.ez.z / det))
    ensures Product(m, inv) == Identity
  {
    InverseColumnRightX(m, det, inv);
    InverseColumnRightY(m, det, inv);
    InverseColumnRightZ(m, det, inv);
  }

  lemma InverseColumnLeftX(m: M33, det: real, inv: M33)
    requires det == Det(m) && det != 0.0
    requires var a := Adjugate(m);
      inv == M33(Vec3Like(a.ex.x / det, a.ex.y / det, a.ex.z / det),
                 Vec3Like(a.ey.x / det, a.ey.y / det, a.ey.z / det),
                 Vec3Like(a.ez.x / det, a.ez.y / det, a.ez.z / det))
    ensures Product(inv, m).ex == Identity.ex
  {
    var a := Adjugate(m);
    InverseLeftX(m.ex.x, m.ey.x, m.ez.x, m.ex.y, m.ey.y, m.ez.y, m.ex.z, m.ey.z, m.ez.z,
      a.ex.x, a.ey.x, a.ez.x, a.ex.y, a.ey.y, a.ez.y, a.ex.z, a.ey.z, a.ez.z,
      inv.ex.x, inv.ey.x, inv.ez.x, inv.ex.y, inv.ey.y, inv.ez.y, inv.ex.z, inv.ey.z, inv.ez.z, det);
  }

  lemma InverseColumnLeftY(m: M33, det: real, inv: M33)
    requires det == Det(m) && det != 0.0
    requires var a := Adjugate(m);
      inv == M33(Vec3Like(a.ex.x / det, a.ex.y / det, a.ex.z / det),
                 Vec3Like(a.ey.x / det, a.ey.y / det, a.ey.z / det),
                 Vec3Like(a.ez.x / det, a.ez.y / det, a.ez.z / det))
    ensures Product(inv, m).ey == Identity.ey
  {
    var a := Adjugate(m);
    InverseLeftY(m.ex.x, m.ey.x, m.ez.x, m.ex.y, m.ey.y, m.ez.y, m.ex.z, m.ey.z, m.ez.z,
      a.ex.x, a.ey.x, a.ez.x, a.ex.y, a.ey.y, a.ez.y, a.ex.z, a.ey.z, a.ez.z,
      inv.ex.x, inv.ey.x, inv.ez.x, inv.ex.y, inv.ey.y, inv.ez.y, inv.ex.z, inv.ey.z, inv.ez.z, det);
  }

  lemma InverseColumnLeftZ(m: M33, det: real, inv: M33)
    requires det == Det(m) && det != 0.0
    requires var a := Adjugate(m);
      inv == M33(Vec3Like(a.ex.x / det, a.ex.y / det, a.ex.z / det),
                 Vec3Like(a.ey.x / det, a.ey.y / det, a.ey.z / det),
                 Vec3Like(a.ez.x / det, a.ez.y / det, a.ez.z / det))
    ensures Product(inv, m).ez == Identity.ez
  {
    var a := Adjugate(m);
    InverseLeftZ(m.ex.x, m.ey.x, m.ez.x, m.ex.y, m.ey.y, m.ez.y, m.ex.z, m.ey.z, m.ez.z,
      a.ex.x, a.ey.x, a.ez.x, a.ex.y, a.ey.y, a.ez.y, a.ex.z, a.ey.z, a.ez.z,
      inv.ex.x, inv.ey.x, inv.ez.x, inv.ex.y, inv.ey.y, inv.ez.y, inv.ex.z, inv.ey.z, inv.ez.z, det);
  }

  lemma InverseColumnRightX(m: M33, det: real, inv: M33)
    requires det == Det(m) && det != 0.0
    requires var a := Adjugate(m);
      inv == M33(Vec3Like(a.ex.x / det, a.ex.y / det, a.ex.z / det),
                 Vec3Like(a.ey.x / det, a.ey.y / det, a.ey.z / det),
                 Vec3Like(a.ez.x / det, a.ez.y / det, a.ez.z / det))
    ensures Product(m, inv).ex == Identity.ex
  {
    var a := Adjugate(m);
    InverseRightX(m.ex.x, m.ey.x, m.ez.x, m.ex.y, m.ey.y, m.ez.y, m.ex.z, m.ey.z, m.ez.z,
      a.ex.x, a.ex.y, a.ex.z, inv.ex.x, inv.ex.y, inv.ex.z, det);
  }

  lemma InverseColumnRightY(m: M33, det: real, inv: M33)
    requires det == Det(m) && det != 0.0
    requires var a := Adjugate(m);
      inv == M33(Vec3Like(a.ex.x / det, a.ex.y / det, a.ex.z / det),
                 Vec3Like(a.ey.x / det, a.ey.y / det, a.ey.z / det),
                 Vec3Like(a.ez.x / det, a.ez.y / det, a.ez.z / det))
    ensures Product(m, inv).ey == Identity.ey
  {
    var a := Adjugate(m);
    InverseRightY(m.ex.x, m.ey.x, m.ez.x, m.ex.y, m.ey.y, m.ez.y, m.ex.z, m.ey.z, m.ez.z,
      a.ey.x, a.ey.y, a.ey.z, inv.ey.x, inv.ey.y, inv.ey.z, det);
  }

  lemma InverseColumnRightZ(m: M33, det: real, inv: M33)
    requires det == Det(m) && det != 0.0
    requires var a := Adjugate(m);
      inv == M33(Vec3Like(a.ex.x / det, a.ex.y / det, a.ex.z / det),
                 Vec3Like(a.ey.x / det, a.ey.y / det, a.ey.z / det),
                 Vec3Like(a.ez.x / det, a.ez.y / det, a.ez.z / det))
    ensures Product(m, inv).ez == Identity.ez
  {
    var a := Adjugate(m);
    InverseRightZ(m.ex.x, m.ey.x, m.ez.x, m.ex.y, m.ey.y, m.ez.y, m.ex.z, m.ey.z, m.ez.z,
      a.ez.x, a.ez.y, a.ez.z, inv.ez.x, inv.ez.y, inv.ez.z, det);
  }

  // The entries of `inv * m` and of `m * inv`, one column at a time, on the entries `mij` of
  // `m` (row `i`, column `j`), `cij` of its adjugate and `iij` of its inverse.

  lemma InverseLeftX(
      m00: real, m01: real, m02: real,
      m10: real, m11: real, m12: real,
      m20: real, m21: real, m22: real,
      c00: real, c01: real, c02: real,
      c10: real, c11: real, c12: real,
      c20: real, c21: real, c22: real,
      i00: real, i01: real, i02: real,
      i10: real, i11: real, i12: real,
      i20: real, i21: real, i22: real,
      d: real)
    requires d == Det3(m00, m01, m02, m10, m11, m12, m20, m21, m22) && d != 0.0
    requires c00 == Minor(m11, m12, m21, m22) && c01 == -Minor(m01, m02, m21, m22) && c02 == Minor(m01, m02, m11, m12)
      && c10 == -Minor(m10, m12, m20, m22) && c11 == Minor(m00, m02, m20, m22) && c12 == -Minor(m00, m02, m10, m12)
      && c20 == Minor(m10, m11, m20, m21) && c21 == -Minor(m00, m01, m20, m21) && c22 == Minor(m00, m01, m10, m11)
    requires i00 == c00 / d && i01 == c01 / d && i02 == c02 / d
      && i10 == c10 / d && i11 == c11 / d && i12 == c12 / d
      && i20 == c20 / d && i21 == c21 / d && i22 == c22 / d
    ensures i00 * m00 + i01 * m10 + i02 * m20 == 1.0
    ensures i10 * m00 + i11 * m10 + i12 * m20 == 0.0
    ensures i20 * m00 + i21 * m10 + i22 * m20 == 0.0
  {
  }

  lemma InverseLeftY(
      m00: real, m01: real, m02: real,
      m10: real, m11: real, m12: real,
      m20: real, m21: real, m22: real,
      c00: real, c01: real, c02: real,
      c10: real, c11: real, c12: real,
      c20: real, c21: real, c22: real,
      i00: real, i01: real, i02: real,
      i10: real, i11: real, i12: real,
      i20: real, i21: real, i22: real,
      d: real)
    requires d == Det3(m00, m01, m02, m10, m11, m12, m20, m21, m22) && d != 0.0
    requires c00 == Minor(m11, m12, m21, m22) && c01 == -Minor(m01, m02, m21, m22) && c02 == Minor(m01, m02, m11, m12)
      && c10 == -Minor(m10, m12, m20, m22) && c11 == Minor(m00, m02, m20, m22) && c12 == -Minor(m00, m02, m10, m12)
      && c20 == Minor(m10, m11, m20, m21) && c21 == -Minor(m00, m01, m20, m21) && c22 == Minor(m00, m01, m10, m11)
    requires i00 == c00 / d && i01 == c01 / d && i02 == c02 / d
      && i10 == c10 / d && i11 == c11 / d && i12 == c12 / d
      && i20 == c20 / d && i21 == c21 / d && i22 == c22 / d
    ensures i00 * m01 + i01 * m11 + i02 * m21 == 0.0
    ensures i10 * m01 + i11 * m11 + i12 * m21 == 1.0
    ensures i20 * m01 + i21 * m11 + i22 * m21 == 0.0
  {
  }

  lemma InverseLeftZ(
      m00: real, m01: real, m02: real,
      m10: real, m11: real, m12: real,
      m20: real, m21: real, m22: real,
      c00: real, c01: real, c02: real,
      c10: real, c11: real, c12: real,
      c20: real, c21: real, c22: real,
      i00: real, i01: real, i02: real,
      i10: real, i11: real, i12: real,
      i20: real, i21: real, i22: real,
      d: real)
    requires d == Det3(m00, m01, m02, m10, m11, m12, m20, m21, m22) && d != 0.0
    requires c00 == Minor(m11, m12, m21, m22) && c01 == -Minor(m01, m02, m21, m22) && c02 == Minor(m01, m02, m11, m12)
      && c10 == -Minor(m10, m12, m20, m22) && c11 == Minor(m00, m02, m20, m22) && c12 == -Minor(m00, m02, m10, m12)
      && c20 == Minor(m10, m11, m20, m21) && c21 == -Minor(m00, m01, m20, m21) && c22 == Minor(m00, m01, m10, m11)
    requires i00 == c00 / d && i01 == c01 / d && i02 == c02 / d
      && i10 == c10 / d && i11 == c11 / d && i12 == c12 / d
      && i20 == c20 / d && i21 == c21 / d && i22 == c22 / d
    ensures i00 * m02 + i01 * m12 + i02 * m22 == 0.0
    ensures i10 * m02 + i11 * m12 + i12 * m22 == 0.0
    ensures i20 * m02 + i21 * m12 + i22 * m22 == 1.0
  {
  }

  lemma InverseRightX(
      m00: real, m01: real, m02: real,
      m10: real, m11: real, m12: real,
      m20: real, m21: real, m22: real,
      c0: real, c1: real, c2: real,
      i0: real, i1: real, i2: real,
      d: real)
    requires d == Det3(m00, m01, m02, m10, m11, m12, m20, m21, m22) && d != 0.0
    requires c0 == Minor(m11, m12, m21, m22) && c1 == -Minor(m10, m12, m20, m22) && c2 == Minor(m10, m11, m20, m21)
    requires i0 == c0 / d && i1 == c1 / d && i2 == c2 / d
    ensures m00 * i0 + m01 * i1 + m02 * i2 == 1.0
    ensures m10 * i0 + m11 * i1 + m12 * i2 == 0.0
    ensures m20 * i0 + m21 * i1 + m22 * i2 == 0.0
  {
  }

  lemma InverseRightY(
      m00: real, m01: real, m02: real,
      m10: real, m11: real, m12: real,
      m20: real, m21: real, m22: real,
      c0: real, c1: real, c2: real,
      i0: real, i1: real, i2: real,
      d: real)
    requires d == Det3(m00, m01, m02, m10, m11, m12, m20, m21, m22) && d != 0.0
    requires c0 == -Minor(m01, m02, m21, m22) && c1 == Minor(m00, m02, m20, m22) && c2 == -Minor(m00, m01, m20, m21)
    requires i0 == c0 / d && i1 == c1 / d && i2 == c2 / d
    ensures m00 * i0 + m01 * i1 + m02 * i2 == 0.0
    ensures m10 * i0 + m11 * i1 + m12 * i2 == 1.0
    ensures m20 * i0 + m21 * i1 + m22 * i2 == 0.0
  {
  }

  lemma InverseRightZ(
      m00: real, m01: real, m02: real,
      m10: real, m11: real, m12: real,
      m20: real, m21: real, m22: real,
      c0: real, c1: real, c2: real,
      i0: real, i1: real, i2: real,
      d: real)
    requires d == Det3(m00, m01, m02, m10, m11, m12, m20, m21, m22) && d != 0.0
    requires c0 == Minor(m01, m02, m11, m12) && c1 == -Minor(m00, m02, m10, m12) && c2 == Minor(m00, m01, m10, m11)
    requires i0 == c0 / d && i1 == c1 / d && i2 == c2 / d
    ensures m00 * i0 + m01 * i1 + m02 * i2 == 0.0
    ensures m10 * i0 + m11 * i1 + m12 * i2 == 0.0
    ensures m20 * i0 + m21 * i1 + m22 * i2 == 1.0
  {
  }

  /** `diag(s.x, s.y, s.z)`, the value `makeScale(s)` builds. */
  function ScaleMatrix(s: Vec3Like): M33 {
    M33(Vec3Like(s.x, 0.0, 0.0), Vec3Like(0.0, s.y, 0.0), Vec3Like(0.0, 0.0, s.z))
  }

  /** What `scale(s)` leaves: rows 1, 2, 3 multiplied by `s.x`, `s.y`, `s.z`. */
  function RowScaled(m: M33, s: Vec3Like): M33 {
    M33(Vec3Like(s.x * m.ex.x, s.y * m.ex.y, s.z * m.ex.z),
        Vec3Like(s.x * m.ey.x, s.y * m.ey.y, s.z * m.ey.z),
        Vec3Like(s.x * m.ez.x, s.y * m.ez.y, s.z * m.ez.z))
  }

  /**
   * What `rotateZ(angle)` leaves, given the cosine `c` and sine `s` of `angle`: the
   * first two rows of the columns `ex` and `ey` rotated; `ez` and the third row untouched.
   */
  function ZRotated(m: M33, c: real, s: real): M33 {
    M33(Vec3Like(c * m.ex.x - s * m.ex.y, s * m.ex.x + c * m.ex.y, m.ex.z),
        Vec3Like(c * m.ey.x - s * m.ey.y, s * m.ey.x + c * m.ey.y, m.ey.z),
        m.ez)
  }

  /** What `translate(t)` leaves: `t` added to `ez`. */
  function Translated(m: M33, t: Vec3Like): M33 {
    M33(m.ex, m.ey, Sum(m.ez, t))
  }

  /** What `setTranslate(t)` leaves: `ez` replaced by `t`. */
  function WithTranslation(m: M33, t: Vec3Like): M33 {
    M33(m.ex, m.ey, t)
  }

  // Properties of the arithmetic.

  /** The identity is a two-sided unit for the product and fixes every vector and point. */
  lemma IdentityUnit(m: M33, v: Vec3Like, p: V2.Vec2Like)
    ensures Product(Identity, m) == m && Product(m, Identity) == m
    ensures Apply(Identity, v) == v && ApplyPoint(Identity, p) == p
  {
  }

  /** `mulVec2` is `mulVec3` on `(v.x, v.y, 1)`, cut to its first two components. */
  lemma ApplyPointIsHomogeneous(m: M33, v: V2.Vec2Like)
    ensures var w := Apply(m, Vec3Like(v.x, v.y, 1.0));
      ApplyPoint(m, v) == V2.Vec2Like(w.x, w.y)
  {
    var w := Apply(m, Vec3Like(v.x, v.y, 1.0));
    assert w.x == m.ex.x * v.x + m.ey.x * v.y + m.ez.x * 1.0;
    assert w.y == m.ex.y * v.x + m.ey.y * v.y + m.ez.y * 1.0;
    assert m.ez.x * 1.0 == m.ez.x && m.ez.y * 1.0 == m.ez.y;
  }

  /**
   * `translate(t)` moves every transformed point by `(t.x, t.y)`; after `setTranslate(t)`
   * the origin is sent to `(t.x, t.y)`. Neither touches `ex` or `ey`.
   */
  lemma TranslationActsOnPoints(m: M33, t: Vec3Like, v: V2.Vec2Like)
    ensures ApplyPoint(Translated(m, t), v) == V2.Sum(ApplyPoint(m, v), V2.Vec2Like(t.x, t.y))
    ensures ApplyPoint(WithTranslation(m, t), V2.Zero) == V2.Vec2Like(t.x, t.y)
    ensures Translated(m, t).ex == m.ex && Translated(m, t).ey == m.ey
    ensures WithTranslation(m, t).ex == m.ex && WithTranslation(m, t).ey == m.ey
  {
  }

  /** `transpose` is an involution and keeps the determinant. */
  lemma TransposeProperties(m: M33)
    ensures Transposed(Transposed(m)) == m
    ensures Det(Transposed(m)) == Det(m)
  {
  }

  /** `scale(s)` is the product `diag(s) * m`; `makeScale(1, 1, 1)` is the identity. */
  lemma RowScaledIsProduct(m: M33, s: Vec3Like)
    ensures RowScaled(m, s) == Product(ScaleMatrix(s), m)
    ensures ScaleMatrix(Vec3Like(1.0, 1.0, 1.0)) == Identity
  {
  }

  /** The fixtures of the library's tests for `determinant` and `transpose`. */
  lemma DetExample()
    ensures Det(M33(Vec3Like(1.0, 5.0, 8.0), Vec3Like(3.0, 4.0, 9.0), Vec3Like(2.0, 6.0, 7.0))) == 39.0
    ensures Transposed(M33(Vec3Like(1.0, 5.0, 8.0), Vec3Like(3.0, 4.0, 9.0), Vec3Like(2.0, 6.0, 7.0)))
         == M33(Vec3Like(1.0, 3.0, 2.0), Vec3Like(5.0, 4.0, 6.0), Vec3Like(8.0, 9.0, 7.0))
  {
    assert Det(M33(Vec3Like(1.0, 5.0, 8.0), Vec3Like(3.0, 4.0, 9.0), Vec3Like(2.0, 6.0, 7.0)))
        == 1.0 * (7.0 * 4.0 - 6.0 * 9.0) + 3.0 * (-7.0 * 5.0 + 6.0 * 8.0) + 2.0 * (9.0 * 5.0 - 4.0 * 8.0);
  }

  /** The fixture of the library's test for `inverse`. */
  lemma InverseExample()
    ensures Inverse(M33(Vec3Like(1.0, -2.0, -1.0), Vec3Like(1.0, -1.0, -2.0), Vec3Like(-1.0, 1.0, 1.0)))
         == Some(M33(Vec3Like(-1.0, -1.0, -3.0), Vec3Like(-1.0, 0.0, -1.0), Vec3Like(0.0, -1.0, -1.0)))
  {
    var m := M33(Vec3Like(1.0, -2.0, -1.0), Vec3Like(1.0, -1.0, -2.0), Vec3Like(-1.0, 1.0, 1.0));
    assert Det(m) == 1.0 * (1.0 * -1.0 - 1.0 * -2.0) + 1.0 * (-1.0 * -2.0 + 1.0 * -1.0)
                     + -1.0 * (-2.0 * -2.0 - -1.0 * -1.0);
    assert Adjugate(m) == M33(Vec3Like(1.0, 1.0, 3.0), Vec3Like(1.0, 0.0, 1.0), Vec3Like(0.0, 1.0, 1.0));
  }
}

/**
 * The `Mat33` class: a 3x3 matrix held as three mutable `Vec3` columns, whose mutating
 * members overwrite the columns' components in place and return the receiver.
 */
module Matrix33 {
  import opened Options
  import V2 = Vec2Algebra
  import opened Vec3Algebra
  import opened Mat33Algebra
  import Vector2
  import opened Vector3

  class Mat33 {
    /** The first column. The library never replaces the column objects, only their components. */
    const ex: Vec3
    /** The second column. */
    const ey: Vec3
    /** The third column, the translation when the matrix is applied to 2D points. */
    const ez: Vec3

    /** The three columns are distinct objects, as every constructor makes them. */
    predicate Valid()
      reads this
    {
      ex != ey && ey != ez && ex != ez
    }

    /** The matrix the columns currently hold. */
    function Value(): M33
      reads ex, ey, ez
    {
      M33(ex.Value(), ey.Value(), ez.Value())
    }

    /**
     * `new Mat33(ex, ey, ez)`: copies of the given columns; a missing column defaults to
     * the corresponding column of the identity.
     */
    constructor (ex0: Option<Vec3Like>, ey0: Option<Vec3Like>, ez0: Option<Vec3Like>)
      ensures Valid() && fresh(ex) && fresh(ey) && fresh(ez)
      ensures Value() == M33(ex0.GetOr(Identity.ex), ey0.GetOr(Identity.ey), ez0.GetOr(Identity.ez))
    {
      ex := new Vec3.FromLike(Some(ex0.GetOr(Identity.ex)));
      ey := new Vec3.FromLike(Some(ey0.GetOr(Identity.ey)));
      ez := new Vec3.FromLike(Some(ez0.GetOr(Identity.ez)));
    }

    method Clone() returns (r: Mat33)
      ensures r.Valid() && fresh(r) && fresh(r.ex) && fresh(r.ey) && fresh(r.ez) && r.Value() == Value()
    {
      r := new Mat33(Some(ex.Value()), Some(ey.Value()), Some(ez.Value()));
    }

    /** `equal`: exact comparison of the three columns. */
    function Equal(m: Mat33): (r: bool)
      reads ex, ey, ez, m.ex, m.ey, m.ez
      ensures r <==> Value() == m.Value()
    {
      ex.Equal(m.ex.Value()) && ey.Equal(m.ey.Value()) && ez.Equal(m.ez.Value())
    }

    /** `mul(m)`: the receiver becomes `this * m`; `m` may be the receiver itself. */
    method Mul(m: Mat33) returns (r: Mat33)
      requires Valid()
      modifies ex, ey, ez
      ensures r == this && Value() == Product(old(Value()), old(m.Value()))
    {
      var c1 := Apply(Value(), m.ex.Value());
      var c2 := Apply(Value(), m.ey.Value());
      var c3 := Apply(Value(), m.ez.Value());
      assert Product(Value(), m.Value()) == M33(c1, c2, c3);
      ex.x := c1.x;
      ex.y := c1.y;
      ex.z := c1.z;
      ey.x := c2.x;
      ey.y := c2.y;
      ey.z := c2.z;
      ez.x := c3.x;
      ez.y := c3.y;
      ez.z := c3.z;
      r := this;
    }

    function Determinant(): (r: real)
      reads ex, ey, ez
      ensures r == Det(Value())
    {
      var m00, m01, m02 := ex.x, ey.x, ez.x;
      var m10, m11, m12 := ex.y, ey.y, ez.y;
      var m20, m21, m22 := ex.z, ey.z, ez.z;
      var det01 := m22 * m11 - m12 * m21;
      var det11 := -m22 * m10 + m12 * m20;
      var det21 := m21 * m10 - m11 * m20;
      m00 * det01 + m01 * det11 + m02 * det21
    }

    /** `transpose`: swaps the three pairs of off-diagonal entries. */
    method Transpose() returns (r: Mat33)
      requires Valid()
      modifies ex, ey, ez
      ensures r == this && Value() == Transposed(old(Value()))
    {
      var tmp1, tmp2, tmp3 := ey.x, ez.x, ez.y;
      ey.x := ex.y;
      ez.x := ex.z;
      ez.y := ey.z;
      ex.y := tmp1;
      ex.z := tmp2;
      ey.z := tmp3;
      r := this;
    }

    /**
     * `inverse`: when the determinant is exactly zero, returns nothing and leaves the
     * matrix unchanged; otherwise turns the receiver into its inverse and returns it.
     */
    method Inverse() returns (r: Option<Mat33>)
      requires Valid()
      modifies ex, ey, ez
      ensures r.None? <==> Det(old(Value())) == 0.0
      ensures r.None? ==> Value() == old(Value())
      ensures r.Some? ==> r.value == this && Some(Value()) == Mat33Algebra.Inverse(old(Value()))
    {
      var det := Determinant();
      if det == 0.0 {
        return None;
      }
      var m00, m01, m02 := ex.x, ey.x, ez.x;
      var m10, m11, m12 := ex.y, ey.y, ez.y;
      var m20, m21, m22 := ex.z, ey.z, ez.z;
      InverseEntries(m00, m01, m02, m10, m11, m12, m20, m21, m22, det);
      var n00, n10, n20 := (m11 * m22 - m12 * m21) / det, -(m10 * m22 - m12 * m20) / det, (m10 * m21 - m11 * m20) / det;
      var n01, n11, n21 := -(m01 * m22 - m02 * m21) / det, (m00 * m22 - m02 * m20) / det, -(m00 * m21 - m01 * m20) / det;
      var n02, n12, n22 := (m01 * m12 - m02 * m11) / det, -(m00 * m12 - m02 * m10) / det, (m00 * m11 - m01 * m10) / det;
      ex.x := n00;
      ex.y := n10;
      ex.z := n20;
      ey.x := n01;
      ey.y := n11;
      ey.z := n21;
      ez.x := n02;
      ez.y := n12;
      ez.z := n22;
      r := Some(this);
    }

    method SetIdentity() returns (r: Mat33)
      requires Valid()
      modifies ex, ey, ez
      ensures r == this && Value() == Identity
    {
      ex.x, ex.y, ex.z := 1.0, 0.0, 0.0;
      ey.x, ey.y, ey.z := 0.0, 1.0, 0.0;
      ez.x, ez.y, ez.z := 0.0, 0.0, 1.0;
      r := this;
    }

    /** `rotateZ(angle)`, given the cosine `c` and sine `s` of `angle`. */
    method RotateZ(c: real, s: real) returns (r: Mat33)
      requires Valid()
      modifies ex, ey
      ensures r == this && Value() == ZRotated(old(Value()), c, s)
    {
      var m11, m21, m12, m22 := ex.x, ex.y, ey.x, ey.y;
      ex.x := c * m11 - s * m21;
      ex.y := s * m11 + c * m21;
      ey.x := c * m12 - s * m22;
      ey.y := s * m12 + c * m22;
      r := this;
    }

    /** `scale(s)`: rows 1, 2, 3 are multiplied by `s.x`, `s.y`, `s.z`. */
    method Scale(s: Vec3Like) returns (r: Mat33)
      requires Valid()
      modifies ex, ey, ez
      ensures r == this && Value() == RowScaled(old(Value()), s)
    {
      var m11, m21, m31 := ex.x, ex.y, ex.z;
      var m12, m22, m32 := ey.x, ey.y, ey.z;
      var m13, m23, m33 := ez.x, ez.y, ez.z;
      assert RowScaled(Value(), s) == M33(Vec3Like(s.x * m11, s.y * m21, s.z * m31),
        Vec3Like(s.x * m12, s.y * m22, s.z * m32), Vec3Like(s.x * m13, s.y * m23, s.z * m33));
      ex.x, ex.y, ex.z := s.x * m11, s.y * m21, s.z * m31;
      ey.x, ey.y, ey.z := s.x * m12, s.y * m22, s.z * m32;
      ez.x, ez.y, ez.z := s.x * m13, s.y * m23, s.z * m33;
      r := this;
    }

    /** `translate(t)`: adds `t` to the column `ez`. */
    method Translate(t: Vec3Like) returns (r: Mat33)
      requires Valid()
      modifies ez
      ensures r == this && Value() == Translated(old(Value()), t)
    {
      ez.x := ez.x + t.x;
      ez.y := ez.y + t.y;
      ez.z := ez.z + t.z;
      r := this;
    }

    /** `setTranslate(t)`: overwrites the column `ez` with `t`. */
    method SetTranslate(t: Vec3Like) returns (r: Mat33)
      requires Valid()
      modifies ez
      ensures r == this && Value() == WithTranslation(old(Value()), t)
    {
      ez.x := t.x;
      ez.y := t.y;
      ez.z := t.z;
      r := this;
    }

    /** `mulVec2(v)`: the transformed point in a new vector. */
    method MulVec2(v: V2.Vec2Like) returns (r: Vector2.Vec2)
      ensures fresh(r) && r.Value() == ApplyPoint(Value(), v)
    {
      var x := ex.x * v.x + ey.x * v.y + ez.x;
      var y := ex.y * v.x + ey.y * v.y + ez.y;
      r := new Vector2.Vec2(x, y);
    }

    /** `mulVec2(v, out)`: the transformed point written into `out`, which is returned. */
    method MulVec2Into(v: V2.Vec2Like, out: Vector2.Vec2) returns (r: Vector2.Vec2)
      modifies out
      ensures r == out && out.Value() == ApplyPoint(old(Value()), v)
      ensures Value() == old(Value())
    {
      var x := ex.x * v.x + ey.x * v.y + ez.x;
      var y := ex.y * v.x + ey.y * v.y + ez.y;
      out.x := x;
      out.y := y;
      r := out;
    }

    /** `mulVec3(v)`: the product in a new vector. */
    method MulVec3(v: Vec3Like) returns (r: Vec3)
      ensures fresh(r) && r.Value() == Apply(Value(), v)
    {
      var x := ex.x * v.x + ey.x * v.y + ez.x * v.z;
      var y := ex.y * v.x + ey.y * v.y + ez.y * v.z;
      var z := ex.z * v.x + ey.z * v.y + ez.z * v.z;
      r := new Vec3(x, y, z);
    }

    /**
     * `mulVec3(v, out)`: the product written into `out`, which is returned. The matrix
     * keeps its value unless `out` is one of its own columns.
     */
    method MulVec3Into(v: Vec3Like, out: Vec3) returns (r: Vec3)
      modifies out
      ensures r == out && out.Value() == Apply(old(Value()), v)
      ensures out != ex && out != ey && out != ez ==> Value() == old(Value())
    {
      var x := ex.x * v.x + ey.x * v.y + ez.x * v.z;
      var y := ex.y * v.x + ey.y * v.y + ez.y * v.z;
      var z := ex.z * v.x + ey.z * v.y + ez.z * v.z;
      out.x := x;
      out.y := y;
      out.z := z;
      r := out;
    }
  }

  /** Static `Mat33.makeScale(s)`: a new diagonal matrix. */
  method MakeScale(s: Vec3Like) returns (r: Mat33)
    ensures r.Valid() && fresh(r) && fresh(r.ex) && fresh(r.ey) && fresh(r.ez) && r.Value() == ScaleMatrix(s)
  {
    r := new Mat33(Some(Vec3Like(s.x, 0.0, 0.0)), Some(Vec3Like(0.0, s.y, 0.0)), Some(Vec3Like(0.0, 0.0, s.z)));
  }
}
