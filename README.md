# collision-js in Dafny

A model of the exact-arithmetic core of collision-js, a small 2D collision library, with
proofs about that model. The core has four parts:

- **Interval helpers** (`utils.ts`): `clamp` and the closed-interval `overlap`.
- **Vector and matrix kernel** (`Vec2`, `Vec3`, `Mat22`, `Mat33`). Each class is a Dafny
  `class` whose mutating members overwrite its fields and return the receiver.
- **Pairwise intersection tests** (`intersect.ts`). These are side-of-line tests, corner
  accessors, AABB enlargement, and the AABB, circle, line, segment, point and polygon
  predicates.
- **GJK engine** (`gjk.ts`). This covers the support functions, the simplex that
  `addSupport` appends to and `evolveSimplex` prunes, and the `gjkTest` loop.

Numbers are `real`. Square roots and trigonometry are never computed:

- A length is passed in as a parameter that is characterised by its square. This is the
  value `length() || 1` that `normalize` divides by.
- An angle is passed in as its cosine and sine.

Each module has a `…Algebra` or value-level part and a class part. The value-level part
says, as functions on values, what each mutating member leaves behind. The class
members are proved against those functions, and the properties the library promises are
proved about the functions.

Files:

- `options.dfy`: the `Option` type used for `null` results.
- `utils.dfy`: module `Utils`.
- `vec2.dfy`: modules `Vec2Algebra` and `Vector2`.
- `vec3.dfy`: modules `Vec3Algebra` and `Vector3`.
- `mat22.dfy`: modules `Mat22Algebra` and `Matrix22`.
- `mat33.dfy`: modules `Mat33Algebra` and `Matrix33`.
- `shapes.dfy`: the shape records `Line`, `Segment`, `AABB`, `Box`, `Circle`, `Polygon`
  and `Contact`.
- `intersect.dfy`: module `Intersect`.
- `gjk.dfy`: module `Gjk`.

Where the code and its documentation disagree, the model follows the code.
`Mat33.mulVec2` is documented as treating the missing third coordinate as 0, but the code
adds the `ez` column, so it uses 1.

In the one-vertex case, `evolveSimplex` searches along `s1.position - s2.position`
(gjk.ts:152-153), not along the negated simplex point that textbook GJK uses. The model
follows the code.

Two behaviours of the code give wrong answers for some inputs. The model keeps them as
written and proves them, and "## Findings" below pairs each with a corrected definition:

- `gjkTest` never reports two shapes given at the same position, however much they
  overlap. The first search direction `s2.position - s1.position` is then zero, and no
  support point lies strictly ahead of a zero direction, so the run stops on
  `no-intersection` (`Gjk.SamePositionMisses`).
- `segmentToSegment` reports a zero-length first segment anywhere on the line through the
  second segment, even outside that segment (`Intersect.PointOffSegmentReported`). For a
  first segment of non-zero length the answer is exact (`Intersect.SegmentToSegmentMeets`).

## Model

| member | source | states |
|---|---|---|
| `Utils.Clamp` | src/math/utils.ts:9-11 | for `min <= max` the result lies in `[min, max]`; it is `val` when `val` is in range, `min` below it, `max` above it; with an inverted range `min` wins |
| `Utils.ClampIdempotent` | src/math/utils.ts:9-11 | clamping an already clamped value changes nothing |
| `Utils.ClampExamples` | src/__tests__/math/UtilsSpec.ts:4-8 | the three test cases: 3, -8 and 12 clamped to `[-5, 10]` give 3, -5 and 10 |
| `Utils.Overlap` | src/math/utils.ts:23-25 | true iff `bMin <= aMax && aMin <= bMax`, so intervals that only touch overlap |
| `Utils.OverlapSymmetric` | src/math/utils.ts:23-25 | swapping the two intervals does not change the answer |
| `Utils.OverlapIffCommonPoint` | src/math/utils.ts:23-25 | for non-empty intervals, overlap holds iff some number lies in both |
| `Utils.OverlapScaled` | src/math/utils.ts:23-25 | scaling every end point by the same positive factor does not change the answer |
| `Vec2Algebra.Dot` | src/math/Vec2.ts:66-68 | definition of the static `dot`; its properties are the rows `Vec2Algebra.DotSymmetric` and `Vec2Algebra.Lagrange` |
| `Vec2Algebra.Cross` | src/math/Vec2.ts:76-78 | definition of the static `cross`; its properties are the rows `Vec2Algebra.CrossAntisymmetric` and `Vec2Algebra.Lagrange` |
| `Vec2Algebra.Parallel` | src/math/Vec2.ts:89-91 | definition of the static `parallel`, `Math.abs(dot) >= threshold`; its properties are the row `Vec2Algebra.ParallelUnit` |
| `Vec2Algebra.LengthSq` | src/math/Vec2.ts:271-273 | definition of `squaredLength`; its properties are the rows `Vec2Algebra.Lagrange`, `Vec2Algebra.RotatedIsometry` and `Vec2Algebra.NormalizedUnit` |
| `Vec2Algebra.Sum` | src/math/Vec2.ts:42-46 | definition of what `add` leaves; its property is the row `Vec2Algebra.SumDifferenceInverse` |
| `Vec2Algebra.Difference` | src/math/Vec2.ts:54-58 | definition of what `sub` leaves; its property is the row `Vec2Algebra.SumDifferenceInverse` |
| `Vec2Algebra.Scaled` | src/math/Vec2.ts:195-199 | definition of what `scale` leaves; the class member is the row `Vector2.Vec2.Scale` |
| `Vec2Algebra.Hadamard` | src/math/Vec2.ts:206-210 | definition of what `mul` leaves; its fixture is the row `Vec2Algebra.ArithmeticExamples` |
| `Vec2Algebra.Negated` | src/math/Vec2.ts:297-301 | definition of what `negate` leaves; its property is the row `Vec2Algebra.RotationsInverse` |
| `Vec2Algebra.Rotated90` | src/math/Vec2.ts:359-365 | definition of what `rotate90` leaves; its properties are the rows `Vec2Algebra.RotationsInverse` and `Vec2Algebra.QuarterTurns` |
| `Vec2Algebra.Rotated270` | src/math/Vec2.ts:370-376 | definition of what `rotate270` leaves; its properties are the rows `Vec2Algebra.RotationsInverse` and `Vec2Algebra.QuarterTurns` |
| `Vec2Algebra.Rotated` | src/math/Vec2.ts:344-354 | definition of what `rotate` leaves for a cosine and a sine; its properties are the rows `Vec2Algebra.RotatedIsometry` and `Vec2Algebra.QuarterTurns` |
| `Vec2Algebra.Signs` | src/math/Vec2.ts:333-337 | definition of what `sign` leaves; its properties are the rows `Vec2Algebra.SignOf` and `Vec2Algebra.SignsIdempotent` |
| `Vec2Algebra.Projection` | src/math/Vec2.ts:235-245 | definition of what `project` leaves; its properties are the rows `Vec2Algebra.ProjectionParallel` and `Vec2Algebra.ProjectionIdempotent` |
| `Vec2Algebra.Rejection` | src/math/Vec2.ts:252-255 | definition of what `reject` leaves; its property is the row `Vec2Algebra.RejectionOrthogonal` |
| `Vec2Algebra.Reflection` | src/math/Vec2.ts:262-266 | definition of what `reflect` leaves; its property is the row `Vec2Algebra.ReflectionIsometry` |
| `Vec2Algebra.Normalized` | src/math/Vec2.ts:285-292 | definition of what `normalize` leaves; its property is the row `Vec2Algebra.NormalizedUnit` |
| `Vec2Algebra.Equal` | src/math/Vec2.ts:32-34 | exact componentwise equality is value equality |
| `Vec2Algebra.Floored` | src/math/Vec2.ts:315-319 | each component becomes the greatest integer not above it |
| `Vec2Algebra.Ceiling` | src/math/Vec2.ts:324-328 | `Math.ceil`: the least integer not below `t` |
| `Vec2Algebra.Ceiled` | src/math/Vec2.ts:324-328 | each component becomes the least integer not below it |
| `Vec2Algebra.NearestInteger` | src/math/Vec2.ts:306-310 | `Math.round`: an integer within half a unit of `t`, with a half going up |
| `Vec2Algebra.Rounded` | src/math/Vec2.ts:306-310 | each component becomes an integer within half a unit of it, a half going up |
| `Vec2Algebra.SignOf` | src/math/Vec2.ts:333-337 | `Math.sign`: 1 exactly for positive, -1 exactly for negative, 0 exactly for zero |
| `Vec2Algebra.IntegerFixed` | src/math/Vec2.ts:306-328 | an integer is a fixed point of `round`, `floor` and `ceil` |
| `Vec2Algebra.RoundingIdempotent` | src/math/Vec2.ts:306-328 | `round`, `floor` and `ceil` are idempotent |
| `Vec2Algebra.SignsIdempotent` | src/math/Vec2.ts:333-337 | `sign` is idempotent, and a component times its sign is its absolute value |
| `Vec2Algebra.RoundingExamples` | src/__tests__/math/Vec2Spec.ts:137-163 | `(2.4, -4.7)` rounds to `(2, -5)`, floors to `(2, -5)` and ceils to `(3, -4)`; `(2.4, 0)` signs to `(1, 0)` |
| `Vec2Algebra.SumDifferenceInverse` | src/math/Vec2.ts:173-188 | adding then subtracting the same vector restores the value, and the other way round |
| `Vec2Algebra.DotSymmetric` | src/math/Vec2.ts:66-68 | `dot(v, w) == dot(w, v)` |
| `Vec2Algebra.CrossAntisymmetric` | src/math/Vec2.ts:76-78 | `cross(v, w) == -cross(w, v)` and `cross(v, v) == 0` |
| `Vec2Algebra.ArithmeticExamples` | src/__tests__/math/Vec2Spec.ts:85-99 | the test fixtures: `cross((1,0),(0,1)) == 1`, `dot((1,0),(0,1)) == 0`, `(1,2)·(2,4) == 10`, `(1,2).mul(3,-4) == (3,-8)` |
| `Vec2Algebra.ReflectionExample` | src/__tests__/math/Vec2Spec.ts:109-111 | reflecting `(1,-1)` about `(0,1)` gives `(1,1)` |
| `Vec2Algebra.ProjectionExample` | src/__tests__/math/Vec2Spec.ts:101-107 | projecting `(1,4)` on `(1,0)` gives `(1,0)`, rejecting gives `(0,4)` |
| `Vec2Algebra.ParallelUnit` | src/math/Vec2.ts:89-91 | for a unit vector the default threshold 1 finds it parallel to itself and its negation; a quarter turn of it is parallel only for thresholds up to 0 |
| `Vec2Algebra.RotationsInverse` | src/math/Vec2.ts:359-376 | `rotate90` and `rotate270` undo each other; two quarter turns negate; `negate` is an involution |
| `Vec2Algebra.RotatedIsometry` | src/math/Vec2.ts:344-354 | for a genuine cosine/sine pair, `rotate` keeps the squared length and rotating back undoes it |
| `Vec2Algebra.QuarterTurns` | src/math/Vec2.ts:359-376 | `rotate270` is `rotate` by a quarter turn, `rotate90` by minus a quarter turn |
| `Vec2Algebra.Lagrange` | src/math/Vec2.ts:66-78 | `dot^2 + cross^2 == |v|^2 |w|^2` |
| `Vec2Algebra.ProjectionParallel` | src/math/Vec2.ts:235-245 | for a non-zero `v` the projection is parallel to `v`; for a zero `v` the receiver is unchanged |
| `Vec2Algebra.ProjectionIdempotent` | src/math/Vec2.ts:235-245 | projecting twice on the same vector equals projecting once |
| `Vec2Algebra.RejectionOrthogonal` | src/math/Vec2.ts:252-255 | the rejection from a non-zero `v` is orthogonal to `v`; projection plus rejection is the original |
| `Vec2Algebra.ReflectionIsometry` | src/math/Vec2.ts:262-266 | for a unit normal, `reflect` keeps the squared length and applying it twice restores the vector |
| `Vec2Algebra.NormalizedUnit` | src/math/Vec2.ts:285-292 | with the length it computes, `normalize` makes a non-zero vector a unit vector pointing the same way and leaves zero at zero |
| `Vector2.Vec2.constructor` | src/math/Vec2.ts:114-123 | `new Vec2(x, y)` holds `(x, y)` |
| `Vector2.Vec2.FromLike` | src/math/Vec2.ts:114-123 | `new Vec2(v)` copies `v`; `new Vec2()` is the zero vector |
| `Vector2.Vec2.Copy` | src/math/Vec2.ts:130-134 | the receiver now holds `v`; returns the receiver |
| `Vector2.Vec2.Clone` | src/math/Vec2.ts:139-141 | a new vector with the same value |
| `Vector2.Vec2.Equal` | src/math/Vec2.ts:150-152 | true iff the receiver's value equals `v` |
| `Vector2.Vec2.Parallel` | src/math/Vec2.ts:164-166 | agrees with the static `parallel` on the receiver's value |
| `Vector2.Vec2.Add` | src/math/Vec2.ts:173-177 | the receiver becomes the sum; returns the receiver |
| `Vector2.Vec2.Sub` | src/math/Vec2.ts:184-188 | the receiver becomes the difference; returns the receiver |
| `Vector2.Vec2.Scale` | src/math/Vec2.ts:195-199 | the receiver is scaled by `s`; returns the receiver |
| `Vector2.Vec2.Mul` | src/math/Vec2.ts:206-210 | the receiver becomes the componentwise product; returns the receiver |
| `Vector2.Vec2.Dot` | src/math/Vec2.ts:217-219 | agrees with the static `dot` on the receiver's value |
| `Vector2.Vec2.Cross` | src/math/Vec2.ts:226-228 | agrees with the static `cross` on the receiver's value |
| `Vector2.Vec2.Project` | src/math/Vec2.ts:235-245 | the receiver becomes its projection on `v`, or stays as is for a zero `v` |
| `Vector2.Vec2.Reject` | src/math/Vec2.ts:252-255 | the receiver becomes its rejection from `v`; the temporary clone does not alias it |
| `Vector2.Vec2.Reflect` | src/math/Vec2.ts:262-266 | the receiver becomes its reflection about `n` |
| `Vector2.Vec2.SquaredLength` | src/math/Vec2.ts:271-273 | the squared length of the value, never negative |
| `Vector2.Vec2.Normalize` | src/math/Vec2.ts:285-292 | the receiver is divided by its length, or by 1 when that is zero |
| `Vector2.Vec2.Negate` | src/math/Vec2.ts:297-301 | the receiver is negated |
| `Vector2.Vec2.Floor` | src/math/Vec2.ts:315-319 | each component is floored |
| `Vector2.Vec2.Round` | src/math/Vec2.ts:306-310 | each component is rounded to the nearest integer, halves up |
| `Vector2.Vec2.Sign` | src/math/Vec2.ts:333-337 | each component becomes its sign |
| `Vector2.Vec2.Ceil` | src/math/Vec2.ts:324-328 | each component is raised to an integer |
| `Vector2.Vec2.Rotate` | src/math/Vec2.ts:344-354 | the receiver is rotated by the angle with the given cosine and sine, reading both old components first |
| `Vector2.Vec2.Rotate90` | src/math/Vec2.ts:359-365 | `(x, y)` becomes `(y, -x)` |
| `Vector2.Vec2.Rotate270` | src/math/Vec2.ts:370-376 | `(x, y)` becomes `(-y, x)` |
| `Vector2.Copy` | src/math/Vec2.ts:18-22 | static `copy` overwrites only its first argument with the second and returns it |
| `Vector2.Add` | src/math/Vec2.ts:42-46 | static `add` adds into its first argument and returns it |
| `Vector2.Sub` | src/math/Vec2.ts:54-58 | static `sub` subtracts from its first argument and returns it |
| `Vector2.AddSubRoundTrip` | src/math/Vec2.ts:173-188 | chaining `add(w).sub(w)` leaves the receiver as it was |
| `Vec3Algebra.Dot` | src/math/Vec3.ts:69-71 | definition of the static `dot`; its property is the row `Vec3Algebra.DotSymmetric` |
| `Vec3Algebra.Cross` | src/math/Vec3.ts:79-85 | definition of the static `cross`; its properties are the rows `Vec3Algebra.CrossProperties` and `Vec3Algebra.CrossExample` |
| `Vec3Algebra.Parallel` | src/math/Vec3.ts:96-98 | definition of the static `parallel`; its property is the row `Vec3Algebra.ParallelUnit` |
| `Vec3Algebra.LengthSq` | src/math/Vec3.ts:290-292 | definition of `squaredLength`; its properties are the isometry rows below |
| `Vec3Algebra.Sum` | src/math/Vec3.ts:43-48 | definition of what `add` leaves; its property is the row `Vec3Algebra.SumDifferenceInverse` |
| `Vec3Algebra.Difference` | src/math/Vec3.ts:56-61 | definition of what `sub` leaves; its property is the row `Vec3Algebra.SumDifferenceInverse` |
| `Vec3Algebra.Scaled` | src/math/Vec3.ts:212-217 | definition of what `scale` leaves; its property is the row `Vec3Algebra.NegatedInvolution` |
| `Vec3Algebra.Negated` | src/math/Vec3.ts:315-320 | definition of what `negate` leaves; its property is the row `Vec3Algebra.NegatedInvolution` |
| `Vec3Algebra.Projection` | src/math/Vec3.ts:246-260 | definition of what `project` leaves; its property is the row `Vec3Algebra.ProjectionParallel` |
| `Vec3Algebra.Rejection` | src/math/Vec3.ts:267-270 | definition of what `reject` leaves; its property is the row `Vec3Algebra.RejectionOrthogonal` |
| `Vec3Algebra.Reflection` | src/math/Vec3.ts:277-285 | definition of what `reflect` leaves; its property is the row `Vec3Algebra.ReflectionIsometry` |
| `Vec3Algebra.Normalized` | src/math/Vec3.ts:304-310 | definition of what `normalize` leaves; its property is the row `Vec3Algebra.NormalizedUnit` |
| `Vec3Algebra.AboutXRotated` | src/math/Vec3.ts:327-337 | definition of what `rotateX` leaves for a cosine and a sine; its property is the row `Vec3Algebra.XRotatedIsometry` |
| `Vec3Algebra.AboutYRotated` | src/math/Vec3.ts:344-354 | definition of what `rotateY` leaves; its property is the row `Vec3Algebra.YRotatedIsometry` |
| `Vec3Algebra.AboutZRotated` | src/math/Vec3.ts:361-371 | definition of what `rotateZ` leaves; its property is the row `Vec3Algebra.ZRotatedIsometry` |
| `Vec3Algebra.Equal` | src/math/Vec3.ts:33-35 | exact componentwise equality is value equality |
| `Vec3Algebra.SumDifferenceInverse` | src/math/Vec3.ts:188-205 | adding then subtracting the same vector restores the value, and the other way round |
| `Vec3Algebra.DotSymmetric` | src/math/Vec3.ts:69-71 | `dot` is symmetric |
| `Vec3Algebra.CrossProperties` | src/math/Vec3.ts:79-85 | the cross product is orthogonal to both arguments, antisymmetric, and zero on equal arguments |
| `Vec3Algebra.CrossExample` | src/__tests__/math/Vec3Spec.ts:193-198 | `(1,2,3) x (4,5,6) == (-3, 6, -3)` |
| `Vec3Algebra.NegatedInvolution` | src/math/Vec3.ts:315-320 | negating twice restores the vector; negating is scaling by -1 |
| `Vec3Algebra.ProjectionParallel` | src/math/Vec3.ts:246-260 | for a non-zero `v` the projection has zero cross product with `v`; for a zero `v` the receiver is unchanged |
| `Vec3Algebra.RejectionOrthogonal` | src/math/Vec3.ts:267-270 | the rejection from a non-zero `v` is orthogonal to `v`; projection plus rejection is the original |
| `Vec3Algebra.ReflectionIsometry` | src/math/Vec3.ts:277-285 | for a unit normal, `reflect` keeps the squared length and is an involution |
| `Vec3Algebra.NormalizedUnit` | src/math/Vec3.ts:304-310 | with the length it computes, `normalize` makes a non-zero vector a unit vector and leaves zero at zero |
| `Vec3Algebra.ParallelUnit` | src/math/Vec3.ts:96-98 | for a unit vector the default threshold 1 finds it parallel to itself and to its negation |
| `Vec3Algebra.PlaneRotation` | src/math/Vec3.ts:327-372 | a turn of one coordinate plane keeps the sum of squares there and is undone by the opposite sine |
| `Vec3Algebra.XRotatedIsometry` | src/math/Vec3.ts:327-337 | for a genuine cosine/sine pair `rotateX` keeps `x` and the squared length, and turning back undoes it |
| `Vec3Algebra.YRotatedIsometry` | src/math/Vec3.ts:344-354 | the same for `rotateY`, which keeps `y` |
| `Vec3Algebra.ZRotatedIsometry` | src/math/Vec3.ts:361-371 | the same for `rotateZ`, which keeps `z` |
| `Vec3Algebra.AxisRotationExamples` | src/__tests__/math/Vec3Spec.ts:148-170 | quarter turns: `(0,1,2)` about x gives `(0,-2,1)`, `(2,0,1)` about y gives `(1,0,-2)`, `(1,2,0)` about z gives `(-2,1,0)` |
| `Vector3.Vec3.constructor` | src/math/Vec3.ts:125-136 | `new Vec3(x, y, z)` holds `(x, y, z)` |
| `Vector3.Vec3.FromLike` | src/math/Vec3.ts:125-136 | `new Vec3(v)` copies `v`; `new Vec3()` is the zero vector |
| `Vector3.Vec3.Copy` | src/math/Vec3.ts:143-148 | the receiver now holds `v`; returns the receiver |
| `Vector3.Vec3.Clone` | src/math/Vec3.ts:154-156 | a new vector with the same value |
| `Vector3.Vec3.Equal` | src/math/Vec3.ts:165-167 | true iff the receiver's value equals `v` |
| `Vector3.Vec3.Parallel` | src/math/Vec3.ts:179-181 | agrees with the static `parallel` on the receiver's value |
| `Vector3.Vec3.Add` | src/math/Vec3.ts:188-193 | all three components updated: the receiver becomes the sum |
| `Vector3.Vec3.Sub` | src/math/Vec3.ts:200-205 | the receiver becomes the difference |
| `Vector3.Vec3.Scale` | src/math/Vec3.ts:212-217 | the receiver is scaled by `s` |
| `Vector3.Vec3.Dot` | src/math/Vec3.ts:224-226 | agrees with the static `dot` on the receiver's value |
| `Vector3.Vec3.Cross` | src/math/Vec3.ts:233-239 | a new vector holding the cross product; the receiver is unchanged |
| `Vector3.Vec3.Project` | src/math/Vec3.ts:246-260 | the receiver becomes its projection on `v`, or stays as is for a zero `v` |
| `Vector3.Vec3.Reject` | src/math/Vec3.ts:267-270 | the receiver becomes its rejection from `v` |
| `Vector3.Vec3.Reflect` | src/math/Vec3.ts:277-285 | the receiver becomes its reflection about `n` |
| `Vector3.Vec3.SquaredLength` | src/math/Vec3.ts:290-292 | the squared length, never negative |
| `Vector3.Vec3.Normalize` | src/math/Vec3.ts:304-310 | the receiver is divided by its length, or by 1 when that is zero |
| `Vector3.Vec3.Negate` | src/math/Vec3.ts:315-320 | the receiver is negated |
| `Vector3.Vec3.RotateX` | src/math/Vec3.ts:327-337 | `y` and `z` are turned by the angle with the given cosine and sine, both read before either is written |
| `Vector3.Vec3.RotateY` | src/math/Vec3.ts:344-354 | `z` and `x` are turned, `y` is kept |
| `Vector3.Vec3.RotateZ` | src/math/Vec3.ts:361-371 | `x` and `y` are turned, `z` is kept |
| `Vector3.Copy` | src/math/Vec3.ts:18-23 | static `copy` overwrites its first argument and returns it |
| `Vector3.Add` | src/math/Vec3.ts:43-48 | static `add` adds into its first argument and returns it |
| `Vector3.Sub` | src/math/Vec3.ts:56-61 | static `sub` subtracts from its first argument and returns it |
| `Vector3.CopyThenEqual` | src/__tests__/math/Vec3Spec.ts:172-174 | after static `copy`, `equal` reports true |
| `Mat22Algebra.Apply` | src/math/Mat22.ts:196-207 | definition of the product `mulVec2` computes; its properties are the rows `Mat22Algebra.IdentityUnit` and `Mat22Algebra.ProductComposes` |
| `Mat22Algebra.Product` | src/math/Mat22.ts:73-85 | definition of what `mul` leaves; its properties are the rows `Mat22Algebra.ProductComposes`, `Mat22Algebra.DetProduct` and `Mat22Algebra.IdentityUnit` |
| `Mat22Algebra.Det` | src/math/Mat22.ts:90-92 | definition of `determinant`; its properties are the rows `Mat22Algebra.DetProduct`, `Mat22Algebra.Inverse` and `Mat22Algebra.RotationDet` |
| `Mat22Algebra.Transposed` | src/math/Mat22.ts:97-102 | definition of what `transpose` leaves; its property is the row `Mat22Algebra.TransposeProperties` |
| `Mat22Algebra.ScaleMatrix` | src/math/Mat22.ts:29-31 | definition of the matrix `makeScale` builds; its property is the row `Mat22Algebra.RowOperationsAreProducts` |
| `Mat22Algebra.RotationMatrix` | src/math/Mat22.ts:18-22 | definition of the matrix `makeRotate` builds; its properties are the rows `Mat22Algebra.RotationDet` and `Mat22Algebra.RowOperationsAreProducts` |
| `Mat22Algebra.RowScaled` | src/math/Mat22.ts:162-177 | definition of what `scale` leaves; its property is the row `Mat22Algebra.RowOperationsAreProducts` |
| `Mat22Algebra.RowRotated` | src/math/Mat22.ts:140-155 | definition of what `rotate` leaves; its property is the row `Mat22Algebra.RowOperationsAreProducts` |
| `Mat22Algebra.Inverse` | src/math/Mat22.ts:109-122 | `null` exactly when the determinant is 0; otherwise a two-sided inverse |
| `Mat22Algebra.InverseIsInverse` | src/math/Mat22.ts:114-121 | the entries `(ey.y, -ex.y, -ey.x, ex.x) / det` form a two-sided inverse |
| `Mat22Algebra.IdentityUnit` | src/math/Mat22.ts:127-133 | the identity is a two-sided unit of the product and fixes every vector |
| `Mat22Algebra.ProductComposes` | src/math/Mat22.ts:73-85 | applying `a * b` is applying `b` and then `a` (column-major product) |
| `Mat22Algebra.DetProduct` | src/math/Mat22.ts:90-92 | the determinant is multiplicative |
| `Mat22Algebra.TransposeProperties` | src/math/Mat22.ts:97-102 | transpose is an involution, keeps the determinant and the diagonal |
| `Mat22Algebra.RowOperationsAreProducts` | src/math/Mat22.ts:140-177 | `scale` and `rotate` multiply on the left by a scale and by a rotation matrix |
| `Mat22Algebra.RotationDet` | src/math/Mat22.ts:18-22 | a rotation matrix has determinant 1 |
| `Mat22Algebra.ArithmeticExamples` | src/__tests__/math/Mat22Spec.ts:34-71 | the test fixtures for `mul`, `mulVec2` and `determinant` (5 for `((2,3),(1,4))`) |
| `Mat22Algebra.InverseExample` | src/__tests__/math/Mat22Spec.ts:82-97 | the inverse of `((2,3),(1,4))` is `((0.8,-0.6),(-0.2,0.4))` |
| `Matrix22.Mat22.constructor` | src/math/Mat22.ts:45-48 | missing columns default to `(1,0)` and `(0,1)`; the columns are fresh |
| `Matrix22.Mat22.Clone` | src/math/Mat22.ts:53-55 | a new matrix with fresh columns and the same value |
| `Matrix22.Mat22.Equal` | src/math/Mat22.ts:64-66 | true iff the two values are equal |
| `Matrix22.Mat22.Mul` | src/math/Mat22.ts:73-85 | the receiver becomes `this * m`, computed from the old entries even when `m` is the receiver |
| `Matrix22.Mat22.Determinant` | src/math/Mat22.ts:90-92 | `ex.x*ey.y - ex.y*ey.x` |
| `Matrix22.Mat22.Transpose` | src/math/Mat22.ts:97-102 | the receiver is transposed |
| `Matrix22.Mat22.Inverse` | src/math/Mat22.ts:109-122 | returns `null` and leaves the matrix unchanged iff the determinant is 0; otherwise the receiver becomes its inverse and is returned |
| `Matrix22.Mat22.SetIdentity` | src/math/Mat22.ts:127-133 | the receiver becomes the identity |
| `Matrix22.Mat22.Rotate` | src/math/Mat22.ts:140-155 | the receiver is multiplied on the left by the rotation |
| `Matrix22.Mat22.Scale` | src/math/Mat22.ts:162-177 | row 1 is scaled by `s.x` and row 2 by `s.y` in both columns |
| `Matrix22.Mat22.MulVec2` | src/math/Mat22.ts:196-207 | without `out`: a new vector holding the product |
| `Matrix22.Mat22.MulVec2Into` | src/math/Mat22.ts:196-207 | with `out`: `out` holds the product and is returned; the matrix is unchanged unless `out` is one of its columns |
| `Matrix22.MakeScale` | src/math/Mat22.ts:29-31 | a fresh diagonal scale matrix |
| `Matrix22.MakeRotate` | src/math/Mat22.ts:18-22 | a fresh rotation matrix for the given cosine and sine |
| `Mat33Algebra.Apply` | src/math/Mat33.ts:312-325 | definition of the product `mulVec3` computes; its properties are the rows `Mat33Algebra.IdentityUnit` and `Mat33Algebra.InverseIsInverse` |
| `Mat33Algebra.ApplyPoint` | src/math/Mat33.ts:282-293 | definition of the homogeneous image `mulVec2` computes; its properties are the rows `Mat33Algebra.ApplyPointIsHomogeneous` and `Mat33Algebra.TranslationActsOnPoints` |
| `Mat33Algebra.Product` | src/math/Mat33.ts:73-95 | definition of what `mul` leaves; its properties are the rows `Mat33Algebra.IdentityUnit`, `Mat33Algebra.InverseIsInverse` and `Mat33Algebra.RowScaledIsProduct` |
| `Mat33Algebra.Det` | src/math/Mat33.ts:100-116 | definition of `determinant` by cofactors of the first row; its properties are the rows `Mat33Algebra.Inverse`, `Mat33Algebra.TransposeProperties` and `Mat33Algebra.DetExample` |
| `Mat33Algebra.Transposed` | src/math/Mat33.ts:121-132 | definition of what `transpose` leaves; its property is the row `Mat33Algebra.TransposeProperties` |
| `Mat33Algebra.Adjugate` | src/math/Mat33.ts:139-168 | definition of the cofactor entries `inverse` divides by the determinant; its property is the row `Mat33Algebra.InverseIsInverse` |
| `Mat33Algebra.ScaleMatrix` | src/math/Mat33.ts:20-26 | definition of the matrix `makeScale` builds; its property is the row `Mat33Algebra.RowScaledIsProduct` |
| `Mat33Algebra.RowScaled` | src/math/Mat33.ts:213-239 | definition of what `scale` leaves; its property is the row `Mat33Algebra.RowScaledIsProduct` |
| `Mat33Algebra.ZRotated` | src/math/Mat33.ts:191-206 | definition of what `rotateZ` leaves; the class member is the row `Matrix33.Mat33.RotateZ` |
| `Mat33Algebra.Translated` | src/math/Mat33.ts:246-251 | definition of what `translate` leaves; its property is the row `Mat33Algebra.TranslationActsOnPoints` |
| `Mat33Algebra.WithTranslation` | src/math/Mat33.ts:258-263 | definition of what `setTranslate` leaves; its property is the row `Mat33Algebra.TranslationActsOnPoints` |
| `Mat33Algebra.Inverse` | src/math/Mat33.ts:139-168 | `null` exactly when the determinant is 0; otherwise a two-sided inverse |
| `Mat33Algebra.InverseIsInverse` | src/math/Mat33.ts:139-168 | the adjugate divided by the determinant is a two-sided inverse |
| `Mat33Algebra.IdentityUnit` | src/math/Mat33.ts:173-184 | the identity is a two-sided unit and fixes vectors and points |
| `Mat33Algebra.ApplyPointIsHomogeneous` | src/math/Mat33.ts:282-293 | `mulVec2` is the product with `(v.x, v.y, 1)`, so `ez` acts as a translation |
| `Mat33Algebra.TranslationActsOnPoints` | src/math/Mat33.ts:246-263 | `translate` moves every transformed point by `t`; after `setTranslate` the origin maps to `t`; neither touches `ex` or `ey` |
| `Mat33Algebra.TransposeProperties` | src/math/Mat33.ts:121-132 | transpose is an involution and keeps the determinant |
| `Mat33Algebra.RowScaledIsProduct` | src/math/Mat33.ts:213-239 | `scale` multiplies on the left by the diagonal scale matrix; unit scale is the identity |
| `Mat33Algebra.DetExample` | src/__tests__/math/Mat33Spec.ts:164-190 | the fixture's determinant is 39, and its transpose is as the test states |
| `Mat33Algebra.InverseExample` | src/__tests__/math/Mat33Spec.ts:192-220 | the inverse of the test's matrix is the test's answer |
| `Matrix33.Mat33.constructor` | src/math/Mat33.ts:44-48 | missing columns default to the identity's columns; the columns are fresh |
| `Matrix33.Mat33.Clone` | src/math/Mat33.ts:53-55 | a new matrix with fresh columns and the same value |
| `Matrix33.Mat33.Equal` | src/math/Mat33.ts:64-66 | true iff the two values are equal |
| `Matrix33.Mat33.Mul` | src/math/Mat33.ts:73-95 | the receiver becomes `this * m`, computed from the old entries |
| `Matrix33.Mat33.Determinant` | src/math/Mat33.ts:100-116 | the cofactor expansion |
| `Matrix33.Mat33.Transpose` | src/math/Mat33.ts:121-132 | the three off-diagonal pairs are swapped |
| `Matrix33.Mat33.Inverse` | src/math/Mat33.ts:139-168 | returns `null` and leaves the matrix unchanged iff the determinant is 0; otherwise the receiver becomes its inverse and is returned |
| `Matrix33.Mat33.SetIdentity` | src/math/Mat33.ts:173-184 | the receiver becomes the identity |
| `Matrix33.Mat33.RotateZ` | src/math/Mat33.ts:191-206 | the receiver is multiplied on the left by the rotation about z |
| `Matrix33.Mat33.Scale` | src/math/Mat33.ts:213-239 | the rows are scaled by `s.x`, `s.y` and `s.z` |
| `Matrix33.Mat33.Translate` | src/math/Mat33.ts:246-251 | `t` is added to `ez` |
| `Matrix33.Mat33.SetTranslate` | src/math/Mat33.ts:258-263 | `ez` is overwritten with `t`, all three components; `ex` and `ey` are unchanged |
| `Matrix33.Mat33.MulVec2` | src/math/Mat33.ts:282-293 | without `out`: a new vector holding the transformed point |
| `Matrix33.Mat33.MulVec2Into` | src/math/Mat33.ts:282-293 | with `out`: `out` holds the transformed point and is returned; the matrix is unchanged, since `out` is a `Vec2` here and cannot be one of the matrix's `Vec3` columns |
| `Matrix33.Mat33.MulVec3` | src/math/Mat33.ts:312-325 | without `out`: a new vector holding the product |
| `Matrix33.Mat33.MulVec3Into` | src/math/Mat33.ts:312-325 | with `out`: `out` holds the product and is returned |
| `Matrix33.MakeScale` | src/math/Mat33.ts:20-26 | a fresh diagonal scale matrix |
| `Intersect.AreParallel` | src/collision/intersect.ts:23-25 | definition of `areParallel`; its properties are the rows `Intersect.AreParallelProperties` and `Intersect.AreParallelTransitive` |
| `Intersect.WhichSide` | src/collision/intersect.ts:35-39 | definition of `whichSide`; its properties are the rows `Intersect.WhichSideProperties` and `Intersect.WhichSideExamples` |
| `Intersect.AreParallelProperties` | src/collision/intersect.ts:23-25 | parallel iff the cross product is exactly 0; symmetric; every vector is parallel to its multiples and to zero |
| `Intersect.AreParallelTransitive` | src/collision/intersect.ts:23-25 | through a non-zero middle vector, parallelism is transitive |
| `Intersect.WhichSideProperties` | src/collision/intersect.ts:35-39 | `whichSide` is `cross(direction, p - position)`; it is 0 on the line, unchanged by sliding along the direction, opposite for mirrored offsets |
| `Intersect.WhichSideExamples` | src/__tests__/collision/intersectSpec.ts:3-18 | the test's points are on the positive side, the negative side and on the line |
| `Intersect.GetAABBCorner` | src/collision/intersect.ts:162-188 | a corner exactly for the indices 0 to 3, `null` otherwise: 0 is `max`, 1 is `(min.x, max.y)`, 2 is `min`, 3 is `(max.x, min.y)` |
| `Intersect.AABBCorners` | src/collision/intersect.ts:162-188 | the four corners are `max`, `(min.x, max.y)`, `min`, `(max.x, min.y)`, and each lies in a well-formed box |
| `Intersect.GetBoxCorner` | src/collision/intersect.ts:121-137 | `null` exactly for `idx < 0` or `idx > 3` |
| `Intersect.GetBoxEdge` | src/collision/intersect.ts:70-96 | `null` exactly for `idx < 0` or `idx > 3` |
| `Intersect.LocalBoxCorner` | src/collision/intersect.ts:121-137 | definition of the corner `getBoxCorner` picks in the box frame; its property is the row `Intersect.BoxCornerInFrame` |
| `Intersect.BoxCornerInFrame` | src/collision/intersect.ts:121-137 | a corner is `(±hx, ±hy)` in the box's own frame, at distance `|halfExtend|` from its centre |
| `Intersect.BoxEdgesJoinCorners` | src/collision/intersect.ts:70-96 | edge `i` runs from corner `i` to corner `i + 1` (edge 3 back to corner 0) |
| `Intersect.BoxFractionalIndex` | src/collision/intersect.ts:70-137 | a non-integer index in `[0, 3]` gives corner 0 and edge 3 |
| `Intersect.Enlarged` | src/collision/intersect.ts:254-259 | definition of the box `enlargeAABB` leaves; its property is the row `Intersect.EnlargedContains` |
| `Intersect.AabbToVec` | src/collision/intersect.ts:519-522 | definition of `aabbToVec`, closed on all four sides; its fixtures are the row `Intersect.AabbToVecExamples`, and it is the box membership of `Intersect.AabbToAABBCommonPoint` and `Intersect.AabbToLineMeets` |
| `Intersect.AabbToAABB` | src/collision/intersect.ts:286-289 | definition of `aabbToAABB`; its properties are the rows `Intersect.AabbToAABBCommonPoint` and `Intersect.AabbToAABBExamples` |
| `Intersect.CircleToVec` | src/collision/intersect.ts:448-452 | definition of `circleToVec`; its properties are the rows `Intersect.CircleToVecBoundary` and `Intersect.CircleToVecExamples` |
| `Intersect.CircleToCircle` | src/collision/intersect.ts:297-303 | definition of `circleToCircle`; its properties are the rows `Intersect.CircleToCircleSymmetric`, `Intersect.CircleToCircleSharedPoint` and `Intersect.CircleToCircleProperties` |
| `Intersect.EnlargeAABB` | src/collision/intersect.ts:254-259 | `min` and `max` become the corners of the box enlarged to take in `p` |
| `Intersect.EnlargedContains` | src/collision/intersect.ts:254-259 | the enlarged box contains `p` and every point the old box contained, and is the smallest such box |
| `Intersect.AabbToAABBCommonPoint` | src/collision/intersect.ts:286-289 | symmetric; for well-formed boxes true iff they share a point |
| `Intersect.AabbToAABBExamples` | src/__tests__/collision/intersectSpec.ts:20-31 | the test's overlapping pair is true and its separate pair is false |
| `Intersect.CircleToVecBoundary` | src/collision/intersect.ts:448-452 | the centre is inside; a point on the rim counts |
| `Intersect.CircleToCircleSymmetric` | src/collision/intersect.ts:297-303 | swapping the two circles does not change the answer |
| `Intersect.CircleToCircleSharedPoint` | src/collision/intersect.ts:297-303 | circles with non-negative radii whose closed discs share a point intersect |
| `Intersect.CircleToCircleProperties` | src/collision/intersect.ts:297-303 | symmetric; concentric circles intersect; two circles sharing a point intersect |
| `Intersect.CircleToCircleExamples` | src/__tests__/collision/intersectSpec.ts:33-44 | the test's pairs give true and false |
| `Intersect.CircleToCircleContact` | src/collision/intersect.ts:313-331 | `null` exactly when `circleToCircle` is false |
| `Intersect.ContactSeparation` | src/collision/intersect.ts:313-331 | the separation is the distance minus the radii, never positive for non-negative radii |
| `Intersect.ContactNormal` | src/collision/intersect.ts:313-331 | for distinct centres the normal is a unit vector towards `b`, and the point is `b`'s rim point along it |
| `Intersect.ContactConcentric` | src/collision/intersect.ts:313-331 | concentric circles intersect, with a zero normal and the centre as the point |
| `Intersect.VecToVec` | src/collision/intersect.ts:339-341 | true iff the two points are equal |
| `Intersect.LineEquation` | src/collision/intersect.ts:530-540 | definition of the line equation `aabbToLine` evaluates at each corner; its property is the row `Intersect.LineEquationIsWhichSide` |
| `Intersect.VecToLine` | src/collision/intersect.ts:596-601 | definition of `vecToLine`; its properties are the rows `Intersect.VecToLineWhichSide` and `Intersect.VecToLineOnLine` |
| `Intersect.LineToLine` | src/collision/intersect.ts:349-356 | definition of `lineToLine`; its properties are the rows `Intersect.LineToLineParallel`, `Intersect.LineToLineSymmetric` and `Intersect.LineToLineCommonPoint` |
| `Intersect.SegmentToSegment` | src/collision/intersect.ts:364-414 | definition of `segmentToSegment` as written; its properties are the rows `Intersect.SegmentToSegmentMeets` to `Intersect.PointOffSegmentReported` |
| `Intersect.ProjectionsOverlap` | src/collision/intersect.ts:394-411 | definition of the collinear branch of `segmentToSegment`; its property is the row `Intersect.ProjectionsOverlapNormalized` |
| `Intersect.LineEquationIsWhichSide` | src/collision/intersect.ts:530-540 | the line equation `aabbToLine` builds from `rotate270` equals `whichSide` |
| `Intersect.VecToLineWhichSide` | src/collision/intersect.ts:596-601 | a point is on the line iff `whichSide` is 0 |
| `Intersect.VecToLineOnLine` | src/collision/intersect.ts:596-601 | for a non-zero direction, on the line iff it is `position + t * direction` for some `t` |
| `Intersect.LineToLineParallel` | src/collision/intersect.ts:349-356 | true for non-parallel directions; for parallel ones true iff `a.position` lies on `b` |
| `Intersect.LineToLineSymmetric` | src/collision/intersect.ts:349-356 | for non-zero directions the answer does not depend on the order |
| `Intersect.LineToLineCommonPoint` | src/collision/intersect.ts:349-356 | two lines sharing a point intersect |
| `Intersect.LineToLineExamples` | src/__tests__/collision/intersectSpec.ts:88-103 | the test's crossing, coincident and parallel-apart pairs |
| `Intersect.SegmentToSegmentSeparated` | src/collision/intersect.ts:364-414 | false whenever one segment's end points lie strictly on the same side of the other's axis |
| `Intersect.ProjectionsOverlapNormalized` | src/collision/intersect.ts:394-411 | projecting on the normalised direction, as the code does, gives the same answer as the unnormalised one the model uses |
| `Intersect.SegmentToSegmentCommonPoint` | src/collision/intersect.ts:364-414 | two segments sharing a point intersect |
| `Intersect.SegmentToSegmentSharedEndpoint` | src/collision/intersect.ts:364-414 | segments sharing an end point intersect |
| `Intersect.SegmentToSegmentDegenerate` | src/collision/intersect.ts:364-414 | a zero-length segment anywhere on `b`'s line, inside `b` or not, is reported as intersecting `b` |
| `Intersect.SegmentToSegmentMeets` | src/collision/intersect.ts:364-414 | when the first segment has non-zero length, true iff the two segments share a point |
| `Intersect.SegmentToSegmentComplete` | src/collision/intersect.ts:364-414 | when the first segment has non-zero length, a reported pair shares a point, at parameters in `[0, 1]` on both segments |
| `Intersect.SegmentToSegmentPointFirst` | src/collision/intersect.ts:364-414 | a zero-length first segment is reported iff its point lies on the line through `b`'s end points |
| `Intersect.SegmentToSegmentPoints` | src/collision/intersect.ts:364-414 | two zero-length segments are always reported, and for two different points they share no point |
| `Intersect.PointOffSegmentReported` | src/collision/intersect.ts:364-414 | a point on `b`'s line outside `b` is reported against `b`, although the two share no point |
| `Intersect.SegmentToSegmentCorrected` | src/collision/intersect.ts:364-414 | definition of the segment test as evidently intended; its properties are the rows `Intersect.SegmentToSegmentCorrectedMeets` and `Intersect.SegmentToSegmentCorrectedAgrees` |
| `Intersect.SegmentToSegmentCorrectedMeets` | src/collision/intersect.ts:364-414 | the corrected test holds iff the two segments share a point, for every pair, zero-length segments included |
| `Intersect.SegmentToSegmentCorrectedAgrees` | src/collision/intersect.ts:364-414 | the corrected test agrees with the code for a first segment of non-zero length, and is never true where the code is false |
| `Intersect.CrossingExample` | src/__tests__/collision/intersectSpec.ts:105-132 | the test's crossing pair is true |
| `Intersect.CollinearExamples` | src/__tests__/collision/intersectSpec.ts:105-132 | the test's collinear overlapping and touching pairs are true |
| `Intersect.SeparatedExamples` | src/__tests__/collision/intersectSpec.ts:105-132 | the test's separated pairs are false |
| `Intersect.ParallelDisjointExample` | src/__tests__/collision/intersectSpec.ts:105-132 | a collinear but disjoint pair is false |
| `Intersect.CircleToLine` | src/collision/intersect.ts:460-464 | definition of `circleToLine`; its properties are the rows `Intersect.CircleToLineNearest` and `Intersect.CircleToLineZeroDirection` |
| `Intersect.CircleToSegment` | src/collision/intersect.ts:472-486 | definition of `circleToSegment`; its properties are the rows `Intersect.CircleToSegmentByParameter` to `Intersect.CircleToSegmentDegenerate` |
| `Intersect.CircleToAABB` | src/collision/intersect.ts:494-498 | definition of `circleToAABB`; its properties are the rows `Intersect.CircleToAABBNearest` and `Intersect.CircleToAABBCentreInside` |
| `Intersect.AabbToLine` | src/collision/intersect.ts:530-540 | definition of `aabbToLine`; its properties are the rows `Intersect.AabbToLineCorners` to `Intersect.AabbToLineComplete` |
| `Intersect.AabbToSegment` | src/collision/intersect.ts:548-568 | definition of `aabbToSegment`; its property is the row `Intersect.AabbToSegmentSound` |
| `Intersect.VecToSegment` | src/collision/intersect.ts:609-621 | definition of `vecToSegment`; its properties are the rows `Intersect.VecToSegmentAt` to `Intersect.VecToSegmentEnds` |
| `Intersect.LineToSegment` | src/collision/intersect.ts:642-644 | definition of `lineToSegment`; its properties are the rows `Intersect.LineToSegmentStrict` and `Intersect.LineToSegmentCrossing` |
| `Intersect.CircleToLineNearest` | src/collision/intersect.ts:460-464 | for a non-zero direction, true iff some point of the line is in the circle |
| `Intersect.CircleToLineZeroDirection` | src/collision/intersect.ts:460-464 | with a zero direction the test is always true |
| `Intersect.CircleToSegmentByParameter` | src/collision/intersect.ts:472-486 | true iff an end point is in the circle or the nearest point's parameter is in `[0, 1]` and that point is in the circle |
| `Intersect.CircleToSegmentNearest` | src/collision/intersect.ts:472-486 | for a non-degenerate segment, true iff some point of the segment is in the circle |
| `Intersect.CircleToSegmentDegenerate` | src/collision/intersect.ts:472-486 | a zero-length segment intersects iff its point is in the circle |
| `Intersect.CircleToAABBNearest` | src/collision/intersect.ts:494-498 | for a well-formed box, true iff some point of the box is in the circle |
| `Intersect.CircleToAABBCentreInside` | src/collision/intersect.ts:494-498 | a circle centred in the box intersects it |
| `Intersect.AabbToLineCorners` | src/collision/intersect.ts:530-540 | false exactly when all four corners lie strictly on one side; a touching corner counts |
| `Intersect.AabbToLineSound` | src/collision/intersect.ts:530-540 | a box holding a point of the line intersects it |
| `Intersect.AabbToLineMeets` | src/collision/intersect.ts:530-540 | for a well-formed box, true iff the line passes through a point of the box |
| `Intersect.AabbToLineComplete` | src/collision/intersect.ts:530-540 | when one corner pair straddles the line, a point of the line lies in the box (the point is built on the segment from `min` to that corner) |
| `Intersect.AabbToSegmentSound` | src/collision/intersect.ts:548-568 | a box holding a point of the segment intersects it |
| `Intersect.VecToSegmentAt` | src/collision/intersect.ts:609-621 | the point at parameter `t` is accepted iff `0 <= t < 1` |
| `Intersect.VecToSegmentHalfOpen` | src/collision/intersect.ts:609-621 | for a non-degenerate segment, true iff the point is on the half-open segment from the start point |
| `Intersect.VecToSegmentEnds` | src/collision/intersect.ts:609-621 | the end point is always rejected; the start point is accepted iff the segment has length |
| `Intersect.OnClosedSegment` | src/collision/intersect.ts:609-621 | a point is on the closed segment iff `vecToSegment` accepts it or it is the end point |
| `Intersect.LineToSegmentStrict` | src/collision/intersect.ts:642-644 | true iff the end points are strictly on opposite sides; an end point on the line gives false |
| `Intersect.LineToSegmentCrossing` | src/collision/intersect.ts:642-644 | true iff neither end point is on the line and the line crosses the open segment |
| `Intersect.SupportCandidates` | src/collision/gjk.ts:26-34 | `supportPolygon` always returns one of these points: the vertices, or the origin when there are none |
| `Intersect.PolygonToPolygon` | src/collision/intersect.ts:688-690 | true iff the GJK run `Gjk.Outcome` on the two polygons ends on `found`; never true for polygons at the same position; `true` only when the two polygons' hulls share a point |
| `Intersect.SharedPointOfDifferences` | src/collision/intersect.ts:688-690 | the origin in a triangle of differences `u_i - w_i` gives one point in both hulls |
| `Intersect.SupportPointSides` | src/collision/gjk.ts:123-130 | a Minkowski support point is a vertex of the first polygon minus one of the second |
| `Intersect.HullBound` | src/collision/intersect.ts:688-690 | a half-plane holding every vertex holds the whole hull |
| `Intersect.SeparatedHulls` | src/collision/intersect.ts:688-690 | a square and a triangle on either side of a line share no hull point |
| `Intersect.SeparatedPolygonsRejected` | src/collision/intersect.ts:688-690 | `polygonToPolygon` returns false on that pair, whatever the loop budget |
| `Intersect.CircleToVecExamples` | src/__tests__/collision/intersectSpec.ts:150-161 | the test's inside and outside points |
| `Intersect.CircleToLineExamples` | src/__tests__/collision/intersectSpec.ts:163-174 | the test's crossing and missing lines |
| `Intersect.CircleToSegmentExamples` | src/__tests__/collision/intersectSpec.ts:176-187 | the test's crossing and missing segments |
| `Intersect.CircleToAABBExamples` | src/__tests__/collision/intersectSpec.ts:189-200 | the test's overlapping and missing circles |
| `Intersect.AabbToVecExamples` | src/__tests__/collision/intersectSpec.ts:215-226 | the test's inside and outside points |
| `Intersect.AabbToLineExamples` | src/__tests__/collision/intersectSpec.ts:228-239 | the test's crossing and missing lines |
| `Intersect.AabbToSegmentExamples` | src/__tests__/collision/intersectSpec.ts:241-252 | the test's crossing and missing segments |
| `Intersect.VecToLineExamples` | src/__tests__/collision/intersectSpec.ts:275-286 | the test's on-line and off-line points |
| `Intersect.VecToSegmentExamples` | src/__tests__/collision/intersectSpec.ts:288-299 | an interior point is accepted and an end point is rejected |
| `Intersect.LineToSegmentExamples` | src/__tests__/collision/intersectSpec.ts:314-325 | the test's crossing segment is true; one touching the line at an end is false |
| `Gjk.FurthestIndex` | src/collision/gjk.ts:7-21 | the index of a vertex with maximal dot product, with every earlier vertex strictly smaller |
| `Gjk.FurthestIndexUnique` | src/collision/gjk.ts:7-21 | any index whose vertex is maximal and strictly beats every earlier vertex is the index the scan picks |
| `Gjk.FurthestVertex` | src/collision/gjk.ts:7-21 | the origin for an empty list, else a member whose dot product is maximal |
| `Gjk.GetFurthestVertex` | src/collision/gjk.ts:7-21 | the scan from negative infinity with strict `>` returns the earliest furthest vertex |
| `Gjk.SupportPolygon` | src/collision/gjk.ts:32-34 | the origin for no vertices, else a furthest vertex |
| `Gjk.SupportSegment` | src/collision/gjk.ts:43-45 | the end point when strictly further along `dir`, the start point otherwise |
| `Gjk.SupportVecIgnoresDirection` | src/collision/gjk.ts:69-71 | `supportVec` returns the position whatever the direction |
| `Gjk.SupportVec` | src/collision/gjk.ts:69-71 | definition of `supportVec`; its property is the row `Gjk.SupportVecIgnoresDirection` |
| `Gjk.SupportPolygonExample` | src/__tests__/collision/gjkSpec.ts:4-25 | the test triangle's furthest vertex towards `(2, 5)` is `(0, 2)` |
| `Gjk.TripleProduct` | src/collision/gjk.ts:104-110 | the result is orthogonal to `c`, and `cross(c, result)` is `cross(a, b)` times the squared length of `c`, so it points to the side of `c` that the sign of `cross(a, b)` selects |
| `Gjk.TripleProductDot` | src/collision/gjk.ts:104-110 | the dot product of the result with `p` is `cross(a, b) * cross(c, p)` |
| `Gjk.Simplex.constructor` | src/collision/gjk.ts:223 | the vertex array starts empty |
| `Gjk.MinkowskiSupport` | src/collision/gjk.ts:123-130 | definition of the point `addSupport` appends; its property is the row `Intersect.SupportPointSides` |
| `Gjk.AddSupport` | src/collision/gjk.ts:123-130 | exactly one point, `sup1(s1, d) - sup2(s2, -d)`, is appended, and the result is `dot(d, support) > 0` |
| `Gjk.EvolveStep` | src/collision/gjk.ts:147-193 | definition of the decision `evolveSimplex` takes on the vertices; its properties are the rows `Gjk.EvolveStepBounded` to `Gjk.EvolveStepKeepsSide` |
| `Gjk.Advance` | src/collision/gjk.ts:147-193 | definition of what one call of `evolveSimplex` leaves; its property is the row `Gjk.AdvanceSound`, and `Gjk.EvolveSimplex` is proved against it |
| `Gjk.EvolveSimplex` | src/collision/gjk.ts:147-193 | stops with `found`/`error` and leaves the vertices, or keeps the step's vertices, appends the support point for the new direction and reports `evolving` exactly when it lies ahead; state and vertices together are `Gjk.Advance` of the old vertices |
| `Gjk.EvolveStepBounded` | src/collision/gjk.ts:147-193 | from at most 3 vertices never `error`; lengths 0 to 2 grow by one; at 3 it reports `found` or drops index 0 or 1 and never the newest; above 3 always `error` |
| `Gjk.EvolveStepDirections` | src/collision/gjk.ts:150-160 | an empty simplex searches from shape 1's position towards shape 2's, one vertex searches back the other way, and an edge searches along a perpendicular that does not point away from the origin |
| `Gjk.ExtendEdgeKeepsSide` | src/collision/gjk.ts:154-160 | a point found ahead of the edge perpendicular lies on the origin's side of the edge |
| `Gjk.DropFirstKeepsSide` | src/collision/gjk.ts:173-176 | after dropping `c`, a point found ahead lies on the origin's side of edge `ab` |
| `Gjk.DropSecondKeepsSide` | src/collision/gjk.ts:177-180 | after dropping `b`, a point found ahead lies on the origin's side of edge `ac` |
| `Gjk.EvolveStepKeepsSide` | src/collision/gjk.ts:154-180 | each extending step from 2 or 3 vertices with a point found ahead gives a triangle whose newest vertex is on the origin's side of the old edge |
| `Gjk.OriginInTriangleBySides` | src/collision/gjk.ts:161-183 | when neither edge test fires, the origin is a convex combination of the triangle's corners |
| `Gjk.FoundContainsOrigin` | src/collision/gjk.ts:181-183 | a `found` step on a triangle kept by the loop contains the origin |
| `Gjk.Iterate` | src/collision/gjk.ts:226-228 | definition of repeated `evolveSimplex` calls within a budget; its property is the row `Gjk.IterateSound` |
| `Gjk.Outcome` | src/collision/gjk.ts:219-231 | definition of where `gjkTest` ends for a budget; its properties are the rows `Gjk.OutcomeSound` and `Gjk.SamePositionMisses`, and `Gjk.GjkTest` is proved against it |
| `Gjk.AdvanceSound` | src/collision/gjk.ts:147-193 | one call of `evolveSimplex` from a sound evolving state (at most 3 support points, a triangle on the origin's side) leaves a sound state: never `error`, and on `found` a triangle of support points around the origin |
| `Gjk.IterateSound` | src/collision/gjk.ts:226-228 | any number of further calls keep the run sound |
| `Gjk.OutcomeSound` | src/collision/gjk.ts:219-231 | where the run ends is never `error`; on `found` it is a triangle around the origin; every vertex is a Minkowski support point |
| `Gjk.SamePositionMisses` | src/collision/gjk.ts:150-151 | for shapes at the same position the seed direction is zero, and the run ends on `no-intersection` whatever the shapes and the loop budget |
| `Gjk.SeedDirection` | src/collision/gjk.ts:150-151 | the first search direction as evidently intended: never zero, and the code's direction whenever the positions differ |
| `Gjk.SeedDirectionCorrects` | src/collision/gjk.ts:150-151 | the code's first direction equals `Gjk.SeedDirection` iff the positions differ, and is zero iff they coincide |
| `Gjk.SeedDirectionFirstStep` | src/collision/gjk.ts:150-151 | for polygons at the same position with a vertex of the first strictly right of a vertex of the second, the first support point for `Gjk.SeedDirection` is strictly ahead, while the code's first step ends on `no-intersection` |
| `Gjk.GjkTest` | src/collision/gjk.ts:219-231 | the answer and the final state and vertices are those of `Gjk.Outcome`; never `error`; true iff the loop ends on `found`; never true for shapes at the same position; on true the final triangle of support points contains the origin |

## Left out

- `Vec2.length`, `Vec3.length` and the `Math.sqrt` inside `normalize`: the length is a parameter characterised by its square.
- `Vec2.rotate`, `Vec3.rotateX`, `rotateY`, `rotateZ`, `Mat22.rotate`, `Mat22.makeRotate` and `Mat33.rotateZ`: the angle is replaced by its cosine and sine, so `Math.cos` and `Math.sin` are not modelled.
- `Vector2.Vec2.Sign`: `Math.sign(-0)` is `-0` in the source; on reals there is a single zero.
- IEEE-754 behaviour in general (rounding, `NaN`, infinities, `-0`) is out. All numbers are exact reals.
- `Vec2.parallel` and `Vec3.parallel`: the test cases pass `Math.cos` of small angles as the threshold and normalise by irrational lengths, so only the exact cases of `Vec2Algebra.ParallelUnit` and `Vec3Algebra.ParallelUnit` are stated.
- `Mat33.mul`: that applying `a * b` is applying `b` and then `a` is not proved for 3x3 matrices; only `Mat22Algebra.ProductComposes` states it, for 2x2 matrices.
- The box predicates `boxToBox`, `circleToBox`, `aabbToBox`, `vecToBox`, `lineToBox` and `segmentToBox` are not modelled. Neither are `overlapBoxAndSegment`, `overlapAABBAndSegment` and `createAABBFromBox`. Each rotates by an angle or seeds with `±Infinity`.
- `Matrix33.Mat33.MulVec2Into`: the source types `out` structurally, so a column such as `m.ez` can be passed as `out` and would have its `x` and `y` overwritten. Here `out` is a `Vector2.Vec2`, which never aliases a `Vec3` column, so that case is not modelled.
- `Vector2.Copy`, `Vector2.Add`, `Vector2.Sub`, `Vector3.Copy`, `Vector3.Add` and `Vector3.Sub`: the source types the first argument structurally as `Vec2Like` or `Vec3Like`. Here it is a `Vector2.Vec2` or `Vector3.Vec3` object, which holds exactly the mutable components. A plain object literal or a matrix column passed as that argument is not modelled.
- `supportCircle` and `supportBox`: each normalises or rotates the direction.
- `Intersect.AabbToSegmentSound`: only soundness is proved (a box holding a point of the segment is reported). That every reported pair shares a point is not proved.
- `Intersect.CircleToCircleContact`: the point, separation and normal use the centre distance, which is passed in as a parameter characterised by its square.
- `Intersect.SegmentToSegment`: the collinear branch projects on the unnormalised direction. `Intersect.ProjectionsOverlapNormalized` proves this gives the same answer as the normalised direction the code uses.
- `Gjk.GjkTest`: the source's `do`-`while` loop has no bound. Here a `fuel` budget bounds it. When the budget runs out while still evolving, the model returns false where the source would keep looping. Termination of the source loop is not proved.
- `Gjk.GjkTest`: each shape is passed with its `position` beside it, in place of the `GJKShape` interface. Support functions are function values.
- `Intersect.PolygonToPolygon`: only the direction "true implies the hulls share a point" is proved. The converse is false as written: polygons at the same position are never found (`Gjk.SamePositionMisses`). Whether other overlapping polygons are found within a given budget is not proved.
- The library's overlapping `polygonToPolygon` case (the square at `(2, 2)` against the triangle) is not reproduced. Its run takes five concrete GJK steps, and each one unfolds into nonlinear real arithmetic that the verifier does not settle within its resource limit.
- `Intersect.SegmentToSegmentMeets`: the exact answer is proved only for a first segment of non-zero length. A zero-length first segment is reported anywhere on the other segment's line, which `Intersect.PointOffSegmentReported` shows is a false positive.
- The demo in `sample/` and the `sign` polyfill in `src/sign.ts` are not part of this model.

## Findings

| source | as written | input that shows it | evidently intended | confidence | as-written member | corrected member |
|---|---|---|---|---|---|---|
| src/collision/intersect.ts:364-414 | a zero-length first segment passes both side tests and the collinear overlap test whenever its point is on the line through `b`, inside `b` or not | `a` from `(5, 0)` to `(5, 0)`, `b` from `(0, 0)` to `(1, 0)`: reported, yet they share no point | report a zero-length first segment only when its point lies on `b` itself | high, proved; not executed | `Intersect.PointOffSegmentReported` | `Intersect.SegmentToSegmentCorrected`, with `Intersect.SegmentToSegmentCorrectedMeets` |
| src/collision/gjk.ts:150-151 | the first search direction is `s2.position - s1.position`, which is zero for shapes at the same position, so no support point is strictly ahead and the run stops on `no-intersection` | two overlapping polygons both given at position `(0, 0)`: never reported, whatever the budget | a non-zero first direction, falling back to a fixed axis when the positions coincide | high, proved; not executed | `Gjk.SamePositionMisses` | `Gjk.SeedDirection`, with `Gjk.SeedDirectionCorrects` and `Gjk.SeedDirectionFirstStep` |

The rest of the model keeps the code as written: `Intersect.SegmentToSegment`, `Gjk.GjkTest`
and `Intersect.PolygonToPolygon` are the library's functions. For `gjkTest` the corrected
half is the seed direction. `Gjk.SeedDirectionFirstStep` shows that its first step goes on
evolving for polygons at the same position that the code's first step gives up on. Whether
a run seeded with it finds every overlapping pair is not proved.
