/**
  The rigid-pose algebra of `Pose<T>`: a rotation `R` and translation `t`
  mapping world coordinates to camera coordinates, `v -> R v + t`, with
  composition, inverse and the world-frame accessors.

  Matrices are 3x3 over exact reals. The matrix inverse is Eigen's
  `inverse()`, which is not part of this model: it is a parameter `inv`,
  required (`IsInverter`) to return a two-sided inverse of every matrix
  with a non-zero determinant, itself again invertible.
*/
module Poses {

  datatype Vec3 = Vec3(x: real, y: real, z: real)

  /** A 3x3 matrix, row-major: `mRC` is row R, column C. */
  datatype Mat3 = Mat3(m00: real, m01: real, m02: real,
                       m10: real, m11: real, m12: real,
                       m20: real, m21: real, m22: real)

  function Add(u: Vec3, w: Vec3): Vec3 {
    Vec3(u.x + w.x, u.y + w.y, u.z + w.z)
  }

  function Neg(u: Vec3): Vec3 {
    Vec3(-u.x, -u.y, -u.z)
  }

  function Scale(u: Vec3, s: real): Vec3 {
    Vec3(u.x * s, u.y * s, u.z * s)
  }

  function Zero(): Vec3 {
    Vec3(0.0, 0.0, 0.0)
  }

  function Identity(): Mat3 {
    Mat3(1.0, 0.0, 0.0, 0.0, 1.0, 0.0, 0.0, 0.0, 1.0)
  }

  function Col0(m: Mat3): Vec3 { Vec3(m.m00, m.m10, m.m20) }
  function Col1(m: Mat3): Vec3 { Vec3(m.m01, m.m11, m.m21) }
  function Col2(m: Mat3): Vec3 { Vec3(m.m02, m.m12, m.m22) }

  function FromCols(c0: Vec3, c1: Vec3, c2: Vec3): Mat3 {
    Mat3(c0.x, c1.x, c2.x, c0.y, c1.y, c2.y, c0.z, c1.z, c2.z)
  }

  /** The dot product of the row `(a, b, c)` with `v`. */
  function Dot(a: real, b: real, c: real, v: Vec3): real {
    a * v.x + b * v.y + c * v.z
  }

  /** The matrix-vector product `m * v`, row by row. */
  function MulV(m: Mat3, v: Vec3): Vec3 {
    Vec3(Dot(m.m00, m.m01, m.m02, v), Dot(m.m10, m.m11, m.m12, v), Dot(m.m20, m.m21, m.m22, v))
  }

  /** The matrix product `a * b`, column by column. */
  function MulM(a: Mat3, b: Mat3): Mat3 {
    FromCols(MulV(a, Col0(b)), MulV(a, Col1(b)), MulV(a, Col2(b)))
  }

  function Det(m: Mat3): real {
    m.m00 * (m.m11 * m.m22 - m.m12 * m.m21)
      - m.m01 * (m.m10 * m.m22 - m.m12 * m.m20)
      + m.m02 * (m.m10 * m.m21 - m.m11 * m.m20)
  }

  predicate Invertible(m: Mat3) {
    Det(m) != 0.0
  }

  /** Eigen's `inverse()`, as a parameter. */
  type Inverter = Mat3 -> Mat3

  ghost predicate IsInverter(inv: Inverter) {
    forall m {:trigger inv(m)} :: Invertible(m) ==>
      MulM(inv(m), m) == Identity() && MulM(m, inv(m)) == Identity() && Invertible(inv(m))
  }

  // ---------------------------------------------------------------------------
  // Linear-algebra facts

  lemma DotAdd(a: real, b: real, c: real, u: Vec3, w: Vec3)
    ensures Dot(a, b, c, Add(u, w)) == Dot(a, b, c, u) + Dot(a, b, c, w)
  {
  }

  lemma MulVAdd(m: Mat3, u: Vec3, w: Vec3)
    ensures MulV(m, Add(u, w)) == Add(MulV(m, u), MulV(m, w))
  {
    DotAdd(m.m00, m.m01, m.m02, u, w);
    DotAdd(m.m10, m.m11, m.m12, u, w);
    DotAdd(m.m20, m.m21, m.m22, u, w);
  }

  lemma DotScale(a: real, b: real, c: real, u: Vec3, s: real)
    ensures Dot(a, b, c, Scale(u, s)) == Dot(a, b, c, u) * s
  {
  }

  lemma MulVScale(m: Mat3, u: Vec3, s: real)
    ensures MulV(m, Scale(u, s)) == Scale(MulV(m, u), s)
  {
    DotScale(m.m00, m.m01, m.m02, u, s);
    DotScale(m.m10, m.m11, m.m12, u, s);
    DotScale(m.m20, m.m21, m.m22, u, s);
  }

  lemma MulVNeg(a: Mat3, u: Vec3)
    ensures MulV(a, Neg(u)) == Neg(MulV(a, u))
  {
  }

  /** A vector is the sum of the columns weighted by its coordinates. */
  lemma ColumnExpansion(m: Mat3, v: Vec3)
    ensures MulV(m, v) == Add(Add(Scale(Col0(m), v.x), Scale(Col1(m), v.y)), Scale(Col2(m), v.z))
  {
  }

  lemma ColumnsOfProduct(a: Mat3, b: Mat3)
    ensures Col0(MulM(a, b)) == MulV(a, Col0(b))
    ensures Col1(MulM(a, b)) == MulV(a, Col1(b))
    ensures Col2(MulM(a, b)) == MulV(a, Col2(b))
  {
  }

  /** `(a * b) * v == a * (b * v)`. */
  lemma MulVAssoc(a: Mat3, b: Mat3, v: Vec3)
    ensures MulV(MulM(a, b), v) == MulV(a, MulV(b, v))
  {
    var ab := MulM(a, b);
    ColumnExpansion(ab, v);
    ColumnExpansion(b, v);
    ColumnsOfProduct(a, b);
    var s0, s1, s2 := Scale(Col0(b), v.x), Scale(Col1(b), v.y), Scale(Col2(b), v.z);
    MulVAdd(a, Add(s0, s1), s2);
    MulVAdd(a, s0, s1);
    MulVScale(a, Col0(b), v.x);
    MulVScale(a, Col1(b), v.y);
    MulVScale(a, Col2(b), v.z);
  }

  lemma MatrixByColumns(a: Mat3, b: Mat3)
    requires Col0(a) == Col0(b) && Col1(a) == Col1(b) && Col2(a) == Col2(b)
    ensures a == b
  {
  }

  /** `(a * b) * c == a * (b * c)`. */
  lemma MulMAssoc(a: Mat3, b: Mat3, c: Mat3)
    ensures MulM(MulM(a, b), c) == MulM(a, MulM(b, c))
  {
    ColumnsOfProduct(MulM(a, b), c);
    ColumnsOfProduct(b, c);
    ColumnsOfProduct(a, MulM(b, c));
    MulVAssoc(a, b, Col0(c));
    MulVAssoc(a, b, Col1(c));
    MulVAssoc(a, b, Col2(c));
    MatrixByColumns(MulM(MulM(a, b), c), MulM(a, MulM(b, c)));
  }

  lemma MulVZero(m: Mat3)
    ensures MulV(m, Zero()) == Zero()
  {
  }

  lemma MulVIdentity(v: Vec3)
    ensures MulV(Identity(), v) == v
  {
  }

  lemma MulMIdentity(m: Mat3)
    ensures MulM(Identity(), m) == m
    ensures MulM(m, Identity()) == m
  {
    ColumnsOfProduct(Identity(), m);
    MulVIdentity(Col0(m));
    MulVIdentity(Col1(m));
    MulVIdentity(Col2(m));
    MatrixByColumns(MulM(Identity(), m), m);
    ColumnsOfProduct(m, Identity());
    MatrixByColumns(MulM(m, Identity()), m);
  }

  /** A left inverse and a right inverse of the same matrix coincide. */
  lemma InverseUnique(x: Mat3, v: Mat3, w: Mat3)
    requires MulM(x, v) == Identity() && MulM(v, w) == Identity()
    ensures x == w
  {
    MulMIdentity(x);
    MulMIdentity(w);
    MulMAssoc(x, v, w);
  }

  /** Multiplying by a matrix and then by its inverse gives the vector back. */
  lemma Cancel(inv: Inverter, m: Mat3, v: Vec3)
    requires IsInverter(inv) && Invertible(m)
    ensures MulV(inv(m), MulV(m, v)) == v
    ensures MulV(m, MulV(inv(m), v)) == v
  {
    MulVAssoc(inv(m), m, v);
    MulVAssoc(m, inv(m), v);
    MulVIdentity(v);
  }

  // ---------------------------------------------------------------------------
  // Pose

  datatype Pose = Pose(r: Mat3, t: Vec3)

  /** A default-constructed pose: `R = I`, `t = 0`; it maps every point to itself. */
  function DefaultPose(): (p: Pose)
    ensures p.r == Identity() && p.t == Zero()
    ensures forall v :: Transform(p, v) == v
  {
    var p := Pose(Identity(), Zero());
    assert forall v :: Transform(p, v) == v by {
      forall v
        ensures Transform(p, v) == v
      {
        MulVIdentity(v);
      }
    }
    p
  }

  /**
    `transform(v)`: `R v + t`. The origin goes to the translation, and a pose
    with the identity rotation only translates.
  */
  function Transform(p: Pose, v: Vec3): (w: Vec3)
    ensures v == Zero() ==> w == p.t
    ensures p.r == Identity() ==> w == Add(v, p.t)
  {
    MulVZero(p.r);
    MulVIdentity(v);
    Add(MulV(p.r, v), p.t)
  }

  /** `transform(pose)`: the pose that applies `b` first, then `a`. */
  function Compose(a: Pose, b: Pose): (c: Pose)
    ensures forall v {:trigger Transform(a, Transform(b, v))} :: Transform(c, v) == Transform(a, Transform(b, v))
  {
    var c := Pose(MulM(a.r, b.r), Add(MulV(a.r, b.t), a.t));
    assert forall v {:trigger Transform(a, Transform(b, v))} :: Transform(c, v) == Transform(a, Transform(b, v)) by {
      forall v
        ensures Transform(c, v) == Transform(a, Transform(b, v))
      {
        MulVAssoc(a.r, b.r, v);
        MulVAdd(a.r, MulV(b.r, v), b.t);
      }
    }
    c
  }

  lemma ComposeAssoc(a: Pose, b: Pose, c: Pose)
    ensures Compose(Compose(a, b), c) == Compose(a, Compose(b, c))
  {
    MulMAssoc(a.r, b.r, c.r);
    MulVAssoc(a.r, b.r, c.t);
    MulVAdd(a.r, MulV(b.r, c.t), b.t);
  }

  /** `inverse()`: `R^-1` and `-R^-1 t`. */
  function Inverse(inv: Inverter, p: Pose): (q: Pose)
    ensures q.r == inv(p.r)
  {
    var ri := inv(p.r);
    Pose(ri, Neg(MulV(ri, p.t)))
  }

  /** For an invertible rotation the inverse pose undoes the pose, applied before or after it. */
  lemma InverseUndoes(inv: Inverter, p: Pose, v: Vec3)
    requires IsInverter(inv) && Invertible(p.r)
    ensures Transform(Inverse(inv, p), Transform(p, v)) == v
    ensures Transform(p, Transform(Inverse(inv, p), v)) == v
  {
    var ri := inv(p.r);
    Cancel(inv, p.r, v);
    Cancel(inv, p.r, p.t);
    MulVAdd(ri, MulV(p.r, v), p.t);
    MulVAdd(p.r, MulV(ri, v), Neg(MulV(ri, p.t)));
    MulVNeg(p.r, MulV(ri, p.t));
  }

  /** Composing a pose with its inverse, in either order, gives the default pose. */
  lemma InverseComposeIsDefault(inv: Inverter, p: Pose)
    requires IsInverter(inv) && Invertible(p.r)
    ensures Compose(Inverse(inv, p), p) == DefaultPose()
    ensures Compose(p, Inverse(inv, p)) == DefaultPose()
  {
    var ri := inv(p.r);
    Cancel(inv, p.r, p.t);
    MulVNeg(p.r, MulV(ri, p.t));
  }

  /** `worldPosition()`: `-R^-1 t`, the camera centre that the pose maps to the origin. */
  function WorldPosition(inv: Inverter, p: Pose): (w: Vec3)
    ensures IsInverter(inv) && Invertible(p.r) ==> Transform(p, w) == Zero()
  {
    var w := Neg(MulV(inv(p.r), p.t));
    assert IsInverter(inv) && Invertible(p.r) ==> Transform(p, w) == Zero() by {
      if IsInverter(inv) && Invertible(p.r) {
        MulVNeg(p.r, MulV(inv(p.r), p.t));
        Cancel(inv, p.r, p.t);
      }
    }
    w
  }

  /** `worldRotation()`: `R^-1`, a two-sided inverse of the rotation. */
  function WorldRotation(inv: Inverter, p: Pose): (m: Mat3)
    ensures IsInverter(inv) && Invertible(p.r) ==> MulM(m, p.r) == Identity() && MulM(p.r, m) == Identity()
  {
    inv(p.r)
  }

  /** The world accessors read the inverse pose. */
  lemma WorldPoseIsInverse(inv: Inverter, p: Pose)
    ensures WorldRotation(inv, p) == Inverse(inv, p).r
    ensures WorldPosition(inv, p) == Inverse(inv, p).t
  {
  }

  /**
    The world position is the camera centre, the one point the pose maps to
    the origin; the world rotation is the inverse of the rotation.
  */
  lemma WorldPoseLocatesCamera(inv: Inverter, p: Pose)
    requires IsInverter(inv) && Invertible(p.r)
    ensures Transform(p, WorldPosition(inv, p)) == Zero()
    ensures forall v :: Transform(p, v) == Zero() ==> v == WorldPosition(inv, p)
    ensures MulM(WorldRotation(inv, p), p.r) == Identity() && MulM(p.r, WorldRotation(inv, p)) == Identity()
  {
    var w := WorldPosition(inv, p);
    MulVNeg(p.r, MulV(inv(p.r), p.t));
    Cancel(inv, p.r, p.t);
    forall v | Transform(p, v) == Zero()
      ensures v == w
    {
      InverseUndoes(inv, p, v);
      MulVZero(inv(p.r));
    }
  }

  /** `setWorldPosition(w)`: `t = -R w`, so that `w` maps to the origin. */
  function SetWorldPosition(p: Pose, w: Vec3): (q: Pose)
    ensures q.r == p.r
    ensures Transform(q, w) == Zero()
  {
    Pose(p.r, Neg(MulV(p.r, w)))
  }

  /** Setting the world position and reading it back gives the same point. */
  lemma WorldPositionRoundTrip(inv: Inverter, p: Pose, w: Vec3)
    requires IsInverter(inv) && Invertible(p.r)
    ensures WorldPosition(inv, SetWorldPosition(p, w)) == w
  {
    MulVNeg(inv(p.r), MulV(p.r, w));
    Cancel(inv, p.r, w);
  }

  /** `setWorldRotation(W)`: `R = W^-1`; the translation is kept. */
  function SetWorldRotation(inv: Inverter, p: Pose, w: Mat3): (q: Pose)
    ensures q.t == p.t
  {
    Pose(inv(w), p.t)
  }

  /** Setting the world rotation and reading it back gives the same matrix. */
  lemma WorldRotationRoundTrip(inv: Inverter, p: Pose, w: Mat3)
    requires IsInverter(inv) && Invertible(w)
    ensures WorldRotation(inv, SetWorldRotation(inv, p, w)) == w
  {
    var v := inv(w);
    InverseUnique(inv(v), v, w);
  }
}
