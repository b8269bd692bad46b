/** Polynomial identities behind the quaternion algebra, stated over plain reals.

    Each lemma names the components of a product (or of a rotation) as parameters defined by
    its `requires`, and concludes a linear relation between them. Stated this way the solver
    proves them by substitution and normalisation; the same identities stated over nested
    applications of `Quaternions.Mul` are beyond it. The quaternion lemmas that use them
    pass the components of the actual products as arguments. */
module QuatIdentities {
  /** Component of (a b) c = a (b c), over plain reals. */
  lemma AssociativeW(a0: real, a1: real, a2: real, a3: real, b0: real, b1: real, b2: real, b3: real, c0: real, c1: real, c2: real, c3: real, p0: real, p1: real, p2: real, p3: real, q0: real, q1: real, q2: real, q3: real, l0: real, r0: real)
    requires p0 == a0 * b0 - a1 * b1 - a2 * b2 - a3 * b3
    requires p1 == a0 * b1 + a1 * b0 + a2 * b3 - a3 * b2
    requires p2 == a0 * b2 - a1 * b3 + a2 * b0 + a3 * b1
    requires p3 == a0 * b3 + a1 * b2 - a2 * b1 + a3 * b0
    requires q0 == b0 * c0 - b1 * c1 - b2 * c2 - b3 * c3
    requires q1 == b0 * c1 + b1 * c0 + b2 * c3 - b3 * c2
    requires q2 == b0 * c2 - b1 * c3 + b2 * c0 + b3 * c1
    requires q3 == b0 * c3 + b1 * c2 - b2 * c1 + b3 * c0
    requires l0 == p0 * c0 - p1 * c1 - p2 * c2 - p3 * c3
    requires r0 == a0 * q0 - a1 * q1 - a2 * q2 - a3 * q3
    ensures l0 == r0
  {
  }

  lemma AssociativeX(a0: real, a1: real, a2: real, a3: real, b0: real, b1: real, b2: real, b3: real, c0: real, c1: real, c2: real, c3: real, p0: real, p1: real, p2: real, p3: real, q0: real, q1: real, q2: real, q3: real, l1: real, r1: real)
    requires p0 == a0 * b0 - a1 * b1 - a2 * b2 - a3 * b3
    requires p1 == a0 * b1 + a1 * b0 + a2 * b3 - a3 * b2
    requires p2 == a0 * b2 - a1 * b3 + a2 * b0 + a3 * b1
    requires p3 == a0 * b3 + a1 * b2 - a2 * b1 + a3 * b0
    requires q0 == b0 * c0 - b1 * c1 - b2 * c2 - b3 * c3
    requires q1 == b0 * c1 + b1 * c0 + b2 * c3 - b3 * c2
    requires q2 == b0 * c2 - b1 * c3 + b2 * c0 + b3 * c1
    requires q3 == b0 * c3 + b1 * c2 - b2 * c1 + b3 * c0
    requires l1 == p0 * c1 + p1 * c0 + p2 * c3 - p3 * c2
    requires r1 == a0 * q1 + a1 * q0 + a2 * q3 - a3 * q2
    ensures l1 == r1
  {
  }

  lemma AssociativeY(a0: real, a1: real, a2: real, a3: real, b0: real, b1: real, b2: real, b3: real, c0: real, c1: real, c2: real, c3: real, p0: real, p1: real, p2: real, p3: real, q0: real, q1: real, q2: real, q3: real, l2: real, r2: real)
    requires p0 == a0 * b0 - a1 * b1 - a2 * b2 - a3 * b3
    requires p1 == a0 * b1 + a1 * b0 + a2 * b3 - a3 * b2
    requires p2 == a0 * b2 - a1 * b3 + a2 * b0 + a3 * b1
    requires p3 == a0 * b3 + a1 * b2 - a2 * b1 + a3 * b0
    requires q0 == b0 * c0 - b1 * c1 - b2 * c2 - b3 * c3
    requires q1 == b0 * c1 + b1 * c0 + b2 * c3 - b3 * c2
    requires q2 == b0 * c2 - b1 * c3 + b2 * c0 + b3 * c1
    requires q3 == b0 * c3 + b1 * c2 - b2 * c1 + b3 * c0
    requires l2 == p0 * c2 - p1 * c3 + p2 * c0 + p3 * c1
    requires r2 == a0 * q2 - a1 * q3 + a2 * q0 + a3 * q1
    ensures l2 == r2
  {
  }

  lemma AssociativeZ(a0: real, a1: real, a2: real, a3: real, b0: real, b1: real, b2: real, b3: real, c0: real, c1: real, c2: real, c3: real, p0: real, p1: real, p2: real, p3: real, q0: real, q1: real, q2: real, q3: real, l3: real, r3: real)
    requires p0 == a0 * b0 - a1 * b1 - a2 * b2 - a3 * b3
    requires p1 == a0 * b1 + a1 * b0 + a2 * b3 - a3 * b2
    requires p2 == a0 * b2 - a1 * b3 + a2 * b0 + a3 * b1
    requires p3 == a0 * b3 + a1 * b2 - a2 * b1 + a3 * b0
    requires q0 == b0 * c0 - b1 * c1 - b2 * c2 - b3 * c3
    requires q1 == b0 * c1 + b1 * c0 + b2 * c3 - b3 * c2
    requires q2 == b0 * c2 - b1 * c3 + b2 * c0 + b3 * c1
    requires q3 == b0 * c3 + b1 * c2 - b2 * c1 + b3 * c0
    requires l3 == p0 * c3 + p1 * c2 - p2 * c1 + p3 * c0
    requires r3 == a0 * q3 + a1 * q2 - a2 * q1 + a3 * q0
    ensures l3 == r3
  {
  }

  /** Component of a (b c) = (a b) c for a real c, with d = b c. */
  lemma ScaledRightW(a0: real, a1: real, a2: real, a3: real, b0: real, b1: real, b2: real, b3: real, c: real, d0: real, d1: real, d2: real, d3: real, p0: real, s0: real)
    requires d0 == b0 * c
    requires d1 == b1 * c
    requires d2 == b2 * c
    requires d3 == b3 * c
    requires p0 == a0 * b0 - a1 * b1 - a2 * b2 - a3 * b3
    requires s0 == a0 * d0 - a1 * d1 - a2 * d2 - a3 * d3
    ensures s0 == p0 * c
  {
  }

  lemma ScaledRightX(a0: real, a1: real, a2: real, a3: real, b0: real, b1: real, b2: real, b3: real, c: real, d0: real, d1: real, d2: real, d3: real, p1: real, s1: real)
    requires d0 == b0 * c
    requires d1 == b1 * c
    requires d2 == b2 * c
    requires d3 == b3 * c
    requires p1 == a0 * b1 + a1 * b0 + a2 * b3 - a3 * b2
    requires s1 == a0 * d1 + a1 * d0 + a2 * d3 - a3 * d2
    ensures s1 == p1 * c
  {
  }

  lemma ScaledRightY(a0: real, a1: real, a2: real, a3: real, b0: real, b1: real, b2: real, b3: real, c: real, d0: real, d1: real, d2: real, d3: real, p2: real, s2: real)
    requires d0 == b0 * c
    requires d1 == b1 * c
    requires d2 == b2 * c
    requires d3 == b3 * c
    requires p2 == a0 * b2 - a1 * b3 + a2 * b0 + a3 * b1
    requires s2 == a0 * d2 - a1 * d3 + a2 * d0 + a3 * d1
    ensures s2 == p2 * c
  {
  }

  lemma ScaledRightZ(a0: real, a1: real, a2: real, a3: real, b0: real, b1: real, b2: real, b3: real, c: real, d0: real, d1: real, d2: real, d3: real, p3: real, s3: real)
    requires d0 == b0 * c
    requires d1 == b1 * c
    requires d2 == b2 * c
    requires d3 == b3 * c
    requires p3 == a0 * b3 + a1 * b2 - a2 * b1 + a3 * b0
    requires s3 == a0 * d3 + a1 * d2 - a2 * d1 + a3 * d0
    ensures s3 == p3 * c
  {
  }

  /** Component of (a c) b = (a b) c for a real c, with d = a c. */
  lemma ScaledLeftW(a0: real, a1: real, a2: real, a3: real, b0: real, b1: real, b2: real, b3: real, c: real, d0: real, d1: real, d2: real, d3: real, p0: real, s0: real)
    requires d0 == a0 * c
    requires d1 == a1 * c
    requires d2 == a2 * c
    requires d3 == a3 * c
    requires p0 == a0 * b0 - a1 * b1 - a2 * b2 - a3 * b3
    requires s0 == d0 * b0 - d1 * b1 - d2 * b2 - d3 * b3
    ensures s0 == p0 * c
  {
  }

  lemma ScaledLeftX(a0: real, a1: real, a2: real, a3: real, b0: real, b1: real, b2: real, b3: real, c: real, d0: real, d1: real, d2: real, d3: real, p1: real, s1: real)
    requires d0 == a0 * c
    requires d1 == a1 * c
    requires d2 == a2 * c
    requires d3 == a3 * c
    requires p1 == a0 * b1 + a1 * b0 + a2 * b3 - a3 * b2
    requires s1 == d0 * b1 + d1 * b0 + d2 * b3 - d3 * b2
    ensures s1 == p1 * c
  {
  }

  lemma ScaledLeftY(a0: real, a1: real, a2: real, a3: real, b0: real, b1: real, b2: real, b3: real, c: real, d0: real, d1: real, d2: real, d3: real, p2: real, s2: real)
    requires d0 == a0 * c
    requires d1 == a1 * c
    requires d2 == a2 * c
    requires d3 == a3 * c
    requires p2 == a0 * b2 - a1 * b3 + a2 * b0 + a3 * b1
    requires s2 == d0 * b2 - d1 * b3 + d2 * b0 + d3 * b1
    ensures s2 == p2 * c
  {
  }

  lemma ScaledLeftZ(a0: real, a1: real, a2: real, a3: real, b0: real, b1: real, b2: real, b3: real, c: real, d0: real, d1: real, d2: real, d3: real, p3: real, s3: real)
    requires d0 == a0 * c
    requires d1 == a1 * c
    requires d2 == a2 * c
    requires d3 == a3 * c
    requires p3 == a0 * b3 + a1 * b2 - a2 * b1 + a3 * b0
    requires s3 == d0 * b3 + d1 * b2 - d2 * b1 + d3 * b0
    ensures s3 == p3 * c
  {
  }

  /** Component of q (0, v) q* = (0, rotate(v, q)), with u = (0, v) and c = q*. */
  lemma SandwichW(q0: real, q1: real, q2: real, q3: real, v0: real, v1: real, v2: real, u0: real, u1: real, u2: real, u3: real, c0: real, c1: real, c2: real, c3: real, p0: real, p1: real, p2: real, p3: real, s0: real)
    requires u0 == 0.0
    requires u1 == v0 && u2 == v1 && u3 == v2
    requires c0 == q0 && c1 == -q1 && c2 == -q2 && c3 == -q3
    requires p0 == q0 * u0 - q1 * u1 - q2 * u2 - q3 * u3
    requires p1 == q0 * u1 + q1 * u0 + q2 * u3 - q3 * u2
    requires p2 == q0 * u2 - q1 * u3 + q2 * u0 + q3 * u1
    requires p3 == q0 * u3 + q1 * u2 - q2 * u1 + q3 * u0
    requires s0 == p0 * c0 - p1 * c1 - p2 * c2 - p3 * c3
    ensures s0 == 0.0
  {
  }

  lemma SandwichX(q0: real, q1: real, q2: real, q3: real, v0: real, v1: real, v2: real, u0: real, u1: real, u2: real, u3: real, c0: real, c1: real, c2: real, c3: real, p0: real, p1: real, p2: real, p3: real, s1: real, r0: real)
    requires u0 == 0.0
    requires u1 == v0 && u2 == v1 && u3 == v2
    requires c0 == q0 && c1 == -q1 && c2 == -q2 && c3 == -q3
    requires p0 == q0 * u0 - q1 * u1 - q2 * u2 - q3 * u3
    requires p1 == q0 * u1 + q1 * u0 + q2 * u3 - q3 * u2
    requires p2 == q0 * u2 - q1 * u3 + q2 * u0 + q3 * u1
    requires p3 == q0 * u3 + q1 * u2 - q2 * u1 + q3 * u0
    requires s1 == p0 * c1 + p1 * c0 + p2 * c3 - p3 * c2
    requires r0 == (q1 * (v0 * q1 + v1 * q2 + v2 * q3) + (q2 * v2 - q3 * v1) * q0) * 2.0 + v0 * (q0 * q0 - (q1 * q1 + q2 * q2 + q3 * q3))
    ensures s1 == r0
  {
  }

  lemma SandwichY(q0: real, q1: real, q2: real, q3: real, v0: real, v1: real, v2: real, u0: real, u1: real, u2: real, u3: real, c0: real, c1: real, c2: real, c3: real, p0: real, p1: real, p2: real, p3: real, s2: real, r1: real)
    requires u0 == 0.0
    requires u1 == v0 && u2 == v1 && u3 == v2
    requires c0 == q0 && c1 == -q1 && c2 == -q2 && c3 == -q3
    requires p0 == q0 * u0 - q1 * u1 - q2 * u2 - q3 * u3
    requires p1 == q0 * u1 + q1 * u0 + q2 * u3 - q3 * u2
    requires p2 == q0 * u2 - q1 * u3 + q2 * u0 + q3 * u1
    requires p3 == q0 * u3 + q1 * u2 - q2 * u1 + q3 * u0
    requires s2 == p0 * c2 - p1 * c3 + p2 * c0 + p3 * c1
    requires r1 == (q2 * (v0 * q1 + v1 * q2 + v2 * q3) + (q3 * v0 - q1 * v2) * q0) * 2.0 + v1 * (q0 * q0 - (q1 * q1 + q2 * q2 + q3 * q3))
    ensures s2 == r1
  {
  }

  lemma SandwichZ(q0: real, q1: real, q2: real, q3: real, v0: real, v1: real, v2: real, u0: real, u1: real, u2: real, u3: real, c0: real, c1: real, c2: real, c3: real, p0: real, p1: real, p2: real, p3: real, s3: real, r2: real)
    requires u0 == 0.0
    requires u1 == v0 && u2 == v1 && u3 == v2
    requires c0 == q0 && c1 == -q1 && c2 == -q2 && c3 == -q3
    requires p0 == q0 * u0 - q1 * u1 - q2 * u2 - q3 * u3
    requires p1 == q0 * u1 + q1 * u0 + q2 * u3 - q3 * u2
    requires p2 == q0 * u2 - q1 * u3 + q2 * u0 + q3 * u1
    requires p3 == q0 * u3 + q1 * u2 - q2 * u1 + q3 * u0
    requires s3 == p0 * c3 + p1 * c2 - p2 * c1 + p3 * c0
    requires r2 == (q3 * (v0 * q1 + v1 * q2 + v2 * q3) + (q1 * v1 - q2 * v0) * q0) * 2.0 + v2 * (q0 * q0 - (q1 * q1 + q2 * q2 + q3 * q3))
    ensures s3 == r2
  {
  }

  /** Component of rotate(a + b, q) = rotate(a, q) + rotate(b, q), with s = a + b. */
  lemma RotateAddX(q0: real, q1: real, q2: real, q3: real, a0: real, a1: real, a2: real, b0: real, b1: real, b2: real, s0: real, s1: real, s2: real, ra: real, rb: real, rs: real)
    requires s0 == a0 + b0
    requires s1 == a1 + b1
    requires s2 == a2 + b2
    requires ra == (q1 * (a0 * q1 + a1 * q2 + a2 * q3) + (q2 * a2 - q3 * a1) * q0) * 2.0 + a0 * (q0 * q0 - (q1 * q1 + q2 * q2 + q3 * q3))
    requires rb == (q1 * (b0 * q1 + b1 * q2 + b2 * q3) + (q2 * b2 - q3 * b1) * q0) * 2.0 + b0 * (q0 * q0 - (q1 * q1 + q2 * q2 + q3 * q3))
    requires rs == (q1 * (s0 * q1 + s1 * q2 + s2 * q3) + (q2 * s2 - q3 * s1) * q0) * 2.0 + s0 * (q0 * q0 - (q1 * q1 + q2 * q2 + q3 * q3))
    ensures rs == ra + rb
  {
  }

  lemma RotateAddY(q0: real, q1: real, q2: real, q3: real, a0: real, a1: real, a2: real, b0: real, b1: real, b2: real, s0: real, s1: real, s2: real, ra: real, rb: real, rs: real)
    requires s0 == a0 + b0
    requires s1 == a1 + b1
    requires s2 == a2 + b2
    requires ra == (q2 * (a0 * q1 + a1 * q2 + a2 * q3) + (q3 * a0 - q1 * a2) * q0) * 2.0 + a1 * (q0 * q0 - (q1 * q1 + q2 * q2 + q3 * q3))
    requires rb == (q2 * (b0 * q1 + b1 * q2 + b2 * q3) + (q3 * b0 - q1 * b2) * q0) * 2.0 + b1 * (q0 * q0 - (q1 * q1 + q2 * q2 + q3 * q3))
    requires rs == (q2 * (s0 * q1 + s1 * q2 + s2 * q3) + (q3 * s0 - q1 * s2) * q0) * 2.0 + s1 * (q0 * q0 - (q1 * q1 + q2 * q2 + q3 * q3))
    ensures rs == ra + rb
  {
  }

  lemma RotateAddZ(q0: real, q1: real, q2: real, q3: real, a0: real, a1: real, a2: real, b0: real, b1: real, b2: real, s0: real, s1: real, s2: real, ra: real, rb: real, rs: real)
    requires s0 == a0 + b0
    requires s1 == a1 + b1
    requires s2 == a2 + b2
    requires ra == (q3 * (a0 * q1 + a1 * q2 + a2 * q3) + (q1 * a1 - q2 * a0) * q0) * 2.0 + a2 * (q0 * q0 - (q1 * q1 + q2 * q2 + q3 * q3))
    requires rb == (q3 * (b0 * q1 + b1 * q2 + b2 * q3) + (q1 * b1 - q2 * b0) * q0) * 2.0 + b2 * (q0 * q0 - (q1 * q1 + q2 * q2 + q3 * q3))
    requires rs == (q3 * (s0 * q1 + s1 * q2 + s2 * q3) + (q1 * s1 - q2 * s0) * q0) * 2.0 + s2 * (q0 * q0 - (q1 * q1 + q2 * q2 + q3 * q3))
    ensures rs == ra + rb
  {
  }

  /** Component of rotate(a c, q) = rotate(a, q) c, with s = a c. */
  lemma RotateScaleX(q0: real, q1: real, q2: real, q3: real, a0: real, a1: real, a2: real, c: real, s0: real, s1: real, s2: real, ra: real, rs: real)
    requires s0 == a0 * c
    requires s1 == a1 * c
    requires s2 == a2 * c
    requires ra == (q1 * (a0 * q1 + a1 * q2 + a2 * q3) + (q2 * a2 - q3 * a1) * q0) * 2.0 + a0 * (q0 * q0 - (q1 * q1 + q2 * q2 + q3 * q3))
    requires rs == (q1 * (s0 * q1 + s1 * q2 + s2 * q3) + (q2 * s2 - q3 * s1) * q0) * 2.0 + s0 * (q0 * q0 - (q1 * q1 + q2 * q2 + q3 * q3))
    ensures rs == ra * c
  {
  }

  lemma RotateScaleY(q0: real, q1: real, q2: real, q3: real, a0: real, a1: real, a2: real, c: real, s0: real, s1: real, s2: real, ra: real, rs: real)
    requires s0 == a0 * c
    requires s1 == a1 * c
    requires s2 == a2 * c
    requires ra == (q2 * (a0 * q1 + a1 * q2 + a2 * q3) + (q3 * a0 - q1 * a2) * q0) * 2.0 + a1 * (q0 * q0 - (q1 * q1 + q2 * q2 + q3 * q3))
    requires rs == (q2 * (s0 * q1 + s1 * q2 + s2 * q3) + (q3 * s0 - q1 * s2) * q0) * 2.0 + s1 * (q0 * q0 - (q1 * q1 + q2 * q2 + q3 * q3))
    ensures rs == ra * c
  {
  }

  lemma RotateScaleZ(q0: real, q1: real, q2: real, q3: real, a0: real, a1: real, a2: real, c: real, s0: real, s1: real, s2: real, ra: real, rs: real)
    requires s0 == a0 * c
    requires s1 == a1 * c
    requires s2 == a2 * c
    requires ra == (q3 * (a0 * q1 + a1 * q2 + a2 * q3) + (q1 * a1 - q2 * a0) * q0) * 2.0 + a2 * (q0 * q0 - (q1 * q1 + q2 * q2 + q3 * q3))
    requires rs == (q3 * (s0 * q1 + s1 * q2 + s2 * q3) + (q1 * s1 - q2 * s0) * q0) * 2.0 + s2 * (q0 * q0 - (q1 * q1 + q2 * q2 + q3 * q3))
    ensures rs == ra * c
  {
  }
}
