/** `Transform` (src/Transform.cpp): a 3x3 matrix of doubles stored row
    major as nine values m0..m8, with the product, the application to a
    point, the inverse through the adjugate, the determinant (as written,
    with its third cofactor wrong) and the named affine builders. */
module Transforms {
  import opened ZMath
  import opened Vectors

  datatype Transform = Transform(
    m0: real, m1: real, m2: real,
    m3: real, m4: real, m5: real,
    m6: real, m7: real, m8: real)

  /** `Transform()` and `init`: the identity matrix. */
  const Identity := Transform(1.0, 0.0, 0.0, 0.0, 1.0, 0.0, 0.0, 0.0, 1.0)

  /** Row and column indices of the matrix. */
  type Index = i: int | 0 <= i < 3

  /** The entry in row i, column j: the value `m[3 * i + j]`. */
  function Entry(t: Transform, i: Index, j: Index): real
  {
    if i == 0 then (if j == 0 then t.m0 else if j == 1 then t.m1 else t.m2)
    else if i == 1 then (if j == 0 then t.m3 else if j == 1 then t.m4 else t.m5)
    else (if j == 0 then t.m6 else if j == 1 then t.m7 else t.m8)
  }

  /** The inner product of a row and a column. */
  function Dot3(a0: real, a1: real, a2: real, b0: real, b1: real, b2: real): real
  {
    a0 * b0 + a1 * b1 + a2 * b2
  }

  /** `getMultiplication(T)`, and the new value `multiply(T)` gives this:
      the row-major product this . T. */
  function Multiply(a: Transform, b: Transform): Transform
  {
    Transform(
      Dot3(a.m0, a.m1, a.m2, b.m0, b.m3, b.m6),
      Dot3(a.m0, a.m1, a.m2, b.m1, b.m4, b.m7),
      Dot3(a.m0, a.m1, a.m2, b.m2, b.m5, b.m8),
      Dot3(a.m3, a.m4, a.m5, b.m0, b.m3, b.m6),
      Dot3(a.m3, a.m4, a.m5, b.m1, b.m4, b.m7),
      Dot3(a.m3, a.m4, a.m5, b.m2, b.m5, b.m8),
      Dot3(a.m6, a.m7, a.m8, b.m0, b.m3, b.m6),
      Dot3(a.m6, a.m7, a.m8, b.m1, b.m4, b.m7),
      Dot3(a.m6, a.m7, a.m8, b.m2, b.m5, b.m8))
  }

  /** Every entry of the product is the inner product of row i of the left
      factor with column j of the right one. */
  lemma MultiplyEntry(a: Transform, b: Transform, i: Index, j: Index)
    ensures Entry(Multiply(a, b), i, j)
         == Entry(a, i, 0) * Entry(b, 0, j) + Entry(a, i, 1) * Entry(b, 1, j) + Entry(a, i, 2) * Entry(b, 2, j)
  {
    if i == 0 {
      if j == 0 {} else if j == 1 {} else {}
    } else if i == 1 {
      if j == 0 {} else if j == 1 {} else {}
    } else {
      if j == 0 {} else if j == 1 {} else {}
    }
  }

  /** Two matrices with the same entries are the same matrix. */
  lemma EntriesDetermine(s: Transform, t: Transform)
    requires forall i: Index, j: Index :: Entry(s, i, j) == Entry(t, i, j)
    ensures s == t
  {
    assert Entry(s, 0, 0) == Entry(t, 0, 0) && Entry(s, 0, 1) == Entry(t, 0, 1) && Entry(s, 0, 2) == Entry(t, 0, 2);
    assert Entry(s, 1, 0) == Entry(t, 1, 0) && Entry(s, 1, 1) == Entry(t, 1, 1) && Entry(s, 1, 2) == Entry(t, 1, 2);
    assert Entry(s, 2, 0) == Entry(t, 2, 0) && Entry(s, 2, 1) == Entry(t, 2, 1) && Entry(s, 2, 2) == Entry(t, 2, 2);
  }

  /** The identity is a unit on both sides. */
  lemma IdentityUnit(t: Transform)
    ensures Multiply(Identity, t) == t
    ensures Multiply(t, Identity) == t
  {
  }

  lemma Dot3Associative(
    a0: real, a1: real, a2: real,
    b00: real, b01: real, b02: real,
    b10: real, b11: real, b12: real,
    b20: real, b21: real, b22: real,
    c0: real, c1: real, c2: real)
    ensures Dot3(Dot3(a0, a1, a2, b00, b10, b20), Dot3(a0, a1, a2, b01, b11, b21), Dot3(a0, a1, a2, b02, b12, b22), c0, c1, c2)
         == Dot3(a0, a1, a2, Dot3(b00, b01, b02, c0, c1, c2), Dot3(b10, b11, b12, c0, c1, c2), Dot3(b20, b21, b22, c0, c1, c2))
  {
    var p0 := Dot3(a0, a1, a2, b00, b10, b20);
    var p1 := Dot3(a0, a1, a2, b01, b11, b21);
    var p2 := Dot3(a0, a1, a2, b02, b12, b22);
    var q0 := Dot3(b00, b01, b02, c0, c1, c2);
    var q1 := Dot3(b10, b11, b12, c0, c1, c2);
    var q2 := Dot3(b20, b21, b22, c0, c1, c2);
    assert p0 * c0 == (a0 * b00 + a1 * b10 + a2 * b20) * c0;
    assert p1 * c1 == (a0 * b01 + a1 * b11 + a2 * b21) * c1;
    assert p2 * c2 == (a0 * b02 + a1 * b12 + a2 * b22) * c2;
    assert a0 * q0 == a0 * (b00 * c0 + b01 * c1 + b02 * c2);
    assert a1 * q1 == a1 * (b10 * c0 + b11 * c1 + b12 * c2);
    assert a2 * q2 == a2 * (b20 * c0 + b21 * c1 + b22 * c2);
  }

  /** The product is associative (over the reals; doubles round). */
  lemma MultiplyAssociative(a: Transform, b: Transform, c: Transform)
    ensures Multiply(Multiply(a, b), c) == Multiply(a, Multiply(b, c))
  {
    Dot3Associative(a.m0, a.m1, a.m2, b.m0, b.m1, b.m2, b.m3, b.m4, b.m5, b.m6, b.m7, b.m8, c.m0, c.m3, c.m6);
    Dot3Associative(a.m0, a.m1, a.m2, b.m0, b.m1, b.m2, b.m3, b.m4, b.m5, b.m6, b.m7, b.m8, c.m1, c.m4, c.m7);
    Dot3Associative(a.m0, a.m1, a.m2, b.m0, b.m1, b.m2, b.m3, b.m4, b.m5, b.m6, b.m7, b.m8, c.m2, c.m5, c.m8);
    Dot3Associative(a.m3, a.m4, a.m5, b.m0, b.m1, b.m2, b.m3, b.m4, b.m5, b.m6, b.m7, b.m8, c.m0, c.m3, c.m6);
    Dot3Associative(a.m3, a.m4, a.m5, b.m0, b.m1, b.m2, b.m3, b.m4, b.m5, b.m6, b.m7, b.m8, c.m1, c.m4, c.m7);
    Dot3Associative(a.m3, a.m4, a.m5, b.m0, b.m1, b.m2, b.m3, b.m4, b.m5, b.m6, b.m7, b.m8, c.m2, c.m5, c.m8);
    Dot3Associative(a.m6, a.m7, a.m8, b.m0, b.m1, b.m2, b.m3, b.m4, b.m5, b.m6, b.m7, b.m8, c.m0, c.m3, c.m6);
    Dot3Associative(a.m6, a.m7, a.m8, b.m0, b.m1, b.m2, b.m3, b.m4, b.m5, b.m6, b.m7, b.m8, c.m1, c.m4, c.m7);
    Dot3Associative(a.m6, a.m7, a.m8, b.m0, b.m1, b.m2, b.m3, b.m4, b.m5, b.m6, b.m7, b.m8, c.m2, c.m5, c.m8);
  }

  /** `getMultiplication(vector)`: only the top two rows are used, the
      point being taken as (x, y, 1). */
  function Apply(t: Transform, p: Vec): Vec
  {
    Vec(t.m0 * p.x + t.m1 * p.y + t.m2, t.m3 * p.x + t.m4 * p.y + t.m5)
  }

  /** A matrix whose bottom row is (0, 0, 1), as every builder produces. */
  predicate IsAffine(t: Transform)
  {
    t.m6 == 0.0 && t.m7 == 0.0 && t.m8 == 1.0
  }

  lemma ApplyIdentity(p: Vec)
    ensures Apply(Identity, p) == p
  {
  }

  /** Applying a product applies the right factor first, provided that
      factor keeps the third coordinate at 1. */
  lemma ApplyMultiply(a: Transform, b: Transform, p: Vec)
    requires IsAffine(b)
    ensures Apply(Multiply(a, b), p) == Apply(a, Apply(b, p))
  {
    var q := Apply(b, p);
    ApplyRow(a.m0, a.m1, a.m2, b, p, q.x, q.y);
    ApplyRow(a.m3, a.m4, a.m5, b, p, q.x, q.y);
  }

  lemma ApplyRow(r0: real, r1: real, r2: real, b: Transform, p: Vec, qx: real, qy: real)
    requires IsAffine(b)
    requires qx == b.m0 * p.x + b.m1 * p.y + b.m2
    requires qy == b.m3 * p.x + b.m4 * p.y + b.m5
    ensures Dot3(r0, r1, r2, b.m0, b.m3, b.m6) * p.x + Dot3(r0, r1, r2, b.m1, b.m4, b.m7) * p.y + Dot3(r0, r1, r2, b.m2, b.m5, b.m8)
         == r0 * qx + r1 * qy + r2
  {
    assert r0 * qx == r0 * (b.m0 * p.x + b.m1 * p.y + b.m2);
    assert r1 * qy == r1 * (b.m3 * p.x + b.m4 * p.y + b.m5);
  }

  lemma MultiplyAffine(a: Transform, b: Transform)
    requires IsAffine(a) && IsAffine(b)
    ensures IsAffine(Multiply(a, b))
  {
  }

  /** A 2x2 minor a b - c d, the shape of every numerator `getInverse`
      and `getDeterminant` compute. */
  function Minor(a: real, b: real, c: real, d: real): real
  {
    a * b - c * d
  }

  /** `getDeterminant` as written: its third term repeats the second minor
      (m3 m8 - m6 m5) where the expansion needs m3 m7 - m6 m4. */
  function GetDeterminant(t: Transform): real
  {
    t.m0 * Minor(t.m4, t.m8, t.m7, t.m5)
    - t.m1 * Minor(t.m3, t.m8, t.m6, t.m5)
    + t.m2 * Minor(t.m3, t.m8, t.m6, t.m5)
  }

  /** The determinant of the matrix with entries m0..m8, by expansion
      along the first row. */
  function Det9(m0: real, m1: real, m2: real, m3: real, m4: real, m5: real, m6: real, m7: real, m8: real): real
  {
    m0 * Minor(m4, m8, m7, m5) - m1 * Minor(m3, m8, m6, m5) + m2 * Minor(m3, m7, m6, m4)
  }

  function Determinant(t: Transform): real
  {
    Det9(t.m0, t.m1, t.m2, t.m3, t.m4, t.m5, t.m6, t.m7, t.m8)
  }

  /** On an affine matrix `getDeterminant` returns m0 m4 - m1 m3 + m2 m3,
      so it is the determinant exactly when m2 m3 = 0: as soon as a matrix
      translates horizontally and shears or rotates, the value is wrong. */
  lemma GetDeterminantOfAffine(t: Transform)
    requires IsAffine(t)
    ensures GetDeterminant(t) == t.m0 * t.m4 - t.m1 * t.m3 + t.m2 * t.m3
    ensures Determinant(t) == t.m0 * t.m4 - t.m1 * t.m3
    ensures GetDeterminant(t) == Determinant(t) <==> t.m2 * t.m3 == 0.0
  {
  }

  /** A rotation by a quarter turn followed by a shift of 1 along x: its
      determinant is 1 and `getDeterminant` returns 2. */
  const QuarterTurnShifted := Transform(0.0, -1.0, 1.0, 1.0, 0.0, 0.0, 0.0, 0.0, 1.0)

  lemma GetDeterminantWrongExample()
    ensures Determinant(QuarterTurnShifted) == 1.0
    ensures GetDeterminant(QuarterTurnShifted) == 2.0
  {
  }

  /** The adjugate of the matrix with entries m0..m8, entry by entry as
      `getInverse` writes the numerators. */
  function Adj9(m0: real, m1: real, m2: real, m3: real, m4: real, m5: real, m6: real, m7: real, m8: real): Transform
  {
    Transform(
      Minor(m4, m8, m7, m5), -Minor(m1, m8, m7, m2), Minor(m1, m5, m4, m2),
      -Minor(m3, m8, m6, m5), Minor(m0, m8, m6, m2), -Minor(m0, m5, m3, m2),
      Minor(m3, m7, m6, m4), -Minor(m0, m7, m6, m1), Minor(m0, m4, m3, m1))
  }

  function Adjugate(t: Transform): Transform
  {
    Adj9(t.m0, t.m1, t.m2, t.m3, t.m4, t.m5, t.m6, t.m7, t.m8)
  }

  /** Every entry divided by d. */
  function DivideAll(t: Transform, d: real): Transform
    requires d != 0.0
  {
    Transform(t.m0 / d, t.m1 / d, t.m2 / d, t.m3 / d, t.m4 / d, t.m5 / d, t.m6 / d, t.m7 / d, t.m8 / d)
  }

  /** The diagonal matrix d I. */
  function Diagonal(d: real): Transform
  {
    Transform(d, 0.0, 0.0, 0.0, d, 0.0, 0.0, 0.0, d)
  }

  /** `getInverse`: the adjugate divided by `getDeterminant` (not by the
      determinant). A zero value would divide by zero. */
  function GetInverse(t: Transform): Transform
    requires GetDeterminant(t) != 0.0
  {
    DivideAll(Adjugate(t), GetDeterminant(t))
  }

  /** Laplace expansion: a matrix times its adjugate is its determinant
      times the identity. */
  lemma MultiplyAdjugate(t: Transform)
    ensures Multiply(t, Adjugate(t)) == Diagonal(Determinant(t))
  {
    MultiplyAdj9(t.m0, t.m1, t.m2, t.m3, t.m4, t.m5, t.m6, t.m7, t.m8);
  }

  lemma MultiplyAdj9(m0: real, m1: real, m2: real, m3: real, m4: real, m5: real, m6: real, m7: real, m8: real)
    ensures Multiply(Transform(m0, m1, m2, m3, m4, m5, m6, m7, m8), Adj9(m0, m1, m2, m3, m4, m5, m6, m7, m8))
         == Diagonal(Det9(m0, m1, m2, m3, m4, m5, m6, m7, m8))
  {
    LaplaceRow0(m0, m1, m2, m3, m4, m5, m6, m7, m8);
    LaplaceRow1(m0, m1, m2, m3, m4, m5, m6, m7, m8);
    LaplaceRow2(m0, m1, m2, m3, m4, m5, m6, m7, m8);
    LaplaceDiagonal1(m0, m1, m2, m3, m4, m5, m6, m7, m8);
    LaplaceDiagonal2(m0, m1, m2, m3, m4, m5, m6, m7, m8);
  }

  /** Row 0 of the matrix against each column of its adjugate: the
      determinant on the diagonal, zero elsewhere. */
  lemma LaplaceRow0(m0: real, m1: real, m2: real, m3: real, m4: real, m5: real, m6: real, m7: real, m8: real)
    ensures Dot3(m0, m1, m2, Minor(m4, m8, m7, m5), -Minor(m3, m8, m6, m5), Minor(m3, m7, m6, m4)) == Det9(m0, m1, m2, m3, m4, m5, m6, m7, m8)
    ensures Dot3(m0, m1, m2, -Minor(m1, m8, m7, m2), Minor(m0, m8, m6, m2), -Minor(m0, m7, m6, m1)) == 0.0
    ensures Dot3(m0, m1, m2, Minor(m1, m5, m4, m2), -Minor(m0, m5, m3, m2), Minor(m0, m4, m3, m1)) == 0.0
  {
    assert m0 * Minor(m4, m8, m7, m5) == m0 * (m4 * m8 - m7 * m5);
    assert m0 * -Minor(m1, m8, m7, m2) == m0 * -(m1 * m8 - m7 * m2);
    assert m0 * Minor(m1, m5, m4, m2) == m0 * (m1 * m5 - m4 * m2);
    assert m1 * -Minor(m3, m8, m6, m5) == m1 * -(m3 * m8 - m6 * m5);
    assert m1 * Minor(m0, m8, m6, m2) == m1 * (m0 * m8 - m6 * m2);
    assert m1 * -Minor(m0, m5, m3, m2) == m1 * -(m0 * m5 - m3 * m2);
    assert m2 * Minor(m3, m7, m6, m4) == m2 * (m3 * m7 - m6 * m4);
    assert m2 * -Minor(m0, m7, m6, m1) == m2 * -(m0 * m7 - m6 * m1);
    assert m2 * Minor(m0, m4, m3, m1) == m2 * (m0 * m4 - m3 * m1);
  }

  lemma LaplaceRow1(m0: real, m1: real, m2: real, m3: real, m4: real, m5: real, m6: real, m7: real, m8: real)
    ensures Dot3(m3, m4, m5, Minor(m4, m8, m7, m5), -Minor(m3, m8, m6, m5), Minor(m3, m7, m6, m4)) == 0.0
    ensures Dot3(m3, m4, m5, Minor(m1, m5, m4, m2), -Minor(m0, m5, m3, m2), Minor(m0, m4, m3, m1)) == 0.0
  {
    assert m3 * Minor(m4, m8, m7, m5) == m3 * (m4 * m8 - m7 * m5);
    assert m3 * Minor(m1, m5, m4, m2) == m3 * (m1 * m5 - m4 * m2);
    assert m4 * -Minor(m3, m8, m6, m5) == m4 * -(m3 * m8 - m6 * m5);
    assert m4 * -Minor(m0, m5, m3, m2) == m4 * -(m0 * m5 - m3 * m2);
    assert m5 * Minor(m3, m7, m6, m4) == m5 * (m3 * m7 - m6 * m4);
    assert m5 * Minor(m0, m4, m3, m1) == m5 * (m0 * m4 - m3 * m1);
  }

  lemma LaplaceRow2(m0: real, m1: real, m2: real, m3: real, m4: real, m5: real, m6: real, m7: real, m8: real)
    ensures Dot3(m6, m7, m8, Minor(m4, m8, m7, m5), -Minor(m3, m8, m6, m5), Minor(m3, m7, m6, m4)) == 0.0
    ensures Dot3(m6, m7, m8, -Minor(m1, m8, m7, m2), Minor(m0, m8, m6, m2), -Minor(m0, m7, m6, m1)) == 0.0
  {
    assert m6 * Minor(m4, m8, m7, m5) == m6 * (m4 * m8 - m7 * m5);
    assert m6 * -Minor(m1, m8, m7, m2) == m6 * -(m1 * m8 - m7 * m2);
    assert m7 * -Minor(m3, m8, m6, m5) == m7 * -(m3 * m8 - m6 * m5);
    assert m7 * Minor(m0, m8, m6, m2) == m7 * (m0 * m8 - m6 * m2);
    assert m8 * Minor(m3, m7, m6, m4) == m8 * (m3 * m7 - m6 * m4);
    assert m8 * -Minor(m0, m7, m6, m1) == m8 * -(m0 * m7 - m6 * m1);
  }

  /** The expansion of the determinant along row 0, written monomial by
      monomial. */
  lemma Det9Monomials(m0: real, m1: real, m2: real, m3: real, m4: real, m5: real, m6: real, m7: real, m8: real)
    ensures Det9(m0, m1, m2, m3, m4, m5, m6, m7, m8)
         == m0 * (m4 * m8) - m0 * (m7 * m5) - m1 * (m3 * m8) + m1 * (m6 * m5) + m2 * (m3 * m7) - m2 * (m6 * m4)
  {
    assert m0 * Minor(m4, m8, m7, m5) == m0 * (m4 * m8) - m0 * (m7 * m5);
    assert m1 * Minor(m3, m8, m6, m5) == m1 * (m3 * m8) - m1 * (m6 * m5);
    assert m2 * Minor(m3, m7, m6, m4) == m2 * (m3 * m7) - m2 * (m6 * m4);
  }

  /** Row 1 of the matrix against column 1 of its adjugate: the
      determinant, by expansion along row 1. */
  lemma LaplaceDiagonal1(m0: real, m1: real, m2: real, m3: real, m4: real, m5: real, m6: real, m7: real, m8: real)
    ensures Dot3(m3, m4, m5, -Minor(m1, m8, m7, m2), Minor(m0, m8, m6, m2), -Minor(m0, m7, m6, m1)) == Det9(m0, m1, m2, m3, m4, m5, m6, m7, m8)
  {
    Det9Monomials(m0, m1, m2, m3, m4, m5, m6, m7, m8);
    assert m3 * -Minor(m1, m8, m7, m2) == m3 * (m7 * m2) - m3 * (m1 * m8);
    assert m4 * Minor(m0, m8, m6, m2) == m4 * (m0 * m8) - m4 * (m6 * m2);
    assert m5 * -Minor(m0, m7, m6, m1) == m5 * (m6 * m1) - m5 * (m0 * m7);
    assert m3 * (m7 * m2) == m2 * (m3 * m7);
    assert m3 * (m1 * m8) == m1 * (m3 * m8);
    assert m4 * (m0 * m8) == m0 * (m4 * m8);
    assert m4 * (m6 * m2) == m2 * (m6 * m4);
    assert m5 * (m6 * m1) == m1 * (m6 * m5);
    assert m5 * (m0 * m7) == m0 * (m7 * m5);
  }

  /** Row 2 of the matrix against column 2 of its adjugate: the
      determinant, by expansion along row 2. */
  lemma LaplaceDiagonal2(m0: real, m1: real, m2: real, m3: real, m4: real, m5: real, m6: real, m7: real, m8: real)
    ensures Dot3(m6, m7, m8, Minor(m1, m5, m4, m2), -Minor(m0, m5, m3, m2), Minor(m0, m4, m3, m1)) == Det9(m0, m1, m2, m3, m4, m5, m6, m7, m8)
  {
    Det9Monomials(m0, m1, m2, m3, m4, m5, m6, m7, m8);
    assert m6 * Minor(m1, m5, m4, m2) == m6 * (m1 * m5) - m6 * (m4 * m2);
    assert m7 * -Minor(m0, m5, m3, m2) == m7 * (m3 * m2) - m7 * (m0 * m5);
    assert m8 * Minor(m0, m4, m3, m1) == m8 * (m0 * m4) - m8 * (m3 * m1);
    assert m6 * (m1 * m5) == m1 * (m6 * m5);
    assert m6 * (m4 * m2) == m2 * (m6 * m4);
    assert m7 * (m3 * m2) == m2 * (m3 * m7);
    assert m7 * (m0 * m5) == m0 * (m7 * m5);
    assert m8 * (m0 * m4) == m0 * (m4 * m8);
    assert m8 * (m3 * m1) == m1 * (m3 * m8);
  }

  lemma Dot3Divided(a0: real, a1: real, a2: real, b0: real, b1: real, b2: real, d: real)
    requires d != 0.0
    ensures Dot3(a0, a1, a2, b0 / d, b1 / d, b2 / d) == Dot3(a0, a1, a2, b0, b1, b2) / d
  {
    assert a0 * (b0 / d) == (a0 * b0) / d;
    assert a1 * (b1 / d) == (a1 * b1) / d;
    assert a2 * (b2 / d) == (a2 * b2) / d;
    assert (a0 * b0) / d + (a1 * b1) / d + (a2 * b2) / d == (a0 * b0 + a1 * b1 + a2 * b2) / d;
  }

  /** Dividing the right factor divides the product. */
  lemma MultiplyDivided(a: Transform, b: Transform, d: real)
    requires d != 0.0
    ensures Multiply(a, DivideAll(b, d)) == DivideAll(Multiply(a, b), d)
  {
    Dot3Divided(a.m0, a.m1, a.m2, b.m0, b.m3, b.m6, d);
    Dot3Divided(a.m0, a.m1, a.m2, b.m1, b.m4, b.m7, d);
    Dot3Divided(a.m0, a.m1, a.m2, b.m2, b.m5, b.m8, d);
    Dot3Divided(a.m3, a.m4, a.m5, b.m0, b.m3, b.m6, d);
    Dot3Divided(a.m3, a.m4, a.m5, b.m1, b.m4, b.m7, d);
    Dot3Divided(a.m3, a.m4, a.m5, b.m2, b.m5, b.m8, d);
    Dot3Divided(a.m6, a.m7, a.m8, b.m0, b.m3, b.m6, d);
    Dot3Divided(a.m6, a.m7, a.m8, b.m1, b.m4, b.m7, d);
    Dot3Divided(a.m6, a.m7, a.m8, b.m2, b.m5, b.m8, d);
  }

  /** T . getInverse(T) is the determinant divided by `getDeterminant`
      times the identity; so `getInverse` is a right inverse exactly when
      `getDeterminant` agrees with the determinant. */
  lemma GetInverseIsInverse(t: Transform)
    requires GetDeterminant(t) != 0.0
    ensures Multiply(t, GetInverse(t)) == DivideAll(Diagonal(Determinant(t)), GetDeterminant(t))
    ensures Multiply(t, GetInverse(t)) == Identity <==> GetDeterminant(t) == Determinant(t)
  {
    var g := GetDeterminant(t);
    MultiplyDivided(t, Adjugate(t), g);
    MultiplyAdjugate(t);
    DivideDiagonal(Determinant(t), g);
  }

  /** The inverse of an affine matrix is affine when `getDeterminant`
      returns the true determinant: the bottom row of the adjugate is
      (0, 0, det), divided by the same value. */
  lemma InverseAffine(t: Transform)
    requires IsAffine(t)
    requires GetDeterminant(t) != 0.0 && GetDeterminant(t) == Determinant(t)
    ensures IsAffine(GetInverse(t))
  {
    GetDeterminantOfAffine(t);
    var g := GetDeterminant(t);
    assert Adjugate(t).m6 == 0.0 && Adjugate(t).m7 == 0.0;
    assert Adjugate(t).m8 == g;
    assert 0.0 / g == 0.0 && g / g == 1.0;
  }

  /** An affine matrix with a non-zero determinant sends distinct points
      to distinct points. */
  lemma AffineInjective(t: Transform, p: Vec, q: Vec)
    requires IsAffine(t) && Determinant(t) != 0.0
    requires Apply(t, p) == Apply(t, q)
    ensures p == q
  {
    GetDeterminantOfAffine(t);
    var u := p.x - q.x;
    var v := p.y - q.y;
    assert t.m0 * u + t.m1 * v == 0.0 by {
      assert t.m0 * p.x + t.m1 * p.y == t.m0 * q.x + t.m1 * q.y;
    }
    assert t.m3 * u + t.m4 * v == 0.0 by {
      assert t.m3 * p.x + t.m4 * p.y == t.m3 * q.x + t.m4 * q.y;
    }
    SolveHomogeneous(t.m0, t.m1, t.m3, t.m4, u, v);
  }

  /** A 2x2 linear system with a non-zero determinant has only the zero
      solution. */
  lemma SolveHomogeneous(a: real, b: real, c: real, d: real, u: real, v: real)
    requires a * u + b * v == 0.0 && c * u + d * v == 0.0
    requires a * d - b * c != 0.0
    ensures u == 0.0 && v == 0.0
  {
    var det := a * d - b * c;
    assert Product(det, u) == d * (a * u + b * v) - b * (c * u + d * v);
    assert Product(det, v) == a * (c * u + d * v) - c * (a * u + b * v);
    ProductZero(det, u);
    ProductZero(det, v);
  }

  /** The identity is its own `getInverse`. */
  lemma IdentityInverse()
    ensures GetDeterminant(Identity) == 1.0
    ensures GetInverse(Identity) == Identity
  {
    IdentityDeterminant();
    IdentityAdjugate();
    DivideByOne(Adjugate(Identity), GetDeterminant(Identity));
  }

  lemma IdentityDeterminant()
    ensures GetDeterminant(Identity) == 1.0
  {
  }

  lemma IdentityAdjugate()
    ensures Adjugate(Identity) == Identity
  {
  }

  lemma DivideByOne(t: Transform, d: real)
    requires d == 1.0
    ensures DivideAll(t, d) == t
  {
    DivOne(t.m0, d); DivOne(t.m1, d); DivOne(t.m2, d);
    DivOne(t.m3, d); DivOne(t.m4, d); DivOne(t.m5, d);
    DivOne(t.m6, d); DivOne(t.m7, d); DivOne(t.m8, d);
  }

  lemma DivOne(x: real, d: real)
    requires d == 1.0
    ensures x / d == x
  {
  }

  lemma DivideDiagonal(x: real, d: real)
    requires d != 0.0
    ensures DivideAll(Diagonal(x), d) == Identity <==> x == d
  {
    assert 0.0 / d == 0.0;
    if x == d {
      assert x / d == 1.0;
    } else {
      assert x / d != 1.0 by {
        if x / d == 1.0 {
          assert x == (x / d) * d;
        }
      }
    }
  }

  /** `translation(dx, dy)`: the identity with m2 = dx and m5 = dy. */
  function Translation(shift: Vec): Transform
  {
    Transform(1.0, 0.0, shift.x, 0.0, 1.0, shift.y, 0.0, 0.0, 1.0)
  }

  /** A translation shifts every point by its vector. */
  lemma TranslationShifts(shift: Vec, p: Vec)
    ensures Apply(Translation(shift), p) == Plus(p, shift)
  {
  }

  /** Cosine and sine of an angle, as `std::cos` and `std::sin` return
      them; the model never evaluates them. */
  datatype CosSin = CosSin(cos: real, sin: real)

  /** Maps an angle to its cosine and sine. */
  type TrigOracle = real -> CosSin

  /** The conjugation `translation(o) * m * translation(o * -1)` the
      builders apply when the origin is not (0, 0). */
  function AboutOrigin(m: Transform, origin: Vec): Transform
  {
    if origin != Zero then Multiply(Multiply(Translation(origin), m), Translation(Times(origin, -1.0)))
    else m
  }

  /** `rotation(angle, origin)`, given the cosine and sine of the angle. */
  function Rotation(cs: CosSin, origin: Vec): Transform
  {
    AboutOrigin(Transform(cs.cos, -cs.sin, 0.0, cs.sin, cs.cos, 0.0, 0.0, 0.0, 1.0), origin)
  }

  /** `scaling(fx, fy, origin)`. */
  function Scaling(fx: real, fy: real, origin: Vec): Transform
  {
    AboutOrigin(Transform(fx, 0.0, 0.0, 0.0, fy, 0.0, 0.0, 0.0, 1.0), origin)
  }

  /** Conjugating an affine map by a translation makes it act around the
      origin: p is sent to origin + m (p - origin), and the origin is
      fixed whenever m fixes (0, 0). */
  lemma ApplyAboutOrigin(m: Transform, origin: Vec, p: Vec)
    requires IsAffine(m) && m.m2 == 0.0 && m.m5 == 0.0
    ensures IsAffine(AboutOrigin(m, origin))
    ensures Apply(AboutOrigin(m, origin), p) == Plus(origin, Apply(m, Minus(p, origin)))
    ensures Apply(AboutOrigin(m, origin), origin) == origin
  {
    if origin != Zero {
      var back := Translation(Times(origin, -1.0));
      var there := Translation(origin);
      MultiplyAffine(there, m);
      MultiplyAffine(Multiply(there, m), back);
      ApplyMultiply(Multiply(there, m), back, p);
      ApplyMultiply(there, m, Apply(back, p));
      assert Apply(back, p) == Minus(p, origin);
      ApplyMultiply(Multiply(there, m), back, origin);
      ApplyMultiply(there, m, Apply(back, origin));
      assert Apply(back, origin) == Zero;
    }
    assert Minus(origin, origin) == Zero;
  }

  /** `rotation(angle, origin)` turns every point about the origin (for
      any cosine and sine) and leaves the origin where it is. */
  lemma RotationAboutOrigin(cs: CosSin, origin: Vec, p: Vec)
    ensures IsAffine(Rotation(cs, origin))
    ensures Apply(Rotation(cs, origin), p)
         == Vec(origin.x + cs.cos * (p.x - origin.x) - cs.sin * (p.y - origin.y),
                origin.y + cs.sin * (p.x - origin.x) + cs.cos * (p.y - origin.y))
    ensures Apply(Rotation(cs, origin), origin) == origin
  {
    ApplyAboutOrigin(Transform(cs.cos, -cs.sin, 0.0, cs.sin, cs.cos, 0.0, 0.0, 0.0, 1.0), origin, p);
  }

  /** `scaling(fx, fy, origin)` stretches every point away from the
      origin and leaves the origin where it is. */
  lemma ScalingAboutOrigin(fx: real, fy: real, origin: Vec, p: Vec)
    ensures IsAffine(Scaling(fx, fy, origin))
    ensures Apply(Scaling(fx, fy, origin), p)
         == Vec(origin.x + fx * (p.x - origin.x), origin.y + fy * (p.y - origin.y))
    ensures Apply(Scaling(fx, fy, origin), origin) == origin
  {
    ApplyAboutOrigin(Transform(fx, 0.0, 0.0, 0.0, fy, 0.0, 0.0, 0.0, 1.0), origin, p);
  }

  /** `reflection(axisX, axisY)`: the identity with m0 set to -1 when
      axisX holds and m4 set to -1 when axisY holds. */
  function Reflection(axisX: bool, axisY: bool): Transform
  {
    Transform(if axisX then -1.0 else 1.0, 0.0, 0.0, 0.0, if axisY then -1.0 else 1.0, 0.0, 0.0, 0.0, 1.0)
  }

  /** A reflection negates the selected coordinates of every point, and
      reflecting twice is the identity. */
  lemma ReflectionProperties(axisX: bool, axisY: bool, p: Vec)
    ensures Apply(Reflection(axisX, axisY), p)
         == Vec(if axisX then -p.x else p.x, if axisY then -p.y else p.y)
    ensures Multiply(Reflection(axisX, axisY), Reflection(axisX, axisY)) == Identity
  {
  }

  /** `shearing(fx, fy)`: the identity with m1 = fx and m3 = fy. */
  function Shearing(fx: real, fy: real): Transform
  {
    Transform(1.0, fx, 0.0, fy, 1.0, 0.0, 0.0, 0.0, 1.0)
  }

  /** A shear adds fx y to x and fy x to y. */
  lemma ShearingShears(fx: real, fy: real, p: Vec)
    ensures Apply(Shearing(fx, fy), p) == Vec(p.x + fx * p.y, p.y + fy * p.x)
  {
    assert Apply(Shearing(fx, fy), p).x == p.x + fx * p.y;
    assert Apply(Shearing(fx, fy), p).y == p.y + fy * p.x;
  }

  /** `translate`, `rotate`, `scale`, `reflect` and `shear` replace this
      with this . builder, so on a point the builder acts first. */
  function Translate(t: Transform, shift: Vec): Transform { Multiply(t, Translation(shift)) }

  function Rotate(t: Transform, cs: CosSin, origin: Vec): Transform { Multiply(t, Rotation(cs, origin)) }

  function Scale(t: Transform, fx: real, fy: real, origin: Vec): Transform { Multiply(t, Scaling(fx, fy, origin)) }

  function Reflect(t: Transform, axisX: bool, axisY: bool): Transform { Multiply(t, Reflection(axisX, axisY)) }

  function Shear(t: Transform, fx: real, fy: real): Transform { Multiply(t, Shearing(fx, fy)) }

  /** Each in-place modifier applies its builder before the matrix it
      modifies. */
  lemma TranslateAppliesShiftFirst(t: Transform, shift: Vec, p: Vec)
    ensures Apply(Translate(t, shift), p) == Apply(t, Plus(p, shift))
  {
    ApplyMultiply(t, Translation(shift), p);
    TranslationShifts(shift, p);
  }

  lemma RotateAppliesRotationFirst(t: Transform, cs: CosSin, origin: Vec, p: Vec)
    ensures Apply(Rotate(t, cs, origin), p) == Apply(t, Apply(Rotation(cs, origin), p))
  {
    RotationAboutOrigin(cs, origin, p);
    ApplyMultiply(t, Rotation(cs, origin), p);
  }

  lemma ScaleAppliesScalingFirst(t: Transform, fx: real, fy: real, origin: Vec, p: Vec)
    ensures Apply(Scale(t, fx, fy, origin), p) == Apply(t, Apply(Scaling(fx, fy, origin), p))
  {
    ScalingAboutOrigin(fx, fy, origin, p);
    ApplyMultiply(t, Scaling(fx, fy, origin), p);
  }

  lemma ReflectAndShearApplyBuilderFirst(t: Transform, axisX: bool, axisY: bool, fx: real, fy: real, p: Vec)
    ensures Apply(Reflect(t, axisX, axisY), p) == Apply(t, Apply(Reflection(axisX, axisY), p))
    ensures Apply(Shear(t, fx, fy), p) == Apply(t, Apply(Shearing(fx, fy), p))
  {
    ApplyMultiply(t, Reflection(axisX, axisY), p);
    ApplyMultiply(t, Shearing(fx, fy), p);
  }

  /** Two translations compose into the translation by the sum. */
  lemma TranslationsCompose(a: Vec, b: Vec)
    ensures Multiply(Translation(a), Translation(b)) == Translation(Plus(a, b))
  {
  }
}
