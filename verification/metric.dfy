/** Pointwise algebra of the metric tensor: a symmetric 3x3 matrix stored as
    its six independent components, its determinant and its inverse. */
module Metric {

  /** Components in the source's order: 11, 22, 33, 12, 13, 23. */
  datatype Sym3 = Sym3(xx: real, yy: real, zz: real, xy: real, xz: real, yz: real)

  datatype Inversion = Singular | Inverse(m: Sym3)

  const Identity: Sym3 := Sym3(1.0, 1.0, 1.0, 0.0, 0.0, 0.0)

  // Products, minors, dot products and determinants are named functions so
  // that the lemmas below can hand them to one another as whole terms.

  function Times(x: real, y: real): real {
    x * y
  }

  /** `1 / x`. */
  function Recip(x: real): real
    requires x != 0.0
  {
    1.0 / x
  }

  /** A 2x2 minor `p q - r t`. */
  function Minor(p: real, q: real, r: real, t: real): real {
    p * q - r * t
  }

  /** A row of one matrix times a column of another. */
  function Dot(p1: real, p2: real, p3: real, q1: real, q2: real, q3: real): real {
    p1 * q1 + p2 * q2 + p3 * q3
  }

  /** The determinant over the components 11, 22, 33, 12, 13, 23. */
  function DetOf(a: real, b: real, c: real, d: real, e: real, f: real): real {
    a * b * c + 2.0 * d * e * f - a * f * f - b * e * e - c * d * d
  }

  function Det(m: Sym3): real {
    DetOf(m.xx, m.yy, m.zz, m.xy, m.xz, m.yz)
  }

  /** Matrix of cofactors; symmetric for a symmetric argument. */
  function Adjugate(m: Sym3): Sym3 {
    Sym3(Minor(m.yy, m.zz, m.yz, m.yz),
         Minor(m.xx, m.zz, m.xz, m.xz),
         Minor(m.xx, m.yy, m.xy, m.xy),
         Minor(m.xz, m.yz, m.xy, m.zz),
         Minor(m.xy, m.yz, m.xz, m.yy),
         Minor(m.xy, m.xz, m.xx, m.yz))
  }

  function Scale(k: real, m: Sym3): Sym3 {
    Sym3(Times(k, m.xx), Times(k, m.yy), Times(k, m.zz),
         Times(k, m.xy), Times(k, m.xz), Times(k, m.yz))
  }

  /** The six products the inversion diagnostics measure: the diagonal ones
      equal 1 and the off-diagonal ones 0. Holding both ways round, they fix
      all nine entries of both matrix products. */
  ghost predicate InverseIdentities(cov: Sym3, contra: Sym3) {
    && Dot(cov.xx, cov.xy, cov.xz, contra.xx, contra.xy, contra.xz) == 1.0
    && Dot(cov.xy, cov.yy, cov.yz, contra.xy, contra.yy, contra.yz) == 1.0
    && Dot(cov.xz, cov.yz, cov.zz, contra.xz, contra.yz, contra.zz) == 1.0
    && Dot(cov.xx, cov.xy, cov.xz, contra.xy, contra.yy, contra.yz) == 0.0
    && Dot(cov.xx, cov.xy, cov.xz, contra.xz, contra.yz, contra.zz) == 0.0
    && Dot(cov.xy, cov.yy, cov.yz, contra.xz, contra.yz, contra.zz) == 0.0
  }

  ghost predicate MutualInverses(a: Sym3, b: Sym3) {
    InverseIdentities(a, b) && InverseIdentities(b, a)
  }

  /** Direct inversion by adjugate over determinant (the role invert3x3 plays
      in the source); singular exactly when the determinant vanishes. */
  function Invert(m: Sym3): (r: Inversion)
    ensures r.Singular? <==> Det(m) == 0.0
    ensures r.Inverse? ==> MutualInverses(r.m, m)
  {
    if Det(m) == 0.0 then Singular
    else
      InverseLaws(m);
      Inverse(Scale(Recip(Det(m)), Adjugate(m)))
  }

  lemma RecipLaw(x: real)
    requires x != 0.0
    ensures Times(Recip(x), x) == 1.0 && Recip(x) != 0.0
  {
  }

  /** `m * A == d * I`, all nine entries, for a symmetric `A`. */
  ghost predicate TimesIsScaledIdentity(m: Sym3, A: Sym3, d: real) {
    && Dot(m.xx, m.xy, m.xz, A.xx, A.xy, A.xz) == d
    && Dot(m.xy, m.yy, m.yz, A.xy, A.yy, A.yz) == d
    && Dot(m.xz, m.yz, m.zz, A.xz, A.yz, A.zz) == d
    && Dot(m.xx, m.xy, m.xz, A.xy, A.yy, A.yz) == 0.0
    && Dot(m.xx, m.xy, m.xz, A.xz, A.yz, A.zz) == 0.0
    && Dot(m.xy, m.yy, m.yz, A.xz, A.yz, A.zz) == 0.0
    && Dot(m.xy, m.yy, m.yz, A.xx, A.xy, A.xz) == 0.0
    && Dot(m.xz, m.yz, m.zz, A.xx, A.xy, A.xz) == 0.0
    && Dot(m.xz, m.yz, m.zz, A.xy, A.yy, A.yz) == 0.0
  }

  // One lemma per entry of `m * adj(m)`, over a..f naming the components
  // 11, 22, 33, 12, 13, 23.

  lemma PolyAdjugateRow1Col1(a: real, b: real, c: real, d: real, e: real, f: real)
    ensures Dot(a, d, e, Minor(b, c, f, f), Minor(e, f, d, c), Minor(d, f, e, b)) == DetOf(a, b, c, d, e, f)
  {
    assert a * (b * c - f * f) == a * b * c - a * f * f;
    assert d * (e * f - d * c) == d * e * f - c * d * d;
    assert e * (d * f - e * b) == d * e * f - b * e * e;
  }

  lemma PolyAdjugateRow2Col2(a: real, b: real, c: real, d: real, e: real, f: real)
    ensures Dot(d, b, f, Minor(e, f, d, c), Minor(a, c, e, e), Minor(d, e, a, f)) == DetOf(a, b, c, d, e, f)
  {
    assert d * (e * f - d * c) == d * e * f - c * d * d;
    assert b * (a * c - e * e) == a * b * c - b * e * e;
    assert f * (d * e - a * f) == d * e * f - a * f * f;
  }

  lemma PolyAdjugateRow3Col3(a: real, b: real, c: real, d: real, e: real, f: real)
    ensures Dot(e, f, c, Minor(d, f, e, b), Minor(d, e, a, f), Minor(a, b, d, d)) == DetOf(a, b, c, d, e, f)
  {
    assert e * (d * f - e * b) == d * e * f - b * e * e;
    assert f * (d * e - a * f) == d * e * f - a * f * f;
    assert c * (a * b - d * d) == a * b * c - c * d * d;
  }

  lemma PolyAdjugateRow1Col2(a: real, b: real, c: real, d: real, e: real, f: real)
    ensures Dot(a, d, e, Minor(e, f, d, c), Minor(a, c, e, e), Minor(d, e, a, f)) == 0.0
  {
    assert a * (e * f - d * c) == a * e * f - a * c * d;
    assert d * (a * c - e * e) == a * c * d - d * e * e;
    assert e * (d * e - a * f) == d * e * e - a * e * f;
  }

  lemma PolyAdjugateRow1Col3(a: real, b: real, c: real, d: real, e: real, f: real)
    ensures Dot(a, d, e, Minor(d, f, e, b), Minor(d, e, a, f), Minor(a, b, d, d)) == 0.0
  {
    assert a * (d * f - e * b) == a * d * f - a * b * e;
    assert d * (d * e - a * f) == d * d * e - a * d * f;
    assert e * (a * b - d * d) == a * b * e - d * d * e;
  }

  lemma PolyAdjugateRow2Col3(a: real, b: real, c: real, d: real, e: real, f: real)
    ensures Dot(d, b, f, Minor(d, f, e, b), Minor(d, e, a, f), Minor(a, b, d, d)) == 0.0
  {
    assert d * (d * f - e * b) == d * d * f - b * d * e;
    assert b * (d * e - a * f) == b * d * e - a * b * f;
    assert f * (a * b - d * d) == a * b * f - d * d * f;
  }

  lemma PolyAdjugateRow2Col1(a: real, b: real, c: real, d: real, e: real, f: real)
    ensures Dot(d, b, f, Minor(b, c, f, f), Minor(e, f, d, c), Minor(d, f, e, b)) == 0.0
  {
    assert d * (b * c - f * f) == b * c * d - d * f * f;
    assert b * (e * f - d * c) == b * e * f - b * c * d;
    assert f * (d * f - e * b) == d * f * f - b * e * f;
  }

  lemma PolyAdjugateRow3Col1(a: real, b: real, c: real, d: real, e: real, f: real)
    ensures Dot(e, f, c, Minor(b, c, f, f), Minor(e, f, d, c), Minor(d, f, e, b)) == 0.0
  {
    assert e * (b * c - f * f) == b * c * e - e * f * f;
    assert f * (e * f - d * c) == e * f * f - c * d * f;
    assert c * (d * f - e * b) == c * d * f - b * c * e;
  }

  lemma PolyAdjugateRow3Col2(a: real, b: real, c: real, d: real, e: real, f: real)
    ensures Dot(e, f, c, Minor(e, f, d, c), Minor(a, c, e, e), Minor(d, e, a, f)) == 0.0
  {
    assert e * (e * f - d * c) == e * e * f - c * d * e;
    assert f * (a * c - e * e) == a * c * f - e * e * f;
    assert c * (d * e - a * f) == c * d * e - a * c * f;
  }

  /** `m * adj(m) == det(m) * I`. */
  lemma AdjugateProduct(m: Sym3)
    ensures TimesIsScaledIdentity(m, Adjugate(m), Det(m))
  {
    PolyAdjugateRow1Col1(m.xx, m.yy, m.zz, m.xy, m.xz, m.yz);
    PolyAdjugateRow2Col2(m.xx, m.yy, m.zz, m.xy, m.xz, m.yz);
    PolyAdjugateRow3Col3(m.xx, m.yy, m.zz, m.xy, m.xz, m.yz);
    PolyAdjugateRow1Col2(m.xx, m.yy, m.zz, m.xy, m.xz, m.yz);
    PolyAdjugateRow1Col3(m.xx, m.yy, m.zz, m.xy, m.xz, m.yz);
    PolyAdjugateRow2Col3(m.xx, m.yy, m.zz, m.xy, m.xz, m.yz);
    PolyAdjugateRow2Col1(m.xx, m.yy, m.zz, m.xy, m.xz, m.yz);
    PolyAdjugateRow3Col1(m.xx, m.yy, m.zz, m.xy, m.xz, m.yz);
    PolyAdjugateRow3Col2(m.xx, m.yy, m.zz, m.xy, m.xz, m.yz);
  }

  /** Scaling one factor of a dot product whose value is `v` scales the
      value. */
  lemma ScaledDot(s: real, v: real, w: real, p1: real, p2: real, p3: real, q1: real, q2: real, q3: real)
    requires Dot(q1, q2, q3, p1, p2, p3) == v && Times(s, v) == w
    ensures Dot(Times(s, p1), Times(s, p2), Times(s, p3), q1, q2, q3) == w
    ensures Dot(q1, q2, q3, Times(s, p1), Times(s, p2), Times(s, p3)) == w
  {
    assert Dot(Times(s, p1), Times(s, p2), Times(s, p3), q1, q2, q3) == s * Dot(q1, q2, q3, p1, p2, p3);
    assert Dot(q1, q2, q3, Times(s, p1), Times(s, p2), Times(s, p3)) == s * Dot(q1, q2, q3, p1, p2, p3);
  }

  /** If `m * A == d * I` and `s * d == 1` then `s * A` inverts `m`. */
  lemma ScaledInverse(m: Sym3, A: Sym3, d: real, s: real)
    requires TimesIsScaledIdentity(m, A, d) && Times(s, d) == 1.0
    ensures MutualInverses(Scale(s, A), m)
  {
    ScaledDot(s, d, 1.0, A.xx, A.xy, A.xz, m.xx, m.xy, m.xz);
    ScaledDot(s, d, 1.0, A.xy, A.yy, A.yz, m.xy, m.yy, m.yz);
    ScaledDot(s, d, 1.0, A.xz, A.yz, A.zz, m.xz, m.yz, m.zz);
    ScaledDot(s, 0.0, 0.0, A.xy, A.yy, A.yz, m.xx, m.xy, m.xz);
    ScaledDot(s, 0.0, 0.0, A.xz, A.yz, A.zz, m.xx, m.xy, m.xz);
    ScaledDot(s, 0.0, 0.0, A.xz, A.yz, A.zz, m.xy, m.yy, m.yz);
    ScaledDot(s, 0.0, 0.0, A.xx, A.xy, A.xz, m.xy, m.yy, m.yz);
    ScaledDot(s, 0.0, 0.0, A.xx, A.xy, A.xz, m.xz, m.yz, m.zz);
    ScaledDot(s, 0.0, 0.0, A.xy, A.yy, A.yz, m.xz, m.yz, m.zz);
  }

  lemma InverseLaws(m: Sym3)
    requires Det(m) != 0.0
    ensures MutualInverses(Scale(Recip(Det(m)), Adjugate(m)), m)
  {
    AdjugateProduct(m);
    RecipLaw(Det(m));
    ScaledInverse(m, Adjugate(m), Det(m), Recip(Det(m)));
  }

  // `adj(adj(m)) == det(m) * m`, one polynomial identity per component.

  lemma PolyAdjugateTwiceXX(a: real, b: real, c: real, d: real, e: real, f: real)
    ensures Minor(Minor(a, c, e, e), Minor(a, b, d, d), Minor(d, e, a, f), Minor(d, e, a, f))
         == Times(DetOf(a, b, c, d, e, f), a)
  {
    assert (a * c - e * e) * (a * b - d * d) == a * a * b * c - a * c * d * d - a * b * e * e + d * d * e * e;
    assert (d * e - a * f) * (d * e - a * f) == d * d * e * e - 2.0 * a * d * e * f + a * a * f * f;
    assert Times(DetOf(a, b, c, d, e, f), a) == a * a * b * c + 2.0 * a * d * e * f - a * a * f * f - a * b * e * e - a * c * d * d;
  }

  lemma AdjugateTwiceXX(m: Sym3)
    ensures Adjugate(Adjugate(m)).xx == Times(Det(m), m.xx)
  {
    PolyAdjugateTwiceXX(m.xx, m.yy, m.zz, m.xy, m.xz, m.yz);
  }

  lemma PolyAdjugateTwiceYY(a: real, b: real, c: real, d: real, e: real, f: real)
    ensures Minor(Minor(b, c, f, f), Minor(a, b, d, d), Minor(d, f, e, b), Minor(d, f, e, b))
         == Times(DetOf(a, b, c, d, e, f), b)
  {
    assert (b * c - f * f) * (a * b - d * d) == a * b * b * c - b * c * d * d - a * b * f * f + d * d * f * f;
    assert (d * f - e * b) * (d * f - e * b) == d * d * f * f - 2.0 * b * d * e * f + b * b * e * e;
    assert Times(DetOf(a, b, c, d, e, f), b) == a * b * b * c + 2.0 * b * d * e * f - a * b * f * f - b * b * e * e - b * c * d * d;
  }

  lemma AdjugateTwiceYY(m: Sym3)
    ensures Adjugate(Adjugate(m)).yy == Times(Det(m), m.yy)
  {
    PolyAdjugateTwiceYY(m.xx, m.yy, m.zz, m.xy, m.xz, m.yz);
  }

  lemma PolyAdjugateTwiceZZ(a: real, b: real, c: real, d: real, e: real, f: real)
    ensures Minor(Minor(b, c, f, f), Minor(a, c, e, e), Minor(e, f, d, c), Minor(e, f, d, c))
         == Times(DetOf(a, b, c, d, e, f), c)
  {
    assert (b * c - f * f) * (a * c - e * e) == a * b * c * c - b * c * e * e - a * c * f * f + e * e * f * f;
    assert (e * f - d * c) * (e * f - d * c) == e * e * f * f - 2.0 * c * d * e * f + c * c * d * d;
    assert Times(DetOf(a, b, c, d, e, f), c) == a * b * c * c + 2.0 * c * d * e * f - a * c * f * f - b * c * e * e - c * c * d * d;
  }

  lemma AdjugateTwiceZZ(m: Sym3)
    ensures Adjugate(Adjugate(m)).zz == Times(Det(m), m.zz)
  {
    PolyAdjugateTwiceZZ(m.xx, m.yy, m.zz, m.xy, m.xz, m.yz);
  }

  lemma PolyAdjugateTwiceXY(a: real, b: real, c: real, d: real, e: real, f: real)
    ensures Minor(Minor(d, f, e, b), Minor(d, e, a, f), Minor(e, f, d, c), Minor(a, b, d, d))
         == Times(DetOf(a, b, c, d, e, f), d)
  {
    assert (d * f - e * b) * (d * e - a * f) == d * d * e * f - a * d * f * f - b * d * e * e + a * b * e * f;
    assert (e * f - d * c) * (a * b - d * d) == a * b * e * f - d * d * e * f - a * b * c * d + c * d * d * d;
    assert Times(DetOf(a, b, c, d, e, f), d) == a * b * c * d + 2.0 * d * d * e * f - a * d * f * f - b * d * e * e - c * d * d * d;
  }

  lemma AdjugateTwiceXY(m: Sym3)
    ensures Adjugate(Adjugate(m)).xy == Times(Det(m), m.xy)
  {
    PolyAdjugateTwiceXY(m.xx, m.yy, m.zz, m.xy, m.xz, m.yz);
  }

  lemma PolyAdjugateTwiceXZ(a: real, b: real, c: real, d: real, e: real, f: real)
    ensures Minor(Minor(e, f, d, c), Minor(d, e, a, f), Minor(d, f, e, b), Minor(a, c, e, e))
         == Times(DetOf(a, b, c, d, e, f), e)
  {
    assert (e * f - d * c) * (d * e - a * f) == d * e * e * f - a * e * f * f - c * d * d * e + a * c * d * f;
    assert (d * f - e * b) * (a * c - e * e) == a * c * d * f - d * e * e * f - a * b * c * e + b * e * e * e;
    assert Times(DetOf(a, b, c, d, e, f), e) == a * b * c * e + 2.0 * d * e * e * f - a * e * f * f - b * e * e * e - c * d * d * e;
  }

  lemma AdjugateTwiceXZ(m: Sym3)
    ensures Adjugate(Adjugate(m)).xz == Times(Det(m), m.xz)
  {
    PolyAdjugateTwiceXZ(m.xx, m.yy, m.zz, m.xy, m.xz, m.yz);
  }

  lemma PolyAdjugateTwiceYZ(a: real, b: real, c: real, d: real, e: real, f: real)
    ensures Minor(Minor(e, f, d, c), Minor(d, f, e, b), Minor(b, c, f, f), Minor(d, e, a, f))
         == Times(DetOf(a, b, c, d, e, f), f)
  {
    assert (e * f - d * c) * (d * f - e * b) == d * e * f * f - b * e * e * f - c * d * d * f + b * c * d * e;
    assert (b * c - f * f) * (d * e - a * f) == b * c * d * e - a * b * c * f - d * e * f * f + a * f * f * f;
    assert Times(DetOf(a, b, c, d, e, f), f) == a * b * c * f + 2.0 * d * e * f * f - a * f * f * f - b * e * e * f - c * d * d * f;
  }

  lemma AdjugateTwiceYZ(m: Sym3)
    ensures Adjugate(Adjugate(m)).yz == Times(Det(m), m.yz)
  {
    PolyAdjugateTwiceYZ(m.xx, m.yy, m.zz, m.xy, m.xz, m.yz);
  }

  /** `adj(adj(m)) == det(m) * m`. */
  lemma AdjugateTwice(m: Sym3)
    ensures Adjugate(Adjugate(m)) == Scale(Det(m), m)
  {
    AdjugateTwiceXX(m);
    AdjugateTwiceYY(m);
    AdjugateTwiceZZ(m);
    AdjugateTwiceXY(m);
    AdjugateTwiceXZ(m);
    AdjugateTwiceYZ(m);
  }

  lemma DetSquare(d: real, dA: real, x1: real, x2: real, x3: real,
                  y1: real, y2: real, y3: real, m1: real, m2: real, m3: real)
    requires Dot(x1, x2, x3, y1, y2, y3) == dA
    requires y1 == Times(d, m1) && y2 == Times(d, m2) && y3 == Times(d, m3)
    requires Dot(m1, m2, m3, x1, x2, x3) == d
    ensures dA == Times(d, d)
  {
    assert Dot(x1, x2, x3, y1, y2, y3) == d * Dot(m1, m2, m3, x1, x2, x3);
  }

  /** `det(adj(m)) == det(m)^2`, read off the first diagonal entry of
      `adj(m) * adj(adj(m)) == det(adj(m)) * I`. */
  lemma DetOfAdjugate(m: Sym3)
    ensures Det(Adjugate(m)) == Times(Det(m), Det(m))
  {
    var A := Adjugate(m);
    var AA := Adjugate(A);
    AdjugateProduct(A);
    AdjugateTwiceXX(m);
    AdjugateTwiceXY(m);
    AdjugateTwiceXZ(m);
    PolyAdjugateRow1Col1(m.xx, m.yy, m.zz, m.xy, m.xz, m.yz);
    DetSquare(Det(m), Det(A), A.xx, A.xy, A.xz, AA.xx, AA.xy, AA.xz, m.xx, m.xy, m.xz);
  }

  lemma ScaledMinor(s: real, p: real, q: real, r: real, t: real)
    ensures Minor(Times(s, p), Times(s, q), Times(s, r), Times(s, t)) == Times(Times(s, s), Minor(p, q, r, t))
  {
    assert Times(s, p) * Times(s, q) == (s * s) * (p * q);
    assert Times(s, r) * Times(s, t) == (s * s) * (r * t);
  }

  lemma AdjugateOfScaledXX(s: real, m: Sym3)
    ensures Adjugate(Scale(s, m)).xx == Times(Times(s, s), Adjugate(m).xx)
  {
    ScaledMinor(s, m.yy, m.zz, m.yz, m.yz);
  }

  lemma AdjugateOfScaledYY(s: real, m: Sym3)
    ensures Adjugate(Scale(s, m)).yy == Times(Times(s, s), Adjugate(m).yy)
  {
    ScaledMinor(s, m.xx, m.zz, m.xz, m.xz);
  }

  lemma AdjugateOfScaledZZ(s: real, m: Sym3)
    ensures Adjugate(Scale(s, m)).zz == Times(Times(s, s), Adjugate(m).zz)
  {
    ScaledMinor(s, m.xx, m.yy, m.xy, m.xy);
  }

  lemma AdjugateOfScaledXY(s: real, m: Sym3)
    ensures Adjugate(Scale(s, m)).xy == Times(Times(s, s), Adjugate(m).xy)
  {
    ScaledMinor(s, m.xz, m.yz, m.xy, m.zz);
  }

  lemma AdjugateOfScaledXZ(s: real, m: Sym3)
    ensures Adjugate(Scale(s, m)).xz == Times(Times(s, s), Adjugate(m).xz)
  {
    ScaledMinor(s, m.xy, m.yz, m.xz, m.yy);
  }

  lemma AdjugateOfScaledYZ(s: real, m: Sym3)
    ensures Adjugate(Scale(s, m)).yz == Times(Times(s, s), Adjugate(m).yz)
  {
    ScaledMinor(s, m.xy, m.xz, m.xx, m.yz);
  }

  lemma CubeTimes(s: real, x: real)
    ensures Times(Times(Times(s, s), s), x) == ((s * s) * s) * x
  {
  }

  lemma PolyDetOfScaledRaw(s: real, a: real, b: real, c: real, d: real, e: real, f: real)
    ensures ((s * s) * s) * DetOf(a, b, c, d, e, f) == DetOf(s * a, s * b, s * c, s * d, s * e, s * f)
  {
  }

  lemma DetOfTimes(s: real, a: real, b: real, c: real, d: real, e: real, f: real)
    ensures DetOf(Times(s, a), Times(s, b), Times(s, c), Times(s, d), Times(s, e), Times(s, f))
         == DetOf(s * a, s * b, s * c, s * d, s * e, s * f)
  {
  }

  lemma PolyDetOfScaled(s: real, a: real, b: real, c: real, d: real, e: real, f: real)
    ensures DetOf(Times(s, a), Times(s, b), Times(s, c), Times(s, d), Times(s, e), Times(s, f))
         == Times(Times(Times(s, s), s), DetOf(a, b, c, d, e, f))
  {
    CubeTimes(s, DetOf(a, b, c, d, e, f));
    PolyDetOfScaledRaw(s, a, b, c, d, e, f);
    DetOfTimes(s, a, b, c, d, e, f);
  }

  lemma DetOfScaled(s: real, m: Sym3)
    ensures Det(Scale(s, m)) == Times(Times(Times(s, s), s), Det(m))
  {
    PolyDetOfScaled(s, m.xx, m.yy, m.zz, m.xy, m.xz, m.yz);
  }

  lemma ReciprocalCube(d: real, s: real, dA: real, dB: real)
    requires Times(s, d) == 1.0 && dA == Times(d, d) && dB == Times(Times(Times(s, s), s), dA)
    ensures dB == s
  {
    calc {
      dB;
      s * s * s * (d * d);
      (s * d) * (s * d) * s;
      { assert (s * d) * (s * d) == 1.0; }
      s;
    }
  }

  /** The inverse of a non-singular metric is non-singular, with the
      reciprocal determinant. */
  lemma DetOfInverse(m: Sym3)
    requires Det(m) != 0.0
    ensures Det(Scale(Recip(Det(m)), Adjugate(m))) == Recip(Det(m))
    ensures Det(Scale(Recip(Det(m)), Adjugate(m))) != 0.0
  {
    var d := Det(m);
    var s := Recip(d);
    var A := Adjugate(m);
    RecipLaw(d);
    DetOfScaled(s, A);
    DetOfAdjugate(m);
    ReciprocalCube(d, s, Det(A), Det(Scale(s, A)));
  }

  lemma Unscale(d: real, s: real, t: real, x: real, z: real, y: real)
    requires Times(s, d) == 1.0 && Times(t, s) == 1.0
    requires y == Times(Times(s, s), z) && z == Times(d, x)
    ensures Times(t, y) == x
  {
    calc {
      t * y;
      t * ((s * s) * (d * x));
      (t * s) * (s * d) * x;
      { assert (t * s) * (s * d) == 1.0; }
      x;
    }
  }

  lemma InvertTwiceXX(m: Sym3)
    requires Det(m) != 0.0
    ensures Invert(m).Inverse? && Invert(Invert(m).m).Inverse?
    ensures Invert(Invert(m).m).m.xx == m.xx
  {
    var d := Det(m);
    var s := Recip(d);
    var A := Adjugate(m);
    var B := Scale(s, A);
    RecipLaw(d);
    DetOfInverse(m);
    RecipLaw(Det(B));
    AdjugateOfScaledXX(s, A);
    AdjugateTwiceXX(m);
    Unscale(d, s, Recip(Det(B)), m.xx, Adjugate(A).xx, Adjugate(B).xx);
  }

  lemma InvertTwiceYY(m: Sym3)
    requires Det(m) != 0.0
    ensures Invert(m).Inverse? && Invert(Invert(m).m).Inverse?
    ensures Invert(Invert(m).m).m.yy == m.yy
  {
    var d := Det(m);
    var s := Recip(d);
    var A := Adjugate(m);
    var B := Scale(s, A);
    RecipLaw(d);
    DetOfInverse(m);
    RecipLaw(Det(B));
    AdjugateOfScaledYY(s, A);
    AdjugateTwiceYY(m);
    Unscale(d, s, Recip(Det(B)), m.yy, Adjugate(A).yy, Adjugate(B).yy);
  }

  lemma InvertTwiceZZ(m: Sym3)
    requires Det(m) != 0.0
    ensures Invert(m).Inverse? && Invert(Invert(m).m).Inverse?
    ensures Invert(Invert(m).m).m.zz == m.zz
  {
    var d := Det(m);
    var s := Recip(d);
    var A := Adjugate(m);
    var B := Scale(s, A);
    RecipLaw(d);
    DetOfInverse(m);
    RecipLaw(Det(B));
    AdjugateOfScaledZZ(s, A);
    AdjugateTwiceZZ(m);
    Unscale(d, s, Recip(Det(B)), m.zz, Adjugate(A).zz, Adjugate(B).zz);
  }

  lemma InvertTwiceXY(m: Sym3)
    requires Det(m) != 0.0
    ensures Invert(m).Inverse? && Invert(Invert(m).m).Inverse?
    ensures Invert(Invert(m).m).m.xy == m.xy
  {
    var d := Det(m);
    var s := Recip(d);
    var A := Adjugate(m);
    var B := Scale(s, A);
    RecipLaw(d);
    DetOfInverse(m);
    RecipLaw(Det(B));
    AdjugateOfScaledXY(s, A);
    AdjugateTwiceXY(m);
    Unscale(d, s, Recip(Det(B)), m.xy, Adjugate(A).xy, Adjugate(B).xy);
  }

  lemma InvertTwiceXZ(m: Sym3)
    requires Det(m) != 0.0
    ensures Invert(m).Inverse? && Invert(Invert(m).m).Inverse?
    ensures Invert(Invert(m).m).m.xz == m.xz
  {
    var d := Det(m);
    var s := Recip(d);
    var A := Adjugate(m);
    var B := Scale(s, A);
    RecipLaw(d);
    DetOfInverse(m);
    RecipLaw(Det(B));
    AdjugateOfScaledXZ(s, A);
    AdjugateTwiceXZ(m);
    Unscale(d, s, Recip(Det(B)), m.xz, Adjugate(A).xz, Adjugate(B).xz);
  }

  lemma InvertTwiceYZ(m: Sym3)
    requires Det(m) != 0.0
    ensures Invert(m).Inverse? && Invert(Invert(m).m).Inverse?
    ensures Invert(Invert(m).m).m.yz == m.yz
  {
    var d := Det(m);
    var s := Recip(d);
    var A := Adjugate(m);
    var B := Scale(s, A);
    RecipLaw(d);
    DetOfInverse(m);
    RecipLaw(Det(B));
    AdjugateOfScaledYZ(s, A);
    AdjugateTwiceYZ(m);
    Unscale(d, s, Recip(Det(B)), m.yz, Adjugate(A).yz, Adjugate(B).yz);
  }

  /** Inverting twice gives back the original metric: calcCovariant followed
      by calcContravariant is the identity at every non-singular point. */
  lemma InvertTwice(m: Sym3)
    requires Det(m) != 0.0
    ensures Invert(m).Inverse?
    ensures Invert(Invert(m).m) == Inverse(m)
  {
    InvertTwiceXX(m);
    InvertTwiceYY(m);
    InvertTwiceZZ(m);
    InvertTwiceXY(m);
    InvertTwiceXZ(m);
    InvertTwiceYZ(m);
  }
}
