/** The contracted terms `G1`, `G2`, `G3` of `Coordinates::geometry`,
    `G^i = (d_l (J g^il)) / J` summed over `l`, related to the Christoffel
    symbols. The derivatives of `J` and of `g^ij` are expressed through those
    of the covariant metric `g_ij`, as they are when `g^ij` is its inverse and
    `J` its root determinant: `d_l g^ij = -g^ia g^jb d_l g_ab` and
    `d_l J = J/2 g^ab d_l g_ab`. The identity is then `G^i = -g^jk G^i_jk`. */
module Contractions {
  import opened Cells
  import opened Metric
  import opened Christoffels
  import opened Geometry

  function Times(a: real, b: real): real {
    a * b
  }

  function Tri(a: real, b: real, c: real): real {
    a * b * c
  }

  /** `g^ia g^jb d_j g_ab`. */
  function T(g: Sym3, p: Partials, i: int, j: int, a: int, b: int): real
    requires 0 <= i < 3 && 0 <= j < 3 && 0 <= a < 3 && 0 <= b < 3
  {
    Tri(Entry(g, i, a), Entry(g, j, b), Partial(p, j, a, b))
  }

  /** `g^il g^ab d_l g_ab`. */
  function U(g: Sym3, p: Partials, i: int, l: int, a: int, b: int): real
    requires 0 <= i < 3 && 0 <= l < 3 && 0 <= a < 3 && 0 <= b < 3
  {
    Tri(Entry(g, i, l), Entry(g, a, b), Partial(p, l, a, b))
  }

  function SumT(g: Sym3, p: Partials, i: int): real
    requires 0 <= i < 3
  {
    T(g, p, i, 0, 0, 0) + T(g, p, i, 0, 0, 1) + T(g, p, i, 0, 0, 2) +
      T(g, p, i, 0, 1, 0) + T(g, p, i, 0, 1, 1) + T(g, p, i, 0, 1, 2) +
      T(g, p, i, 0, 2, 0) + T(g, p, i, 0, 2, 1) + T(g, p, i, 0, 2, 2) +
      T(g, p, i, 1, 0, 0) + T(g, p, i, 1, 0, 1) + T(g, p, i, 1, 0, 2) +
      T(g, p, i, 1, 1, 0) + T(g, p, i, 1, 1, 1) + T(g, p, i, 1, 1, 2) +
      T(g, p, i, 1, 2, 0) + T(g, p, i, 1, 2, 1) + T(g, p, i, 1, 2, 2) +
      T(g, p, i, 2, 0, 0) + T(g, p, i, 2, 0, 1) + T(g, p, i, 2, 0, 2) +
      T(g, p, i, 2, 1, 0) + T(g, p, i, 2, 1, 1) + T(g, p, i, 2, 1, 2) +
      T(g, p, i, 2, 2, 0) + T(g, p, i, 2, 2, 1) + T(g, p, i, 2, 2, 2)
  }

  function SumU(g: Sym3, p: Partials, i: int): real
    requires 0 <= i < 3
  {
    U(g, p, i, 0, 0, 0) + U(g, p, i, 0, 0, 1) + U(g, p, i, 0, 0, 2) +
      U(g, p, i, 0, 1, 0) + U(g, p, i, 0, 1, 1) + U(g, p, i, 0, 1, 2) +
      U(g, p, i, 0, 2, 0) + U(g, p, i, 0, 2, 1) + U(g, p, i, 0, 2, 2) +
      U(g, p, i, 1, 0, 0) + U(g, p, i, 1, 0, 1) + U(g, p, i, 1, 0, 2) +
      U(g, p, i, 1, 1, 0) + U(g, p, i, 1, 1, 1) + U(g, p, i, 1, 1, 2) +
      U(g, p, i, 1, 2, 0) + U(g, p, i, 1, 2, 1) + U(g, p, i, 1, 2, 2) +
      U(g, p, i, 2, 0, 0) + U(g, p, i, 2, 0, 1) + U(g, p, i, 2, 0, 2) +
      U(g, p, i, 2, 1, 0) + U(g, p, i, 2, 1, 1) + U(g, p, i, 2, 1, 2) +
      U(g, p, i, 2, 2, 0) + U(g, p, i, 2, 2, 1) + U(g, p, i, 2, 2, 2)
  }

  /** `g^jk G^i_jk` for one pair `(j, k)`. */
  function Weighted(g: Sym3, p: Partials, i: int, j: int, k: int): real
    requires 0 <= i < 3 && 0 <= j < 3 && 0 <= k < 3
  {
    Entry(g, j, k) * Reference(g, p, i, j, k)
  }

  /** `-g^jk G^i_jk`, summed over `j` and `k`. */
  function ContractedSymbols(g: Sym3, p: Partials, i: int): real
    requires 0 <= i < 3
  {
    -(
        Weighted(g, p, i, 0, 0) + Weighted(g, p, i, 0, 1) + Weighted(g, p, i, 0, 2) +
        Weighted(g, p, i, 1, 0) + Weighted(g, p, i, 1, 1) + Weighted(g, p, i, 1, 2) +
        Weighted(g, p, i, 2, 0) + Weighted(g, p, i, 2, 1) + Weighted(g, p, i, 2, 2))
  }

  /** The sum of a sequence of numbers. */
  function Total(s: seq<real>): real
  {
    if |s| == 0 then 0.0 else s[0] + Total(s[1..])
  }

  lemma TotalNine(a0: real, a1: real, a2: real, a3: real, a4: real, a5: real, a6: real, a7: real, a8: real)
    ensures Total([a0, a1, a2, a3, a4, a5, a6, a7, a8]) == a0 + a1 + a2 + a3 + a4 + a5 + a6 + a7 + a8
  {
    assert Total([a8]) == a8 by { assert [a8][1..] == []; }
    assert Total([a7, a8]) == a7 + a8 by { assert [a7, a8][1..] == [a8]; }
    assert Total([a6, a7, a8]) == a6 + a7 + a8 by { assert [a6, a7, a8][1..] == [a7, a8]; }
    assert Total([a5, a6, a7, a8]) == a5 + a6 + a7 + a8 by { assert [a5, a6, a7, a8][1..] == [a6, a7, a8]; }
    assert Total([a4, a5, a6, a7, a8]) == a4 + a5 + a6 + a7 + a8 by { assert [a4, a5, a6, a7, a8][1..] == [a5, a6, a7, a8]; }
    assert Total([a3, a4, a5, a6, a7, a8]) == a3 + a4 + a5 + a6 + a7 + a8 by {
      assert [a3, a4, a5, a6, a7, a8][1..] == [a4, a5, a6, a7, a8];
    }
    assert Total([a2, a3, a4, a5, a6, a7, a8]) == a2 + a3 + a4 + a5 + a6 + a7 + a8 by {
      assert [a2, a3, a4, a5, a6, a7, a8][1..] == [a3, a4, a5, a6, a7, a8];
    }
    assert Total([a1, a2, a3, a4, a5, a6, a7, a8]) == a1 + a2 + a3 + a4 + a5 + a6 + a7 + a8 by {
      assert [a1, a2, a3, a4, a5, a6, a7, a8][1..] == [a2, a3, a4, a5, a6, a7, a8];
    }
    assert [a0, a1, a2, a3, a4, a5, a6, a7, a8][1..] == [a1, a2, a3, a4, a5, a6, a7, a8];
  }

  /** `g^ab d_l g_ab`. */
  function TraceSlope(g: Sym3, p: Partials, l: int): real
    requires 0 <= l < 3
  {
    Total([Times(Entry(g, 0, 0), Partial(p, l, 0, 0)), Times(Entry(g, 0, 1), Partial(p, l, 0, 1)), Times(Entry(g, 0, 2), Partial(p, l, 0, 2)),
           Times(Entry(g, 1, 0), Partial(p, l, 1, 0)), Times(Entry(g, 1, 1), Partial(p, l, 1, 1)), Times(Entry(g, 1, 2), Partial(p, l, 1, 2)),
           Times(Entry(g, 2, 0), Partial(p, l, 2, 0)), Times(Entry(g, 2, 1), Partial(p, l, 2, 1)), Times(Entry(g, 2, 2), Partial(p, l, 2, 2))])
  }

  /** `d_l g^ij = -g^ia g^jb d_l g_ab`, the derivative of the inverse. */
  function InverseSlope(g: Sym3, p: Partials, l: int, i: int, j: int): real
    requires 0 <= l < 3 && 0 <= i < 3 && 0 <= j < 3
  {
    -Total([Tri(Entry(g, i, 0), Entry(g, j, 0), Partial(p, l, 0, 0)), Tri(Entry(g, i, 0), Entry(g, j, 1), Partial(p, l, 0, 1)),
            Tri(Entry(g, i, 0), Entry(g, j, 2), Partial(p, l, 0, 2)), Tri(Entry(g, i, 1), Entry(g, j, 0), Partial(p, l, 1, 0)),
            Tri(Entry(g, i, 1), Entry(g, j, 1), Partial(p, l, 1, 1)), Tri(Entry(g, i, 1), Entry(g, j, 2), Partial(p, l, 1, 2)),
            Tri(Entry(g, i, 2), Entry(g, j, 0), Partial(p, l, 2, 0)), Tri(Entry(g, i, 2), Entry(g, j, 1), Partial(p, l, 2, 1)),
            Tri(Entry(g, i, 2), Entry(g, j, 2), Partial(p, l, 2, 2))])
  }

  /** `d_l J = J/2 g^ab d_l g_ab`. */
  function JacobianSlope(jac: real, g: Sym3, p: Partials, l: int): real
    requires 0 <= l < 3
  {
    0.5 * jac * TraceSlope(g, p, l)
  }

  /** `d_l (J g^ik)` by the product rule. */
  function ScaledSlope(jac: real, g: Sym3, p: Partials, l: int, i: int, k: int): real
    requires 0 <= l < 3 && 0 <= i < 3 && 0 <= k < 3
  {
    JacobianSlope(jac, g, p, l) * Entry(g, i, k) + jac * InverseSlope(g, p, l, i, k)
  }

  lemma EntrySymmetric(g: Sym3, j: int, k: int)
    requires 0 <= j < 3 && 0 <= k < 3
    ensures Entry(g, j, k) == Entry(g, k, j)
  {
  }

  lemma ScaledSum(e: real, g0: real, g1: real, g2: real,
                  x0: real, x1: real, x2: real, y0: real, y1: real, y2: real,
                  z0: real, z1: real, z2: real)
    ensures e * (0.5 * (g0 * (x0 + y0 - z0) + g1 * (x1 + y1 - z1) + g2 * (x2 + y2 - z2))) ==
      0.5 * ((Tri(g0, e, x0) + Tri(g1, e, x1) + Tri(g2, e, x2))
           + (Tri(g0, e, y0) + Tri(g1, e, y1) + Tri(g2, e, y2))
           - (Tri(g0, e, z0) + Tri(g1, e, z1) + Tri(g2, e, z2)))
  {
    assert e * (g0 * (x0 + y0 - z0)) == Tri(g0, e, x0) + Tri(g0, e, y0) - Tri(g0, e, z0);
    assert e * (g1 * (x1 + y1 - z1)) == Tri(g1, e, x1) + Tri(g1, e, y1) - Tri(g1, e, z1);
    assert e * (g2 * (x2 + y2 - z2)) == Tri(g2, e, x2) + Tri(g2, e, y2) - Tri(g2, e, z2);
  }

  /** `g^jk G^i_jk` with the symbol written out as its sum over `l`. */
  lemma WeightedForm(g: Sym3, p: Partials, i: int, j: int, k: int)
    requires 0 <= i < 3 && 0 <= j < 3 && 0 <= k < 3
    ensures Weighted(g, p, i, j, k) == Entry(g, j, k) * (0.5 * (
        Entry(g, i, 0) * (Partial(p, j, 0, k) + Partial(p, k, 0, j) - Partial(p, 0, j, k))
      + Entry(g, i, 1) * (Partial(p, j, 1, k) + Partial(p, k, 1, j) - Partial(p, 1, j, k))
      + Entry(g, i, 2) * (Partial(p, j, 2, k) + Partial(p, k, 2, j) - Partial(p, 2, j, k))))
  {
  }

  /** The degree-3 terms of one `g^jk G^i_jk`, named. */
  lemma TermForms(g: Sym3, p: Partials, i: int, j: int, k: int, l: int)
    requires 0 <= i < 3 && 0 <= j < 3 && 0 <= k < 3 && 0 <= l < 3
    ensures T(g, p, i, j, l, k) == Tri(Entry(g, i, l), Entry(g, j, k), Partial(p, j, l, k))
    ensures T(g, p, i, k, l, j) == Tri(Entry(g, i, l), Entry(g, j, k), Partial(p, k, l, j))
    ensures U(g, p, i, l, j, k) == Tri(Entry(g, i, l), Entry(g, j, k), Partial(p, l, j, k))
  {
    EntrySymmetric(g, j, k);
  }

  /** One term `g^jk G^i_jk` spread into the degree-3 terms. */
  lemma WeightedExpansion(g: Sym3, p: Partials, i: int, j: int, k: int)
    requires 0 <= i < 3 && 0 <= j < 3 && 0 <= k < 3
    ensures Weighted(g, p, i, j, k) ==
      0.5 * ((T(g, p, i, j, 0, k) + T(g, p, i, j, 1, k) + T(g, p, i, j, 2, k))
           + (T(g, p, i, k, 0, j) + T(g, p, i, k, 1, j) + T(g, p, i, k, 2, j))
           - (U(g, p, i, 0, j, k) + U(g, p, i, 1, j, k) + U(g, p, i, 2, j, k)))
  {
    WeightedForm(g, p, i, j, k);
    TermForms(g, p, i, j, k, 0);
    TermForms(g, p, i, j, k, 1);
    TermForms(g, p, i, j, k, 2);
    ScaledSum(Entry(g, j, k), Entry(g, i, 0), Entry(g, i, 1), Entry(g, i, 2),
              Partial(p, j, 0, k), Partial(p, j, 1, k), Partial(p, j, 2, k),
              Partial(p, k, 0, j), Partial(p, k, 1, j), Partial(p, k, 2, j),
              Partial(p, 0, j, k), Partial(p, 1, j, k), Partial(p, 2, j, k));
  }

  /** The symbol side: `-g^jk G^i_jk = 1/2 SumU - SumT`. */
  lemma SymbolSide(g: Sym3, p: Partials, i: int)
    requires 0 <= i < 3
    ensures ContractedSymbols(g, p, i) == 0.5 * SumU(g, p, i) - SumT(g, p, i)
  {
    WeightedExpansion(g, p, i, 0, 0);
    WeightedExpansion(g, p, i, 0, 1);
    WeightedExpansion(g, p, i, 0, 2);
    WeightedExpansion(g, p, i, 1, 0);
    WeightedExpansion(g, p, i, 1, 1);
    WeightedExpansion(g, p, i, 1, 2);
    WeightedExpansion(g, p, i, 2, 0);
    WeightedExpansion(g, p, i, 2, 1);
    WeightedExpansion(g, p, i, 2, 2);
  }

  /** `g^il g^ab d_l g_ab`, summed over `a` and `b`. */
  function RowU(g: Sym3, p: Partials, i: int, l: int): real
    requires 0 <= i < 3 && 0 <= l < 3
  {
    Total([U(g, p, i, l, 0, 0), U(g, p, i, l, 0, 1), U(g, p, i, l, 0, 2),
           U(g, p, i, l, 1, 0), U(g, p, i, l, 1, 1), U(g, p, i, l, 1, 2),
           U(g, p, i, l, 2, 0), U(g, p, i, l, 2, 1), U(g, p, i, l, 2, 2)])
  }

  /** `g^ia g^lb d_l g_ab`, summed over `a` and `b`. */
  function RowT(g: Sym3, p: Partials, i: int, l: int): real
    requires 0 <= i < 3 && 0 <= l < 3
  {
    Total([T(g, p, i, l, 0, 0), T(g, p, i, l, 0, 1), T(g, p, i, l, 0, 2),
           T(g, p, i, l, 1, 0), T(g, p, i, l, 1, 1), T(g, p, i, l, 1, 2),
           T(g, p, i, l, 2, 0), T(g, p, i, l, 2, 1), T(g, p, i, l, 2, 2)])
  }

  /** `RowU` written out term by term. */
  lemma RowUTerms(g: Sym3, p: Partials, i: int, l: int)
    requires 0 <= i < 3 && 0 <= l < 3
    ensures RowU(g, p, i, l) ==
      U(g, p, i, l, 0, 0) + U(g, p, i, l, 0, 1) + U(g, p, i, l, 0, 2) +
      U(g, p, i, l, 1, 0) + U(g, p, i, l, 1, 1) + U(g, p, i, l, 1, 2) +
      U(g, p, i, l, 2, 0) + U(g, p, i, l, 2, 1) + U(g, p, i, l, 2, 2)
  {
    TotalNine(U(g, p, i, l, 0, 0), U(g, p, i, l, 0, 1), U(g, p, i, l, 0, 2),
              U(g, p, i, l, 1, 0), U(g, p, i, l, 1, 1), U(g, p, i, l, 1, 2),
              U(g, p, i, l, 2, 0), U(g, p, i, l, 2, 1), U(g, p, i, l, 2, 2));
  }

  /** `RowT` written out term by term. */
  lemma RowTTerms(g: Sym3, p: Partials, i: int, l: int)
    requires 0 <= i < 3 && 0 <= l < 3
    ensures RowT(g, p, i, l) ==
      T(g, p, i, l, 0, 0) + T(g, p, i, l, 0, 1) + T(g, p, i, l, 0, 2) +
      T(g, p, i, l, 1, 0) + T(g, p, i, l, 1, 1) + T(g, p, i, l, 1, 2) +
      T(g, p, i, l, 2, 0) + T(g, p, i, l, 2, 1) + T(g, p, i, l, 2, 2)
  {
    TotalNine(T(g, p, i, l, 0, 0), T(g, p, i, l, 0, 1), T(g, p, i, l, 0, 2),
              T(g, p, i, l, 1, 0), T(g, p, i, l, 1, 1), T(g, p, i, l, 1, 2),
              T(g, p, i, l, 2, 0), T(g, p, i, l, 2, 1), T(g, p, i, l, 2, 2));
  }

  lemma SumUByRow(g: Sym3, p: Partials, i: int)
    requires 0 <= i < 3
    ensures SumU(g, p, i) == RowU(g, p, i, 0) + RowU(g, p, i, 1) + RowU(g, p, i, 2)
  {
    RowUTerms(g, p, i, 0);
    RowUTerms(g, p, i, 1);
    RowUTerms(g, p, i, 2);
  }

  lemma SumTByRow(g: Sym3, p: Partials, i: int)
    requires 0 <= i < 3
    ensures SumT(g, p, i) == RowT(g, p, i, 0) + RowT(g, p, i, 1) + RowT(g, p, i, 2)
  {
    RowTTerms(g, p, i, 0);
    RowTTerms(g, p, i, 1);
    RowTTerms(g, p, i, 2);
  }

  /** `TraceSlope` written out term by term. */
  lemma TraceTerms(g: Sym3, p: Partials, l: int)
    requires 0 <= l < 3
    ensures TraceSlope(g, p, l) ==
      Times(Entry(g, 0, 0), Partial(p, l, 0, 0)) + Times(Entry(g, 0, 1), Partial(p, l, 0, 1)) + Times(Entry(g, 0, 2), Partial(p, l, 0, 2)) +
      Times(Entry(g, 1, 0), Partial(p, l, 1, 0)) + Times(Entry(g, 1, 1), Partial(p, l, 1, 1)) + Times(Entry(g, 1, 2), Partial(p, l, 1, 2)) +
      Times(Entry(g, 2, 0), Partial(p, l, 2, 0)) + Times(Entry(g, 2, 1), Partial(p, l, 2, 1)) + Times(Entry(g, 2, 2), Partial(p, l, 2, 2))
  {
    TotalNine(Times(Entry(g, 0, 0), Partial(p, l, 0, 0)), Times(Entry(g, 0, 1), Partial(p, l, 0, 1)), Times(Entry(g, 0, 2), Partial(p, l, 0, 2)),
              Times(Entry(g, 1, 0), Partial(p, l, 1, 0)), Times(Entry(g, 1, 1), Partial(p, l, 1, 1)), Times(Entry(g, 1, 2), Partial(p, l, 1, 2)),
              Times(Entry(g, 2, 0), Partial(p, l, 2, 0)), Times(Entry(g, 2, 1), Partial(p, l, 2, 1)), Times(Entry(g, 2, 2), Partial(p, l, 2, 2)));
  }

  /** The trace weighted by `g^il`, term by term. */
  lemma TraceWeightedTerms(g: Sym3, p: Partials, i: int, l: int)
    requires 0 <= i < 3 && 0 <= l < 3
    ensures (Times(Entry(g, 0, 0), Partial(p, l, 0, 0)) + Times(Entry(g, 0, 1), Partial(p, l, 0, 1)) + Times(Entry(g, 0, 2), Partial(p, l, 0, 2)) +
             Times(Entry(g, 1, 0), Partial(p, l, 1, 0)) + Times(Entry(g, 1, 1), Partial(p, l, 1, 1)) + Times(Entry(g, 1, 2), Partial(p, l, 1, 2)) +
             Times(Entry(g, 2, 0), Partial(p, l, 2, 0)) + Times(Entry(g, 2, 1), Partial(p, l, 2, 1)) + Times(Entry(g, 2, 2), Partial(p, l, 2, 2)))
            * Entry(g, i, l) ==
      U(g, p, i, l, 0, 0) + U(g, p, i, l, 0, 1) + U(g, p, i, l, 0, 2) +
      U(g, p, i, l, 1, 0) + U(g, p, i, l, 1, 1) + U(g, p, i, l, 1, 2) +
      U(g, p, i, l, 2, 0) + U(g, p, i, l, 2, 1) + U(g, p, i, l, 2, 2)
  {
  }

  lemma TraceWeighted(g: Sym3, p: Partials, i: int, l: int)
    requires 0 <= i < 3 && 0 <= l < 3
    ensures TraceSlope(g, p, l) * Entry(g, i, l) == RowU(g, p, i, l)
  {
    TraceTerms(g, p, l);
    TraceWeightedTerms(g, p, i, l);
    RowUTerms(g, p, i, l);
  }

  lemma InverseSlopeRow(g: Sym3, p: Partials, i: int, l: int)
    requires 0 <= i < 3 && 0 <= l < 3
    ensures InverseSlope(g, p, l, i, l) == -RowT(g, p, i, l)
  {
  }

  /** The product rule, factored: with `dj = J t / 2`, `t e = ru` and
      `s = -rt`, `dj e + J s = J (1/2 ru - rt)`. */
  lemma ProductRuleFactor(jac: real, dj: real, t: real, e: real, s: real, ru: real, rt: real)
    requires dj == 0.5 * jac * t && t * e == ru && s == -rt
    ensures dj * e + jac * s == jac * (0.5 * ru - rt)
  {
    assert dj * e == jac * (0.5 * (t * e));
  }

  /** `d_l (J g^il) / J` written through the rows: `1/2 g^il g^ab d_l g_ab - g^ia g^lb d_l g_ab`. */
  function RowSlope(g: Sym3, p: Partials, i: int, l: int): real
    requires 0 <= i < 3 && 0 <= l < 3
  {
    0.5 * RowU(g, p, i, l) - RowT(g, p, i, l)
  }

  /** One term `d_l (J g^il)` is `J` times its row. */
  lemma SlopeRow(jac: real, g: Sym3, p: Partials, i: int, l: int)
    requires 0 <= i < 3 && 0 <= l < 3
    ensures ScaledSlope(jac, g, p, l, i, l) == Times(jac, RowSlope(g, p, i, l))
  {
    TraceWeighted(g, p, i, l);
    InverseSlopeRow(g, p, i, l);
    ProductRuleFactor(jac, JacobianSlope(jac, g, p, l), TraceSlope(g, p, l), Entry(g, i, l), InverseSlope(g, p, l, i, l),
                      RowU(g, p, i, l), RowT(g, p, i, l));
  }

  /** Three terms `J r` add up to `J` times the sum of the `r`. */
  lemma FactorThree(jac: real, a0: real, a1: real, a2: real, r0: real, r1: real, r2: real)
    requires a0 == Times(jac, r0) && a1 == Times(jac, r1) && a2 == Times(jac, r2)
    ensures a0 + a1 + a2 == Times(jac, r0 + r1 + r2)
  {
  }

  /** The derivative side: `d_l (J g^il)` summed over `l` is `J` times the rows. */
  lemma DerivativeSide(jac: real, g: Sym3, p: Partials, i: int)
    requires 0 <= i < 3
    ensures ScaledSlope(jac, g, p, 0, i, 0) + ScaledSlope(jac, g, p, 1, i, 1) + ScaledSlope(jac, g, p, 2, i, 2) ==
      Times(jac, RowSlope(g, p, i, 0) + RowSlope(g, p, i, 1) + RowSlope(g, p, i, 2))
  {
    SlopeRow(jac, g, p, i, 0);
    SlopeRow(jac, g, p, i, 1);
    SlopeRow(jac, g, p, i, 2);
    FactorThree(jac, ScaledSlope(jac, g, p, 0, i, 0), ScaledSlope(jac, g, p, 1, i, 1), ScaledSlope(jac, g, p, 2, i, 2),
                RowSlope(g, p, i, 0), RowSlope(g, p, i, 1), RowSlope(g, p, i, 2));
  }

  /** The symbol side by rows: `-g^jk G^i_jk` is the sum of the rows. */
  lemma SymbolRows(g: Sym3, p: Partials, i: int)
    requires 0 <= i < 3
    ensures ContractedSymbols(g, p, i) == RowSlope(g, p, i, 0) + RowSlope(g, p, i, 1) + RowSlope(g, p, i, 2)
  {
    SymbolSide(g, p, i);
    SumUByRow(g, p, i);
    SumTByRow(g, p, i);
  }

  /** Dividing out a non-zero `J`. */
  lemma CancelJacobian(r: real, jac: real, x: real, y: real)
    requires jac != 0.0 && r * jac == Times(jac, y) && x == y
    ensures r == x
  {
    assert (r - x) * jac == 0.0;
  }

  /** `G^i` as `geometry()` forms it, `(DDX(J g^i1) + DDY(J g^i2) + DDZ(J g^i3)) / J`,
      is `-g^jk G^i_jk` wherever `J` is a non-zero number. */
  lemma ContractionIsContractedSymbols(jac: real, g: Sym3, p: Partials, i: int)
    requires jac != 0.0 && 0 <= i < 3
    ensures Contraction(Val(jac), Val(ScaledSlope(jac, g, p, 0, i, 0)), Val(ScaledSlope(jac, g, p, 1, i, 1)),
                        Val(ScaledSlope(jac, g, p, 2, i, 2))) == Val(ContractedSymbols(g, p, i))
  {
    var a, b, c := ScaledSlope(jac, g, p, 0, i, 0), ScaledSlope(jac, g, p, 1, i, 1), ScaledSlope(jac, g, p, 2, i, 2);
    DerivativeSide(jac, g, p, i);
    SymbolRows(g, p, i);
    CancelJacobian(Contraction(Val(jac), Val(a), Val(b), Val(c)).v, jac, ContractedSymbols(g, p, i),
                   RowSlope(g, p, i, 0) + RowSlope(g, p, i, 1) + RowSlope(g, p, i, 2));
  }
}
