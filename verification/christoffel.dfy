/** The Christoffel symbols `Gk_ij` that `Coordinates::geometry` evaluates at
    each point, from the contravariant metric `g^ij` and the partial
    derivatives of the covariant metric `g_ij`. The derivative engine is
    not modelled: its values at the point are inputs. */
module Christoffels {
  import opened Metric

  /** The partial derivatives `d/dx g_ij`, `d/dy g_ij`, `d/dz g_ij` at one point. */
  datatype Partials = Partials(ddx: Sym3, ddy: Sym3, ddz: Sym3)

  /** The 18 independent symbols: `gk.ij` is `Gk_ij`, with `xx` for 11,
      `xy` for 12 and so on. */
  datatype Symbols = Symbols(g1: Sym3, g2: Sym3, g3: Sym3)

  const Zero3: Sym3 := Sym3(0.0, 0.0, 0.0, 0.0, 0.0, 0.0)

  const NoVariation: Partials := Partials(Zero3, Zero3, Zero3)

  /** Entry `(i, j)` of a symmetric matrix, indices 0, 1, 2. */
  function Entry(m: Sym3, i: int, j: int): real
    requires 0 <= i < 3 && 0 <= j < 3
  {
    if i == 0 && j == 0 then m.xx
    else if i == 1 && j == 1 then m.yy
    else if i == 2 && j == 2 then m.zz
    else if (i == 0 && j == 1) || (i == 1 && j == 0) then m.xy
    else if (i == 0 && j == 2) || (i == 2 && j == 0) then m.xz
    else m.yz
  }

  /** `d_l g_ij`. */
  function Partial(p: Partials, l: int, i: int, j: int): real
    requires 0 <= l < 3 && 0 <= i < 3 && 0 <= j < 3
  {
    Entry(if l == 0 then p.ddx else if l == 1 then p.ddy else p.ddz, i, j)
  }

  /** The textbook Christoffel symbol of the second kind,
      `G^k_ij = 1/2 g^kl (d_i g_lj + d_j g_li - d_l g_ij)`, summed over `l`. */
  function Reference(g: Sym3, p: Partials, k: int, i: int, j: int): real
    requires 0 <= k < 3 && 0 <= i < 3 && 0 <= j < 3
  {
    0.5 * (
        Entry(g, k, 0) * (Partial(p, i, 0, j) + Partial(p, j, 0, i) - Partial(p, 0, i, j))
      + Entry(g, k, 1) * (Partial(p, i, 1, j) + Partial(p, j, 1, i) - Partial(p, 1, i, j))
      + Entry(g, k, 2) * (Partial(p, i, 2, j) + Partial(p, j, 2, i) - Partial(p, 2, i, j)))
  }

  function Symbol(s: Symbols, k: int): Sym3
    requires 0 <= k < 3
  {
    if k == 0 then s.g1 else if k == 1 then s.g2 else s.g3
  }

  /** Symbols `G1_ij`, exactly as `geometry()` writes them (the cancelling
      `DDY(g_23) - DDY(g_23)` in `G1_23` included). */
  function FirstRow(g: Sym3, p: Partials): Sym3 {
    var (x, y, z) := (p.ddx, p.ddy, p.ddz);
    Sym3(
      0.5 * g.xx * x.xx + g.xy * (x.xy - 0.5 * y.xx) + g.xz * (x.xz - 0.5 * z.xx),
      g.xx * (y.xy - 0.5 * x.yy) + 0.5 * g.xy * y.yy + g.xz * (y.yz - 0.5 * z.yy),
      g.xx * (z.xz - 0.5 * x.zz) + g.xy * (z.yz - 0.5 * y.zz) + 0.5 * g.xz * z.zz,
      0.5 * g.xx * y.xx + 0.5 * g.xy * x.yy + 0.5 * g.xz * (y.xz + x.yz - z.xy),
      0.5 * g.xx * z.xx + 0.5 * g.xy * (z.xy + x.yz - y.xz) + 0.5 * g.xz * x.zz,
      0.5 * g.xx * (z.xy + y.xz - x.yz) + 0.5 * g.xy * (z.yy + y.yz - y.yz) + 0.5 * g.xz * y.zz)
  }

  /** Symbols `G2_ij` as written, where `G2_22` differentiates the
      contravariant `g23` (its value `ddyG23` is an input). */
  function SecondRowAsWritten(g: Sym3, p: Partials, ddyG23: real): Sym3 {
    var (x, y, z) := (p.ddx, p.ddy, p.ddz);
    Sym3(
      0.5 * g.xy * x.xx + g.yy * (x.xy - 0.5 * y.xx) + g.yz * (x.xz - 0.5 * z.xx),
      g.xy * (y.xy - 0.5 * x.yy) + 0.5 * g.yy * y.yy + g.yz * (ddyG23 - 0.5 * z.yy),
      g.xy * (z.xz - 0.5 * x.zz) + g.yy * (z.yz - 0.5 * y.zz) + 0.5 * g.yz * z.zz,
      0.5 * g.xy * y.xx + 0.5 * g.yy * x.yy + 0.5 * g.yz * (y.xz + x.yz - z.xy),
      0.5 * g.xy * (z.xx + x.xz - x.xz) + 0.5 * g.yy * (z.xy + x.yz - y.xz) + 0.5 * g.yz * x.zz,
      0.5 * g.xy * (z.xy + y.xz - x.yz) + 0.5 * g.yy * z.yy + 0.5 * g.yz * y.zz)
  }

  /** Symbols `G2_ij` with `G2_22` taking `DDY(g_23)`, as the identity needs. */
  function SecondRow(g: Sym3, p: Partials): Sym3 {
    var (x, y, z) := (p.ddx, p.ddy, p.ddz);
    Sym3(
      0.5 * g.xy * x.xx + g.yy * (x.xy - 0.5 * y.xx) + g.yz * (x.xz - 0.5 * z.xx),
      g.xy * (y.xy - 0.5 * x.yy) + 0.5 * g.yy * y.yy + g.yz * (y.yz - 0.5 * z.yy),
      g.xy * (z.xz - 0.5 * x.zz) + g.yy * (z.yz - 0.5 * y.zz) + 0.5 * g.yz * z.zz,
      0.5 * g.xy * y.xx + 0.5 * g.yy * x.yy + 0.5 * g.yz * (y.xz + x.yz - z.xy),
      0.5 * g.xy * (z.xx + x.xz - x.xz) + 0.5 * g.yy * (z.xy + x.yz - y.xz) + 0.5 * g.yz * x.zz,
      0.5 * g.xy * (z.xy + y.xz - x.yz) + 0.5 * g.yy * z.yy + 0.5 * g.yz * y.zz)
  }

  function ThirdRow(g: Sym3, p: Partials): Sym3 {
    var (x, y, z) := (p.ddx, p.ddy, p.ddz);
    Sym3(
      0.5 * g.xz * x.xx + g.yz * (x.xy - 0.5 * y.xx) + g.zz * (x.xz - 0.5 * z.xx),
      g.xz * (y.xy - 0.5 * x.yy) + 0.5 * g.yz * y.yy + g.zz * (y.yz - 0.5 * z.yy),
      g.xz * (z.xz - 0.5 * x.zz) + g.yz * (z.yz - 0.5 * y.zz) + 0.5 * g.zz * z.zz,
      0.5 * g.xz * y.xx + 0.5 * g.yz * x.yy + 0.5 * g.zz * (y.xz + x.yz - z.xy),
      0.5 * g.xz * z.xx + 0.5 * g.yz * (z.xy + x.yz - y.xz) + 0.5 * g.zz * x.zz,
      0.5 * g.xz * (z.xy + y.xz - x.yz) + 0.5 * g.yz * z.yy + 0.5 * g.zz * y.zz)
  }

  /** All 18 symbols as the source computes them. */
  function ChristoffelAsWritten(g: Sym3, p: Partials, ddyG23: real): (s: Symbols)
    ensures s.g1 == FirstRow(g, p) && s.g3 == ThirdRow(g, p)
  {
    Symbols(FirstRow(g, p), SecondRowAsWritten(g, p, ddyG23), ThirdRow(g, p))
  }

  /** All 18 symbols with `G2_22` corrected. */
  function Christoffel(g: Sym3, p: Partials): (s: Symbols)
    ensures forall k, i, j :: 0 <= k < 3 && 0 <= i < 3 && 0 <= j < 3 ==>
      Entry(Symbol(s, k), i, j) == Reference(g, p, k, i, j)
  {
    var s := Symbols(FirstRow(g, p), SecondRow(g, p), ThirdRow(g, p));
    FirstRowIsReference(g, p);
    SecondRowIsReference(g, p);
    ThirdRowIsReference(g, p);
    s
  }

  // Each symbol is matched to the textbook sum through its expansion
  // `0.5 * (g^k1 (..) + g^k2 (..) + g^k3 (..))`, in two separate lemmas:
  // one unfolds the source's formula, the other the sum. Proving both in
  // one context is more than the solver manages.

  lemma ReferenceSymmetric(g: Sym3, p: Partials, k: int, i: int, j: int)
    requires 0 <= k < 3 && 0 <= i < 3 && 0 <= j < 3
    ensures Reference(g, p, k, i, j) == Reference(g, p, k, j, i)
  {
  }

  lemma FirstRow11Source(g: Sym3, p: Partials)
    ensures FirstRow(g, p).xx ==
      0.5 * (g.xx * (p.ddx.xx + p.ddx.xx - p.ddx.xx)
        + g.xy * (p.ddx.xy + p.ddx.xy - p.ddy.xx)
        + g.xz * (p.ddx.xz + p.ddx.xz - p.ddz.xx))
  {
  }

  lemma FirstRow11Textbook(g: Sym3, p: Partials)
    ensures Reference(g, p, 0, 0, 0) ==
      0.5 * (g.xx * (p.ddx.xx + p.ddx.xx - p.ddx.xx)
        + g.xy * (p.ddx.xy + p.ddx.xy - p.ddy.xx)
        + g.xz * (p.ddx.xz + p.ddx.xz - p.ddz.xx))
  {
  }

  lemma FirstRow22Source(g: Sym3, p: Partials)
    ensures FirstRow(g, p).yy ==
      0.5 * (g.xx * (p.ddy.xy + p.ddy.xy - p.ddx.yy)
        + g.xy * (p.ddy.yy + p.ddy.yy - p.ddy.yy)
        + g.xz * (p.ddy.yz + p.ddy.yz - p.ddz.yy))
  {
  }

  lemma FirstRow22Textbook(g: Sym3, p: Partials)
    ensures Reference(g, p, 0, 1, 1) ==
      0.5 * (g.xx * (p.ddy.xy + p.ddy.xy - p.ddx.yy)
        + g.xy * (p.ddy.yy + p.ddy.yy - p.ddy.yy)
        + g.xz * (p.ddy.yz + p.ddy.yz - p.ddz.yy))
  {
  }

  lemma FirstRow33Source(g: Sym3, p: Partials)
    ensures FirstRow(g, p).zz ==
      0.5 * (g.xx * (p.ddz.xz + p.ddz.xz - p.ddx.zz)
        + g.xy * (p.ddz.yz + p.ddz.yz - p.ddy.zz)
        + g.xz * (p.ddz.zz + p.ddz.zz - p.ddz.zz))
  {
  }

  lemma FirstRow33Textbook(g: Sym3, p: Partials)
    ensures Reference(g, p, 0, 2, 2) ==
      0.5 * (g.xx * (p.ddz.xz + p.ddz.xz - p.ddx.zz)
        + g.xy * (p.ddz.yz + p.ddz.yz - p.ddy.zz)
        + g.xz * (p.ddz.zz + p.ddz.zz - p.ddz.zz))
  {
  }

  lemma FirstRow12Source(g: Sym3, p: Partials)
    ensures FirstRow(g, p).xy ==
      0.5 * (g.xx * (p.ddx.xy + p.ddy.xx - p.ddx.xy)
        + g.xy * (p.ddx.yy + p.ddy.xy - p.ddy.xy)
        + g.xz * (p.ddx.yz + p.ddy.xz - p.ddz.xy))
  {
  }

  lemma FirstRow12Textbook(g: Sym3, p: Partials)
    ensures Reference(g, p, 0, 0, 1) ==
      0.5 * (g.xx * (p.ddx.xy + p.ddy.xx - p.ddx.xy)
        + g.xy * (p.ddx.yy + p.ddy.xy - p.ddy.xy)
        + g.xz * (p.ddx.yz + p.ddy.xz - p.ddz.xy))
  {
  }

  lemma FirstRow13Source(g: Sym3, p: Partials)
    ensures FirstRow(g, p).xz ==
      0.5 * (g.xx * (p.ddx.xz + p.ddz.xx - p.ddx.xz)
        + g.xy * (p.ddx.yz + p.ddz.xy - p.ddy.xz)
        + g.xz * (p.ddx.zz + p.ddz.xz - p.ddz.xz))
  {
  }

  lemma FirstRow13Textbook(g: Sym3, p: Partials)
    ensures Reference(g, p, 0, 0, 2) ==
      0.5 * (g.xx * (p.ddx.xz + p.ddz.xx - p.ddx.xz)
        + g.xy * (p.ddx.yz + p.ddz.xy - p.ddy.xz)
        + g.xz * (p.ddx.zz + p.ddz.xz - p.ddz.xz))
  {
  }

  lemma FirstRow23Source(g: Sym3, p: Partials)
    ensures FirstRow(g, p).yz ==
      0.5 * (g.xx * (p.ddy.xz + p.ddz.xy - p.ddx.yz)
        + g.xy * (p.ddy.yz + p.ddz.yy - p.ddy.yz)
        + g.xz * (p.ddy.zz + p.ddz.yz - p.ddz.yz))
  {
  }

  lemma FirstRow23Textbook(g: Sym3, p: Partials)
    ensures Reference(g, p, 0, 1, 2) ==
      0.5 * (g.xx * (p.ddy.xz + p.ddz.xy - p.ddx.yz)
        + g.xy * (p.ddy.yz + p.ddz.yy - p.ddy.yz)
        + g.xz * (p.ddy.zz + p.ddz.yz - p.ddz.yz))
  {
  }

  lemma FirstRowIsReference(g: Sym3, p: Partials)
    ensures forall i, j :: 0 <= i < 3 && 0 <= j < 3 ==> Entry(FirstRow(g, p), i, j) == Reference(g, p, 0, i, j)
  {
    forall i, j | 0 <= i < 3 && 0 <= j < 3
      ensures Entry(FirstRow(g, p), i, j) == Reference(g, p, 0, i, j)
    {
      if (i == 0 && j == 0) {
        FirstRow11Source(g, p);
        FirstRow11Textbook(g, p);
        ReferenceSymmetric(g, p, 0, i, j);
      } else if (i == 1 && j == 1) {
        FirstRow22Source(g, p);
        FirstRow22Textbook(g, p);
        ReferenceSymmetric(g, p, 0, i, j);
      } else if (i == 2 && j == 2) {
        FirstRow33Source(g, p);
        FirstRow33Textbook(g, p);
        ReferenceSymmetric(g, p, 0, i, j);
      } else if (i == 0 && j == 1) || (i == 1 && j == 0) {
        FirstRow12Source(g, p);
        FirstRow12Textbook(g, p);
        ReferenceSymmetric(g, p, 0, i, j);
      } else if (i == 0 && j == 2) || (i == 2 && j == 0) {
        FirstRow13Source(g, p);
        FirstRow13Textbook(g, p);
        ReferenceSymmetric(g, p, 0, i, j);
      } else if (i == 1 && j == 2) || (i == 2 && j == 1) {
        FirstRow23Source(g, p);
        FirstRow23Textbook(g, p);
        ReferenceSymmetric(g, p, 0, i, j);
      }
    }
  }

  lemma SecondRow11Source(g: Sym3, p: Partials)
    ensures SecondRow(g, p).xx ==
      0.5 * (g.xy * (p.ddx.xx + p.ddx.xx - p.ddx.xx)
        + g.yy * (p.ddx.xy + p.ddx.xy - p.ddy.xx)
        + g.yz * (p.ddx.xz + p.ddx.xz - p.ddz.xx))
  {
  }

  lemma SecondRow11Textbook(g: Sym3, p: Partials)
    ensures Reference(g, p, 1, 0, 0) ==
      0.5 * (g.xy * (p.ddx.xx + p.ddx.xx - p.ddx.xx)
        + g.yy * (p.ddx.xy + p.ddx.xy - p.ddy.xx)
        + g.yz * (p.ddx.xz + p.ddx.xz - p.ddz.xx))
  {
  }

  lemma SecondRow22Source(g: Sym3, p: Partials)
    ensures SecondRow(g, p).yy ==
      0.5 * (g.xy * (p.ddy.xy + p.ddy.xy - p.ddx.yy)
        + g.yy * (p.ddy.yy + p.ddy.yy - p.ddy.yy)
        + g.yz * (p.ddy.yz + p.ddy.yz - p.ddz.yy))
  {
  }

  lemma SecondRow22Textbook(g: Sym3, p: Partials)
    ensures Reference(g, p, 1, 1, 1) ==
      0.5 * (g.xy * (p.ddy.xy + p.ddy.xy - p.ddx.yy)
        + g.yy * (p.ddy.yy + p.ddy.yy - p.ddy.yy)
        + g.yz * (p.ddy.yz + p.ddy.yz - p.ddz.yy))
  {
  }

  lemma SecondRow33Source(g: Sym3, p: Partials)
    ensures SecondRow(g, p).zz ==
      0.5 * (g.xy * (p.ddz.xz + p.ddz.xz - p.ddx.zz)
        + g.yy * (p.ddz.yz + p.ddz.yz - p.ddy.zz)
        + g.yz * (p.ddz.zz + p.ddz.zz - p.ddz.zz))
  {
  }

  lemma SecondRow33Textbook(g: Sym3, p: Partials)
    ensures Reference(g, p, 1, 2, 2) ==
      0.5 * (g.xy * (p.ddz.xz + p.ddz.xz - p.ddx.zz)
        + g.yy * (p.ddz.yz + p.ddz.yz - p.ddy.zz)
        + g.yz * (p.ddz.zz + p.ddz.zz - p.ddz.zz))
  {
  }

  lemma SecondRow12Source(g: Sym3, p: Partials)
    ensures SecondRow(g, p).xy ==
      0.5 * (g.xy * (p.ddx.xy + p.ddy.xx - p.ddx.xy)
        + g.yy * (p.ddx.yy + p.ddy.xy - p.ddy.xy)
        + g.yz * (p.ddx.yz + p.ddy.xz - p.ddz.xy))
  {
  }

  lemma SecondRow12Textbook(g: Sym3, p: Partials)
    ensures Reference(g, p, 1, 0, 1) ==
      0.5 * (g.xy * (p.ddx.xy + p.ddy.xx - p.ddx.xy)
        + g.yy * (p.ddx.yy + p.ddy.xy - p.ddy.xy)
        + g.yz * (p.ddx.yz + p.ddy.xz - p.ddz.xy))
  {
  }

  lemma SecondRow13Source(g: Sym3, p: Partials)
    ensures SecondRow(g, p).xz ==
      0.5 * (g.xy * (p.ddx.xz + p.ddz.xx - p.ddx.xz)
        + g.yy * (p.ddx.yz + p.ddz.xy - p.ddy.xz)
        + g.yz * (p.ddx.zz + p.ddz.xz - p.ddz.xz))
  {
  }

  lemma SecondRow13Textbook(g: Sym3, p: Partials)
    ensures Reference(g, p, 1, 0, 2) ==
      0.5 * (g.xy * (p.ddx.xz + p.ddz.xx - p.ddx.xz)
        + g.yy * (p.ddx.yz + p.ddz.xy - p.ddy.xz)
        + g.yz * (p.ddx.zz + p.ddz.xz - p.ddz.xz))
  {
  }

  lemma SecondRow23Source(g: Sym3, p: Partials)
    ensures SecondRow(g, p).yz ==
      0.5 * (g.xy * (p.ddy.xz + p.ddz.xy - p.ddx.yz)
        + g.yy * (p.ddy.yz + p.ddz.yy - p.ddy.yz)
        + g.yz * (p.ddy.zz + p.ddz.yz - p.ddz.yz))
  {
  }

  lemma SecondRow23Textbook(g: Sym3, p: Partials)
    ensures Reference(g, p, 1, 1, 2) ==
      0.5 * (g.xy * (p.ddy.xz + p.ddz.xy - p.ddx.yz)
        + g.yy * (p.ddy.yz + p.ddz.yy - p.ddy.yz)
        + g.yz * (p.ddy.zz + p.ddz.yz - p.ddz.yz))
  {
  }

  lemma SecondRowIsReference(g: Sym3, p: Partials)
    ensures forall i, j :: 0 <= i < 3 && 0 <= j < 3 ==> Entry(SecondRow(g, p), i, j) == Reference(g, p, 1, i, j)
  {
    forall i, j | 0 <= i < 3 && 0 <= j < 3
      ensures Entry(SecondRow(g, p), i, j) == Reference(g, p, 1, i, j)
    {
      if (i == 0 && j == 0) {
        SecondRow11Source(g, p);
        SecondRow11Textbook(g, p);
        ReferenceSymmetric(g, p, 1, i, j);
      } else if (i == 1 && j == 1) {
        SecondRow22Source(g, p);
        SecondRow22Textbook(g, p);
        ReferenceSymmetric(g, p, 1, i, j);
      } else if (i == 2 && j == 2) {
        SecondRow33Source(g, p);
        SecondRow33Textbook(g, p);
        ReferenceSymmetric(g, p, 1, i, j);
      } else if (i == 0 && j == 1) || (i == 1 && j == 0) {
        SecondRow12Source(g, p);
        SecondRow12Textbook(g, p);
        ReferenceSymmetric(g, p, 1, i, j);
      } else if (i == 0 && j == 2) || (i == 2 && j == 0) {
        SecondRow13Source(g, p);
        SecondRow13Textbook(g, p);
        ReferenceSymmetric(g, p, 1, i, j);
      } else if (i == 1 && j == 2) || (i == 2 && j == 1) {
        SecondRow23Source(g, p);
        SecondRow23Textbook(g, p);
        ReferenceSymmetric(g, p, 1, i, j);
      }
    }
  }

  lemma ThirdRow11Source(g: Sym3, p: Partials)
    ensures ThirdRow(g, p).xx ==
      0.5 * (g.xz * (p.ddx.xx + p.ddx.xx - p.ddx.xx)
        + g.yz * (p.ddx.xy + p.ddx.xy - p.ddy.xx)
        + g.zz * (p.ddx.xz + p.ddx.xz - p.ddz.xx))
  {
  }

  lemma ThirdRow11Textbook(g: Sym3, p: Partials)
    ensures Reference(g, p, 2, 0, 0) ==
      0.5 * (g.xz * (p.ddx.xx + p.ddx.xx - p.ddx.xx)
        + g.yz * (p.ddx.xy + p.ddx.xy - p.ddy.xx)
        + g.zz * (p.ddx.xz + p.ddx.xz - p.ddz.xx))
  {
  }

  lemma ThirdRow22Source(g: Sym3, p: Partials)
    ensures ThirdRow(g, p).yy ==
      0.5 * (g.xz * (p.ddy.xy + p.ddy.xy - p.ddx.yy)
        + g.yz * (p.ddy.yy + p.ddy.yy - p.ddy.yy)
        + g.zz * (p.ddy.yz + p.ddy.yz - p.ddz.yy))
  {
  }

  lemma ThirdRow22Textbook(g: Sym3, p: Partials)
    ensures Reference(g, p, 2, 1, 1) ==
      0.5 * (g.xz * (p.ddy.xy + p.ddy.xy - p.ddx.yy)
        + g.yz * (p.ddy.yy + p.ddy.yy - p.ddy.yy)
        + g.zz * (p.ddy.yz + p.ddy.yz - p.ddz.yy))
  {
  }

  lemma ThirdRow33Source(g: Sym3, p: Partials)
    ensures ThirdRow(g, p).zz ==
      0.5 * (g.xz * (p.ddz.xz + p.ddz.xz - p.ddx.zz)
        + g.yz * (p.ddz.yz + p.ddz.yz - p.ddy.zz)
        + g.zz * (p.ddz.zz + p.ddz.zz - p.ddz.zz))
  {
  }

  lemma ThirdRow33Textbook(g: Sym3, p: Partials)
    ensures Reference(g, p, 2, 2, 2) ==
      0.5 * (g.xz * (p.ddz.xz + p.ddz.xz - p.ddx.zz)
        + g.yz * (p.ddz.yz + p.ddz.yz - p.ddy.zz)
        + g.zz * (p.ddz.zz + p.ddz.zz - p.ddz.zz))
  {
  }

  lemma ThirdRow12Source(g: Sym3, p: Partials)
    ensures ThirdRow(g, p).xy ==
      0.5 * (g.xz * (p.ddx.xy + p.ddy.xx - p.ddx.xy)
        + g.yz * (p.ddx.yy + p.ddy.xy - p.ddy.xy)
        + g.zz * (p.ddx.yz + p.ddy.xz - p.ddz.xy))
  {
  }

  lemma ThirdRow12Textbook(g: Sym3, p: Partials)
    ensures Reference(g, p, 2, 0, 1) ==
      0.5 * (g.xz * (p.ddx.xy + p.ddy.xx - p.ddx.xy)
        + g.yz * (p.ddx.yy + p.ddy.xy - p.ddy.xy)
        + g.zz * (p.ddx.yz + p.ddy.xz - p.ddz.xy))
  {
  }

  lemma ThirdRow13Source(g: Sym3, p: Partials)
    ensures ThirdRow(g, p).xz ==
      0.5 * (g.xz * (p.ddx.xz + p.ddz.xx - p.ddx.xz)
        + g.yz * (p.ddx.yz + p.ddz.xy - p.ddy.xz)
        + g.zz * (p.ddx.zz + p.ddz.xz - p.ddz.xz))
  {
  }

  lemma ThirdRow13Textbook(g: Sym3, p: Partials)
    ensures Reference(g, p, 2, 0, 2) ==
      0.5 * (g.xz * (p.ddx.xz + p.ddz.xx - p.ddx.xz)
        + g.yz * (p.ddx.yz + p.ddz.xy - p.ddy.xz)
        + g.zz * (p.ddx.zz + p.ddz.xz - p.ddz.xz))
  {
  }

  lemma ThirdRow23Source(g: Sym3, p: Partials)
    ensures ThirdRow(g, p).yz ==
      0.5 * (g.xz * (p.ddy.xz + p.ddz.xy - p.ddx.yz)
        + g.yz * (p.ddy.yz + p.ddz.yy - p.ddy.yz)
        + g.zz * (p.ddy.zz + p.ddz.yz - p.ddz.yz))
  {
  }

  lemma ThirdRow23Textbook(g: Sym3, p: Partials)
    ensures Reference(g, p, 2, 1, 2) ==
      0.5 * (g.xz * (p.ddy.xz + p.ddz.xy - p.ddx.yz)
        + g.yz * (p.ddy.yz + p.ddz.yy - p.ddy.yz)
        + g.zz * (p.ddy.zz + p.ddz.yz - p.ddz.yz))
  {
  }

  lemma ThirdRowIsReference(g: Sym3, p: Partials)
    ensures forall i, j :: 0 <= i < 3 && 0 <= j < 3 ==> Entry(ThirdRow(g, p), i, j) == Reference(g, p, 2, i, j)
  {
    forall i, j | 0 <= i < 3 && 0 <= j < 3
      ensures Entry(ThirdRow(g, p), i, j) == Reference(g, p, 2, i, j)
    {
      if (i == 0 && j == 0) {
        ThirdRow11Source(g, p);
        ThirdRow11Textbook(g, p);
        ReferenceSymmetric(g, p, 2, i, j);
      } else if (i == 1 && j == 1) {
        ThirdRow22Source(g, p);
        ThirdRow22Textbook(g, p);
        ReferenceSymmetric(g, p, 2, i, j);
      } else if (i == 2 && j == 2) {
        ThirdRow33Source(g, p);
        ThirdRow33Textbook(g, p);
        ReferenceSymmetric(g, p, 2, i, j);
      } else if (i == 0 && j == 1) || (i == 1 && j == 0) {
        ThirdRow12Source(g, p);
        ThirdRow12Textbook(g, p);
        ReferenceSymmetric(g, p, 2, i, j);
      } else if (i == 0 && j == 2) || (i == 2 && j == 0) {
        ThirdRow13Source(g, p);
        ThirdRow13Textbook(g, p);
        ReferenceSymmetric(g, p, 2, i, j);
      } else if (i == 1 && j == 2) || (i == 2 && j == 1) {
        ThirdRow23Source(g, p);
        ThirdRow23Textbook(g, p);
        ReferenceSymmetric(g, p, 2, i, j);
      }
    }
  }

  /** The source's symbols differ from the corrected ones in `G2_22` only,
      by `g23 * (DDY(g23) - DDY(g_23))`. */
  lemma AsWrittenDiffersOnlyInG222(g: Sym3, p: Partials, ddyG23: real)
    ensures var w, c := ChristoffelAsWritten(g, p, ddyG23), Christoffel(g, p);
      && w.g1 == c.g1 && w.g3 == c.g3
      && w.g2.xx == c.g2.xx && w.g2.zz == c.g2.zz && w.g2.xy == c.g2.xy && w.g2.xz == c.g2.xz && w.g2.yz == c.g2.yz
      && w.g2.yy - c.g2.yy == g.yz * (ddyG23 - p.ddy.yz)
  {
  }

  /** With no variation in the metric every symbol vanishes. */
  lemma FlatSymbols(g: Sym3)
    ensures Christoffel(g, NoVariation) == Symbols(Zero3, Zero3, Zero3)
    ensures ChristoffelAsWritten(g, NoVariation, 0.0) == Symbols(Zero3, Zero3, Zero3)
  {
  }

  /** The sheared metric `g_ij = [[1,0,0],[0,1,y],[0,y,1]]` at `y = 1/2`. */
  const ShearedCovariant: Sym3 := Sym3(1.0, 1.0, 1.0, 0.0, 0.0, 0.5)

  /** Its inverse, `g^22 = g^33 = 4/3`, `g^23 = -2/3`. */
  const ShearedContravariant: Sym3 := Sym3(1.0, 4.0 / 3.0, 4.0 / 3.0, 0.0, 0.0, -2.0 / 3.0)

  /** `d/dy g_ij`: only `g_23 = y` varies. */
  const ShearedPartials: Partials := Partials(Zero3, Sym3(0.0, 0.0, 0.0, 0.0, 0.0, 1.0), Zero3)

  /** `d/dy g^23 = -(g^22 g^33 + g^23 g^23) * d/dy g_23 = -20/9`, from
      `d(g^-1) = -g^-1 (dg) g^-1`. */
  const ShearedDdyG23: real := -20.0 / 9.0

  /** On the sheared metric the source's `G2_22` is `40/27`, where the
      textbook value is `-2/3`. */
  lemma G222Counterexample()
    ensures Invert(ShearedCovariant) == Inverse(ShearedContravariant)
    ensures ChristoffelAsWritten(ShearedContravariant, ShearedPartials, ShearedDdyG23).g2.yy == 40.0 / 27.0
    ensures Reference(ShearedContravariant, ShearedPartials, 1, 1, 1) == -2.0 / 3.0
    ensures Christoffel(ShearedContravariant, ShearedPartials).g2.yy == -2.0 / 3.0
  {
    assert Det(ShearedCovariant) == 0.75;
  }
}
