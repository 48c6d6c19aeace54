/**
 * The screened interaction kernel of the exchange operator and its derivative
 * with respect to the squared wave vector g2 (ExchangeOperator::vint and
 * ExchangeOperator::dvint).
 *
 *   vint(g2) = ( beta + (alpha - beta) * exp(-g2 / (4 mu^2)) ) / g2
 *
 * The exponential is a parameter `exp` (any function real -> real): nothing
 * below depends on its values except where a lemma says so. Arithmetic is exact
 * (no rounding).
 */
module Kernel {

  /** The three kernel parameters fixed when the exchange operator is built. */
  datatype Params = Params(alpha: real, beta: real, mu: real)

  /** What vint and dvint demand of their parameters: a screened kernel
      (alpha != beta) needs a non-zero screening length. */
  predicate Defined(p: Params)
  {
    p.alpha != p.beta ==> p.mu != 0.0
  }

  /** Below this value of g2 (and above 0) the Taylor branch is used. */
  const TaylorThreshold: real := 0.000001

  function Fac(p: Params): (fac: real)
    requires p.mu != 0.0
    ensures fac > 0.0
    ensures fac * (4.0 * p.mu * p.mu) == 1.0
  {
    0.25 / (p.mu * p.mu)
  }

  /** The screening factor exp(-g2 * fac) = exp(-g2 / (4 mu^2)). */
  function Decay(p: Params, g2: real, exp: real -> real): real
    requires p.mu != 0.0
  {
    exp(-(g2 * Fac(p)))
  }

  /** The kernel exactly as the source computes it. Its Taylor branch adds
      fac * beta * (1 - x/2) to alpha/g2. */
  function VintAsWritten(p: Params, g2: real, exp: real -> real): (v: real)
    requires Defined(p)
    ensures p.alpha == 0.0 ==> v == Vint(p, g2, exp)
    ensures g2 == 0.0 || g2 >= TaylorThreshold ==> v == Vint(p, g2, exp)
  {
    if p.alpha == 0.0 && p.beta == 0.0 then 0.0
    else if p.alpha == p.beta then
      (if g2 == 0.0 then 0.0 else p.alpha / g2)
    else
      var fac := Fac(p);
      var x := g2 * fac;
      if g2 == 0.0 then -(p.alpha - p.beta) * fac * 2.0
      else if g2 < TaylorThreshold then p.alpha / g2 + fac * p.beta * (1.0 - 0.5 * x)
      else (p.beta + (p.alpha - p.beta) * Decay(p, g2, exp)) / g2
  }

  /** The kernel with the Taylor branch corrected to the second-order
      expansion of the screened formula: alpha/g2 - (alpha - beta) * fac * (1 - x/2).
      It coincides with VintAsWritten whenever alpha == 0. */
  function Vint(p: Params, g2: real, exp: real -> real): (v: real)
    requires Defined(p)
    ensures p.alpha == p.beta && g2 != 0.0 ==> v * g2 == p.alpha
    ensures p.alpha != p.beta && g2 >= TaylorThreshold ==> v * g2 == p.beta + (p.alpha - p.beta) * Decay(p, g2, exp)
    ensures p.alpha == p.beta && g2 == 0.0 ==> v == 0.0
  {
    if p.alpha == 0.0 && p.beta == 0.0 then 0.0
    else if p.alpha == p.beta then
      (if g2 == 0.0 then 0.0 else p.alpha / g2)
    else
      var fac := Fac(p);
      var x := g2 * fac;
      if g2 == 0.0 then -(p.alpha - p.beta) * fac * 2.0
      else if g2 < TaylorThreshold then p.alpha / g2 - (p.alpha - p.beta) * fac * (1.0 - 0.5 * x)
      else (p.beta + (p.alpha - p.beta) * Decay(p, g2, exp)) / g2
  }

  /** Derivative of the kernel with respect to g2, as the source computes it. */
  function Dvint(p: Params, g2: real, exp: real -> real): (d: real)
    requires Defined(p)
    ensures p.alpha == p.beta && g2 != 0.0 ==> d * g2 == -Vint(p, g2, exp)
    ensures p.alpha != p.beta && g2 == 0.0 ==> d == -Vint(p, 0.0, exp) * Fac(p) / 2.0
    ensures p.alpha != p.beta && g2 >= TaylorThreshold ==>
              d * g2 == -(Vint(p, g2, exp) + (p.alpha - p.beta) * Decay(p, g2, exp) * Fac(p))
  {
    if p.alpha == 0.0 && p.beta == 0.0 then 0.0
    else if p.alpha == p.beta then
      (if g2 == 0.0 then 0.0 else -p.alpha / (g2 * g2))
    else
      var fac := Fac(p);
      var x := g2 * fac;
      var third := 1.0 / 3.0;
      if g2 == 0.0 then (p.alpha - p.beta) * fac * fac
      else if g2 < TaylorThreshold then
        -p.alpha / (g2 * g2) + 0.5 * (p.alpha - p.beta) * fac * fac
        - (p.alpha - p.beta) * g2 * third * fac * fac * fac
      else -(p.beta / g2 + (p.alpha - p.beta) * Decay(p, g2, exp) * (fac + 1.0 / g2)) / g2
  }

  /** The screened formula with exp(-x) replaced by a given value e. */
  function Screened(p: Params, g2: real, e: real): real
    requires g2 != 0.0
  {
    (p.beta + (p.alpha - p.beta) * e) / g2
  }

  /** Second-order expansion of exp(-x) around 0. */
  function ExpExpansion2(x: real): real
  {
    1.0 - x + 0.5 * x * x
  }

  /** Coefficients zero: no interaction at any g2, neither value nor derivative. */
  lemma NoInteraction(p: Params, g2: real, exp: real -> real)
    requires p.alpha == 0.0 && p.beta == 0.0
    ensures Vint(p, g2, exp) == 0.0 && VintAsWritten(p, g2, exp) == 0.0
    ensures Dvint(p, g2, exp) == 0.0
  {
  }

  /** Equal coefficients: the plain Coulomb kernel alpha/g2 with the g = 0 term
      dropped, and its derivative -alpha/g2^2, so that dvint * g2 == -vint. */
  lemma CoulombKernel(p: Params, g2: real, exp: real -> real)
    requires p.alpha == p.beta
    ensures g2 == 0.0 ==> Vint(p, g2, exp) == 0.0 && Dvint(p, g2, exp) == 0.0
    ensures g2 != 0.0 ==> Vint(p, g2, exp) * g2 == p.alpha
    ensures g2 != 0.0 ==> Dvint(p, g2, exp) * g2 == -Vint(p, g2, exp)
    ensures VintAsWritten(p, g2, exp) == Vint(p, g2, exp)
  {
    if g2 != 0.0 && p.alpha != 0.0 {
      assert Vint(p, g2, exp) == p.alpha / g2;
      assert Dvint(p, g2, exp) == -p.alpha / (g2 * g2);
      calc {
        Dvint(p, g2, exp) * g2;
        (-p.alpha / (g2 * g2)) * g2;
        -(p.alpha / g2);
      }
    }
  }

  /** Unequal coefficients at g2 == 0: the finite values -2 (alpha - beta) fac
      and (alpha - beta) fac^2, related by dvint(0) == -vint(0) * fac / 2. */
  lemma ScreenedAtOrigin(p: Params, exp: real -> real)
    requires Defined(p) && p.alpha != p.beta
    ensures Vint(p, 0.0, exp) == -2.0 * (p.alpha - p.beta) * Fac(p)
    ensures Dvint(p, 0.0, exp) == (p.alpha - p.beta) * Fac(p) * Fac(p)
    ensures Dvint(p, 0.0, exp) == -Vint(p, 0.0, exp) * Fac(p) / 2.0
    ensures VintAsWritten(p, 0.0, exp) == Vint(p, 0.0, exp)
  {
  }

  /** Above the Taylor threshold both kernel versions evaluate the screened
      formula exactly. */
  lemma ExactBranchIsScreenedFormula(p: Params, g2: real, exp: real -> real)
    requires Defined(p) && p.alpha != p.beta && g2 >= TaylorThreshold
    ensures Vint(p, g2, exp) == Screened(p, g2, Decay(p, g2, exp))
    ensures VintAsWritten(p, g2, exp) == Vint(p, g2, exp)
  {
  }

  /** The corrected Taylor branch is the screened formula with exp(-x) replaced
      by its second-order expansion 1 - x + x^2/2. */
  lemma {:induction false} TaylorBranchIsExpansion(p: Params, g2: real, exp: real -> real)
    requires Defined(p) && p.alpha != p.beta
    requires 0.0 < g2 < TaylorThreshold
    ensures Vint(p, g2, exp) == Screened(p, g2, ExpExpansion2(g2 * Fac(p)))
  {
    var fac := Fac(p);
    var x := g2 * fac;
    var d := p.alpha - p.beta;
    calc {
      Screened(p, g2, ExpExpansion2(x));
      (p.beta + d * (1.0 - x + 0.5 * x * x)) / g2;
      { assert p.beta + d * (1.0 - x + 0.5 * x * x) == p.alpha - d * x * (1.0 - 0.5 * x); }
      (p.alpha - d * x * (1.0 - 0.5 * x)) / g2;
      p.alpha / g2 - (d * x * (1.0 - 0.5 * x)) / g2;
      { assert d * x * (1.0 - 0.5 * x) == (d * fac * (1.0 - 0.5 * x)) * g2; }
      p.alpha / g2 - d * fac * (1.0 - 0.5 * x);
    }
  }

  /** In the Taylor branch the source's value exceeds the expansion by
      alpha * fac * (1 - x/2): the two agree only when alpha == 0. */
  lemma TaylorBranchAsWrittenOffset(p: Params, g2: real, exp: real -> real)
    requires Defined(p) && p.alpha != p.beta
    requires 0.0 < g2 < TaylorThreshold
    ensures VintAsWritten(p, g2, exp) - Vint(p, g2, exp)
            == p.alpha * Fac(p) * (1.0 - 0.5 * g2 * Fac(p))
  {
  }

  /** With alpha == 0 (the short-range-only kernels) both versions agree everywhere. */
  lemma AsWrittenAgreesWithoutLongRange(p: Params, g2: real, exp: real -> real)
    requires Defined(p) && p.alpha == 0.0
    ensures VintAsWritten(p, g2, exp) == Vint(p, g2, exp)
  {
  }

  /** A concrete input where the source's Taylor branch misses the expansion:
      alpha = 1, beta = 0, mu = 1/2 (so fac = 1) and g2 = 1e-7. */
  lemma TaylorBranchCounterexample(exp: real -> real)
    ensures VintAsWritten(Params(1.0, 0.0, 0.5), 0.0000001, exp)
            != Screened(Params(1.0, 0.0, 0.5), 0.0000001, ExpExpansion2(0.0000001))
  {
    var p := Params(1.0, 0.0, 0.5);
    assert Fac(p) == 1.0;
    TaylorBranchIsExpansion(p, 0.0000001, exp);
    TaylorBranchAsWrittenOffset(p, 0.0000001, exp);
  }

  /** The series alpha/g2 + c0 + c1 g2 + c2 g2^2 in the squared wave vector. */
  function Series(a: real, c0: real, c1: real, c2: real, g2: real): real
    requires g2 != 0.0
  {
    a / g2 + c0 + c1 * g2 + c2 * g2 * g2
  }

  /** Its term-by-term derivative with respect to g2. */
  function SeriesSlope(a: real, c1: real, c2: real, g2: real): real
    requires g2 != 0.0
  {
    -a / (g2 * g2) + c1 + 2.0 * c2 * g2
  }

  /**
   * Below the threshold, the corrected vint is the small-g2 series of the
   * screened kernel up to its linear term, and dvint is the slope of the same
   * series carried one term further (exp(-x) to third order). The as-written
   * vint has a different linear coefficient unless alpha == 0, so dvint is
   * not its derivative.
   */
  lemma {:induction false} TaylorBranchesShareOneSeries(p: Params, g2: real, exp: real -> real)
    requires Defined(p) && p.alpha != p.beta
    requires 0.0 < g2 < TaylorThreshold
    ensures var fac, d := Fac(p), p.alpha - p.beta;
            Vint(p, g2, exp) == Series(p.alpha, -d * fac, d * fac * fac / 2.0, 0.0, g2) &&
            Dvint(p, g2, exp) == SeriesSlope(p.alpha, d * fac * fac / 2.0, -d * fac * fac * fac / 6.0, g2) &&
            VintAsWritten(p, g2, exp) == Series(p.alpha, p.beta * fac, -p.beta * fac * fac / 2.0, 0.0, g2)
    ensures var fac := Fac(p);
            p.alpha != 0.0 <==> -p.beta * fac * fac / 2.0 != (p.alpha - p.beta) * fac * fac / 2.0
  {
    var fac, d := Fac(p), p.alpha - p.beta;
    var x := g2 * fac;
    assert p.alpha / g2 - d * fac * (1.0 - 0.5 * x)
           == p.alpha / g2 + -d * fac + d * fac * fac / 2.0 * g2 + 0.0 * g2 * g2;
    assert p.alpha / g2 + fac * p.beta * (1.0 - 0.5 * x)
           == p.alpha / g2 + p.beta * fac + -p.beta * fac * fac / 2.0 * g2 + 0.0 * g2 * g2;
    assert -p.alpha / (g2 * g2) + 0.5 * d * fac * fac - d * g2 * (1.0 / 3.0) * fac * fac * fac
           == -p.alpha / (g2 * g2) + d * fac * fac / 2.0 + 2.0 * (-d * fac * fac * fac / 6.0) * g2;
    assert fac * fac > 0.0;
  }
}
