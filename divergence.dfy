/**
 * The divergence corrections of the exchange energy (the long-range Coulomb
 * part, coefficient alpha): the Gaussian sum SumExpG2 over the local
 * G vectors and the three per-state correction terms. Terms 2 and 3 are
 * added only on the process row 0 of the basis context.
 *
 * exp and the constants built from pi and sqrt(pi) enter as parameters; the
 * stress-tensor accumulation is not modelled.
 */
module Divergence {

  /** alpha * exp(-rc2 G^2) / G^2 for one G vector, given G^2 and 1/G^2. */
  function GaussTerm(alpha: real, rc2: real, g2: real, g2i: real, exp: real -> real): real
  {
    alpha * exp(-rc2 * g2) * g2i
  }

  /** Sum of the Gaussian terms of the first n local G vectors. */
  function GaussSum(alpha: real, rc2: real, g2: seq<real>, g2i: seq<real>, exp: real -> real, n: nat): real
    requires n <= |g2| && n <= |g2i|
  {
    if n == 0 then 0.0
    else GaussSum(alpha, rc2, g2, g2i, exp, n - 1) + GaussTerm(alpha, rc2, g2[n - 1], g2i[n - 1], exp)
  }

  /** The Gaussian sum is linear in alpha: alpha times the sum with alpha 1. */
  lemma {:induction false} GaussSumLinear(alpha: real, rc2: real, g2: seq<real>, g2i: seq<real>, exp: real -> real, n: nat)
    requires n <= |g2| && n <= |g2i|
    ensures GaussSum(alpha, rc2, g2, g2i, exp, n) == alpha * GaussSum(1.0, rc2, g2, g2i, exp, n)
  {
    if n > 0 {
      GaussSumLinear(alpha, rc2, g2, g2i, exp, n - 1);
      var e := exp(-rc2 * g2[n - 1]) * g2i[n - 1];
      assert GaussTerm(alpha, rc2, g2[n - 1], g2i[n - 1], exp) == alpha * e;
      assert GaussTerm(1.0, rc2, g2[n - 1], g2i[n - 1], exp) == e;
    }
  }

  /**
   * SumExpG2: the loop runs only when alpha != 0; otherwise the sum stays 0.
   * In both cases the result is alpha times the unit Gaussian sum.
   */
  method SumExpG2(alpha: real, rc2: real, g2: seq<real>, g2i: seq<real>, exp: real -> real)
      returns (sum: real)
    requires |g2| == |g2i|
    ensures sum == alpha * GaussSum(1.0, rc2, g2, g2i, exp, |g2|)
    ensures alpha == 0.0 ==> sum == 0.0
  {
    sum := 0.0;
    if alpha != 0.0 {
      var ig := 0;
      while ig < |g2|
        invariant 0 <= ig <= |g2|
        invariant sum == GaussSum(alpha, rc2, g2, g2i, exp, ig)
      {
        var t := alpha * 1.0 * exp(-rc2 * g2[ig]) * g2i[ig];
        sum := sum + t;
        ig := ig + 1;
      }
    }
    GaussSumLinear(alpha, rc2, g2, g2i, exp, |g2|);
  }

  /**
   * The inputs of the correction: alpha, the exchange factor, SumExpG2, the
   * cut-off radius, and the analytic constant integ / vbz, where
   * integ = alpha 4 pi sqrt(pi) / (2 rcut) and vbz = (2 pi)^3 / omega.
   */
  datatype Inputs = Inputs(alpha: real, exfac: real, sumExpG2: real, rcut: real, analytic: real)

  /**
   * integ / vbz from pi, sqrt(pi), the cut-off radius and the cell volume:
   * alpha sqrt(pi) omega / (4 pi^2 rcut), proportional to alpha and to the
   * cell volume.
   */
  function AnalyticConstant(alpha: real, rcut: real, omega: real, pi: real, sqrtPi: real): (c: real)
    requires rcut != 0.0 && pi != 0.0 && omega != 0.0
    ensures c * (4.0 * pi * pi * rcut) == alpha * sqrtPi * omega
    ensures alpha == 0.0 ==> c == 0.0
  {
    var integ := alpha * 4.0 * pi * sqrtPi / (2.0 * rcut);
    var twoPi := 2.0 * pi;
    var cube := twoPi * twoPi * twoPi;
    assert cube == 8.0 * (pi * pi * pi);
    assert pi * pi != 0.0;
    assert cube != 0.0;
    var vbz := cube / omega;
    assert vbz * omega == cube;
    var c := integ / vbz;
    assert integ * (2.0 * rcut) == alpha * 4.0 * pi * sqrtPi;
    assert c * vbz == integ;
    assert c * cube == integ * omega by {
      calc {
        c * cube;
        c * (vbz * omega);
        (c * vbz) * omega;
        integ * omega;
      }
    }
    assert c * (8.0 * (pi * pi * pi)) * (2.0 * rcut) == alpha * 4.0 * pi * sqrtPi * omega;
    assert (c * (4.0 * pi * pi * rcut)) * (4.0 * pi) == (alpha * sqrtPi * omega) * (4.0 * pi);
    c
  }

  /** Term 1: from SumExpG2, on every process row. */
  function Term1(inp: Inputs, occ: real): real
  {
    inp.exfac * inp.sumExpG2 * occ
  }

  /** Term 2: the rcut^2 correction, process row 0 only. */
  function Term2(inp: Inputs, occ: real): real
  {
    -inp.alpha * inp.exfac * inp.rcut * inp.rcut * occ
  }

  /** Term 3: the analytic part, process row 0 only. */
  function Term3(inp: Inputs, occ: real): real
  {
    -inp.exfac * inp.analytic * occ
  }

  /** The correction div_corr of one state with occupation occ, as this
      process row contributes it. */
  function StateCorrection(inp: Inputs, occ: real, rowZero: bool): real
  {
    Term1(inp, occ) + (if rowZero then Term2(inp, occ) + Term3(inp, occ) else 0.0)
  }

  /** The energy change of the first n states: -1/2 div_corr(i) occ(i). */
  function EnergyCorrection(inp: Inputs, occ: seq<real>, rowZero: bool, n: nat): real
    requires n <= |occ|
  {
    if n == 0 then 0.0
    else EnergyCorrection(inp, occ, rowZero, n - 1) - 0.5 * StateCorrection(inp, occ[n - 1], rowZero) * occ[n - 1]
  }

  /** The three terms of one state with occupation o: they are summed into
      div_corr and each adds -1/2 term o to the energy. */
  method CorrectState(inp: Inputs, o: real, rowZero: bool, exchangeIn: real) returns (d: real, exchange: real)
    ensures d == StateCorrection(inp, o, rowZero)
    ensures exchange == exchangeIn - 0.5 * StateCorrection(inp, o, rowZero) * o
  {
    d := 0.0;
    exchange := exchangeIn;
    var d1 := inp.exfac * inp.sumExpG2 * o;
    d := d + d1;
    exchange := exchange + -0.5 * d1 * o;
    if rowZero {
      var d2 := -inp.alpha * inp.exfac * inp.rcut * inp.rcut * o;
      d := d + d2;
      exchange := exchange + -0.5 * d2 * o;
      var d3 := -inp.exfac * inp.analytic * o;
      d := d + d3;
      exchange := exchange + -0.5 * d3 * o;
    }
    assert -0.5 * d * o == -0.5 * StateCorrection(inp, o, rowZero) * o;
  }

  /**
   * The correction loop over the local states of one process: when alpha != 0
   * each state's terms are added to the energy and this process row's
   * partial div_corr(i) is returned; the partials of the rows of a column are
   * summed before the derivative is corrected (ApplyToDerivative). When
   * alpha == 0 nothing is added and every div_corr is 0.
   */
  method Correct(inp: Inputs, occ: seq<real>, rowZero: bool, exchangeIn: real)
      returns (exchange: real, divCorr: seq<real>)
    ensures |divCorr| == |occ|
    ensures inp.alpha == 0.0 ==> exchange == exchangeIn && forall i :: 0 <= i < |occ| ==> divCorr[i] == 0.0
    ensures inp.alpha != 0.0 ==> forall i :: 0 <= i < |occ| ==> divCorr[i] == StateCorrection(inp, occ[i], rowZero)
    ensures inp.alpha != 0.0 ==> exchange == exchangeIn + EnergyCorrection(inp, occ, rowZero, |occ|)
  {
    exchange := exchangeIn;
    divCorr := seq(|occ|, _ => 0.0);
    if inp.alpha != 0.0 {
      var i := 0;
      while i < |occ|
        invariant 0 <= i <= |occ| && |divCorr| == |occ|
        invariant forall k :: 0 <= k < i ==> divCorr[k] == StateCorrection(inp, occ[k], rowZero)
        invariant exchange == exchangeIn + EnergyCorrection(inp, occ, rowZero, i)
      {
        var d;
        d, exchange := CorrectState(inp, occ[i], rowZero, exchange);
        assert EnergyCorrection(inp, occ, rowZero, i + 1)
               == EnergyCorrection(inp, occ, rowZero, i) - 0.5 * StateCorrection(inp, occ[i], rowZero) * occ[i];
        divCorr := divCorr[i := d];
        i := i + 1;
      }
    }
  }

  /** The energy correction is -1/2 times the occupation-weighted sum of the
      corrections applied to the wave functions: energy and derivative agree. */
  function WeightedCorrection(inp: Inputs, occ: seq<real>, rowZero: bool, n: nat): real
    requires n <= |occ|
  {
    if n == 0 then 0.0
    else WeightedCorrection(inp, occ, rowZero, n - 1) + occ[n - 1] * StateCorrection(inp, occ[n - 1], rowZero)
  }

  lemma {:induction false} EnergyMatchesDerivative(inp: Inputs, occ: seq<real>, rowZero: bool, n: nat)
    requires n <= |occ|
    ensures EnergyCorrection(inp, occ, rowZero, n) == -0.5 * WeightedCorrection(inp, occ, rowZero, n)
  {
    if n > 0 {
      EnergyMatchesDerivative(inp, occ, rowZero, n - 1);
      var c := StateCorrection(inp, occ[n - 1], rowZero);
      assert -0.5 * c * occ[n - 1] == -0.5 * (occ[n - 1] * c);
    }
  }

  /** Each correction is proportional to the occupation of its state. */
  lemma StateCorrectionLinear(inp: Inputs, occ: real, rowZero: bool)
    ensures StateCorrection(inp, occ, rowZero) == occ * StateCorrection(inp, 1.0, rowZero)
  {
  }

  /** The sum of a sequence of reals, accumulated from the front. */
  function Total(xs: seq<real>): real
  {
    if |xs| == 0 then 0.0 else Total(xs[..|xs| - 1]) + xs[|xs| - 1]
  }

  /**
   * The partial div_corr of one state with occupation occ, summed over the
   * first n process rows of a column, where row r holds the G vectors whose
   * Gaussian sum is sums[r]: what the column reduction (dsum) yields.
   */
  function RowsTotal(inp: Inputs, sums: seq<real>, occ: real, n: nat): real
    requires n <= |sums|
  {
    if n == 0 then 0.0
    else RowsTotal(inp, sums, occ, n - 1) + StateCorrection(inp.(sumExpG2 := sums[n - 1]), occ, n - 1 == 0)
  }

  /** Over the rows of a column, term 1 is counted once with the full
      Gaussian sum and terms 2 and 3 come only from row 0. */
  lemma {:induction false} RowZeroTermsOnce(inp: Inputs, sums: seq<real>, occ: real, n: nat)
    requires 1 <= n <= |sums|
    ensures RowsTotal(inp, sums, occ, n) == inp.exfac * Total(sums[..n]) * occ + Term2(inp, occ) + Term3(inp, occ)
  {
    var row := inp.(sumExpG2 := sums[n - 1]);
    assert sums[..n][..n - 1] == sums[..n - 1];
    if n == 1 {
      assert Total(sums[..1]) == sums[0];
    } else {
      RowZeroTermsOnce(inp, sums, occ, n - 1);
      var t := Total(sums[..n - 1]);
      assert Total(sums[..n]) == t + sums[n - 1];
      assert StateCorrection(row, occ, false) == inp.exfac * sums[n - 1] * occ;
      assert inp.exfac * (t + sums[n - 1]) * occ == inp.exfac * t * occ + inp.exfac * sums[n - 1] * occ;
    }
  }

  /**
   * A column whose states all have occupation 2 (as the Gamma path fixes
   * them): the summed correction of a state is 2 exfac times the full
   * Gaussian sum less alpha rcut^2 and the analytic constant.
   */
  lemma FullyOccupiedColumn(inp: Inputs, sums: seq<real>)
    requires |sums| >= 1
    ensures RowsTotal(inp, sums, 2.0, |sums|)
            == 2.0 * inp.exfac * (Total(sums) - inp.alpha * inp.rcut * inp.rcut - inp.analytic)
  {
    RowZeroTermsOnce(inp, sums, 2.0, |sums|);
    assert sums[..|sums|] == sums;
    var t := Total(sums);
    assert inp.exfac * t * 2.0 + Term2(inp, 2.0) + Term3(inp, 2.0)
           == 2.0 * inp.exfac * (t - inp.alpha * inp.rcut * inp.rcut - inp.analytic);
  }

  /**
   * Inputs whose analytic constant is the source's integ / vbz: term 3 is
   * then -exfac alpha sqrt(pi) omega occ / (4 pi^2 rcut), and it vanishes
   * with alpha.
   */
  lemma AnalyticTerm(inp: Inputs, omega: real, pi: real, sqrtPi: real, occ: real)
    requires inp.rcut != 0.0 && pi != 0.0 && omega != 0.0
    requires inp.analytic == AnalyticConstant(inp.alpha, inp.rcut, omega, pi, sqrtPi)
    ensures Term3(inp, occ) * (4.0 * pi * pi * inp.rcut) == -inp.exfac * inp.alpha * sqrtPi * omega * occ
    ensures inp.alpha == 0.0 ==> Term3(inp, occ) == 0.0
  {
    var k := 4.0 * pi * pi * inp.rcut;
    assert inp.analytic * k == inp.alpha * sqrtPi * omega;
    calc {
      Term3(inp, occ) * k;
      -inp.exfac * occ * (inp.analytic * k);
      -inp.exfac * occ * (inp.alpha * sqrtPi * omega);
    }
  }

  /**
   * The derivative correction of one state across a column. Like the energy
   * terms, it is applied only when the long-range coefficient alpha is
   * non-zero. Each row's partial div_corr is then summed over the rows when
   * the derivative is wanted (dwf), and every coefficient (real and imaginary
   * parts alike, since div_corr is real) loses c_j times the summed
   * correction. Otherwise the derivative is left as it is.
   */
  method ApplyToDerivative(inp: Inputs, sums: seq<real>, occ: real, dwf: bool, c: seq<real>, dc: seq<real>)
      returns (dcOut: seq<real>)
    requires |sums| >= 1 && |c| == |dc|
    ensures |dcOut| == |dc|
    ensures !dwf || inp.alpha == 0.0 ==> dcOut == dc
    ensures dwf && inp.alpha != 0.0 ==> forall j :: 0 <= j < |dc| ==>
              dcOut[j] == dc[j] - c[j] * (inp.exfac * Total(sums) * occ + Term2(inp, occ) + Term3(inp, occ))
  {
    dcOut := dc;
    if inp.alpha != 0.0 && dwf {
      var divCorr := RowsTotal(inp, sums, occ, |sums|);
      RowZeroTermsOnce(inp, sums, occ, |sums|);
      assert sums[..|sums|] == sums;
      var j := 0;
      while j < |dc|
        invariant 0 <= j <= |dc| && |dcOut| == |dc|
        invariant forall k :: 0 <= k < j ==> dcOut[k] == dc[k] - c[k] * divCorr
        invariant forall k :: j <= k < |dc| ==> dcOut[k] == dc[k]
      {
        dcOut := dcOut[j := dcOut[j] - c[j] * divCorr];
        j := j + 1;
      }
    }
  }
}
