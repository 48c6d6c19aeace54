/**
 * Pair selection and energy weighting of one rotation step of
 * ExchangeOperator::compute_exchange_at_gamma_.
 *
 * At a step a column holds nStatesKpi circulating states (index i) and its
 * nstloc fixed states (index j). A pair (i, j) is appended to the pair list when
 * one of the two occupations is non-zero, the localised orbitals overlap (when
 * that pruning is on) and the chessboard rule keeps the orientation. Each pair
 * then adds its exchange integral to the energy, once for a state paired with
 * itself and twice otherwise.
 */
module Pairs {
  import Ring

  datatype Pair = Pair(i: nat, j: nat)

  /** What one rotation step on one column sees: occupations and global indices
      of the circulating (Ki) and fixed (Kj) states, and the overlap test of
      localised orbitals on global indices. */
  datatype StepInput = StepInput(
    occKi: seq<real>, globI: seq<nat>,
    occKj: seq<real>, globJ: seq<nat>,
    computeMlwf: bool, overlap: (nat, nat) -> bool)
  {
    predicate WellFormed()
    {
      |occKi| == |globI| && |occKj| == |globJ|
    }

    function NCirc(): nat { |occKi| }

    function NFixed(): nat { |occKj| }
  }

  /** The test the source applies to a candidate pair (i, j). */
  predicate Selected(inp: StepInput, i: nat, j: nat)
    requires inp.WellFormed() && i < inp.NCirc() && j < inp.NFixed()
  {
    (inp.occKi[i] != 0.0 || inp.occKj[j] != 0.0) &&
    (!inp.computeMlwf || inp.overlap(inp.globI[i], inp.globJ[j])) &&
    Ring.Keep(inp.globI[i], inp.globJ[j])
  }

  /** Selected pairs of circulating state i with fixed states 0 .. m-1, in order. */
  function RowPairs(inp: StepInput, i: nat, m: nat): seq<Pair>
    requires inp.WellFormed() && i < inp.NCirc() && m <= inp.NFixed()
  {
    if m == 0 then []
    else RowPairs(inp, i, m - 1) + (if Selected(inp, i, m - 1) then [Pair(i, m - 1)] else [])
  }

  /** The pair list the loop builds for circulating states 0 .. n-1. */
  function PairList(inp: StepInput, n: nat): seq<Pair>
    requires inp.WellFormed() && n <= inp.NCirc()
  {
    if n == 0 then [] else PairList(inp, n - 1) + RowPairs(inp, n - 1, inp.NFixed())
  }

  lemma {:induction false} RowPairsMembers(inp: StepInput, i: nat, m: nat)
    requires inp.WellFormed() && i < inp.NCirc() && m <= inp.NFixed()
    ensures forall p :: p in RowPairs(inp, i, m) <==> p.i == i && p.j < m && Selected(inp, i, p.j)
  {
    if m > 0 {
      RowPairsMembers(inp, i, m - 1);
    }
  }

  /** A pair is in the list exactly when the source's test accepts it. */
  lemma {:induction false} PairListMembers(inp: StepInput, n: nat)
    requires inp.WellFormed() && n <= inp.NCirc()
    ensures forall p :: p in PairList(inp, n) <==>
              p.i < n && p.j < inp.NFixed() && Selected(inp, p.i, p.j)
  {
    if n > 0 {
      PairListMembers(inp, n - 1);
      RowPairsMembers(inp, n - 1, inp.NFixed());
    }
  }

  /** Lexicographic order on pairs: the order in which the loops visit them. */
  predicate Before(p: Pair, q: Pair)
  {
    p.i < q.i || (p.i == q.i && p.j < q.j)
  }

  predicate StrictlyOrdered(ps: seq<Pair>)
  {
    forall k, l :: 0 <= k < l < |ps| ==> Before(ps[k], ps[l])
  }

  lemma {:induction false} RowPairsOrdered(inp: StepInput, i: nat, m: nat)
    requires inp.WellFormed() && i < inp.NCirc() && m <= inp.NFixed()
    ensures StrictlyOrdered(RowPairs(inp, i, m))
  {
    if m > 0 {
      RowPairsOrdered(inp, i, m - 1);
      RowPairsMembers(inp, i, m - 1);
    }
  }

  /** The list is in strictly increasing (i, j) order, so no pair appears twice. */
  lemma {:induction false} PairListOrdered(inp: StepInput, n: nat)
    requires inp.WellFormed() && n <= inp.NCirc()
    ensures StrictlyOrdered(PairList(inp, n))
  {
    if n > 0 {
      PairListOrdered(inp, n - 1);
      PairListMembers(inp, n - 1);
      RowPairsOrdered(inp, n - 1, inp.NFixed());
      RowPairsMembers(inp, n - 1, inp.NFixed());
      var a := PairList(inp, n - 1);
      var b := RowPairs(inp, n - 1, inp.NFixed());
      forall k, l | 0 <= k < l < |a + b|
        ensures Before((a + b)[k], (a + b)[l])
      {
        if k < |a| && l >= |a| {
          assert a[k] in a;
          assert b[l - |a|] in b;
        }
      }
    }
  }

  /** The two parallel vectors of the source hold the pairs of `ps`, in order. */
  predicate Holds(first: seq<nat>, second: seq<nat>, ps: seq<Pair>)
  {
    |first| == |ps| && |second| == |ps| &&
    forall k :: 0 <= k < |ps| ==> ps[k] == Pair(first[k], second[k])
  }

  /** Some fixed state among 0 .. m-1 is selected with circulating state i. */
  predicate UsedWithin(inp: StepInput, i: nat, m: nat)
    requires inp.WellFormed() && i < inp.NCirc() && m <= inp.NFixed()
  {
    exists j :: 0 <= j < m && Selected(inp, i, j)
  }

  /**
   * The pair-list loop: first/second hold the selected pairs in the order of
   * PairList, nPair is their number and useState[i] is 1 exactly for the
   * circulating states that are the first member of some pair.
   */
  method BuildPairList(inp: StepInput) returns (first: seq<nat>, second: seq<nat>, nPair: nat, useState: seq<int>)
    requires inp.WellFormed()
    ensures nPair == |first|
    ensures Holds(first, second, PairList(inp, inp.NCirc()))
    ensures |useState| == inp.NCirc()
    ensures forall i :: 0 <= i < inp.NCirc() ==> useState[i] == 0 || useState[i] == 1
    ensures forall i :: 0 <= i < inp.NCirc() ==>
              (useState[i] == 1 <==> exists p :: 0 <= p < nPair && first[p] == i)
  {
    first, second, nPair := [], [], 0;
    useState := seq(inp.NCirc(), _ => 0);
    var i := 0;
    while i < inp.NCirc()
      invariant 0 <= i <= inp.NCirc()
      invariant nPair == |first|
      invariant Holds(first, second, PairList(inp, i))
      invariant |useState| == inp.NCirc()
      invariant forall k :: 0 <= k < i ==> (useState[k] == 1 <==> UsedWithin(inp, k, inp.NFixed()))
      invariant forall k :: 0 <= k < |useState| ==> useState[k] == 0 || useState[k] == 1
      invariant forall k :: i <= k < |useState| ==> useState[k] == 0
    {
      first, second, nPair, useState := ScanRow(inp, i, first, second, nPair, useState);
      i := i + 1;
    }
    PairListMembers(inp, inp.NCirc());
    ghost var ps := PairList(inp, inp.NCirc());
    forall i | 0 <= i < inp.NCirc()
      ensures useState[i] == 1 <==> exists p :: 0 <= p < nPair && first[p] == i
    {
      if useState[i] == 1 {
        var j :| 0 <= j < inp.NFixed() && Selected(inp, i, j);
        assert Pair(i, j) in ps;
        var p :| 0 <= p < |ps| && ps[p] == Pair(i, j);
        assert first[p] == i;
      }
      if exists p :: 0 <= p < nPair && first[p] == i {
        var p :| 0 <= p < nPair && first[p] == i;
        assert ps[p] in ps;
      }
    }
  }

  /** The inner loop of the pair-list construction, over the fixed states. */
  method ScanRow(inp: StepInput, i: nat, first0: seq<nat>, second0: seq<nat>, nPair0: nat, useState0: seq<int>)
      returns (first: seq<nat>, second: seq<nat>, nPair: nat, useState: seq<int>)
    requires inp.WellFormed() && i < inp.NCirc()
    requires nPair0 == |first0| && Holds(first0, second0, PairList(inp, i))
    requires |useState0| == inp.NCirc() && useState0[i] == 0
    requires forall k :: 0 <= k < |useState0| ==> useState0[k] == 0 || useState0[k] == 1
    ensures nPair == |first|
    ensures Holds(first, second, PairList(inp, i + 1))
    ensures |useState| == inp.NCirc()
    ensures useState[i] == 1 <==> UsedWithin(inp, i, inp.NFixed())
    ensures forall k :: 0 <= k < |useState| && k != i ==> useState[k] == useState0[k]
    ensures forall k :: 0 <= k < |useState| ==> useState[k] == 0 || useState[k] == 1
  {
    first, second, nPair, useState := first0, second0, nPair0, useState0;
    var j := 0;
    while j < inp.NFixed()
      invariant 0 <= j <= inp.NFixed()
      invariant nPair == |first|
      invariant Holds(first, second, PairList(inp, i) + RowPairs(inp, i, j))
      invariant |useState| == inp.NCirc()
      invariant useState[i] == 1 <==> UsedWithin(inp, i, j)
      invariant forall k :: 0 <= k < |useState| && k != i ==> useState[k] == useState0[k]
      invariant forall k :: 0 <= k < |useState| ==> useState[k] == 0 || useState[k] == 1
    {
      ghost var before := PairList(inp, i) + RowPairs(inp, i, j);
      if inp.occKi[i] != 0.0 || inp.occKj[j] != 0.0 {
        var overlapIJ := !inp.computeMlwf || inp.overlap(inp.globI[i], inp.globJ[j]);
        var parityI := inp.globI[i] % 2;
        var parityJ := inp.globJ[j] % 2;
        if parityI == parityJ {
          if inp.globI[i] >= inp.globJ[j] && overlapIJ {
            first, second, nPair := first + [i], second + [j], nPair + 1;
            useState := useState[i := 1];
          }
        } else {
          if inp.globI[i] < inp.globJ[j] && overlapIJ {
            first, second, nPair := first + [i], second + [j], nPair + 1;
            useState := useState[i := 1];
          }
        }
      }
      assert PairList(inp, i) + RowPairs(inp, i, j + 1)
          == before + (if Selected(inp, i, j) then [Pair(i, j)] else []);
      assert Selected(inp, i, j) ==> UsedWithin(inp, i, j + 1);
      j := j + 1;
    }
  }

  /** Multiplicity of a pair's contribution: 1 for a state paired with itself
      (same local index at step 0), 2 otherwise. */
  function Weight(i: nat, j: nat, step: nat): real
  {
    if i == j && step == 0 then 1.0 else 2.0
  }

  /** The contribution of the p-th pair: weight * 0.5 * exfac * occ_i * occ_j * ex. */
  function PairEnergy(inp: StepInput, step: nat, exfac: real, pr: Pair, ex: real): real
    requires inp.WellFormed() && pr.i < inp.NCirc() && pr.j < inp.NFixed()
  {
    Weight(pr.i, pr.j, step) * (0.5 * exfac * inp.occKi[pr.i] * inp.occKj[pr.j]) * ex
  }

  /** Energy of the first n pairs of the list held in first/second, with the
      given integrals. */
  function StepEnergy(inp: StepInput, step: nat, exfac: real, first: seq<nat>, second: seq<nat>,
                      ex: seq<real>, n: nat): real
    requires inp.WellFormed() && n <= |first| == |second| == |ex|
    requires forall k :: 0 <= k < |first| ==> first[k] < inp.NCirc() && second[k] < inp.NFixed()
  {
    if n == 0 then 0.0
    else StepEnergy(inp, step, exfac, first, second, ex, n - 1)
         + PairEnergy(inp, step, exfac, Pair(first[n - 1], second[n - 1]), ex[n - 1])
  }

  /**
   * The energy accumulation over the pair list: exSum[p] is the integral
   * sum_G |rho_ij(G)|^2 vint(G) of the p-th pair, computed by the transforms.
   */
  method AccumulateExchange(inp: StepInput, step: nat, exfac: real, first: seq<nat>, second: seq<nat>,
                            exSum: seq<real>, exchangeIn: real)
      returns (exchange: real)
    requires inp.WellFormed() && |first| == |second| == |exSum|
    requires forall k :: 0 <= k < |first| ==> first[k] < inp.NCirc() && second[k] < inp.NFixed()
    ensures exchange == exchangeIn + StepEnergy(inp, step, exfac, first, second, exSum, |first|)
  {
    exchange := exchangeIn;
    var p := 0;
    while p < |first|
      invariant 0 <= p <= |first|
      invariant exchange == exchangeIn + StepEnergy(inp, step, exfac, first, second, exSum, p)
    {
      var i := first[p];
      var j := second[p];
      var fac1 := 0.5 * exfac * inp.occKi[i] * inp.occKj[j];
      if i == j && step == 0 {
        exchange := exchange + fac1 * exSum[p];
      } else {
        exchange := exchange + 2.0 * fac1 * exSum[p];
      }
      p := p + 1;
    }
  }

  /**
   * The weight expressed on global indices: at step 0 the circulating block is
   * the column's own block, so equal local indices are the same state; at any
   * other step the circulating states belong to another column and never equal
   * a fixed state.
   */
  lemma WeightIsGlobal(inp: StepInput, step: nat, i: nat, j: nat)
    requires inp.WellFormed() && i < inp.NCirc() && j < inp.NFixed()
    requires step == 0 ==> inp.globI == inp.globJ
    requires step == 0 ==> forall a, b :: 0 <= a < b < |inp.globJ| ==> inp.globJ[a] != inp.globJ[b]
    requires step != 0 ==> forall a, b :: 0 <= a < |inp.globI| && 0 <= b < |inp.globJ| ==> inp.globI[a] != inp.globJ[b]
    ensures Weight(i, j, step) == (if inp.globI[i] == inp.globJ[j] then 1.0 else 2.0)
  {
    if step == 0 && i != j {
      if i < j {
        assert inp.globJ[i] != inp.globJ[j];
      } else {
        assert inp.globJ[j] != inp.globJ[i];
      }
    }
  }

  // ---------------------------------------------------------------------------
  // Over the whole rotation, every kept ordered pair (a, b) of global states is
  // evaluated once (Ring.PairEvaluatedOnce, Ring.SelfPairAtStepZero) with weight
  // 1 when a == b and 2 otherwise (WeightIsGlobal). The lemmas below state the
  // sum on global indices: for a symmetric pair energy the weighted sum over
  // kept pairs equals the sum over all ordered pairs. Summing StepEnergy over
  // the steps of a rotation is not restated on global indices here.
  // ---------------------------------------------------------------------------

  /** sum over b < m of f(a, b) */
  function RowSum(f: (nat, nat) -> real, a: nat, m: nat): real
  {
    if m == 0 then 0.0 else RowSum(f, a, m - 1) + f(a, m - 1)
  }

  /** sum over a < m of f(a, b) */
  function ColSum(f: (nat, nat) -> real, b: nat, m: nat): real
  {
    if m == 0 then 0.0 else ColSum(f, b, m - 1) + f(m - 1, b)
  }

  /** sum over a < n, b < m of f(a, b) */
  function FullSum(f: (nat, nat) -> real, n: nat, m: nat): real
  {
    if n == 0 then 0.0 else FullSum(f, n - 1, m) + RowSum(f, n - 1, m)
  }

  /** The contribution the rotation assigns to the ordered pair (a, b). */
  function KeptTerm(f: (nat, nat) -> real, a: nat, b: nat): real
  {
    if Ring.Keep(a, b) then (if a == b then 1.0 else 2.0) * f(a, b) else 0.0
  }

  function Kept(f: (nat, nat) -> real): (nat, nat) -> real
  {
    (a: nat, b: nat) => KeptTerm(f, a, b)
  }

  lemma {:induction false} FullSumAddColumn(f: (nat, nat) -> real, n: nat, m: nat)
    ensures FullSum(f, n, m + 1) == FullSum(f, n, m) + ColSum(f, m, n)
  {
    if n > 0 {
      FullSumAddColumn(f, n - 1, m);
    }
  }

  lemma {:induction false} SymmetricRowIsColumn(f: (nat, nat) -> real, a: nat, m: nat)
    requires forall x: nat, y: nat :: f(x, y) == f(y, x)
    ensures ColSum(f, a, m) == RowSum(f, a, m)
  {
    if m > 0 {
      SymmetricRowIsColumn(f, a, m - 1);
      assert f(m - 1, a) == f(a, m - 1);
    }
  }

  lemma {:induction false} KeptCrossTerms(f: (nat, nat) -> real, a: nat, m: nat)
    requires forall x: nat, y: nat :: f(x, y) == f(y, x)
    requires m <= a
    ensures ColSum(Kept(f), a, m) + RowSum(Kept(f), a, m) == 2.0 * RowSum(f, a, m)
  {
    if m > 0 {
      KeptCrossTerms(f, a, m - 1);
      Ring.ExactlyOneOrientation(m - 1, a);
      assert f(m - 1, a) == f(a, m - 1);
      assert Kept(f)(m - 1, a) + Kept(f)(a, m - 1) == 2.0 * f(a, m - 1);
    }
  }

  /** For a symmetric pair energy, summing the weighted kept pairs gives the
      sum over all ordered pairs of states. */
  lemma {:induction false} KeptSumIsFullSum(f: (nat, nat) -> real, n: nat)
    requires forall x: nat, y: nat :: f(x, y) == f(y, x)
    ensures FullSum(Kept(f), n, n) == FullSum(f, n, n)
  {
    if n > 0 {
      var k := n - 1;
      KeptSumIsFullSum(f, k);
      FullSumAddColumn(f, k, k);
      FullSumAddColumn(Kept(f), k, k);
      SymmetricRowIsColumn(f, k, k);
      KeptCrossTerms(f, k, k);
      Ring.ExactlyOneOrientation(k, k);
      assert Kept(f)(k, k) == f(k, k);
      assert RowSum(f, k, n) == RowSum(f, k, k) + f(k, k);
      assert RowSum(Kept(f), k, n) == RowSum(Kept(f), k, k) + Kept(f)(k, k);
    }
  }
}
