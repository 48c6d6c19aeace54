/**
 * The entry of the Gamma-point exchange computation and its two callers.
 * update_energy asks for the energy alone and passes no derivative wave
 * function; update_operator passes the operator's own derivative dwf0_.
 * As written, the computation binds the derivative's Slater determinant
 * before it tests whether a derivative was passed, so the energy-only call
 * dereferences a null pointer. The corrected entry binds it only under the
 * test, and the derivative correction is then skipped.
 */
module GammaExchange {
  import Divergence

  /** The two members that start the Gamma-point computation. */
  datatype Caller = UpdateEnergy | UpdateOperator

  /** Whether the caller passes a derivative wave function: update_energy
      passes 0, update_operator the address of dwf0_. */
  function PassesDerivative(c: Caller): (present: bool)
    ensures present <==> c == UpdateOperator
  {
    match c
    case UpdateEnergy => false
    case UpdateOperator => true
  }

  /** How the computation gets past its entry: it fails on a null
      dereference, or it runs, with or without the derivative. */
  datatype Outcome = NullDereference | Computed(withDerivative: bool)

  /** The entry as written: the derivative determinant is bound first, and
      only then is the derivative tested. */
  function EntryAsWritten(dwfPresent: bool): (o: Outcome)
    ensures o.Computed? ==> o.withDerivative
  {
    if dwfPresent then Computed(true) else NullDereference
  }

  /** The corrected entry: every use of the derivative is under its test. */
  function Entry(dwfPresent: bool): (o: Outcome)
    ensures o.Computed?
  {
    Computed(dwfPresent)
  }

  /** As written, exactly the energy-only caller fails at the entry. */
  lemma {:induction false} EnergyOnlyCallDereferencesNull(c: Caller)
    ensures EntryAsWritten(PassesDerivative(c)) == NullDereference <==> c == UpdateEnergy
  {
    match c
    case UpdateEnergy =>
      assert !PassesDerivative(c);
    case UpdateOperator =>
      assert PassesDerivative(c);
  }

  /** Corrected, every caller gets past the entry, and the derivative is
      computed exactly for the caller that passes one. */
  lemma {:induction false} EveryCallerComputes(c: Caller)
    ensures Entry(PassesDerivative(c)).Computed?
    ensures Entry(PassesDerivative(c)).withDerivative <==> c == UpdateOperator
  {
    assert PassesDerivative(c) <==> c == UpdateOperator;
  }

  /**
   * The corrected computation for one state, up to its derivative
   * correction: the energy-only caller, or any caller when alpha is 0,
   * leaves the derivative as it was; otherwise the operator update
   * subtracts c_j times the column-summed correction.
   */
  method ComputeAtGamma(caller: Caller, inp: Divergence.Inputs, sums: seq<real>, occ: real,
                        c: seq<real>, dc: seq<real>)
      returns (o: Outcome, dcOut: seq<real>)
    requires |sums| >= 1 && |c| == |dc|
    ensures o.Computed? && (o.withDerivative <==> caller == UpdateOperator)
    ensures |dcOut| == |dc|
    ensures caller == UpdateEnergy || inp.alpha == 0.0 ==> dcOut == dc
    ensures caller == UpdateOperator && inp.alpha != 0.0 ==> forall j :: 0 <= j < |dc| ==>
              dcOut[j] == dc[j] - c[j] * (inp.exfac * Divergence.Total(sums) * occ
                                          + Divergence.Term2(inp, occ) + Divergence.Term3(inp, occ))
  {
    o := Entry(PassesDerivative(caller));
    EveryCallerComputes(caller);
    dcOut := Divergence.ApplyToDerivative(inp, sums, occ, o.withDerivative, c, dc);
  }
}
