/**
 * The grid-size search of the exchange-operator constructor: starting from
 * the basis grid size plus 2, the size grows by 2 until the Fourier
 * transform accepts it (`factorizable`, a parameter).
 */
module Grid {

  /** A size the search can reach from np: np + 2 plus an even step. */
  predicate Reachable(np: nat, n: nat)
  {
    n >= np + 2 && (n - np) % 2 == 0
  }

  /**
   * The search for one direction. It terminates because some reachable size
   * (`bound`) is factorizable; it returns the smallest reachable size that
   * is factorizable.
   */
  method NextGridSize(np: nat, factorizable: nat -> bool, ghost bound: nat) returns (n: nat)
    requires Reachable(np, bound) && factorizable(bound)
    ensures Reachable(np, n) && factorizable(n)
    ensures n <= bound
    ensures forall m :: np + 2 <= m < n && Reachable(np, m) ==> !factorizable(m)
  {
    n := np + 2;
    while !factorizable(n)
      invariant Reachable(np, n) && n <= bound
      invariant forall m :: np + 2 <= m < n && Reachable(np, m) ==> !factorizable(m)
      decreases bound - n
    {
      assert n != bound;
      n := n + 2;
    }
  }

  /** The three grid sizes np0v, np1v, np2v, each searched on its own. */
  method GridSizes(np0: nat, np1: nat, np2: nat, factorizable: nat -> bool,
                   ghost b0: nat, ghost b1: nat, ghost b2: nat)
      returns (n0: nat, n1: nat, n2: nat)
    requires Reachable(np0, b0) && factorizable(b0)
    requires Reachable(np1, b1) && factorizable(b1)
    requires Reachable(np2, b2) && factorizable(b2)
    ensures factorizable(n0) && factorizable(n1) && factorizable(n2)
    ensures Reachable(np0, n0) && Reachable(np1, n1) && Reachable(np2, n2)
    ensures forall m: nat :: Reachable(np0, m) && m < n0 ==> !factorizable(m)
    ensures forall m: nat :: Reachable(np1, m) && m < n1 ==> !factorizable(m)
    ensures forall m: nat :: Reachable(np2, m) && m < n2 ==> !factorizable(m)
  {
    n0 := NextGridSize(np0, factorizable, b0);
    n1 := NextGridSize(np1, factorizable, b1);
    n2 := NextGridSize(np2, factorizable, b2);
  }
}
