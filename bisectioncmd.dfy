/**
 * The `bisection lx ly lz threshold` command: checks its arguments in a
 * fixed order, then bisects the wave functions of each spin and counts, per
 * state, the states whose localisation domains overlap. The bisection
 * itself is a parameter: for a Slater determinant it yields the number of
 * states and the overlap relation between them.
 */
module BisectionCommand {
  import opened Wrappers
  import Counting

  /** The first check that fails, in the order the command runs them. */
  datatype Failure = Usage | NegativeThreshold | OnlyGamma | BadLevels

  /** A Slater determinant, by spin and k-point index. */
  datatype Det = Det(ispin: nat, ikp: nat)

  /** The per-spin output: the determinant bisected and its overlap total. */
  datatype SpinReport = SpinReport(det: Det, counts: seq<nat>, sum: nat)

  predicate LevelOk(l: int)
  {
    0 <= l <= 5
  }

  /** Counts, for one state i, the states j < nst overlapping it. */
  method CountRow(overlap: (nat, nat) -> bool, i: nat, nst: nat) returns (count: nat)
    ensures count == Counting.CountRange(overlap, i, 0, nst)
    ensures count <= nst
  {
    count := 0;
    var j := 0;
    while j < nst
      invariant j <= nst
      invariant count == Counting.CountRange(overlap, i, 0, j)
    {
      if overlap(i, j) {
        count := count + 1;
      }
      j := j + 1;
    }
  }

  /** The counting loop: one count per state, between 0 and nst, and their
      total, which is the number of overlapping ordered pairs. */
  method CountOverlaps(overlap: (nat, nat) -> bool, nst: nat) returns (counts: seq<nat>, sum: nat)
    ensures |counts| == nst
    ensures forall i :: 0 <= i < nst ==> counts[i] == Counting.CountRange(overlap, i, 0, nst) <= nst
    ensures sum == Counting.Full(overlap, nst, nst)
    ensures sum <= nst * nst
  {
    counts := [];
    sum := 0;
    var i := 0;
    while i < nst
      invariant i <= nst && |counts| == i
      invariant forall k :: 0 <= k < i ==> counts[k] == Counting.CountRange(overlap, k, 0, nst) <= nst
      invariant sum == Counting.Full(overlap, i, nst)
    {
      var count := CountRow(overlap, i, nst);
      counts := counts + [count];
      sum := sum + count;
      i := i + 1;
    }
    Counting.FullBound(overlap, nst, nst);
  }

  /**
   * The argument checks: count, threshold sign, k-points, levels, in that
   * order; the first failure decides. On success the three levels lie in
   * [0, 5].
   */
  method Validate(argv: seq<string>, atof: string -> real, atoi: string -> int, nkp: nat)
      returns (failure: Option<Failure>, epsilon: real, nLevels: array<int>)
    ensures fresh(nLevels) && nLevels.Length == 3
    ensures failure == Some(Usage) <==> |argv| != 5
    ensures failure == Some(NegativeThreshold) <==> |argv| == 5 && atof(argv[4]) < 0.0
    ensures failure == Some(OnlyGamma) <==> |argv| == 5 && atof(argv[4]) >= 0.0 && nkp > 1
    ensures failure == Some(BadLevels) <==>
              |argv| == 5 && atof(argv[4]) >= 0.0 && nkp <= 1
              && !(LevelOk(atoi(argv[1])) && LevelOk(atoi(argv[2])) && LevelOk(atoi(argv[3])))
    ensures failure == None ==>
              |argv| == 5 && epsilon == atof(argv[4]) && epsilon >= 0.0
              && nLevels[..] == [atoi(argv[1]), atoi(argv[2]), atoi(argv[3])]
              && forall d :: 0 <= d < 3 ==> LevelOk(nLevels[d])
  {
    nLevels := new int[3];
    epsilon := 0.0;
    if |argv| != 5 {
      return Some(Usage), epsilon, nLevels;
    }
    epsilon := atof(argv[4]);
    nLevels[0] := atoi(argv[1]);
    nLevels[1] := atoi(argv[2]);
    nLevels[2] := atoi(argv[3]);
    if epsilon < 0.0 {
      return Some(NegativeThreshold), epsilon, nLevels;
    }
    if nkp > 1 {
      return Some(OnlyGamma), epsilon, nLevels;
    }
    if nLevels[0] < 0 || nLevels[0] > 5 || nLevels[1] < 0 || nLevels[1] > 5
       || nLevels[2] < 0 || nLevels[2] > 5 {
      return Some(BadLevels), epsilon, nLevels;
    }
    failure := None;
  }

  /**
   * The command as written: after the checks pass, every spin iteration
   * bisects the determinant sd(0,0), whatever the spin. Returns 1 with no
   * report when a check fails, and 0 otherwise.
   */
  method Action(argv: seq<string>, atof: string -> real, atoi: string -> int, nkp: nat, nspin: nat,
                nstOf: Det -> nat, overlapOf: Det -> ((nat, nat) -> bool))
      returns (status: int, failure: Option<Failure>, reports: seq<SpinReport>)
    ensures status == 0 <==> failure == None
    ensures status == 1 <==> failure != None
    ensures failure == Some(Usage) <==> |argv| != 5
    ensures failure != None ==> reports == []
    ensures failure == None ==> |reports| == nspin
    ensures failure == None ==> forall k :: 0 <= k < nspin ==> reports[k].det == Det(0, 0)
    ensures forall k :: 0 <= k < |reports| ==>
              reports[k].sum == Counting.Full(overlapOf(reports[k].det), nstOf(reports[k].det), nstOf(reports[k].det))
  {
    var epsilon, nLevels;
    failure, epsilon, nLevels := Validate(argv, atof, atoi, nkp);
    reports := [];
    if failure != None {
      return 1, failure, reports;
    }
    var ispin := 0;
    while ispin < nspin
      invariant ispin <= nspin && |reports| == ispin
      invariant forall k :: 0 <= k < ispin ==> reports[k].det == Det(0, 0)
      invariant forall k :: 0 <= k < |reports| ==>
                  reports[k].sum == Counting.Full(overlapOf(reports[k].det), nstOf(reports[k].det), nstOf(reports[k].det))
    {
      var sd := Det(0, 0);
      var counts, sum := CountOverlaps(overlapOf(sd), nstOf(sd));
      reports := reports + [SpinReport(sd, counts, sum)];
      ispin := ispin + 1;
    }
    return 0, None, reports;
  }

  /** As written, with two spins the second spin's determinant is never
      bisected: both reports are about spin 0. */
  lemma SecondSpinSkipped(reports: seq<SpinReport>)
    requires |reports| == 2
    requires forall k :: 0 <= k < 2 ==> reports[k].det == Det(0, 0)
    ensures Det(1, 0) !in Bisected(reports)
  {
  }

  /** The evidently intended loop: spin ispin bisects sd(ispin, 0), so each
      spin's determinant is bisected exactly once, in spin order. */
  method ActionPerSpin(argv: seq<string>, atof: string -> real, atoi: string -> int, nkp: nat, nspin: nat,
                       nstOf: Det -> nat, overlapOf: Det -> ((nat, nat) -> bool))
      returns (status: int, failure: Option<Failure>, reports: seq<SpinReport>)
    ensures status == 0 <==> failure == None
    ensures status == 1 <==> failure != None
    ensures failure == Some(Usage) <==> |argv| != 5
    ensures failure != None ==> reports == []
    ensures failure == None ==> |reports| == nspin
    ensures failure == None ==> forall k :: 0 <= k < nspin ==> reports[k].det == Det(k, 0)
    ensures forall k :: 0 <= k < |reports| ==>
              reports[k].sum == Counting.Full(overlapOf(reports[k].det), nstOf(reports[k].det), nstOf(reports[k].det))
  {
    var epsilon, nLevels;
    failure, epsilon, nLevels := Validate(argv, atof, atoi, nkp);
    reports := [];
    if failure != None {
      return 1, failure, reports;
    }
    var ispin := 0;
    while ispin < nspin
      invariant ispin <= nspin && |reports| == ispin
      invariant forall k :: 0 <= k < ispin ==> reports[k].det == Det(k, 0)
      invariant forall k :: 0 <= k < |reports| ==>
                  reports[k].sum == Counting.Full(overlapOf(reports[k].det), nstOf(reports[k].det), nstOf(reports[k].det))
    {
      var sd := Det(ispin, 0);
      var counts, sum := CountOverlaps(overlapOf(sd), nstOf(sd));
      reports := reports + [SpinReport(sd, counts, sum)];
      ispin := ispin + 1;
    }
    return 0, None, reports;
  }

  /** With the corrected loop, every spin's determinant is bisected. */
  lemma EverySpinBisected(reports: seq<SpinReport>, nspin: nat)
    requires |reports| == nspin
    requires forall k :: 0 <= k < nspin ==> reports[k].det == Det(k, 0)
    ensures forall d: Det :: d in Bisected(reports) <==> d.ikp == 0 && d.ispin < nspin
  {
    forall d: Det | d.ikp == 0 && d.ispin < nspin
      ensures d in Bisected(reports)
    {
      assert Bisected(reports)[d.ispin] == d;
    }
  }

  /** The determinants a run bisected, in order. */
  function Bisected(reports: seq<SpinReport>): (ds: seq<Det>)
    ensures |ds| == |reports| && forall k :: 0 <= k < |ds| ==> ds[k] == reports[k].det
  {
    seq(|reports|, k requires 0 <= k < |reports| => reports[k].det)
  }
}
