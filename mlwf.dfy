/**
 * Maximally localised Wannier function bookkeeping (TDMLWFTransform): the
 * periodic cosine/sine stencil applied along grid lines, the centre distance
 * and overlap test used to prune exchange pairs, the overlap counts, the
 * spread sums and the electronic dipole.
 *
 * The centres come from atan2 of the joint-diagonalisation results; they are
 * a parameter `center`. Square root is a parameter `sqrt`.
 */
module Mlwf {
  import opened Numbers
  import opened Wrappers
  import Counting
  import Arith

  // ---------------------------------------------------------------------------
  // compute_sincos: fc[i] = (f[i-1] + f[i+1]) / 2, fs[i] = (f[i-1] - f[i+1]) / 2i
  // on a periodic line of n points.

  /** The periodic left neighbour of i on a line of n points. */
  function Prev(i: nat, n: nat): (p: nat)
    requires i < n
    ensures p < n
  {
    if i == 0 then n - 1 else i - 1
  }

  /** The periodic right neighbour of i on a line of n points. */
  function Next(i: nat, n: nat): (q: nat)
    requires i < n
    ensures q < n
  {
    if i == n - 1 then 0 else i + 1
  }

  /** The neighbours are i - 1 and i + 1 modulo n, the wrap-around included. */
  lemma NeighboursAreModular(i: nat, n: nat)
    requires i < n
    ensures Prev(i, n) == (i + n - 1) % n
    ensures Next(i, n) == (i + 1) % n
  {
    if i == 0 {
      Arith.ModInBlock(n - 1, n, 0);
    } else {
      Arith.ModInBlock(i + n - 1, n, 1);
    }
    if i == n - 1 {
      Arith.ModInBlock(i + 1, n, 1);
    } else {
      Arith.ModInBlock(i + 1, n, 0);
    }
  }

  /** The cosine part from the left value zp and the right value zm. */
  function CosPart(zp: Complex, zm: Complex): Complex
  {
    CScale(0.5, CAdd(zp, zm))
  }

  /** The sine part: half the difference divided by i, written as
      (im d, -re d) / 2. */
  function SinPart(zp: Complex, zm: Complex): Complex
  {
    var d := CSub(zp, zm);
    CScale(0.5, C(d.im, -d.re))
  }

  /** The two parts are the Fourier components of the neighbours:
      fc + i fs gives back the left value and fc - i fs the right one. */
  lemma SinCosRecoversNeighbours(zp: Complex, zm: Complex)
    ensures CAdd(CosPart(zp, zm), CMul(I, SinPart(zp, zm))) == zp
    ensures CSub(CosPart(zp, zm), CMul(I, SinPart(zp, zm))) == zm
  {
    var d := CSub(zp, zm);
    assert CMul(I, SinPart(zp, zm)) == CScale(0.5, d);
  }

  /** Index of point i of the line that starts at base `line * n`. */
  function At(line: nat, n: nat, i: nat): nat
  {
    line * n + i
  }

  /** The line of n points from base holds the stencil of f in fc and fs. */
  ghost predicate LineStencil(f: array<Complex>, fc: array<Complex>, fs: array<Complex>, base: nat, n: nat)
    reads f, fc, fs
  {
    n >= 2 && base + n <= f.Length && base + n <= fc.Length && base + n <= fs.Length &&
    (forall k :: 0 <= k < n ==> fc[base + k] == CosPart(f[base + Prev(k, n)], f[base + Next(k, n)])) &&
    (forall k :: 0 <= k < n ==> fs[base + k] == SinPart(f[base + Prev(k, n)], f[base + Next(k, n)]))
  }

  /** The loop of compute_sincos over the interior points 1 .. n-2, whose
      neighbours do not wrap; nothing outside those points changes. */
  method SinCosInterior(n: nat, f: array<Complex>, fc: array<Complex>, fs: array<Complex>, base: nat)
    requires n >= 2 && base + n <= f.Length && base + n <= fc.Length && base + n <= fs.Length
    requires f != fc && f != fs && fc != fs
    modifies fc, fs
    ensures forall j :: base + 1 <= j < base + n - 1 ==> fc[j] == CosPart(f[j - 1], f[j + 1])
    ensures forall j :: base + 1 <= j < base + n - 1 ==> fs[j] == SinPart(f[j - 1], f[j + 1])
    ensures forall j :: 0 <= j < fc.Length && !(base + 1 <= j < base + n - 1) ==> fc[j] == old(fc[j])
    ensures forall j :: 0 <= j < fs.Length && !(base + 1 <= j < base + n - 1) ==> fs[j] == old(fs[j])
  {
    var i := 1;
    while i < n - 1
      modifies fc, fs
      invariant 1 <= i <= n - 1
      invariant forall j :: base + 1 <= j < base + i ==> fc[j] == CosPart(f[j - 1], f[j + 1])
      invariant forall j :: base + 1 <= j < base + i ==> fs[j] == SinPart(f[j - 1], f[j + 1])
      invariant forall j :: 0 <= j < fc.Length && !(base + 1 <= j < base + i) ==> fc[j] == old(fc[j])
      invariant forall j :: 0 <= j < fs.Length && !(base + 1 <= j < base + i) ==> fs[j] == old(fs[j])
    {
      fc[base + i] := CosPart(f[base + i - 1], f[base + i + 1]);
      fs[base + i] := SinPart(f[base + i - 1], f[base + i + 1]);
      i := i + 1;
    }
  }

  /**
   * The stencil on the n points f[base .. base+n), written to the same range
   * of fc and fs; nothing else of fc and fs changes. Point 0 and point n-1
   * wrap around.
   */
  method ComputeSinCos(n: nat, f: array<Complex>, fc: array<Complex>, fs: array<Complex>, base: nat)
    requires n >= 2 && base + n <= f.Length && base + n <= fc.Length && base + n <= fs.Length
    requires f != fc && f != fs && fc != fs
    modifies fc, fs
    ensures LineStencil(f, fc, fs, base, n)
    ensures forall k :: 0 <= k < fc.Length && !(base <= k < base + n) ==> fc[k] == old(fc[k])
    ensures forall k :: 0 <= k < fs.Length && !(base <= k < base + n) ==> fs[k] == old(fs[k])
  {
    var zp := f[base + n - 1];
    var zm := f[base + 1];
    fc[base] := CosPart(zp, zm);
    fs[base] := SinPart(zp, zm);
    SinCosInterior(n, f, fc, fs, base);
    zp := f[base + n - 2];
    zm := f[base];
    fc[base + n - 1] := CosPart(zp, zm);
    fs[base + n - 1] := SinPart(zp, zm);
    forall k | 0 <= k < n
      ensures fc[base + k] == CosPart(f[base + Prev(k, n)], f[base + Next(k, n)])
      ensures fs[base + k] == SinPart(f[base + Prev(k, n)], f[base + Next(k, n)])
    {
      if 0 < k < n - 1 {
        assert Prev(k, n) == k - 1 && Next(k, n) == k + 1;
        assert fc[base + k] == CosPart(f[base + k - 1], f[base + k + 1]);
        assert fs[base + k] == SinPart(f[base + k - 1], f[base + k + 1]);
      }
    }
  }

  /** The last line of `lines` lines of n points ends within lines * n. */
  lemma LineWithin(line: nat, lines: nat, n: nat)
    requires line < lines
    ensures At(line, n, 0) + n <= lines * n
  {
    assert lines * n >= (line + 1) * n;
  }

  /**
   * The z sweep of update: the stencil along each of the nvec lines of np2
   * consecutive points (base ivec*np2).
   */
  method ZSweep(nvec: nat, np2: nat, zvec: array<Complex>, zcos: array<Complex>, zsin: array<Complex>)
    requires np2 >= 2 && nvec * np2 <= zvec.Length && nvec * np2 <= zcos.Length && nvec * np2 <= zsin.Length
    requires zvec != zcos && zvec != zsin && zcos != zsin
    modifies zcos, zsin
    ensures forall v :: 0 <= v < nvec ==> LineStencil(zvec, zcos, zsin, At(v, np2, 0), np2)
  {
    var ivec := 0;
    while ivec < nvec
      modifies zcos, zsin
      invariant 0 <= ivec <= nvec
      invariant forall v :: 0 <= v < ivec ==> LineStencil(zvec, zcos, zsin, At(v, np2, 0), np2)
    {
      LineWithin(ivec, nvec, np2);
      ComputeSinCos(np2, zvec, zcos, zsin, At(ivec, np2, 0));
      forall v | 0 <= v < ivec
        ensures LineStencil(zvec, zcos, zsin, At(v, np2, 0), np2)
      {
        LineWithin(v, ivec, np2);
      }
      ivec := ivec + 1;
    }
  }

  /** Every point of an x line (base iz*np01 + iy*np0, np0 consecutive
      points) lies inside the local slab of np2loc planes. */
  lemma XLineInBounds(iz: nat, iy: nat, k: nat, np0: nat, np1: nat, np2loc: nat)
    requires iz < np2loc && iy < np1 && k < np0
    ensures iz * (np0 * np1) + iy * np0 + k < np2loc * (np0 * np1)
  {
    var plane := np0 * np1;
    Arith.WithinBlock(iy, k, np1, np0);
    assert np1 * np0 == plane;
    Arith.WithinBlock(iz, iy * np0 + k, np2loc, plane);
  }

  /** Every point of a y line (base iz*np01 + ix, np1 points of stride np0)
      lies inside the local slab of np2loc planes. */
  lemma YLineInBounds(iz: nat, ix: nat, k: nat, np0: nat, np1: nat, np2loc: nat)
    requires iz < np2loc && ix < np0 && k < np1
    ensures iz * (np0 * np1) + ix + k * np0 < np2loc * (np0 * np1)
  {
    var plane := np0 * np1;
    Arith.WithinBlock(k, ix, np1, np0);
    assert np1 * np0 == plane;
    Arith.WithinBlock(iz, ix + k * np0, np2loc, plane);
  }

  /** Every point of a z line (base ivec*np2) lies inside nvec*np2. */
  lemma ZLineInBounds(ivec: nat, k: nat, nvec: nat, np2: nat)
    requires ivec < nvec && k < np2
    ensures ivec * np2 + k < nvec * np2
  {
    LineWithin(ivec, nvec, np2);
  }

  // ---------------------------------------------------------------------------
  // distance and overlap

  /** Lengths of the three cell vectors a0, a1, a2. */
  datatype Cell = Cell(len0: real, len1: real, len2: real)

  function Abs(x: real): (r: real)
    ensures r >= 0.0 && (r == x || r == -x)
  {
    if x < 0.0 then -x else x
  }

  /** Distance between the centres of states i and j. */
  function Distance(center: nat -> Vec3, sqrt: real -> real, i: nat, j: nat): (d: real)
    ensures d >= 0.0
  {
    Abs(sqrt(Norm2(Sub3(center(i), center(j)))))
  }

  /** Length of the cell diagonal, sqrt(|a0|^2 + |a1|^2 + |a2|^2). */
  function CellDiagonal(cell: Cell, sqrt: real -> real): real
  {
    sqrt(cell.len0 * cell.len0 + cell.len1 * cell.len1 + cell.len2 * cell.len2)
  }

  /** States i and j overlap when their centres are within eps, or within
      eps of the cell diagonal (the periodic image). */
  predicate Overlap(center: nat -> Vec3, sqrt: real -> real, cell: Cell, eps: real, i: nat, j: nat)
  {
    var d := Distance(center, sqrt, i, j);
    d <= eps || d >= CellDiagonal(cell, sqrt) - eps
  }

  /** The overlap test as a relation on state indices. */
  function OverlapRel(center: nat -> Vec3, sqrt: real -> real, cell: Cell, eps: real): (r: (nat, nat) -> bool)
    ensures forall i: nat, j: nat :: r(i, j) == Overlap(center, sqrt, cell, eps, i, j)
  {
    (i: nat, j: nat) => Overlap(center, sqrt, cell, eps, i, j)
  }

  lemma DistanceSymmetric(center: nat -> Vec3, sqrt: real -> real, i: nat, j: nat)
    ensures Distance(center, sqrt, i, j) == Distance(center, sqrt, j, i)
  {
    var a, b := center(i), center(j);
    assert Norm2(Sub3(a, b)) == Norm2(Sub3(b, a)) by {
      assert (a.x - b.x) * (a.x - b.x) == (b.x - a.x) * (b.x - a.x);
      assert (a.y - b.y) * (a.y - b.y) == (b.y - a.y) * (b.y - a.y);
      assert (a.z - b.z) * (a.z - b.z) == (b.z - a.z) * (b.z - a.z);
    }
  }

  /** overlap(eps, i, j) == overlap(eps, j, i). */
  lemma OverlapSymmetric(center: nat -> Vec3, sqrt: real -> real, cell: Cell, eps: real)
    ensures Counting.Symmetric(OverlapRel(center, sqrt, cell, eps))
  {
    forall i: nat, j: nat
      ensures Overlap(center, sqrt, cell, eps, i, j) == Overlap(center, sqrt, cell, eps, j, i)
    {
      DistanceSymmetric(center, sqrt, i, j);
    }
  }

  /** A state overlaps itself when eps >= 0 (given sqrt(0) = 0). */
  lemma OverlapSelf(center: nat -> Vec3, sqrt: real -> real, cell: Cell, eps: real, n: nat)
    requires sqrt(0.0) == 0.0 && eps >= 0.0
    ensures Counting.Reflexive(OverlapRel(center, sqrt, cell, eps), n)
  {
    forall i: nat | i < n
      ensures Overlap(center, sqrt, cell, eps, i, i)
    {
      assert Sub3(center(i), center(i)) == Zero3;
    }
  }

  /** A larger threshold keeps every pair a smaller one keeps. */
  lemma OverlapMonotone(center: nat -> Vec3, sqrt: real -> real, cell: Cell, eps1: real, eps2: real, i: nat, j: nat)
    requires eps1 <= eps2 && Overlap(center, sqrt, cell, eps1, i, j)
    ensures Overlap(center, sqrt, cell, eps2, i, j)
  {
  }

  /** Once the threshold reaches half the cell diagonal, every pair overlaps. */
  lemma OverlapEverywhere(center: nat -> Vec3, sqrt: real -> real, cell: Cell, eps: real, i: nat, j: nat)
    requires CellDiagonal(cell, sqrt) <= 2.0 * eps
    ensures Overlap(center, sqrt, cell, eps, i, j)
  {
  }

  // ---------------------------------------------------------------------------
  // overlap counts

  /** The inner counting loop: the states j in [lo, nst) that overlap state i. */
  method RowOverlaps(center: nat -> Vec3, sqrt: real -> real, cell: Cell, eps: real, i: nat, lo: nat, nst: nat)
      returns (count: nat)
    ensures count == Counting.CountRange(OverlapRel(center, sqrt, cell, eps), i, lo, nst)
  {
    count := 0;
    var j := lo;
    while j < nst
      invariant lo <= j && (j <= nst || j == lo)
      invariant count == Counting.CountRange(OverlapRel(center, sqrt, cell, eps), i, lo, j)
    {
      if Overlap(center, sqrt, cell, eps, i, j) {
        count := count + 1;
      }
      j := j + 1;
    }
  }

  /**
   * total_overlaps: the number of overlapping (i, j) over all nst*nst
   * ordered pairs, diagonal included. (The source prints this count and
   * returns no value.)
   */
  method TotalOverlaps(center: nat -> Vec3, sqrt: real -> real, cell: Cell, eps: real, nst: nat)
      returns (sum: nat)
    ensures sum == Counting.Full(OverlapRel(center, sqrt, cell, eps), nst, nst)
    ensures sum <= nst * nst
    ensures sqrt(0.0) == 0.0 && eps >= 0.0 ==>
              sum == 2 * Counting.Upper(OverlapRel(center, sqrt, cell, eps), nst, nst) + nst
  {
    ghost var r := OverlapRel(center, sqrt, cell, eps);
    sum := 0;
    var i := 0;
    while i < nst
      invariant 0 <= i <= nst
      invariant sum == Counting.Full(r, i, nst)
    {
      var count := RowOverlaps(center, sqrt, cell, eps, i, 0, nst);
      sum := sum + count;
      i := i + 1;
    }
    Counting.FullBound(r, nst, nst);
    if sqrt(0.0) == 0.0 && eps >= 0.0 {
      FullOverlapCount(center, sqrt, cell, eps, nst);
    }
  }

  /** With a non-negative threshold every state overlaps itself and the test
      is symmetric, so the full count is twice the pairs i < j, plus nst. */
  lemma FullOverlapCount(center: nat -> Vec3, sqrt: real -> real, cell: Cell, eps: real, nst: nat)
    requires sqrt(0.0) == 0.0 && eps >= 0.0
    ensures Counting.Full(OverlapRel(center, sqrt, cell, eps), nst, nst)
            == 2 * Counting.Upper(OverlapRel(center, sqrt, cell, eps), nst, nst) + nst
  {
    OverlapSymmetric(center, sqrt, cell, eps);
    OverlapSelf(center, sqrt, cell, eps, nst);
    Counting.FullOfSymmetric(OverlapRel(center, sqrt, cell, eps), nst);
  }

  /** n(n+1)/2 without division. */
  function Triangle(n: nat): (t: nat)
    ensures 2 * t == n * (n + 1)
  {
    if n == 0 then 0 else Triangle(n - 1) + n
  }

  /** The integer division of the source is exact: n(n+1)/2 == Triangle(n). */
  lemma HalfIsTriangle(n: nat)
    ensures (n * (n + 1)) / 2 == Triangle(n)
  {
    assert n * (n + 1) == 2 * Triangle(n);
  }

  /** A quotient of positive reals whose numerator is at most the
      denominator lies in (0, 1]. */
  lemma QuotientInUnitInterval(a: real, b: real)
    requires 0.0 < a <= b
    ensures 0.0 < a / b <= 1.0
  {
    var q := a / b;
    assert q * b == a;
    assert (1.0 - q) * b == b - a;
    SignOfProduct(q, b);
    SignOfProduct(1.0 - q, b);
  }

  /** With b positive, c b has the sign of c. */
  lemma SignOfProduct(c: real, b: real)
    requires b > 0.0
    ensures c * b >= 0.0 ==> c >= 0.0
    ensures c * b > 0.0 ==> c > 0.0
  {
    if c < 0.0 {
      assert c * b < 0.0;
    } else if c == 0.0 {
      assert c * b == 0.0;
    }
  }

  /** (u + n) / Triangle(n) lies in (0, 1] when at most n(n-1)/2 pairs are counted. */
  lemma FractionInUnitInterval(u: nat, n: nat)
    requires n > 0 && 2 * u <= n * (n - 1)
    ensures Triangle(n) > 0
    ensures 0.0 < (u + n) as real / Triangle(n) as real <= 1.0
  {
    assert n * (n + 1) == n * (n - 1) + 2 * n;
    assert u + n <= Triangle(n);
    QuotientInUnitInterval((u + n) as real, Triangle(n) as real);
  }

  /** The counting loop of pair_fraction: pairs i < j, plus nst self pairs. */
  method PairCount(center: nat -> Vec3, sqrt: real -> real, cell: Cell, eps: real, nst: nat)
      returns (sum: nat)
    ensures sum == Counting.Upper(OverlapRel(center, sqrt, cell, eps), nst, nst) + nst
  {
    ghost var r := OverlapRel(center, sqrt, cell, eps);
    sum := 0;
    var i := 0;
    while i < nst
      invariant 0 <= i <= nst
      invariant sum == Counting.Upper(r, i, nst)
    {
      var count := RowOverlaps(center, sqrt, cell, eps, i, i + 1, nst);
      sum := sum + count;
      i := i + 1;
    }
    sum := sum + nst;
  }

  /**
   * pair_fraction: (number of overlapping i < j, plus nst for the self pairs)
   * divided by the integer nst(nst+1)/2. With no states the source divides
   * 0 by 0 (a NaN), modelled as None; otherwise the fraction lies in (0, 1].
   */
  method PairFraction(center: nat -> Vec3, sqrt: real -> real, cell: Cell, eps: real, nst: nat)
      returns (fraction: Option<real>)
    ensures nst == 0 <==> fraction.None?
    ensures fraction.Some? ==>
              fraction.value == (Counting.Upper(OverlapRel(center, sqrt, cell, eps), nst, nst) + nst) as real
                                / Triangle(nst) as real
    ensures fraction.Some? ==> 0.0 < fraction.value <= 1.0
  {
    var sum := PairCount(center, sqrt, cell, eps, nst);
    var denominator := (nst * (nst + 1)) / 2;
    HalfIsTriangle(nst);
    if denominator == 0 {
      fraction := None;
    } else {
      Counting.UpperBound(OverlapRel(center, sqrt, cell, eps), nst);
      FractionInUnitInterval(Counting.Upper(OverlapRel(center, sqrt, cell, eps), nst, nst), nst);
      fraction := Some(sum as real / denominator as real);
    }
  }

  // ---------------------------------------------------------------------------
  // spreads and dipole

  /** The six diagonal rows adiag[0..6) (cos x, sin x, cos y, sin y, cos z,
      sin z) hold an entry for every state i < nst. */
  predicate WellShaped(adiag: seq<seq<Complex>>, bLen: seq<real>, nst: nat)
  {
    |adiag| == 6 && |bLen| == 3 &&
    (forall k :: 0 <= k < 6 ==> |adiag[k]| >= nst) &&
    (forall j :: 0 <= j < 3 ==> bLen[j] != 0.0)
  }

  /** spread2(i, j) = (1 - |c|^2 - |s|^2) / |b_j|^2, with c, s the cos and
      sin entries of state i in direction j: at most 1/|b_j|^2. */
  function Spread2Dir(adiag: seq<seq<Complex>>, bLen: seq<real>, nst: nat, i: nat, j: nat): (s: real)
    requires WellShaped(adiag, bLen, nst) && i < nst && j < 3
    ensures s <= 1.0 / (bLen[j] * bLen[j])
  {
    var fac := 1.0 / bLen[j];
    assert fac * fac == 1.0 / (bLen[j] * bLen[j]);
    fac * fac * (1.0 - CNorm(adiag[2 * j][i]) - CNorm(adiag[2 * j + 1][i]))
  }

  /** spread2(i): the sum of the three directional spreads. */
  function Spread2State(adiag: seq<seq<Complex>>, bLen: seq<real>, nst: nat, i: nat): real
    requires WellShaped(adiag, bLen, nst) && i < nst
  {
    Spread2Dir(adiag, bLen, nst, i, 0) + Spread2Dir(adiag, bLen, nst, i, 1) + Spread2Dir(adiag, bLen, nst, i, 2)
  }

  /** Sum of spread2(i) over the first n states. */
  function Spread2Sum(adiag: seq<seq<Complex>>, bLen: seq<real>, nst: nat, n: nat): real
    requires WellShaped(adiag, bLen, nst) && n <= nst
  {
    if n == 0 then 0.0 else Spread2Sum(adiag, bLen, nst, n - 1) + Spread2State(adiag, bLen, nst, n - 1)
  }

  /** The bound on one state's spread: sum over the directions of 1/|b_j|^2. */
  function SpreadBound(bLen: seq<real>): real
    requires |bLen| == 3 && forall j :: 0 <= j < 3 ==> bLen[j] != 0.0
  {
    1.0 / (bLen[0] * bLen[0]) + 1.0 / (bLen[1] * bLen[1]) + 1.0 / (bLen[2] * bLen[2])
  }

  /** spread2(): the total spread, accumulated state by state. */
  method Spread2Total(adiag: seq<seq<Complex>>, bLen: seq<real>, nst: nat) returns (sum: real)
    requires WellShaped(adiag, bLen, nst)
    ensures sum == Spread2Sum(adiag, bLen, nst, nst)
    ensures sum <= nst as real * SpreadBound(bLen)
  {
    sum := 0.0;
    var i := 0;
    while i < nst
      invariant 0 <= i <= nst
      invariant sum == Spread2Sum(adiag, bLen, nst, i)
    {
      sum := sum + Spread2State(adiag, bLen, nst, i);
      i := i + 1;
    }
    Spread2SumBound(adiag, bLen, nst, nst);
  }

  /** The total spread of n states is at most n times the per-state bound. */
  lemma {:induction false} Spread2SumBound(adiag: seq<seq<Complex>>, bLen: seq<real>, nst: nat, n: nat)
    requires WellShaped(adiag, bLen, nst) && n <= nst
    ensures Spread2Sum(adiag, bLen, nst, n) <= n as real * SpreadBound(bLen)
  {
    if n > 0 {
      Spread2SumBound(adiag, bLen, nst, n - 1);
    }
  }

  /** -sum of occ(i) * center(i) over the first n states. */
  function DipoleSum(occ: seq<real>, center: nat -> Vec3, n: nat): Vec3
    requires n <= |occ|
  {
    if n == 0 then Zero3 else Sub3(DipoleSum(occ, center, n - 1), Scale3(occ[n - 1], center(n - 1)))
  }

  /** Sum of the occupations of the first n states. */
  function OccSum(occ: seq<real>, n: nat): real
    requires n <= |occ|
  {
    if n == 0 then 0.0 else OccSum(occ, n - 1) + occ[n - 1]
  }

  /** dipole(): the total electronic dipole, accumulated state by state. */
  method Dipole(occ: seq<real>, center: nat -> Vec3, nst: nat) returns (sum: Vec3)
    requires nst <= |occ|
    ensures sum == DipoleSum(occ, center, nst)
  {
    sum := Zero3;
    var i := 0;
    while i < nst
      invariant 0 <= i <= nst
      invariant sum == DipoleSum(occ, center, i)
    {
      sum := Sub3(sum, Scale3(occ[i], center(i)));
      i := i + 1;
    }
  }

  /** Moving every centre by t moves the dipole by -(total occupation) t. */
  lemma {:induction false} DipoleTranslation(occ: seq<real>, center: nat -> Vec3, moved: nat -> Vec3, t: Vec3, n: nat)
    requires n <= |occ|
    requires forall i: nat :: i < n ==> moved(i) == Add3(center(i), t)
    ensures DipoleSum(occ, moved, n) == Sub3(DipoleSum(occ, center, n), Scale3(OccSum(occ, n), t))
  {
    if n > 0 {
      DipoleTranslation(occ, center, moved, t, n - 1);
      DipoleStep(DipoleSum(occ, center, n - 1), center(n - 1), t, OccSum(occ, n - 1), occ[n - 1]);
    }
  }

  /** One state of the translation: removing k (c + t) from d - s t leaves
      (d - k c) - (s + k) t. */
  lemma DipoleStep(d: Vec3, c: Vec3, t: Vec3, s: real, k: real)
    ensures Sub3(Sub3(d, Scale3(s, t)), Scale3(k, Add3(c, t)))
            == Sub3(Sub3(d, Scale3(k, c)), Scale3(s + k, t))
  {
    assert k * (c.x + t.x) == k * c.x + k * t.x;
    assert k * (c.y + t.y) == k * c.y + k * t.y;
    assert k * (c.z + t.z) == k * c.z + k * t.z;
    assert (s + k) * t.x == s * t.x + k * t.x;
    assert (s + k) * t.y == s * t.y + k * t.y;
    assert (s + k) * t.z == s * t.z + k * t.z;
  }
}
