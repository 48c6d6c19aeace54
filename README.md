# Hybrid-functional exchange and its control commands, modelled in Dafny

This project models the parts of the Qbach real-time TDDFT code that compute
the Hartree-Fock exchange at the Gamma point, and the commands and variables
that configure it. It covers:

- **Exchange operator.** This is `ExchangeOperator` in
  `src/qball/TDExchangeOperator.cc`. It covers:
  - the screened interaction kernel `vint`/`dvint`;
  - the ring rotation of circulating states across process columns, and the
    MPI-flag bookkeeping of that rotation;
  - the chessboard rule that picks which orientation of a pair is evaluated;
  - the pair list and the weighting of the exchange energy;
  - the divergence corrections;
  - the grid-size search.
- **Wannier-function bookkeeping.** This is `TDMLWFTransform` in
  `src/qball/TDMLWFTransform.cc`. It covers:
  - the periodic sine/cosine stencil;
  - the centre-distance overlap test and the overlap counts;
  - the spreads and the electronic dipole.
- **Commands.** These are `load`, `species` and `bisection`.
- **Position constraint.** This holds one atom fixed.
- **Control variables.** These are `gauss_field`, `xc`,
  `isolated_electrostatic`, `sine_field`, `caldipfreq`, `MLWFDist` and
  `efield_amp`. Each one either rejects its arguments and leaves the control
  record as it was, or sets exactly its own fields.

Some operations the model cannot compute become parameters:

- the exponential, square root and vector length;
- `atof` and `atoi`;
- the FFT-size test;
- the Wannier centres;
- the pseudopotential reader.

MPI transfers are ghost maps of pending messages. File reads are a log of
events. Arithmetic is over exact reals and unbounded integers.

Modules:

| file | module | source |
|---|---|---|
| kernel.dfy | Kernel | `vint`, `dvint` |
| ring.dfy | Ring | `InitPermutation` neighbours, rotation order, chessboard rule |
| permutation.dfy | Permutation | `Start*`/`Complete*` transfer protocol, class `ExchangePermutation` |
| pairs.dfy | Pairs | pair list and energy of one rotation step |
| divergence.dfy | Divergence | `SumExpG2` and the three divergence terms |
| gamma.dfy | GammaExchange | entry of the Gamma-point computation and its two callers |
| grid.dfy | Grid | FFT grid-size search |
| counting.dfy | Counting | counts of related pairs (shared by the overlap counts) |
| mlwf.dfy | Mlwf | `TDMLWFTransform` |
| loadcmd.dfy | LoadCmd | `load` command |
| speciescmd.dfy | SpeciesCommand | `species` command |
| bisectioncmd.dfy | BisectionCommand | `bisection` command |
| position_constraint.dfy | PositionConstraints | `PositionConstraint` |
| control.dfy | Ctrl | the control record the variables write |
| gauss_field.dfy, xc.dfy, isolated_electrostatic.dfy, sine_field.dfy, cal_dip_freq.dfy, mlwf_dist.dfy, efield_amp.dfy | GaussFieldVar, XcVar, IsolatedElectrostaticVar, SineFieldVar, CalDipFreqVar, MlwfDistVar, EfieldAmpVar | one variable each |
| numbers.dfy, text.dfy, wrappers.dfy, arith.dfy | Numbers, Text, Wrappers, Arith | vectors, complex numbers, decimal text, `Option`, index and remainder arithmetic |

## Model

| member | source | states |
|---|---|---|
| Kernel.VintAsWritten | src/qball/TDExchangeOperator.cc:1873-1902 | The kernel as written agrees with the corrected one when alpha = 0, at g2 = 0, and at or above the Taylor threshold. |
| Kernel.Vint | src/qball/TDExchangeOperator.cc:1873-1902 | With alpha = beta, g2·vint = alpha for g2 ≠ 0 and vint(0) = 0. With alpha ≠ beta, at or above the threshold g2·vint = beta + (alpha-beta)·exp(-g2·fac). |
| Kernel.Dvint | src/qball/TDExchangeOperator.cc:1906-1944 | With alpha = beta, g2·dvint = -vint. With alpha ≠ beta, dvint(0) = -vint(0)·fac/2, and at or above the threshold g2·dvint = -(vint + (alpha-beta)·exp(-g2·fac)·fac), the derivative of the screened formula. |
| Kernel.NoInteraction | src/qball/TDExchangeOperator.cc:1877-1879 | With alpha = beta = 0, the kernel and its derivative are 0 for every g2. |
| Kernel.CoulombKernel | src/qball/TDExchangeOperator.cc:1881-1888 | With alpha = beta, the kernel is alpha/g2 and its value at g2 = 0 is dropped. The derivative satisfies dvint·g2 = -vint. The corrected and as-written kernels agree. |
| Kernel.ScreenedAtOrigin | src/qball/TDExchangeOperator.cc:1891-1895 | With alpha ≠ beta, at g2 = 0 the kernel is -2(alpha-beta)fac and the derivative is (alpha-beta)fac². So dvint(0) = -vint(0)·fac/2. |
| Kernel.ExactBranchIsScreenedFormula | src/qball/TDExchangeOperator.cc:1899-1900 | At or above the threshold 1e-6, the kernel is (beta + (alpha-beta)·exp(-x))/g2. |
| Kernel.TaylorBranchIsExpansion | src/qball/TDExchangeOperator.cc:1896-1898 | The corrected Taylor branch is the screened formula with exp(-x) replaced by 1 - x + x²/2. |
| Kernel.TaylorBranchAsWrittenOffset | src/qball/TDExchangeOperator.cc:1896-1898 | The Taylor branch as written exceeds the expansion by alpha·fac·(1 - x/2). |
| Kernel.AsWrittenAgreesWithoutLongRange | src/qball/TDExchangeOperator.cc:1873-1902 | With alpha = 0, the as-written and corrected kernels agree everywhere. |
| Kernel.TaylorBranchesShareOneSeries | src/qball/TDExchangeOperator.cc:1933-1937 | Below the threshold, the corrected vint is the small-g2 series alpha/g2 - d·fac + d·fac²/2·g2, where d = alpha-beta. dvint is the slope of that series carried one term further. The as-written vint has linear coefficient -beta·fac²/2, which differs iff alpha ≠ 0, so dvint is not its derivative. |
| Kernel.TaylorBranchCounterexample | src/qball/TDExchangeOperator.cc:1896-1898 | alpha=1, beta=0, mu=1/2, g2=1e-7: the as-written Taylor branch differs from the expansion. |
| Ring.SendTo | src/qball/TDExchangeOperator.cc:1639-1640 | The destination is a column of the grid. |
| Ring.NeighboursAreModular | src/qball/TDExchangeOperator.cc:1639-1642 | The destination column is (mycol+1) mod npcol and the source column is (mycol-1) mod npcol. |
| Ring.RecvFrom | src/qball/TDExchangeOperator.cc:1641-1642 | The source is a column of the grid. |
| Ring.NeighboursInverse | src/qball/TDExchangeOperator.cc:1636-1643 | Sending to the right and receiving from the left are inverse. |
| Ring.OriginColumn | src/qball/TDExchangeOperator.cc:1171-1173 | The block held at step s comes from a column of the grid. |
| Ring.OriginIsModular | src/qball/TDExchangeOperator.cc:1171-1173 | At step s, column c holds the block of column (c - s) mod npcol. |
| Ring.OwnBlockOnlyAtStepZero | src/qball/TDExchangeOperator.cc:1171-1173 | A column holds its own block only at step 0. |
| Ring.StepOf | src/qball/TDExchangeOperator.cc:1154-1173 | For each origin column there is exactly one step at which a given column holds that origin's block. |
| Ring.VisitsEachColumnOnce | src/qball/TDExchangeOperator.cc:1154-1173 | Over npcol steps, every column sees every block exactly once. |
| Ring.RotateNHolds | src/qball/TDExchangeOperator.cc:1154-1468 | After k ≤ npcol rotations, column c holds the block of column c-k, wrapped around. |
| Ring.RotationMatchesOrigin | src/qball/TDExchangeOperator.cc:1154-1468 | The rotated contents agree with OriginColumn. |
| Ring.FullCycle | src/qball/TDExchangeOperator.cc:1154-1468 | After npcol rotations every column holds its own block again. |
| Ring.ExactlyOneOrientation | src/qball/TDExchangeOperator.cc:1181-1226 | For distinct states, the chessboard rule keeps exactly one of (a,b) and (b,a). A self pair is always kept. |
| Ring.PairEvaluatedOnce | src/qball/TDExchangeOperator.cc:1154-1226 | Each unordered pair of distinct states is evaluated by exactly one (column, step). |
| Ring.SelfPairAtStepZero | src/qball/TDExchangeOperator.cc:1154-1226 | A self pair is evaluated only by its own column, at step 0. |
| Permutation.ExchangePermutation.constructor | src/qball/TDExchangeOperator.cc:145-149 | The buffers are sized to the maximum local state count and nothing is in flight. The model also zeroes the wait flags and the state counts, which the source leaves uninitialised (see Left out). |
| Permutation.ExchangePermutation.InitPermutation | src/qball/TDExchangeOperator.cc:1636-1656 | Sets the send and receive columns to Ring.SendTo and Ring.RecvFrom. |
| Permutation.ExchangePermutation.LoadLocalStates | src/qball/TDExchangeOperator.cc:1122-1134 | The first nstloc fixed and circulating occupations are 2.0. The count is nstloc and the other entries are unchanged. |
| Permutation.ExchangePermutation.SetNextPermutationStateNumber | src/qball/TDExchangeOperator.cc:1668-1681 | nNextStatesKpi becomes the neighbour's count and the invariant is kept. |
| Permutation.ExchangePermutation.StartStatesPermutation | src/qball/TDExchangeOperator.cc:1686-1711 | A send is posted iff the block is non-empty. A receive is posted iff the next block is non-empty. The flags match. |
| Permutation.ExchangePermutation.StartForcesPermutation | src/qball/TDExchangeOperator.cc:1747-1772 | The same as StartStatesPermutation, for the forces. |
| Permutation.ExchangePermutation.FillOccupationBuffer | src/qball/TDExchangeOperator.cc:1810-1812 | The first nStatesKpi entries of the send buffer hold the current occupations. The rest of the buffer is unchanged. |
| Permutation.ExchangePermutation.StartOccupationsPermutation | src/qball/TDExchangeOperator.cc:1808-1837 | Copies the current occupations into the send buffer, leaving the rest unchanged, then posts as above. |
| Permutation.ExchangePermutation.CompleteReceivingStates | src/qball/TDExchangeOperator.cc:1714-1726 | At step 0 nothing changes. Otherwise the receive is completed and its flag is cleared. |
| Permutation.ExchangePermutation.CompleteSendingStates | src/qball/TDExchangeOperator.cc:1729-1741 | The same, for the send of states. |
| Permutation.ExchangePermutation.CompleteReceivingForces | src/qball/TDExchangeOperator.cc:1775-1787 | The same, for the receive of forces. |
| Permutation.ExchangePermutation.CompleteSendingForces | src/qball/TDExchangeOperator.cc:1790-1802 | The same, for the send of forces. |
| Permutation.ExchangePermutation.CompleteReceivingOccupations | src/qball/TDExchangeOperator.cc:1840-1851 | The incoming occupations land in the first entries and the rest is unchanged. At step 0 nothing changes. |
| Permutation.ExchangePermutation.CompleteSendingOccupations | src/qball/TDExchangeOperator.cc:1854-1865 | The same, for the send of occupations. |
| Permutation.ExchangePermutation.EndStep | src/qball/TDExchangeOperator.cc:1467 | The received block size becomes the current one. |
| Permutation.ExchangePermutation.ReceivePhase | src/qball/TDExchangeOperator.cc:1166-1262 | The first half of a step: afterwards no state transfer and no occupation receive is pending. |
| Permutation.ExchangePermutation.PostStatesAndForces | src/qball/TDExchangeOperator.cc:1279-1461 | Exchanges the next count and posts the states (and forces, with dwf) without double-posting. |
| Permutation.ExchangePermutation.PostOccupations | src/qball/TDExchangeOperator.cc:1463-1467 | Completes and reposts the occupations. The received size becomes current. |
| Permutation.ExchangePermutation.SendPhase | src/qball/TDExchangeOperator.cc:1279-1467 | The second half of a step ends in the between-steps state, with the announced block current. |
| Permutation.ExchangePermutation.RotationStep | src/qball/TDExchangeOperator.cc:1154-1468 | One step keeps the protocol invariant. No transfer is posted while one is pending on the same channel. |
| Permutation.ExchangePermutation.Drain | src/qball/TDExchangeOperator.cc:1519-1529 | After the loop every transfer is completed and every flag is 0. |
| Permutation.ExchangePermutation.RunRotation | src/qball/TDExchangeOperator.cc:1148-1531 | The whole rotation ends idle, with every flag 0 and the column's own count restored. |
| Pairs.PairListMembers | src/qball/TDExchangeOperator.cc:1163-1226 | A pair is in the list iff an occupation is non-zero, the orbitals overlap (when pruning is on) and the chessboard rule keeps it. |
| Pairs.PairListOrdered | src/qball/TDExchangeOperator.cc:1163-1226 | The list is strictly increasing in (i, j), so no pair appears twice. |
| Pairs.BuildPairList | src/qball/TDExchangeOperator.cc:1163-1226 | The two index vectors hold exactly PairList. nPair is its length. useState[i] is 1 iff state i occurs in a pair, and 0 otherwise. |
| Pairs.ScanRow | src/qball/TDExchangeOperator.cc:1178-1226 | The inner loop appends RowPairs for state i and sets useState[i] iff some fixed state is selected. |
| Pairs.AccumulateExchange | src/qball/TDExchangeOperator.cc:1360-1387 | Energy gained = Σ over pairs of w·½·exfac·occ_i·occ_j·ex, with w = 1 for i = j at step 0 and w = 2 otherwise. |
| Pairs.WeightIsGlobal | src/qball/TDExchangeOperator.cc:1361-1387 | The local test "i = j at step 0" is the same as "the two global states are the same state". |
| Pairs.KeptSumIsFullSum | src/qball/TDExchangeOperator.cc:1181-1387 | For a symmetric pair energy, the weighted sum over kept pairs equals the sum over all ordered pairs. |
| Divergence.GaussSumLinear | src/qball/TDExchangeOperator.cc:1095-1120 | The Gaussian sum is alpha times the sum with alpha = 1. |
| Divergence.SumExpG2 | src/qball/TDExchangeOperator.cc:1095-1120 | The loop runs only when alpha ≠ 0. The result is alpha·Σ exp(-rc²G²)/G², and 0 when alpha = 0. |
| Divergence.AnalyticConstant | src/qball/TDExchangeOperator.cc:1549-1551 | integ/vbz equals alpha·sqrt(pi)·omega/(4·pi²·rcut). It is 0 when alpha = 0. |
| Divergence.StateCorrectionLinear | src/qball/TDExchangeOperator.cc:1560-1590 | A state's correction is its occupation times the correction of a unit occupation. |
| Divergence.CorrectState | src/qball/TDExchangeOperator.cc:1560-1595 | div_corr of one state is its correction: term 1, plus terms 2 and 3 on process row 0. The energy drops by ½·div_corr·occ. |
| Divergence.Correct | src/qball/TDExchangeOperator.cc:1547-1612 | With alpha = 0 nothing changes and every div_corr is 0. Otherwise div_corr(i) is this process row's partial correction of the state, and the energy drops by ½·Σ div_corr(i)·occ(i). |
| Divergence.EnergyMatchesDerivative | src/qball/TDExchangeOperator.cc:1547-1612 | The energy correction is -½ times the occupation-weighted sum of the corrections applied to the derivative. |
| Divergence.FullyOccupiedColumn | src/qball/TDExchangeOperator.cc:1124-1125 | With every occupation 2, as the Gamma path fixes them, a state's column-summed correction is 2·exfac·(Σsums - alpha·rcut² - integ/vbz). |
| Divergence.AnalyticTerm | src/qball/TDExchangeOperator.cc:1549-1590 | With the analytic constant computed as integ/vbz, term 3 times 4π²·rcut is -exfac·alpha·√π·ω·occ, and term 3 is 0 when alpha = 0. |
| Divergence.RowZeroTermsOnce | src/qball/TDExchangeOperator.cc:1081-1100 | Row r contributes its partial Gaussian sum sums[r]. Summed over the rows of a column, the partial corrections give exfac·Σsums·occ plus terms 2 and 3 once, from row 0. |
| Divergence.ApplyToDerivative | src/qball/TDExchangeOperator.cc:1547-1607 | With alpha = 0 or without dwf, the derivative is unchanged. Otherwise every coefficient loses c_j·(exfac·Σsums·occ + term 2 + term 3). |
| GammaExchange.PassesDerivative | src/qball/TDExchangeOperator.cc:256-274 | A derivative wave function is passed iff the caller is update_operator. update_energy passes 0. |
| GammaExchange.EntryAsWritten | src/qball/TDExchangeOperator.cc:1071-1073 | As written, the computation can only proceed with a derivative. |
| GammaExchange.Entry | src/qball/TDExchangeOperator.cc:1071-1073 | Corrected, the computation always gets past its entry. |
| GammaExchange.EnergyOnlyCallDereferencesNull | src/qball/TDExchangeOperator.cc:1071-1073 | As written, a caller fails with a null dereference iff it is update_energy. |
| GammaExchange.EveryCallerComputes | src/qball/TDExchangeOperator.cc:1071-1073 | Corrected, every caller gets past the entry, and the derivative is computed iff the caller is update_operator. |
| GammaExchange.ComputeAtGamma | src/qball/TDExchangeOperator.cc:1547-1607 | Corrected, update_energy leaves the derivative unchanged, and so does every caller when alpha = 0. Otherwise update_operator subtracts c_j times the column-summed correction from each coefficient. |
| Grid.NextGridSize | src/qball/TDExchangeOperator.cc:93-100 | Returns the smallest size np+2+2k that the FFT accepts. |
| Grid.GridSizes | src/qball/TDExchangeOperator.cc:93-100 | All three sizes are accepted, reachable and minimal. |
| Counting.CountRangeSplit | src/qball/TDMLWFTransform.cc:343-361 | A count over [lo, hi) splits at any interior point. |
| Counting.FullIsLowerDiagonalUpper | src/qball/TDMLWFTransform.cc:322-361 | The full count is below-diagonal + diagonal + above-diagonal. |
| Counting.UpperIsLower | src/qball/TDMLWFTransform.cc:322-361 | For a symmetric relation there are as many pairs above the diagonal as below it. |
| Counting.FullOfSymmetric | src/qball/TDMLWFTransform.cc:322-361 | For a symmetric, reflexive relation, full = 2·upper + n. |
| Counting.FullBound | src/qball/TDMLWFTransform.cc:322-340 | The full count is at most m·n. |
| Counting.UpperBound | src/qball/TDMLWFTransform.cc:343-361 | The count above the diagonal is at most n(n-1)/2. |
| Mlwf.NeighboursAreModular | src/qball/TDMLWFTransform.cc:231-257 | The stencil neighbours are i∓1 mod n, including the wrap-around at both ends. |
| Mlwf.SinCosRecoversNeighbours | src/qball/TDMLWFTransform.cc:231-257 | fc + i·fs and fc - i·fs give back the two neighbour values, so the stencil loses nothing. |
| Mlwf.SinCosInterior | src/qball/TDMLWFTransform.cc:243-250 | Each interior point 1..n-2 gets the cosine and sine parts of its two direct neighbours. Nothing else in fc and fs changes. |
| Mlwf.ComputeSinCos | src/qball/TDMLWFTransform.cc:231-257 | Every point of the line gets fc = (f[i-1]+f[i+1])/2 and fs = (f[i-1]-f[i+1])/2i, periodically. Nothing outside the line changes. |
| Mlwf.ZSweep | src/qball/TDMLWFTransform.cc:145-149 | The stencil holds on every z line of the nvec lines. |
| Mlwf.XLineInBounds | src/qball/TDMLWFTransform.cc:158-165 | Every index the x sweep reads or writes is in bounds. |
| Mlwf.YLineInBounds | src/qball/TDMLWFTransform.cc:176-190 | Every index the y sweep reads or writes is in bounds. |
| Mlwf.ZLineInBounds | src/qball/TDMLWFTransform.cc:145-149 | Every index the z sweep reads or writes is in bounds. |
| Mlwf.Distance | src/qball/TDMLWFTransform.cc:286-307 | The centre distance is non-negative. |
| Mlwf.DistanceSymmetric | src/qball/TDMLWFTransform.cc:286-307 | distance(i,j) = distance(j,i). |
| Mlwf.OverlapSymmetric | src/qball/TDMLWFTransform.cc:310-319 | The overlap test is symmetric. |
| Mlwf.OverlapSelf | src/qball/TDMLWFTransform.cc:310-319 | With eps ≥ 0, every state overlaps itself. |
| Mlwf.OverlapMonotone | src/qball/TDMLWFTransform.cc:310-319 | A larger threshold keeps every overlap. |
| Mlwf.OverlapEverywhere | src/qball/TDMLWFTransform.cc:310-319 | Once the cell diagonal is at most 2·eps, every pair overlaps. |
| Mlwf.RowOverlaps | src/qball/TDMLWFTransform.cc:327-333 | The inner loop counts the j in [lo, nst) that overlap i. |
| Mlwf.TotalOverlaps | src/qball/TDMLWFTransform.cc:322-340 | The total is the count of overlapping ordered pairs and is at most nst². For eps ≥ 0 it is 2·(pairs i<j) + nst. |
| Mlwf.FullOverlapCount | src/qball/TDMLWFTransform.cc:322-361 | The two counting loops agree: full = 2·upper + nst. |
| Mlwf.PairFraction | src/qball/TDMLWFTransform.cc:343-361 | With no states the result is None (0/0). Otherwise it is (pairs i<j + nst)/(nst(nst+1)/2) and lies in (0, 1]. |
| Mlwf.Spread2Dir | src/qball/TDMLWFTransform.cc:364-374 | spread2(i,j) ≤ 1/\|b_j\|². |
| Mlwf.Spread2Total | src/qball/TDMLWFTransform.cc:390-396 | The loop gives Σ_i spread2(i), and that is at most nst times the per-state bound. |
| Mlwf.Spread2SumBound | src/qball/TDMLWFTransform.cc:377-396 | A partial spread sum over n states is at most n times the per-state bound. |
| Mlwf.Dipole | src/qball/TDMLWFTransform.cc:405-412 | The loop gives -Σ occ(i)·center(i). |
| Mlwf.DipoleTranslation | src/qball/TDMLWFTransform.cc:405-412 | Moving every centre by t changes the dipole by -(Σ occ)·t. |
| LoadCmd.EncodingFlag | src/ui/LoadCmd.cc:64-97 | Maps each encoding flag to its encoding (-xml gives base64). Only dashed arguments are flags. |
| LoadCmd.ScanArgs | src/ui/LoadCmd.cc:63-104 | The loop succeeds iff every argument before the last is a flag and the last one is undashed. The filename is the last argument and the last encoding flag wins. serial and readvel are set iff their flags occur. |
| LoadCmd.ParseArgs | src/ui/LoadCmd.cc:50-104 | The result is Some iff the arguments are acceptable. The filename is the last argument and the last encoding flag wins. serial and readvel are set iff their flags occur. |
| LoadCmd.LastFlagWins | src/ui/LoadCmd.cc:64-97 | Appending an encoding flag makes it the encoding. |
| LoadCmd.OtherFlagsKeepEncoding | src/ui/LoadCmd.cc:64-97 | Appending a non-encoding argument leaves the encoding unchanged. |
| LoadCmd.RhorFile | src/ui/LoadCmd.cc:154-162 | The name starts with the file name and ends with ".lastrhor". With one spin nothing lies between them. Otherwise ".s" follows the file name, and then decimal digits whose value is ispin. |
| LoadCmd.RhorFilesDistinct | src/ui/LoadCmd.cc:154-162 | Different spins read different density files. |
| LoadCmd.CompanionFilesDistinct | src/ui/LoadCmd.cc:123-243 | The hamwf, wfv, density and checkpoint names are pairwise different. |
| LoadCmd.FormatOf | src/ui/LoadCmd.cc:112-692 | The four checkpoint encodings are recognised, and FormatOf inverts EncodingOf. |
| LoadCmd.ReadDensities | src/ui/LoadCmd.cc:136-224 | Reads one density per spin, in order. With nspin ≠ 1 no other spin index is read. |
| LoadCmd.ReadState | src/ui/LoadCmd.cc:112-226 | The wave functions, then mditer, then the hamiltonian wave functions iff TDDFT is involved. Otherwise one density per spin. |
| LoadCmd.ReadExtras | src/ui/LoadCmd.cc:228-248 | Velocities are read iff -vel was given and atoms are not LOCKED, with a warning iff they are LOCKED. -serial is reported as ignored iff it was given. |
| LoadCmd.ReadCheckpoint | src/ui/LoadCmd.cc:112-248 | The full read sequence of one checkpoint format, without XML or projector events. |
| LoadCmd.DispatchAsWritten | src/ui/LoadCmd.cc:112-696 | As written, the deprecated-XML error is reported iff the encoding is neither proj2nd nor states-old. |
| LoadCmd.DumpLoadAsWritten | src/ui/LoadCmd.cc:112-696 | As written, loading a dump both reads it and reports XML as deprecated. |
| LoadCmd.DispatchReads | src/ui/LoadCmd.cc:112-696 | The same guarantees as Dispatch, for the reads before the common epilogue. |
| LoadCmd.Dispatch | src/ui/LoadCmd.cc:112-701 | The deprecated-XML error iff no branch handles the encoding. The proj/full/proj2nd reads happen iff the encoding says so. The format read matches the encoding. |
| LoadCmd.Action | src/ui/LoadCmd.cc:48-716 | The corrected command. Status 0 iff the arguments are accepted, and status 1 reads nothing. On status 0 the last encoding's checkpoint file (the last argument) is read, every wave-function read uses that encoding, and proj, full and proj2nd are each read iff selected. The XML error appears iff the last encoding is unhandled. |
| LoadCmd.ActionAsWritten | src/ui/LoadCmd.cc:48-716 | The command as written. Status 0 iff the arguments are accepted. The selected checkpoint is read, and the XML error appears for every encoding other than proj2nd and states-old. |
| GaussFieldVar.Width | src/vars/GaussField.h:58-62 | The stored width is negative iff the given FWHM is, and width·FWHM·ev2au = 2.3548. |
| GaussFieldVar.GaussField.constructor | src/vars/GaussField.h:92-98 | Clears the flag and sets the three values to 0. |
| GaussFieldVar.GaussField.Set | src/vars/GaussField.h:49-78 | Status 1 iff argc ≠ 4 or the width is negative, and then nothing changes. Otherwise the flag is set and the values are t0, the width and freq·ev2au. |
| XcVar.Xc.constructor | src/vars/Xc.h:98 | xc = "LDA" and hf = 0. |
| XcVar.Xc.Set | src/vars/Xc.h:53-85 | Status 1 iff argc ≠ 2 or the name is not one of the eight functionals, and then nothing changes. Otherwise xc is the name, and hf becomes 1 only for HF. |
| IsolatedElectrostaticVar.IsolatedElectrostatic.constructor | src/vars/IsolatedElectrostatic.h:82 | The scheme is empty. |
| IsolatedElectrostaticVar.IsolatedElectrostatic.Set | src/vars/IsolatedElectrostatic.h:50-70 | Status 0 iff the only argument is "mt", and then the field is "mt". Otherwise nothing changes. |
| SineFieldVar.SineField.constructor | src/vars/SineField.h:83-87 | The flag is off and the value is 1.0. |
| SineFieldVar.SineField.Set | src/vars/SineField.h:51-71 | Status 1 iff argc ≠ 2 or v < 0, and then nothing changes. Otherwise the flag is on and the value is v ≥ 0. |
| CalDipFreqVar.CalDipFreq.constructor | src/vars/CalDipFreq.h:75-77 | The frequency is -1. |
| CalDipFreqVar.CalDipFreq.Set | src/vars/CalDipFreq.h:51-63 | Status 1 iff argc ≠ 2, and then nothing changes. Otherwise the frequency is atoi(argv[1]), with no range check. |
| CalDipFreqVar.CalDipFreq.Print | src/vars/CalDipFreq.h:65-73 | The text starts with "caldipfreq:  ". |
| CalDipFreqVar.PrintReadsBack | src/vars/CalDipFreq.h:65-73 | The printed value reads back as the stored integer. |
| MlwfDistVar.MLWFDist.constructor | src/vars/MLWFDist.h:79-82 | The distance is 100000. |
| MlwfDistVar.MLWFDist.Set | src/vars/MLWFDist.h:47-67 | Status 1 iff argc ≠ 2 or v < 0, and then nothing changes. Otherwise the distance is v ≥ 0. |
| EfieldAmpVar.EfieldAmp.constructor | src/vars/EfieldAmp.h:66-68 | The amplitude is the zero vector. |
| EfieldAmpVar.EfieldAmp.Set | src/vars/EfieldAmp.h:41-54 | Status 1 iff argc ≠ 4, and then nothing changes. Otherwise the amplitude is the three parsed values. |
| PositionConstraints.Restored | src/qball/PositionConstraint.cc:70-72 | Only the atom's three entries change, and they take the reference position. |
| PositionConstraints.Stopped | src/qball/PositionConstraint.cc:88-90 | Only the atom's three velocity entries change, and they become 0. |
| PositionConstraints.RestoreIdempotent | src/qball/PositionConstraint.cc:58-75 | Restoring twice is restoring once. After a correction the displacement is zero, so it lies below any tolerance the zero vector meets. |
| PositionConstraints.PositionConstraint.constructor | src/qball/PositionConstraint.cc:109-123 | Records the atom name and tolerance, with force 0. This is inferred from the fields the methods and print read; the declaration is in PositionConstraint.h. |
| PositionConstraints.PositionConstraint.Setup | src/qball/PositionConstraint.cc:42-49 | The species and atom indices come from the name lookups, which must be non-negative. |
| PositionConstraints.PositionConstraint.Update | src/qball/PositionConstraint.cc:52-55 | Changes nothing. |
| PositionConstraints.PositionConstraint.EnforceR | src/qball/PositionConstraint.cc:58-75 | Returns true, with rp unchanged, iff \|r1p - r1\| < tol. Otherwise the atom is put back at its r0 position, the rest is unchanged, and the result is false. |
| PositionConstraints.PositionConstraint.EnforceV | src/qball/PositionConstraint.cc:78-94 | Returns true, with v unchanged, iff \|v1\| < tol. Otherwise the atom's velocity is zeroed, the rest is unchanged, and the result is false. |
| PositionConstraints.PositionConstraint.ComputeForce | src/qball/PositionConstraint.cc:97-106 | force = \|f1\|. |
| SpeciesCommand.CollectionDir | src/ui/SpeciesCmd.h:124-156 | Found iff the name is one of the 18 accepted spellings. Then the directory is share + "/pseudopotentials/" + the table's suffix. |
| SpeciesCommand.NamesAccepted | src/ui/SpeciesCmd.h:126-152 | The nine collection names are accepted and map to nine different directories. |
| SpeciesCommand.MixedCaseRejected | src/ui/SpeciesCmd.h:126-156 | Mixed-case spellings are rejected. |
| SpeciesCommand.HelpMsg | src/ui/SpeciesCmd.h:56-74 | The intended help text lists every collection name on its own line. |
| SpeciesCommand.HelpStopsBeforeCollections | src/ui/SpeciesCmd.h:56-74 | The help text as written is a proper prefix of the intended one. It ends before the collections are explained. |
| SpeciesCommand.DefinedUpTo | src/ui/SpeciesCmd.h:160-192 | A collection defines at most one species per element. |
| SpeciesCommand.DefinedFromFile | src/ui/SpeciesCmd.h:85-120 | The single-file form defines the species argv[1] iff the file reads, with an Ewald width iff argc = 4. |
| SpeciesCommand.SpeciesCmd.constructor | src/ui/SpeciesCmd.h:52 | ultrasoft and nlcc are false. |
| SpeciesCommand.SpeciesCmd.Note | src/ui/SpeciesCmd.h:103-110 | The flags become old ∨ the species' flags. |
| SpeciesCommand.SpeciesCmd.DefineCollection | src/ui/SpeciesCmd.h:160-192 | Every readable element is added under its symbol, in order. Each flag becomes true iff some readable element has it. |
| SpeciesCommand.SpeciesCmd.Action | src/ui/SpeciesCmd.h:76-197 | Status 1 iff argc ∉ {3,4} or the collection is unknown, and then nothing changes. Otherwise status 0, even when reads fail. The flags are only ever set. The single-file form ORs in the flags of the species it reads. The collection form ORs in those of every readable element. The added species are as specified per form. |
| BisectionCommand.CountRow | src/ui/BisectionCmd.h:136-141 | The count is the number of j < nst overlapping i, which is at most nst. |
| BisectionCommand.CountOverlaps | src/ui/BisectionCmd.h:130-146 | Each count lies in [0, nst], and the sum is the number of overlapping ordered pairs, at most nst². |
| BisectionCommand.Validate | src/ui/BisectionCmd.h:61-106 | The checks run in the order argc, threshold, k-points, levels, and the first failure is reported. On success the levels lie in [0,5] and the threshold is ≥ 0. |
| BisectionCommand.Action | src/ui/BisectionCmd.h:59-156 | Status 1 with no work iff a check fails. Otherwise one report per spin, each bisecting sd(0,0), with its overlap total. |
| BisectionCommand.SecondSpinSkipped | src/ui/BisectionCmd.h:109-111 | As written, with two spins, spin 1's determinant is never bisected. |
| BisectionCommand.ActionPerSpin | src/ui/BisectionCmd.h:109-146 | Corrected loop: spin k bisects sd(k,0). |
| BisectionCommand.EverySpinBisected | src/ui/BisectionCmd.h:109-146 | With the corrected loop, the determinants bisected are exactly sd(k,0) for k < nspin. |

## Left out

- MPI: `MPI_Isend`/`MPI_Irecv`/`MPI_Wait` are modelled only as ghost maps of pending transfers. The data movement of states and forces, `dsum` reductions and the load matrix are not modelled.
- Numerics: exp, sqrt, atan2, `length`, `atof`, `atoi` and the FFT-size test are parameters with no assumed properties. No claim is made about rounding, and doubles are exact reals.
- The pair loop's transforms and integrals: the Fourier transforms, dense algebra and the `ex_sum` integrals are inputs. The wave-function derivative updates (`dstatei`/`dstatej`) are not modelled.
- The stress tensor (`sigma_exhf_`) is not modelled. This includes two quirks: the off-diagonal pair branch at src/qball/TDExchangeOperator.cc:1385-1394 adds to it even when stress is not requested, and the row-0 divergence term also adds to its diagonal.
- The k-point exchange path (`compute_exchange_for_general_case_`, lines 345-941) is not part of this model. The occupations of 2.0 it hard-codes are modelled only for the Gamma path.
- Mlwf.ZSweep: only the z sweep of `TDMLWFTransform::update` is modelled on arrays. For the x and y sweeps, only their index bounds are proved (XLineInBounds, YLineInBounds). The gathering copies and the joint diagonalisation are not modelled, and the centres come from atan2, which is a parameter.
- Mlwf.TotalOverlaps: the source function is declared `double` but has no return statement. The model returns the count it prints.
- GaussFieldVar.GaussField.Set: requires a non-zero FWHM. With 0 the source divides by zero and stores an infinite width, which real arithmetic cannot express.
- XcVar.Xc.Set: requires at least one argument, because the source reads argv[1] before checking the count. The `LIBXC` build path is not modelled.
- SpeciesCommand.SpeciesCmd.Action: reading and broadcasting a pseudopotential is a parameter. `wf.set_ultrasoft` and the atom set itself are not modelled; the added species are returned instead.
- BisectionCommand.Action: the `Bisection` transform is a parameter (number of states and overlap relation per determinant). Printing, timing and the `oncoutpe` guard around the counting loop are left out. `bisection.forward(sd)` (src/ui/BisectionCmd.h:118) transforms sd in place, so as written the second spin bisects an already transformed sd(0,0). The model gives each determinant one fixed overlap relation and does not capture that change.
- LoadCmd: every file read is a logged event. The dump/fast/states readers, row/column distribution of densities and `new Wavefunction` allocations are not modelled.
- The `print` methods of the variables, except `caldipfreq`, are left out. They only format values.
- Divergence.ApplyToDerivative: its `!dwf` clause, and the `dwf` parameter of ExchangePermutation's ReceivePhase, SendPhase, PostStatesAndForces, PostOccupations, Drain, RotationStep and RunRotation, describe a path that the source as written never reaches. update_energy passes a null derivative (src/qball/TDExchangeOperator.cc:259), and the Gamma computation dereferences it at :1071 before its first `if (dwf)`. The path is reachable only under the corrected entry (GammaExchange.Entry). Also, the `delete tdmlwft` at :1630 follows the `return` at :1629 and never runs, so that object leaks. Memory is not modelled.
- Permutation.ExchangePermutation.constructor: the source never initialises the wait_* flags (src/qball/TDExchangeOperator.h:150-157) and first sets the state counts at src/qball/TDExchangeOperator.cc:1131. The model starts all of them at 0 so that Valid holds from construction. This is harmless in the source, because every Complete* call returns at step 0 before reading its flag (src/qball/TDExchangeOperator.cc:1717 and the like). RunRotation's Valid and Idle preconditions therefore describe the model's start state, not the source's uninitialised memory.
- PositionConstraints.PositionConstraint.constructor: src/qball/PositionConstraint.h is not part of this model. The constructor is inferred from the fields the methods use. Its initial force of 0 and indices of -1 are assumptions.
- Pairs: summing StepEnergy over the steps of a rotation is not restated on global indices. KeptSumIsFullSum gives the global weighted sum, and Ring.PairEvaluatedOnce gives which pair each step meets.
- Divergence: the per-row energy terms are added to exchange_sum on each process. Their later reduction across processes is not modelled.
- PositionConstraints.PositionConstraint.Setup: the atom-set name lookups are parameters. The source's asserts become a precondition.

## Findings

| source | as written | input that shows it | evidently intended | confidence | as-written member | corrected member |
|---|---|---|---|---|---|---|
| src/qball/TDExchangeOperator.cc:1896-1898 | The Taylor branch of vint returns alpha/g2 + fac·beta·(1 - x/2). | alpha=1, beta=0, mu=0.5, g2=1e-7: the branch gives 1e7 + 0 instead of 1e7 - (1 - 5e-8). | alpha/g2 - (alpha-beta)·fac·(1 - x/2), the second-order expansion of the screened formula. | not executed; medium | Kernel.TaylorBranchCounterexample | Kernel.TaylorBranchIsExpansion |
| src/qball/TDExchangeOperator.cc:1071-1073 | `SlaterDet& dsd = *(dwf->sd(ispin,0));` runs before `if (dwf)`, and update_energy (:259) passes dwf = 0. | update_energy(false) with gamma_only_ set: compute_exchange_at_gamma_ is called with dwf = 0 and dereferences it. | Bind dsd only under `if (dwf)`, so that an energy-only update computes the energy and leaves the derivative alone. | not executed; high | GammaExchange.EnergyOnlyCallDereferencesNull | GammaExchange.ComputeAtGamma |
| src/ui/LoadCmd.cc:112-696 | The dump branch is a separate `if`, and proj/full/proj2nd start new `if` statements. The final `else` therefore belongs to proj2nd/states-old only, and reports XML as deprecated for every other encoding. | `load -dump file` reads the dump and also reports "XML checkpointing is deprecated". | The error only when no branch handles the encoding. | not executed; high | LoadCmd.DumpLoadAsWritten | LoadCmd.Dispatch |
| src/ui/SpeciesCmd.h:58-73 | Each help line ends in `;`, so `return` yields only the literals of lines 59-62. | `help species` omits the list of collection names. | One string listing all nine collections. | not executed; high | SpeciesCommand.HelpStopsBeforeCollections | SpeciesCommand.HelpMsg |
| src/ui/BisectionCmd.h:109-111 | Every spin iteration bisects sd(0,0). | nspin=2: spin 1's determinant is never bisected, and spin 0's is bisected twice. | sd(ispin,0). | not executed; medium | BisectionCommand.SecondSpinSkipped | BisectionCommand.EverySpinBisected |
