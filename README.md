# Workspace planning and dispatch for the divide-and-conquer tridiagonal eigensolver

This project models `magma_dstedc_withZ` from MAGMA's bulge-chasing helpers. MAGMA calls it to solve the
symmetric tridiagonal eigenproblem with LAPACK's divide-and-conquer routine DSTEDC. The function
does four things:

- It reads the mode character JOBZ. `'V'` means eigenvectors of the original matrix, `'I'`
  eigenvectors of the tridiagonal matrix, `'N'` eigenvalues only.
- It sizes two scratch buffers from the mode and the order N: LWORK reals and LIWORK integers. The
  `'V'` formulas contain the recursion-depth term L = floor(log2 N) + 1.
- It rejects any other character with a message and `exit(-1)`. This happens before anything is
  allocated.
- Otherwise it allocates both buffers, calls DSTEDC and prints a diagnostic when DSTEDC returns a
  nonzero INFO. It does not stop in that case. It then frees both buffers.

The project has three modules:

- `IntLog2` (`int_log2.dfy`): powers of two, floor(log2 N), which stands for the truncated
  floating-point `log2`, and ceil(log2 N), LAPACK's "lg N".
- `Planner` (`planner.dfy`): the mode datatype, the parsing of the mode character, and the sizing
  formulas as a pure function. Lemmas give the exact `'V'` formulas, the ordering between modes,
  growth in N, DSTEDC's documented minimum workspace and the 32-bit range of the lengths.
- `Dispatcher` (`dispatcher.dfy`): the call sequence as a method. The method returns the trace of
  its observable events: allocations, the solver call, messages, exit and frees. A small automaton
  (`Step`/`Run`) states the rules of buffer use, and a lemma proves that every trace keeps them.
  DSTEDC itself is foreign code. It is passed in as a function from its arguments to the new
  contents of D, E and Z and its INFO.

The code returns no status (`void`). A nonzero INFO is only printed, so the model returns no status
either. INFO is visible only in the `Report` event.

## Model

| member | source | states |
|---|---|---|
| `IntLog2.FloorLog2` | src/dbulge_aux.cpp:32-33 | the integer that stands for `(magma_int_t)log2(N)` is the exponent k with 2^k <= N < 2^(k+1), for N >= 1 |
| `IntLog2.FloorLog2Unique` | src/dbulge_aux.cpp:32-33 | any exponent whose powers of two bracket N is FloorLog2(N), so the depth term is determined by N alone |
| `IntLog2.FloorLog2Monotone` | src/dbulge_aux.cpp:32-33 | the depth term never decreases as N grows |
| `IntLog2.CeilLog2` | src/dbulge_aux.cpp:48 | LAPACK's lg N, used in DSTEDC's documented minimum: N <= 2^k and 2^(k-1) < N |
| `IntLog2.CeilLog2FromFloor` | src/dbulge_aux.cpp:31-33 | ceil(log2 N) equals floor(log2 N) on powers of two and floor(log2 N) + 1 otherwise, so L = floor(log2 N) + 1 >= lg N |
| `Planner.ParseJobz` | src/dbulge_aux.cpp:31-43 | a character is accepted exactly when it is 'V', 'I' or 'N', so lower case is rejected, and an accepted character maps to the mode it names |
| `Planner.Workspace` | src/dbulge_aux.cpp:31-39 | both lengths can be allocated (LWORK >= 1, LIWORK >= 0), and for N >= 1 LWORK > 256N and LIWORK >= 256N |
| `Planner.VectorsLengths` | src/dbulge_aux.cpp:31-33 | for 'V', with k the exponent where 2^k <= N < 2^(k+1): LWORK = 1 + 3N + 3N(k+1) + 4N^2 + 256N and LIWORK = 6 + 6N + 6N(k+1) + 256N |
| `Planner.OrderFourLengths` | src/dbulge_aux.cpp:31-39 | for N = 4: 'V' gives 1137/1126, 'I' gives 1057/1024 and 'N' gives 1025/1024 |
| `Planner.ModesOrdered` | src/dbulge_aux.cpp:31-39 | for N >= 1: LWORK('V') > LWORK('I') > LWORK('N') and LIWORK('V') > LIWORK('I') = LIWORK('N') |
| `Planner.StrictlyIncreasingInOrder` | src/dbulge_aux.cpp:31-39 | in each mode, both LWORK and LIWORK are strictly increasing in N |
| `Planner.LapackMinimum` | src/dbulge_aux.cpp:48 | DSTEDC's documented minimum lengths, each at least 1: for N > 1, 'V' needs 1+3N+2N lg N+4N^2 and 6+6N+5N lg N, 'I' needs 1+4N+N^2 and 3+5N; otherwise both are 1 |
| `Planner.MeetsLapackMinimum` | src/dbulge_aux.cpp:31-48 | for every mode and N >= 1, the lengths passed at the solver call are at least DSTEDC's documented minimum |
| `Planner.EmptyProblemBelowLapackMinimum` | src/dbulge_aux.cpp:34-39 | for N = 0, the 'I' and 'N' plans give LIWORK = 0, below DSTEDC's documented minimum of 1 |
| `Planner.FitsInInt32` | src/dbulge_aux.cpp:27-39 | for 1 <= N <= 23132, every length in every mode fits in a signed 32-bit `magma_int_t` |
| `Planner.Int32OverflowAboveMaximum` | src/dbulge_aux.cpp:32 | for N = 23133, the 'V' LWORK exceeds 2^31 - 1, so 23132 is the largest order that fits |
| `Dispatcher.TraceKeepsBufferRules` | src/dbulge_aux.cpp:40-59 | every call keeps the buffer rules: each buffer is allocated once, before the solver call, with the length the solver is told, and freed once after it. An accepted mode ends holding no buffer and not exited. A rejected mode ends exited and never allocated |
| `Dispatcher.RejectedModeTouchesNothing` | src/dbulge_aux.cpp:40-46 | a rejected character yields only its message and exit(-1): no allocation and no solver call |
| `Dispatcher.AcceptedModeReportsInfo` | src/dbulge_aux.cpp:45-55 | on an accepted mode the solver is called exactly once, with the planned lengths. The diagnostic appears exactly when INFO != 0 and carries INFO. The process does not exit |
| `Dispatcher.RunAppend` | src/dbulge_aux.cpp:45-59 | replaying a trace in two parts gives the same result as replaying it whole |
| `Dispatcher.Dstedc` | src/dbulge_aux.cpp:48 | the solver call: D, E and Z become what the solver returns for their old contents, LDZ and the two buffer lengths, and INFO is its status |
| `Dispatcher.StedcWithZ` | src/dbulge_aux.cpp:24-60 | a rejected mode leaves D, E and Z unchanged and its trace is message then exit. An accepted mode gives D, E and Z the solver's results for exactly the planned lengths, and its trace is the allocate, call, report-if-nonzero, free sequence |

## Left out

- `testing/testing_zgebrd.cpp` is not modelled. It is a test driver: GPU initialisation, host and
  device allocation, timing, a floating-point FLOP count and printing. Its residual checks are
  floating-point computations done inside foreign LAPACK routines.
- DSTEDC's internals are not modelled, and neither is the correctness of the eigenvalues. The solver
  is a function parameter. The only thing assumed about it is that the contents it returns for
  D, E and Z keep their lengths. What it writes into the scratch buffers is not modelled either,
  because nothing reads them before they are freed.
- `FloorLog2` stands for the floating-point `log2` followed by truncation. The two agree for every N
  that fits in a 32-bit or 64-bit integer below about 2^50. Rounding effects of a particular `log2`
  implementation are not modelled.
- Fixed-width arithmetic is not modelled: the lengths use unbounded integers. `FitsInInt32` gives
  the exact order up to which no 32-bit overflow happens. The byte-count multiplication in `malloc`
  and a failed `malloc` are not modelled. The code does not check for a failed `malloc` either.
- `Planner.Workspace` and `Dispatcher.StedcWithZ` require N >= 0, and N >= 1 for 'V'. With N = 0
  the 'V' formulas take `log2(0)`, which is minus infinity, and its cast to an integer is undefined.
  Negative N would ask `malloc` for a negative size.
- `printf` and `exit(-1)` are recorded as events in the returned trace. After the `Exit` event the
  model returns to its caller instead of ending a process. The unused `NxN` at line 29 is left out.
- `Dispatcher.Dstedc` and `Dispatcher.StedcWithZ` require D, E and Z to be distinct arrays. Fortran
  forbids passing aliased arguments that the routine writes.
- MeetsLapackMinimum: stated for N >= 1 only. At N = 0 the 'I' and 'N' modes give LIWORK = 0. That
  is below DSTEDC's documented minimum of 1, as `EmptyProblemBelowLapackMinimum` shows.
