/** Workspace planning for LAPACK's divide-and-conquer tridiagonal eigensolver
    DSTEDC, as done by `magma_dstedc_withZ`.

    The mode character JOBZ chooses what the solver computes: 'V' eigenvectors
    of the original matrix (Z holds the reducing transform on entry), 'I'
    eigenvectors of the tridiagonal matrix itself (Z starts as the identity),
    'N' eigenvalues only.  From the mode and the order N the planner derives
    the length of the real scratch buffer (LWORK) and of the integer scratch
    buffer (LIWORK). */
module Planner {
  import opened IntLog2

  datatype Option<T> = None | Some(value: T)

  /** The three recognised modes. */
  datatype Jobz = V | I | N

  /** The pair of scratch lengths passed to the solver. */
  datatype Lengths = Lengths(lwork: int, liwork: int)

  /** The character that selects a mode. */
  function JobzChar(j: Jobz): char
  {
    match j
    case V => 'V'
    case I => 'I'
    case N => 'N'
  }

  /** Mode recognition: exactly the upper-case characters 'V', 'I' and 'N' are
      modes; every other character, lower-case ones included, is rejected. */
  function ParseJobz(c: char): (r: Option<Jobz>)
    ensures r.Some? <==> (c == 'V' || c == 'I' || c == 'N')
    ensures r.Some? ==> JobzChar(r.value) == c
  {
    if c == 'V' then Some(V)
    else if c == 'I' then Some(I)
    else if c == 'N' then Some(N)
    else None
  }

  /** Parsing undoes JobzChar. */
  lemma ParseJobzChar(j: Jobz)
    ensures ParseJobz(JobzChar(j)) == Some(j)
  {
  }

  /** The orders for which a mode's formulas are defined: the 'V' formulas take
      log2(N), so they need N >= 1; the others need only N >= 0. */
  predicate ValidOrder(j: Jobz, n: int)
  {
    n >= 0 && (j.V? ==> n >= 1)
  }

  /** The scratch lengths for mode j and order n.  Both buffers can always be
      allocated (no negative length), and from N = 1 on both hold at least
      256 entries per row of the problem. */
  function Workspace(j: Jobz, n: int): (w: Lengths)
    requires ValidOrder(j, n)
    ensures w.lwork >= 1 && w.liwork >= 0
    ensures n >= 1 ==> w.lwork > 256 * n && w.liwork >= 256 * n
  {
    match j
    case V =>
      var depth := FloorLog2(n) + 1;
      Regroup(n, depth);
      MulAtLeast(n, depth);
      MulAtLeast(n, n);
      Lengths(1 + 3 * n + 3 * n * depth + 4 * n * n + 256 * n,
              6 + 6 * n + 6 * n * depth + 256 * n)
    case I =>
      MulMonotone(0, 0, n, n);
      assert 2 * n * n == 2 * (n * n);
      Lengths(2 * n * n + 256 * n + 1, 256 * n)
    case N => Lengths(256 * n + 1, 256 * n)
  }

  /** The 'V' lengths in terms of the recursion depth L = floor(log2 N) + 1,
      where floor(log2 N) is characterised as the exponent k with
      2^k <= N < 2^(k+1). */
  lemma VectorsLengths(n: int, k: nat)
    requires Pow2(k) <= n < Pow2(k + 1)
    ensures Workspace(V, n) ==
      Lengths(1 + 3 * n + 3 * n * (k + 1) + 4 * n * n + 256 * n,
              6 + 6 * n + 6 * n * (k + 1) + 256 * n)
  {
    FloorLog2Unique(n, k);
  }

  /** Worked values for N = 4, where L = 3. */
  lemma OrderFourLengths()
    ensures Workspace(V, 4) == Lengths(1137, 1126)
    ensures Workspace(I, 4) == Lengths(1057, 1024)
    ensures Workspace(N, 4) == Lengths(1025, 1024)
  {
    VectorsLengths(4, 2);
  }

  /** The 'V' lengths regrouped around the two products n * L and n * n, so
      that the lemmas below reason about them as single terms. */
  lemma VectorsRegrouped(n: int)
    requires n >= 1
    ensures var nl, nn := n * (FloorLog2(n) + 1), n * n;
      Workspace(V, n) == Lengths(1 + 259 * n + 3 * nl + 4 * nn, 6 + 262 * n + 6 * nl)
  {
    var depth := FloorLog2(n) + 1;
    Regroup(n, depth);
  }

  /** Helper: the arithmetic behind VectorsRegrouped and VectorsMeetMinimum. */
  lemma Regroup(n: int, l: int)
    ensures 1 + 3 * n + 3 * n * l + 4 * n * n + 256 * n == 1 + 259 * n + 3 * (n * l) + 4 * (n * n)
    ensures 6 + 6 * n + 6 * n * l + 256 * n == 6 + 262 * n + 6 * (n * l)
    ensures 2 * n * l == 2 * (n * l) && 5 * n * l == 5 * (n * l) && 4 * n * n == 4 * (n * n)
  {
  }

  /** The 'I' real length regrouped around n * n. */
  lemma IdentityRegrouped(n: int)
    requires n >= 0
    ensures Workspace(I, n) == Lengths(2 * (n * n) + 256 * n + 1, 256 * n)
  {
    assert 2 * n * n == 2 * (n * n);
  }

  /** For every N >= 1 the modes are ordered: 'V' needs more real scratch than
      'I', which needs more than 'N'; 'V' needs more integer scratch than 'I'
      and 'N', which need the same. */
  lemma ModesOrdered(n: int)
    requires n >= 1
    ensures Workspace(V, n).lwork > Workspace(I, n).lwork > Workspace(N, n).lwork
    ensures Workspace(V, n).liwork > Workspace(I, n).liwork == Workspace(N, n).liwork
  {
    VectorsRegrouped(n);
    IdentityRegrouped(n);
    MulAtLeast(n, FloorLog2(n) + 1);
    MulAtLeast(n, n);
  }

  /** Helper: a factor of at least 1 does not shrink a non-negative value. */
  lemma MulAtLeast(a: int, b: int)
    requires a >= 0 && b >= 1
    ensures a * b >= a
  {
  }

  /** Helper: products of non-negative values grow with both factors, and
      strictly with the first when the second is positive. */
  lemma MulMonotone(a: int, b: int, c: int, d: int)
    requires 0 <= a <= c && 0 <= b <= d
    ensures a * b <= c * d
    ensures a < c && b >= 1 ==> a * b < c * d
  {
    assert a * b <= c * b;
    assert c * b <= c * d;
    if a < c && b >= 1 {
      assert a * b < c * b;
    }
  }

  /** Within a fixed mode, both lengths grow strictly with N. */
  lemma StrictlyIncreasingInOrder(j: Jobz, m: int, n: int)
    requires ValidOrder(j, m) && m < n
    ensures Workspace(j, m).lwork < Workspace(j, n).lwork
    ensures Workspace(j, m).liwork < Workspace(j, n).liwork
  {
    match j
    case V => VectorsIncreasing(m, n);
    case I => IdentityIncreasing(m, n);
    case N =>
  }

  /** The 'V' case of StrictlyIncreasingInOrder. */
  lemma VectorsIncreasing(m: int, n: int)
    requires 1 <= m < n
    ensures Workspace(V, m).lwork < Workspace(V, n).lwork
    ensures Workspace(V, m).liwork < Workspace(V, n).liwork
  {
    VectorsRegrouped(m);
    VectorsRegrouped(n);
    FloorLog2Monotone(m, n);
    var lm, ln := FloorLog2(m) + 1, FloorLog2(n) + 1;
    MulMonotone(m, lm, n, ln);
    MulMonotone(m, m, n, n);
  }

  /** The 'I' case of StrictlyIncreasingInOrder. */
  lemma IdentityIncreasing(m: int, n: int)
    requires 0 <= m < n
    ensures Workspace(I, m).lwork < Workspace(I, n).lwork
    ensures Workspace(I, m).liwork < Workspace(I, n).liwork
  {
    IdentityRegrouped(m);
    IdentityRegrouped(n);
    MulMonotone(m, m, n, n);
  }

  /** The minimum workspace that LAPACK's DSTEDC documents for COMPZ = j and
      order n, with lg N = ceil(log2 N).  A smaller LWORK makes the routine
      fail with INFO = -8, a smaller LIWORK with INFO = -10. */
  function LapackMinimum(j: Jobz, n: int): (w: Lengths)
    requires n >= 0
    ensures w.lwork >= 1 && w.liwork >= 1
  {
    if j.N? || n <= 1 then Lengths(1, 1)
    else if j.V? then
      var lg := CeilLog2(n);
      Regroup(n, lg);
      MulMonotone(0, 0, n, lg);
      MulMonotone(0, 0, n, n);
      Lengths(1 + 3 * n + 2 * n * lg + 4 * n * n, 6 + 6 * n + 5 * n * lg)
    else
      MulMonotone(0, 0, n, n);
      Lengths(1 + 4 * n + n * n, 3 + 5 * n)
  }

  /** For every N >= 1 the planned lengths meet DSTEDC's documented minimum,
      which the solver call relies on. */
  lemma MeetsLapackMinimum(j: Jobz, n: int)
    requires n >= 1
    ensures Workspace(j, n).lwork >= LapackMinimum(j, n).lwork
    ensures Workspace(j, n).liwork >= LapackMinimum(j, n).liwork
  {
    if n > 1 {
      match j
      case V => VectorsMeetMinimum(n);
      case I => IdentityMeetsMinimum(n);
      case N =>
    }
  }

  /** The 'V' case of MeetsLapackMinimum: 3 N L covers 2 N lg N and 6 N L
      covers 5 N lg N because L = floor(log2 N) + 1 >= ceil(log2 N). */
  lemma VectorsMeetMinimum(n: int)
    requires n > 1
    ensures Workspace(V, n).lwork >= LapackMinimum(V, n).lwork
    ensures Workspace(V, n).liwork >= LapackMinimum(V, n).liwork
  {
    var lg, depth := CeilLog2(n), FloorLog2(n) + 1;
    VectorsRegrouped(n);
    CeilLog2FromFloor(n);
    MulMonotone(n, lg, n, depth);
    assert LapackMinimum(V, n) == Lengths(1 + 3 * n + 2 * (n * lg) + 4 * (n * n), 6 + 6 * n + 5 * (n * lg)) by {
      Regroup(n, lg);
    }
  }

  /** The 'I' case of MeetsLapackMinimum. */
  lemma IdentityMeetsMinimum(n: int)
    requires n > 1
    ensures Workspace(I, n).lwork >= LapackMinimum(I, n).lwork
    ensures Workspace(I, n).liwork >= LapackMinimum(I, n).liwork
  {
    IdentityRegrouped(n);
    MulAtLeast(n, n);
  }

  /** For the empty problem (N = 0) the 'I' and 'N' plans give LIWORK = 0,
      below DSTEDC's documented minimum of 1. */
  lemma EmptyProblemBelowLapackMinimum(j: Jobz)
    requires !j.V?
    ensures Workspace(j, 0).liwork == 0 < LapackMinimum(j, 0).liwork
  {
  }

  /** The largest order whose lengths all fit in a signed 32-bit magma_int_t. */
  const MaxInt32Order: int := 23132

  /** Up to MaxInt32Order, every length (and so every partial sum of its
      formula) fits in a signed 32-bit integer, whatever the mode. */
  lemma FitsInInt32(j: Jobz, n: int)
    requires 1 <= n <= MaxInt32Order
    ensures Workspace(j, n).lwork <= 0x7fff_ffff
    ensures Workspace(j, n).liwork <= 0x7fff_ffff
  {
    match j
    case V => VectorsFitInInt32(n);
    case I =>
      IdentityRegrouped(n);
      MulMonotone(n, n, MaxInt32Order, MaxInt32Order);
    case N =>
  }

  /** The 'V' case of FitsInInt32: up to MaxInt32Order, L is at most 15. */
  lemma VectorsFitInInt32(n: int)
    requires 1 <= n <= MaxInt32Order
    ensures Workspace(V, n).lwork <= 0x7fff_ffff
    ensures Workspace(V, n).liwork <= 0x7fff_ffff
  {
    VectorsRegrouped(n);
    var depth := FloorLog2(n) + 1;
    FloorLog2Monotone(n, MaxInt32Order);
    MaxOrderDepth();
    MulMonotone(n, depth, MaxInt32Order, 15);
    MulMonotone(n, n, MaxInt32Order, MaxInt32Order);
    assert n * depth <= 346980;
    assert n * n <= 535089424;
  }

  /** Helper: floor(log2 23132) = 14. */
  lemma MaxOrderDepth()
    ensures FloorLog2(MaxInt32Order) == 14
  {
    assert Pow2(14) == 16384 && Pow2(15) == 32768;
    FloorLog2Unique(MaxInt32Order, 14);
  }

  /** One past MaxInt32Order, the 'V' real length no longer fits in 32 bits. */
  lemma Int32OverflowAboveMaximum()
    ensures Workspace(V, MaxInt32Order + 1).lwork > 0x7fff_ffff
  {
    assert Pow2(14) == 16384 && Pow2(15) == 32768;
    VectorsLengths(MaxInt32Order + 1, 14);
  }
}
