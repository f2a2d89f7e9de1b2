/** Integer base-2 logarithms.

    The dispatcher computes its recursion-depth term with the C expression
    `(magma_int_t)log2(N)`: a floating-point logarithm truncated to an integer.
    For N >= 1 that is the floor of the exact logarithm, which this module
    defines by the powers of two that bracket N.  LAPACK documents its own
    minimum workspace with the ceiling instead, so both are here, together
    with the relation between them. */
module IntLog2 {

  /** 2 raised to the power k. */
  function Pow2(k: nat): (p: nat)
    ensures p >= 1
  {
    if k == 0 then 1 else 2 * Pow2(k - 1)
  }

  /** Powers of two grow strictly with the exponent. */
  lemma {:induction false} Pow2StrictlyIncreasing(i: nat, j: nat)
    requires i < j
    ensures Pow2(i) < Pow2(j)
  {
    if j > i + 1 {
      Pow2StrictlyIncreasing(i, j - 1);
    }
  }

  /** floor(log2 n): the exponent of the largest power of two that is at most n. */
  function FloorLog2(n: int): (k: nat)
    requires n >= 1
    ensures Pow2(k) <= n < Pow2(k + 1)
  {
    if n == 1 then 0 else 1 + FloorLog2(n / 2)
  }

  /** ceil(log2 n): the exponent of the smallest power of two that is at least n
      (LAPACK's "lg N"). */
  function CeilLog2(n: int): (k: nat)
    requires n >= 1
    ensures n <= Pow2(k)
    ensures k > 0 ==> Pow2(k - 1) < n
  {
    if n == 1 then 0 else 1 + CeilLog2((n + 1) / 2)
  }

  /** The bracketing of FloorLog2 determines it: any exponent k whose powers
      bracket n is FloorLog2(n). */
  lemma FloorLog2Unique(n: int, k: nat)
    requires Pow2(k) <= n < Pow2(k + 1)
    ensures FloorLog2(n) == k
  {
    var f := FloorLog2(n);
    if f < k {
      if f + 1 < k {
        Pow2StrictlyIncreasing(f + 1, k);
      }
      assert false;
    } else if k < f {
      if k + 1 < f {
        Pow2StrictlyIncreasing(k + 1, f);
      }
      assert false;
    }
  }

  /** floor(log2 n) never decreases as n grows. */
  lemma FloorLog2Monotone(m: int, n: int)
    requires 1 <= m <= n
    ensures FloorLog2(m) <= FloorLog2(n)
  {
    var fm, fn := FloorLog2(m), FloorLog2(n);
    if fn < fm {
      if fn + 1 < fm {
        Pow2StrictlyIncreasing(fn + 1, fm);
      }
      assert false;
    }
  }

  /** The ceiling equals the floor on exact powers of two and exceeds it by one
      everywhere else; in particular floor(log2 n) + 1 >= ceil(log2 n). */
  lemma CeilLog2FromFloor(n: int)
    requires n >= 1
    ensures CeilLog2(n) == if Pow2(FloorLog2(n)) == n then FloorLog2(n) else FloorLog2(n) + 1
    ensures CeilLog2(n) <= FloorLog2(n) + 1
  {
    var f, c := FloorLog2(n), CeilLog2(n);
    if c < f {
      Pow2StrictlyIncreasing(c, f);
      assert false;
    }
    if c > f + 1 {
      Pow2StrictlyIncreasing(f + 1, c - 1);
      assert false;
    }
    assert c == f || c == f + 1;
    if c == f + 1 {
      assert Pow2(f) < n;
    }
  }
}
