/** The fixed 5x5 Gaussian smoothing kernel for sigma = 1.0. Every weight is an
    integer numerator over the common denominator 273; the model keeps the weights
    exact instead of rounding them to `float`. */
module Kernel {

  /** GAUSSIAN_KERNEL_SIZE: the kernel is `Size` by `Size`. */
  const Size: int := 5
  /** The kernel radius, `Size / 2` in integer division: offsets run over
      `[-Radius, Radius]`. */
  const Radius: int := 2
  /** The common denominator of all weights. */
  const Denominator: int := 273

  /** The numerators, row by row; row `i + Radius`, column `j + Radius` holds the
      weight of the neighbour at row offset `i` and column offset `j`. */
  const Numerators: seq<seq<int>> := [
    [1,  4,  7,  4, 1],
    [4, 16, 26, 16, 4],
    [7, 26, 41, 26, 7],
    [4, 16, 26, 16, 4],
    [1,  4,  7,  4, 1]
  ]

  /** `(i, j)` is an offset covered by the kernel. */
  predicate InWindow(i: int, j: int)
  {
    -Radius <= i <= Radius && -Radius <= j <= Radius
  }

  /** The numerator of the weight at row offset `i`, column offset `j`: positive,
      and largest at the centre. */
  function Numerator(i: int, j: int): (n: int)
    requires InWindow(i, j)
    ensures 1 <= n <= 41
  {
    assert i == -2 || i == -1 || i == 0 || i == 1 || i == 2;
    assert j == -2 || j == -1 || j == 0 || j == 1 || j == 2;
    Numerators[i + Radius][j + Radius]
  }

  /** The weight `Numerator(i, j) / 273` as an exact real. */
  function Weight(i: int, j: int): (w: real)
    requires InWindow(i, j)
    ensures 0.0 < w < 1.0
  {
    Numerator(i, j) as real / Denominator as real
  }

  /** Sum of the numerators in row offset `i` over the first `n` column offsets
      `-Radius .. -Radius + n - 1`. */
  function RowNumeratorSum(i: int, n: nat): (s: int)
    requires -Radius <= i <= Radius && n <= Size
  {
    if n == 0 then 0 else RowNumeratorSum(i, n - 1) + Numerator(i, n - 1 - Radius)
  }

  /** Sum of the numerators over the first `m` row offsets, each row taken whole. */
  function NumeratorSum(m: nat): (s: int)
    requires m <= Size
  {
    if m == 0 then 0 else NumeratorSum(m - 1) + RowNumeratorSum(m - 1 - Radius, Size)
  }

  /** The 25 numerators add up to the denominator, so the weights add up to 1. */
  lemma NumeratorsSumToDenominator()
    ensures NumeratorSum(Size) == Denominator
  {
    assert RowNumeratorSum(-2, Size) == 17;
    assert RowNumeratorSum(-1, Size) == 66;
    assert RowNumeratorSum(0, Size) == 107;
    assert RowNumeratorSum(1, Size) == 66;
    assert RowNumeratorSum(2, Size) == 17;
  }

  /** The kernel is symmetric under transposition and under reversal of its rows
      and of its columns. */
  lemma KernelSymmetric(i: int, j: int)
    requires InWindow(i, j)
    ensures InWindow(j, i) && Numerator(i, j) == Numerator(j, i)
    ensures InWindow(-i, j) && Numerator(i, j) == Numerator(-i, j)
    ensures InWindow(i, -j) && Numerator(i, j) == Numerator(i, -j)
  {
    assert i == -2 || i == -1 || i == 0 || i == 1 || i == 2;
    assert j == -2 || j == -1 || j == 0 || j == 1 || j == 2;
  }

  /** The weights decay away from the centre: moving an offset closer to the
      centre on either axis never lowers its weight. */
  lemma KernelDecays(i: int, j: int, i2: int, j2: int)
    requires InWindow(i, j) && InWindow(i2, j2)
    requires (if i < 0 then -i else i) <= (if i2 < 0 then -i2 else i2)
    requires (if j < 0 then -j else j) <= (if j2 < 0 then -j2 else j2)
    ensures Numerator(i2, j2) <= Numerator(i, j)
  {
    assert i == -2 || i == -1 || i == 0 || i == 1 || i == 2;
    assert j == -2 || j == -1 || j == 0 || j == 1 || j == 2;
    assert i2 == -2 || i2 == -1 || i2 == 0 || i2 == 1 || i2 == 2;
    assert j2 == -2 || j2 == -1 || j2 == 0 || j2 == 1 || j2 == 2;
  }
}
