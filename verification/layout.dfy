/** Row-major layout of an N×N matrix in a flat buffer: element (i, j) sits
    at offset i·N + j, so row i occupies offsets [i·N, i·N + N).

    The row base i·N is `RowBase(N, i)`, built the way the routine builds
    it: by adding N once per row. The row and column of an offset are
    `RowOf` and `ColOf`, the quotient and remainder of the offset by N,
    obtained by taking off whole rows. */
module RowMajor {
  import opened I32

  /** i·N: where row i starts in a buffer with N elements per row. */
  function RowBase(n: nat, i: nat): (r: nat)
  {
    if i == 0 then 0 else RowBase(n, i - 1) + n
  }

  /** The row offset p falls in: the number of whole rows of N below it
      (p / N for N > 0). */
  function RowOf(n: nat, p: nat): (r: nat)
    decreases p
  {
    if n == 0 || p < n then 0 else RowOf(n, p - n) + 1
  }

  /** The column of offset p: what is left after taking off whole rows
      (p % N for N > 0). */
  function ColOf(n: nat, p: nat): (r: nat)
    decreases p
  {
    if n == 0 || p < n then p else ColOf(n, p - n)
  }

  /** A flat buffer holding exactly the N² elements of an N×N matrix. */
  predicate IsMatrix<T>(m: seq<T>, n: nat) {
    |m| == RowBase(n, n)
  }

  /** The row base is the product i·N. */
  lemma {:induction false} RowBaseIsProduct(n: nat, i: nat)
    ensures RowBase(n, i) == i * n
  {
    if i > 0 {
      RowBaseIsProduct(n, i - 1);
      assert i * n == (i - 1) * n + n;
    }
  }

  /** Later rows start at higher offsets. */
  lemma {:induction false} RowBaseMonotone(n: nat, i: nat, i': nat)
    requires i <= i'
    ensures RowBase(n, i) <= RowBase(n, i')
    decreases i'
  {
    if i < i' {
      RowBaseMonotone(n, i, i' - 1);
    }
  }

  /** Every (row, column) pair of an N×N matrix maps to an offset inside
      the N² buffer. */
  lemma OffsetInBounds(n: nat, i: nat, j: nat)
    requires i < n && j < n
    ensures RowBase(n, i) + j < RowBase(n, n)
  {
    RowBaseMonotone(n, i + 1, n);
  }

  /** The offset of (i, j) determines i and j: taking off whole rows
      recovers the row and leaves the column. */
  lemma {:induction false} OffsetDecode(n: nat, i: nat, j: nat)
    requires j < n
    ensures RowOf(n, RowBase(n, i) + j) == i
    ensures ColOf(n, RowBase(n, i) + j) == j
    decreases i
  {
    if i > 0 {
      OffsetDecode(n, i - 1, j);
    }
  }

  /** Every offset below the first m rows is the offset of a pair
      (row, column) with row < m and column < N. */
  lemma {:induction false} OffsetEncode(n: nat, m: nat, p: nat)
    requires p < RowBase(n, m)
    ensures RowOf(n, p) < m && ColOf(n, p) < n
    ensures p == RowBase(n, RowOf(n, p)) + ColOf(n, p)
    decreases m
  {
    assert m > 0;
    if p < RowBase(n, m - 1) {
      OffsetEncode(n, m - 1, p);
    } else {
      OffsetDecode(n, m - 1, p - RowBase(n, m - 1));
    }
  }

  /** Element (i, j) of the N×N matrix stored in `m`. */
  function At(m: seq<int32>, n: nat, i: nat, j: nat): (r: int32)
    requires IsMatrix(m, n) && i < n && j < n
  {
    OffsetInBounds(n, i, j);
    m[RowBase(n, i) + j]
  }
}
