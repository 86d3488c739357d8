/** The mathematical contract of the GEMM kernel: C = A×B for N×N row-major
    matrices of 32-bit integers, each product and each partial sum wrapped
    to 32 bits in the order the kernel accumulates them. */
module MatMul {
  import opened I32
  import opened RowMajor

  /** The same sum over unbounded integers, with no wrapping at all. */
  function ExactDot(a: seq<int32>, b: seq<int32>, n: nat, i: nat, j: nat, k: nat): (r: int)
    requires IsMatrix(a, n) && IsMatrix(b, n) && i < n && j < n && k <= n
    decreases k
  {
    if k == 0 then 0
    else ExactDot(a, b, n, i, j, k - 1) + At(a, n, i, k - 1) * At(b, n, k - 1, j)
  }

  /** The kernel's accumulator after the first `k` steps for output (i, j):
      Σ_{t<k} A[i,t]·B[t,j], each multiply and each add in 32-bit
      wrap-around arithmetic, starting from 0 and adding t = 0, 1, …, k-1. */
  function Dot(a: seq<int32>, b: seq<int32>, n: nat, i: nat, j: nat, k: nat): (r: int32)
    requires IsMatrix(a, n) && IsMatrix(b, n) && i < n && j < n && k <= n
    decreases k
  {
    if k == 0 then 0
    else Add(Dot(a, b, n, i, j, k - 1), Mul(At(a, n, i, k - 1), At(b, n, k - 1, j)))
  }

  /** Wrapping every step gives the exact dot product reduced modulo 2^32
      once: the 32-bit running sum loses nothing but the high-order bits. */
  lemma {:induction false} DotWrapsExact(a: seq<int32>, b: seq<int32>, n: nat, i: nat, j: nat, k: nat)
    requires IsMatrix(a, n) && IsMatrix(b, n) && i < n && j < n && k <= n
    ensures Dot(a, b, n, i, j, k) == Wrap(ExactDot(a, b, n, i, j, k))
    decreases k
  {
    if k == 0 {
      WrapIdentity(0);
    } else {
      DotWrapsExact(a, b, n, i, j, k - 1);
      AddWrapsExact(ExactDot(a, b, n, i, j, k - 1), At(a, n, i, k - 1) * At(b, n, k - 1, j));
      WrapIdentity(Dot(a, b, n, i, j, k - 1));
    }
  }

  /** Output (i, j) reads only row i of A and column j of B: the
      accumulator starts from 0 for each pair and no earlier output feeds in. */
  lemma {:induction false} DotReadsRowAndColumn(a: seq<int32>, a': seq<int32>, b: seq<int32>, b': seq<int32>,
                                                n: nat, i: nat, j: nat, k: nat)
    requires IsMatrix(a, n) && IsMatrix(a', n) && IsMatrix(b, n) && IsMatrix(b', n)
    requires i < n && j < n && k <= n
    requires forall t: nat :: t < n ==> At(a, n, i, t) == At(a', n, i, t)
    requires forall t: nat :: t < n ==> At(b, n, t, j) == At(b', n, t, j)
    ensures Dot(a, b, n, i, j, k) == Dot(a', b', n, i, j, k)
    decreases k
  {
    if k > 0 {
      DotReadsRowAndColumn(a, a', b, b', n, i, j, k - 1);
      assert At(a, n, i, k - 1) == At(a', n, i, k - 1);
      assert At(b, n, k - 1, j) == At(b', n, k - 1, j);
    }
  }

  /** The value the kernel stores at flat offset p of C. */
  function Entry(a: seq<int32>, b: seq<int32>, n: nat, p: nat): (r: int32)
    requires IsMatrix(a, n) && IsMatrix(b, n) && p < RowBase(n, n)
  {
    OffsetEncode(n, n, p);
    Dot(a, b, n, RowOf(n, p), ColOf(n, p), n)
  }

  /** The entry at the offset of (i, j) is the full dot product for (i, j). */
  lemma EntryAt(a: seq<int32>, b: seq<int32>, n: nat, i: nat, j: nat)
    requires IsMatrix(a, n) && IsMatrix(b, n) && i < n && j < n
    ensures RowBase(n, i) + j < RowBase(n, n) && Entry(a, b, n, RowBase(n, i) + j) == Dot(a, b, n, i, j, n)
  {
    OffsetInBounds(n, i, j);
    OffsetDecode(n, i, j);
  }

  /** C holds A×B: every element (i, j) is the wrapped dot product of row i
      of A and column j of B. */
  predicate IsProduct(c: seq<int32>, a: seq<int32>, b: seq<int32>, n: nat)
    requires IsMatrix(a, n) && IsMatrix(b, n)
  {
    && IsMatrix(c, n)
    && forall i: nat, j: nat :: i < n && j < n ==> At(c, n, i, j) == Dot(a, b, n, i, j, n)
  }

  /** A buffer holding `Entry` at every offset satisfies the element-wise
      statement of A×B. */
  lemma EntriesFormProduct(c: seq<int32>, a: seq<int32>, b: seq<int32>, n: nat)
    requires IsMatrix(a, n) && IsMatrix(b, n) && IsMatrix(c, n)
    requires forall p :: 0 <= p < RowBase(n, n) ==> c[p] == Entry(a, b, n, p)
    ensures IsProduct(c, a, b, n)
  {
    forall i: nat, j: nat | i < n && j < n
      ensures At(c, n, i, j) == Dot(a, b, n, i, j, n)
    {
      EntryAt(a, b, n, i, j);
    }
  }

  /** A×B as a row-major buffer. */
  function Product(a: seq<int32>, b: seq<int32>, n: nat): (c: seq<int32>)
    requires IsMatrix(a, n) && IsMatrix(b, n)
    ensures IsProduct(c, a, b, n)
  {
    var c := seq(RowBase(n, n), p requires 0 <= p < RowBase(n, n) => Entry(a, b, n, p));
    EntriesFormProduct(c, a, b, n);
    c
  }

  /** The element-wise statement pins the buffer down completely: any C
      satisfying it is `Product(a, b, n)`. */
  lemma ProductUnique(c: seq<int32>, a: seq<int32>, b: seq<int32>, n: nat)
    requires IsMatrix(a, n) && IsMatrix(b, n)
    requires IsProduct(c, a, b, n)
    ensures c == Product(a, b, n)
  {
    var d := Product(a, b, n);
    forall p | 0 <= p < RowBase(n, n)
      ensures c[p] == d[p]
    {
      OffsetEncode(n, n, p);
      var i, j := RowOf(n, p), ColOf(n, p);
      assert At(c, n, i, j) == Dot(a, b, n, i, j, n) == At(d, n, i, j);
    }
  }

  /** The closed form of A×B: C holds A×B exactly when every element (i, j)
      is the exact integer dot product of row i and column j reduced once
      to 32 bits. */
  lemma ProductClosedForm(c: seq<int32>, a: seq<int32>, b: seq<int32>, n: nat)
    requires IsMatrix(a, n) && IsMatrix(b, n) && IsMatrix(c, n)
    ensures IsProduct(c, a, b, n) <==>
      forall i: nat, j: nat :: i < n && j < n ==> At(c, n, i, j) == Wrap(ExactDot(a, b, n, i, j, n))
  {
    forall i: nat, j: nat | i < n && j < n
      ensures Dot(a, b, n, i, j, n) == Wrap(ExactDot(a, b, n, i, j, n))
    {
      DotWrapsExact(a, b, n, i, j, n);
    }
  }

  /** The N×N identity matrix. */
  function Identity(n: nat): (m: seq<int32>)
    ensures IsMatrix(m, n)
  {
    seq(RowBase(n, n), p requires 0 <= p < RowBase(n, n) => if RowOf(n, p) == ColOf(n, p) then 1 else 0)
  }

  /** The identity has ones exactly on the diagonal. */
  lemma IdentityAt(n: nat, i: nat, j: nat)
    requires i < n && j < n
    ensures At(Identity(n), n, i, j) == if i == j then 1 else 0
  {
    OffsetDecode(n, i, j);
    OffsetInBounds(n, i, j);
  }

  /** Partial sums against the identity: only step t = i contributes. */
  lemma {:induction false} IdentityDot(b: seq<int32>, n: nat, i: nat, j: nat, k: nat)
    requires IsMatrix(b, n) && i < n && j < n && k <= n
    ensures Dot(Identity(n), b, n, i, j, k) == if i < k then At(b, n, i, j) else 0
    decreases k
  {
    if k > 0 {
      IdentityDot(b, n, i, j, k - 1);
      IdentityAt(n, i, k - 1);
      var x := At(b, n, k - 1, j);
      assert Mul(1, x) == x && Mul(0, x) == 0 by {
        WrapIdentity(x);
        WrapIdentity(0);
      }
    }
  }

  /** I×B = B: wrapping never disturbs a product whose true value is an
      int32, so multiplying by the identity returns B unchanged. */
  lemma IdentityProduct(b: seq<int32>, n: nat)
    requires IsMatrix(b, n)
    ensures Product(Identity(n), b, n) == b
  {
    forall i: nat, j: nat | i < n && j < n
      ensures At(b, n, i, j) == Dot(Identity(n), b, n, i, j, n)
    {
      IdentityDot(b, n, i, j, n);
    }
    ProductUnique(b, Identity(n), b, n);
  }

  /** The worked 2×2 example: [1 2; 3 4] × [5 6; 7 8] = [19 22; 43 50]. */
  lemma KnownProduct()
    ensures Product([1, 2, 3, 4], [5, 6, 7, 8], 2) == [19, 22, 43, 50]
  {
    var a: seq<int32>, b: seq<int32>, c: seq<int32> := [1, 2, 3, 4], [5, 6, 7, 8], [19, 22, 43, 50];
    assert ExactDot(a, b, 2, 0, 0, 2) == 19;
    DotWrapsExact(a, b, 2, 0, 0, 2);
    assert ExactDot(a, b, 2, 0, 1, 2) == 22;
    DotWrapsExact(a, b, 2, 0, 1, 2);
    assert ExactDot(a, b, 2, 1, 0, 2) == 43;
    DotWrapsExact(a, b, 2, 1, 0, 2);
    assert ExactDot(a, b, 2, 1, 1, 2) == 50;
    DotWrapsExact(a, b, 2, 1, 1, 2);
    forall i: nat, j: nat | i < 2 && j < 2
      ensures At(c, 2, i, j) == Dot(a, b, 2, i, j, 2)
    {
      assert i == 0 || i == 1;
      assert j == 0 || j == 1;
    }
    ProductUnique(c, a, b, 2);
  }

  /** Overflow wraps silently: (2^31 - 1) × 2 stores -2, not a saturated
      value and not a trap. */
  lemma OverflowWraps()
    ensures Product([Max], [2], 1) == [-2]
  {
  }
}
