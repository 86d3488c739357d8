/** The two variants of the GEMM kernel: the x86-64 routine `GemmImpl`,
    which walks row bases and a strided column cursor, and the index-form
    i-j-k triple loop. Both take N and the three row-major buffers; A and B
    are read-only values here, and the buffer C is threaded through and
    returned. The ghost `stores` is a record of writes only, kept for the
    proofs: the offsets of C the kernel stores to, in order. The routine
    itself builds no such list.
    Each loop level of the source is one method: the k loop computes one
    dot product, the j loop fills one row of C, the i loop walks the rows. */
module Kernel {
  import opened I32
  import opened RowMajor
  import opened MatMul

  /** Exactly the offsets 0, 1, …, m-1 were stored to, once each, in
      increasing order: the i-j-k nest writes C row by row, left to right. */
  predicate StoresInOrder(stores: seq<nat>, m: nat) {
    |stores| == m && forall t :: 0 <= t < m ==> stores[t] == t
  }

  /** The first `done` offsets of `c` hold their final values and every
      later offset still holds what the caller passed in. */
  ghost predicate Progress(c: seq<int32>, c0: seq<int32>, prod: seq<int32>, done: nat)
    requires |c| == |c0| == |prod|
  {
    && done <= |c|
    && (forall p :: 0 <= p < done ==> c[p] == prod[p])
    && (forall p :: done <= p < |c| ==> c[p] == c0[p])
  }

  /** Storing the final value at the first offset not yet done extends
      the finished prefix by one and the store trace by that offset. */
  lemma StoreNext(c: seq<int32>, c0: seq<int32>, prod: seq<int32>, stores: seq<nat>, done: nat, v: int32)
    requires |c| == |c0| == |prod| && done < |c|
    requires Progress(c, c0, prod, done) && StoresInOrder(stores, done)
    requires prod[done] == v
    ensures |c[done := v]| == |c|
    ensures Progress(c[done := v], c0, prod, done + 1)
    ensures StoresInOrder(stores + [done], done + 1)
  {
  }

  /** The k loop of the index form: `sum` starts at 0 and accumulates
      a[i*N + k] * b[k*N + j] for k = 0 .. N-1 in 32-bit arithmetic
      (`At(m, N, r, c)` is the element m[r*N + c]). */
  method DotLoop(n: nat, a: seq<int32>, b: seq<int32>, i: nat, j: nat) returns (sum: int32)
    requires IsMatrix(a, n) && IsMatrix(b, n) && i < n && j < n
    ensures sum == Dot(a, b, n, i, j, n)
    ensures sum == Wrap(ExactDot(a, b, n, i, j, n))
  {
    sum := 0;
    var k := 0;
    while k < n
      invariant k <= n
      invariant sum == Dot(a, b, n, i, j, k)
    {
      sum := Add(sum, Mul(At(a, n, i, k), At(b, n, k, j)));
      k := k + 1;
    }
    DotWrapsExact(a, b, n, i, j, n);
  }

  /** The j loop of the index form for row i: store the dot product of
      row i of A and column j of B at c[i*N + j] for j = 0 .. N-1. */
  method RowLoop(n: nat, a: seq<int32>, b: seq<int32>, i: nat, c: seq<int32>, ghost stores: seq<nat>,
                 ghost c0: seq<int32>)
    returns (c': seq<int32>, ghost stores': seq<nat>)
    requires IsMatrix(a, n) && IsMatrix(b, n) && IsMatrix(c, n) && IsMatrix(c0, n) && i < n
    requires Progress(c, c0, Product(a, b, n), RowBase(n, i))
    requires StoresInOrder(stores, RowBase(n, i))
    ensures IsMatrix(c', n) && RowBase(n, i + 1) <= RowBase(n, n)
    ensures Progress(c', c0, Product(a, b, n), RowBase(n, i + 1))
    ensures StoresInOrder(stores', RowBase(n, i + 1))
  {
    ghost var prod := Product(a, b, n);
    OffsetInBounds(n, i, n - 1);
    c', stores' := c, stores;
    var j := 0;
    while j < n
      invariant j <= n
      invariant |c'| == RowBase(n, n)
      invariant Progress(c', c0, prod, RowBase(n, i) + j)
      invariant StoresInOrder(stores', RowBase(n, i) + j)
    {
      var sum := DotLoop(n, a, b, i, j);
      OffsetInBounds(n, i, j);
      assert prod[RowBase(n, i) + j] == At(prod, n, i, j) == sum;
      StoreNext(c', c0, prod, stores', RowBase(n, i) + j, sum);
      c' := c'[RowBase(n, i) + j := sum];
      stores' := stores' + [RowBase(n, i) + j];
      j := j + 1;
    }
  }

  /** Index-form kernel: rows i = 0 .. N-1 in order, each filled by the
      j loop. After row i, rows 0..i are final and the rest untouched. */
  method GemmLoops(n: nat, a: seq<int32>, b: seq<int32>, c0: seq<int32>)
    returns (c: seq<int32>, ghost stores: seq<nat>)
    requires IsMatrix(a, n) && IsMatrix(b, n) && IsMatrix(c0, n)
    ensures IsProduct(c, a, b, n)
    ensures c == Product(a, b, n)
    ensures StoresInOrder(stores, RowBase(n, n))
    ensures n == 0 ==> c == c0 && stores == []
  {
    ghost var prod := Product(a, b, n);
    c, stores := c0, [];
    var i := 0;
    while i < n
      invariant i <= n
      invariant |c| == RowBase(n, n)
      invariant Progress(c, c0, prod, RowBase(n, i))
      invariant StoresInOrder(stores, RowBase(n, i))
    {
      c, stores := RowLoop(n, a, b, i, c, stores, c0);
      i := i + 1;
    }
    assert c == prod;
  }

  /** The k loop of the routine: `curB` starts at column j of B and moves
      down one row (N elements) per step while k walks along the row of A
      that starts at offset `aRow`, the base of the ghost row `row`. The
      body runs before the exit test `k == N`, which is sound because
      row < N forces N > 0. */
  method ColumnWalk(n: nat, a: seq<int32>, b: seq<int32>, aRow: nat, j: nat, ghost row: nat) returns (sum: int32)
    requires IsMatrix(a, n) && IsMatrix(b, n) && row < n && j < n
    requires aRow == RowBase(n, row)
    ensures sum == Dot(a, b, n, row, j, n)
    ensures sum == Wrap(ExactDot(a, b, n, row, j, n))
  {
    sum := 0;
    var k := 0;
    var curB := j;
    while true
      invariant k < n
      invariant curB == RowBase(n, k) + j
      invariant sum == Dot(a, b, n, row, j, k)
      decreases n - k
    {
      OffsetInBounds(n, row, k);
      OffsetInBounds(n, k, j);
      var tmp := a[aRow + k];
      assert tmp == At(a, n, row, k) && b[curB] == At(b, n, k, j);
      tmp := Mul(tmp, b[curB]);
      sum := Add(sum, tmp);
      k := k + 1;
      curB := curB + n;
      if k == n {
        break;
      }
    }
    DotWrapsExact(a, b, n, row, j, n);
  }

  /** The j loop of the routine for one row: A's row base `aRow` and C's
      row base `cRow` are the same offset; the sum for column j is stored
      at cRow + j, and the loop exits when j reaches N. */
  method RowWalk(n: nat, a: seq<int32>, b: seq<int32>, aRow: nat, cRow: nat, c: seq<int32>, ghost stores: seq<nat>,
                 ghost row: nat, ghost c0: seq<int32>)
    returns (c': seq<int32>, ghost stores': seq<nat>)
    requires IsMatrix(a, n) && IsMatrix(b, n) && IsMatrix(c, n) && IsMatrix(c0, n)
    requires row < n && aRow == cRow == RowBase(n, row)
    requires Progress(c, c0, Product(a, b, n), cRow)
    requires StoresInOrder(stores, cRow)
    ensures IsMatrix(c', n) && cRow + n <= RowBase(n, n)
    ensures Progress(c', c0, Product(a, b, n), cRow + n)
    ensures StoresInOrder(stores', cRow + n)
  {
    ghost var prod := Product(a, b, n);
    OffsetInBounds(n, row, n - 1);
    c', stores' := c, stores;
    var j := 0;
    while true
      invariant j < n
      invariant |c'| == RowBase(n, n)
      invariant Progress(c', c0, prod, cRow + j)
      invariant StoresInOrder(stores', cRow + j)
      decreases n - j
    {
      var sum := ColumnWalk(n, a, b, aRow, j, row);
      OffsetInBounds(n, row, j);
      assert prod[cRow + j] == At(prod, n, row, j) == sum;
      StoreNext(c', c0, prod, stores', cRow + j, sum);
      c' := c'[cRow + j := sum];
      stores' := stores' + [cRow + j];
      j := j + 1;
      if j == n {
        break;
      }
    }
  }

  /** The pointer-stepping routine. N = 0 leaves before any loop. `aRow`
      and `cRow` are the row bases of A and C, advanced by N per row; `i`
      counts the remaining rows down from N and the loop exits when it
      reaches 0. */
  method GemmImpl(n: nat, a: seq<int32>, b: seq<int32>, c0: seq<int32>)
    returns (c: seq<int32>, ghost stores: seq<nat>)
    requires IsMatrix(a, n) && IsMatrix(b, n) && IsMatrix(c0, n)
    ensures IsProduct(c, a, b, n)
    ensures c == Product(a, b, n)
    ensures StoresInOrder(stores, RowBase(n, n))
    ensures n == 0 ==> c == c0 && stores == []
  {
    c, stores := c0, [];
    if n == 0 {
      return;
    }
    ghost var prod := Product(a, b, n);
    var aRow, cRow := 0, 0;
    var i := n;
    while true
      invariant 0 < i <= n
      invariant aRow == cRow == RowBase(n, n - i)
      invariant |c| == RowBase(n, n)
      invariant Progress(c, c0, prod, cRow)
      invariant StoresInOrder(stores, cRow)
      decreases i
    {
      c, stores := RowWalk(n, a, b, aRow, cRow, c, stores, n - i, c0);
      aRow := aRow + n;
      cRow := cRow + n;
      i := i - 1;
      if i == 0 {
        break;
      }
    }
    assert c == prod;
  }

  /** `Gemm` dispatches on the build switch `USE_ASM`; whichever variant
      runs, the caller receives the same buffer, A×B, written in the same
      order. */
  method Gemm(useAsm: bool, n: nat, a: seq<int32>, b: seq<int32>, c0: seq<int32>)
    returns (c: seq<int32>, ghost stores: seq<nat>)
    requires IsMatrix(a, n) && IsMatrix(b, n) && IsMatrix(c0, n)
    ensures IsProduct(c, a, b, n)
    ensures c == Product(a, b, n)
    ensures StoresInOrder(stores, RowBase(n, n))
    ensures n == 0 ==> c == c0 && stores == []
  {
    if useAsm {
      c, stores := GemmImpl(n, a, b, c0);
    } else {
      c, stores := GemmLoops(n, a, b, c0);
    }
  }
}
