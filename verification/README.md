# GEMM kernel of task3-gemm

This project models the integer matrix-multiply kernel of `task3-gemm/main.cpp`.
The kernel computes C = A×B for N×N matrices of C++ `int`. Each matrix is a flat
row-major buffer, so element (i, j) sits at offset i·N + j. The kernel has two
variants of the same i-j-k algorithm, and the build switch `USE_ASM` picks one:

- the naked x86-64 routine `GemmImpl`. It advances the row bases of A and C by
  N per row. It walks a column cursor `CurB` down B, N elements per step. It
  accumulates with 32-bit `imul`/`add` in do-while loops, and an N = 0 test
  comes before them;
- the index-form triple loop inside `Gemm`. It resets `sum` for every (i, j).

Modules:

- `I32` (`int32.dfy`): 32-bit two's-complement values and the wrap-around
  `Add`/`Mul` of the `add`/`imul` instructions.
- `RowMajor` (`layout.dfy`): offsets i·N + j, their bounds, and how they
  decode back to (i, j). The row base i·N is `RowBase(N, i)`. It is built
  as the routine builds it, by adding N once per row, and
  `RowBaseIsProduct` shows that it equals the product. The row and column
  of an offset are `RowOf` and `ColOf`, its quotient and remainder by N.
- `MatMul` (`matmul.dfy`): the reference. `Dot` is the wrapped running sum.
  `ExactDot` is the unbounded sum. `Product` is A×B as a buffer.
- `Kernel` (`kernel.dfy`): both variants, one method per loop level.
  - `DotLoop`/`RowLoop`/`GemmLoops` model the index form.
  - `ColumnWalk`/`RowWalk`/`GemmImpl` model the assembly.
  - `Gemm` is the dispatch.

A and B are passed as immutable sequences. They are `const int*` in the
source, so the model cannot change them. The kernel returns C together with
the ghost `stores`, the list of C offsets written, in the order they are
written. It is a record kept for the proofs only; the routine builds no such
list.
`USE_ASM` becomes the boolean parameter `useAsm` of `Gemm`.

## Model

| member | source | states |
|---|---|---|
| Kernel.GemmImpl | task3-gemm/main.cpp:53-94 | The pointer-stepping routine leaves C = A×B. Every element (i, j) is the wrapped dot product of row i of A and column j of B. It writes each offset 0..N²-1 exactly once, in increasing order. For N = 0 it returns C unchanged and writes nothing. |
| Kernel.RowWalk | task3-gemm/main.cpp:65-81 | The asm j loop for one row, given a row base shared by A and C. It stores the column sum at the row base + j for j = 0..N-1 and exits when j reaches N. It takes "offsets before the row base are final, later ones untouched, stores 0..base-1 in order" to the same statement one row (N offsets) further on. |
| Kernel.ColumnWalk | task3-gemm/main.cpp:67-77 | The asm k loop reads A from the base of some row onwards and reads B through a cursor that starts at column j and strides by N. It returns the wrapped dot product for that row and column j, which equals the exact dot product reduced to 32 bits. |
| Kernel.GemmLoops | task3-gemm/main.cpp:102-115 | The index-form i-j-k nest leaves C = A×B and writes each offset once, in row-major order. For N = 0 the loop does not run and C is unchanged. |
| Kernel.RowLoop | task3-gemm/main.cpp:108-114 | After outer iteration i, rows 0..i of C hold their final values. The rows after i still hold the caller's values. The stores so far are exactly offsets 0..(i+1)·N-1, in order. |
| Kernel.DotLoop | task3-gemm/main.cpp:110-112 | `sum` reset to 0 and accumulated over k in 32 bits equals the wrapped dot product. That equals the exact integer dot product reduced modulo 2^32. |
| Kernel.Gemm | task3-gemm/main.cpp:97-117 | Whichever variant `USE_ASM` selects, the caller gets the same buffer A×B and the same store order. |
| MatMul.DotWrapsExact | task3-gemm/main.cpp:67-73 | The accumulator `Dot` is reset to 0 for each (i, j) and advanced by a 32-bit multiply and add per k. After k steps it equals the exact sum of the first k products reduced once to int32, for every k: wrapping every product and every partial sum loses only the high-order bits. |
| I32.Add | task3-gemm/main.cpp:73 | The 32-bit `add` keeps a sum that fits. A sum above the int32 range comes back 2^32 lower, and one below it comes back 2^32 higher. |
| MatMul.ProductClosedForm | task3-gemm/main.cpp:110-113 | C satisfies the element-wise statement of A×B exactly when C[i·N+j] is the exact sum over k of A[i·N+k]·B[k·N+j] reduced to a signed 32-bit value. |
| MatMul.DotReadsRowAndColumn | task3-gemm/main.cpp:67-68 | Because the accumulator starts from 0 for each (i, j), output (i, j) depends only on row i of A and column j of B. Two input pairs that agree there give the same value. |
| MatMul.Product | task3-gemm/main.cpp:106-113 | The buffer built entry by entry satisfies the element-wise statement of A×B. |
| MatMul.ProductUnique | task3-gemm/main.cpp:106-113 | The element-wise statement determines C completely: any buffer satisfying it equals `Product`. |
| MatMul.IdentityProduct | task3-gemm/main.cpp:106-113 | I×B = B for every B, including B whose entries are near the int32 limits. |
| MatMul.KnownProduct | task3-gemm/main.cpp:106-113 | [1 2; 3 4] × [5 6; 7 8] = [19 22; 43 50]. |
| MatMul.OverflowWraps | task3-gemm/main.cpp:71-73 | For N = 1, (2^31-1)·2 stores -2: overflow wraps rather than saturating or trapping. |
| MatMul.EntryAt | task3-gemm/main.cpp:113 | The value stored at offset i·N + j is the full dot product for (i, j), and the offset lies inside the buffer. |
| MatMul.IdentityAt | task3-gemm/main.cpp:106-113 | The identity buffer has 1 at (i, j) exactly when i = j, and 0 elsewhere. |
| Kernel.StoreNext | task3-gemm/main.cpp:78 | Storing the final value at the first offset not yet done extends the finished prefix by one. The trace grows by that offset, and later offsets are untouched. |
| I32.WrapLowBits | task3-gemm/main.cpp:72-73 | The recursive wrap equals the low 32 bits of the exact value, read as signed. |
| I32.WrapCongruent | task3-gemm/main.cpp:72-73 | Two integers wrap to the same int32 exactly when they differ by a multiple of 2^32, in both directions. |
| I32.WrapIdentity | task3-gemm/main.cpp:73 | Wrapping leaves a value unchanged exactly when it is already in the int32 range. |
| I32.AddWrapsExact | task3-gemm/main.cpp:73 | A 32-bit `add` of two wrapped values equals the wrap of their exact sum. |
| I32.MulIsWrappedProduct | task3-gemm/main.cpp:72 | A 32-bit `imul` differs from the exact product by a multiple of 2^32, and equals it when the product fits in int32. |
| RowMajor.OffsetInBounds | task3-gemm/main.cpp:112-113 | Every offset i·N + j with i, j < N lies in [0, N²), so each read of A and B and each store to C is in bounds. |
| RowMajor.OffsetDecode | task3-gemm/main.cpp:82-83 | An offset i·N + j decodes back to row i and column j, so the row base reached after i rows is row i. |
| RowMajor.OffsetEncode | task3-gemm/main.cpp:113 | Every offset below the first m rows is the offset of the pair (its row, its column), with the row below m and the column below N. |
| RowMajor.RowBaseIsProduct | task3-gemm/main.cpp:82-83 | `RowBase(N, i)` is the row base reached after i executions of `add A, Nq` / `add C, Nq`. It equals i·N, the index-form `i * size`. |
| RowMajor.RowBaseMonotone | task3-gemm/main.cpp:82-83 | Later rows start at higher offsets. |

## Left out

- Kernel.GemmImpl: N is a `nat`, so negative N is excluded and treated as a
  caller error. The routine only tests N for zero (lines 53-54). For a
  negative N it would count `i` down from 2^32 - |N| and read far outside
  the buffers. That behaviour is not modelled.
- Kernel.Gemm: the claim that both variants give the same buffer is made for
  N ≥ 0 only. For a negative N the index form's `i < size` test (line 106)
  fails at once and leaves C unchanged, while the asm routine runs off the
  buffers as described above.
- Byte-scaled counters: `shl N, 2` and the `add k, 4` / `add j, 4` steps work
  in bytes. The model counts in elements. Because of this it does not model
  N ≥ 2^30, where 4·N overflows the 32-bit register.
- Register allocation, the calling convention, `push`/`pop rbx` and the
  `naked` attribute. These do not affect the values computed.
- The non-asm path's signed overflow is undefined behaviour in C++. Both
  variants are modelled with the wrap-around that the active asm path gives.
- `CheckResult` (lines 119-128) reads expected values from a file into a
  `float` and compares them. It is left out because it is file I/O plus a
  floating-point comparison.
- `Benchmark` and `main` (lines 131-168) are left out. They do file loading,
  path building, buffer allocation and the loop over dataset sizes.
- `PRINT_TIME` (lines 10-16) is left out because it only does wall-clock
  timing.
- Aliasing between C and A or B is not modelled. The buffers are separate
  values here, as they are separate vectors in the program.
