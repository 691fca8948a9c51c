# Gradient rules of the dense linear-algebra primitives

This project models the backward (gradient) rules that `ad/adTH/linalgFunctions.js`
attaches to the primitives `transpose`, `diag`, `diagonal`, `inverse`,
`determinant` and `dot`. During reverse-mode differentiation, each rule takes
the upstream gradient of a node's output (`this.dx`) and writes the operand's
share into the operand's gradient buffer (`a.dx`). Every tensor is a flat
row-major buffer: cell (i, j) of a rows x cols tensor sits at `i * cols + j`.

The model has three modules:

- `Flat` (`flat.dfy`): index arithmetic of row-major buffers. It shows that
  `i * cols + j` is in bounds, that distinct cells have distinct positions,
  and that every position belongs to some cell.
- `Matrices` (`matrices.dfy`): specification functions over `seq<real>`. These
  are cell access, rows, columns, the inner product, element-wise add, negate
  and scale, transpose, matrix product, diagonal part and diagonal. They stand
  in for the tensor library's transpose and matrix product; `DiagonalPart`
  and `Diagonal` are the maps the diag and diagonal backward rules add.
  Lemmas cover transpose involution, distributivity of the matrix product,
  symmetry of the inner product, and products with zero.
- `LinalgBackward` (`linalg_backward.dfy`): the backward rules.
  - The loop-based rules (transpose, diag, diagonal, determinant, dot
    backward1/backward2) are methods over `array<real>` that update the
    operand gradient in place. Each accumulating rule is proved against a
    closed form: new buffer = old buffer + a named linear map of the upstream
    gradient. The determinant rule as the code writes it is the exception:
    its new buffer is Jacobi's gradient alone, and the old buffer is lost
    (see Findings).
  - The dot rules keep the source's running partial sum `z` in their
    innermost loops, `RowProductSum` and `ColumnProductSum`.
  - The inverse rule rebinds `A.dx` to a new tensor, so it is a function on
    values.

In places the code departs from the textbook gradient rules. The model
follows the code:

- `diagonal` backward (lines 47-52) adds cell (i, i) of the upstream gradient
  into entry i of a vector-shaped operand gradient, so it reads the operand of
  `diagonal` as a vector and its output as a matrix.
- `diag` backward (lines 33-38) treats both gradients as n x n matrices,
  where n is the first dimension of the operand gradient.
- If `diag` builds a matrix from a vector and `diagonal` extracts the
  diagonal of a matrix, these two bodies are swapped: each indexes its
  buffers with the other's shapes. Which reading holds is decided by the
  forward shapes of THTensor's `diag` and `diagonal`, which are not part of
  this model. The model states what each body does under the shapes its own
  indexing implies.
- Every other rule accumulates with `+=`, which fan-out needs. `determinant`
  backward overwrites its cells with `set` instead (see Findings).

## Model

| member | source | states |
|---|---|---|
| LinalgBackward.TransposeBackward | ad/adTH/linalgFunctions.js:16-24 | for every upstream cell (i, j) of the h x w output gradient, operand-gradient cell (j, i) ends as its old value plus that cell; the whole buffer ends as old + transpose(G), so each cell is hit exactly once |
| LinalgBackward.TransposeStep | ad/adTH/linalgFunctions.js:19-22 | both flat indices `j*h+i` and `i*w+j` are in bounds, and one addition moves the visited-cells state on by exactly one cell |
| Matrices.Transpose | ad/adTH/linalgFunctions.js:14 | the transpose is cols x rows and its cell (j, i) is cell (i, j) of the input |
| Matrices.TransposeInvolution | ad/adTH/linalgFunctions.js:14 | transposing twice gives the matrix back |
| LinalgBackward.DiagBackward | ad/adTH/linalgFunctions.js:33-38 | each diagonal cell (i, i) of the n x n operand gradient gains upstream cell (i, i); every off-diagonal cell keeps its old value |
| Matrices.DiagonalPart | ad/adTH/linalgFunctions.js:36 | the diagonal part keeps cell (i, i) and is 0 off the diagonal |
| LinalgBackward.DiagonalBackward | ad/adTH/linalgFunctions.js:47-52 | entry i of the length-n operand gradient gains upstream cell (i, i); no other entry changes and the length stays n |
| Matrices.Diagonal | ad/adTH/linalgFunctions.js:50 | the diagonal vector has length n and entry i is cell (i, i) |
| LinalgBackward.RowProductSum | ad/adTH/linalgFunctions.js:102-105 | the running sum z over j < Bw of G[l, j] * B[m, j] ends as the inner product of row l of G with row m of B |
| LinalgBackward.DotBackward1 | ad/adTH/linalgFunctions.js:91-109 | A.dx[l, m] ends as its old value plus the sum over j of G[l, j] * B[m, j], i.e. A.dx += G * B^t; only A.dx is written |
| LinalgBackward.LeftGradientAt | ad/adTH/linalgFunctions.js:103-106 | cell (l, m) of G * B^t is the inner product of row l of G with row m of B |
| LinalgBackward.LeftGradientStep | ad/adTH/linalgFunctions.js:106 | adding z into cell (l, m) extends the row-major prefix of finished cells of A.dx by one |
| LinalgBackward.LeftGradientDone | ad/adTH/linalgFunctions.js:100-108 | when every row is finished, the buffer is old + G * B^t, cell by cell |
| LinalgBackward.ColumnProductSum | ad/adTH/linalgFunctions.js:122-125 | the running sum z over i < Ah of G[i, m] * A[i, l] ends as the inner product of column m of G with column l of A |
| LinalgBackward.DotBackward2 | ad/adTH/linalgFunctions.js:110-130 | B.dx[l, m] ends as its old value plus the sum over i of G[i, m] * A[i, l], i.e. B.dx += A^t * G; only B.dx is written |
| LinalgBackward.RightGradientAt | ad/adTH/linalgFunctions.js:123-126 | cell (l, m) of A^t * G is the inner product of column m of G with column l of A |
| LinalgBackward.RightGradientStep | ad/adTH/linalgFunctions.js:126 | adding z into cell (l, m) extends the row-major prefix of finished cells of B.dx by one |
| LinalgBackward.RightGradientDone | ad/adTH/linalgFunctions.js:120-128 | when every row is finished, the buffer is old + A^t * G, cell by cell |
| LinalgBackward.SquareBackward | ad/adTH/linalgFunctions.js:91-130 | for dot(X, X), running backward1 and then backward2 into the one buffer leaves old + G * X^t + X^t * G |
| LinalgBackward.TransposeAndSquareBackward | ad/adTH/linalgFunctions.js:16-24 | when X feeds both transpose(X) and dot(X, X), the three backward rules into one buffer leave old + Gt^t + Gd * X^t + X^t * Gd: every contribution is kept |
| LinalgBackward.TransposeTwiceBackward | ad/adTH/linalgFunctions.js:16-24 | for transpose(transpose(X)) with zero starting gradients, the inner node's gradient becomes G^t and X's gradient becomes exactly G |
| Matrices.MatMul | ad/adTH/linalgFunctions.js:89 | the product is ar x bc and its cell (i, j) is the inner product of row i of a with column j of b |
| Matrices.MatMulAddRight | ad/adTH/linalgFunctions.js:89 | a(b1 + b2) = ab1 + ab2 |
| Matrices.MatMulAddLeft | ad/adTH/linalgFunctions.js:89 | (a1 + a2)b = a1b + a2b |
| Matrices.DotComm | ad/adTH/linalgFunctions.js:104 | the inner product is symmetric |
| LinalgBackward.JacobiGradient | ad/adTH/linalgFunctions.js:74-79 | Jacobi's gradient is n x n and its cell (i, j) is y * g * inv[j, i] |
| LinalgBackward.JacobiCell | ad/adTH/linalgFunctions.js:79 | the index `j*n+i` read from the inverse is in bounds and holds the value behind cell (i, j) of Jacobi's gradient |
| LinalgBackward.DeterminantBackward | ad/adTH/linalgFunctions.js:73-82 | as written: every cell (i, j) of A.dx is set to y * g * inv[j, i], so A.dx ends as exactly Jacobi's gradient whatever it held before |
| LinalgBackward.DeterminantOverwriteDropsPrior | ad/adTH/linalgFunctions.js:79 | if A.dx held any non-zero cell, the overwritten buffer differs from the accumulated one |
| LinalgBackward.DeterminantBackwardAccumulate | ad/adTH/linalgFunctions.js:73-82 | corrected: every cell (i, j) of A.dx gains y * g * inv[j, i], so A.dx ends as old + Jacobi's gradient |
| LinalgBackward.JacobiAccumulateDone | ad/adTH/linalgFunctions.js:77-81 | when every row is finished, the buffer is old + Jacobi's gradient, cell by cell |
| LinalgBackward.InverseBackward | ad/adTH/linalgFunctions.js:61-64 | the new A.dx is n x n and cell (i, j) is the old cell minus the inner product of row i of Y^t * G with row j of Y, i.e. A.dx - Y^t * G * Y^t |
| LinalgBackward.InverseContributionAdditive | ad/adTH/linalgFunctions.js:63 | the contribution -(Y^t * G * Y^t) is additive in G |
| LinalgBackward.InverseBackwardAccumulates | ad/adTH/linalgFunctions.js:63 | applying the rule with G1 and then G2 equals applying it once with G1 + G2 |
| LinalgBackward.InverseBackwardZero | ad/adTH/linalgFunctions.js:63 | a zero upstream gradient leaves A.dx unchanged |

## Left out

- Forward computations of the tensor library (`transpose`, `diag`, `diagonal`, `inverse`, `determinant`, `dot` at lines 14, 31, 45, 59, 71, 89): these live in THTensor, which is not part of this model. `Transpose` and `MatMul` are specifications of the library's transpose and matrix product. `DiagonalPart` and `Diagonal` specify only what the diag and diagonal backward rules add, not the library's `diag` and `diagonal`. Matrix inversion and the determinant are not computed.
- The inverse of A that the determinant rule computes with `A.x.inverse()` (line 76): it is a parameter, because inversion is a library call.
- Singular matrices: the model does not state what inversion does with them.
- Floating point: elements are `real`, so IEEE rounding, overflow, `Infinity` and `NaN` are not modelled.
- The graph and node machinery and the operation factory (`../graph.js`, `../func.js`): these are not part of this model. Values, upstream gradients, operand gradients and shapes are explicit parameters.
- The global `ad` behind `ad.value(A)` (lines 92 and 111): it is not defined in this file. The operand values are passed as arrays instead. backward1 reads A only for its shape, so it takes no array for A.
- backward2's outer bound `Bh` (line 116): B is taken to be aw x bw, so the bound is aw. This is the shape the forward product requires.
- Aliasing: each rule requires the written gradient buffer to be a separate array from the buffers it reads. Each node owns its own gradient buffer.
- The round trip `diagonal(diag(v))` and its identity gradient: the code's diag backward indexes the operand gradient as an n x n matrix. The shape of what `a.diag()` returns is decided by THTensor, which is not part of this model.
- `test/benchmark.js`: a timing script with no logic to model.

## Findings

| source | as written | input that shows it | evidently intended | confidence | as-written member | corrected member |
|---|---|---|---|---|---|---|
| ad/adTH/linalgFunctions.js:79 | determinant backward sets each cell of `A.dx` to `y * g * inv[j, i]`, discarding what the buffer held | a 1 x 1 matrix A = [2] whose gradient already holds 5 from another consumer: y = 2, g = 1, inv = [0.5]; the rule leaves `A.dx` = [1] instead of [6] | `A.dx[i, j] += y * g * inv[j, i]`, like every other rule, so that fan-out contributions add up | not executed | LinalgBackward.DeterminantBackward, LinalgBackward.DeterminantOverwriteDropsPrior | LinalgBackward.DeterminantBackwardAccumulate |
