/**
  Dense matrices as THTensor stores them: a flat buffer of reals in row-major
  order, with the shape (rows, cols) carried beside it. These are the
  specification functions the gradient rules are stated against; they stand
  for the tensor library's own transpose, matrix product, add and negate.
 */
module Matrices {
  import opened Flat

  /** Cell (i, j) of a rows x cols matrix. */
  function At(s: seq<real>, rows: nat, cols: nat, i: nat, j: nat): real
    requires |s| == rows * cols && i < rows && j < cols
  {
    CellInBounds(i, j, rows, cols);
    s[i * cols + j]
  }

  /** Row i of a rows x cols matrix. */
  function Row(s: seq<real>, rows: nat, cols: nat, i: nat): (r: seq<real>)
    requires |s| == rows * cols && i < rows
    ensures |r| == cols
    ensures forall j | 0 <= j < cols :: r[j] == At(s, rows, cols, i, j)
  {
    seq(cols, j requires 0 <= j < cols => At(s, rows, cols, i, j))
  }

  /** Column j of a rows x cols matrix. */
  function Col(s: seq<real>, rows: nat, cols: nat, j: nat): (c: seq<real>)
    requires |s| == rows * cols && j < cols
    ensures |c| == rows
    ensures forall i | 0 <= i < rows :: c[i] == At(s, rows, cols, i, j)
  {
    seq(rows, i requires 0 <= i < rows => At(s, rows, cols, i, j))
  }

  /** The partial inner product of u and v over their first n entries. */
  function Dot(u: seq<real>, v: seq<real>, n: nat): real
    requires n <= |u| && n <= |v|
  {
    if n == 0 then 0.0 else Dot(u, v, n - 1) + u[n - 1] * v[n - 1]
  }

  /** Extending the inner product by one entry adds that entry's product. */
  lemma DotExtend(u: seq<real>, v: seq<real>, n: nat)
    requires n < |u| && n < |v|
    ensures Dot(u, v, n + 1) == Dot(u, v, n) + u[n] * v[n]
  {
  }

  /** Element-wise sum of two buffers of the same shape. */
  function Add(s: seq<real>, t: seq<real>): (r: seq<real>)
    requires |s| == |t|
    ensures |r| == |s|
    ensures forall k | 0 <= k < |s| :: r[k] == s[k] + t[k]
  {
    seq(|s|, k requires 0 <= k < |s| => s[k] + t[k])
  }

  /** Element-wise negation. */
  function Neg(s: seq<real>): (r: seq<real>)
    ensures |r| == |s|
    ensures forall k | 0 <= k < |s| :: r[k] == -s[k]
  {
    seq(|s|, k requires 0 <= k < |s| => -s[k])
  }

  /** Every cell multiplied by the scalar c. */
  function Scale(c: real, s: seq<real>): (r: seq<real>)
    ensures |r| == |s|
    ensures forall k | 0 <= k < |s| :: r[k] == c * s[k]
  {
    seq(|s|, k requires 0 <= k < |s| => c * s[k])
  }

  /** The all-zero buffer of length n. */
  function Zeros(n: nat): (r: seq<real>)
    ensures |r| == n
    ensures forall k | 0 <= k < n :: r[k] == 0.0
  {
    seq(n, k requires 0 <= k < n => 0.0)
  }

  /** Two matrices of one shape are equal when they agree on every cell. */
  lemma EqualByCells(s: seq<real>, t: seq<real>, rows: nat, cols: nat)
    requires |s| == rows * cols && |t| == rows * cols
    requires forall i: nat, j: nat | i < rows && j < cols :: At(s, rows, cols, i, j) == At(t, rows, cols, i, j)
    ensures s == t
  {
    forall k | 0 <= k < |s|
      ensures s[k] == t[k]
    {
      CellOfIndex(k, rows, cols);
      assert At(s, rows, cols, k / cols, k % cols) == At(t, rows, cols, k / cols, k % cols);
    }
  }

  /** Writing one cell of a buffer changes that cell and no other. */
  lemma UpdateCell(s: seq<real>, rows: nat, cols: nat, i: nat, j: nat, v: real)
    requires |s| == rows * cols && i < rows && j < cols
    ensures i * cols + j < |s|
    ensures forall r: nat, c: nat | r < rows && c < cols ::
      At(s[i * cols + j := v], rows, cols, r, c) == if r == i && c == j then v else At(s, rows, cols, r, c)
  {
    CellInBounds(i, j, rows, cols);
    forall r: nat, c: nat | r < rows && c < cols
      ensures At(s[i * cols + j := v], rows, cols, r, c) == if r == i && c == j then v else At(s, rows, cols, r, c)
    {
      CellInBounds(r, c, rows, cols);
      if r * cols + c == i * cols + j {
        CellInjective(r, c, i, j, cols);
      }
    }
  }

  /** Cells of an element-wise sum are sums of cells. */
  lemma AddAt(s: seq<real>, t: seq<real>, rows: nat, cols: nat)
    requires |s| == rows * cols && |t| == rows * cols
    ensures forall i: nat, j: nat | i < rows && j < cols ::
      At(Add(s, t), rows, cols, i, j) == At(s, rows, cols, i, j) + At(t, rows, cols, i, j)
  {
    forall i: nat, j: nat | i < rows && j < cols
      ensures At(Add(s, t), rows, cols, i, j) == At(s, rows, cols, i, j) + At(t, rows, cols, i, j)
    {
      CellInBounds(i, j, rows, cols);
    }
  }

  /** The entry at flat position k of the transpose of a rows x cols matrix. */
  function TransposedEntry(s: seq<real>, rows: nat, cols: nat, k: nat): real
    requires |s| == rows * cols && k < cols * rows
  {
    CellOfIndex(k, cols, rows);
    At(s, rows, cols, k % rows, k / rows)
  }

  /** The cols x rows transpose of a rows x cols matrix: cell (j, i) of the result is cell (i, j) of s. */
  function Transpose(s: seq<real>, rows: nat, cols: nat): (t: seq<real>)
    requires |s| == rows * cols
    ensures |t| == cols * rows
    ensures forall i: nat, j: nat | i < rows && j < cols :: At(t, cols, rows, j, i) == At(s, rows, cols, i, j)
  {
    var t := seq(cols * rows, k requires 0 <= k < cols * rows => TransposedEntry(s, rows, cols, k));
    assert forall i: nat, j: nat | i < rows && j < cols :: At(t, cols, rows, j, i) == At(s, rows, cols, i, j) by {
      forall i: nat, j: nat | i < rows && j < cols
        ensures At(t, cols, rows, j, i) == At(s, rows, cols, i, j)
      {
        CellInBounds(j, i, cols, rows);
        IndexOfCell(j, i, rows);
      }
    }
    t
  }

  /** The entry at flat position k of the product of an ar x ac and an ac x bc matrix. */
  function ProductEntry(a: seq<real>, ar: nat, ac: nat, b: seq<real>, bc: nat, k: nat): real
    requires |a| == ar * ac && |b| == ac * bc && k < ar * bc
  {
    CellOfIndex(k, ar, bc);
    Dot(Row(a, ar, ac, k / bc), Col(b, ac, bc, k % bc), ac)
  }

  /**
    The ar x bc product of an ar x ac matrix a and an ac x bc matrix b: cell
    (i, j) is the inner product of row i of a with column j of b.
   */
  function MatMul(a: seq<real>, ar: nat, ac: nat, b: seq<real>, bc: nat): (c: seq<real>)
    requires |a| == ar * ac && |b| == ac * bc
    ensures |c| == ar * bc
    ensures forall i: nat, j: nat | i < ar && j < bc ::
      At(c, ar, bc, i, j) == Dot(Row(a, ar, ac, i), Col(b, ac, bc, j), ac)
  {
    var c := seq(ar * bc, k requires 0 <= k < ar * bc => ProductEntry(a, ar, ac, b, bc, k));
    assert forall i: nat, j: nat | i < ar && j < bc ::
      At(c, ar, bc, i, j) == Dot(Row(a, ar, ac, i), Col(b, ac, bc, j), ac) by {
      forall i: nat, j: nat | i < ar && j < bc
        ensures At(c, ar, bc, i, j) == Dot(Row(a, ar, ac, i), Col(b, ac, bc, j), ac)
      {
        CellInBounds(i, j, ar, bc);
        IndexOfCell(i, j, bc);
      }
    }
    c
  }

  /** Cells of a negation are negated cells. */
  lemma NegAt(s: seq<real>, rows: nat, cols: nat)
    requires |s| == rows * cols
    ensures forall i: nat, j: nat | i < rows && j < cols ::
      At(Neg(s), rows, cols, i, j) == -At(s, rows, cols, i, j)
  {
    forall i: nat, j: nat | i < rows && j < cols
      ensures At(Neg(s), rows, cols, i, j) == -At(s, rows, cols, i, j)
    {
      CellInBounds(i, j, rows, cols);
    }
  }

  /** Transposing twice gives back the matrix. */
  lemma TransposeInvolution(s: seq<real>, rows: nat, cols: nat)
    requires |s| == rows * cols
    ensures Transpose(Transpose(s, rows, cols), cols, rows) == s
  {
    var t := Transpose(s, rows, cols);
    var tt := Transpose(t, cols, rows);
    forall i: nat, j: nat | i < rows && j < cols
      ensures At(tt, rows, cols, i, j) == At(s, rows, cols, i, j)
    {
      assert At(tt, rows, cols, i, j) == At(t, cols, rows, j, i);
    }
    EqualByCells(tt, s, rows, cols);
  }

  /** Row j of the transpose is column j of the matrix. */
  lemma RowOfTranspose(s: seq<real>, rows: nat, cols: nat, j: nat)
    requires |s| == rows * cols && j < cols
    ensures Row(Transpose(s, rows, cols), cols, rows, j) == Col(s, rows, cols, j)
  {
  }

  /** Column i of the transpose is row i of the matrix. */
  lemma ColOfTranspose(s: seq<real>, rows: nat, cols: nat, i: nat)
    requires |s| == rows * cols && i < rows
    ensures Col(Transpose(s, rows, cols), cols, rows, i) == Row(s, rows, cols, i)
  {
  }

  /** Column j of a sum is the sum of the columns. */
  lemma ColOfAdd(s: seq<real>, t: seq<real>, rows: nat, cols: nat, j: nat)
    requires |s| == rows * cols && |t| == rows * cols && j < cols
    ensures Col(Add(s, t), rows, cols, j) == Add(Col(s, rows, cols, j), Col(t, rows, cols, j))
  {
    AddAt(s, t, rows, cols);
  }

  /** Row i of a sum is the sum of the rows. */
  lemma RowOfAdd(s: seq<real>, t: seq<real>, rows: nat, cols: nat, i: nat)
    requires |s| == rows * cols && |t| == rows * cols && i < rows
    ensures Row(Add(s, t), rows, cols, i) == Add(Row(s, rows, cols, i), Row(t, rows, cols, i))
  {
    AddAt(s, t, rows, cols);
  }

  /** The inner product is symmetric. */
  lemma {:induction false} DotComm(u: seq<real>, v: seq<real>, n: nat)
    requires n <= |u| && n <= |v|
    ensures Dot(u, v, n) == Dot(v, u, n)
  {
    if n > 0 {
      DotComm(u, v, n - 1);
    }
  }

  /** The inner product is additive in its second argument. */
  lemma {:induction false} DotAddRight(u: seq<real>, v: seq<real>, w: seq<real>, n: nat)
    requires n <= |u| && n <= |v| && |v| == |w|
    ensures Dot(u, Add(v, w), n) == Dot(u, v, n) + Dot(u, w, n)
  {
    if n > 0 {
      DotAddRight(u, v, w, n - 1);
    }
  }

  /** The inner product is additive in its first argument. */
  lemma {:induction false} DotAddLeft(u: seq<real>, v: seq<real>, w: seq<real>, n: nat)
    requires n <= |u| && |u| == |v| && n <= |w|
    ensures Dot(Add(u, v), w, n) == Dot(u, w, n) + Dot(v, w, n)
  {
    if n > 0 {
      DotAddLeft(u, v, w, n - 1);
    }
  }

  /** The product distributes over a sum on the right: a(b1 + b2) = ab1 + ab2. */
  lemma MatMulAddRight(a: seq<real>, ar: nat, ac: nat, b1: seq<real>, b2: seq<real>, bc: nat)
    requires |a| == ar * ac && |b1| == ac * bc && |b2| == ac * bc
    ensures MatMul(a, ar, ac, Add(b1, b2), bc) == Add(MatMul(a, ar, ac, b1, bc), MatMul(a, ar, ac, b2, bc))
  {
    var lhs := MatMul(a, ar, ac, Add(b1, b2), bc);
    var p1, p2 := MatMul(a, ar, ac, b1, bc), MatMul(a, ar, ac, b2, bc);
    AddAt(p1, p2, ar, bc);
    forall i: nat, j: nat | i < ar && j < bc
      ensures At(lhs, ar, bc, i, j) == At(Add(p1, p2), ar, bc, i, j)
    {
      ColOfAdd(b1, b2, ac, bc, j);
      DotAddRight(Row(a, ar, ac, i), Col(b1, ac, bc, j), Col(b2, ac, bc, j), ac);
    }
    EqualByCells(lhs, Add(p1, p2), ar, bc);
  }

  /** The product distributes over a sum on the left: (a1 + a2)b = a1b + a2b. */
  lemma MatMulAddLeft(a1: seq<real>, a2: seq<real>, ar: nat, ac: nat, b: seq<real>, bc: nat)
    requires |a1| == ar * ac && |a2| == ar * ac && |b| == ac * bc
    ensures MatMul(Add(a1, a2), ar, ac, b, bc) == Add(MatMul(a1, ar, ac, b, bc), MatMul(a2, ar, ac, b, bc))
  {
    var lhs := MatMul(Add(a1, a2), ar, ac, b, bc);
    var p1, p2 := MatMul(a1, ar, ac, b, bc), MatMul(a2, ar, ac, b, bc);
    AddAt(p1, p2, ar, bc);
    forall i: nat, j: nat | i < ar && j < bc
      ensures At(lhs, ar, bc, i, j) == At(Add(p1, p2), ar, bc, i, j)
    {
      RowOfAdd(a1, a2, ar, ac, i);
      DotAddLeft(Row(a1, ar, ac, i), Row(a2, ar, ac, i), Col(b, ac, bc, j), ac);
    }
    EqualByCells(lhs, Add(p1, p2), ar, bc);
  }

  /** The entry at flat position k of the diagonal part of an n x n matrix. */
  function DiagonalPartEntry(s: seq<real>, n: nat, k: nat): real
    requires |s| == n * n && k < n * n
  {
    CellOfIndex(k, n, n);
    if k / n == k % n then At(s, n, n, k / n, k / n) else 0.0
  }

  /** The n x n matrix that keeps the diagonal of s and is zero off the diagonal. */
  function DiagonalPart(s: seq<real>, n: nat): (d: seq<real>)
    requires |s| == n * n
    ensures |d| == n * n
    ensures forall i: nat, j: nat | i < n && j < n ::
      At(d, n, n, i, j) == if i == j then At(s, n, n, i, i) else 0.0
  {
    var d := seq(n * n, k requires 0 <= k < n * n => DiagonalPartEntry(s, n, k));
    assert forall i: nat, j: nat | i < n && j < n ::
      At(d, n, n, i, j) == if i == j then At(s, n, n, i, i) else 0.0 by {
      forall i: nat, j: nat | i < n && j < n
        ensures At(d, n, n, i, j) == if i == j then At(s, n, n, i, i) else 0.0
      {
        CellInBounds(i, j, n, n);
        IndexOfCell(i, j, n);
      }
    }
    d
  }

  /** The vector of the n diagonal cells of an n x n matrix. */
  function Diagonal(s: seq<real>, n: nat): (v: seq<real>)
    requires |s| == n * n
    ensures |v| == n
    ensures forall i | 0 <= i < n :: v[i] == At(s, n, n, i, i)
  {
    seq(n, i requires 0 <= i < n => At(s, n, n, i, i))
  }

  /** The inner product with a vector that is zero on its first n entries is zero. */
  lemma {:induction false} DotZeroRight(u: seq<real>, v: seq<real>, n: nat)
    requires n <= |u| && n <= |v|
    requires forall k | 0 <= k < n :: v[k] == 0.0
    ensures Dot(u, v, n) == 0.0
  {
    if n > 0 {
      DotZeroRight(u, v, n - 1);
    }
  }

  /** Every column of the zero matrix is zero. */
  lemma ZerosCol(rows: nat, cols: nat, j: nat)
    requires j < cols
    ensures forall k | 0 <= k < rows :: Col(Zeros(rows * cols), rows, cols, j)[k] == 0.0
  {
    forall k | 0 <= k < rows
      ensures Col(Zeros(rows * cols), rows, cols, j)[k] == 0.0
    {
      CellInBounds(k, j, rows, cols);
    }
  }

  /** Every row of the zero matrix is zero. */
  lemma ZerosRow(rows: nat, cols: nat, i: nat)
    requires i < rows
    ensures forall k | 0 <= k < cols :: Row(Zeros(rows * cols), rows, cols, i)[k] == 0.0
  {
    forall k | 0 <= k < cols
      ensures Row(Zeros(rows * cols), rows, cols, i)[k] == 0.0
    {
      CellInBounds(i, k, rows, cols);
    }
  }

  /** Multiplying by the zero matrix on the right gives the zero matrix. */
  lemma MatMulZeroRight(a: seq<real>, ar: nat, ac: nat, bc: nat)
    requires |a| == ar * ac
    ensures MatMul(a, ar, ac, Zeros(ac * bc), bc) == Zeros(ar * bc)
  {
    var p := MatMul(a, ar, ac, Zeros(ac * bc), bc);
    forall i: nat, j: nat | i < ar && j < bc
      ensures At(p, ar, bc, i, j) == At(Zeros(ar * bc), ar, bc, i, j)
    {
      CellInBounds(i, j, ar, bc);
      ZerosCol(ac, bc, j);
      DotZeroRight(Row(a, ar, ac, i), Col(Zeros(ac * bc), ac, bc, j), ac);
    }
    EqualByCells(p, Zeros(ar * bc), ar, bc);
  }

  /** Multiplying the zero matrix by anything gives the zero matrix. */
  lemma MatMulZeroLeft(ar: nat, ac: nat, b: seq<real>, bc: nat)
    requires |b| == ac * bc
    ensures MatMul(Zeros(ar * ac), ar, ac, b, bc) == Zeros(ar * bc)
  {
    var p := MatMul(Zeros(ar * ac), ar, ac, b, bc);
    forall i: nat, j: nat | i < ar && j < bc
      ensures At(p, ar, bc, i, j) == At(Zeros(ar * bc), ar, bc, i, j)
    {
      CellInBounds(i, j, ar, bc);
      ZerosRow(ar, ac, i);
      DotComm(Row(Zeros(ar * ac), ar, ac, i), Col(b, ac, bc, j), ac);
      DotZeroRight(Col(b, ac, bc, j), Row(Zeros(ar * ac), ar, ac, i), ac);
    }
    EqualByCells(p, Zeros(ar * bc), ar, bc);
  }
}
