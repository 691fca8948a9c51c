/**
  The reverse-mode gradient rules of the dense linear-algebra primitives:
  transpose, diag, diagonal, inverse, determinant and dot. Each rule receives
  the upstream gradient of a node's output and writes the operand's share into
  the operand's gradient buffer, a flat row-major array of the operand's shape.

  The node machinery is not modelled: what the rules read from a node (its
  output value, its upstream gradient, its operands' values and gradient
  buffers, their shapes) is passed in as arrays and dimensions.
 */
module LinalgBackward {
  import opened Flat
  import opened Matrices

  /**
    The state of the transpose backward loops before visiting upstream cell
    (i, j): every operand-gradient cell (r, c) whose upstream cell (c, r) has
    been visited holds its starting value plus that upstream cell; every other
    cell holds its starting value.
   */
  ghost predicate TransposeVisited(cur: seq<real>, d0: seq<real>, g: seq<real>, h: nat, w: nat, i: nat, j: nat)
    requires |cur| == w * h && |d0| == w * h && |g| == h * w
  {
    forall r: nat, c: nat | r < w && c < h ::
      At(cur, w, h, r, c)
      == At(d0, w, h, r, c) + (if c < i || (c == i && r < j) then At(g, h, w, c, r) else 0.0)
  }

  /** Visiting upstream cell (i, j) adds it into operand cell (j, i) and advances the state. */
  lemma TransposeStep(cur: seq<real>, d0: seq<real>, g: seq<real>, h: nat, w: nat, i: nat, j: nat)
    requires |cur| == w * h && |d0| == w * h && |g| == h * w && i < h && j < w
    requires TransposeVisited(cur, d0, g, h, w, i, j)
    ensures j * h + i < |cur| && i * w + j < |g|
    ensures TransposeVisited(cur[j * h + i := cur[j * h + i] + g[i * w + j]], d0, g, h, w, i, j + 1)
  {
    CellInBounds(i, j, h, w);
    CellInBounds(j, i, w, h);
    var v := cur[j * h + i] + g[i * w + j];
    var next := cur[j * h + i := v];
    UpdateCell(cur, w, h, j, i, v);
    forall r: nat, c: nat | r < w && c < h
      ensures At(next, w, h, r, c)
        == At(d0, w, h, r, c) + (if c < i || (c == i && r < j + 1) then At(g, h, w, c, r) else 0.0)
    {
      if r == j && c == i {
        assert At(g, h, w, i, j) == g[i * w + j];
        assert At(cur, w, h, j, i) == cur[j * h + i];
      }
    }
  }

  /** After all h rows of the upstream gradient, the operand gradient has gained its transpose. */
  lemma TransposeFinished(cur: seq<real>, d0: seq<real>, g: seq<real>, h: nat, w: nat)
    requires |cur| == w * h && |d0| == w * h && |g| == h * w
    requires TransposeVisited(cur, d0, g, h, w, h, 0)
    ensures cur == Add(d0, Transpose(g, h, w))
  {
    AddAt(d0, Transpose(g, h, w), w, h);
    EqualByCells(cur, Add(d0, Transpose(g, h, w)), w, h);
  }

  /**
    Backward of transpose. The output is h x w, so the operand and its gradient
    are w x h; cell (i, j) of the upstream gradient g is added into cell (j, i)
    of the operand gradient adx, each cell exactly once.
   */
  method TransposeBackward(adx: array<real>, g: array<real>, h: nat, w: nat)
    requires g.Length == h * w && adx.Length == w * h
    requires adx != g
    modifies adx
    ensures forall i: nat, j: nat | i < h && j < w ::
      At(adx[..], w, h, j, i) == At(old(adx[..]), w, h, j, i) + At(g[..], h, w, i, j)
    ensures adx[..] == Add(old(adx[..]), Transpose(g[..], h, w))
  {
    ghost var d0 := adx[..];
    for i := 0 to h
      invariant TransposeVisited(adx[..], d0, g[..], h, w, i, 0)
    {
      for j := 0 to w
        invariant TransposeVisited(adx[..], d0, g[..], h, w, i, j)
      {
        TransposeStep(adx[..], d0, g[..], h, w, i, j);
        adx[j * h + i] := adx[j * h + i] + g[i * w + j];
      }
    }
    TransposeFinished(adx[..], d0, g[..], h, w);
    AddAt(d0, Transpose(g[..], h, w), w, h);
  }

  /**
    The state of a loop that visits the cells of a rows x cols buffer in
    row-major order and is about to visit cell (l, m): the cells already
    visited hold their final value (from `after`), the others their starting
    value (from `before`).
   */
  ghost predicate RowMajorPrefix(cur: seq<real>, before: seq<real>, after: seq<real>, rows: nat, cols: nat, l: nat, m: nat)
    requires |cur| == rows * cols && |before| == rows * cols && |after| == rows * cols
  {
    forall r: nat, k: nat | r < rows && k < cols ::
      At(cur, rows, cols, r, k)
      == if r < l || (r == l && k < m) then At(after, rows, cols, r, k) else At(before, rows, cols, r, k)
  }

  /** Writing the final value of cell (l, m) moves the prefix one cell on. */
  lemma PrefixStep(cur: seq<real>, before: seq<real>, after: seq<real>, rows: nat, cols: nat, l: nat, m: nat, v: real)
    requires |cur| == rows * cols && |before| == rows * cols && |after| == rows * cols
    requires l < rows && m < cols
    requires RowMajorPrefix(cur, before, after, rows, cols, l, m)
    requires v == At(after, rows, cols, l, m)
    ensures l * cols + m < |cur|
    ensures RowMajorPrefix(cur[l * cols + m := v], before, after, rows, cols, l, m + 1)
  {
    UpdateCell(cur, rows, cols, l, m, v);
  }

  /** Once every row has been visited, the buffer is the final one. */
  lemma PrefixComplete(cur: seq<real>, before: seq<real>, after: seq<real>, rows: nat, cols: nat)
    requires |cur| == rows * cols && |before| == rows * cols && |after| == rows * cols
    requires RowMajorPrefix(cur, before, after, rows, cols, rows, 0)
    ensures cur == after
  {
    EqualByCells(cur, after, rows, cols);
  }

  /**
    Backward of diag. The operand gradient adx and the upstream gradient g are
    both n x n, with n the operand gradient's first dimension; each diagonal
    cell of g is added into the same diagonal cell of adx.
   */
  method DiagBackward(adx: array<real>, g: array<real>, n: nat)
    requires adx.Length == n * n && g.Length == n * n
    requires adx != g
    modifies adx
    ensures forall i: nat, j: nat | i < n && j < n ::
      At(adx[..], n, n, i, j) == At(old(adx[..]), n, n, i, j) + (if i == j then At(g[..], n, n, i, i) else 0.0)
    ensures adx[..] == Add(old(adx[..]), DiagonalPart(g[..], n))
  {
    ghost var d0 := adx[..];
    ghost var target := Add(d0, DiagonalPart(g[..], n));
    AddAt(d0, DiagonalPart(g[..], n), n, n);
    for i := 0 to n
      invariant forall r: nat, c: nat | r < n && c < n ::
        At(adx[..], n, n, r, c) == if r == c && r < i then At(target, n, n, r, c) else At(d0, n, n, r, c)
    {
      CellInBounds(i, i, n, n);
      ghost var cur := adx[..];
      var v := adx[i * n + i] + g[i * n + i];
      assert v == At(target, n, n, i, i);
      UpdateCell(cur, n, n, i, i, v);
      adx[i * n + i] := v;
      assert adx[..] == cur[i * n + i := v];
    }
    EqualByCells(adx[..], target, n, n);
  }

  /**
    Backward of diagonal. The operand gradient adx is a vector of length n, its
    first dimension; cell (i, i) of the n x n upstream gradient g is added into
    entry i of adx.
   */
  method DiagonalBackward(adx: array<real>, g: array<real>, n: nat)
    requires adx.Length == n && g.Length == n * n
    requires adx != g
    modifies adx
    ensures forall i | 0 <= i < n :: adx[i] == old(adx[i]) + At(g[..], n, n, i, i)
    ensures adx[..] == Add(old(adx[..]), Diagonal(g[..], n))
  {
    ghost var d0 := adx[..];
    for i := 0 to n
      invariant forall k | 0 <= k < n :: adx[k] == d0[k] + (if k < i then At(g[..], n, n, k, k) else 0.0)
    {
      CellInBounds(i, i, n, n);
      adx[i] := adx[i] + g[i * n + i];
    }
    assert adx[..] == Add(d0, Diagonal(g[..], n));
  }

  /**
    Accumulating a contribution: once cell (l, m) of the buffer, still at its
    starting value, gains cell (l, m) of the contribution c, the prefix of
    finished cells (whose final value is start + c) grows by one cell.
   */
  lemma AccumulateStep(cur: seq<real>, d0: seq<real>, c: seq<real>, rows: nat, cols: nat, l: nat, m: nat, z: real)
    requires |cur| == rows * cols && |d0| == rows * cols && |c| == rows * cols
    requires l < rows && m < cols
    requires RowMajorPrefix(cur, d0, Add(d0, c), rows, cols, l, m)
    requires z == At(c, rows, cols, l, m)
    ensures l * cols + m < |cur|
    ensures RowMajorPrefix(cur[l * cols + m := cur[l * cols + m] + z], d0, Add(d0, c), rows, cols, l, m + 1)
  {
    CellInBounds(l, m, rows, cols);
    assert At(cur, rows, cols, l, m) == At(d0, rows, cols, l, m);
    AddAt(d0, c, rows, cols);
    PrefixStep(cur, d0, Add(d0, c), rows, cols, l, m, cur[l * cols + m] + z);
  }

  /**
    The gradient of A * B with respect to A is g * B^t, for B aw x bw and
    upstream gradient g (ah x bw): its cell (l, m) is the sum over j of
    g[l, j] * B[m, j].
   */
  lemma LeftGradientAt(g: seq<real>, b: seq<real>, ah: nat, aw: nat, bw: nat)
    requires |g| == ah * bw && |b| == aw * bw
    ensures forall l: nat, m: nat | l < ah && m < aw ::
      At(MatMul(g, ah, bw, Transpose(b, aw, bw), aw), ah, aw, l, m)
      == Dot(Row(g, ah, bw, l), Row(b, aw, bw, m), bw)
  {
    forall l: nat, m: nat | l < ah && m < aw
      ensures At(MatMul(g, ah, bw, Transpose(b, aw, bw), aw), ah, aw, l, m)
        == Dot(Row(g, ah, bw, l), Row(b, aw, bw, m), bw)
    {
      ColOfTranspose(b, aw, bw, m);
    }
  }

  /**
    The gradient of A * B with respect to B is A^t * g, for A ah x aw and
    upstream gradient g (ah x bw): its cell (l, m) is the sum over i of
    g[i, m] * A[i, l].
   */
  lemma RightGradientAt(g: seq<real>, a: seq<real>, ah: nat, aw: nat, bw: nat)
    requires |g| == ah * bw && |a| == ah * aw
    ensures forall l: nat, m: nat | l < aw && m < bw ::
      At(MatMul(Transpose(a, ah, aw), aw, ah, g, bw), aw, bw, l, m)
      == Dot(Col(g, ah, bw, m), Col(a, ah, aw, l), ah)
  {
    forall l: nat, m: nat | l < aw && m < bw
      ensures At(MatMul(Transpose(a, ah, aw), aw, ah, g, bw), aw, bw, l, m)
        == Dot(Col(g, ah, bw, m), Col(a, ah, aw, l), ah)
    {
      RowOfTranspose(a, ah, aw, l);
      DotComm(Col(a, ah, aw, l), Col(g, ah, bw, m), ah);
    }
  }

  /**
    The innermost loop of dot's backward with respect to A: the running sum z
    over j < bw of g[l, j] * B[m, j], read straight from the flat buffers.
   */
  method RowProductSum(g: array<real>, bv: array<real>, ah: nat, aw: nat, bw: nat, l: nat, m: nat) returns (z: real)
    requires g.Length == ah * bw && bv.Length == aw * bw && l < ah && m < aw
    ensures z == Dot(Row(g[..], ah, bw, l), Row(bv[..], aw, bw, m), bw)
  {
    ghost var gRow, bRow := Row(g[..], ah, bw, l), Row(bv[..], aw, bw, m);
    z := 0.0;
    for j := 0 to bw
      invariant z == Dot(gRow, bRow, j)
    {
      CellInBounds(l, j, ah, bw);
      CellInBounds(m, j, aw, bw);
      assert g[l * bw + j] == gRow[j] && bv[m * bw + j] == bRow[j];
      DotExtend(gRow, bRow, j);
      z := z + g[l * bw + j] * bv[m * bw + j];
    }
  }

  /**
    The innermost loop of dot's backward with respect to B: the running sum z
    over i < ah of g[i, m] * A[i, l], read straight from the flat buffers.
   */
  method ColumnProductSum(g: array<real>, av: array<real>, ah: nat, aw: nat, bw: nat, l: nat, m: nat) returns (z: real)
    requires g.Length == ah * bw && av.Length == ah * aw && l < aw && m < bw
    ensures z == Dot(Col(g[..], ah, bw, m), Col(av[..], ah, aw, l), ah)
  {
    ghost var gCol, aCol := Col(g[..], ah, bw, m), Col(av[..], ah, aw, l);
    z := 0.0;
    for i := 0 to ah
      invariant z == Dot(gCol, aCol, i)
    {
      CellInBounds(i, m, ah, bw);
      CellInBounds(i, l, ah, aw);
      assert g[i * bw + m] == gCol[i] && av[i * aw + l] == aCol[i];
      DotExtend(gCol, aCol, i);
      z := z + g[i * bw + m] * av[i * aw + l];
    }
  }

  /**
    One step of dot's backward with respect to A: adding the row product z of
    cell (l, m) moves the prefix of finished cells of adx += g * B^t one cell on.
   */
  lemma LeftGradientStep(cur: seq<real>, d0: seq<real>, g: seq<real>, b: seq<real>, ah: nat, aw: nat, bw: nat, l: nat, m: nat, z: real)
    requires |cur| == ah * aw && |d0| == ah * aw && |g| == ah * bw && |b| == aw * bw && l < ah && m < aw
    requires RowMajorPrefix(cur, d0, Add(d0, MatMul(g, ah, bw, Transpose(b, aw, bw), aw)), ah, aw, l, m)
    requires z == Dot(Row(g, ah, bw, l), Row(b, aw, bw, m), bw)
    ensures l * aw + m < |cur|
    ensures RowMajorPrefix(cur[l * aw + m := cur[l * aw + m] + z], d0, Add(d0, MatMul(g, ah, bw, Transpose(b, aw, bw), aw)), ah, aw, l, m + 1)
  {
    LeftGradientAt(g, b, ah, aw, bw);
    AccumulateStep(cur, d0, MatMul(g, ah, bw, Transpose(b, aw, bw), aw), ah, aw, l, m, z);
  }

  /** Once every cell is finished, the buffer holds start + g * B^t, cell by cell a sum of row products. */
  lemma LeftGradientDone(cur: seq<real>, d0: seq<real>, g: seq<real>, b: seq<real>, ah: nat, aw: nat, bw: nat)
    requires |cur| == ah * aw && |d0| == ah * aw && |g| == ah * bw && |b| == aw * bw
    requires RowMajorPrefix(cur, d0, Add(d0, MatMul(g, ah, bw, Transpose(b, aw, bw), aw)), ah, aw, ah, 0)
    ensures cur == Add(d0, MatMul(g, ah, bw, Transpose(b, aw, bw), aw))
    ensures forall l: nat, m: nat | l < ah && m < aw ::
      At(cur, ah, aw, l, m) == At(d0, ah, aw, l, m) + Dot(Row(g, ah, bw, l), Row(b, aw, bw, m), bw)
  {
    var grad := MatMul(g, ah, bw, Transpose(b, aw, bw), aw);
    PrefixComplete(cur, d0, Add(d0, grad), ah, aw);
    AddAt(d0, grad, ah, aw);
    LeftGradientAt(g, b, ah, aw, bw);
  }

  /**
    Backward of dot with respect to its left operand A (ah x aw), for the
    product A * B with B aw x bw and upstream gradient g (ah x bw): cell (l, m)
    of adx gains the running sum over j of g[l, j] * B[m, j], i.e. adx += g * B^t.
   */
  method DotBackward1(adx: array<real>, g: array<real>, bv: array<real>, ah: nat, aw: nat, bw: nat)
    requires adx.Length == ah * aw && g.Length == ah * bw && bv.Length == aw * bw
    requires adx != g && adx != bv
    modifies adx
    ensures forall l: nat, m: nat | l < ah && m < aw ::
      At(adx[..], ah, aw, l, m) == At(old(adx[..]), ah, aw, l, m) + Dot(Row(g[..], ah, bw, l), Row(bv[..], aw, bw, m), bw)
    ensures adx[..] == Add(old(adx[..]), MatMul(g[..], ah, bw, Transpose(bv[..], aw, bw), aw))
  {
    ghost var d0 := adx[..];
    ghost var target := Add(d0, MatMul(g[..], ah, bw, Transpose(bv[..], aw, bw), aw));
    for l := 0 to ah
      invariant RowMajorPrefix(adx[..], d0, target, ah, aw, l, 0)
    {
      for m := 0 to aw
        invariant RowMajorPrefix(adx[..], d0, target, ah, aw, l, m)
      {
        var z := RowProductSum(g, bv, ah, aw, bw, l, m);
        ghost var before := adx[..];
        LeftGradientStep(before, d0, g[..], bv[..], ah, aw, bw, l, m, z);
        adx[l * aw + m] := adx[l * aw + m] + z;
        assert adx[..] == before[l * aw + m := before[l * aw + m] + z];
      }
    }
    LeftGradientDone(adx[..], d0, g[..], bv[..], ah, aw, bw);
  }

  /**
    One step of dot's backward with respect to B: adding the column product z
    of cell (l, m) moves the prefix of finished cells of bdx += A^t * g one cell on.
   */
  lemma RightGradientStep(cur: seq<real>, d0: seq<real>, g: seq<real>, a: seq<real>, ah: nat, aw: nat, bw: nat, l: nat, m: nat, z: real)
    requires |cur| == aw * bw && |d0| == aw * bw && |g| == ah * bw && |a| == ah * aw && l < aw && m < bw
    requires RowMajorPrefix(cur, d0, Add(d0, MatMul(Transpose(a, ah, aw), aw, ah, g, bw)), aw, bw, l, m)
    requires z == Dot(Col(g, ah, bw, m), Col(a, ah, aw, l), ah)
    ensures l * bw + m < |cur|
    ensures RowMajorPrefix(cur[l * bw + m := cur[l * bw + m] + z], d0, Add(d0, MatMul(Transpose(a, ah, aw), aw, ah, g, bw)), aw, bw, l, m + 1)
  {
    RightGradientAt(g, a, ah, aw, bw);
    AccumulateStep(cur, d0, MatMul(Transpose(a, ah, aw), aw, ah, g, bw), aw, bw, l, m, z);
  }

  /** Once every cell is finished, the buffer holds start + A^t * g, cell by cell a sum of column products. */
  lemma RightGradientDone(cur: seq<real>, d0: seq<real>, g: seq<real>, a: seq<real>, ah: nat, aw: nat, bw: nat)
    requires |cur| == aw * bw && |d0| == aw * bw && |g| == ah * bw && |a| == ah * aw
    requires RowMajorPrefix(cur, d0, Add(d0, MatMul(Transpose(a, ah, aw), aw, ah, g, bw)), aw, bw, aw, 0)
    ensures cur == Add(d0, MatMul(Transpose(a, ah, aw), aw, ah, g, bw))
    ensures forall l: nat, m: nat | l < aw && m < bw ::
      At(cur, aw, bw, l, m) == At(d0, aw, bw, l, m) + Dot(Col(g, ah, bw, m), Col(a, ah, aw, l), ah)
  {
    var grad := MatMul(Transpose(a, ah, aw), aw, ah, g, bw);
    PrefixComplete(cur, d0, Add(d0, grad), aw, bw);
    AddAt(d0, grad, aw, bw);
    RightGradientAt(g, a, ah, aw, bw);
  }

  /**
    Backward of dot with respect to its right operand B (aw x bw), for the
    product A * B with A ah x aw and upstream gradient g (ah x bw): cell (l, m)
    of bdx gains the running sum over i of g[i, m] * A[i, l], i.e. bdx += A^t * g.
   */
  method DotBackward2(bdx: array<real>, g: array<real>, av: array<real>, ah: nat, aw: nat, bw: nat)
    requires bdx.Length == aw * bw && g.Length == ah * bw && av.Length == ah * aw
    requires bdx != g && bdx != av
    modifies bdx
    ensures forall l: nat, m: nat | l < aw && m < bw ::
      At(bdx[..], aw, bw, l, m) == At(old(bdx[..]), aw, bw, l, m) + Dot(Col(g[..], ah, bw, m), Col(av[..], ah, aw, l), ah)
    ensures bdx[..] == Add(old(bdx[..]), MatMul(Transpose(av[..], ah, aw), aw, ah, g[..], bw))
  {
    ghost var d0 := bdx[..];
    ghost var target := Add(d0, MatMul(Transpose(av[..], ah, aw), aw, ah, g[..], bw));
    for l := 0 to aw
      invariant RowMajorPrefix(bdx[..], d0, target, aw, bw, l, 0)
    {
      for m := 0 to bw
        invariant RowMajorPrefix(bdx[..], d0, target, aw, bw, l, m)
      {
        var z := ColumnProductSum(g, av, ah, aw, bw, l, m);
        ghost var before := bdx[..];
        RightGradientStep(before, d0, g[..], av[..], ah, aw, bw, l, m, z);
        bdx[l * bw + m] := bdx[l * bw + m] + z;
        assert bdx[..] == before[l * bw + m := before[l * bw + m] + z];
      }
    }
    RightGradientDone(bdx[..], d0, g[..], av[..], ah, aw, bw);
  }

  /**
    The fan-out case dot(X, X): both operands are the same n x n node, so both
    backward rules add into the one gradient buffer xdx, which ends up holding
    its starting value plus g * X^t plus X^t * g.
   */
  method SquareBackward(xdx: array<real>, g: array<real>, xv: array<real>, n: nat)
    requires xdx.Length == n * n && g.Length == n * n && xv.Length == n * n
    requires xdx != g && xdx != xv
    modifies xdx
    ensures xdx[..] == Add(Add(old(xdx[..]), MatMul(g[..], n, n, Transpose(xv[..], n, n), n)),
                           MatMul(Transpose(xv[..], n, n), n, n, g[..], n))
  {
    DotBackward1(xdx, g, xv, n, n, n);
    DotBackward2(xdx, g, xv, n, n, n);
  }

  /**
    Fan-out through two different rules: X feeds both transpose(X), with
    upstream gradient gt, and dot(X, X), with upstream gradient gd. Running
    the three backward rules into the one buffer xdx leaves the sum of all
    three contributions.
   */
  method TransposeAndSquareBackward(xdx: array<real>, gt: array<real>, gd: array<real>, xv: array<real>, n: nat)
    requires xdx.Length == n * n && gt.Length == n * n && gd.Length == n * n && xv.Length == n * n
    requires xdx != gt && xdx != gd && xdx != xv
    modifies xdx
    ensures xdx[..] == Add(Add(Add(old(xdx[..]), Transpose(gt[..], n, n)),
                               MatMul(gd[..], n, n, Transpose(xv[..], n, n), n)),
                           MatMul(Transpose(xv[..], n, n), n, n, gd[..], n))
  {
    TransposeBackward(xdx, gt, n, n);
    SquareBackward(xdx, gd, xv, n);
  }

  /** Adding into a zero buffer leaves exactly what was added. */
  lemma AddToZeros(s: seq<real>)
    ensures Add(Zeros(|s|), s) == s
  {
  }

  /**
    The gradient of transpose(transpose(X)): with both gradient buffers
    starting at zero, transpose's backward run for the outer node (into tdx)
    and then for the inner node (into xdx) hands the upstream gradient g back
    to X unchanged.
   */
  method TransposeTwiceBackward(xdx: array<real>, tdx: array<real>, g: array<real>, h: nat, w: nat)
    requires g.Length == h * w && tdx.Length == w * h && xdx.Length == h * w
    requires xdx != tdx && xdx != g && tdx != g
    requires tdx[..] == Zeros(w * h) && xdx[..] == Zeros(h * w)
    modifies xdx, tdx
    ensures tdx[..] == Transpose(g[..], h, w)
    ensures xdx[..] == g[..]
  {
    TransposeBackward(tdx, g, h, w);
    AddToZeros(Transpose(g[..], h, w));
    TransposeBackward(xdx, tdx, w, h);
    AddToZeros(Transpose(tdx[..], w, h));
    TransposeInvolution(g[..], h, w);
  }

  /**
    Jacobi's formula: the gradient of det(A) for the n x n matrix A, scaled by
    the upstream scalar g, is y * g times the transposed inverse of A, with
    y = det(A). Cell (i, j) is y * g * inv[j, i].
   */
  function JacobiGradient(y: real, g: real, inv: seq<real>, n: nat): (r: seq<real>)
    requires |inv| == n * n
    ensures |r| == n * n
    ensures forall i: nat, j: nat | i < n && j < n :: At(r, n, n, i, j) == y * g * At(inv, n, n, j, i)
  {
    var r := Scale(y * g, Transpose(inv, n, n));
    assert forall i: nat, j: nat | i < n && j < n :: At(r, n, n, i, j) == y * g * At(inv, n, n, j, i) by {
      forall i: nat, j: nat | i < n && j < n
        ensures At(r, n, n, i, j) == y * g * At(inv, n, n, j, i)
      {
        CellInBounds(i, j, n, n);
      }
    }
    r
  }

  /** Cell (i, j) of Jacobi's gradient, read from the flat buffer of the inverse. */
  lemma JacobiCell(y: real, g: real, inv: seq<real>, n: nat, i: nat, j: nat)
    requires |inv| == n * n && i < n && j < n
    ensures j * n + i < |inv|
    ensures At(JacobiGradient(y, g, inv, n), n, n, i, j) == y * g * inv[j * n + i]
  {
    CellInBounds(j, i, n, n);
  }

  /** Setting cell (i, j) to its Jacobi value moves the prefix of finished cells one cell on. */
  lemma JacobiSetStep(cur: seq<real>, d0: seq<real>, y: real, g: real, inv: seq<real>, n: nat, i: nat, j: nat, v: real)
    requires |cur| == n * n && |d0| == n * n && |inv| == n * n && i < n && j < n
    requires RowMajorPrefix(cur, d0, JacobiGradient(y, g, inv, n), n, n, i, j)
    requires j * n + i < |inv| && v == y * g * inv[j * n + i]
    ensures i * n + j < |cur|
    ensures RowMajorPrefix(cur[i * n + j := v], d0, JacobiGradient(y, g, inv, n), n, n, i, j + 1)
  {
    JacobiCell(y, g, inv, n, i, j);
    PrefixStep(cur, d0, JacobiGradient(y, g, inv, n), n, n, i, j, v);
  }

  /** Adding the Jacobi value into cell (i, j) moves the prefix of finished cells one cell on. */
  lemma JacobiAddStep(cur: seq<real>, d0: seq<real>, target: seq<real>, y: real, g: real, inv: seq<real>, n: nat, i: nat, j: nat, z: real)
    requires |cur| == n * n && |d0| == n * n && |inv| == n * n && i < n && j < n
    requires target == Add(d0, JacobiGradient(y, g, inv, n))
    requires RowMajorPrefix(cur, d0, target, n, n, i, j)
    requires j * n + i < |inv| && z == y * g * inv[j * n + i]
    ensures i * n + j < |cur|
    ensures RowMajorPrefix(cur[i * n + j := cur[i * n + j] + z], d0, target, n, n, i, j + 1)
  {
    JacobiCell(y, g, inv, n, i, j);
    AccumulateStep(cur, d0, JacobiGradient(y, g, inv, n), n, n, i, j, z);
  }

  /** Once every cell is finished, the buffer holds start + Jacobi's gradient, cell by cell. */
  lemma JacobiAccumulateDone(cur: seq<real>, d0: seq<real>, target: seq<real>, y: real, g: real, inv: seq<real>, n: nat)
    requires |cur| == n * n && |d0| == n * n && |inv| == n * n
    requires target == Add(d0, JacobiGradient(y, g, inv, n))
    requires RowMajorPrefix(cur, d0, target, n, n, n, 0)
    ensures cur == Add(d0, JacobiGradient(y, g, inv, n))
    ensures forall i: nat, j: nat | i < n && j < n ::
      At(cur, n, n, i, j) == At(d0, n, n, i, j) + y * g * At(inv, n, n, j, i)
  {
    var grad := JacobiGradient(y, g, inv, n);
    PrefixComplete(cur, d0, Add(d0, grad), n, n);
    AddAt(d0, grad, n, n);
  }

  /**
    Backward of determinant, as the code does it: every cell (i, j) of the n x n
    operand gradient adx is SET to y * g * inv[j, i], where y is the output
    det(A), g its upstream gradient and inv the inverse of A. Whatever adx held
    before is discarded.
   */
  method DeterminantBackward(adx: array<real>, n: nat, y: real, g: real, inv: array<real>)
    requires adx.Length == n * n && inv.Length == n * n
    requires adx != inv
    modifies adx
    ensures forall i: nat, j: nat | i < n && j < n :: At(adx[..], n, n, i, j) == y * g * At(inv[..], n, n, j, i)
    ensures adx[..] == JacobiGradient(y, g, inv[..], n)
  {
    ghost var d0 := adx[..];
    ghost var grad := JacobiGradient(y, g, inv[..], n);
    for i := 0 to n
      invariant RowMajorPrefix(adx[..], d0, grad, n, n, i, 0)
    {
      for j := 0 to n
        invariant RowMajorPrefix(adx[..], d0, grad, n, n, i, j)
      {
        CellInBounds(j, i, n, n);
        var v := y * g * inv[j * n + i];
        ghost var before := adx[..];
        JacobiSetStep(before, d0, y, g, inv[..], n, i, j, v);
        adx[i * n + j] := v;
        assert adx[..] == before[i * n + j := v];
      }
    }
    PrefixComplete(adx[..], d0, grad, n, n);
  }

  /**
    Row i of the accumulating determinant rule: cell (i, j) of adx gains
    y * g * inv[j, i] for every column j, so the finished prefix grows by a row.
   */
  method JacobiAccumulateRow(adx: array<real>, n: nat, y: real, g: real, inv: array<real>, i: nat, ghost d0: seq<real>, ghost target: seq<real>)
    requires adx.Length == n * n && inv.Length == n * n && |d0| == n * n && i < n
    requires adx != inv
    requires target == Add(d0, JacobiGradient(y, g, inv[..], n))
    requires RowMajorPrefix(adx[..], d0, target, n, n, i, 0)
    modifies adx
    ensures RowMajorPrefix(adx[..], d0, target, n, n, i + 1, 0)
  {
    for j := 0 to n
      invariant RowMajorPrefix(adx[..], d0, target, n, n, i, j)
    {
      CellInBounds(j, i, n, n);
      var z := y * g * inv[j * n + i];
      ghost var before := adx[..];
      JacobiAddStep(before, d0, target, y, g, inv[..], n, i, j, z);
      adx[i * n + j] := adx[i * n + j] + z;
      assert adx[..] == before[i * n + j := before[i * n + j] + z];
    }
  }

  /**
    Backward of determinant with the accumulation every other rule uses: cell
    (i, j) of adx GAINS y * g * inv[j, i].
   */
  method DeterminantBackwardAccumulate(adx: array<real>, n: nat, y: real, g: real, inv: array<real>)
    requires adx.Length == n * n && inv.Length == n * n
    requires adx != inv
    modifies adx
    ensures forall i: nat, j: nat | i < n && j < n ::
      At(adx[..], n, n, i, j) == At(old(adx[..]), n, n, i, j) + y * g * At(inv[..], n, n, j, i)
    ensures adx[..] == Add(old(adx[..]), JacobiGradient(y, g, inv[..], n))
  {
    ghost var d0 := adx[..];
    ghost var target := Add(d0, JacobiGradient(y, g, inv[..], n));
    for i := 0 to n
      invariant RowMajorPrefix(adx[..], d0, target, n, n, i, 0)
    {
      JacobiAccumulateRow(adx, n, y, g, inv, i, d0, target);
    }
    JacobiAccumulateDone(adx[..], d0, target, y, g, inv[..], n);
  }

  /**
    What the overwriting determinant rule loses: when the operand gradient
    already holds a non-zero cell (a contribution from another consumer of A,
    say), the overwritten buffer differs from the accumulated one.
   */
  lemma DeterminantOverwriteDropsPrior(d: seq<real>, y: real, g: real, inv: seq<real>, n: nat, i: nat, j: nat)
    requires |d| == n * n && |inv| == n * n && i < n && j < n
    requires At(d, n, n, i, j) != 0.0
    ensures JacobiGradient(y, g, inv, n) != Add(d, JacobiGradient(y, g, inv, n))
  {
    var jg := JacobiGradient(y, g, inv, n);
    AddAt(d, jg, n, n);
    assert At(Add(d, jg), n, n, i, j) != At(jg, n, n, i, j);
  }

  /** The contribution -(y^t * g * y^t) that inverse's backward adds. */
  function InverseContribution(y: seq<real>, g: seq<real>, n: nat): (c: seq<real>)
    requires |y| == n * n && |g| == n * n
    ensures |c| == n * n
  {
    Neg(MatMul(MatMul(Transpose(y, n, n), n, n, g, n), n, n, Transpose(y, n, n), n))
  }

  /**
    Backward of inverse. With y = A^-1 the n x n output and g its upstream
    gradient, the operand gradient becomes adx + -(y^t * g * y^t): cell (i, j)
    loses the inner product of row i of y^t * g with row j of y.
   */
  function InverseBackward(adx: seq<real>, y: seq<real>, g: seq<real>, n: nat): (r: seq<real>)
    requires |adx| == n * n && |y| == n * n && |g| == n * n
    ensures |r| == n * n
    ensures forall i: nat, j: nat | i < n && j < n ::
      At(r, n, n, i, j)
      == At(adx, n, n, i, j) - Dot(Row(MatMul(Transpose(y, n, n), n, n, g, n), n, n, i), Row(y, n, n, j), n)
  {
    var yT := Transpose(y, n, n);
    var p := MatMul(MatMul(yT, n, n, g, n), n, n, yT, n);
    var r := Add(adx, InverseContribution(y, g, n));
    assert forall i: nat, j: nat | i < n && j < n ::
      At(r, n, n, i, j)
      == At(adx, n, n, i, j) - Dot(Row(MatMul(yT, n, n, g, n), n, n, i), Row(y, n, n, j), n) by {
      AddAt(adx, Neg(p), n, n);
      NegAt(p, n, n);
      forall i: nat, j: nat | i < n && j < n
        ensures At(r, n, n, i, j)
          == At(adx, n, n, i, j) - Dot(Row(MatMul(yT, n, n, g, n), n, n, i), Row(y, n, n, j), n)
      {
        ColOfTranspose(y, n, n, j);
      }
    }
    r
  }

  /** The contribution of inverse's backward is additive in the upstream gradient. */
  lemma InverseContributionAdditive(y: seq<real>, g1: seq<real>, g2: seq<real>, n: nat)
    requires |y| == n * n && |g1| == n * n && |g2| == n * n
    ensures InverseContribution(y, Add(g1, g2), n) == Add(InverseContribution(y, g1, n), InverseContribution(y, g2, n))
  {
    var yT := Transpose(y, n, n);
    var q1, q2 := MatMul(yT, n, n, g1, n), MatMul(yT, n, n, g2, n);
    MatMulAddRight(yT, n, n, g1, g2, n);
    MatMulAddLeft(q1, q2, n, n, yT, n);
  }

  /**
    Fan-out for inverse: running inverse's backward with upstream g1 and then
    with g2 gives what one run with g1 + g2 gives.
   */
  lemma InverseBackwardAccumulates(d: seq<real>, y: seq<real>, g1: seq<real>, g2: seq<real>, n: nat)
    requires |d| == n * n && |y| == n * n && |g1| == n * n && |g2| == n * n
    ensures InverseBackward(InverseBackward(d, y, g1, n), y, g2, n) == InverseBackward(d, y, Add(g1, g2), n)
  {
    InverseContributionAdditive(y, g1, g2, n);
    assert InverseBackward(d, y, g1, n) == Add(d, InverseContribution(y, g1, n));
    assert InverseBackward(InverseBackward(d, y, g1, n), y, g2, n)
      == Add(Add(d, InverseContribution(y, g1, n)), InverseContribution(y, g2, n));
    assert InverseBackward(d, y, Add(g1, g2), n) == Add(d, InverseContribution(y, Add(g1, g2), n));
  }

  /** A zero upstream gradient leaves the operand gradient of inverse unchanged. */
  lemma InverseBackwardZero(d: seq<real>, y: seq<real>, n: nat)
    requires |d| == n * n && |y| == n * n
    ensures InverseBackward(d, y, Zeros(n * n), n) == d
  {
    var yT := Transpose(y, n, n);
    MatMulZeroRight(yT, n, n, n);
    MatMulZeroLeft(n, n, yT, n);
    assert MatMul(MatMul(yT, n, n, Zeros(n * n), n), n, n, yT, n) == Zeros(n * n);
  }
}
