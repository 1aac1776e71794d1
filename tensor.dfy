/** Tensor storage: creation, copy, in-place fills, matrix multiplication and
    reshape. The layout is row-major: `shape[0]` is the row length, `shape[1]`
    the row count, and element (x, y) lives at `x + y * shape[0]`. */
module Tensors {
  import opened Shapes

  /** The tensor struct: dimension count, element count, extents and a pointer
      to the element buffer. Copying a value of this type copies the struct, so
      the copy and the original share one buffer, as a struct assignment does. */
  datatype Tensor = Tensor(ndim: nat, length: nat, shape: seq<nat>, data: array<int>)
  {
    /** The bookkeeping invariant: `length` is the product of the extents and
        the buffer holds exactly `length` elements. */
    predicate Valid()
    {
      ndim == |shape| && length == Product(shape) && data.Length == length
    }
  }

  /** Linear position of element (x, y) in a buffer whose rows hold w elements. */
  function Offset(x: nat, y: nat, w: nat): nat
  {
    x + y * w
  }

  lemma MulLeq(a: nat, b: nat, c: nat)
    requires a <= b
    ensures a * c <= b * c
  {
  }

  /** Every element of a w-by-h matrix lies inside its buffer of w * h elements. */
  lemma CellInBounds(x: nat, y: nat, w: nat, h: nat)
    requires x < w && y < h
    ensures Offset(x, y, w) < w * h
  {
    MulLeq(y + 1, h, w);
  }

  /** The linear position determines the element: (x, y) is recovered from
      `x + y * w` by remainder and quotient. */
  lemma CellCoordinates(x: nat, y: nat, w: nat)
    requires x < w
    ensures Offset(x, y, w) % w == x && Offset(x, y, w) / w == y
  {
    var n := x + y * w;
    var q, r := n / w, n % w;
    assert n == q * w + r;
    if q < y {
      MulLeq(q + 1, y, w);
    } else if q > y {
      MulLeq(y + 1, q, w);
    }
  }

  /** Each position of a w-by-h buffer is the offset of one element. */
  lemma FlatCell(n: nat, w: nat, h: nat)
    requires n < w * h
    ensures w > 0 && n % w < w && n / w < h && n == Offset(n % w, n / w, w)
  {
    if n / w >= h {
      MulLeq(h, n / w, w);
    }
  }

  /** Row y of a w-by-h matrix: the elements (0, y) .. (w - 1, y). */
  function Row(m: seq<int>, w: nat, h: nat, y: nat): (r: seq<int>)
    requires |m| == w * h && y < h
    ensures |r| == w
  {
    seq(w, k requires 0 <= k < w => CellInBounds(k, y, w, h); m[k + y * w])
  }

  /** Column x of a w-by-h matrix: the elements (x, 0) .. (x, h - 1). */
  function Column(m: seq<int>, w: nat, h: nat, x: nat): (c: seq<int>)
    requires |m| == w * h && x < w
    ensures |c| == h
  {
    seq(h, y requires 0 <= y < h => CellInBounds(x, y, w, h); m[x + y * w])
  }

  /** Sum of the products of corresponding elements, accumulated in index order. */
  function Dot(a: seq<int>, b: seq<int>): int
    requires |a| == |b|
  {
    if |a| == 0 then 0 else Dot(a[..|a| - 1], b[..|b| - 1]) + a[|a| - 1] * b[|b| - 1]
  }

  /** Element (i, j) of the product of an xl-by-yl matrix `l` and an xr-by-xl
      matrix `r`: row j of `l` dotted with column i of `r`. */
  function Entry(l: seq<int>, r: seq<int>, xl: nat, yl: nat, xr: nat, i: nat, j: nat): int
    requires |l| == xl * yl && |r| == xr * xl && i < xr && j < yl
  {
    Dot(Row(l, xl, yl, j), Column(r, xr, xl, i))
  }

  /** The product of an xl-by-yl matrix `l` and an xr-by-xl matrix `r`, an
      xr-by-yl matrix, laid out row by row. */
  function MatMul(l: seq<int>, r: seq<int>, xl: nat, yl: nat, xr: nat): (m: seq<int>)
    requires |l| == xl * yl && |r| == xr * xl
    ensures |m| == xr * yl
  {
    seq(xr * yl, n requires 0 <= n < xr * yl =>
      FlatCell(n, xr, yl);
      Entry(l, r, xl, yl, xr, n % xr, n / xr))
  }

  /** Element (i, j) of the product sits at offset `i + j*xr` and is the sum over
      k of `l[k + j*xl] * r[i + k*xr]`. */
  lemma MatMulAt(l: seq<int>, r: seq<int>, xl: nat, yl: nat, xr: nat, i: nat, j: nat)
    requires |l| == xl * yl && |r| == xr * xl && i < xr && j < yl
    ensures Offset(i, j, xr) < |MatMul(l, r, xl, yl, xr)|
    ensures MatMul(l, r, xl, yl, xr)[Offset(i, j, xr)] == Entry(l, r, xl, yl, xr, i, j)
  {
    var n := Offset(i, j, xr);
    CellInBounds(i, j, xr, yl);
    CellCoordinates(i, j, xr);
    assert n % xr == i && n / xr == j;
  }

  /** The w-by-h identity pattern: 1 on the diagonal x == y, 0 elsewhere. */
  function IdentityMatrix(w: nat, h: nat): (m: seq<int>)
    ensures |m| == w * h
  {
    seq(w * h, n requires 0 <= n < w * h => FlatCell(n, w, h); if n % w == n / w then 1 else 0)
  }

  lemma IdentityAt(w: nat, h: nat, x: nat, y: nat)
    requires x < w && y < h
    ensures Offset(x, y, w) < |IdentityMatrix(w, h)|
    ensures IdentityMatrix(w, h)[Offset(x, y, w)] == if x == y then 1 else 0
  {
    CellInBounds(x, y, w, h);
    CellCoordinates(x, y, w);
  }

  /** A dot product with an all-zero vector is 0. */
  lemma {:induction false} DotZero(a: seq<int>, b: seq<int>)
    requires |a| == |b| && forall k :: 0 <= k < |a| ==> a[k] == 0
    ensures Dot(a, b) == 0
  {
    if |a| > 0 {
      DotZero(a[..|a| - 1], b[..|b| - 1]);
    }
  }

  /** A dot product with the j-th unit vector picks element j. */
  lemma {:induction false} DotUnit(a: seq<int>, b: seq<int>, j: nat)
    requires |a| == |b| && j < |a|
    requires forall k :: 0 <= k < |a| ==> a[k] == if k == j then 1 else 0
    ensures Dot(a, b) == b[j]
  {
    var n := |a| - 1;
    if j == n {
      DotZero(a[..n], b[..n]);
    } else {
      DotUnit(a[..n], b[..n], j);
    }
  }

  /** The identity matrix is a left unit of the product: multiplying an h-by-h
      identity by a w-by-h matrix gives that matrix back. */
  lemma MatMulIdentity(r: seq<int>, w: nat, h: nat)
    requires |r| == w * h
    ensures MatMul(IdentityMatrix(h, h), r, h, h, w) == r
  {
    var id := IdentityMatrix(h, h);
    var m := MatMul(id, r, h, h, w);
    forall n | 0 <= n < w * h
      ensures m[n] == r[n]
    {
      FlatCell(n, w, h);
      var i, j := n % w, n / w;
      MatMulAt(id, r, h, h, w, i, j);
      var row := Row(id, h, h, j);
      forall k | 0 <= k < h
        ensures row[k] == if k == j then 1 else 0
      {
        IdentityAt(h, h, k, j);
      }
      DotUnit(row, Column(r, w, h, i), j);
    }
  }

  /** Under the matmul check every index the triple loop touches is inside its
      buffer: `lhs[k + j*xl]`, `rhs[i + k*xr]` and `out[i + j*xr]` for
      i < xr, j < yl, k < xl. */
  lemma MatmulIndicesInBounds(lhsShape: seq<nat>, rhsShape: seq<nat>)
    requires MatmulShapeOk(lhsShape, rhsShape)
    ensures forall k, j :: 0 <= k < lhsShape[0] && 0 <= j < lhsShape[1] ==> Offset(k, j, lhsShape[0]) < Product(lhsShape)
    ensures forall i, k :: 0 <= i < rhsShape[0] && 0 <= k < lhsShape[0] ==> Offset(i, k, rhsShape[0]) < Product(rhsShape)
    ensures forall i, j :: 0 <= i < rhsShape[0] && 0 <= j < lhsShape[1] ==> Offset(i, j, rhsShape[0]) < rhsShape[0] * lhsShape[1]
  {
    var xl, yl, xr, yr := lhsShape[0], lhsShape[1], rhsShape[0], rhsShape[1];
    forall k, j | 0 <= k < xl && 0 <= j < yl
      ensures Offset(k, j, xl) < Product(lhsShape)
    {
      CellInBounds(k, j, xl, yl);
    }
    forall i, k | 0 <= i < xr && 0 <= k < xl
      ensures Offset(i, k, xr) < Product(rhsShape)
    {
      CellInBounds(i, k, xr, yr);
    }
    forall i, j | 0 <= i < xr && 0 <= j < yl
      ensures Offset(i, j, xr) < xr * yl
    {
      CellInBounds(i, j, xr, yl);
    }
  }

  /** The converse for the rhs reads: with a non-empty rhs row, the reads
      `rhs[i + k*xr]` for i < xr and k < xl stay inside the xr-by-yr buffer
      exactly when xl <= yr. Without the check, an lhs row longer than the rhs
      column reads past rhs. */
  lemma RhsReadsInBoundsIff(xl: nat, xr: nat, yr: nat)
    requires xr > 0
    ensures (forall i, k :: 0 <= i < xr && 0 <= k < xl ==> Offset(i, k, xr) < xr * yr) <==> xl <= yr
  {
    if xl > yr {
      assert Offset(0, yr, xr) == yr * xr;
    } else {
      forall i, k | 0 <= i < xr && 0 <= k < xl
        ensures Offset(i, k, xr) < xr * yr
      {
        CellInBounds(i, k, xr, yr);
      }
    }
  }

  // ---------------------------------------------------------------------
  // Creation and copy. Buffers of new tensors are not initialised.

  method Create1D(len: nat) returns (t: Tensor)
    ensures t.Valid() && t.ndim == 1 && t.shape == [len] && t.length == len
    ensures fresh(t.data)
  {
    var data := new int[len];
    t := Tensor(1, len, [len], data);
  }

  method Create2D(xlen: nat, ylen: nat) returns (t: Tensor)
    ensures t.Valid() && t.ndim == 2 && t.shape == [xlen, ylen] && t.length == xlen * ylen
    ensures fresh(t.data)
  {
    var data := new int[xlen * ylen];
    t := Tensor(2, xlen * ylen, [xlen, ylen], data);
  }

  /** A deep copy: same bookkeeping and element values, in a fresh buffer. */
  method Copy(t: Tensor) returns (c: Tensor)
    requires t.Valid()
    ensures c.Valid() && c.ndim == t.ndim && c.length == t.length && c.shape == t.shape
    ensures fresh(c.data) && c.data[..] == t.data[..]
  {
    var data := new int[t.length];
    for i := 0 to t.length
      invariant data[..i] == t.data[..i]
    {
      data[i] := t.data[i];
    }
    c := Tensor(t.ndim, t.length, t.shape, data);
  }

  // ---------------------------------------------------------------------
  // In-place fills.

  method InitZeros(t: Tensor)
    requires t.Valid()
    modifies t.data
    ensures forall k :: 0 <= k < t.length ==> t.data[k] == 0
  {
    for i := 0 to t.length
      invariant forall k :: 0 <= k < i ==> t.data[k] == 0
    {
      t.data[i] := 0;
    }
  }

  method InitOnes(t: Tensor)
    requires t.Valid()
    modifies t.data
    ensures forall k :: 0 <= k < t.length ==> t.data[k] == 1
  {
    for i := 0 to t.length
      invariant forall k :: 0 <= k < i ==> t.data[k] == 1
    {
      t.data[i] := 1;
    }
  }

  /** Zeros, then a 1 at (i, i) for every i below both extents. */
  method InitIdentity(t: Tensor)
    requires t.Valid() && t.ndim == 2
    modifies t.data
    ensures t.data[..] == IdentityMatrix(t.shape[0], t.shape[1])
  {
    InitZeros(t);
    var xlen, ylen := t.shape[0], t.shape[1];
    var n := if xlen < ylen then xlen else ylen;
    forall x, y | 0 <= x < xlen && 0 <= y < ylen ensures Offset(x, y, xlen) < t.length {
      CellInBounds(x, y, xlen, ylen);
    }
    for i := 0 to n
      invariant forall x, y :: 0 <= x < xlen && 0 <= y < ylen ==>
        t.data[Offset(x, y, xlen)] == if x == y && x < i then 1 else 0
    {
      CellInBounds(i, i, xlen, ylen);
      OffsetInjective(i, i, xlen, ylen);
      t.data[i * xlen + i] := 1;
    }
    IdentityFromCells(t.data[..], xlen, ylen);
  }

  /** No other element of a w-by-h matrix shares the offset of element (i, j). */
  lemma OffsetInjective(i: nat, j: nat, w: nat, h: nat)
    requires i < w
    ensures forall x, y :: 0 <= x < w && 0 <= y < h && Offset(x, y, w) == Offset(i, j, w) ==> x == i && y == j
  {
    forall x, y | 0 <= x < w && 0 <= y < h && Offset(x, y, w) == Offset(i, j, w)
      ensures x == i && y == j
    {
      CellCoordinates(x, y, w);
      CellCoordinates(i, j, w);
    }
  }

  /** A buffer holding 1 at every (x, x) and 0 at every other element is the identity. */
  lemma IdentityFromCells(s: seq<int>, w: nat, h: nat)
    requires |s| == w * h
    requires forall x, y :: 0 <= x < w && 0 <= y < h ==> Offset(x, y, w) < |s| && s[Offset(x, y, w)] == if x == y then 1 else 0
    ensures s == IdentityMatrix(w, h)
  {
    forall k | 0 <= k < |s|
      ensures s[k] == IdentityMatrix(w, h)[k]
    {
      FlatCell(k, w, h);
      IdentityAt(w, h, k % w, k / w);
    }
  }

  // ---------------------------------------------------------------------
  // Matrix multiplication.

  /** The innermost loop of the multiplication: accumulates
      `lhs[k + j*xl] * rhs[i + k*xr]` over k into element (i, j) of `out`. */
  method AccumulateEntry(lhs: Tensor, rhs: Tensor, out: Tensor, i: nat, j: nat)
    requires lhs.Valid() && rhs.Valid() && out.Valid() && MatmulShapeOk(lhs.shape, rhs.shape)
    requires out.shape == [rhs.shape[0], lhs.shape[1]] && i < rhs.shape[0] && j < lhs.shape[1]
    requires out.data != lhs.data && out.data != rhs.data
    modifies out.data
    ensures Offset(i, j, rhs.shape[0]) < out.length
    ensures out.data[Offset(i, j, rhs.shape[0])] == old(out.data[Offset(i, j, rhs.shape[0])])
      + Entry(lhs.data[..], rhs.data[..], lhs.shape[0], lhs.shape[1], rhs.shape[0], i, j)
    ensures forall c :: 0 <= c < out.length && c != Offset(i, j, rhs.shape[0]) ==> out.data[c] == old(out.data[c])
  {
    var xl, yl, xr := lhs.shape[0], lhs.shape[1], rhs.shape[0];
    CellInBounds(i, j, xr, yl);
    var c := i + j * xr;
    ghost var row := Row(lhs.data[..], xl, yl, j);
    ghost var col := Column(rhs.data[..], xr, xl, i);
    for k := 0 to xl
      invariant out.data[c] == old(out.data[c]) + Dot(row[..k], col[..k])
      invariant forall c' :: 0 <= c' < out.length && c' != c ==> out.data[c'] == old(out.data[c'])
    {
      CellInBounds(k, j, xl, yl);
      CellInBounds(i, k, xr, xl);
      assert row[k] == lhs.data[k + j * xl] && col[k] == rhs.data[i + k * xr];
      assert row[..k + 1][..k] == row[..k];
      assert col[..k + 1][..k] == col[..k];
      assert Dot(row[..k + 1], col[..k + 1]) == Dot(row[..k], col[..k]) + row[k] * col[k];
      out.data[c] := out.data[c] + lhs.data[k + j * xl] * rhs.data[i + k * xr];
    }
    assert row[..xl] == row && col[..xl] == col;
  }

  /** The middle loop of the multiplication: fills row j of the zeroed output,
      the xr elements from `rowStart = j*xr` on, with the product's values. */
  method FillRow(lhs: Tensor, rhs: Tensor, out: Tensor, j: nat, ghost m: seq<int>, ghost rowStart: nat)
    requires lhs.Valid() && rhs.Valid() && out.Valid() && MatmulShapeOk(lhs.shape, rhs.shape)
    requires out.shape == [rhs.shape[0], lhs.shape[1]] && j < lhs.shape[1]
    requires out.data != lhs.data && out.data != rhs.data
    requires m == MatMul(lhs.data[..], rhs.data[..], lhs.shape[0], lhs.shape[1], rhs.shape[0])
    requires rowStart == j * rhs.shape[0]
    requires forall c :: rowStart <= c < out.length ==> out.data[c] == 0
    modifies out.data
    ensures rowStart + rhs.shape[0] <= out.length
    ensures forall c :: rowStart <= c < rowStart + rhs.shape[0] ==> out.data[c] == m[c]
    ensures forall c :: 0 <= c < out.length && !(rowStart <= c < rowStart + rhs.shape[0]) ==> out.data[c] == old(out.data[c])
  {
    var xl, yl, xr := lhs.shape[0], lhs.shape[1], rhs.shape[0];
    MulLeq(j + 1, yl, xr);
    assert (j + 1) * xr == rowStart + xr;
    for i := 0 to xr
      invariant forall c :: rowStart <= c < rowStart + i ==> out.data[c] == m[c]
      invariant forall c :: 0 <= c < out.length && !(rowStart <= c < rowStart + i) ==> out.data[c] == old(out.data[c])
    {
      MatMulAt(lhs.data[..], rhs.data[..], xl, yl, xr, i, j);
      AccumulateEntry(lhs, rhs, out, i, j);
    }
  }

  /** Multiplies lhs (xl-by-yl) by rhs (xr-by-xl) into a fresh xr-by-yl tensor;
      every read and write index stays inside its buffer. */
  method Matmul(lhs: Tensor, rhs: Tensor) returns (out: Tensor)
    requires lhs.Valid() && rhs.Valid() && MatmulShapeOk(lhs.shape, rhs.shape)
    ensures out.Valid() && out.ndim == 2 && out.shape == [rhs.shape[0], lhs.shape[1]]
    ensures fresh(out.data)
    ensures out.data[..] == MatMul(lhs.data[..], rhs.data[..], lhs.shape[0], lhs.shape[1], rhs.shape[0])
  {
    var xl, yl, xr := lhs.shape[0], lhs.shape[1], rhs.shape[0];
    out := Create2D(xr, yl);
    InitZeros(out);
    ghost var m := MatMul(lhs.data[..], rhs.data[..], xl, yl, xr);
    ghost var rowStart := 0;
    for j := 0 to yl
      invariant rowStart == j * xr
      invariant forall c :: 0 <= c < rowStart ==> out.data[c] == m[c]
      invariant forall c :: rowStart <= c < out.length ==> out.data[c] == 0
    {
      FillRow(lhs, rhs, out, j, m, rowStart);
      rowStart := rowStart + xr;
    }
    assert rowStart == out.length;
    assert out.data[..] == m;
  }

  // ---------------------------------------------------------------------
  // Reshape.

  /** Replaces the extents, dimension count and length. The buffer is kept when
      the element count is unchanged; otherwise it is reallocated to the new
      count, keeping the first min(old, new) elements. */
  method Reshape(t: Tensor, shape: seq<nat>) returns (r: Tensor)
    requires t.Valid()
    ensures r.Valid() && r.ndim == |shape| && r.shape == shape && r.length == Product(shape)
    ensures r.length == t.length ==> r.data == t.data
    ensures r.length != t.length ==> fresh(r.data)
    ensures forall k :: 0 <= k < t.length && k < r.length ==> r.data[k] == t.data[k]
  {
    var newLength := 1;
    for i := 0 to |shape|
      invariant newLength * Product(shape[i..]) == Product(shape)
    {
      assert shape[i..][1..] == shape[i + 1..];
      newLength := newLength * shape[i];
    }
    assert shape[|shape|..] == [];
    var data := t.data;
    if newLength != t.length {
      data := new int[newLength];
      var keep := if t.length < newLength then t.length else newLength;
      for i := 0 to keep
        invariant forall k :: 0 <= k < i ==> data[k] == t.data[k]
      {
        data[i] := t.data[i];
      }
    }
    r := Tensor(|shape|, newLength, shape, data);
  }
}
