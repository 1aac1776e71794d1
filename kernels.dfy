/** Element-wise kernels: in-place addition and multiplication of `lhs` by
    `rhs`, their copying variants and the operators built on them. Each kernel
    demands that the same-shape check holds. */
module Kernels {
  import opened Shapes
  import opened Tensors

  /** Element-wise sum of two buffers of equal length. */
  function ElementSum(a: seq<int>, b: seq<int>): (r: seq<int>)
    requires |a| == |b|
    ensures |r| == |a|
  {
    seq(|a|, i requires 0 <= i < |a| => a[i] + b[i])
  }

  /** Element-wise product of two buffers of equal length. */
  function ElementProduct(a: seq<int>, b: seq<int>): (r: seq<int>)
    requires |a| == |b|
    ensures |r| == |a|
  {
    seq(|a|, i requires 0 <= i < |a| => a[i] * b[i])
  }

  /** With exact arithmetic `a + b` and `b + a` agree element by element. */
  lemma ElementSumCommutes(a: seq<int>, b: seq<int>)
    requires |a| == |b|
    ensures ElementSum(a, b) == ElementSum(b, a)
  {
    assert forall i :: 0 <= i < |a| ==> ElementSum(a, b)[i] == ElementSum(b, a)[i];
  }

  lemma ElementProductCommutes(a: seq<int>, b: seq<int>)
    requires |a| == |b|
    ensures ElementProduct(a, b) == ElementProduct(b, a)
  {
    assert forall i :: 0 <= i < |a| ==> ElementProduct(a, b)[i] == ElementProduct(b, a)[i];
  }

  /** Adding a buffer of zeros changes nothing. */
  lemma ElementSumZero(a: seq<int>, z: seq<int>)
    requires |a| == |z| && forall i :: 0 <= i < |z| ==> z[i] == 0
    ensures ElementSum(a, z) == a
  {
    assert forall i :: 0 <= i < |a| ==> ElementSum(a, z)[i] == a[i];
  }

  /** `lhs.data[i] += rhs.data[i]` for every i below `lhs.length`. When both
      tensors share one buffer every element is doubled; otherwise `rhs` is
      left alone. */
  method Add(lhs: Tensor, rhs: Tensor)
    requires lhs.Valid() && rhs.Valid()
    requires SameShape(lhs.length, lhs.shape, rhs.length, rhs.shape)
    modifies lhs.data
    ensures lhs.data[..] == ElementSum(old(lhs.data[..]), old(rhs.data[..]))
    ensures lhs.data != rhs.data ==> rhs.data[..] == old(rhs.data[..])
  {
    for i := 0 to lhs.length
      invariant forall k :: 0 <= k < i ==> lhs.data[k] == old(lhs.data[k]) + old(rhs.data[k])
      invariant forall k :: i <= k < lhs.length ==> lhs.data[k] == old(lhs.data[k])
    {
      lhs.data[i] := lhs.data[i] + rhs.data[i];
    }
  }

  /** `lhs.data[i] *= rhs.data[i]` for every i below `lhs.length`. */
  method Mul(lhs: Tensor, rhs: Tensor)
    requires lhs.Valid() && rhs.Valid()
    requires SameShape(lhs.length, lhs.shape, rhs.length, rhs.shape)
    modifies lhs.data
    ensures lhs.data[..] == ElementProduct(old(lhs.data[..]), old(rhs.data[..]))
    ensures lhs.data != rhs.data ==> rhs.data[..] == old(rhs.data[..])
  {
    for i := 0 to lhs.length
      invariant forall k :: 0 <= k < i ==> lhs.data[k] == old(lhs.data[k]) * old(rhs.data[k])
      invariant forall k :: i <= k < lhs.length ==> lhs.data[k] == old(lhs.data[k])
    {
      lhs.data[i] := lhs.data[i] * rhs.data[i];
    }
  }

  /** The sum in a fresh tensor with the shape of `lhs`; both operands are unchanged. */
  method CopyAdd(lhs: Tensor, rhs: Tensor) returns (out: Tensor)
    requires lhs.Valid() && rhs.Valid()
    requires SameShape(lhs.length, lhs.shape, rhs.length, rhs.shape)
    ensures out.Valid() && out.ndim == lhs.ndim && out.shape == lhs.shape && out.length == lhs.length
    ensures fresh(out.data)
    ensures out.data[..] == ElementSum(lhs.data[..], rhs.data[..])
  {
    out := Copy(lhs);
    Add(out, rhs);
  }

  /** The product in a fresh tensor with the shape of `lhs`; both operands are unchanged. */
  method CopyMul(lhs: Tensor, rhs: Tensor) returns (out: Tensor)
    requires lhs.Valid() && rhs.Valid()
    requires SameShape(lhs.length, lhs.shape, rhs.length, rhs.shape)
    ensures out.Valid() && out.ndim == lhs.ndim && out.shape == lhs.shape && out.length == lhs.length
    ensures fresh(out.data)
    ensures out.data[..] == ElementProduct(lhs.data[..], rhs.data[..])
  {
    out := Copy(lhs);
    Mul(out, rhs);
  }

  /** `lhs + rhs`. */
  method Plus(lhs: Tensor, rhs: Tensor) returns (out: Tensor)
    requires lhs.Valid() && rhs.Valid()
    requires SameShape(lhs.length, lhs.shape, rhs.length, rhs.shape)
    ensures out.Valid() && out.shape == lhs.shape && fresh(out.data)
    ensures out.data[..] == ElementSum(lhs.data[..], rhs.data[..])
  {
    out := CopyAdd(lhs, rhs);
  }

  /** `lhs * rhs`. */
  method Times(lhs: Tensor, rhs: Tensor) returns (out: Tensor)
    requires lhs.Valid() && rhs.Valid()
    requires SameShape(lhs.length, lhs.shape, rhs.length, rhs.shape)
    ensures out.Valid() && out.shape == lhs.shape && fresh(out.data)
    ensures out.data[..] == ElementProduct(lhs.data[..], rhs.data[..])
  {
    out := CopyMul(lhs, rhs);
  }

  /** `a + b` and `b + a` are both allowed and hold the same elements; the
      operands are unchanged. */
  method PlusCommutes(a: Tensor, b: Tensor) returns (ab: Tensor, ba: Tensor)
    requires a.Valid() && b.Valid()
    requires SameShape(a.length, a.shape, b.length, b.shape)
    ensures SameShape(b.length, b.shape, a.length, a.shape)
    ensures ab.Valid() && ab.shape == a.shape && ba.Valid() && ba.shape == b.shape
    ensures fresh(ab.data) && fresh(ba.data)
    ensures ab.data[..] == ElementSum(a.data[..], b.data[..])
    ensures ba.data[..] == ElementSum(b.data[..], a.data[..])
    ensures ab.data[..] == ba.data[..]
  {
    ab := Plus(a, b);
    SameShapeSymmetric(a.length, a.shape, b.length, b.shape);
    ba := Plus(b, a);
    ElementSumCommutes(a.data[..], b.data[..]);
  }
}
