/** Activation functions applied to a tensor in place. */
module Functional {
  import opened Tensors

  /** The rectifier `max(0, x)`. */
  function Relu(x: int): int
  {
    if x < 0 then 0 else x
  }

  /** The rectifier applied to every element of a buffer. */
  function ReluAll(s: seq<int>): (r: seq<int>)
    ensures |r| == |s|
  {
    seq(|s|, i requires 0 <= i < |s| => Relu(s[i]))
  }

  /** Every rectified element is non-negative; non-negative elements are kept
      and negative ones become 0. */
  lemma ReluAllAt(s: seq<int>, i: nat)
    requires i < |s|
    ensures ReluAll(s)[i] >= 0
    ensures s[i] >= 0 ==> ReluAll(s)[i] == s[i]
    ensures s[i] < 0 ==> ReluAll(s)[i] == 0
  {
  }

  /** Rectifying twice gives the same buffer as rectifying once. */
  lemma ReluAllIdempotent(s: seq<int>)
    ensures ReluAll(ReluAll(s)) == ReluAll(s)
  {
    assert forall i :: 0 <= i < |s| ==> ReluAll(ReluAll(s))[i] == ReluAll(s)[i];
  }

  lemma ReluExample()
    ensures ReluAll([-1, 0, 2]) == [0, 0, 2]
  {
    assert ReluAll([-1, 0, 2])[0] == 0;
  }

  /** Overwrites every element of the buffer with its rectified value; the
      shape and length are untouched. */
  method ReluInPlace(t: Tensor)
    requires t.Valid()
    modifies t.data
    ensures t.data[..] == ReluAll(old(t.data[..]))
  {
    for i := 0 to t.length
      invariant forall k :: 0 <= k < i ==> t.data[k] == Relu(old(t.data[k]))
      invariant forall k :: i <= k < t.length ==> t.data[k] == old(t.data[k])
    {
      t.data[i] := if 0 < t.data[i] then t.data[i] else 0;
    }
  }
}
