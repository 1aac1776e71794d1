/** Shape bookkeeping of a tensor and the two shape checks made before the
    arithmetic kernels run: the same-shape check (element-wise operations) and
    the matmul check. A shape is the list of extents; `ndim` is its length. */
module Shapes {

  /** Number of elements described by a list of extents (1 for no extents). */
  function Product(s: seq<nat>): (p: nat)
    ensures |s| == 1 ==> p == s[0]
    ensures |s| == 2 ==> p == s[0] * s[1]
  {
    if |s| == 0 then 1 else s[0] * Product(s[1..])
  }

  lemma {:induction false} ProductAppend(a: seq<nat>, b: seq<nat>)
    ensures Product(a + b) == Product(a) * Product(b)
  {
    if |a| == 0 {
      assert a + b == b;
    } else {
      assert (a + b)[1..] == a[1..] + b;
      ProductAppend(a[1..], b);
    }
  }

  /** Every extent is at least 1 (a tensor with no zero-sized dimension). */
  predicate Positive(s: seq<nat>)
  {
    forall k :: 0 <= k < |s| ==> s[k] >= 1
  }

  /** The extents of at least 2, in order: what the same-shape walk compares. */
  function Squeeze(s: seq<nat>): (r: seq<nat>)
    ensures forall k :: 0 <= k < |r| ==> r[k] >= 2
    ensures |r| <= |s|
  {
    if |s| == 0 then []
    else if s[0] < 2 then Squeeze(s[1..])
    else [s[0]] + Squeeze(s[1..])
  }

  /** Number of extents different from 1 (the `ldim` / `rdim` counters). */
  function NonUnitCount(s: seq<nat>): nat
  {
    if |s| == 0 then 0
    else (if s[0] != 1 then 1 else 0) + NonUnitCount(s[1..])
  }

  /** The two-cursor walk over both shapes, with the loop bounds `i < ndim`
      and `j < ndim`: an extent below 2 on either side is skipped, and the walk
      fails at the first pair of remaining extents that differ. */
  function Walk(ls: seq<nat>, rs: seq<nat>, i: nat, j: nat): bool
    requires i <= |ls| && j <= |rs|
    decreases |ls| - i + |rs| - j
  {
    if i == |ls| || j == |rs| then true
    else if ls[i] < 2 then Walk(ls, rs, i + 1, j)
    else if rs[j] < 2 then Walk(ls, rs, i, j + 1)
    else if ls[i] != rs[j] then false
    else Walk(ls, rs, i + 1, j + 1)
  }

  /** The same-shape check: equal element counts; when the dimension counts
      differ, equal numbers of extents other than 1; and a walk without mismatch. */
  predicate SameShape(lhsLength: nat, lhsShape: seq<nat>, rhsLength: nat, rhsShape: seq<nat>)
  {
    && lhsLength == rhsLength
    && (|lhsShape| != |rhsShape| ==> NonUnitCount(lhsShape) == NonUnitCount(rhsShape))
    && Walk(lhsShape, rhsShape, 0, 0)
  }

  /** The matmul check: two 2-D operands whose inner dimensions agree
      (the row length of lhs equals the row count of rhs). */
  predicate MatmulShapeOk(lhsShape: seq<nat>, rhsShape: seq<nat>)
  {
    |lhsShape| == 2 && |rhsShape| == 2 && lhsShape[0] == rhsShape[1]
  }

  /** The same-shape check as the loops that perform it; `ok` is false exactly
      where the source stops on a failed assertion. */
  method CheckSameShape(lhsLength: nat, lhsShape: seq<nat>, rhsLength: nat, rhsShape: seq<nat>)
    returns (ok: bool)
    ensures ok == SameShape(lhsLength, lhsShape, rhsLength, rhsShape)
    ensures lhsLength != rhsLength ==> !ok
  {
    if lhsLength != rhsLength {
      return false;
    }
    if |lhsShape| != |rhsShape| {
      var ldim := 0;
      for i := 0 to |lhsShape|
        invariant ldim + NonUnitCount(lhsShape[i..]) == NonUnitCount(lhsShape)
      {
        assert lhsShape[i..][1..] == lhsShape[i + 1..];
        if lhsShape[i] != 1 {
          ldim := ldim + 1;
        }
      }
      var rdim := 0;
      for i := 0 to |rhsShape|
        invariant rdim + NonUnitCount(rhsShape[i..]) == NonUnitCount(rhsShape)
      {
        assert rhsShape[i..][1..] == rhsShape[i + 1..];
        if rhsShape[i] != 1 {
          rdim := rdim + 1;
        }
      }
      if ldim != rdim {
        return false;
      }
    }
    var i, j := 0, 0;
    while i < |lhsShape| && j < |rhsShape|
      invariant i <= |lhsShape| && j <= |rhsShape|
      invariant Walk(lhsShape, rhsShape, i, j) == Walk(lhsShape, rhsShape, 0, 0)
      decreases |lhsShape| - i + |rhsShape| - j
    {
      if lhsShape[i] < 2 {
        i := i + 1;
      } else if rhsShape[j] < 2 {
        j := j + 1;
      } else if lhsShape[i] != rhsShape[j] {
        return false;
      } else {
        i, j := i + 1, j + 1;
      }
    }
    return true;
  }

  /** One sequence is a prefix of the other. */
  predicate Comparable(a: seq<nat>, b: seq<nat>)
  {
    a <= b || b <= a
  }

  lemma ConsComparable(x: nat, a: seq<nat>, y: nat, b: seq<nat>)
    ensures Comparable([x] + a, [y] + b) <==> x == y && Comparable(a, b)
  {
    if Comparable([x] + a, [y] + b) {
      if [x] + a <= [y] + b {
        assert ([y] + b)[0] == y;
        assert a == ([y] + b)[1..|a| + 1];
      } else {
        assert ([x] + a)[0] == x;
        assert b == ([x] + a)[1..|b| + 1];
      }
    }
    if x == y && Comparable(a, b) {
      if a <= b {
        assert [x] + a == ([y] + b)[..|a| + 1];
      } else {
        assert [y] + b == ([x] + a)[..|b| + 1];
      }
    }
  }

  lemma SqueezeFrom(s: seq<nat>, i: nat)
    requires i < |s|
    ensures Squeeze(s[i..]) == if s[i] < 2 then Squeeze(s[i + 1..]) else [s[i]] + Squeeze(s[i + 1..])
  {
    assert s[i..][1..] == s[i + 1..];
  }

  /** The walk succeeds from (i, j) exactly when the squeezed remainders of the
      two shapes are prefix-comparable: the walk stops as soon as one side runs
      out, without looking at the other side's remaining extents. */
  lemma {:induction false} WalkComparable(ls: seq<nat>, rs: seq<nat>, i: nat, j: nat)
    requires i <= |ls| && j <= |rs|
    ensures Walk(ls, rs, i, j) <==> Comparable(Squeeze(ls[i..]), Squeeze(rs[j..]))
    decreases |ls| - i + |rs| - j
  {
    if i == |ls| {
      assert ls[i..] == [];
    } else if j == |rs| {
      assert rs[j..] == [];
    } else if ls[i] < 2 {
      SqueezeFrom(ls, i);
      WalkComparable(ls, rs, i + 1, j);
    } else if rs[j] < 2 {
      SqueezeFrom(rs, j);
      WalkComparable(ls, rs, i, j + 1);
    } else {
      SqueezeFrom(ls, i);
      SqueezeFrom(rs, j);
      ConsComparable(ls[i], Squeeze(ls[i + 1..]), rs[j], Squeeze(rs[j + 1..]));
      if ls[i] == rs[j] {
        WalkComparable(ls, rs, i + 1, j + 1);
      }
    }
  }

  lemma {:induction false} SqueezeProduct(s: seq<nat>)
    requires Positive(s)
    ensures Product(Squeeze(s)) == Product(s)
  {
    if |s| > 0 {
      assert Positive(s[1..]) by {
        forall k | 0 <= k < |s[1..]| ensures s[1..][k] >= 1 {
          assert s[1..][k] == s[k + 1];
        }
      }
      SqueezeProduct(s[1..]);
      if s[0] >= 2 {
        ProductAppend([s[0]], Squeeze(s[1..]));
        assert [s[0]][1..] == [];
      }
    }
  }

  lemma {:induction false} SqueezeCount(s: seq<nat>)
    requires Positive(s)
    ensures NonUnitCount(s) == |Squeeze(s)|
  {
    if |s| > 0 {
      assert Positive(s[1..]) by {
        forall k | 0 <= k < |s[1..]| ensures s[1..][k] >= 1 {
          assert s[1..][k] == s[k + 1];
        }
      }
      SqueezeCount(s[1..]);
    }
  }

  /** A product of extents of at least 2 is at least 2 when there is one. */
  lemma {:induction false} ProductAtLeast(s: seq<nat>)
    requires forall k :: 0 <= k < |s| ==> s[k] >= 2
    ensures Product(s) >= 1
    ensures |s| > 0 ==> Product(s) >= 2
  {
    if |s| > 0 {
      assert forall k :: 0 <= k < |s[1..]| ==> s[1..][k] >= 2 by {
        forall k | 0 <= k < |s[1..]| ensures s[1..][k] >= 2 {
          assert s[1..][k] == s[k + 1];
        }
      }
      ProductAtLeast(s[1..]);
    }
  }

  /** A squeezed shape that is a proper prefix of another describes fewer elements. */
  lemma ProperPrefixProduct(a: seq<nat>, b: seq<nat>)
    requires forall k :: 0 <= k < |b| ==> b[k] >= 2
    requires a <= b && a != b
    ensures Product(a) < Product(b)
  {
    var rest := b[|a|..];
    assert b == a + rest;
    ProductAppend(a, rest);
    assert forall k :: 0 <= k < |rest| ==> rest[k] >= 2 by {
      forall k | 0 <= k < |rest| ensures rest[k] >= 2 {
        assert rest[k] == b[|a| + k];
      }
    }
    assert forall k :: 0 <= k < |a| ==> a[k] >= 2 by {
      forall k | 0 <= k < |a| ensures a[k] >= 2 {
        assert a[k] == b[k];
      }
    }
    ProductAtLeast(a);
    ProductAtLeast(rest);
    var p, q := Product(a), Product(rest);
    assert Product(b) == p * q;
    assert p * q >= p * 2 by {
      MulAtLeast(p, q, 2);
    }
  }

  lemma MulAtLeast(p: nat, q: nat, r: nat)
    requires q >= r
    ensures p * q >= p * r
  {
  }

  /** For tensors without zero-sized dimensions (length = product of extents),
      the same-shape check passes exactly when the extents of at least 2 agree,
      in order: `[2, 1]` matches `[2]`, `[1, 3, 1]` matches `[3]`. */
  lemma SameShapeIffSqueezed(ls: seq<nat>, rs: seq<nat>)
    requires Positive(ls) && Positive(rs)
    ensures SameShape(Product(ls), ls, Product(rs), rs) <==> Squeeze(ls) == Squeeze(rs)
  {
    assert ls[0..] == ls;
    assert rs[0..] == rs;
    WalkComparable(ls, rs, 0, 0);
    SqueezeProduct(ls);
    SqueezeProduct(rs);
    SqueezeCount(ls);
    SqueezeCount(rs);
    var a, b := Squeeze(ls), Squeeze(rs);
    if a != b && Comparable(a, b) {
      if a <= b {
        ProperPrefixProduct(a, b);
      } else {
        ProperPrefixProduct(b, a);
      }
    }
  }

  /** The check is symmetric, so `b + a` is allowed whenever `a + b` is. */
  lemma SameShapeSymmetric(lhsLength: nat, ls: seq<nat>, rhsLength: nat, rs: seq<nat>)
    requires SameShape(lhsLength, ls, rhsLength, rs)
    ensures SameShape(rhsLength, rs, lhsLength, ls)
  {
    assert ls[0..] == ls;
    assert rs[0..] == rs;
    WalkComparable(ls, rs, 0, 0);
    WalkComparable(rs, ls, 0, 0);
  }

  lemma SameShapeExamples()
    ensures SameShape(2, [2, 1], 2, [2])
    ensures SameShape(3, [1, 3, 1], 3, [3])
    ensures !SameShape(6, [2, 3], 6, [3, 2])
  {
    SameShapeIffSqueezed([2, 1], [2]);
    SameShapeIffSqueezed([1, 3, 1], [3]);
    SameShapeIffSqueezed([2, 3], [3, 2]);
    assert [2, 1][1..] == [1];
    assert [1, 3, 1][1..] == [3, 1];
    assert [3, 1][1..] == [1];
    assert [2, 3][1..] == [3];
    assert [3, 2][1..] == [2];
  }

  // ---------------------------------------------------------------------
  // The walk as written: the loop runs while `i <= ndim && j <= ndim`.

  /** What the walk with bounds `i <= lhs.ndim && j <= rhs.ndim` does:
      `OverRead` is the first read of `shape[ndim]`, one past the extents;
      what the loop does after it depends on memory outside the shape. */
  datatype WalkOutcome = Pass | Mismatch | OverRead

  function WalkAsWritten(ls: seq<nat>, rs: seq<nat>, i: nat, j: nat): WalkOutcome
    requires i <= |ls| + 1 && j <= |rs| + 1
    decreases |ls| + 1 - i + |rs| + 1 - j
  {
    if !(i <= |ls| && j <= |rs|) then Pass
    else if i == |ls| then OverRead
    else if ls[i] < 2 then WalkAsWritten(ls, rs, i + 1, j)
    else if j == |rs| then OverRead
    else if rs[j] < 2 then WalkAsWritten(ls, rs, i, j + 1)
    else if ls[i] != rs[j] then Mismatch
    else WalkAsWritten(ls, rs, i + 1, j + 1)
  }

  /** The walk as written never finishes inside the shape arrays: every call
      that the corrected walk accepts reads one element past a shape array,
      and every other call reports a mismatch first. */
  lemma {:induction false} AsWrittenOverReads(ls: seq<nat>, rs: seq<nat>, i: nat, j: nat)
    requires i <= |ls| && j <= |rs|
    ensures WalkAsWritten(ls, rs, i, j) == if Walk(ls, rs, i, j) then OverRead else Mismatch
    decreases |ls| - i + |rs| - j
  {
    if i == |ls| {
    } else if ls[i] < 2 {
      AsWrittenOverReads(ls, rs, i + 1, j);
    } else if j == |rs| {
    } else if rs[j] < 2 {
      AsWrittenOverReads(ls, rs, i, j + 1);
    } else if ls[i] == rs[j] {
      AsWrittenOverReads(ls, rs, i + 1, j + 1);
    }
  }

  /** The smallest matching pair, `[2]` against `[2]`, already reads `lhs.shape[1]`. */
  lemma AsWrittenExample()
    ensures WalkAsWritten([2], [2], 0, 0) == OverRead
    ensures Walk([2], [2], 0, 0)
  {
    AsWrittenOverReads([2], [2], 0, 0);
    assert Walk([2], [2], 1, 1);
  }
}
