/** `shared_off`: the linear offset of an index tuple in a shared-memory tile
    laid out with dimension `order[0]` contiguous, `order[1]` next, and so on. */
module SharedOffset {
  import opened MixedRadix
  import opened Permutation

  /** The stride of dimension `order[j]` is the product of the extents of
      `order[0..j)`. */
  function Stride(shapes: seq<int>, order: seq<int>, j: nat): int
    requires IsPermutation(order, |shapes|) && j < |shapes|
  {
    Weight(Permute(shapes, order), j)
  }

  /** Offset of `idx` read as a mixed-radix number: digit `j` is the
      coordinate of dimension `order[j]`, radix `j` the extent of that
      dimension. */
  function Offset(shapes: seq<int>, order: seq<int>, idx: seq<int>): int
    requires IsPermutation(order, |shapes|) && |idx| == |shapes|
  {
    Recompose(Permute(idx, order), Permute(shapes, order))
  }

  predicate InBounds(shapes: seq<int>, idx: seq<int>) {
    |idx| == |shapes| && forall d :: 0 <= d < |shapes| ==> 0 <= idx[d] < shapes[d]
  }

  /** The strides loop of `shared_off`: `order[0]` has stride 1 and each
      later dimension in the order has the previous stride times the previous
      extent. */
  method Strides(shapes: seq<int>, order: seq<int>) returns (strides: seq<int>)
    requires |shapes| >= 1 && IsPermutation(order, |shapes|)
    ensures |strides| == |shapes|
    ensures forall j :: 0 <= j < |shapes| ==> strides[order[j]] == Stride(shapes, order, j)
  {
    var n := |shapes|;
    strides := seq(n, _ => 0);
    strides := strides[order[0] := 1];
    var i := 1;
    while i < n
      invariant 1 <= i <= n && |strides| == n
      invariant forall j :: 0 <= j < i ==> strides[order[j]] == Stride(shapes, order, j)
    {
      var next := strides[order[i - 1]] * shapes[order[i - 1]];
      assert next == Stride(shapes, order, i);
      strides := strides[order[i] := next];
      i := i + 1;
    }
  }

  /** The accumulation loop: the sum over all dimensions of coordinate times
      stride, in natural dimension order. */
  method Dot(idx: seq<int>, strides: seq<int>) returns (result: int)
    requires |strides| == |idx|
    ensures result == Sum(seq(|idx|, d requires 0 <= d < |idx| => idx[d] * strides[d]))
  {
    ghost var terms := seq(|idx|, d requires 0 <= d < |idx| => idx[d] * strides[d]);
    result := 0;
    var i := 0;
    while i < |idx|
      invariant 0 <= i <= |idx|
      invariant result == Sum(terms[..i])
    {
      assert terms[..i + 1][..i] == terms[..i];
      result := result + idx[i] * strides[i];
      i := i + 1;
    }
    assert terms[..|idx|] == terms;
  }

  /** `shared_off`: the two loops together compute the mixed-radix offset.
      The source's 32-bit multiplications and additions are taken as exact. */
  method SharedOff(shapes: seq<int>, order: seq<int>, idx: seq<int>) returns (result: int)
    requires |shapes| >= 1 && IsPermutation(order, |shapes|) && |idx| == |shapes|
    ensures result == Offset(shapes, order, idx)
  {
    var strides := Strides(shapes, order);
    result := Dot(idx, strides);
    DotIsOffset(shapes, order, idx, strides);
  }

  lemma DotIsOffset(shapes: seq<int>, order: seq<int>, idx: seq<int>, strides: seq<int>)
    requires IsPermutation(order, |shapes|) && |idx| == |shapes| == |strides|
    requires forall j :: 0 <= j < |shapes| ==> strides[order[j]] == Stride(shapes, order, j)
    ensures Sum(seq(|idx|, d requires 0 <= d < |idx| => idx[d] * strides[d])) == Offset(shapes, order, idx)
  {
    var terms := seq(|idx|, d requires 0 <= d < |idx| => idx[d] * strides[d]);
    var digits, radix := Permute(idx, order), Permute(shapes, order);
    forall i | 0 <= i < |order|
      ensures terms[order[i]] == digits[i] * Weight(radix, i)
    {
      TermAt(shapes, order, idx, strides, i);
    }
    WeightedTerms(terms, digits, radix, order);
  }

  /** Terms that are the weighted digits, listed in dimension order, sum
      to the recomposed number. */
  lemma WeightedTerms(terms: seq<int>, digits: seq<int>, radix: seq<int>, order: seq<int>)
    requires IsPermutation(order, |terms|) && |order| == |digits| == |radix|
    requires forall i :: 0 <= i < |order| ==> terms[order[i]] == digits[i] * Weight(radix, i)
    ensures Sum(terms) == Recompose(digits, radix)
  {
    SumPermuted(terms, order);
    TermsInOrder(terms, digits, radix, order, |order|);
    assert order[..|order|] == order;
  }

  /** The term of the dimension at order position `i` is its digit times
      its weight. */
  lemma TermAt(shapes: seq<int>, order: seq<int>, idx: seq<int>, strides: seq<int>, i: nat)
    requires IsPermutation(order, |shapes|) && |idx| == |shapes| == |strides| && i < |shapes|
    requires strides[order[i]] == Stride(shapes, order, i)
    ensures idx[order[i]] * strides[order[i]] == Permute(idx, order)[i] * Weight(Permute(shapes, order), i)
  {
  }

  /** Summing the terms in dimension order is the weighted digit sum. */
  lemma {:induction false} TermsInOrder(terms: seq<int>, digits: seq<int>, radix: seq<int>, order: seq<int>, j: nat)
    requires Indexes(order, |terms|) && j <= |order| == |digits| == |radix|
    requires forall i :: 0 <= i < |order| ==> terms[order[i]] == digits[i] * Weight(radix, i)
    ensures Sum(Permute(terms, order[..j])) == WeightedSum(digits, radix, j)
  {
    if j > 0 {
      TermsInOrder(terms, digits, radix, order, j - 1);
      assert Permute(terms, order[..j])[..j - 1] == Permute(terms, order[..j - 1]);
    }
  }

  predicate AllZero(idx: seq<int>) {
    forall d :: 0 <= d < |idx| ==> idx[d] == 0
  }

  /** The all-zero index is at offset 0. */
  lemma ZeroIndexAtZero(shapes: seq<int>, order: seq<int>, idx: seq<int>)
    requires IsPermutation(order, |shapes|) && |idx| == |shapes| && AllZero(idx)
    ensures Offset(shapes, order, idx) == 0
  {
    ZeroSum(Permute(idx, order), Permute(shapes, order), |shapes|);
  }

  lemma {:induction false} ZeroSum(d: seq<int>, r: seq<int>, j: nat)
    requires AllZero(d) && j <= |d| == |r|
    ensures WeightedSum(d, r, j) == 0
  {
    if j > 0 {
      ZeroSum(d, r, j - 1);
    }
  }

  lemma PermuteInBounds(shapes: seq<int>, order: seq<int>, idx: seq<int>)
    requires IsPermutation(order, |shapes|) && InBounds(shapes, idx)
    ensures Positive(Permute(shapes, order))
    ensures InRange(Permute(idx, order), Permute(shapes, order))
  {
  }

  /** In-bounds indices map below the product of the extents, and distinct
      in-bounds indices map to distinct offsets. */
  lemma OffsetBijective(shapes: seq<int>, order: seq<int>, idx: seq<int>, idx': seq<int>)
    requires IsPermutation(order, |shapes|)
    requires InBounds(shapes, idx) && InBounds(shapes, idx')
    ensures 0 <= Offset(shapes, order, idx) < Product(shapes)
    ensures Offset(shapes, order, idx) == Offset(shapes, order, idx') ==> idx == idx'
  {
    var radix := Permute(shapes, order);
    PermuteInBounds(shapes, order, idx);
    PermuteInBounds(shapes, order, idx');
    WeightedSumBound(Permute(idx, order), radix, |radix|);
    WeightIsProduct(radix, |radix|);
    assert radix[..|radix|] == radix;
    ProductPermuted(shapes, order);
    if Offset(shapes, order, idx) == Offset(shapes, order, idx') {
      RecomposeInjective(Permute(idx, order), Permute(idx', order), radix);
      forall d | 0 <= d < |shapes|
        ensures idx[d] == idx'[d]
      {
        assert d in order;
        var j :| 0 <= j < |order| && order[j] == d;
        assert Permute(idx, order)[j] == Permute(idx', order)[j];
      }
    }
  }

}
