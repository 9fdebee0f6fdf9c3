/** `init_idx`: the ordered list of index tuples a thread materializes for a
    block value, the Cartesian product of one coordinate list per dimension
    with dimension `ord[0]` varying fastest. */
module IndexMaterializer {
  import opened MixedRadix
  import opened Permutation
  import opened Ir

  /** Position of `x` in `s`. */
  function IndexOf(s: seq<int>, x: int): (i: nat)
    requires x in s
    ensures i < |s| && s[i] == x
    ensures forall j :: 0 <= j < i ==> s[j] != x
  {
    if s[0] == x then 0 else 1 + IndexOf(s[1..], x)
  }

  /** The list lengths taken in loop order: `sizes[j]` is the length of
      the list of dimension `ord[j]`. */
  function Sizes(lists: seq<seq<int>>, ord: seq<int>): (sizes: seq<int>)
    requires Indexes(ord, |lists|)
    ensures |sizes| == |ord|
    ensures forall j :: 0 <= j < |ord| ==> sizes[j] == |lists[ord[j]]|
  {
    seq(|ord|, j requires 0 <= j < |ord| => |lists[ord[j]]|)
  }

  /** The `k`-th tuple of the product: `k` read as a mixed-radix number
      over the list lengths in loop order gives, for the `j`-th loop, the
      position in the list of dimension `ord[j]`. */
  function TupleAt(lists: seq<seq<int>>, ord: seq<int>, k: nat): (t: Index)
    requires IsPermutation(ord, |lists|) && Positive(Sizes(lists, ord))
    ensures |t| == |lists|
  {
    var sizes := Sizes(lists, ord);
    var digits := Digits(k, sizes);
    DigitsInRange(k, sizes);
    seq(|lists|, d requires 0 <= d < |lists| => lists[d][digits[IndexOf(ord, d)]])
  }

  lemma TupleAtOrd(lists: seq<seq<int>>, ord: seq<int>, k: nat, j: nat)
    requires IsPermutation(ord, |lists|) && Positive(Sizes(lists, ord)) && j < |ord|
    ensures TupleAt(lists, ord, k)[ord[j]] == lists[ord[j]][Digits(k, Sizes(lists, ord))[j]]
  {
    assert IndexOf(ord, ord[j]) == j;
  }

  /** `std::sort` of `0..rank-1` by the layout order of each dimension's
      axis. The keys of a value whose axes are exactly its layout's axes
      form a permutation, so the sorted order is unique: the dimension with
      key `j` comes `j`-th. */
  method SortDims(keys: seq<int>) returns (ord: seq<int>)
    requires IsPermutation(keys, |keys|)
    ensures IsPermutation(ord, |keys|)
    ensures forall i, j :: 0 <= i < j < |keys| ==> keys[ord[i]] < keys[ord[j]]
  {
    var n := |keys|;
    ord := seq(n, _ => 0);
    var d := 0;
    while d < n
      invariant 0 <= d <= n && |ord| == n
      invariant forall e :: 0 <= e < d ==> ord[keys[e]] == e
    {
      ord := ord[keys[d] := d];
      d := d + 1;
    }
    forall j | 0 <= j < n
      ensures 0 <= ord[j] < n && keys[ord[j]] == j
    {
      assert j in keys;
      var e :| 0 <= e < n && keys[e] == j;
      assert ord[j] == e;
    }
    forall d | 0 <= d < n
      ensures d in ord
    {
      assert ord[keys[d]] == d;
    }
  }

  /** The comparison keys of `init_idx`: the layout order entry at the
      position of each dimension's axis. */
  function DimKeys(layoutOrder: seq<int>, axisPos: seq<int>): (keys: seq<int>)
    requires IsPermutation(axisPos, |layoutOrder|)
    ensures IsPermutation(layoutOrder, |layoutOrder|) ==> IsPermutation(keys, |layoutOrder|)
  {
    if IsPermutation(layoutOrder, |layoutOrder|) then
      PermuteComposes(layoutOrder, axisPos, |layoutOrder|);
      Permute(layoutOrder, axisPos)
    else
      Permute(layoutOrder, axisPos)
  }

  /** The coordinate list of each dimension: the axis list when the extent
      exceeds 1, and the single coordinate 0 otherwise. */
  function CoordinateLists(shape: seq<int>, axisValues: seq<seq<int>>): (lists: seq<seq<int>>)
    requires |axisValues| == |shape|
    ensures |lists| == |shape|
    ensures forall d :: 0 <= d < |shape| ==> lists[d] == if shape[d] > 1 then axisValues[d] else [0]
  {
    seq(|shape|, d requires 0 <= d < |shape| => if shape[d] > 1 then axisValues[d] else [0])
  }

  /** The product is in position order. */
  predicate IsProduct(r: seq<Index>, lists: seq<seq<int>>, ord: seq<int>)
    requires IsPermutation(ord, |lists|)
  {
    && |r| == Prod(Sizes(lists, ord))
    && (Positive(Sizes(lists, ord)) ==> forall k :: 0 <= k < |r| ==> r[k] == TupleAt(lists, ord, k))
  }

  /** The rank-1 loop. */
  method Product1(lists: seq<seq<int>>, ord: seq<int>) returns (r: seq<Index>)
    requires |lists| == 1 && IsPermutation(ord, 1)
    ensures IsProduct(r, lists, ord)
  {
    var l0 := lists[ord[0]];
    r := [];
    var i0 := 0;
    while i0 < |l0|
      invariant 0 <= i0 <= |l0| && |r| == i0
      invariant forall k :: 0 <= k < |r| ==> r[k] == [l0[k]]
    {
      r := r + [[l0[i0]]];
      i0 := i0 + 1;
    }
    var sizes := Sizes(lists, ord);
    ProdSmall(sizes);
    if Positive(sizes) {
      forall k | 0 <= k < |r|
        ensures r[k] == TupleAt(lists, ord, k)
      {
        Digits1(k, sizes);
        TupleAtOrd(lists, ord, k, 0);
      }
    }
  }

  lemma ProdSmall(sizes: seq<int>)
    ensures |sizes| == 1 ==> Prod(sizes) == sizes[0]
    ensures |sizes| == 2 ==> Prod(sizes) == sizes[0] * sizes[1]
    ensures |sizes| == 3 ==> Prod(sizes) == (sizes[0] * sizes[1]) * sizes[2]
  {
    if 1 <= |sizes| <= 3 {
      assert Weight(sizes, 1) == sizes[0];
    }
    if 2 <= |sizes| <= 3 {
      assert Weight(sizes, 2) == sizes[0] * sizes[1];
    }
    if |sizes| == 3 {
      assert Weight(sizes, 3) == (sizes[0] * sizes[1]) * sizes[2];
    }
  }

  lemma Digits1(k: nat, sizes: seq<int>)
    requires |sizes| == 1 && Positive(sizes) && k < sizes[0]
    ensures Digits(k, sizes) == [k]
  {
    DivModUnique(k, sizes[0], 0, k);
  }

  function Pair(l0: seq<int>, l1: seq<int>, ord: seq<int>, i0: nat, i1: nat): Index
    requires |ord| == 2 && 0 <= ord[0] < 2 && 0 <= ord[1] < 2 && i0 < |l0| && i1 < |l1|
  {
    seq(2, _ => 0)[ord[0] := l0[i0]][ord[1] := l1[i1]]
  }

  /** The first `m` tuples the inner rank-2 loop pushes for outer position `i1`. */
  function Row2(l0: seq<int>, l1: seq<int>, ord: seq<int>, i1: nat, m: nat): (row: seq<Index>)
    requires |ord| == 2 && 0 <= ord[0] < 2 && 0 <= ord[1] < 2 && i1 < |l1| && m <= |l0|
    ensures |row| == m && forall i0 :: 0 <= i0 < m ==> row[i0] == Pair(l0, l1, ord, i0, i1)
  {
    seq(m, i0 requires 0 <= i0 < m => Pair(l0, l1, ord, i0, i1))
  }

  /** What the rank-2 nest has pushed after `m1` outer iterations. */
  function Grid2(l0: seq<int>, l1: seq<int>, ord: seq<int>, m1: nat): (g: seq<Index>)
    requires |ord| == 2 && 0 <= ord[0] < 2 && 0 <= ord[1] < 2 && m1 <= |l1|
    ensures |g| == m1 * |l0|
  {
    if m1 == 0 then [] else Grid2(l0, l1, ord, m1 - 1) + Row2(l0, l1, ord, m1 - 1, |l0|)
  }

  lemma {:induction false} Grid2At(l0: seq<int>, l1: seq<int>, ord: seq<int>, m1: nat, k: nat)
    requires |ord| == 2 && 0 <= ord[0] < 2 && 0 <= ord[1] < 2 && m1 <= |l1|
    requires |l0| > 0 && k < m1 * |l0|
    ensures k / |l0| < |l1| && Grid2(l0, l1, ord, m1)[k] == Pair(l0, l1, ord, k % |l0|, k / |l0|)
  {
    var n0 := |l0|;
    if k < (m1 - 1) * n0 {
      Grid2At(l0, l1, ord, m1 - 1, k);
    } else {
      DivModUnique(k, n0, m1 - 1, k - (m1 - 1) * n0);
    }
  }

  /** The rank-2 loop nest, `ord[1]` outer and `ord[0]` inner. */
  method Product2(lists: seq<seq<int>>, ord: seq<int>) returns (r: seq<Index>)
    requires |lists| == 2 && IsPermutation(ord, 2)
    ensures IsProduct(r, lists, ord)
  {
    var l0, l1 := lists[ord[0]], lists[ord[1]];
    var n0, n1 := |l0|, |l1|;
    r := [];
    var i1 := 0;
    while i1 < n1
      invariant 0 <= i1 <= n1 && r == Grid2(l0, l1, ord, i1)
    {
      var i0 := 0;
      while i0 < n0
        invariant 0 <= i0 <= n0 && r == Grid2(l0, l1, ord, i1) + Row2(l0, l1, ord, i1, i0)
      {
        var idx := seq(2, _ => 0);
        idx := idx[ord[0] := l0[i0]];
        idx := idx[ord[1] := l1[i1]];
        assert Row2(l0, l1, ord, i1, i0 + 1) == Row2(l0, l1, ord, i1, i0) + [idx];
        r := r + [idx];
        i0 := i0 + 1;
      }
      i1 := i1 + 1;
    }
    var sizes := Sizes(lists, ord);
    ProdSmall(sizes);
    if Positive(sizes) {
      forall k | 0 <= k < |r|
        ensures r[k] == TupleAt(lists, ord, k)
      {
        Grid2At(l0, l1, ord, n1, k);
        Digits2(k, sizes);
        TupleAtOrd(lists, ord, k, 0);
        TupleAtOrd(lists, ord, k, 1);
      }
    }
  }

  lemma Digits2(k: nat, sizes: seq<int>)
    requires |sizes| == 2 && Positive(sizes) && k < sizes[0] * sizes[1]
    ensures Digits(k, sizes) == [k % sizes[0], k / sizes[0]]
  {
    var n0, n1 := sizes[0], sizes[1];
    DivLess(k, n0, n1);
    DivNonneg(k, n0);
    DivModUnique(k / n0, n1, 0, k / n0);
    assert Weight(sizes, 1) == n0;
  }

  function Triple(l0: seq<int>, l1: seq<int>, l2: seq<int>, ord: seq<int>, i0: nat, i1: nat, i2: nat): Index
    requires |ord| == 3 && (forall j :: 0 <= j < 3 ==> 0 <= ord[j] < 3)
    requires i0 < |l0| && i1 < |l1| && i2 < |l2|
  {
    seq(3, _ => 0)[ord[0] := l0[i0]][ord[1] := l1[i1]][ord[2] := l2[i2]]
  }

  /** The first `m` tuples the innermost rank-3 loop pushes for `i1`, `i2`. */
  function Row3(l0: seq<int>, l1: seq<int>, l2: seq<int>, ord: seq<int>, i1: nat, i2: nat, m: nat): (row: seq<Index>)
    requires |ord| == 3 && (forall j :: 0 <= j < 3 ==> 0 <= ord[j] < 3)
    requires i1 < |l1| && i2 < |l2| && m <= |l0|
    ensures |row| == m && forall i0 :: 0 <= i0 < m ==> row[i0] == Triple(l0, l1, l2, ord, i0, i1, i2)
  {
    seq(m, i0 requires 0 <= i0 < m => Triple(l0, l1, l2, ord, i0, i1, i2))
  }

  /** What the middle rank-3 loop has pushed after `m1` iterations for `i2`. */
  function Plane3(l0: seq<int>, l1: seq<int>, l2: seq<int>, ord: seq<int>, i2: nat, m1: nat): (g: seq<Index>)
    requires |ord| == 3 && (forall j :: 0 <= j < 3 ==> 0 <= ord[j] < 3)
    requires i2 < |l2| && m1 <= |l1|
    ensures |g| == m1 * |l0|
  {
    if m1 == 0 then [] else Plane3(l0, l1, l2, ord, i2, m1 - 1) + Row3(l0, l1, l2, ord, m1 - 1, i2, |l0|)
  }

  /** What the rank-3 nest has pushed after `m2` outer iterations. */
  function Cube3(l0: seq<int>, l1: seq<int>, l2: seq<int>, ord: seq<int>, m2: nat): (g: seq<Index>)
    requires |ord| == 3 && (forall j :: 0 <= j < 3 ==> 0 <= ord[j] < 3)
    requires m2 <= |l2|
    ensures |g| == m2 * (|l1| * |l0|)
  {
    if m2 == 0 then [] else Cube3(l0, l1, l2, ord, m2 - 1) + Plane3(l0, l1, l2, ord, m2 - 1, |l1|)
  }

  lemma {:induction false} Plane3At(l0: seq<int>, l1: seq<int>, l2: seq<int>, ord: seq<int>, i2: nat, m1: nat, i0: nat, i1: nat)
    requires |ord| == 3 && (forall j :: 0 <= j < 3 ==> 0 <= ord[j] < 3)
    requires i2 < |l2| && m1 <= |l1| && i0 < |l0| && i1 < m1
    ensures i1 * |l0| + i0 < |Plane3(l0, l1, l2, ord, i2, m1)|
    ensures Plane3(l0, l1, l2, ord, i2, m1)[i1 * |l0| + i0] == Triple(l0, l1, l2, ord, i0, i1, i2)
  {
    var n0 := |l0|;
    MulAddBound(i1, n0, i0, m1);
    if i1 < m1 - 1 {
      Plane3At(l0, l1, l2, ord, i2, m1 - 1, i0, i1);
      MulAddBound(i1, n0, i0, m1 - 1);
    } else {
      assert i1 * n0 + i0 - (m1 - 1) * n0 == i0;
    }
  }

  /** Position `(i2 * n1 + i1) * n0 + i0` of the rank-3 nest holds the
      tuple of list positions `i0`, `i1`, `i2`. */
  lemma {:induction false} Cube3At(l0: seq<int>, l1: seq<int>, l2: seq<int>, ord: seq<int>, m2: nat, i0: nat, i1: nat, i2: nat)
    requires |ord| == 3 && (forall j :: 0 <= j < 3 ==> 0 <= ord[j] < 3)
    requires m2 <= |l2| && i0 < |l0| && i1 < |l1| && i2 < m2
    ensures (i2 * |l1| + i1) * |l0| + i0 < |Cube3(l0, l1, l2, ord, m2)|
    ensures Cube3(l0, l1, l2, ord, m2)[(i2 * |l1| + i1) * |l0| + i0] == Triple(l0, l1, l2, ord, i0, i1, i2)
  {
    var n0, n1 := |l0|, |l1|;
    var plane := n1 * n0;
    var inPlane := i1 * n0 + i0;
    Expand3(i2, n1, i1, n0, i0);
    MulAddBound(i1, n0, i0, n1);
    MulAddBound(i2, plane, inPlane, m2);
    if i2 < m2 - 1 {
      Cube3At(l0, l1, l2, ord, m2 - 1, i0, i1, i2);
      MulAddBound(i2, plane, inPlane, m2 - 1);
    } else {
      Plane3At(l0, l1, l2, ord, i2, n1, i0, i1);
    }
  }

  lemma Expand3(i2: int, n1: int, i1: int, n0: int, i0: int)
    ensures (i2 * n1 + i1) * n0 + i0 == i2 * (n1 * n0) + (i1 * n0 + i0)
  {
  }

  /** The list positions of the `k`-th tuple of a rank-3 nest. */
  lemma Coordinates3(k: nat, n0: int, n1: int, n2: int)
    requires n0 > 0 && n1 > 0 && n2 > 0 && k < (n0 * n1) * n2
    ensures 0 <= k / n0 % n1 < n1 && 0 <= k / (n0 * n1) < n2
    ensures k == ((k / (n0 * n1)) * n1 + (k / n0) % n1) * n0 + k % n0
  {
    MulPositive(n0, n1);
    DivLess(k, n0 * n1, n2);
    DivNonneg(k, n0 * n1);
    DivDiv(k, n0, n1);
    var q := k / n0;
    assert k == q * n0 + k % n0;
    assert q == (q / n1) * n1 + q % n1;
  }

  /** The rank-3 loop nest, `ord[2]` outermost and `ord[0]` innermost. */
  method Product3(lists: seq<seq<int>>, ord: seq<int>) returns (r: seq<Index>)
    requires |lists| == 3 && IsPermutation(ord, 3)
    ensures IsProduct(r, lists, ord)
  {
    var l0, l1, l2 := lists[ord[0]], lists[ord[1]], lists[ord[2]];
    var n0, n1, n2 := |l0|, |l1|, |l2|;
    r := [];
    var i2 := 0;
    while i2 < n2
      invariant 0 <= i2 <= n2 && r == Cube3(l0, l1, l2, ord, i2)
    {
      var i1 := 0;
      while i1 < n1
        invariant 0 <= i1 <= n1 && r == Cube3(l0, l1, l2, ord, i2) + Plane3(l0, l1, l2, ord, i2, i1)
      {
        var i0 := 0;
        while i0 < n0
          invariant 0 <= i0 <= n0
          invariant r == Cube3(l0, l1, l2, ord, i2) + Plane3(l0, l1, l2, ord, i2, i1) + Row3(l0, l1, l2, ord, i1, i2, i0)
        {
          var idx := seq(3, _ => 0);
          idx := idx[ord[0] := l0[i0]];
          idx := idx[ord[1] := l1[i1]];
          idx := idx[ord[2] := l2[i2]];
          assert Row3(l0, l1, l2, ord, i1, i2, i0 + 1) == Row3(l0, l1, l2, ord, i1, i2, i0) + [idx];
          r := r + [idx];
          i0 := i0 + 1;
        }
        i1 := i1 + 1;
      }
      i2 := i2 + 1;
    }
    Cube3Product(lists, ord);
  }

  /** The rank-3 nest pushes exactly the product. */
  lemma Cube3Product(lists: seq<seq<int>>, ord: seq<int>)
    requires |lists| == 3 && IsPermutation(ord, 3)
    ensures IsProduct(Cube3(lists[ord[0]], lists[ord[1]], lists[ord[2]], ord, |lists[ord[2]]|), lists, ord)
  {
    var l0, l1, l2 := lists[ord[0]], lists[ord[1]], lists[ord[2]];
    var n0, n1, n2 := |l0|, |l1|, |l2|;
    var r := Cube3(l0, l1, l2, ord, n2);
    var sizes := Sizes(lists, ord);
    ProdSmall(sizes);
    assert sizes == [n0, n1, n2];
    Reorder3(n0, n1, n2);
    if Positive(sizes) {
      forall k | 0 <= k < |r|
        ensures r[k] == TupleAt(lists, ord, k)
      {
        Cube3Element(lists, ord, k);
      }
    }
  }

  lemma Cube3Element(lists: seq<seq<int>>, ord: seq<int>, k: nat)
    requires |lists| == 3 && IsPermutation(ord, 3) && Positive(Sizes(lists, ord))
    requires k < (|lists[ord[0]]| * |lists[ord[1]]|) * |lists[ord[2]]|
    ensures k < |Cube3(lists[ord[0]], lists[ord[1]], lists[ord[2]], ord, |lists[ord[2]]|)|
    ensures Cube3(lists[ord[0]], lists[ord[1]], lists[ord[2]], ord, |lists[ord[2]]|)[k] == TupleAt(lists, ord, k)
  {
    var l0, l1, l2 := lists[ord[0]], lists[ord[1]], lists[ord[2]];
    var n0, n1, n2 := |l0|, |l1|, |l2|;
    var sizes := Sizes(lists, ord);
    assert sizes == [n0, n1, n2];
    var i0, i1, i2 := k % n0, (k / n0) % n1, k / (n0 * n1);
    Coordinates3(k, n0, n1, n2);
    Cube3At(l0, l1, l2, ord, n2, i0, i1, i2);
    Digits3(k, sizes);
    TripleIsTuple(lists, ord, k, i0, i1, i2);
  }

  lemma TripleIsTuple(lists: seq<seq<int>>, ord: seq<int>, k: nat, i0: nat, i1: nat, i2: nat)
    requires |lists| == 3 && IsPermutation(ord, 3) && Positive(Sizes(lists, ord))
    requires Digits(k, Sizes(lists, ord)) == [i0, i1, i2]
    requires i0 < |lists[ord[0]]| && i1 < |lists[ord[1]]| && i2 < |lists[ord[2]]|
    ensures Triple(lists[ord[0]], lists[ord[1]], lists[ord[2]], ord, i0, i1, i2) == TupleAt(lists, ord, k)
  {
    var t := TupleAt(lists, ord, k);
    var u := Triple(lists[ord[0]], lists[ord[1]], lists[ord[2]], ord, i0, i1, i2);
    TupleAtOrd(lists, ord, k, 0);
    TupleAtOrd(lists, ord, k, 1);
    TupleAtOrd(lists, ord, k, 2);
    forall d | 0 <= d < 3
      ensures u[d] == t[d]
    {
      assert d in ord;
    }
  }

  lemma Reorder3(a: int, b: int, c: int)
    ensures c * (b * a) == (a * b) * c
  {
  }

  lemma Digits3(k: nat, sizes: seq<int>)
    requires |sizes| == 3 && Positive(sizes) && k < (sizes[0] * sizes[1]) * sizes[2]
    ensures Digits(k, sizes) == [k % sizes[0], (k / sizes[0]) % sizes[1], k / (sizes[0] * sizes[1])]
  {
    var n0, n1, n2 := sizes[0], sizes[1], sizes[2];
    MulPositive(n0, n1);
    DivLess(k, n0 * n1, n2);
    DivNonneg(k, n0 * n1);
    DivModUnique(k / (n0 * n1), n2, 0, k / (n0 * n1));
    assert Weight(sizes, 1) == n0;
    assert Weight(sizes, 2) == n0 * n1;
  }

  /** The loop nest for the value's rank; the source has nests for ranks 1
      to 3 only and pushes nothing for a higher rank. */
  method Materialize(lists: seq<seq<int>>, ord: seq<int>) returns (r: seq<Index>)
    requires IsPermutation(ord, |lists|)
    ensures 1 <= |lists| <= 3 ==> IsProduct(r, lists, ord)
    ensures |lists| == 0 || |lists| > 3 ==> r == []
  {
    r := [];
    if |lists| == 1 {
      r := Product1(lists, ord);
    }
    if |lists| == 2 {
      r := Product2(lists, ord);
    }
    if |lists| == 3 {
      r := Product3(lists, ord);
    }
  }

  /** The number of tuples is the product of the list lengths. */
  lemma ProductLength(r: seq<Index>, lists: seq<seq<int>>, ord: seq<int>)
    requires IsPermutation(ord, |lists|) && IsProduct(r, lists, ord)
    ensures |r| == Product(seq(|lists|, d requires 0 <= d < |lists| => |lists[d]|))
  {
    var lens := seq(|lists|, d requires 0 <= d < |lists| => |lists[d]|);
    assert Sizes(lists, ord) == Permute(lens, ord);
    ProdPermuted(lens, ord);
  }

  /** A tuple is materialized exactly when each coordinate is in its
      dimension's list. */
  lemma ProductMembership(r: seq<Index>, lists: seq<seq<int>>, ord: seq<int>, t: Index)
    requires IsPermutation(ord, |lists|) && IsProduct(r, lists, ord) && Positive(Sizes(lists, ord))
    ensures t in r <==> |t| == |lists| && forall d :: 0 <= d < |lists| ==> t[d] in lists[d]
  {
    if t in r {
      MemberCoordinates(r, lists, ord, t);
    }
    if |t| == |lists| && forall d :: 0 <= d < |lists| ==> t[d] in lists[d] {
      CoordinatesMember(r, lists, ord, t);
    }
  }

  lemma MemberCoordinates(r: seq<Index>, lists: seq<seq<int>>, ord: seq<int>, t: Index)
    requires IsPermutation(ord, |lists|) && IsProduct(r, lists, ord) && Positive(Sizes(lists, ord))
    requires t in r
    ensures |t| == |lists| && forall d :: 0 <= d < |lists| ==> t[d] in lists[d]
  {
    var sizes := Sizes(lists, ord);
    var k :| 0 <= k < |r| && r[k] == t;
    var digits := Digits(k, sizes);
    DigitsInRange(k, sizes);
    forall d | 0 <= d < |lists|
      ensures t[d] in lists[d]
    {
      assert t[d] == lists[d][digits[IndexOf(ord, d)]];
    }
  }

  lemma CoordinatesMember(r: seq<Index>, lists: seq<seq<int>>, ord: seq<int>, t: Index)
    requires IsPermutation(ord, |lists|) && IsProduct(r, lists, ord) && Positive(Sizes(lists, ord))
    requires |t| == |lists| && forall d :: 0 <= d < |lists| ==> t[d] in lists[d]
    ensures t in r
  {
    var n := |lists|;
    var sizes := Sizes(lists, ord);
    var e := seq(n, j requires 0 <= j < n => IndexOf(lists[ord[j]], t[ord[j]]));
    assert InRange(e, sizes);
    var k := Recompose(e, sizes);
    DigitsOfRecompose(e, sizes);
    forall d | 0 <= d < n
      ensures TupleAt(lists, ord, k)[d] == t[d]
    {
      var j := IndexOf(ord, d);
      TupleAtOrd(lists, ord, k, j);
    }
    assert r[k] == TupleAt(lists, ord, k) == t;
  }

  predicate NoDuplicates(l: seq<int>) {
    forall i, j :: 0 <= i < j < |l| ==> l[i] != l[j]
  }

  /** When no coordinate list repeats a coordinate, no tuple is
      materialized twice. */
  lemma ProductDistinct(r: seq<Index>, lists: seq<seq<int>>, ord: seq<int>, a: nat, b: nat)
    requires IsPermutation(ord, |lists|) && IsProduct(r, lists, ord) && Positive(Sizes(lists, ord))
    requires forall d :: 0 <= d < |lists| ==> NoDuplicates(lists[d])
    requires a < |r| && b < |r|
    ensures r[a] == r[b] ==> a == b
  {
    var sizes := Sizes(lists, ord);
    var da, db := Digits(a, sizes), Digits(b, sizes);
    RecomposeDigits(a, sizes);
    RecomposeDigits(b, sizes);
    if r[a] == r[b] {
      forall j | 0 <= j < |ord|
        ensures da[j] == db[j]
      {
        TupleAtOrd(lists, ord, a, j);
        TupleAtOrd(lists, ord, b, j);
        assert lists[ord[j]][da[j]] == lists[ord[j]][db[j]];
      }
      assert da == db;
    }
  }
}
