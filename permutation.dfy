/** Dimension orders are permutations of `[0, n)`; sums and products over a
    sequence do not depend on the order in which a permutation visits it. */
module Permutation {
  import opened MixedRadix

  predicate IsPermutation(p: seq<int>, n: nat) {
    && |p| == n
    && (forall j :: 0 <= j < n ==> 0 <= p[j] < n)
    && (forall i, j :: 0 <= i < j < n ==> p[i] != p[j])
    && (forall d :: 0 <= d < n ==> d in p)
  }

  predicate Indexes(p: seq<int>, n: nat) {
    forall j :: 0 <= j < |p| ==> 0 <= p[j] < n
  }

  /** `s` permuted by `p`: element `j` is `s[p[j]]`. */
  function Permute(s: seq<int>, p: seq<int>): (t: seq<int>)
    requires Indexes(p, |s|)
    ensures |t| == |p| && forall j :: 0 <= j < |p| ==> t[j] == s[p[j]]
  {
    seq(|p|, j requires 0 <= j < |p| => s[p[j]])
  }

  function Sum(v: seq<int>): int {
    if |v| == 0 then 0 else Sum(v[..|v| - 1]) + v[|v| - 1]
  }

  function Product(v: seq<int>): int {
    if |v| == 0 then 1 else Product(v[..|v| - 1]) * v[|v| - 1]
  }

  lemma {:induction false} SumConcat(a: seq<int>, b: seq<int>)
    ensures Sum(a + b) == Sum(a) + Sum(b)
  {
    if |b| > 0 {
      SumConcat(a, b[..|b| - 1]);
      assert (a + b)[..|a + b| - 1] == a + b[..|b| - 1];
    } else {
      assert a + b == a;
    }
  }

  lemma {:induction false} ProductConcat(a: seq<int>, b: seq<int>)
    ensures Product(a + b) == Product(a) * Product(b)
  {
    if |b| > 0 {
      ProductConcat(a, b[..|b| - 1]);
      assert (a + b)[..|a + b| - 1] == a + b[..|b| - 1];
      assert Product(a) * Product(b) == (Product(a) * Product(b[..|b| - 1])) * b[|b| - 1];
    } else {
      assert a + b == a;
    }
  }

  /** Removing the position that holds `n - 1` from a permutation of `[0, n)`
      leaves a permutation of `[0, n - 1)`. */
  lemma RemoveLargest(p: seq<int>, n: nat, k: nat)
    requires n > 0 && IsPermutation(p, n) && k < n && p[k] == n - 1
    ensures IsPermutation(p[..k] + p[k + 1..], n - 1)
  {
    var q := p[..k] + p[k + 1..];
    assert forall j :: 0 <= j < n - 1 ==> q[j] == (if j < k then p[j] else p[j + 1]);
    forall d | 0 <= d < n - 1
      ensures d in q
    {
      assert d in p;
      var j :| 0 <= j < n && p[j] == d;
      assert j != k;
      assert q[if j < k then j else j - 1] == d;
    }
  }

  /** Permuting by a permutation of `[0, n)` whose position `k` holds `n - 1`
      splits around that position. */
  lemma PermuteSplit(v: seq<int>, p: seq<int>, k: nat)
    requires |v| > 0 && IsPermutation(p, |v|) && k < |v| && p[k] == |v| - 1
    ensures IsPermutation(p[..k] + p[k + 1..], |v| - 1)
    ensures Permute(v, p) == Permute(v[..|v| - 1], p[..k]) + [v[|v| - 1]] + Permute(v[..|v| - 1], p[k + 1..])
    ensures Permute(v[..|v| - 1], p[..k] + p[k + 1..]) == Permute(v[..|v| - 1], p[..k]) + Permute(v[..|v| - 1], p[k + 1..])
  {
    RemoveLargest(p, |v|, k);
  }

  lemma FindLargest(p: seq<int>, n: nat) returns (k: nat)
    requires n > 0 && IsPermutation(p, n)
    ensures k < n && p[k] == n - 1
  {
    assert n - 1 in p;
    k :| 0 <= k < n && p[k] == n - 1;
  }

  lemma Rearrange(a: int, x: int, b: int)
    ensures (a * x) * b == (a * b) * x
  {
  }

  lemma SplitLast(v: seq<int>)
    requires |v| > 0
    ensures v == v[..|v| - 1] + [v[|v| - 1]]
  {
  }

  lemma Singleton(x: int)
    ensures Sum([x]) == x && Product([x]) == x
  {
    assert [x][..0] == [];
  }

  /** Sums are invariant under permutation. */
  lemma {:induction false} SumPermuted(v: seq<int>, p: seq<int>)
    requires IsPermutation(p, |v|)
    ensures Sum(Permute(v, p)) == Sum(v)
  {
    var n := |v|;
    if n > 0 {
      var k := FindLargest(p, n);
      var front := v[..n - 1];
      PermuteSplit(v, p, k);
      var a, b := Permute(front, p[..k]), Permute(front, p[k + 1..]);
      SumPermuted(front, p[..k] + p[k + 1..]);
      SumConcat(a + [v[n - 1]], b);
      SumConcat(a, [v[n - 1]]);
      SumConcat(a, b);
      Singleton(v[n - 1]);
    }
  }

  /** A product with one factor taken out of the middle. */
  lemma ProductOfSplit(a: seq<int>, x: int, b: seq<int>)
    ensures Product(a + [x] + b) == Product(a + b) * x
  {
    var pa, pb := Product(a), Product(b);
    Singleton(x);
    ProductConcat(a, [x]);
    ProductConcat(a + [x], b);
    ProductConcat(a, b);
    Rearrange(pa, x, pb);
  }

  /** Products are invariant under permutation. */
  lemma {:induction false} ProductPermuted(v: seq<int>, p: seq<int>)
    requires IsPermutation(p, |v|)
    ensures Product(Permute(v, p)) == Product(v)
  {
    var n := |v|;
    if n > 0 {
      var k := FindLargest(p, n);
      var front, x := v[..n - 1], v[n - 1];
      PermuteSplit(v, p, k);
      var a, b := Permute(front, p[..k]), Permute(front, p[k + 1..]);
      ProductPermuted(front, p[..k] + p[k + 1..]);
      ProductOfSplit(a, x, b);
    }
  }

  /** A product of radices is a product of the sequence, in any order. */
  lemma {:induction false} WeightIsProduct(r: seq<int>, j: nat)
    requires j <= |r|
    ensures Weight(r, j) == Product(r[..j])
  {
    if j > 0 {
      WeightIsProduct(r, j - 1);
      assert r[..j][..j - 1] == r[..j - 1];
    }
  }

  lemma ProdPermuted(v: seq<int>, p: seq<int>)
    requires IsPermutation(p, |v|)
    ensures Prod(Permute(v, p)) == Prod(v) == Product(v)
  {
    ProductPermuted(v, p);
    WeightIsProduct(v, |v|);
    assert v[..|v|] == v;
    var w := Permute(v, p);
    WeightIsProduct(w, |w|);
    assert w[..|w|] == w;
  }

  /** Permuting a permutation gives a permutation. */
  lemma PermuteComposes(p: seq<int>, q: seq<int>, n: nat)
    requires IsPermutation(p, n) && IsPermutation(q, n)
    ensures IsPermutation(Permute(p, q), n)
  {
    var c := Permute(p, q);
    forall d | 0 <= d < n
      ensures d in c
    {
      assert d in p;
      var a :| 0 <= a < n && p[a] == d;
      assert a in q;
      var b :| 0 <= b < n && q[b] == a;
      assert c[b] == d;
    }
  }
}
