/** Mixed-radix numbers.  A tuple of digits `d` over radices `r` denotes
    `d[0]*Weight(r,0) + d[1]*Weight(r,1) + ...` where `Weight(r, j)` is the
    product of the first `j` radices.  Three rules of the generator are
    instances of this: the thread-id delinearization of a scanline layout,
    the enumeration order of materialized index tuples and the strides of
    `shared_off`. */
module MixedRadix {

  predicate Positive(r: seq<int>) {
    forall j :: 0 <= j < |r| ==> r[j] > 0
  }

  /** Product of the first `j` radices. */
  function Weight(r: seq<int>, j: nat): (w: int)
    requires j <= |r|
    ensures Positive(r) ==> w > 0
  {
    if j == 0 then 1 else Weight(r, j - 1) * r[j - 1]
  }

  function Prod(r: seq<int>): int {
    Weight(r, |r|)
  }

  /** `d[0]*Weight(r,0) + ... + d[j-1]*Weight(r,j-1)`. */
  function WeightedSum(d: seq<int>, r: seq<int>, j: nat): int
    requires j <= |d| && j <= |r|
  {
    if j == 0 then 0 else WeightedSum(d, r, j - 1) + d[j - 1] * Weight(r, j - 1)
  }

  function Recompose(d: seq<int>, r: seq<int>): int
    requires |d| == |r|
  {
    WeightedSum(d, r, |r|)
  }

  predicate InRange(d: seq<int>, r: seq<int>) {
    |d| == |r| && forall j :: 0 <= j < |r| ==> 0 <= d[j] < r[j]
  }

  /** Digit `j` of `x`. */
  function Digit(x: int, r: seq<int>, j: nat): int
    requires Positive(r) && j < |r|
  {
    (x / Weight(r, j)) % r[j]
  }

  function Digits(x: int, r: seq<int>): (d: seq<int>)
    requires Positive(r)
    ensures |d| == |r|
  {
    seq(|r|, j requires 0 <= j < |r| => Digit(x, r, j))
  }

  // ---------------------------------------------------------------------
  // Arithmetic helpers

  lemma MulPositive(a: int, b: int)
    requires a > 0 && b > 0
    ensures a * b > 0
  {
  }

  lemma Distribute(a: int, b: int, c: int)
    ensures (a + b) * c == a * c + b * c
  {
  }

  lemma MulAssoc(a: int, b: int, c: int)
    ensures (a * b) * c == a * (c * b)
  {
  }

  lemma MulMonotone(a: int, b: int, c: int)
    requires a <= b && c >= 0
    ensures a * c <= b * c
  {
  }

  /** Quotient and remainder are unique. */
  lemma DivModUnique(x: int, n: int, q: int, rem: int)
    requires n > 0 && 0 <= rem < n && x == q * n + rem
    ensures x / n == q && x % n == rem
  {
    var q', r' := x / n, x % n;
    assert x == q' * n + r';
    assert (q - q') * n == r' - rem;
    if q > q' {
      MulMonotone(1, q - q', n);
    } else if q < q' {
      MulMonotone(1, q' - q, n);
    }
  }

  lemma DivDiv(x: int, a: int, b: int)
    requires x >= 0 && a > 0 && b > 0
    ensures (x / a) / b == x / (a * b)
  {
    var q1, r1 := x / a, x % a;
    var q2, r2 := q1 / b, q1 % b;
    assert q1 == q2 * b + r2;
    assert x == q2 * (a * b) + (r2 * a + r1) by {
      assert x == q1 * a + r1;
      assert q1 * a == (q2 * b + r2) * a;
    }
    MulMonotone(r2, b - 1, a);
    MulPositive(a, b);
    DivModUnique(x, a * b, q2, r2 * a + r1);
  }

  // ---------------------------------------------------------------------
  // Decomposition and recomposition

  /** Peeling digit `j` off `x / Weight(r, j)` leaves `x / Weight(r, j+1)`:
      the step of every delinearization loop. */
  lemma PeelDigit(x: int, r: seq<int>, j: nat)
    requires x >= 0 && Positive(r) && j < |r|
    ensures x / Weight(r, j) == (x / Weight(r, j + 1)) * r[j] + Digit(x, r, j)
  {
    var c := x / Weight(r, j);
    assert c == (c / r[j]) * r[j] + c % r[j];
    DivDiv(x, Weight(r, j), r[j]);
  }

  /** The digits below position `j` and the quotient by `Weight(r, j)`
      together give back `x`. */
  lemma {:induction false} DigitsPrefix(x: int, r: seq<int>, j: nat)
    requires x >= 0 && Positive(r) && j <= |r|
    ensures x == WeightedSum(Digits(x, r), r, j) + (x / Weight(r, j)) * Weight(r, j)
  {
    if j > 0 {
      DigitsPrefix(x, r, j - 1);
      PeelDigit(x, r, j - 1);
      var w, rj, w' := Weight(r, j - 1), r[j - 1], Weight(r, j);
      var c, q, dj := x / w, x / w', Digits(x, r)[j - 1];
      assert w' == w * rj;
      assert c == q * rj + dj;
      assert WeightedSum(Digits(x, r), r, j) == WeightedSum(Digits(x, r), r, j - 1) + dj * w;
      Distribute(q * rj, dj, w);
      assert (q * rj) * w == q * w' by { MulAssoc(q, rj, w); }
    }
  }

  /** Digits are in range. */
  lemma DigitsInRange(x: int, r: seq<int>)
    requires Positive(r)
    ensures InRange(Digits(x, r), r)
  {
    forall j | 0 <= j < |r|
      ensures 0 <= Digits(x, r)[j] < r[j]
    {
    }
  }

  /** Every `x` in `[0, Prod(r))` is the recomposition of its digits. */
  lemma RecomposeDigits(x: int, r: seq<int>)
    requires Positive(r) && 0 <= x < Prod(r)
    ensures InRange(Digits(x, r), r)
    ensures Recompose(Digits(x, r), r) == x
  {
    DigitsInRange(x, r);
    DigitsPrefix(x, r, |r|);
    DivModUnique(x, Prod(r), 0, x);
  }

  /** The recomposition of in-range digits is below the product of the radices. */
  lemma {:induction false} WeightedSumBound(d: seq<int>, r: seq<int>, j: nat)
    requires InRange(d, r) && j <= |r|
    ensures 0 <= WeightedSum(d, r, j) < Weight(r, j)
  {
    if j > 0 {
      WeightedSumBound(d, r, j - 1);
      var w := Weight(r, j - 1);
      MulMonotone(d[j - 1], r[j - 1] - 1, w);
      MulMonotone(0, d[j - 1], w);
      assert (r[j - 1] - 1) * w == w * r[j - 1] - w;
    }
  }

  /** In-range digit tuples with the same value are equal, prefix by prefix. */
  lemma {:induction false} WeightedSumInjective(d: seq<int>, e: seq<int>, r: seq<int>, j: nat)
    requires InRange(d, r) && InRange(e, r) && j <= |r|
    requires WeightedSum(d, r, j) == WeightedSum(e, r, j)
    ensures d[..j] == e[..j]
  {
    if j > 0 {
      var w := Weight(r, j - 1);
      WeightedSumBound(d, r, j - 1);
      WeightedSumBound(e, r, j - 1);
      var x := WeightedSum(d, r, j);
      DivModUnique(x, w, d[j - 1], WeightedSum(d, r, j - 1));
      DivModUnique(x, w, e[j - 1], WeightedSum(e, r, j - 1));
      WeightedSumInjective(d, e, r, j - 1);
      assert d[..j] == d[..j - 1] + [d[j - 1]];
      assert e[..j] == e[..j - 1] + [e[j - 1]];
    }
  }

  lemma RecomposeInjective(d: seq<int>, e: seq<int>, r: seq<int>)
    requires InRange(d, r) && InRange(e, r)
    requires Recompose(d, r) == Recompose(e, r)
    ensures d == e
  {
    WeightedSumInjective(d, e, r, |r|);
    assert d == d[..|r|] && e == e[..|r|];
  }

  /** Recomposition is a bijection between in-range digit tuples and
      `[0, Prod(r))`; this is its inverse direction. */
  lemma DigitsOfRecompose(d: seq<int>, r: seq<int>)
    requires Positive(r) && InRange(d, r)
    ensures 0 <= Recompose(d, r) < Prod(r)
    ensures Digits(Recompose(d, r), r) == d
  {
    var x := Recompose(d, r);
    WeightedSumBound(d, r, |r|);
    RecomposeDigits(x, r);
    RecomposeInjective(Digits(x, r), d, r);
  }

  lemma DivNonneg(x: nat, w: int)
    requires w > 0
    ensures x / w >= 0
  {
  }

  lemma DivLess(x: nat, w: int, r: int)
    requires w > 0 && x < w * r
    ensures x / w < r
  {
    if x / w >= r {
      MulMonotone(r, x / w, w);
    }
  }

  lemma {:induction false} PrefixSumsAgree(d: seq<int>, e: seq<int>, r: seq<int>, j: nat)
    requires j <= |d| && j <= |e| && j <= |r|
    requires forall k :: 0 <= k < j ==> d[k] == e[k]
    ensures WeightedSum(d, r, j) == WeightedSum(e, r, j)
  {
    if j > 0 {
      PrefixSumsAgree(d, e, r, j - 1);
    }
  }

  /** The digits of `x` with the most significant one unreduced: it holds
      all of `x` above the lower radices. */
  function TopUnreduced(x: int, r: seq<int>): (d: seq<int>)
    requires Positive(r) && |r| >= 1
    ensures |d| == |r|
  {
    Digits(x, r)[..|r| - 1] + [x / Weight(r, |r| - 1)]
  }

  /** Digits with an unreduced top recompose to the number, and coincide
      with the ordinary digits for numbers below the product of the radices. */
  lemma TopUnreducedRecomposes(x: nat, r: seq<int>)
    requires Positive(r) && |r| >= 1
    ensures Recompose(TopUnreduced(x, r), r) == x
    ensures x < Prod(r) ==> TopUnreduced(x, r) == Digits(x, r)
  {
    var n := |r|;
    var d, digits := TopUnreduced(x, r), Digits(x, r);
    var w := Weight(r, n - 1);
    DigitsPrefix(x, r, n - 1);
    assert forall k :: 0 <= k < n - 1 ==> d[k] == digits[k];
    PrefixSumsAgree(d, digits, r, n - 1);
    assert d[n - 1] == x / w;
    if x < Prod(r) {
      DivLess(x, w, r[n - 1]);
      DivNonneg(x, w);
      DivModUnique(x / w, r[n - 1], 0, x / w);
      assert d[n - 1] == digits[n - 1];
      assert d == digits;
    }
  }

  lemma MultipleOfFactor(x: int, w: int, c: int, wc: int)
    requires w > 0 && c > 0 && wc == w * c && x % wc == 0
    ensures x % w == 0
  {
    var q := x / wc;
    assert x == q * wc;
    assert q * wc == (q * c) * w;
    DivModUnique(x, w, q * c, 0);
  }

  lemma SumOfMultiples(x: int, y: int, w: int)
    requires w > 0 && x % w == 0 && y % w == 0
    ensures (x + y) % w == 0
  {
    var a, b := x / w, y / w;
    assert x == a * w && y == b * w;
    assert x + y == (a + b) * w;
    DivModUnique(x + y, w, a + b, 0);
  }

  /** A number congruent, modulo `w * c`, to one whose low part modulo `w`
      is `bits` has the same low part. */
  lemma LowBitsOfCongruent(u: int, v: int, bits: int, w: int, c: int, wc: int)
    requires w > 0 && c > 0 && wc == w * c && 0 <= bits < w
    requires (v - bits) % w == 0 && (u - v) % wc == 0
    ensures u % w == bits
  {
    MultipleOfFactor(u - v, w, c, wc);
    SumOfMultiples(u - v, v - bits, w);
    var k := (u - bits) / w;
    assert u - bits == k * w;
    DivModUnique(u, w, k, bits);
  }

  lemma MulAddBound(x: int, s: int, r: int, p: int)
    requires 0 <= x < p && 0 <= r < s
    ensures x * s + r < p * s
  {
    MulMonotone(x + 1, p, s);
  }

  lemma ScaleBack(x: int, m: int)
    requires m > 0
    ensures (x * m) % m == 0 && (x * m) / m == x
  {
    DivModUnique(x * m, m, x, 0);
  }
}
