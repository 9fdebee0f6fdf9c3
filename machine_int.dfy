/** Machine-integer facts used by the generator: the 32-bit signed range,
    two's-complement wrap-around, powers of two and bitwise exclusive or on
    naturals. */
module MachineInt {
  import opened MixedRadix

  const INT32_MIN: int := -0x8000_0000
  const INT32_MAX: int := 0x7fff_ffff
  const TWO_32: int := 0x1_0000_0000
  const TWO_64: nat := 0x1_0000_0000_0000_0000

  predicate IsI32(x: int) {
    INT32_MIN <= x <= INT32_MAX
  }

  /** Two's-complement wrap-around of an exact result into `i32`. */
  function Wrap32(x: int): (r: int)
    ensures IsI32(r)
    ensures (x - r) % TWO_32 == 0
    ensures IsI32(x) ==> r == x
  {
    var m := (x - INT32_MIN) % TWO_32;
    m + INT32_MIN
  }

  function Pow2(k: nat): (p: nat)
    ensures p >= 1
  {
    if k == 0 then 1 else 2 * Pow2(k - 1)
  }

  predicate IsPow2(n: int) {
    exists k: nat :: k < n && Pow2(k) == n
  }

  /** Bitwise exclusive or of two naturals, one bit at a time from the
      least significant end. */
  function Xor(a: nat, b: nat): nat
    decreases a + b
  {
    if a == 0 && b == 0 then 0 else 2 * Xor(a / 2, b / 2) + (a % 2 + b % 2) % 2
  }

  lemma {:induction false} XorZero(a: nat)
    ensures Xor(a, 0) == a
  {
    if a != 0 {
      XorZero(a / 2);
    }
  }

  /** One step of the definition, in the form the proofs use. */
  lemma XorStep(a: nat, b: nat)
    ensures Xor(a, b) == 2 * Xor(a / 2, b / 2) + (a % 2 + b % 2) % 2
  {
  }

  lemma HalveTwice(c: nat, q: nat, bit: nat)
    requires c == 2 * q + bit && bit < 2
    ensures c / 2 == q && c % 2 == bit
  {
  }

  lemma BitCancel(u: nat, w: nat)
    requires u < 2 && w < 2
    ensures ((u + w) % 2 + w) % 2 == u
  {
  }

  /** Exclusive or with the same value twice is the identity. */
  lemma {:induction false} XorInvolution(a: nat, b: nat)
    ensures Xor(Xor(a, b), b) == a
    decreases a + b
  {
    if a == 0 && b == 0 {
    } else {
      var c := Xor(a, b);
      var q, bit := Xor(a / 2, b / 2), (a % 2 + b % 2) % 2;
      XorStep(a, b);
      HalveTwice(c, q, bit);
      XorStep(c, b);
      XorInvolution(a / 2, b / 2);
      BitCancel(a % 2, b % 2);
      assert a == 2 * (a / 2) + a % 2;
    }
  }

  /** Exclusive or keeps both operands' bit width. */
  lemma {:induction false} XorBound(a: nat, b: nat, k: nat)
    requires a < Pow2(k) && b < Pow2(k)
    ensures Xor(a, b) < Pow2(k)
    decreases a + b
  {
    if a == 0 && b == 0 {
    } else if k == 0 {
    } else {
      XorBound(a / 2, b / 2, k - 1);
    }
  }

  lemma FlipStep(a: int, half: int, bit: int, h: int, even: bool, x: int)
    requires a == 2 * half + bit
    requires x == 2 * (if even then half + h else half - h) + bit
    ensures x == if even then a + 2 * h else a - 2 * h
  {
  }

  lemma XorOne(a: nat)
    ensures Xor(a, 1) == if a % 2 == 0 then a + 1 else a - 1
  {
    XorStep(a, 1);
    XorZero(a / 2);
  }

  /** Exclusive or with a power of two flips exactly that bit. */
  lemma {:induction false} XorPow2(a: nat, k: nat)
    ensures Xor(a, Pow2(k)) == if (a / Pow2(k)) % 2 == 0 then a + Pow2(k) else a - Pow2(k)
  {
    if k == 0 {
      XorOne(a);
      assert Pow2(0) == 1 && a / 1 == a;
    } else {
      var h := Pow2(k - 1);
      var p := 2 * h;
      assert Pow2(k) == p;
      var half, bit := a / 2, a % 2;
      XorStep(a, p);
      HalveTwice(p, h, 0);
      assert Xor(a, p) == 2 * Xor(half, h) + bit;
      XorPow2(half, k - 1);
      DivDiv(a, 2, h);
      FlipStep(a, half, bit, h, (half / h) % 2 == 0, Xor(a, p));
      assert a / Pow2(k) == half / h;
    }
  }

  lemma Pow2Of64()
    ensures Pow2(64) == TWO_64
  {
    Pow2Of32();
    Pow2Add(32, 32);
  }

  lemma Pow2Of32()
    ensures Pow2(32) == TWO_32
  {
    assert Pow2(4) == 16;
    Pow2Add(4, 4);
    Pow2Add(8, 8);
    Pow2Add(16, 16);
  }

  lemma {:induction false} Pow2Add(a: nat, b: nat)
    ensures Pow2(a + b) == Pow2(a) * Pow2(b)
  {
    if b > 0 {
      Pow2Add(a, b - 1);
      assert Pow2(a + b) == 2 * Pow2(a + b - 1);
    }
  }

  lemma Pow2Sum(a: nat, b: nat, c: nat)
    requires c == a + b
    ensures Pow2(c) == Pow2(a) * Pow2(b)
  {
    Pow2Add(a, b);
  }

  /** `2^(n * (k + 1)) == 2^n * 2^(n * k)`: one more lane of `n` bits. */
  lemma Pow2Lanes(n: nat, k: nat)
    ensures Pow2(n * (k + 1)) == Pow2(n) * Pow2(n * k)
  {
    assert n * (k + 1) == n + n * k;
    Pow2Sum(n, n * k, n * (k + 1));
  }

  lemma {:induction false} Pow2Monotone(a: nat, b: nat)
    requires a <= b
    ensures Pow2(a) <= Pow2(b)
  {
    if a < b {
      Pow2Monotone(a, b - 1);
    }
  }

  lemma Pow2Five()
    ensures Pow2(5) == 32
  {
    assert Pow2(1) == 2;
    assert Pow2(2) == 4;
    assert Pow2(3) == 8;
    assert Pow2(4) == 16;
  }

  /** Splitting off bit `j` of `x`, where `p` is its weight: the remainder
      modulo `2 * p` is the remainder modulo `p` plus the bit. */
  lemma BitSplit(x: nat, p: nat)
    requires p > 0
    ensures x % (2 * p) == x % p + p * ((x / p) % 2)
    ensures x / (2 * p) == (x / p) / 2
  {
    var q, t := x / p, x % p;
    var h, b := q / 2, q % 2;
    assert x == q * p + t;
    assert q * p == h * (2 * p) + b * p;
    assert 0 <= b * p + t < 2 * p by {
      if b == 1 {
        assert b * p == p;
      } else {
        assert b * p == 0;
      }
    }
    DivModUnique(x, 2 * p, h, b * p + t);
  }

  /** Exclusive or with bit `j` keeps the lower bits, flips bit `j` and
      keeps the bits above. */
  lemma FlipFacts(l: nat, j: nat)
    ensures Xor(l, Pow2(j)) % Pow2(j) == l % Pow2(j)
    ensures (Xor(l, Pow2(j)) / Pow2(j)) % 2 == 1 - (l / Pow2(j)) % 2
    ensures Xor(l, Pow2(j)) / (2 * Pow2(j)) == l / (2 * Pow2(j))
  {
    var p := Pow2(j);
    var l' := Xor(l, p);
    var q, t := l / p, l % p;
    XorPow2(l, j);
    BitSplit(l, p);
    BitSplit(l', p);
    if q % 2 == 0 {
      FlipUp(l, p, q, t);
    } else {
      FlipDown(l, p, q, t);
    }
  }

  lemma FlipUp(l: nat, p: nat, q: int, t: int)
    requires p > 0 && q == l / p && t == l % p && q % 2 == 0
    ensures (l + p) / p == q + 1 && (l + p) % p == t && (q + 1) % 2 == 1 && (q + 1) / 2 == q / 2
  {
    assert l == q * p + t;
    assert l + p == (q + 1) * p + t;
    DivModUnique(l + p, p, q + 1, t);
  }

  lemma FlipDown(l: nat, p: nat, q: int, t: int)
    requires p > 0 && q == l / p && t == l % p && q % 2 == 1
    ensures l >= p && (l - p) / p == q - 1 && (l - p) % p == t && (q - 1) % 2 == 0 && (q - 1) / 2 == q / 2
  {
    assert l == q * p + t;
    assert q * p == (q - 1) * p + p;
    assert l - p == (q - 1) * p + t;
    MulMonotone(0, q - 1, p);
    DivModUnique(l - p, p, q - 1, t);
  }
}
