/** Loads and stores (`visit_load_inst`, `visit_store_inst`): the vector
    width, the split of a vector into machine words, the operand numbering
    and constraint string of the inline `ld.global`, the fallback `mov`s of
    a masked load, the constant-offset fold of the address and the grouping
    of the materialized indices into vectors. */
module MemoryAccess {
  import opened MachineInt
  import opened MixedRadix
  import opened TextFormat
  import opened Wrappers
  import Ir

  function Min(a: int, b: int): int {
    if a <= b then a else b
  }

  function Max(a: int, b: int): int {
    if a >= b then a else b
  }

  /** The load vector width: the run length of the innermost dimension of a
      scanline layout, capped by the pointer's alignment; 1 otherwise. */
  function LoadVec(isBlock: bool, scanline: bool, nts: nat, aln: nat): (vec: nat)
    ensures !(isBlock && scanline) ==> vec == 1
    ensures isBlock && scanline ==> vec <= nts && vec <= aln && (vec == nts || vec == aln)
  {
    if isBlock && scanline then Min(nts, aln) else 1
  }

  /** The store vector width: the contiguous run of the innermost
      dimension, capped by the alignment. */
  function StoreVec(isBlock: bool, contiguous: nat, aln: nat): (vec: nat)
    ensures !isBlock ==> vec == 1
    ensures isBlock ==> vec <= contiguous && vec <= aln && (vec == contiguous || vec == aln)
  {
    if isBlock then Min(contiguous, aln) else 1
  }

  // ---------------------------------------------------------------------
  // Words

  datatype WordPlan = WordPlan(width: nat, nWords: nat)

  /** Each load is `width` bits wide, the vector's bits capped at
      `max(32, nbits)`, and there are `nbits * vec / width` of them (at
      least one). */
  function PlanWords(nbits: nat, vec: nat): (p: WordPlan)
    requires nbits > 0 && vec > 0
    ensures 0 < p.width <= nbits * vec && p.width <= Max(32, nbits)
    ensures p.width == nbits * vec || p.width == Max(32, nbits)
    ensures p.nWords >= 1 && p.nWords * p.width <= Max(nbits * vec, p.width)
  {
    var totWidth := nbits * vec;
    var width := Min(totWidth, Max(32, nbits));
    var nWords := Max(1, totWidth / width);
    assert nWords * width <= Max(totWidth, width) by {
      if totWidth / width >= 1 {
        assert (totWidth / width) * width <= totWidth;
      }
    }
    WordPlan(width, nWords)
  }

  /** The exponent of the word width for `2^e`-bit elements and `2^j`
      of them. */
  function WidthExp(e: nat, j: nat): (w: nat)
    ensures e <= w <= e + j && w <= Max(5, e)
  {
    if e + j <= Max(5, e) then e + j else Max(5, e)
  }

  lemma PlanWordsPow2(e: nat, j: nat)
    ensures PlanWords(Pow2(e), Pow2(j)) == WordPlan(Pow2(WidthExp(e, j)), Pow2(e + j - WidthExp(e, j)))
  {
    var w := WidthExp(e, j);
    var tot := Pow2(e) * Pow2(j);
    Pow2Sum(e, j, e + j);
    PlanWidth(e, j);
    Pow2Quotient(w, e + j - w, e + j);
    assert tot / Pow2(w) == Pow2(e + j - w);
  }

  /** The word width of `2^j` elements of `2^e` bits is `2^WidthExp(e, j)`. */
  lemma PlanWidth(e: nat, j: nat)
    ensures Min(Pow2(e) * Pow2(j), Max(32, Pow2(e))) == Pow2(WidthExp(e, j))
  {
    Pow2Sum(e, j, e + j);
    MaxOfPow2(e);
    MinOfPow2(e + j, Max(5, e));
  }

  lemma MinOfPow2(a: nat, b: nat)
    ensures Min(Pow2(a), Pow2(b)) == Pow2(if a <= b then a else b)
  {
    if a <= b {
      Pow2Monotone(a, b);
    } else {
      Pow2Monotone(b, a);
    }
  }

  lemma MaxOfPow2(e: nat)
    ensures Max(32, Pow2(e)) == Pow2(Max(5, e))
  {
    Pow2Five();
    if e >= 5 {
      Pow2Monotone(5, e);
    } else {
      Pow2Monotone(e, 5);
    }
  }

  lemma CoverExponents(e: nat, w: nat, d1: nat, d2: nat, j: nat)
    requires e + d1 == w && d2 + w == e + j
    ensures Pow2(w) % Pow2(e) == 0 && Pow2(w) / Pow2(e) == Pow2(d1)
    ensures Pow2(d2) * Pow2(d1) == Pow2(j)
    ensures Pow2(d2) * Pow2(w) == Pow2(e) * Pow2(j)
  {
    Pow2Quotient(e, d1, w);
    Pow2Sum(d2, d1, j);
    Pow2Both(d2, w, e, j);
  }

  lemma Pow2Quotient(e: nat, d: nat, w: nat)
    requires e + d == w
    ensures Pow2(w) % Pow2(e) == 0 && Pow2(w) / Pow2(e) == Pow2(d)
  {
    Pow2Sum(e, d, w);
    ExactQuotient(Pow2(w), Pow2(e), Pow2(d));
  }

  lemma ExactQuotient(x: int, n: int, q: int)
    requires n > 0 && x == n * q
    ensures x % n == 0 && x / n == q
  {
    DivModUnique(x, n, q, 0);
  }

  lemma Pow2Both(a: nat, b: nat, c: nat, d: nat)
    requires a + b == c + d
    ensures Pow2(a) * Pow2(b) == Pow2(c) * Pow2(d)
  {
    var s := a + b;
    Pow2Sum(a, b, s);
    Pow2Sum(c, d, s);
  }

  /** For an element width of 8, 16, 32 or 64 bits and a power-of-two
      vector, the words exactly cover the vector: each word is a register
      width, holds `width / nbits` whole elements, and there are `vec`
      elements in all. */
  lemma WordsCover(e: nat, j: nat)
    requires 3 <= e <= 6
    ensures PlanWords(Pow2(e), Pow2(j)).width % Pow2(e) == 0
    ensures PlanWords(Pow2(e), Pow2(j)).nWords * (PlanWords(Pow2(e), Pow2(j)).width / Pow2(e)) == Pow2(j)
    ensures PlanWords(Pow2(e), Pow2(j)).nWords * PlanWords(Pow2(e), Pow2(j)).width == Pow2(e) * Pow2(j)
    ensures exists w :: 3 <= w <= 6 && PlanWords(Pow2(e), Pow2(j)).width == Pow2(w)
  {
    var w := WidthExp(e, j);
    assert 3 <= w <= 6;
    PlanWordsPow2(e, j);
    CoverExponents(e, w, w - e, e + j - w, j);
  }

  /** A vector of three 16-bit elements is planned as one 32-bit word: the
      third element has no word (vector widths are powers of two). */
  lemma OddVectorUncovered()
    ensures PlanWords(16, 3) == WordPlan(32, 1)
    ensures PlanWords(16, 3).nWords * (PlanWords(16, 3).width / 16) < 3
  {
  }

  /** `groups` are `count` consecutive runs of `size` elements of `xs`. */
  predicate Chunked<T(==)>(groups: seq<seq<T>>, xs: seq<T>, size: nat, count: nat) {
    && |groups| == count
    && forall k :: 0 <= k < count ==> k * size + size <= |xs| && groups[k] == xs[k * size..k * size + size]
  }

  /** The loops that walk a list `size` elements at a time: the indices of
      a load or store taken `vec` at a time (`i += vec`), and the elements
      of a vector gathered into the `n_words` fallback words
      (`i + ii*size + s`). */
  method Chunks<T(==)>(xs: seq<T>, size: nat, count: nat) returns (groups: seq<seq<T>>)
    requires size > 0 && count * size <= |xs|
    ensures Chunked(groups, xs, size, count)
  {
    groups := [];
    var i := 0;
    while |groups| < count
      invariant |groups| <= count && i == |groups| * size
      invariant Chunked(groups, xs, size, |groups|)
      decreases count - |groups|
    {
      NextChunkFits(|groups|, count, size, i, |xs|);
      ChunkedSnoc(groups, xs, size, i);
      groups := groups + [xs[i..i + size]];
      i := i + size;
    }
  }

  lemma NextChunkFits(k: nat, count: nat, size: nat, i: nat, n: nat)
    requires k < count && i == k * size && count * size <= n
    ensures i + size <= n && i + size == (k + 1) * size
  {
    MulMonotone(k + 1, count, size);
  }

  /** One more run of `size` elements extends the chunking. */
  lemma ChunkedSnoc<T>(groups: seq<seq<T>>, xs: seq<T>, size: nat, i: nat)
    requires Chunked(groups, xs, size, |groups|) && i == |groups| * size && i + size <= |xs|
    ensures Chunked(groups + [xs[i..i + size]], xs, size, |groups| + 1)
  {
    var next := groups + [xs[i..i + size]];
    forall k | 0 <= k < |next|
      ensures k * size + size <= |xs| && next[k] == xs[k * size..k * size + size]
    {
      if k < |groups| {
        assert next[k] == groups[k];
      }
    }
  }

  /** Element `ii` is lane `ii % size` of chunk `ii / size`: chunking and
      extraction are inverse. */
  lemma ExtractChunk<T>(groups: seq<seq<T>>, xs: seq<T>, size: nat, count: nat, ii: nat)
    requires size > 0 && Chunked(groups, xs, size, count) && ii < count * size
    ensures ii / size < |groups| && ii % size < |groups[ii / size]|
    ensures groups[ii / size][ii % size] == xs[ii]
  {
    DivLess(ii, size, count);
    var k, s := ii / size, ii % size;
    assert ii == k * size + s;
    assert groups[k][s] == xs[k * size + s];
  }

  function Concat<T>(groups: seq<seq<T>>): seq<T> {
    if |groups| == 0 then [] else Concat(groups[..|groups| - 1]) + groups[|groups| - 1]
  }

  /** Every element lands in exactly one chunk, in order: the chunks
      concatenate back to the covered prefix. */
  lemma {:induction false} ChunksCover<T>(groups: seq<seq<T>>, xs: seq<T>, size: nat, count: nat, n: nat)
    requires size > 0 && Chunked(groups, xs, size, count) && n <= count
    ensures n * size <= |xs|
    ensures Concat(groups[..n]) == xs[..n * size]
  {
    if n > 0 {
      ChunksCover(groups, xs, size, count, n - 1);
      assert groups[..n][..n - 1] == groups[..n - 1];
      var lo := (n - 1) * size;
      assert lo + size == n * size;
      assert groups[n - 1] == xs[lo..lo + size];
      assert xs[..n * size] == xs[..lo] + xs[lo..lo + size];
    } else {
      assert xs[..0] == [];
    }
  }

  /** With the index count a multiple of the vector width, the vectors of
      a load or store cover every index. */
  lemma VectorsCoverAll<T>(groups: seq<seq<T>>, idxs: seq<T>, vec: nat)
    requires vec > 0 && |idxs| % vec == 0 && Chunked(groups, idxs, vec, |idxs| / vec)
    ensures Concat(groups) == idxs
  {
    assert (|idxs| / vec) * vec == |idxs|;
    ChunksCover(groups, idxs, vec, |idxs| / vec, |idxs| / vec);
    assert groups[..|groups|] == groups;
  }

  // ---------------------------------------------------------------------
  // Constant words

  lemma DigitBound(lo: int, m: int, rest: int, p: int)
    requires 0 <= lo < m && 0 <= rest < p
    ensures lo + m * rest < m * p
  {
    MulMonotone(rest, p - 1, m);
  }

  /** The bits of a vector of `nbits`-bit lanes bit-cast to one integer,
      lane 0 in the low bits. */
  function PackBits(lanes: seq<int>, nbits: nat): (bits: nat)
    ensures bits < Pow2(nbits * |lanes|)
  {
    if |lanes| == 0 then 0
    else
      var m := Pow2(nbits);
      var rest := PackBits(lanes[1..], nbits);
      var k := |lanes| - 1;
      PackStepBound(lanes[0] % m, rest, nbits, k);
      assert k + 1 == |lanes|;
      lanes[0] % m + m * rest
  }

  /** The bit count of `k` lanes of `nbits` bits. */
  lemma LaneBits(nbits: nat, k: nat) returns (j: nat)
    ensures j == nbits * k
  {
    j := nbits * k;
  }

  /** One more lane below `nbits` bits widens the bound by `nbits` bits. */
  lemma PackStepBound(lo: int, rest: int, nbits: nat, k: nat)
    requires 0 <= lo < Pow2(nbits) && 0 <= rest < Pow2(nbits * k)
    ensures lo + Pow2(nbits) * rest < Pow2(nbits * (k + 1))
  {
    var j := LaneBits(nbits, k);
    Pow2Lanes(nbits, k);
    DigitBound(lo, Pow2(nbits), rest, Pow2(j));
  }

  /** Each lane is recovered from the packed word. */
  lemma {:induction false} LaneOfPacked(lanes: seq<int>, nbits: nat, s: nat)
    requires s < |lanes|
    ensures (PackBits(lanes, nbits) / Pow2(nbits * s)) % Pow2(nbits) == lanes[s] % Pow2(nbits)
  {
    var m := Pow2(nbits);
    var rest := PackBits(lanes[1..], nbits);
    var bits := PackBits(lanes, nbits);
    assert bits == rest * m + lanes[0] % m;
    DivModUnique(bits, m, rest, lanes[0] % m);
    if s > 0 {
      LaneOfPacked(lanes[1..], nbits, s - 1);
      var k := s - 1;
      Pow2Lanes(nbits, k);
      DivDiv(bits, m, Pow2(nbits * k));
    } else {
      assert Pow2(nbits * s) == 1;
    }
  }

  /** `getSExtValue` of a `width`-bit constant. */
  function SExt(bits: nat, width: nat): (v: int)
    requires 0 < width && bits < Pow2(width)
    ensures -(Pow2(width - 1) as int) <= v < Pow2(width - 1)
    ensures (v - bits) % Pow2(width) == 0
  {
    var h, m := Pow2(width - 1), Pow2(width);
    assert m == 2 * h;
    if bits >= h then
      NegatedModulus(m);
      bits - m
    else
      bits
  }

  lemma NegatedModulus(m: int)
    requires m > 0
    ensures (-m) % m == 0 && 0 % m == 0
  {
    DivModUnique(-m, m, -1, 0);
  }

  /** What `std::hex` prints for a signed 64-bit value: its two's
      complement bit pattern. */
  function Unsigned64(v: int): (u: nat)
    ensures u < TWO_64 && (u - v) % TWO_64 == 0
  {
    var m := TWO_64;
    assert v == (v / m) * m + v % m;
    DivModUnique(v % m - v, m, -(v / m), 0);
    v % m
  }

  /** The printed immediate has the word's bits in its low `width` bits,
      so a `mov` that keeps the low bits moves the right word. */
  lemma ImmediateLowBits(bits: nat, width: nat)
    requires 0 < width <= 64 && bits < Pow2(width)
    ensures Unsigned64(SExt(bits, width)) % Pow2(width) == bits
  {
    var rest: nat := 64 - width;
    var w, c := Pow2(width), Pow2(rest);
    assert w * c == TWO_64 by {
      Pow2Sum(width, rest, 64);
      Pow2Of64();
    }
    if bits >= Pow2(width - 1) {
      ImmediateOfNegative(bits, width, w, c);
    } else {
      ImmediateOfNonNegative(bits, width, w, c);
    }
  }

  lemma ImmediateOfNegative(bits: nat, width: nat, w: nat, c: nat)
    requires 0 < width <= 64 && w == Pow2(width) && bits < w && w * c == TWO_64
    requires bits >= Pow2(width - 1)
    ensures Unsigned64(SExt(bits, width)) % w == bits
  {
    var v := SExt(bits, width);
    assert v == bits - w;
    assert c >= 1;
    Unsigned64Negative(v, w, c);
    ModAfterWrap(bits, w, c);
  }

  lemma ImmediateOfNonNegative(bits: nat, width: nat, w: nat, c: nat)
    requires 0 < width <= 64 && w == Pow2(width) && bits < w && w * c == TWO_64
    requires bits < Pow2(width - 1)
    ensures Unsigned64(SExt(bits, width)) % w == bits
  {
    assert SExt(bits, width) == bits;
    assert c >= 1;
    assert 0 <= bits < TWO_64 by {
      MulMonotone(1, c, w);
    }
    Unsigned64Small(bits);
    ModAfterWrap(bits, w, 1);
  }

  lemma ModAfterWrap(bits: int, w: int, c: int)
    requires 0 <= bits < w && c >= 1
    ensures (bits - w + w * c) % w == bits
  {
    DivModUnique(bits - w + w * c, w, c - 1, bits);
  }

  lemma Unsigned64Small(v: int)
    requires 0 <= v < TWO_64
    ensures Unsigned64(v) == v
  {
    DivModUnique(v, TWO_64, 0, v);
  }

  /** A negative word of at least `-w` becomes `v + 2^64`. */
  lemma Unsigned64Negative(v: int, w: int, c: int)
    requires w * c == TWO_64 && c >= 1 && -w <= v < 0
    ensures Unsigned64(v) == v + w * c
  {
    MulMonotone(1, c, w);
    DivModUnique(v, TWO_64, -1, v + TWO_64);
  }

  // ---------------------------------------------------------------------
  // The fallback `mov`s of a masked load and the operand numbering

  /** A fallback word after the bit-cast: a constant (its signed value) or
      a run-time value built from the listed lanes. */
  datatype FallbackWord = ConstWord(sext: int) | RuntimeWord(lanes: seq<Ir.Val>)

  /** A word is constant when `bit_cast(v, iN)` of its lanes comes back
      as a `ConstantInt`. Whether it does is up to LLVM's constant folder,
      which is outside the generator, so its outcome is the parameter
      `folded`: the integer's `width` low bits, or `None` when the cast
      stays a run-time value or a constant expression. When the folder does
      produce the integer, its bits are the lanes packed as `PackBits` says. */
  function ClassifyWord(lanes: seq<Ir.Val>, width: nat, folded: Option<nat>): (w: FallbackWord)
    requires 0 < width && (folded.Some? ==> folded.value < Pow2(width))
    ensures w.ConstWord? <==> folded.Some?
    ensures w.ConstWord? ==> w.sext == SExt(folded.value, width)
    ensures w.ConstWord? && width <= 64 ==> Unsigned64(w.sext) % Pow2(width) == folded.value
    ensures w.RuntimeWord? ==> w.lanes == lanes
  {
    match folded
    case Some(bits) =>
      if width <= 64 then ImmediateLowBits(bits, width); ConstWord(SExt(bits, width))
      else ConstWord(SExt(bits, width))
    case None => RuntimeWord(lanes)
  }

  datatype MovSrc = Imm(value: int) | Operand(k: nat)

  /** `@!$pred mov.u<width> $dst, src;`. */
  datatype Mov = Mov(dst: nat, src: MovSrc)

  function CountRuntime(words: seq<FallbackWord>): (n: nat)
    ensures n <= |words|
  {
    if |words| == 0 then 0
    else CountRuntime(words[..|words| - 1]) + (if words[|words| - 1].RuntimeWord? then 1 else 0)
  }

  /** The lane lists of the run-time words, in order: the extra operands
      of the call. */
  function RuntimeOperands(words: seq<FallbackWord>): (ops: seq<seq<Ir.Val>>)
    ensures |ops| == CountRuntime(words)
  {
    if |words| == 0 then []
    else RuntimeOperands(words[..|words| - 1]) + (if words[|words| - 1].RuntimeWord? then [words[|words| - 1].lanes] else [])
  }

  /** The `mov` loop as written: word `ii` reads operand `n_words + 2 + ii`. */
  method FallbackMovsAsWritten(nWords: nat, words: seq<FallbackWord>) returns (movs: seq<Mov>, others: seq<seq<Ir.Val>>)
    ensures |movs| == |words|
    ensures forall ii :: 0 <= ii < |words| ==> movs[ii].dst == ii
    ensures forall ii :: 0 <= ii < |words| && words[ii].ConstWord? ==> movs[ii].src == Imm(words[ii].sext)
    ensures forall ii :: 0 <= ii < |words| && words[ii].RuntimeWord? ==> movs[ii].src == Operand(nWords + 2 + ii)
    ensures others == RuntimeOperands(words)
  {
    movs, others := [], [];
    var ii := 0;
    while ii < |words|
      invariant 0 <= ii <= |words| && |movs| == ii
      invariant forall i :: 0 <= i < ii ==> movs[i].dst == i
      invariant forall i :: 0 <= i < ii && words[i].ConstWord? ==> movs[i].src == Imm(words[i].sext)
      invariant forall i :: 0 <= i < ii && words[i].RuntimeWord? ==> movs[i].src == Operand(nWords + 2 + i)
      invariant others == RuntimeOperands(words[..ii])
    {
      assert words[..ii + 1][..ii] == words[..ii];
      if words[ii].ConstWord? {
        movs := movs + [Mov(ii, Imm(words[ii].sext))];
      } else {
        movs := movs + [Mov(ii, Operand(nWords + 2 + ii))];
        others := others + [words[ii].lanes];
      }
      ii := ii + 1;
    }
    assert words[..ii] == words;
  }

  /** The `mov` loop numbered by the operand list: word `ii` reads operand
      `n_words + 2 + j` where `j` counts the run-time words before it. */
  method FallbackMovs(nWords: nat, words: seq<FallbackWord>) returns (movs: seq<Mov>, others: seq<seq<Ir.Val>>)
    ensures |movs| == |words|
    ensures forall ii :: 0 <= ii < |words| ==> movs[ii].dst == ii
    ensures forall ii :: 0 <= ii < |words| && words[ii].ConstWord? ==> movs[ii].src == Imm(words[ii].sext)
    ensures forall ii :: 0 <= ii < |words| && words[ii].RuntimeWord? ==> movs[ii].src == Operand(nWords + 2 + CountRuntime(words[..ii]))
    ensures others == RuntimeOperands(words)
  {
    movs, others := [], [];
    var ii := 0;
    while ii < |words|
      invariant 0 <= ii <= |words| && |movs| == ii
      invariant forall i :: 0 <= i < ii ==> movs[i].dst == i
      invariant forall i :: 0 <= i < ii && words[i].ConstWord? ==> movs[i].src == Imm(words[i].sext)
      invariant forall i :: 0 <= i < ii && words[i].RuntimeWord? ==> movs[i].src == Operand(nWords + 2 + CountRuntime(words[..i]))
      invariant others == RuntimeOperands(words[..ii])
    {
      assert words[..ii + 1][..ii] == words[..ii];
      if words[ii].ConstWord? {
        movs := movs + [Mov(ii, Imm(words[ii].sext))];
      } else {
        movs := movs + [Mov(ii, Operand(nWords + 2 + |others|))];
        others := others + [words[ii].lanes];
      }
      ii := ii + 1;
    }
    assert words[..ii] == words;
  }

  /** The operands of the call: `n_words` outputs, the predicate, the
      pointer, then the run-time fallback words. */
  function OperandCount(nWords: nat, others: seq<seq<Ir.Val>>): nat {
    nWords + 2 + |others|
  }

  lemma {:induction false} RuntimeOperandAt(words: seq<FallbackWord>, ii: nat)
    requires ii < |words| && words[ii].RuntimeWord?
    ensures CountRuntime(words[..ii]) < |RuntimeOperands(words)|
    ensures RuntimeOperands(words)[CountRuntime(words[..ii])] == words[ii].lanes
  {
    var n := |words|;
    var front := words[..n - 1];
    if ii < n - 1 {
      assert front[..ii] == words[..ii];
      RuntimeOperandAt(front, ii);
    } else {
      assert front == words[..ii];
    }
  }

  /** Numbered by the operand list, every `mov` of a run-time word reads the
      operand that carries that word. */
  lemma MovsReadTheirWord(nWords: nat, words: seq<FallbackWord>, movs: seq<Mov>, others: seq<seq<Ir.Val>>, ii: nat)
    requires |movs| == |words| && others == RuntimeOperands(words)
    requires forall i :: 0 <= i < |words| && words[i].RuntimeWord? ==> movs[i].src == Operand(nWords + 2 + CountRuntime(words[..i]))
    requires ii < |words| && words[ii].RuntimeWord?
    ensures movs[ii].src.Operand? && nWords + 2 <= movs[ii].src.k < OperandCount(nWords, others)
    ensures others[movs[ii].src.k - nWords - 2] == words[ii].lanes
  {
    RuntimeOperandAt(words, ii);
  }

  /** A constant word among the first `m` leaves fewer than `m` run-time
      words there. */
  lemma {:induction false} ConstWordLowersCount(words: seq<FallbackWord>, j: nat)
    requires j < |words| && words[j].ConstWord?
    ensures CountRuntime(words) < |words|
  {
    var n := |words|;
    if j < n - 1 {
      ConstWordLowersCount(words[..n - 1], j);
    }
  }

  /** Constant words after position `m` add no run-time operand. */
  lemma {:induction false} TrailingConstWords(words: seq<FallbackWord>, m: nat)
    requires m <= |words| && forall i :: m <= i < |words| ==> words[i].ConstWord?
    ensures CountRuntime(words) == CountRuntime(words[..m])
  {
    var n := |words|;
    if m < n {
      assert words[..n - 1][..m] == words[..m];
      TrailingConstWords(words[..n - 1], m);
    } else {
      assert words[..m] == words;
    }
  }

  /** As written, a constant word before run-time word `ii` makes its `mov`
      read a later operand than the one carrying it, and past the end of
      the operand list when no run-time word follows. */
  lemma AsWrittenMisnumbered(nWords: nat, words: seq<FallbackWord>, movs: seq<Mov>, others: seq<seq<Ir.Val>>, ii: nat, j: nat)
    requires |movs| == |words| && others == RuntimeOperands(words)
    requires forall i :: 0 <= i < |words| && words[i].RuntimeWord? ==> movs[i].src == Operand(nWords + 2 + i)
    requires ii < |words| && words[ii].RuntimeWord? && j < ii && words[j].ConstWord?
    ensures movs[ii].src.Operand? && movs[ii].src.k > nWords + 2 + CountRuntime(words[..ii])
    ensures (forall i :: ii < i < |words| ==> words[i].ConstWord?) ==> movs[ii].src.k >= OperandCount(nWords, others)
  {
    ConstWordLowersCount(words[..ii], j);
    if forall i :: ii < i < |words| ==> words[i].ConstWord? {
      TrailingConstWords(words, ii + 1);
      assert words[..ii + 1][..ii] == words[..ii];
    }
  }

  /** Two words, constant then run-time. */
  const PastEndWords: seq<FallbackWord> := [ConstWord(0), RuntimeWord([Ir.Opaque(7)])]

  /** The smallest case: with `n_words = 2` and words constant then
      run-time, the numbering `FallbackMovsAsWritten` gives makes the second
      `mov` read `$5`, while the call's operands are `$0` to `$4`. */
  lemma AsWrittenOperandPastEnd(movs: seq<Mov>, others: seq<seq<Ir.Val>>)
    requires |movs| == |PastEndWords| && others == RuntimeOperands(PastEndWords)
    requires forall ii :: 0 <= ii < |PastEndWords| && PastEndWords[ii].RuntimeWord? ==> movs[ii].src == Operand(2 + 2 + ii)
    ensures OperandCount(2, others) == 5 && movs[1].src == Operand(5)
  {
    AsWrittenMisnumbered(2, PastEndWords, movs, others, 1, 0);
    assert PastEndWords[..1][..0] == [];
  }

  /** Without constant words the two numberings agree. */
  lemma {:induction false} AllRuntimeNumbering(words: seq<FallbackWord>, ii: nat)
    requires ii <= |words| && forall i :: 0 <= i < ii ==> words[i].RuntimeWord?
    ensures CountRuntime(words[..ii]) == ii
  {
    if ii > 0 {
      assert words[..ii][..ii - 1] == words[..ii - 1];
      AllRuntimeNumbering(words, ii - 1);
    }
  }

  // ---------------------------------------------------------------------
  // Constraint string

  function RegCode(width: nat): string {
    if width == 64 then "l" else if width == 32 then "r" else "c"
  }

  /** The operand constraints one by one. */
  function ConstraintItems(nWords: nat, width: nat, nOthers: nat): (items: seq<string>)
    ensures |items| == nWords + 2 + nOthers
    ensures forall ii :: 0 <= ii < nWords ==> items[ii] == "=" + RegCode(width)
    ensures items[nWords] == "b" && items[nWords + 1] == "l"
    ensures forall ii :: nWords + 2 <= ii < |items| ==> items[ii] == RegCode(width)
  {
    seq(nWords, _ => "=" + RegCode(width)) + ["b", "l"] + seq(nOthers, _ => RegCode(width))
  }

  /** The constraint loop: outputs, then `,b,l`, then one input per run-time
      fallback word. */
  method ConstraintString(nWords: nat, width: nat, nOthers: nat) returns (c: string)
    requires nWords >= 1
    ensures c == Join(ConstraintItems(nWords, width, nOthers), ',')
  {
    var reg := RegCode(width);
    ghost var items := ConstraintItems(nWords, width, nOthers);
    c := OutputConstraints(items, nWords, reg);
    JoinStep(items, nWords, ',');
    JoinStep(items, nWords + 1, ',');
    c := c + ",b,l";
    c := InputConstraints(c, items, nWords + 2, nOthers, reg);
  }

  /** The first loop: `=c` for each of the first `n` items, comma separated. */
  method OutputConstraints(ghost items: seq<string>, n: nat, reg: string) returns (c: string)
    requires 1 <= n <= |items| && forall i :: 0 <= i < n ==> items[i] == "=" + reg
    ensures c == Join(items[..n], ',')
  {
    c := "=" + reg;
    assert items[..1] == [items[0]];
    var ii := 1;
    while ii < n
      invariant 1 <= ii <= n
      invariant c == Join(items[..ii], ',')
    {
      JoinStep(items, ii, ',');
      c := c + "," + ("=" + reg);
      ii := ii + 1;
    }
  }

  /** The last loop: `,c` for each of the `count` items after the first
      `from`. */
  method InputConstraints(c0: string, ghost items: seq<string>, from: nat, count: nat, reg: string) returns (c: string)
    requires 1 <= from && from + count == |items| && c0 == Join(items[..from], ',')
    requires forall i :: from <= i < |items| ==> items[i] == reg
    ensures c == Join(items, ',')
  {
    c := c0;
    var ii := 0;
    while ii < count
      invariant 0 <= ii <= count
      invariant c == Join(items[..from + ii], ',')
    {
      JoinStep(items, from + ii, ',');
      c := c + "," + reg;
      ii := ii + 1;
    }
    assert items[..from + count] == items;
  }

  /** The constraint string lists exactly one constraint per operand: the
      `n_words` outputs, the predicate `$n_words` (a predicate register),
      the pointer `$n_words+1` (64 bits) and the run-time words. */
  lemma ConstraintsPerOperand(nWords: nat, width: nat, others: seq<seq<Ir.Val>>, c: string)
    requires nWords >= 1 && c == Join(ConstraintItems(nWords, width, |others|), ',')
    ensures |Split(c, ',')| == OperandCount(nWords, others)
    ensures Split(c, ',')[nWords] == "b" && Split(c, ',')[nWords + 1] == "l"
  {
    var items := ConstraintItems(nWords, width, |others|);
    assert NoSep(items, ',') by {
      forall k, j | 0 <= k < |items| && 0 <= j < |items[k]|
        ensures items[k][j] != ','
      {
        if k < nWords {
          assert items[k] == "=" + RegCode(width);
        } else if k >= nWords + 2 {
          assert items[k] == RegCode(width);
        }
      }
    }
    SplitJoin(items, ',');
  }

  // ---------------------------------------------------------------------
  // The assembly text

  datatype Cache = NoCache | CacheAll | CacheGlobal

  function CacheSuffix(c: Cache): string {
    match c
    case NoCache => ""
    case CacheAll => ".ca"
    case CacheGlobal => ".cg"
  }

  function Register(k: nat): string {
    "$" + Decimal(k)
  }

  function Registers(n: nat): (regs: seq<string>)
    ensures |regs| == n && forall k :: 0 <= k < n ==> regs[k] == Register(k)
  {
    seq(n, k requires 0 <= k < n => Register(k))
  }

  function MovText(nWords: nat, width: nat, m: Mov): string {
    "\n        @!" + Register(nWords) + " mov.u" + Decimal(width) + " " + Register(m.dst) + ", "
      + (match m.src
         case Imm(v) => "0x" + Hex(Unsigned64(v))
         case Operand(k) => Register(k))
      + ";"
  }

  /** `.v2` or `.v4` for a vector of words, nothing for one word. */
  function VectorSuffix(nWords: nat): string {
    if nWords > 1 then ".v" + Decimal(nWords) else ""
  }

  /** The load line: guarded by the predicate, vector suffix only for more
      than one word, outputs `$0..$n_words-1`, address `$n_words+1` plus the
      constant offset. */
  function LoadLine(nWords: nat, width: nat, cache: Cache, inOff: nat): string {
    "@" + Register(nWords) + " ld.global" + CacheSuffix(cache)
      + VectorSuffix(nWords)
      + ".b" + Decimal(width)
      + " {" + Join(Registers(nWords), ',') + "}"
      + ", [ " + Register(nWords + 1) + " + " + Decimal(inOff) + "];"
  }

  /** The fallback `mov` lines, one per `mov`. */
  function MovLines(nWords: nat, width: nat, movs: seq<Mov>): (lines: seq<string>)
    ensures |lines| == |movs|
    ensures forall k :: 0 <= k < |movs| ==> lines[k] == MovText(nWords, width, movs[k])
  {
    seq(|movs|, k requires 0 <= k < |movs| => MovText(nWords, width, movs[k]))
  }

  /** The output operand list `$0,$1,...`. */
  method RegisterList(n: nat) returns (list: string)
    requires n >= 1
    ensures list == Join(Registers(n), ',')
  {
    var regs := Registers(n);
    list := "";
    var i := 0;
    while i < n
      invariant 0 <= i <= n
      invariant i > 0 ==> list == Join(regs[..i], ',')
      invariant i == 0 ==> list == ""
    {
      if i > 0 {
        list := list + ",";
        JoinSnoc(regs[..i], regs[i], ',');
        assert regs[..i + 1] == regs[..i] + [regs[i]];
      } else {
        assert regs[..1] == [regs[0]];
      }
      list := list + "$" + Decimal(i);
      i := i + 1;
    }
    assert regs[..n] == regs;
  }

  /** The `ostringstream` appends of `visit_load_inst`: the load line,
      then one line per fallback `mov`. */
  method RenderLoad(nWords: nat, width: nat, cache: Cache, inOff: nat, movs: seq<Mov>) returns (text: string)
    requires nWords >= 1
    ensures text == LoadLine(nWords, width, cache, inOff) + Concat(MovLines(nWords, width, movs))
  {
    text := RenderLoadLine(nWords, width, cache, inOff);
    text := AppendLines(text, MovLines(nWords, width, movs));
  }

  /** Appending `lines` one after the other to `prefix`. */
  method AppendLines(prefix: string, lines: seq<string>) returns (text: string)
    ensures text == prefix + Concat(lines)
  {
    text := prefix;
    assert lines[..0] == [];
    var j := 0;
    while j < |lines|
      invariant 0 <= j <= |lines|
      invariant text == prefix + Concat(lines[..j])
    {
      assert lines[..j + 1][..j] == lines[..j];
      text := text + lines[j];
      j := j + 1;
    }
    assert lines[..j] == lines;
  }

  /** The predicated `ld.global` line with its output list. */
  method RenderLoadLine(nWords: nat, width: nat, cache: Cache, inOff: nat) returns (text: string)
    requires nWords >= 1
    ensures text == LoadLine(nWords, width, cache, inOff)
  {
    text := "@" + Register(nWords) + " ld.global" + CacheSuffix(cache) + VectorSuffix(nWords);
    text := text + ".b" + Decimal(width) + " {";
    var list := RegisterList(nWords);
    text := text + list + "}" + ", [ " + Register(nWords + 1) + " + " + Decimal(inOff) + "];";
  }

  /** The output list names `$0` to `$n_words-1` in order, one per word. */
  lemma OutputRegisters(nWords: nat)
    requires nWords >= 1
    ensures Split(Join(Registers(nWords), ','), ',') == Registers(nWords)
  {
    var regs := Registers(nWords);
    assert NoSep(regs, ',') by {
      forall k, j | 0 <= k < nWords && 0 <= j < |regs[k]|
        ensures regs[k][j] != ','
      {
        var d := Decimal(k);
        assert regs[k] == "$" + d;
        if j > 0 {
          assert regs[k][j] == d[j - 1];
          assert IsDigitChar(d[j - 1], 10);
        }
      }
    }
    SplitJoin(regs, ',');
  }

  // ---------------------------------------------------------------------
  // Address

  /** A constant first index of a `getelementptr` address becomes the
      instruction's byte offset (printed unsigned, as the source's
      `size_t`); any other address is used as is with offset 0. */
  function FoldConstantOffset(ptr: Ir.Val, dtsize: nat): (r: (Ir.Val, nat))
    ensures r.1 < TWO_64
  {
    match ptr
    case Gep(base, ConstInt(c, _)) => (base, Unsigned64(c * dtsize))
    case _ => (ptr, 0)
  }

  /** The byte address a pointer term denotes, with the bases and run-time
      offsets given by `env`. */
  function Address(v: Ir.Val, env: int -> int, dtsize: nat): Option<int> {
    match v
    case Opaque(id) => Some(env(id))
    case Gep(base, off) =>
      var b := Address(base, env, dtsize);
      var o := OffsetValue(off, env);
      if b.Some? && o.Some? then Some(b.value + o.value * dtsize) else None
    case _ => None
  }

  function OffsetValue(v: Ir.Val, env: int -> int): Option<int> {
    match v
    case ConstInt(c, _) => Some(c)
    case Opaque(id) => Some(env(id))
    case _ => None
  }

  /** Folding the offset keeps the address modulo 2^64. */
  lemma FoldKeepsAddress(ptr: Ir.Val, env: int -> int, dtsize: nat)
    requires Address(ptr, env, dtsize).Some?
    ensures Address(FoldConstantOffset(ptr, dtsize).0, env, dtsize).Some?
    ensures (Address(FoldConstantOffset(ptr, dtsize).0, env, dtsize).value + FoldConstantOffset(ptr, dtsize).1
             - Address(ptr, env, dtsize).value) % TWO_64 == 0
  {
    if ptr.Gep? && ptr.offset.ConstInt? {
      var a := Address(ptr.base, env, dtsize).value;
      var x := ptr.offset.value * dtsize;
      assert Address(ptr, env, dtsize).value == a + x;
      assert (a + Unsigned64(x)) - (a + x) == Unsigned64(x) - x;
    } else {
      assert FoldConstantOffset(ptr, dtsize) == (ptr, 0);
      assert 0 % TWO_64 == 0;
    }
  }
}
