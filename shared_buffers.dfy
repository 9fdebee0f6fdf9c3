/** Multi-versioned shared-memory buffers (`visit_layout_shared`,
    `finalize_shared_layout` and the pointer choice of `visit_value`).

    At compile time the generator creates phi nodes for a buffered layout
    and wires their incoming edges; at run time those phis rotate through
    the stages of the buffer, one step per loop iteration.  The model keeps
    both views: the pointer terms the generator picks (as `Ir.Val`), and
    the values the phis hold in iteration `t`, with lemmas tying the two
    together through `Eval`. */
module SharedBuffers {
  import opened Wrappers
  import opened MixedRadix
  import Ir

  // ---------------------------------------------------------------------
  // Modular helpers

  lemma ModSucc(x: int, n: int)
    requires n > 0
    ensures ((x % n) + 1) % n == (x + 1) % n
  {
    var q, r := x / n, x % n;
    assert x == q * n + r;
    if r + 1 < n {
      DivModUnique(x + 1, n, q, r + 1);
      DivModUnique(r + 1, n, 0, r + 1);
    } else {
      Distribute(q, 1, n);
      DivModUnique(x + 1, n, q + 1, 0);
      DivModUnique(r + 1, n, 1, 0);
    }
  }

  lemma ModPeriod(x: int, n: int)
    requires n > 0
    ensures (x + n) % n == x % n
  {
    var q, r := x / n, x % n;
    assert x == q * n + r;
    Distribute(q, 1, n);
    DivModUnique(x + n, n, q + 1, r);
  }

  /** Two numbers less than `n` apart have different residues. */
  lemma ModDistinct(x: int, y: int, n: int)
    requires n > 0 && 0 < y - x < n
    ensures x % n != y % n
  {
    if x % n == y % n {
      var q := y / n - x / n;
      assert y == (y / n) * n + y % n && x == (x / n) * n + x % n;
      assert y - x == q * n by {
        assert (y / n) * n - (x / n) * n == q * n;
      }
      if q <= 0 {
        MulMonotone(q, 0, n);
      } else {
        MulMonotone(1, q, n);
      }
    }
  }

  lemma SmallMod(x: int, n: int)
    requires 0 <= x < n
    ensures x % n == x
  {
    DivModUnique(x, n, 0, x);
  }

  // ---------------------------------------------------------------------
  // N-stage buffers: the index phis

  /** The block `finalize_smem_idx` inserts at the end of the loop body:
      wrap to stage 0 after the last stage, otherwise count up. */
  function Step(idx: int, stages: int): (next: int)
    requires stages >= 1
    ensures 0 <= idx < stages ==> next == (idx + 1) % stages
  {
    if 0 <= idx < stages then
      if idx == stages - 1 then
        assert idx + 1 == 1 * stages + 0;
        DivModUnique(idx + 1, stages, 1, 0);
        0
      else
        SmallMod(idx + 1, stages);
        idx + 1
    else
      if idx == stages - 1 then 0 else idx + 1
  }

  /** The seed of the read index (on the edge from the loop header). */
  const ReadSeed: int := 2

  /** The seed of the write index. */
  function WriteSeed(stages: int): int {
    stages - 1
  }

  /** The value an index phi holds in iteration `t` of the loop: the seed
      on the header edge, then one `Step` per latch edge. */
  function IndexAt(seed: int, stages: int, t: nat): int
    requires stages >= 1
  {
    if t == 0 then seed else Step(IndexAt(seed, stages, t - 1), stages)
  }

  /** From a seed in range, the index in iteration `t` is the seed advanced
      by `t` stages, cyclically. */
  lemma {:induction false} IndexAtClosedForm(seed: int, stages: int, t: nat)
    requires 0 <= seed < stages
    ensures IndexAt(seed, stages, t) == (seed + t) % stages
  {
    if t == 0 {
      SmallMod(seed, stages);
    } else {
      IndexAtClosedForm(seed, stages, t - 1);
      ModSucc(seed + t - 1, stages);
    }
  }

  /** The index stays in `[0, stages)` and comes back every `stages`
      iterations; in particular the write index returns to `stages - 1`. */
  lemma IndexBoundedPeriodic(seed: int, stages: int, t: nat)
    requires 0 <= seed < stages
    ensures 0 <= IndexAt(seed, stages, t) < stages
    ensures IndexAt(seed, stages, t + stages) == IndexAt(seed, stages, t)
    ensures IndexAt(seed, stages, stages) == seed
  {
    IndexAtClosedForm(seed, stages, t);
    IndexAtClosedForm(seed, stages, t + stages);
    IndexAtClosedForm(seed, stages, stages);
    ModPeriod(seed + t, stages);
    ModPeriod(seed, stages);
    SmallMod(seed, stages);
  }

  // ---------------------------------------------------------------------
  // N-stage buffers: the pointer phis, in elements past the pre-pointer

  /** `shared_next_ptr_`: `pre + per_stage` on the header edge, and
      `pre + read_idx * per_stage` (the read phi of the iteration that
      takes the latch) on the loop edge. */
  function NextOffsetAt(stages: int, perStage: int, t: nat): int
    requires stages >= 1
  {
    if t == 0 then perStage else IndexAt(ReadSeed, stages, t - 1) * perStage
  }

  /** `shared_ptr_`: the pre-pointer on the header edge, the previous next
      pointer on the loop edge. */
  function CurrOffsetAt(stages: int, perStage: int, t: nat): int
    requires stages >= 1
  {
    if t == 0 then 0 else NextOffsetAt(stages, perStage, t - 1)
  }

  /** With at least three stages, iteration `t` works on stage
      `t mod stages` and its next pointer is the following stage: the read
      seed 2 is what makes the loop edge line up with the header edge. */
  lemma CurrentStage(stages: int, perStage: int, t: nat)
    requires stages >= 3
    ensures CurrOffsetAt(stages, perStage, t) == (t % stages) * perStage
    ensures NextOffsetAt(stages, perStage, t) == ((t + 1) % stages) * perStage
  {
    SmallMod(1, stages);
    SmallMod(0, stages);
    if t > 0 {
      IndexAtClosedForm(ReadSeed, stages, t - 1);
      assert ReadSeed + (t - 1) == t + 1;
    }
    if t > 1 {
      IndexAtClosedForm(ReadSeed, stages, t - 2);
      assert ReadSeed + (t - 2) == t;
    }
  }

  /** The stage iteration `u` works on. */
  function StageOf(u: int, stages: int): int
    requires stages >= 1
  {
    u % stages
  }

  /** The stage the latch value is written to in iteration `t` (the write
      phi) is the one iteration `t + stages - 1` works on, and none of the
      iterations in between touches it. */
  lemma WriteStageLag(stages: int, perStage: int, t: nat)
    requires stages >= 3
    ensures IndexAt(WriteSeed(stages), stages, t) * perStage == CurrOffsetAt(stages, perStage, t + stages - 1)
    ensures forall u :: t <= u < t + stages - 1 ==> IndexAt(WriteSeed(stages), stages, t) != StageOf(u, stages)
  {
    var w := IndexAt(WriteSeed(stages), stages, t);
    var later: nat := t + stages - 1;
    IndexAtClosedForm(WriteSeed(stages), stages, t);
    assert w == later % stages;
    CurrentStage(stages, perStage, later);
    forall u | t <= u < later
      ensures w != StageOf(u, stages)
    {
      ModDistinct(u, later, stages);
    }
  }

  /** The run-time state of one N-stage layout inside its loop: the two
      index phis and the two pointer phis (addresses in elements). */
  class StageRotation {
    const stages: int
    const perStage: int
    const base: int
    var readIdx: int
    var writeIdx: int
    var curr: int
    var next: int
    ghost var iteration: nat

    ghost predicate Valid()
      reads this
    {
      stages >= 3
      && readIdx == IndexAt(ReadSeed, stages, iteration)
      && writeIdx == IndexAt(WriteSeed(stages), stages, iteration)
      && curr == base + CurrOffsetAt(stages, perStage, iteration)
      && next == base + NextOffsetAt(stages, perStage, iteration)
    }

    /** Entering the loop from the header. */
    constructor (base: int, stages: int, perStage: int)
      requires stages >= 3
      ensures Valid() && iteration == 0
      ensures this.base == base && this.stages == stages && this.perStage == perStage
      ensures readIdx == 2 && writeIdx == stages - 1
      ensures curr == base && next == base + perStage
    {
      this.base := base;
      this.stages := stages;
      this.perStage := perStage;
      readIdx := 2;
      writeIdx := stages - 1;
      curr := base;
      next := base + perStage;
      iteration := 0;
    }

    /** Taking the latch edge: every phi takes its loop-edge incoming value,
        all computed from the values of the iteration that ends. */
    method Latch()
      requires Valid()
      modifies this
      ensures Valid() && iteration == old(iteration) + 1
      ensures readIdx == Step(old(readIdx), stages) && writeIdx == Step(old(writeIdx), stages)
      ensures curr == old(next) && next == base + old(readIdx) * perStage
    {
      var r := readIdx;
      readIdx := Step(readIdx, stages);
      writeIdx := Step(writeIdx, stages);
      curr := next;
      next := base + r * perStage;
      iteration := iteration + 1;
    }

    /** The stage the current pointer addresses: the one after the stage
        the latch writes. */
    function CurrStage(): (s: int)
      reads this
      requires Valid()
      ensures 0 <= s < stages && curr == base + s * perStage
      ensures s != writeIdx
    {
      CurrStageIsNextOfWrite(stages, perStage, iteration);
      Step(writeIdx, stages)
    }
  }

  lemma CurrStageIsNextOfWrite(stages: int, perStage: int, t: nat)
    requires stages >= 3
    ensures var w := IndexAt(WriteSeed(stages), stages, t);
            0 <= w < stages && Step(w, stages) != w
            && CurrOffsetAt(stages, perStage, t) == Step(w, stages) * perStage
  {
    var w := IndexAt(WriteSeed(stages), stages, t);
    IndexAtClosedForm(WriteSeed(stages), stages, t);
    assert w == (t + stages - 1) % stages;
    ModSucc(t + stages - 1, stages);
    ModPeriod(t, stages);
    assert t + stages - 1 + 1 == t + stages;
    CurrentStage(stages, perStage, t);
  }

  // ---------------------------------------------------------------------
  // Double buffers

  /** The seed of the offset phi: half the buffer, in elements
      (`size / (2 * num_bytes)` with `num_bytes = bits / 8`). */
  function HalfBuffer(sizeBytes: nat, eltBits: nat): (h: nat)
    requires eltBits >= 8
    ensures h * (2 * (eltBits / 8)) <= sizeBytes < (h + 1) * (2 * (eltBits / 8))
  {
    var d := 2 * (eltBits / 8);
    assert sizeBytes == (sizeBytes / d) * d + sizeBytes % d;
    Distribute(sizeBytes / d, 1, d);
    sizeBytes / d
  }

  /** The offset phi in iteration `t`: the seed on the entry edge, its
      negation on the latch edge. */
  function DoubleOffsetAt(half: int, t: nat): int {
    if t == 0 then half else -DoubleOffsetAt(half, t - 1)
  }

  /** The pointer phi in iteration `t`: the pre-pointer on the entry edge,
      `next_ptr = ptr + offset` on the latch edge. */
  function DoublePtrAt(pre: int, half: int, t: nat): int {
    if t == 0 then pre else DoublePtrAt(pre, half, t - 1) + DoubleOffsetAt(half, t - 1)
  }

  /** The offset alternates in sign, and the pointer alternates between
      the two halves; the next pointer is always the other half. */
  lemma {:induction false} DoubleBufferAlternates(pre: int, half: int, t: nat)
    ensures DoubleOffsetAt(half, t) == if t % 2 == 0 then half else -half
    ensures DoublePtrAt(pre, half, t) == pre + (t % 2) * half
    ensures DoublePtrAt(pre, half, t) + DoubleOffsetAt(half, t) == pre + ((t + 1) % 2) * half
  {
    if t > 0 {
      DoubleBufferAlternates(pre, half, t - 1);
      if t % 2 == 0 {
        assert (t - 1) % 2 == 1;
      } else {
        assert (t - 1) % 2 == 0;
      }
    }
  }

  /** The run-time state of one double-buffered layout inside its loop. */
  class PingPong {
    const pre: int
    const half: int
    var ptr: int
    var offset: int
    ghost var iteration: nat

    ghost predicate Valid()
      reads this
    {
      ptr == DoublePtrAt(pre, half, iteration) && offset == DoubleOffsetAt(half, iteration)
    }

    constructor (pre: int, half: int)
      ensures Valid() && iteration == 0
      ensures this.pre == pre && this.half == half && ptr == pre && offset == half
    {
      this.pre := pre;
      this.half := half;
      ptr := pre;
      offset := half;
      iteration := 0;
    }

    method Latch()
      requires Valid()
      modifies this
      ensures Valid() && iteration == old(iteration) + 1
      ensures ptr == old(ptr) + old(offset) && offset == -old(offset)
    {
      ptr := ptr + offset;
      offset := -offset;
      iteration := iteration + 1;
    }

    /** Which half the pointer is on. */
    ghost function Half(): (k: int)
      reads this
      requires Valid()
      ensures (k == 0 || k == 1) && ptr == pre + k * half
      ensures ptr + offset == pre + (1 - k) * half
    {
      DoubleBufferAlternates(pre, half, iteration);
      iteration % 2
    }
  }

  // ---------------------------------------------------------------------
  // The values the generator creates and picks

  /** Handles for the phis `visit_layout_shared` creates. */
  datatype PhiTokens = PhiTokens(readIdx: int, writeIdx: int, curr: int, next: int, off: int)

  /** The per-layout values: `shared_ptr_`, `shared_pre_ptr_`,
      `shared_next_ptr_`, `shared_off_`, `read_smem_idx_`,
      `write_smem_idx_`; an entry the generator never sets is `Null`. */
  datatype LayoutPtrs = LayoutPtrs(
    sharedPtr: Ir.Val, prePtr: Ir.Val, nextPtr: Ir.Val, sharedOff: Ir.Val, readIdx: Ir.Val, writeIdx: Ir.Val)

  /** The pointer into the arena at the layout's allocation offset (in
      bytes), cast to a pointer to the element type. */
  function ArenaPointer(arena: int, allocOffset: int, elt: Ir.ScalarTy): Ir.Val {
    Ir.Cast(Ir.BitCast, Ir.Gep(Ir.Opaque(arena), Ir.ConstInt(allocOffset, 32)), elt)
  }

  /** `visit_layout_shared`. */
  function LayoutPointers(b: Ir.Buffering, arena: int, allocOffset: int, elt: Ir.ScalarTy, tok: PhiTokens): (p: LayoutPtrs)
    ensures !b.Single? ==> p.prePtr == ArenaPointer(arena, allocOffset, elt)
    ensures b.Single? ==> p.sharedPtr == ArenaPointer(arena, allocOffset, elt) && p.prePtr == Ir.Null
    ensures b.DoubleBuffer? ==> p.nextPtr == Ir.Gep(p.sharedPtr, p.sharedOff)
  {
    var pre := ArenaPointer(arena, allocOffset, elt);
    match b
    case NBuffer(_, _, _, _, _, _) =>
      LayoutPtrs(Ir.Opaque(tok.curr), pre, Ir.Opaque(tok.next), Ir.Null, Ir.Opaque(tok.readIdx), Ir.Opaque(tok.writeIdx))
    case DoubleBuffer(_, _, _) =>
      LayoutPtrs(Ir.Opaque(tok.curr), pre, Ir.Gep(Ir.Opaque(tok.curr), Ir.Opaque(tok.off)), Ir.Opaque(tok.off), Ir.Null, Ir.Null)
    case Single =>
      LayoutPtrs(pre, Ir.Null, Ir.Null, Ir.Null, Ir.Null, Ir.Null)
  }

  /** What `visit_value` stores in `shmems_[v]` and `shoffs_[v]`
      (`Null` for the null offset). */
  datatype BufferRef = BufferRef(ptr: Ir.Val, offset: Ir.Val)

  /** The pointer choice of `visit_value` for a value with a shared
      layout. `firsts_idx.at(v)` throws for a first without a stage. */
  function ChooseBufferPointer(v: Ir.Id, b: Ir.Buffering, p: LayoutPtrs): (r: Result<BufferRef>)
    ensures r.Err? <==> b.NBuffer? && v in b.firsts && v !in b.firstsIdx
    ensures r.Ok? && !b.DoubleBuffer? ==> r.value.offset == Ir.Null
    ensures r.Ok? && b.DoubleBuffer? ==> (r.value.offset != Ir.Null <==> v == b.phi && p.sharedOff != Ir.Null)
    ensures r.Ok? && b.Single? ==> r.value.ptr == p.sharedPtr
  {
    match b
    case Single => Ok(BufferRef(p.sharedPtr, Ir.Null))
    case NBuffer(phi, firsts, firstsIdx, latch, perStage, _) =>
      // the phi keeps the default `shared_ptr_`
      if v in firsts then
        if v in firstsIdx then
          Ok(BufferRef(Ir.Gep(p.prePtr, Ir.ConstInt(firstsIdx[v] * perStage, 32)), Ir.Null))
        else Err("map::at")
      else if v == latch then
        Ok(BufferRef(Ir.Gep(p.prePtr, Ir.Bin(Ir.Mul, p.writeIdx, Ir.ConstInt(perStage, 32))), Ir.Null))
      else Ok(BufferRef(p.sharedPtr, Ir.Null))
    case DoubleBuffer(phi, latch, first) =>
      var offset := if v == phi then p.sharedOff else Ir.Null;
      var ptr := if v == latch then p.nextPtr else if v == first then p.prePtr else p.sharedPtr;
      Ok(BufferRef(ptr, offset))
  }

  // ---------------------------------------------------------------------
  // Evaluating pointer terms at run time

  /** Byte address or integer value of a term, given the run-time values
      of the opaque handles. A `gep` scales its offset by the size of what
      its base points to: one byte for the arena, `eltBytes` for pointers
      of the layout's element type. */
  function Eval(v: Ir.Val, env: int -> int, arena: int, eltBytes: int): Option<int> {
    match v
    case Opaque(id) => Some(env(id))
    case ConstInt(c, _) => Some(c)
    case Cast(cop, x, _) => if cop == Ir.BitCast then Eval(x, env, arena, eltBytes) else None
    case Bin(bop, x, y) =>
      var a, b := Eval(x, env, arena, eltBytes), Eval(y, env, arena, eltBytes);
      if bop == Ir.Mul && a.Some? && b.Some? then Some(a.value * b.value) else None
    case Gep(x, o) =>
      var a, b := Eval(x, env, arena, eltBytes), Eval(o, env, arena, eltBytes);
      var scale := if x == Ir.Opaque(arena) then 1 else eltBytes;
      if a.Some? && b.Some? then Some(a.value + b.value * scale) else None
    case _ => None
  }

  /** The pre-pointer is the arena address plus the allocation offset. */
  lemma PrePointerAddress(arena: int, allocOffset: int, elt: Ir.ScalarTy, env: int -> int, eltBytes: int)
    ensures Eval(ArenaPointer(arena, allocOffset, elt), env, arena, eltBytes) == Some(env(arena) + allocOffset)
  {
    var g := Ir.Gep(Ir.Opaque(arena), Ir.ConstInt(allocOffset, 32));
    assert Eval(Ir.Opaque(arena), env, arena, eltBytes) == Some(env(arena));
    assert Eval(Ir.ConstInt(allocOffset, 32), env, arena, eltBytes) == Some(allocOffset);
    assert Eval(g, env, arena, eltBytes) == Some(env(arena) + allocOffset * 1);
  }

  /** The run-time values of an N-stage layout's phis in iteration `t`. */
  ghost predicate NBufferEnv(env: int -> int, arena: int, allocOffset: int, eltBytes: int,
                             tok: PhiTokens, stages: int, perStage: int, t: nat)
    requires stages >= 1
  {
    var pre := env(arena) + allocOffset;
    arena != tok.curr
    && env(tok.readIdx) == IndexAt(ReadSeed, stages, t)
    && env(tok.writeIdx) == IndexAt(WriteSeed(stages), stages, t)
    && env(tok.curr) == pre + CurrOffsetAt(stages, perStage, t) * eltBytes
    && env(tok.next) == pre + NextOffsetAt(stages, perStage, t) * eltBytes
  }

  /** In iteration `t`, the pointer `visit_value` gives the phi addresses
      stage `t mod stages`, each first addresses its own prologue stage,
      and the latch addresses the stage iteration `t + stages - 1` will
      work on. */
  lemma NBufferPointers(v: Ir.Id, b: Ir.Buffering, arena: int, allocOffset: int, elt: Ir.ScalarTy,
                        eltBytes: int, tok: PhiTokens, env: int -> int, t: nat)
    requires b.NBuffer? && b.stages >= 3
    requires NBufferEnv(env, arena, allocOffset, eltBytes, tok, b.stages, b.perStage, t)
    requires ChooseBufferPointer(v, b, LayoutPointers(b, arena, allocOffset, elt, tok)).Ok?
    ensures var ptr := ChooseBufferPointer(v, b, LayoutPointers(b, arena, allocOffset, elt, tok)).value.ptr;
            var pre := env(arena) + allocOffset;
            Eval(ptr, env, arena, eltBytes) == Some(
              if v in b.firsts then pre + (b.firstsIdx[v] * b.perStage) * eltBytes
              else if v == b.latch then pre + (CurrOffsetAt(b.stages, b.perStage, t + b.stages - 1)) * eltBytes
              else pre + ((t % b.stages) * b.perStage) * eltBytes)
  {
    var p := LayoutPointers(b, arena, allocOffset, elt, tok);
    var r := ChooseBufferPointer(v, b, p).value;
    if v in b.firsts {
      var k := b.firstsIdx[v] * b.perStage;
      assert r.ptr == Ir.Gep(p.prePtr, Ir.ConstInt(k, 32));
      OffsetFromPre(arena, allocOffset, elt, env, eltBytes, Ir.ConstInt(k, 32), k);
    } else if v == b.latch {
      WriteStageLag(b.stages, b.perStage, t);
      var m := Ir.Bin(Ir.Mul, p.writeIdx, Ir.ConstInt(b.perStage, 32));
      assert r.ptr == Ir.Gep(p.prePtr, m);
      assert Eval(m, env, arena, eltBytes) == Some(IndexAt(WriteSeed(b.stages), b.stages, t) * b.perStage);
      OffsetFromPre(arena, allocOffset, elt, env, eltBytes, m, IndexAt(WriteSeed(b.stages), b.stages, t) * b.perStage);
    } else {
      CurrentStage(b.stages, b.perStage, t);
      assert r.ptr == Ir.Opaque(tok.curr);
    }
  }

  /** An element offset from the pre-pointer. */
  lemma OffsetFromPre(arena: int, allocOffset: int, elt: Ir.ScalarTy, env: int -> int, eltBytes: int,
                      off: Ir.Val, k: int)
    requires Eval(off, env, arena, eltBytes) == Some(k)
    ensures Eval(Ir.Gep(ArenaPointer(arena, allocOffset, elt), off), env, arena, eltBytes)
            == Some(env(arena) + allocOffset + k * eltBytes)
  {
    PrePointerAddress(arena, allocOffset, elt, env, eltBytes);
  }

  /** The run-time values of a double-buffered layout's phis. */
  ghost predicate DoubleEnv(env: int -> int, arena: int, allocOffset: int, eltBytes: int,
                            tok: PhiTokens, half: int, t: nat)
  {
    var pre := env(arena) + allocOffset;
    arena != tok.curr
    && env(tok.curr) == DoublePtrAt(pre, half * eltBytes, t)
    && env(tok.off) == DoubleOffsetAt(half, t)
  }

  /** In iteration `t` the phi of a double buffer addresses half `t mod 2`,
      the latch the other half and the first value the start of the
      buffer; only the phi carries the offset. */
  lemma DoubleBufferPointers(v: Ir.Id, b: Ir.Buffering, arena: int, allocOffset: int, elt: Ir.ScalarTy,
                             eltBytes: int, tok: PhiTokens, half: int, env: int -> int, t: nat)
    requires b.DoubleBuffer?
    requires DoubleEnv(env, arena, allocOffset, eltBytes, tok, half, t)
    ensures var r := ChooseBufferPointer(v, b, LayoutPointers(b, arena, allocOffset, elt, tok));
            var pre := env(arena) + allocOffset;
            r.Ok?
            && Eval(r.value.ptr, env, arena, eltBytes) == Some(
                 if v == b.latch then pre + ((t + 1) % 2) * (half * eltBytes)
                 else if v == b.first then pre
                 else pre + (t % 2) * (half * eltBytes))
            && (v == b.phi ==> Eval(r.value.offset, env, arena, eltBytes) == Some(DoubleOffsetAt(half, t)))
            && (v != b.phi ==> r.value.offset == Ir.Null)
  {
    var p := LayoutPointers(b, arena, allocOffset, elt, tok);
    var r := ChooseBufferPointer(v, b, p).value;
    var pre := env(arena) + allocOffset;
    var hb := half * eltBytes;
    DoubleBufferAlternates(pre, hb, t);
    var o := DoubleOffsetAt(half, t);
    OffsetScales(half, eltBytes, t);
    PrePointerAddress(arena, allocOffset, elt, env, eltBytes);
    if v == b.latch {
      assert r.ptr == Ir.Gep(Ir.Opaque(tok.curr), Ir.Opaque(tok.off));
      assert Eval(r.ptr, env, arena, eltBytes) == Some(env(tok.curr) + o * eltBytes);
    } else if v == b.first {
      assert r.ptr == p.prePtr;
    } else {
      assert r.ptr == Ir.Opaque(tok.curr);
    }
  }

  /** The offset in bytes is the offset in elements times the element
      size. */
  lemma OffsetScales(half: int, eltBytes: int, t: nat)
    ensures DoubleOffsetAt(half * eltBytes, t) == DoubleOffsetAt(half, t) * eltBytes
  {
    DoubleBufferAlternates(0, half * eltBytes, t);
    DoubleBufferAlternates(0, half, t);
    if t % 2 != 0 {
      assert (-half) * eltBytes == -(half * eltBytes);
    }
  }

  // ---------------------------------------------------------------------
  // Finalizing a double buffer's phis

  /** The incoming value of the offset phi on one edge. */
  datatype OffsetIncoming = Negated | Seed(elements: int)

  /** The incoming values `finalize_shared_layout` adds to the offset and
      pointer phis for one incoming block. */
  datatype Incoming = Incoming(block: Ir.Id, offset: OffsetIncoming, ptr: Ir.Val)

  /** `shmems_[x]`, which default-inserts a null pointer. */
  function Shmem(shmems: map<Ir.Id, Ir.Val>, x: Ir.Id): Ir.Val {
    if x in shmems then shmems[x] else Ir.Null
  }

  /** The loop over the incoming edges of a double buffer's phi. */
  method FinalizeDoubleBuffer(blocks: seq<Ir.Id>, values: seq<Ir.Id>, latch: Ir.Id,
                              sizeBytes: nat, eltBits: nat, shmems: map<Ir.Id, Ir.Val>)
    returns (edges: seq<Incoming>)
    requires |blocks| == |values| && eltBits >= 8
    ensures |edges| == |values|
    ensures forall n :: 0 <= n < |edges| ==>
      edges[n].block == blocks[n] && edges[n].ptr == Shmem(shmems, values[n])
    ensures forall n :: 0 <= n < |edges| ==>
      (edges[n].offset == Negated <==> values[n] == latch)
    ensures forall n :: 0 <= n < |edges| && values[n] != latch ==>
      edges[n].offset == Seed(HalfBuffer(sizeBytes, eltBits))
  {
    edges := [];
    var n := 0;
    while n < |values|
      invariant 0 <= n <= |values| && |edges| == n
      invariant forall k :: 0 <= k < n ==>
        edges[k].block == blocks[k] && edges[k].ptr == Shmem(shmems, values[k])
      invariant forall k :: 0 <= k < n ==> (edges[k].offset == Negated <==> values[k] == latch)
      invariant forall k :: 0 <= k < n && values[k] != latch ==>
        edges[k].offset == Seed(HalfBuffer(sizeBytes, eltBits))
    {
      var offset := if values[n] == latch then Negated else Seed(sizeBytes / (2 * (eltBits / 8)));
      edges := edges + [Incoming(blocks[n], offset, Shmem(shmems, values[n]))];
      n := n + 1;
    }
  }
}
