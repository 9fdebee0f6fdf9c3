/** Reductions (`visit_reduce_inst`, `visit_reduce1d_inst`,
    `visit_reducend_inst`): the accumulation operator and its neutral
    element, the in-thread left fold, the grouping of partials by the
    coordinates that are not reduced, the warp butterfly and the
    shared-memory halving tree. Accumulators are generic in the value
    type and the operator; the schedule theorems are stated for the
    integer ADD. */
module Reductions {
  import opened Wrappers
  import opened MachineInt
  import opened Permutation
  import opened MixedRadix
  import Ir

  datatype ReduceOp = Add | Sub | Max | Min | FAdd | FSub | FMax | FMin {
    predicate IsIntOp() {
      Add? || Sub? || Max? || Min?
    }
  }

  datatype FloatConst = PosZero | NegInfinity | PosInfinity

  /** The constant a reduction pads with. */
  datatype Neutral = IntNeutral(value: int) | FloatNeutral(float: FloatConst)

  function NeutralOf(op: ReduceOp): (n: Neutral)
    ensures op.IsIntOp() <==> n.IntNeutral?
    ensures op == Add || op == Sub ==> n == IntNeutral(0)
    ensures op == Max ==> n == IntNeutral(INT32_MIN)
    ensures op == Min ==> n == IntNeutral(INT32_MAX)
    ensures op == FAdd || op == FSub ==> n == FloatNeutral(PosZero)
    ensures op == FMax ==> n == FloatNeutral(NegInfinity)
    ensures op == FMin ==> n == FloatNeutral(PosInfinity)
  {
    match op
    case Add => IntNeutral(0)
    case Sub => IntNeutral(0)
    case Max => IntNeutral(INT32_MIN)
    case Min => IntNeutral(INT32_MAX)
    case FAdd => FloatNeutral(PosZero)
    case FSub => FloatNeutral(PosZero)
    case FMax => FloatNeutral(NegInfinity)
    case FMin => FloatNeutral(PosInfinity)
  }

  /** `do_acc` for the integer operators on `i32`: wrapping add and
      subtract, and the signed selects for MAX and MIN. */
  function DoAcc(op: ReduceOp, x: int, y: int): (r: int)
    requires op.IsIntOp()
    ensures IsI32(x) && IsI32(y) ==> IsI32(r)
    ensures op == Add ==> IsI32(r) && (r - (x + y)) % TWO_32 == 0
    ensures op == Sub ==> IsI32(r) && (r - (x - y)) % TWO_32 == 0
    ensures op == Max ==> (r == x || r == y) && r >= x && r >= y
    ensures op == Min ==> (r == x || r == y) && r <= x && r <= y
  {
    match op
    case Add => Wrap32(x + y)
    case Sub => Wrap32(x - y)
    case Max => if x >= y then x else y
    case Min => if x <= y then x else y
  }

  function Acc(op: ReduceOp): (int, int) -> int
    requires op.IsIntOp()
  {
    (x, y) => DoAcc(op, x, y)
  }

  predicate AllI32(v: seq<int>) {
    forall i :: 0 <= i < |v| ==> IsI32(v[i])
  }

  /** Wrapping is compatible with addition. */
  lemma WrapCongruent(x: int, y: int)
    requires (x - y) % TWO_32 == 0
    ensures Wrap32(x) == Wrap32(y)
  {
    var c := (x - y) / TWO_32;
    assert x - y == c * TWO_32;
    var q, r := (y - INT32_MIN) / TWO_32, (y - INT32_MIN) % TWO_32;
    assert x - INT32_MIN == (q + c) * TWO_32 + r;
    DivModUnique(x - INT32_MIN, TWO_32, q + c, r);
  }

  lemma WrapAdd(a: int, b: int)
    ensures DoAcc(Add, Wrap32(a), Wrap32(b)) == Wrap32(a + b)
  {
    var wa, wb := Wrap32(a), Wrap32(b);
    NegSumMultiple(a - wa, b - wb, TWO_32);
    assert (wa + wb) - (a + b) == -((a - wa) + (b - wb));
    WrapCongruent(wa + wb, a + b);
  }

  lemma NegSumMultiple(x: int, y: int, n: int)
    requires n > 0 && x % n == 0 && y % n == 0
    ensures (-(x + y)) % n == 0
  {
    var q := -(x / n) - (y / n);
    assert x == (x / n) * n && y == (y / n) * n;
    assert -(x + y) == q * n;
    DivModUnique(-(x + y), n, q, 0);
  }

  /** With ADD, MAX and MIN, the neutral element is a two-sided identity
      on `i32`. */
  lemma NeutralIsIdentity(op: ReduceOp, x: int)
    requires op == Add || op == Max || op == Min
    requires IsI32(x)
    ensures DoAcc(op, NeutralOf(op).value, x) == x
    ensures DoAcc(op, x, NeutralOf(op).value) == x
  {
  }

  /** The neutral element of SUB is only a right identity. */
  lemma SubNeutralRightOnly(x: int)
    requires IsI32(x)
    ensures DoAcc(Sub, x, NeutralOf(Sub).value) == x
    ensures DoAcc(Sub, NeutralOf(Sub).value, 1) == -1
  {
  }

  // ---------------------------------------------------------------------
  // In-thread fold

  /** Left fold seeded with the first element, as the source's
      `acc = !acc ? val : do_acc(acc, val)` computes. */
  function Fold1<T>(vs: seq<T>, f: (T, T) -> T): T
    requires |vs| > 0
  {
    if |vs| == 1 then vs[0] else f(Fold1(vs[..|vs| - 1], f), vs[|vs| - 1])
  }

  /** Left fold seeded with a given value. */
  function FoldFrom<T>(seed: T, vs: seq<T>, f: (T, T) -> T): T {
    if |vs| == 0 then seed else f(FoldFrom(seed, vs[..|vs| - 1], f), vs[|vs| - 1])
  }

  /** The in-thread loop of `visit_reduce1d_inst`: no accumulator until
      the first value, then left-to-right accumulation. */
  method FoldInThread<T>(vs: seq<T>, f: (T, T) -> T) returns (acc: Option<T>)
    ensures acc.None? <==> |vs| == 0
    ensures acc.Some? ==> acc.value == Fold1(vs, f)
  {
    acc := None;
    var i := 0;
    while i < |vs|
      invariant 0 <= i <= |vs|
      invariant acc.None? <==> i == 0
      invariant acc.Some? ==> acc.value == Fold1(vs[..i], f)
    {
      assert vs[..i + 1][..i] == vs[..i];
      acc := if acc.None? then Some(vs[i]) else Some(f(acc.value, vs[i]));
      i := i + 1;
    }
    assert vs[..i] == vs;
  }

  /** Seeding with the first element or with the neutral element gives the
      same result when the neutral element is an identity. */
  lemma {:induction false} FoldFromNeutral(op: ReduceOp, vs: seq<int>)
    requires op == Add || op == Max || op == Min
    requires |vs| > 0 && AllI32(vs)
    ensures Fold1(vs, Acc(op)) == FoldFrom(NeutralOf(op).value, vs, Acc(op))
  {
    var n := NeutralOf(op).value;
    if |vs| == 1 {
      assert vs[..0] == [];
      NeutralIsIdentity(op, vs[0]);
    } else {
      FoldFromNeutral(op, vs[..|vs| - 1]);
    }
  }

  /** For SUB the two seeds differ: the source's fold of `[5]` is 5, a
      fold seeded with the neutral element gives -5. */
  lemma SubFoldSeedMatters()
    ensures Fold1([5], Acc(Sub)) == 5
    ensures FoldFrom(NeutralOf(Sub).value, [5], Acc(Sub)) == -5
  {
    assert [5][..0] == [];
  }

  /** An ADD fold is the wrapped sum. */
  lemma {:induction false} FoldAddIsSum(vs: seq<int>)
    requires |vs| > 0 && AllI32(vs)
    ensures Fold1(vs, Acc(Add)) == Wrap32(Sum(vs))
  {
    if |vs| == 1 {
      Singleton(vs[0]);
    } else {
      var front, x := vs[..|vs| - 1], vs[|vs| - 1];
      FoldAddIsSum(front);
      WrapAdd(Sum(front), x);
    }
  }

  /** A MAX fold is the largest element; a MIN fold the smallest. */
  lemma {:induction false} FoldMaxMin(vs: seq<int>)
    requires |vs| > 0
    ensures Fold1(vs, Acc(Max)) in vs && forall i :: 0 <= i < |vs| ==> vs[i] <= Fold1(vs, Acc(Max))
    ensures Fold1(vs, Acc(Min)) in vs && forall i :: 0 <= i < |vs| ==> Fold1(vs, Acc(Min)) <= vs[i]
  {
    if |vs| > 1 {
      var front := vs[..|vs| - 1];
      FoldMaxMin(front);
      assert forall i :: 0 <= i < |vs| - 1 ==> vs[i] == front[i];
    }
  }

  // ---------------------------------------------------------------------
  // Grouping by the coordinates that are not reduced

  predicate HasAxis(idxs: seq<Ir.Index>, axis: nat) {
    forall i :: 0 <= i < |idxs| ==> axis < |idxs[i]|
  }

  /** The group key of an index: its reduced coordinate set to 0. */
  function Zeroed(idx: Ir.Index, axis: nat): (p: Ir.Index)
    requires axis < |idx|
    ensures |p| == |idx| && p[axis] == 0
    ensures forall d :: 0 <= d < |idx| && d != axis ==> p[d] == idx[d]
  {
    idx[axis := 0]
  }

  /** The indices of group `p`, in materialization order. */
  function Members(idxs: seq<Ir.Index>, axis: nat, p: Ir.Index): (s: seq<Ir.Index>)
    requires HasAxis(idxs, axis)
    ensures forall i :: 0 <= i < |s| ==> s[i] in idxs && axis < |s[i]| && Zeroed(s[i], axis) == p
  {
    if |idxs| == 0 then []
    else
      var front, x := idxs[..|idxs| - 1], idxs[|idxs| - 1];
      Members(front, axis, p) + (if Zeroed(x, axis) == p then [x] else [])
  }

  /** The values of a list of indices. */
  function Project<T>(vals: map<Ir.Index, T>, s: seq<Ir.Index>): (r: seq<T>)
    requires forall i :: 0 <= i < |s| ==> s[i] in vals
    ensures |r| == |s| && forall i :: 0 <= i < |s| ==> r[i] == vals[s[i]]
  {
    seq(|s|, i requires 0 <= i < |s| => vals[s[i]])
  }

  /** An index is in group `p` exactly when it is materialized and its key
      is `p`. */
  lemma {:induction false} MembersExact(idxs: seq<Ir.Index>, axis: nat, p: Ir.Index, x: Ir.Index)
    requires HasAxis(idxs, axis)
    ensures x in Members(idxs, axis, p) <==> x in idxs && Zeroed(x, axis) == p
  {
    if |idxs| > 0 {
      var front := idxs[..|idxs| - 1];
      MembersExact(front, axis, p, x);
      assert idxs == front + [idxs[|idxs| - 1]];
    }
  }

  /** The in-thread loop of `visit_reducend_inst`: one accumulator per
      group key, created by the group's first value and then folded left
      to right. */
  method GroupPartials<T>(idxs: seq<Ir.Index>, vals: map<Ir.Index, T>, axis: nat, f: (T, T) -> T)
    returns (accs: map<Ir.Index, T>)
    requires HasAxis(idxs, axis)
    requires forall x :: x in idxs ==> x in vals
    ensures forall p :: p in accs <==> |Members(idxs, axis, p)| > 0
    ensures forall p :: p in accs ==> accs[p] == Fold1(Project(vals, Members(idxs, axis, p)), f)
  {
    accs := map[];
    var i := 0;
    PrefixFacts(idxs, vals, axis, 0);
    while i < |idxs|
      invariant 0 <= i <= |idxs|
      invariant HasAxis(idxs[..i], axis) && (forall x :: x in idxs[..i] ==> x in vals)
      invariant Grouped(accs, idxs[..i], vals, axis, f)
    {
      var idx := idxs[i];
      var pidx := Zeroed(idx, axis);
      var current := vals[idx];
      GroupedStep(accs, idxs, vals, axis, f, i);
      accs := accs[pidx := if pidx !in accs then current else f(accs[pidx], current)];
      i := i + 1;
    }
    assert idxs[..i] == idxs;
  }

  /** `accs` holds one fold per group of `idxs`. */
  ghost predicate Grouped<T>(accs: map<Ir.Index, T>, idxs: seq<Ir.Index>, vals: map<Ir.Index, T>, axis: nat, f: (T, T) -> T)
    requires HasAxis(idxs, axis) && forall x :: x in idxs ==> x in vals
  {
    && (forall p :: p in accs <==> |Members(idxs, axis, p)| > 0)
    && (forall p :: p in accs ==> accs[p] == Fold1(Project(vals, Members(idxs, axis, p)), f))
  }

  lemma PrefixFacts<T>(idxs: seq<Ir.Index>, vals: map<Ir.Index, T>, axis: nat, i: nat)
    requires HasAxis(idxs, axis) && (forall x :: x in idxs ==> x in vals) && i <= |idxs|
    ensures HasAxis(idxs[..i], axis) && forall x :: x in idxs[..i] ==> x in vals
  {
    assert forall k :: 0 <= k < i ==> idxs[..i][k] == idxs[k];
  }

  /** The loop body keeps one fold per group. */
  lemma GroupedStep<T>(accs: map<Ir.Index, T>, idxs: seq<Ir.Index>, vals: map<Ir.Index, T>, axis: nat,
                       f: (T, T) -> T, i: nat)
    requires HasAxis(idxs, axis) && (forall x :: x in idxs ==> x in vals) && i < |idxs|
    requires HasAxis(idxs[..i], axis) && (forall x :: x in idxs[..i] ==> x in vals)
    requires Grouped(accs, idxs[..i], vals, axis, f)
    ensures HasAxis(idxs[..i + 1], axis) && (forall x :: x in idxs[..i + 1] ==> x in vals)
    ensures var pidx := Zeroed(idxs[i], axis);
      Grouped(accs[pidx := if pidx !in accs then vals[idxs[i]] else f(accs[pidx], vals[idxs[i]])],
              idxs[..i + 1], vals, axis, f)
  {
    PrefixFacts(idxs, vals, axis, i + 1);
    var pidx := Zeroed(idxs[i], axis);
    var x := idxs[i];
    var accs' := accs[pidx := if pidx !in accs then vals[x] else f(accs[pidx], vals[x])];
    GroupStep(idxs, vals, axis, f, i, pidx);
    forall p
      ensures p in accs' <==> |Members(idxs[..i + 1], axis, p)| > 0
      ensures p in accs' ==> accs'[p] == Fold1(Project(vals, Members(idxs[..i + 1], axis, p)), f)
    {
      if p != pidx {
        GroupedOther(accs, accs', idxs, vals, axis, f, i, p);
      }
    }
  }

  /** A group the new index does not belong to is left as it was. */
  lemma GroupedOther<T>(accs: map<Ir.Index, T>, accs': map<Ir.Index, T>, idxs: seq<Ir.Index>, vals: map<Ir.Index, T>,
                        axis: nat, f: (T, T) -> T, i: nat, p: Ir.Index)
    requires HasAxis(idxs, axis) && (forall x :: x in idxs ==> x in vals) && i < |idxs|
    requires HasAxis(idxs[..i], axis) && (forall x :: x in idxs[..i] ==> x in vals)
    requires HasAxis(idxs[..i + 1], axis) && (forall x :: x in idxs[..i + 1] ==> x in vals)
    requires Grouped(accs, idxs[..i], vals, axis, f)
    requires Members(idxs[..i + 1], axis, p) == Members(idxs[..i], axis, p)
    requires (p in accs' <==> p in accs) && (p in accs ==> accs'[p] == accs[p])
    ensures p in accs' <==> |Members(idxs[..i + 1], axis, p)| > 0
    ensures p in accs' ==> accs'[p] == Fold1(Project(vals, Members(idxs[..i + 1], axis, p)), f)
  {
  }

  /** How one more index changes the groups. */
  lemma GroupStep<T>(idxs: seq<Ir.Index>, vals: map<Ir.Index, T>, axis: nat, f: (T, T) -> T, i: nat, pidx: Ir.Index)
    requires HasAxis(idxs, axis) && i < |idxs|
    requires forall x :: x in idxs ==> x in vals
    requires pidx == Zeroed(idxs[i], axis)
    ensures forall p :: p != pidx ==> Members(idxs[..i + 1], axis, p) == Members(idxs[..i], axis, p)
    ensures Members(idxs[..i + 1], axis, pidx) == Members(idxs[..i], axis, pidx) + [idxs[i]]
    ensures |Members(idxs[..i], axis, pidx)| > 0 ==>
      Fold1(Project(vals, Members(idxs[..i + 1], axis, pidx)), f)
        == f(Fold1(Project(vals, Members(idxs[..i], axis, pidx)), f), vals[idxs[i]])
    ensures |Members(idxs[..i], axis, pidx)| == 0 ==>
      Fold1(Project(vals, Members(idxs[..i + 1], axis, pidx)), f) == vals[idxs[i]]
  {
    assert idxs[..i + 1][..i] == idxs[..i];
    var s := Members(idxs[..i], axis, pidx);
    var s' := s + [idxs[i]];
    var ps := Project(vals, s);
    var ps' := Project(vals, s');
    assert ps'[..|ps|] == ps;
  }

  // ---------------------------------------------------------------------
  // Sums over a class of positions

  /** The sum of `v[m]` over the positions `m < n` that satisfy `P`. */
  function CondSum(v: seq<int>, n: nat, P: nat -> bool): int
    requires n <= |v|
  {
    if n == 0 then 0 else CondSum(v, n - 1, P) + (if P(n - 1) then v[n - 1] else 0)
  }

  lemma {:induction false} CondSumSplit(v: seq<int>, n: nat, P: nat -> bool, Q: nat -> bool, R: nat -> bool)
    requires n <= |v|
    requires forall m: nat :: m < n ==> (P(m) <==> Q(m) || R(m)) && !(Q(m) && R(m))
    ensures CondSum(v, n, P) == CondSum(v, n, Q) + CondSum(v, n, R)
  {
    if n > 0 {
      CondSumSplit(v, n - 1, P, Q, R);
    }
  }

  lemma {:induction false} CondSumOne(v: seq<int>, n: nat, P: nat -> bool, l: nat)
    requires l < n <= |v|
    requires forall m: nat :: m < n ==> (P(m) <==> m == l)
    ensures CondSum(v, n, P) == v[l]
  {
    CondSumNone(v, l, P);
    if n - 1 > l {
      CondSumOne(v, n - 1, P, l);
    }
  }

  lemma {:induction false} CondSumNone(v: seq<int>, n: nat, P: nat -> bool)
    requires n <= |v|
    requires forall m: nat :: m < n ==> !P(m)
    ensures CondSum(v, n, P) == 0
  {
    if n > 0 {
      CondSumNone(v, n - 1, P);
    }
  }

  lemma {:induction false} CondSumAll(v: seq<int>, n: nat, P: nat -> bool)
    requires n <= |v|
    requires forall m: nat :: m < n ==> P(m)
    ensures CondSum(v, n, P) == Sum(v[..n])
  {
    if n > 0 {
      CondSumAll(v, n - 1, P);
      assert v[..n][..n - 1] == v[..n - 1];
    }
  }

  // ---------------------------------------------------------------------
  // The warp butterfly: `shfl.sync.bfly` exchanges the accumulators of
  // lanes `l` and `l xor d`.

  const WARP_SIZE: nat := 32

  /** The lane a butterfly with distance `d` reads from. */
  function Partner(l: nat, d: nat): (q: nat)
    requires l < WARP_SIZE && d < WARP_SIZE
    ensures q < WARP_SIZE && Xor(q, d) == l
  {
    Pow2Five();
    XorBound(l, d, 5);
    XorInvolution(l, d);
    Xor(l, d)
  }

  /** One round `acc = do_acc(acc, shfl_sync(acc, d))` on all lanes. */
  function Exchange<T>(v: seq<T>, d: nat, f: (T, T) -> T): (w: seq<T>)
    requires |v| == WARP_SIZE && d < WARP_SIZE
    ensures |w| == WARP_SIZE && forall l :: 0 <= l < WARP_SIZE ==> w[l] == f(v[l], v[Partner(l, d)])
  {
    seq(WARP_SIZE, l requires 0 <= l < WARP_SIZE => f(v[l], v[Partner(l, d)]))
  }

  /** The distances of `for (i = start; i > 0; i >>= 1)`. */
  function Halvings(i: nat): (ds: seq<nat>)
    ensures forall k :: 0 <= k < |ds| ==> 0 < ds[k] <= i
  {
    if i == 0 then [] else [i] + Halvings(i / 2)
  }

  predicate DistancesBelow(ds: seq<nat>, bound: nat) {
    forall k :: 0 <= k < |ds| ==> ds[k] < bound
  }

  function Rounds<T>(v: seq<T>, ds: seq<nat>, f: (T, T) -> T): (w: seq<T>)
    requires |v| == WARP_SIZE && DistancesBelow(ds, WARP_SIZE)
    ensures |w| == WARP_SIZE
    decreases |ds|
  {
    if |ds| == 0 then v else Rounds(Exchange(v, ds[0], f), ds[1..], f)
  }

  /** The warp shuffle loop: distances `start`, `start / 2`, ..., 1. */
  method Butterfly<T>(lanes: seq<T>, start: nat, f: (T, T) -> T) returns (acc: seq<T>)
    requires |lanes| == WARP_SIZE && start < WARP_SIZE
    ensures acc == Rounds(lanes, Halvings(start), f)
  {
    acc := lanes;
    var i: nat := start;
    while i > 0
      invariant i <= start && |acc| == WARP_SIZE
      invariant Rounds(acc, Halvings(i), f) == Rounds(lanes, Halvings(start), f)
    {
      assert Halvings(i)[1..] == Halvings(i / 2);
      acc := Exchange(acc, i, f);
      i := i / 2;
    }
  }

  /** The in-warp distances are exactly 16, 8, 4, 2, 1. */
  lemma WarpSchedule()
    ensures Halvings(16) == [16, 8, 4, 2, 1]
  {
    assert Halvings(1) == [1];
    assert Halvings(2) == [2, 1];
    assert Halvings(4) == [4, 2, 1];
    assert Halvings(8) == [8, 4, 2, 1];
  }

  /** Lanes `m` and `l` are in one class of stage `j` of a block of
      `2^k` lanes when they agree on the bits below `j` and on the bits
      from `k` up. */
  predicate SameClass(m: nat, l: nat, j: nat, k: nat) {
    m % Pow2(j) == l % Pow2(j) && m / Pow2(k) == l / Pow2(k)
  }

  function ClassOf(l: nat, j: nat, k: nat): nat -> bool {
    (m: nat) => SameClass(m, l, j, k)
  }

  /** A class of stage `j` is the disjoint union of the classes of stage
      `j + 1` of a lane and of its partner at distance `2^j`. */
  lemma ClassSplit(m: nat, l: nat, j: nat, k: nat)
    requires j < k
    ensures SameClass(m, l, j, k) <==> SameClass(m, l, j + 1, k) || SameClass(m, Xor(l, Pow2(j)), j + 1, k)
    ensures !(SameClass(m, l, j + 1, k) && SameClass(m, Xor(l, Pow2(j)), j + 1, k))
  {
    var p := Pow2(j);
    var l' := Xor(l, p);
    assert Pow2(j + 1) == 2 * p;
    FlipFacts(l, j);
    BitSplit(m, p);
    BitSplit(l, p);
    BitSplit(l', p);
    Pow2Add(j + 1, k - j - 1);
    DivDiv(l, 2 * p, Pow2(k - j - 1));
    DivDiv(l', 2 * p, Pow2(k - j - 1));
    assert l' / Pow2(k) == l / Pow2(k);
    var bm, bl := (m / p) % 2, (l / p) % 2;
    LowBits(m % (2 * p), p, bm, m % p, bl, l % p);
    LowBits(m % (2 * p), p, bm, m % p, 1 - bl, l % p);
    LowBits(l % (2 * p), p, bl, l % p, 1 - bl, l % p);
  }

  /** `b * p + t` with `t < p` determines `b` and `t`. */
  lemma LowBits(x: int, p: nat, b: int, t: int, b': int, t': int)
    requires p > 0 && 0 <= b <= 1 && 0 <= b' <= 1 && 0 <= t < p && 0 <= t' < p
    requires x == t + p * b
    ensures x == t' + p * b' <==> b == b' && t == t'
  {
    if x == t' + p * b' {
      DivModUnique(x, p, b, t);
      DivModUnique(x, p, b', t');
    }
  }

  /** After the rounds at distances `2^(j-1)`, ..., 1, a lane that held the
      wrapped sum of its stage-`j` class holds that of its stage-0 class. */
  lemma {:induction false} ButterflyStages(v: seq<int>, w: seq<int>, j: nat, k: nat)
    requires |v| == WARP_SIZE && |w| == WARP_SIZE && j <= k <= 5
    requires forall l :: 0 <= l < WARP_SIZE ==> w[l] == Wrap32(CondSum(v, WARP_SIZE, ClassOf(l, j, k)))
    ensures Pow2(j) / 2 < WARP_SIZE && DistancesBelow(Halvings(Pow2(j) / 2), WARP_SIZE)
    ensures forall l :: 0 <= l < WARP_SIZE ==>
      Rounds(w, Halvings(Pow2(j) / 2), Acc(Add))[l] == Wrap32(CondSum(v, WARP_SIZE, ClassOf(l, 0, k)))
    decreases j
  {
    Pow2Monotone(j, 5);
    Pow2Five();
    if j > 0 {
      var p := Pow2(j - 1);
      assert Pow2(j) / 2 == p;
      var w' := Exchange(w, p, Acc(Add));
      forall l | 0 <= l < WARP_SIZE
        ensures w'[l] == Wrap32(CondSum(v, WARP_SIZE, ClassOf(l, j - 1, k)))
      {
        ExchangeStage(v, w, l, j, k);
      }
      ButterflyStages(v, w', j - 1, k);
      assert Halvings(p)[1..] == Halvings(p / 2);
    }
  }

  /** One round merges the two classes of a lane and its partner. */
  lemma ExchangeStage(v: seq<int>, w: seq<int>, l: nat, j: nat, k: nat)
    requires |v| == WARP_SIZE && |w| == WARP_SIZE && 0 < j <= k <= 5 && l < WARP_SIZE
    requires forall l :: 0 <= l < WARP_SIZE ==> w[l] == Wrap32(CondSum(v, WARP_SIZE, ClassOf(l, j, k)))
    ensures Pow2(j - 1) < WARP_SIZE
    ensures Exchange(w, Pow2(j - 1), Acc(Add))[l] == Wrap32(CondSum(v, WARP_SIZE, ClassOf(l, j - 1, k)))
  {
    Pow2Monotone(j, 5);
    Pow2Five();
    var p := Pow2(j - 1);
    var q := Partner(l, p);
    forall m: nat | m < WARP_SIZE
      ensures (ClassOf(l, j - 1, k)(m) <==> ClassOf(l, j, k)(m) || ClassOf(q, j, k)(m))
        && !(ClassOf(l, j, k)(m) && ClassOf(q, j, k)(m))
    {
      ClassSplit(m, l, j - 1, k);
    }
    CondSumSplit(v, WARP_SIZE, ClassOf(l, j - 1, k), ClassOf(l, j, k), ClassOf(q, j, k));
    WrapAdd(CondSum(v, WARP_SIZE, ClassOf(l, j, k)), CondSum(v, WARP_SIZE, ClassOf(q, j, k)));
  }

  /** Stage `k` of a block of `2^k` lanes: each lane is alone in its class. */
  lemma ClassesAtStart(v: seq<int>, k: nat)
    requires |v| == WARP_SIZE && k <= 5 && AllI32(v)
    ensures forall l :: 0 <= l < WARP_SIZE ==> v[l] == Wrap32(CondSum(v, WARP_SIZE, ClassOf(l, k, k)))
  {
    forall l | 0 <= l < WARP_SIZE
      ensures v[l] == Wrap32(CondSum(v, WARP_SIZE, ClassOf(l, k, k)))
    {
      forall m: nat | m < WARP_SIZE
        ensures ClassOf(l, k, k)(m) <==> m == l
      {
        var n := Pow2(k);
        assert m == (m / n) * n + m % n && l == (l / n) * n + l % n;
      }
      CondSumOne(v, WARP_SIZE, ClassOf(l, k, k), l);
    }
  }

  /** The in-warp reduction with distances 16, ..., 1 leaves every lane
      with the wrapped sum of all 32 lanes. */
  lemma WarpAllReduce(v: seq<int>)
    requires |v| == WARP_SIZE && AllI32(v)
    ensures DistancesBelow(Halvings(16), WARP_SIZE)
    ensures forall l :: 0 <= l < WARP_SIZE ==> Rounds(v, Halvings(16), Acc(Add))[l] == Wrap32(Sum(v))
  {
    Pow2Five();
    ButterflyFromStart(v, 5, 16);
    forall l | 0 <= l < WARP_SIZE
      ensures CondSum(v, WARP_SIZE, ClassOf(l, 0, 5)) == Sum(v)
    {
      WholeWarpClass(v, l);
    }
  }

  /** In a block of 32 lanes, the stage-0 class of any lane is the whole
      warp. */
  lemma WholeWarpClass(v: seq<int>, l: nat)
    requires |v| == WARP_SIZE && l < WARP_SIZE
    ensures CondSum(v, WARP_SIZE, ClassOf(l, 0, 5)) == Sum(v)
  {
    Pow2Five();
    assert Pow2(0) == 1;
    CondSumAll(v, WARP_SIZE, ClassOf(l, 0, 5));
    assert v[..WARP_SIZE] == v;
  }

  // ---------------------------------------------------------------------
  // Across warps (`visit_reduce1d_inst`): every lane stores the neutral
  // element at slot `lane`, then warp `w` stores its result at slot `w`;
  // warp 0 loads slot `lane`, runs a butterfly and slot 0 is the result.

  /** The 32 shared slots warp 0 loads. */
  function SharedSlots<T>(warpResults: seq<T>, neutral: T): (s: seq<T>)
    requires |warpResults| <= WARP_SIZE
    ensures |s| == WARP_SIZE
    ensures forall l :: 0 <= l < WARP_SIZE ==> s[l] == if l < |warpResults| then warpResults[l] else neutral
  {
    warpResults + seq(WARP_SIZE - |warpResults|, _ => neutral)
  }

  /** The cross-warp step as written: the butterfly starts at distance
      `(num_warps + 1) / 2`. */
  method CrossWarpAsWritten<T>(warpResults: seq<T>, neutral: T, f: (T, T) -> T) returns (ret: T)
    requires 1 <= |warpResults| <= WARP_SIZE
    ensures ret == Rounds(SharedSlots(warpResults, neutral), Halvings((|warpResults| + 1) / 2), f)[0]
  {
    var lanes := SharedSlots(warpResults, neutral);
    lanes := Butterfly(lanes, (|warpResults| + 1) / 2, f);
    ret := lanes[0];
  }

  /** The cross-warp step with the butterfly over the whole warp. */
  method CrossWarp<T>(warpResults: seq<T>, neutral: T, f: (T, T) -> T) returns (ret: T)
    requires 1 <= |warpResults| <= WARP_SIZE
    ensures ret == Rounds(SharedSlots(warpResults, neutral), Halvings(16), f)[0]
  {
    var lanes := SharedSlots(warpResults, neutral);
    lanes := Butterfly(lanes, 16, f);
    ret := lanes[0];
  }

  lemma {:induction false} CondSumPadded(v: seq<int>, n: nat, P: nat -> bool, nw: nat)
    requires n <= |v| && nw <= |v|
    requires forall m: nat :: m < nw ==> P(m)
    requires forall m :: nw <= m < |v| ==> v[m] == 0
    ensures CondSum(v, n, P) == Sum(v[..if n < nw then n else nw])
  {
    if n > 0 {
      CondSumPadded(v, n - 1, P, nw);
      if n <= nw {
        assert v[..n][..n - 1] == v[..n - 1];
      }
    }
  }

  lemma PaddedSum(warps: seq<int>)
    requires |warps| <= WARP_SIZE
    ensures Sum(SharedSlots(warps, 0)) == Sum(warps)
  {
    var s := SharedSlots(warps, 0);
    CondSumPadded(s, WARP_SIZE, (m: nat) => true, |warps|);
    CondSumAll(s, WARP_SIZE, (m: nat) => true);
    assert s[..WARP_SIZE] == s;
    assert s[..|warps|] == warps;
  }

  lemma AllI32Slots(warps: seq<int>)
    requires |warps| <= WARP_SIZE && AllI32(warps)
    ensures AllI32(SharedSlots(warps, NeutralOf(Add).value))
  {
  }

  /** With the full butterfly, slot 0 holds the wrapped sum of the warp
      results for every warp count. */
  lemma CrossWarpTotal(warps: seq<int>)
    requires 1 <= |warps| <= WARP_SIZE && AllI32(warps)
    ensures DistancesBelow(Halvings(16), WARP_SIZE)
    ensures Rounds(SharedSlots(warps, NeutralOf(Add).value), Halvings(16), Acc(Add))[0] == Wrap32(Sum(warps))
  {
    AllI32Slots(warps);
    WarpAllReduce(SharedSlots(warps, 0));
    PaddedSum(warps);
  }

  /** As written, the cross-warp step is right when `(num_warps + 1) / 2`
      is a power of two. */
  lemma CrossWarpAsWrittenPow2(warps: seq<int>, j: nat)
    requires 1 <= |warps| <= WARP_SIZE && AllI32(warps)
    requires (|warps| + 1) / 2 == Pow2(j)
    ensures DistancesBelow(Halvings(Pow2(j)), WARP_SIZE)
    ensures Rounds(SharedSlots(warps, NeutralOf(Add).value), Halvings(Pow2(j)), Acc(Add))[0] == Wrap32(Sum(warps))
  {
    var k := j + 1;
    StartOfBlock(|warps|, j);
    AllI32Slots(warps);
    var v := SharedSlots(warps, 0);
    ButterflyFromStart(v, k, Pow2(j));
    SlotZeroClass(warps, k);
  }

  /** `(n + 1) / 2 == 2^j` with `n <= 32` puts `n` in a block of `2^(j+1)`
      lanes, with `j + 1 <= 5`. */
  lemma StartOfBlock(n: nat, j: nat)
    requires 1 <= n <= WARP_SIZE && (n + 1) / 2 == Pow2(j)
    ensures j + 1 <= 5 && Pow2(j + 1) / 2 == Pow2(j) && n <= Pow2(j + 1)
  {
    Pow2Five();
    if j > 4 {
      Pow2Monotone(5, j);
    }
  }

  /** The butterfly over a block of `2^k` lanes leaves each lane with the
      wrapped sum of its stage-0 class. */
  lemma ButterflyFromStart(v: seq<int>, k: nat, start: nat)
    requires |v| == WARP_SIZE && k <= 5 && AllI32(v) && start == Pow2(k) / 2
    ensures start < WARP_SIZE && DistancesBelow(Halvings(start), WARP_SIZE)
    ensures forall l :: 0 <= l < WARP_SIZE ==>
      Rounds(v, Halvings(start), Acc(Add))[l] == Wrap32(CondSum(v, WARP_SIZE, ClassOf(l, 0, k)))
  {
    ClassesAtStart(v, k);
    ButterflyStages(v, v, k, k);
  }

  /** Slot 0's stage-0 class in a block of `2^k` lanes covers all warp
      results when there are at most `2^k` of them. */
  lemma SlotZeroClass(warps: seq<int>, k: nat)
    requires |warps| <= Pow2(k) && |warps| <= WARP_SIZE
    ensures CondSum(SharedSlots(warps, 0), WARP_SIZE, ClassOf(0, 0, k)) == Sum(warps)
  {
    var v := SharedSlots(warps, 0);
    var P := ClassOf(0, 0, k);
    forall m: nat | m < |warps|
      ensures P(m)
    {
      DivModUnique(m, Pow2(k), 0, m);
    }
    CondSumPadded(v, WARP_SIZE, P, |warps|);
    assert v[..|warps|] == warps;
  }

  /** As written, with six warps slot 0 misses warps 4 and 5: the
      distances are 3 and 1. */
  lemma CrossWarpAsWrittenSixWarps()
    ensures Halvings((6 + 1) / 2) == [3, 1]
    ensures Rounds(SharedSlots([1, 1, 1, 1, 1, 1], NeutralOf(Add).value), [3, 1], Acc(Add))[0] == 4
    ensures Sum([1, 1, 1, 1, 1, 1]) == 6
  {
    var v := SharedSlots([1, 1, 1, 1, 1, 1], 0);
    assert Halvings(1) == [1];
    assert Xor(0, 0) == 0 && Xor(0, 1) == 1 && Xor(1, 1) == 0;
    assert Xor(0, 3) == 2 * Xor(0, 1) + 1;
    assert Xor(1, 3) == 2 * Xor(0, 1) + 0;
    var w := Exchange(v, 3, Acc(Add));
    assert w[0] == 2 && w[1] == 2;
    var u := Exchange(w, 1, Acc(Add));
    assert u[0] == 4;
    assert [3, 1][1..] == [1];
    assert Rounds(v, [3, 1], Acc(Add)) == Rounds(w, [1], Acc(Add)) == Rounds(u, [], Acc(Add));
    assert [1, 1, 1, 1, 1, 1][..5] == [1, 1, 1, 1, 1];
    assert [1, 1, 1, 1, 1][..4] == [1, 1, 1, 1];
    assert [1, 1, 1, 1][..3] == [1, 1, 1];
    assert [1, 1, 1][..2] == [1, 1];
    assert [1, 1][..1] == [1];
    Singleton(1);
  }

  // ---------------------------------------------------------------------
  // The shared-memory tree of `visit_reducend_inst`: in the round with
  // distance `i`, the lane at slot `l < i` accumulates slot `l + i` and
  // every other lane accumulates its own slot.

  predicate TreeFits(ds: seq<nat>, n: nat) {
    forall k :: 0 <= k < |ds| ==> 2 * ds[k] <= n
  }

  function TreeRound<T>(s: seq<T>, i: nat, f: (T, T) -> T): (w: seq<T>)
    requires 2 * i <= |s|
    ensures |w| == |s|
    ensures forall l :: 0 <= l < |s| ==> w[l] == if l < i then f(s[l], s[l + i]) else f(s[l], s[l])
  {
    seq(|s|, l requires 0 <= l < |s| => if l < i then f(s[l], s[l + i]) else f(s[l], s[l]))
  }

  function TreeRounds<T>(s: seq<T>, ds: seq<nat>, f: (T, T) -> T): (w: seq<T>)
    requires TreeFits(ds, |s|)
    ensures |w| == |s|
    decreases |ds|
  {
    if |ds| == 0 then s else TreeRounds(TreeRound(s, ds[0], f), ds[1..], f)
  }

  /** The tree loop `for (i = shape[axis] / 2; i > 0; i >>= 1)` over the
      slots of one reduced column. */
  method TreeReduce<T>(slots: seq<T>, f: (T, T) -> T) returns (acc: seq<T>)
    ensures TreeFits(Halvings(|slots| / 2), |slots|)
    ensures acc == TreeRounds(slots, Halvings(|slots| / 2), f)
  {
    acc := slots;
    var i: nat := |slots| / 2;
    while i > 0
      invariant i <= |slots| / 2 && |acc| == |slots|
      invariant TreeRounds(acc, Halvings(i), f) == TreeRounds(slots, Halvings(|slots| / 2), f)
    {
      assert Halvings(i)[1..] == Halvings(i / 2);
      acc := TreeRound(acc, i, f);
      i := i / 2;
    }
  }

  function Residue(l: nat, j: nat): nat -> bool {
    (m: nat) => m % Pow2(j) == l
  }

  /** One tree round merges the residue classes `l` and `l + 2^(j-1)`
      modulo `2^j` into the class `l` modulo `2^(j-1)`. */
  lemma TreeStep(v: seq<int>, w: seq<int>, l: nat, j: nat, k: nat)
    requires |v| == Pow2(k) && |w| == |v| && 0 < j <= k && l < Pow2(j - 1)
    requires forall l :: 0 <= l < Pow2(j) && l < |w| ==> w[l] == Wrap32(CondSum(v, |v|, Residue(l, j)))
    ensures 2 * Pow2(j - 1) <= |w|
    ensures TreeRound(w, Pow2(j - 1), Acc(Add))[l] == Wrap32(CondSum(v, |v|, Residue(l, j - 1)))
  {
    Pow2Monotone(j, k);
    var p := Pow2(j - 1);
    assert Pow2(j) == 2 * p;
    forall m: nat | m < |v|
      ensures (Residue(l, j - 1)(m) <==> Residue(l, j)(m) || Residue(l + p, j)(m))
        && !(Residue(l, j)(m) && Residue(l + p, j)(m))
    {
      BitSplit(m, p);
      var b := (m / p) % 2;
      LowBits(m % (2 * p), p, b, m % p, 0, l);
      LowBits(m % (2 * p), p, b, m % p, 1, l);
    }
    CondSumSplit(v, |v|, Residue(l, j - 1), Residue(l, j), Residue(l + p, j));
    WrapAdd(CondSum(v, |v|, Residue(l, j)), CondSum(v, |v|, Residue(l + p, j)));
  }

  lemma {:induction false} TreeStages(v: seq<int>, w: seq<int>, j: nat, k: nat)
    requires |v| == Pow2(k) && |w| == |v| && j <= k
    requires forall l :: 0 <= l < Pow2(j) && l < |w| ==> w[l] == Wrap32(CondSum(v, |v|, Residue(l, j)))
    ensures TreeFits(Halvings(Pow2(j) / 2), |w|)
    ensures TreeRounds(w, Halvings(Pow2(j) / 2), Acc(Add))[0] == Wrap32(CondSum(v, |v|, Residue(0, 0)))
    decreases j
  {
    Pow2Monotone(j, k);
    if j > 0 {
      var p := Pow2(j - 1);
      assert Pow2(j) / 2 == p;
      var w' := TreeRound(w, p, Acc(Add));
      forall l | 0 <= l < p
        ensures w'[l] == Wrap32(CondSum(v, |v|, Residue(l, j - 1)))
      {
        TreeStep(v, w, l, j, k);
      }
      TreeStages(v, w', j - 1, k);
      assert Halvings(p)[1..] == Halvings(p / 2);
    }
  }

  /** Over a power-of-two extent, slot 0 ends with the wrapped sum of the
      column. */
  lemma TreeSum(v: seq<int>, k: nat)
    requires |v| == Pow2(k) && AllI32(v)
    ensures TreeFits(Halvings(|v| / 2), |v|)
    ensures TreeRounds(v, Halvings(|v| / 2), Acc(Add))[0] == Wrap32(Sum(v))
  {
    var n := |v|;
    forall l | 0 <= l < n
      ensures v[l] == Wrap32(CondSum(v, n, Residue(l, k)))
    {
      forall m: nat | m < n
        ensures Residue(l, k)(m) <==> m == l
      {
        DivModUnique(m, n, 0, m);
      }
      CondSumOne(v, n, Residue(l, k), l);
    }
    TreeStages(v, v, k, k);
    CondSumAll(v, n, Residue(0, 0));
    assert v[..n] == v;
  }
}
