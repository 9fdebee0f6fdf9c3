/** The generator object of `lib/codegen/selection/generator.cc`: the value
    table `vals_`, the materialized indices `idxs_` and their orders
    `ords_`, the distributed axes `axes_`, the visited set `seen_`, and the
    per-value shared pointers `shmems_` / `shoffs_`, updated in place by
    `visit_value`, `init_idx`, the layout visitors and the value-table
    rules. Everything is seen from one fixed thread. */
module CodeGenerator {
  import opened Wrappers
  import opened MixedRadix
  import opened Permutation
  import opened Ir
  import IM = IndexMaterializer
  import Scanline
  import NarrowFormats
  import SharedBuffers

  /** One value's entries of `vals_`. */
  type Table = map<Index, Val>

  function TableOf(vals: map<Id, Table>, x: Id): Table {
    if x in vals then vals[x] else map[]
  }

  /** `vals_[x][idx]`, which is the null pointer for an entry never
      written. */
  function Lookup(vals: map<Id, Table>, x: Id, idx: Index): Val {
    var t := TableOf(vals, x);
    if idx in t then t[idx] else Null
  }

  /** The values of `x` along a list of indices. */
  function ValuesAlong(vals: map<Id, Table>, x: Id, l: seq<Index>): (r: seq<Val>)
    ensures |r| == |l| && forall k :: 0 <= k < |l| ==> r[k] == Lookup(vals, x, l[k])
  {
    seq(|l|, k requires 0 <= k < |l| => Lookup(vals, x, l[k]))
  }

  lemma LookupElsewhere(vals: map<Id, Table>, vals': map<Id, Table>, x: Id, y: Id, idx: Index)
    requires vals' - {x} == vals - {x} && y != x
    ensures Lookup(vals', y, idx) == Lookup(vals, y, idx)
  {
    assert y in vals' <==> y in vals' - {x};
    assert y in vals <==> y in vals - {x};
    if y in vals {
      assert vals[y] == (vals - {x})[y];
      assert vals'[y] == (vals' - {x})[y];
    }
  }

  // ---------------------------------------------------------------------
  // Writing a table in order

  /** The table after writing `vs[k]` at `dst[k]` for `k = 0, 1, ...`. */
  function Assign(t: Table, dst: seq<Index>, vs: seq<Val>): Table
    requires |dst| == |vs|
    decreases |dst|
  {
    if |dst| == 0 then t
    else Assign(t, dst[..|dst| - 1], vs[..|vs| - 1])[dst[|dst| - 1] := vs[|vs| - 1]]
  }

  /** An index that is not written keeps its entry. */
  lemma {:induction false} AssignOutside(t: Table, dst: seq<Index>, vs: seq<Val>, idx: Index)
    requires |dst| == |vs| && idx !in dst
    ensures idx in Assign(t, dst, vs) <==> idx in t
    ensures idx in t ==> Assign(t, dst, vs)[idx] == t[idx]
  {
    var n := |dst|;
    if n > 0 {
      var front := dst[..n - 1];
      assert forall j :: 0 <= j < |front| ==> front[j] == dst[j];
      AssignOutside(t, front, vs[..n - 1], idx);
    }
  }

  /** The last write to an index is the one that stays. */
  lemma {:induction false} AssignLast(t: Table, dst: seq<Index>, vs: seq<Val>, k: nat)
    requires |dst| == |vs| && k < |dst|
    requires forall j :: k < j < |dst| ==> dst[j] != dst[k]
    ensures dst[k] in Assign(t, dst, vs) && Assign(t, dst, vs)[dst[k]] == vs[k]
  {
    var n := |dst|;
    if k < n - 1 {
      var dst', vs' := dst[..n - 1], vs[..n - 1];
      assert forall j :: k < j < |dst'| ==> dst'[j] != dst'[k];
      AssignLast(t, dst', vs', k);
    }
  }

  lemma LastOccurrence(dst: seq<Index>, idx: Index) returns (k: nat)
    requires idx in dst
    ensures k < |dst| && dst[k] == idx && forall j :: k < j < |dst| ==> dst[j] != idx
  {
    k := |dst| - 1;
    while dst[k] != idx
      invariant 0 <= k < |dst| && forall j :: k < j < |dst| ==> dst[j] != idx
      invariant idx in dst[..k + 1]
      decreases k
    {
      assert dst[..k + 1] == dst[..k] + [dst[k]];
      k := k - 1;
    }
  }

  /** When every written value is a function of the index it is written
      at, each listed index ends up holding that function's value. */
  lemma AssignRule(t: Table, dst: seq<Index>, vs: seq<Val>, f: Index -> Val)
    requires |dst| == |vs| && forall k :: 0 <= k < |dst| ==> vs[k] == f(dst[k])
    ensures forall idx :: idx in dst ==> idx in Assign(t, dst, vs) && Assign(t, dst, vs)[idx] == f(idx)
  {
    forall idx | idx in dst
      ensures idx in Assign(t, dst, vs) && Assign(t, dst, vs)[idx] == f(idx)
    {
      var k := LastOccurrence(dst, idx);
      AssignLast(t, dst, vs, k);
    }
  }

  predicate Distinct(l: seq<Index>) {
    forall i, j :: 0 <= i < j < |l| ==> l[i] != l[j]
  }

  /** Into distinct indices, every write stays. */
  lemma AssignDistinct(t: Table, dst: seq<Index>, vs: seq<Val>)
    requires |dst| == |vs| && Distinct(dst)
    ensures forall k :: 0 <= k < |dst| ==> dst[k] in Assign(t, dst, vs) && Assign(t, dst, vs)[dst[k]] == vs[k]
  {
    forall k | 0 <= k < |dst|
      ensures dst[k] in Assign(t, dst, vs) && Assign(t, dst, vs)[dst[k]] == vs[k]
    {
      AssignLast(t, dst, vs, k);
    }
  }

  // ---------------------------------------------------------------------
  // Broadcast

  /** `visit_broadcast_inst`: the operand index of an output index, with
      every dimension of extent 1 in the operand read at 0. */
  function BroadcastIndex(outIdx: Index, shape: seq<int>): (inIdx: Index)
    ensures |inIdx| == |outIdx|
    ensures forall k :: 0 <= k < |outIdx| ==>
      inIdx[k] == if k < |shape| && shape[k] == 1 then 0 else outIdx[k]
  {
    seq(|outIdx|, k requires 0 <= k < |outIdx| => if k < |shape| && shape[k] == 1 then 0 else outIdx[k])
  }

  /** A broadcast only reads materialized elements of its operand: when the
      operand's coordinate list is `[0]` along its extent-1 dimensions and
      the output's list elsewhere, every output index maps to an operand
      index. */
  lemma BroadcastReadsOperand(outIdxs: seq<Index>, outLists: seq<seq<int>>, outOrd: seq<int>,
                              inIdxs: seq<Index>, inLists: seq<seq<int>>, inOrd: seq<int>,
                              shape: seq<int>, t: Index)
    requires IsPermutation(outOrd, |outLists|) && IM.IsProduct(outIdxs, outLists, outOrd)
    requires Positive(IM.Sizes(outLists, outOrd))
    requires IsPermutation(inOrd, |inLists|) && IM.IsProduct(inIdxs, inLists, inOrd)
    requires Positive(IM.Sizes(inLists, inOrd))
    requires |inLists| == |outLists| == |shape|
    requires forall d :: 0 <= d < |shape| ==> inLists[d] == if shape[d] == 1 then [0] else outLists[d]
    requires t in outIdxs
    ensures BroadcastIndex(t, shape) in inIdxs
  {
    IM.ProductMembership(outIdxs, outLists, outOrd, t);
    var s := BroadcastIndex(t, shape);
    forall d | 0 <= d < |inLists|
      ensures s[d] in inLists[d]
    {
      if shape[d] == 1 {
        assert inLists[d] == [0];
      } else {
        assert s[d] == t[d];
      }
    }
    IM.ProductMembership(inIdxs, inLists, inOrd, s);
  }

  // ---------------------------------------------------------------------
  // What the generator relies on

  /** One side of a cast, result or operand, has scalar type `t`. */
  predicate Involves(retTy: ScalarTy, opTy: ScalarTy, t: ScalarTy) {
    retTy == t || opTy == t
  }

  function IsFp8Cast(prog: Program, y: Id): bool
    requires y in prog
  {
    var val := prog[y];
    val.inst.CastInst? && val.inst.arg in prog
    && (val.ty.ScalarType() == Fp8 || prog[val.inst.arg].ty.ScalarType() == Fp8)
  }

  /** A distributed layout as the layout analysis builds it: one entry per
      dimension, permutations for the order and the axis positions, and
      positive run lengths. */
  predicate LaidOut(val: Value)
    requires val.ty.Block? && val.layout.Distributed?
  {
    var n := |val.ty.shape|;
    var l := val.layout;
    |l.order| == n && |l.axisPos| == n && |val.axes| == n && |l.nts| == n
    && IsPermutation(l.order, n) && IsPermutation(l.axisPos, n)
    && forall d :: 0 <= d < n ==> l.nts[d] >= 1
  }

  /** Operands exist and, except through a phi, a value does not use
      itself; every distributed block is laid out; an fp8 cast produces a
      scanline block (the source dereferences `to_scanline()`). */
  predicate WellFormedValue(prog: Program, y: Id)
    requires y in prog
  {
    var val := prog[y];
    (forall o :: o in val.inst.Operands() ==> o in prog)
    && (!val.inst.Phi? ==> y !in val.inst.Operands())
    && (val.ty.Block? && val.layout.Distributed? ==> LaidOut(val))
    && (IsFp8Cast(prog, y) ==> val.ty.Block? && val.layout.Distributed? && val.layout.scanline && |val.ty.shape| >= 1)
  }

  predicate WellFormed(prog: Program) {
    forall y :: y in prog ==> WellFormedValue(prog, y)
  }

  /** The coordinate list `axes_` holds for each dimension of `val` (empty
      when the axis has none), before extent-1 dimensions are replaced. */
  function AxisValues(val: Value, axes: map<int, Scanline.DistributedAxis>): (r: seq<seq<int>>)
    requires val.ty.Block? && |val.axes| == |val.ty.shape|
    ensures |r| == |val.ty.shape|
  {
    seq(|val.ty.shape|, d requires 0 <= d < |val.ty.shape| =>
      if val.axes[d] in axes then axes[val.axes[d]].values else [])
  }

  /** The keys the dimensions of a distributed value are sorted by. */
  function SortKeys(val: Value): (keys: seq<int>)
    requires val.ty.Block? && val.layout.Distributed? && LaidOut(val)
    ensures IsPermutation(keys, |val.ty.shape|)
  {
    IM.DimKeys(val.layout.order, val.layout.axisPos)
  }

  /** The group of four the fp8 converters produce from four inputs. */
  function Fp8Group(a: Val, b: Val, c: Val, d: Val, opTy: ScalarTy, retTy: ScalarTy): (r: Result<seq<Val>>)
    ensures r.Ok? ==> |r.value| == 4
    ensures r.Ok? <==> ((opTy == Fp32 && retTy == Fp8 && NarrowFormats.Fp32x4ToFp8x4(a, b, c, d).Ok?)
                        || (opTy == Fp8 && retTy == Fp16))
  {
    if opTy == Fp32 && retTy == Fp8 then
      var bytes :- NarrowFormats.Fp32x4ToFp8x4(a, b, c, d);
      Ok([ConstInt(bytes[0] as int, 8), ConstInt(bytes[1] as int, 8), ConstInt(bytes[2] as int, 8), ConstInt(bytes[3] as int, 8)])
    else if opTy == Fp8 && retTy == Fp16 then
      Ok([Fp8x4ToFp16x4(a, b, c, d, 0), Fp8x4ToFp16x4(a, b, c, d, 1), Fp8x4ToFp16x4(a, b, c, d, 2), Fp8x4ToFp16x4(a, b, c, d, 3)])
    else
      Err("unsupported conversion")
  }

  /** The `i += 4` loop of an fp8 cast: the conversions of consecutive
      groups of four inputs, or the first group's failure. */
  method ConvertGroups(ins: seq<Val>, opTy: ScalarTy, retTy: ScalarTy) returns (r: Result<seq<Val>>)
    requires |ins| % 4 == 0
    ensures r.Ok? <==> forall g :: 0 <= g < |ins| / 4 ==>
      Fp8Group(ins[4 * g], ins[4 * g + 1], ins[4 * g + 2], ins[4 * g + 3], opTy, retTy).Ok?
    ensures r.Ok? ==> |r.value| == |ins| && forall g :: 0 <= g < |ins| / 4 ==>
      r.value[4 * g..4 * g + 4] == Fp8Group(ins[4 * g], ins[4 * g + 1], ins[4 * g + 2], ins[4 * g + 3], opTy, retTy).value
  {
    var out: seq<Val> := [];
    var g := 0;
    while g < |ins| / 4
      invariant 0 <= g <= |ins| / 4 && Converted(ins, out, opTy, retTy, g)
    {
      var i := 4 * g;
      var grp := Fp8Group(ins[i], ins[i + 1], ins[i + 2], ins[i + 3], opTy, retTy);
      if grp.Err? {
        return Err(grp.msg);
      }
      ConvertedStep(ins, out, opTy, retTy, g);
      out := out + grp.value;
      g := g + 1;
    }
    return Ok(out);
  }

  /** The first `g` groups of `ins` converted, into `out`. */
  predicate Converted(ins: seq<Val>, out: seq<Val>, opTy: ScalarTy, retTy: ScalarTy, g: nat)
    requires 4 * g <= |ins|
  {
    |out| == 4 * g
    && forall h :: 0 <= h < g ==>
      Fp8Group(ins[4 * h], ins[4 * h + 1], ins[4 * h + 2], ins[4 * h + 3], opTy, retTy).Ok?
      && out[4 * h..4 * h + 4] == Fp8Group(ins[4 * h], ins[4 * h + 1], ins[4 * h + 2], ins[4 * h + 3], opTy, retTy).value
  }

  lemma ConvertedStep(ins: seq<Val>, out: seq<Val>, opTy: ScalarTy, retTy: ScalarTy, g: nat)
    requires 4 * g + 4 <= |ins| && Converted(ins, out, opTy, retTy, g)
    requires Fp8Group(ins[4 * g], ins[4 * g + 1], ins[4 * g + 2], ins[4 * g + 3], opTy, retTy).Ok?
    ensures Converted(ins, out + Fp8Group(ins[4 * g], ins[4 * g + 1], ins[4 * g + 2], ins[4 * g + 3], opTy, retTy).value,
                      opTy, retTy, g + 1)
  {
    var grp := Fp8Group(ins[4 * g], ins[4 * g + 1], ins[4 * g + 2], ins[4 * g + 3], opTy, retTy).value;
    GroupsKept(out, grp, g);
  }

  /** Appending a group of four keeps the groups before it. */
  lemma GroupsKept(out: seq<Val>, grp: seq<Val>, g: nat)
    requires |out| == 4 * g && |grp| == 4
    ensures forall h :: 0 <= h < g ==> (out + grp)[4 * h..4 * h + 4] == out[4 * h..4 * h + 4]
    ensures (out + grp)[4 * g..4 * g + 4] == grp
  {
    forall h | 0 <= h < g
      ensures (out + grp)[4 * h..4 * h + 4] == out[4 * h..4 * h + 4]
    {
    }
  }

  /** The conversion of group `g`: inputs `4*g` to `4*g+3`. */
  function Fp8GroupOf(ins: seq<Val>, g: nat, opTy: ScalarTy, retTy: ScalarTy): (r: Result<seq<Val>>)
    requires 4 * g + 4 <= |ins|
    ensures r == Fp8Group(ins[4 * g], ins[4 * g + 1], ins[4 * g + 2], ins[4 * g + 3], opTy, retTy)
  {
    Fp8Group(ins[4 * g], ins[4 * g + 1], ins[4 * g + 2], ins[4 * g + 3], opTy, retTy)
  }

  /** Element `k` of the converted list is lane `k % 4` of the conversion
      of group `k / 4`. */
  lemma GroupElements(ins: seq<Val>, out: seq<Val>, opTy: ScalarTy, retTy: ScalarTy)
    requires |ins| % 4 == 0 && |out| == |ins|
    requires forall g :: 0 <= g < |ins| / 4 ==>
      Fp8Group(ins[4 * g], ins[4 * g + 1], ins[4 * g + 2], ins[4 * g + 3], opTy, retTy).Ok?
      && out[4 * g..4 * g + 4] == Fp8Group(ins[4 * g], ins[4 * g + 1], ins[4 * g + 2], ins[4 * g + 3], opTy, retTy).value
    ensures forall k :: 0 <= k < |ins| ==>
      Fp8GroupOf(ins, k / 4, opTy, retTy).Ok? && out[k] == Fp8GroupOf(ins, k / 4, opTy, retTy).value[k % 4]
  {
    forall k | 0 <= k < |ins|
      ensures Fp8GroupOf(ins, k / 4, opTy, retTy).Ok? && out[k] == Fp8GroupOf(ins, k / 4, opTy, retTy).value[k % 4]
    {
      var g := k / 4;
      assert out[4 * g..4 * g + 4] == Fp8GroupOf(ins, g, opTy, retTy).value;
      assert out[k] == out[4 * g..4 * g + 4][k % 4];
    }
  }

  ghost function Restrict(m: map<Id, Val>, s: set<Id>): map<Id, Val> {
    map y | y in m && y in s :: m[y]
  }

  lemma RestrictSmaller(a: map<Id, Val>, b: map<Id, Val>, s: set<Id>, t: set<Id>)
    requires Restrict(a, s) == Restrict(b, s) && t <= s
    ensures Restrict(a, t) == Restrict(b, t)
  {
    assert Restrict(a, t) == Restrict(Restrict(a, s), t);
    assert Restrict(b, t) == Restrict(Restrict(b, s), t);
  }

  /** Updating a key outside `s` does not change the restriction to `s`. */
  lemma RestrictUpdate(a: map<Id, Val>, b: map<Id, Val>, s: set<Id>, y: Id)
    requires y !in s && b - {y} == a - {y}
    ensures Restrict(a, s) == Restrict(b, s)
  {
    forall z | z in s
      ensures (z in a <==> z in b) && (z in a ==> a[z] == b[z])
    {
      assert z in a <==> z in a - {y};
      assert z in b <==> z in b - {y};
      if z in a {
        assert a[z] == (a - {y})[z];
      }
      if z in b {
        assert b[z] == (b - {y})[z];
      }
    }
  }

  lemma RestrictPoint(a: map<Id, Val>, b: map<Id, Val>, s: set<Id>, y: Id)
    requires Restrict(a, s) == Restrict(b, s) && y in s
    ensures y in a <==> y in b
    ensures y in a ==> a[y] == b[y]
  {
    assert y in a <==> y in Restrict(a, s);
    assert y in b <==> y in Restrict(b, s);
    if y in a {
      assert a[y] == Restrict(a, s)[y];
      assert b[y] == Restrict(b, s)[y];
    }
  }

  predicate DistinctIds(ids: seq<int>) {
    forall i, j :: 0 <= i < j < |ids| ==> ids[i] != ids[j]
  }

  /** The axes stored under a list of axis ids. */
  function AxesAt(axes: map<int, Scanline.DistributedAxis>, ids: seq<int>): (r: seq<Scanline.DistributedAxis>)
    requires forall k :: 0 <= k < |ids| ==> ids[k] in axes
    ensures |r| == |ids| && forall k :: 0 <= k < |ids| ==> r[k] == axes[ids[k]]
  {
    seq(|ids|, k requires 0 <= k < |ids| => axes[ids[k]])
  }

  /** What `init_idx` leaves for `v`: one empty tuple for a scalar, none
      for a shared block, and for a distributed block an order sorted by
      the layout keys with, for ranks 1 to 3, the ordered product of its
      coordinate lists (nothing for other ranks). */
  predicate Indexed(prog: Program, v: Id, idxs: map<Id, seq<Index>>, ords: map<Id, seq<int>>,
                    axes: map<int, Scanline.DistributedAxis>)
    requires v in prog && WellFormedValue(prog, v)
  {
    var val := prog[v];
    v in idxs
    && (!val.ty.Block? ==> idxs[v] == [[]])
    && (val.ty.Block? && val.layout.Shared? ==> idxs[v] == [])
    && (val.ty.Block? && val.layout.Distributed? ==>
          var n := |val.ty.shape|;
          var lists := IM.CoordinateLists(val.ty.shape, AxisValues(val, axes));
          v in ords && IsPermutation(ords[v], n)
          && (forall i, j :: 0 <= i < j < n ==> SortKeys(val)[ords[v][i]] < SortKeys(val)[ords[v][j]])
          && (1 <= n <= 3 ==> IM.IsProduct(idxs[v], lists, ords[v]))
          && (n > 3 ==> idxs[v] == []))
  }

  /** The operands `visit_value` visits before `v`: all of them, or only
      the constant ones for a phi. */
  predicate OperandsSeen(prog: Program, v: Id, seen: set<Id>)
    requires v in prog && WellFormedValue(prog, v)
  {
    forall o :: o in prog[v].inst.Operands() && (prog[o].inst.Constant? || !prog[v].inst.Phi?) ==> o in seen
  }

  class Generator {
    /** The tile program with the analyses' results. */
    const prog: Program
    /** `sm >= 80`: `fp32_to_bf16` has a hardware conversion. */
    const hardwareBf16: bool

    var vals: map<Id, Table>
    var idxs: map<Id, seq<Index>>
    var ords: map<Id, seq<int>>
    var axes: map<int, Scanline.DistributedAxis>
    var seen: set<Id>
    /** `shared_ptr_`, `shared_pre_ptr_`, ... of each shared layout, by buffer. */
    var sharedPtrs: map<int, SharedBuffers.LayoutPtrs>
    var shmems: map<Id, Val>
    var shoffs: map<Id, Val>

    constructor (prog: Program, sm: int)
      ensures this.prog == prog && hardwareBf16 == (sm >= 80)
      ensures vals == map[] && idxs == map[] && ords == map[] && axes == map[]
      ensures seen == {} && sharedPtrs == map[] && shmems == map[] && shoffs == map[]
    {
      this.prog := prog;
      hardwareBf16 := sm >= 80;
      vals, idxs, ords, axes := map[], map[], map[], map[];
      seen, sharedPtrs, shmems, shoffs := {}, map[], map[], map[];
    }

    function Get(x: Id, idx: Index): Val
      reads this
    {
      Lookup(vals, x, idx)
    }

    /** Only the table of `x` changed. */
    twostate predicate OnlyTable(x: Id)
      reads this
    {
      vals - {x} == old(vals) - {x}
      && idxs == old(idxs) && ords == old(ords) && axes == old(axes) && seen == old(seen)
      && sharedPtrs == old(sharedPtrs) && shmems == old(shmems) && shoffs == old(shoffs)
    }

    /** The loop every value-table rule runs: `vals_[x][dst[k]] = vs[k]`
        in order. */
    method Store(x: Id, dst: seq<Index>, vs: seq<Val>)
      requires |dst| == |vs|
      modifies this
      ensures OnlyTable(x)
      ensures TableOf(vals, x) == Assign(old(TableOf(vals, x)), dst, vs)
    {
      ghost var t0 := TableOf(vals, x);
      var k := 0;
      while k < |dst|
        invariant 0 <= k <= |dst|
        invariant OnlyTable(x)
        invariant TableOf(vals, x) == Assign(t0, dst[..k], vs[..k])
      {
        vals := vals[x := TableOf(vals, x)[dst[k] := vs[k]]];
        assert dst[..k + 1][..k] == dst[..k] && vs[..k + 1][..k] == vs[..k];
        k := k + 1;
      }
      assert dst[..|dst|] == dst && vs[..|vs|] == vs;
    }

    /** A rule that writes `f(idx)` at every materialized index `idx` of
        `x`. */
    method StoreRule(x: Id, dst: seq<Index>, vs: seq<Val>, ghost f: Index -> Val)
      requires |dst| == |vs| && forall k :: 0 <= k < |dst| ==> vs[k] == f(dst[k])
      modifies this
      ensures OnlyTable(x)
      ensures TableOf(vals, x) == Assign(old(TableOf(vals, x)), dst, vs)
      ensures forall idx :: idx in dst ==> Get(x, idx) == f(idx)
      ensures forall idx :: idx !in dst ==> Get(x, idx) == old(Get(x, idx))
    {
      ghost var t0 := TableOf(vals, x);
      Store(x, dst, vs);
      AssignRule(t0, dst, vs, f);
      forall idx | idx !in dst
        ensures Get(x, idx) == old(Get(x, idx))
      {
        AssignOutside(t0, dst, vs, idx);
      }
    }

    // -------------------------------------------------------------------
    // The value-table rules

    /** `visit_splat_inst`: every element is the scalar operand. */
    method VisitSplat(x: Id, a: Id) returns (r: Result<()>)
      requires x != a
      modifies this
      ensures OnlyTable(x)
      ensures r.Err? <==> x !in idxs
      ensures r.Err? ==> vals == old(vals)
      ensures r.Ok? ==> forall idx :: idx in idxs[x] ==> Get(x, idx) == old(Get(a, []))
      ensures r.Ok? ==> forall idx :: idx !in idxs[x] ==> Get(x, idx) == old(Get(x, idx))
    {
      if x !in idxs {
        return Err("map::at");
      }
      var xs := idxs[x];
      var s := Get(a, []);
      var vs := seq(|xs|, k requires 0 <= k < |xs| => s);
      StoreRule(x, xs, vs, _ => s);
      r := Ok(());
    }

    /** `visit_broadcast_inst`: every element reads the operand at the
        index whose extent-1 dimensions are 0. */
    method VisitBroadcast(x: Id, a: Id, shape: seq<int>) returns (r: Result<()>)
      requires x != a
      modifies this
      ensures OnlyTable(x)
      ensures r.Err? <==> x !in idxs
      ensures r.Err? ==> vals == old(vals)
      ensures r.Ok? ==> forall idx :: idx in idxs[x] ==> Get(x, idx) == old(Get(a, BroadcastIndex(idx, shape)))
      ensures r.Ok? ==> forall idx :: idx !in idxs[x] ==> Get(x, idx) == old(Get(x, idx))
    {
      if x !in idxs {
        return Err("map::at");
      }
      var xs := idxs[x];
      var v0 := vals;
      var vs := seq(|xs|, k requires 0 <= k < |xs| => Lookup(v0, a, BroadcastIndex(xs[k], shape)));
      StoreRule(x, xs, vs, idx => Lookup(v0, a, BroadcastIndex(idx, shape)));
      r := Ok(());
    }

    /** The elementwise rules (`visit_binary_operator`, `visit_icmp_inst`,
        `visit_fcmp_inst`): each element combines the operands' elements
        at the same index. */
    method VisitElementwise(x: Id, l: Id, rr: Id, combine: (Val, Val) -> Val) returns (r: Result<()>)
      requires x != l && x != rr
      modifies this
      ensures OnlyTable(x)
      ensures r.Err? <==> x !in idxs
      ensures r.Err? ==> vals == old(vals)
      ensures r.Ok? ==> forall idx :: idx in idxs[x] ==> Get(x, idx) == combine(old(Get(l, idx)), old(Get(rr, idx)))
      ensures r.Ok? ==> forall idx :: idx !in idxs[x] ==> Get(x, idx) == old(Get(x, idx))
    {
      if x !in idxs {
        return Err("map::at");
      }
      var xs := idxs[x];
      var v0 := vals;
      var vs := seq(|xs|, k requires 0 <= k < |xs| => combine(Lookup(v0, l, xs[k]), Lookup(v0, rr, xs[k])));
      StoreRule(x, xs, vs, idx => combine(Lookup(v0, l, idx), Lookup(v0, rr, idx)));
      r := Ok(());
    }

    /** `visit_cat_inst`: the first elements of `x`, in materialization
        order, are those of `lhs`, followed by those of `rhs`. */
    method VisitCat(x: Id, lhs: Id, rhs: Id) returns (r: Result<()>)
      requires x != lhs && x != rhs
      modifies this
      ensures OnlyTable(x)
      ensures r.Err? <==> x !in idxs || lhs !in idxs || rhs !in idxs || |idxs[x]| < |idxs[lhs]| + |idxs[rhs]|
      ensures r.Err? ==> vals == old(vals)
      ensures r.Ok? ==> var n := |idxs[lhs]| + |idxs[rhs]|;
        TableOf(vals, x) == Assign(old(TableOf(vals, x)), idxs[x][..n],
                                   old(ValuesAlong(vals, lhs, idxs[lhs]) + ValuesAlong(vals, rhs, idxs[rhs])))
      ensures r.Ok? && Distinct(idxs[x]) ==>
        ValuesAlong(vals, x, idxs[x][..|idxs[lhs]| + |idxs[rhs]|])
          == old(ValuesAlong(vals, lhs, idxs[lhs]) + ValuesAlong(vals, rhs, idxs[rhs]))
    {
      if x !in idxs || lhs !in idxs || rhs !in idxs || |idxs[x]| < |idxs[lhs]| + |idxs[rhs]| {
        return Err("map::at");
      }
      var n := |idxs[lhs]| + |idxs[rhs]|;
      var dst := idxs[x][..n];
      var vs := ValuesAlong(vals, lhs, idxs[lhs]) + ValuesAlong(vals, rhs, idxs[rhs]);
      ghost var t0 := TableOf(vals, x);
      Store(x, dst, vs);
      if Distinct(idxs[x]) {
        assert Distinct(dst);
        AssignDistinct(t0, dst, vs);
      }
      r := Ok(());
    }

    /** `visit_reshape_inst`: element `i` of `x` in materialization order
        is element `i` of the operand. */
    method VisitReshape(x: Id, a: Id) returns (r: Result<()>)
      requires x != a
      modifies this
      ensures OnlyTable(x)
      ensures r.Err? <==> x !in idxs || (|idxs[x]| > 0 && (a !in idxs || |idxs[a]| < |idxs[x]|))
      ensures r.Err? ==> vals == old(vals)
      ensures r.Ok? && |idxs[x]| == 0 ==> vals == old(vals)
      ensures r.Ok? && |idxs[x]| > 0 ==>
        TableOf(vals, x) == Assign(old(TableOf(vals, x)), idxs[x], old(ValuesAlong(vals, a, idxs[a][..|idxs[x]|])))
      ensures r.Ok? && |idxs[x]| > 0 && Distinct(idxs[x]) ==>
        ValuesAlong(vals, x, idxs[x]) == old(ValuesAlong(vals, a, idxs[a][..|idxs[x]|]))
    {
      if x !in idxs {
        return Err("map::at");
      }
      var dst := idxs[x];
      // With no element to write, the loop never reads the operand's list.
      if |dst| == 0 {
        return Ok(());
      }
      if a !in idxs || |idxs[a]| < |dst| {
        return Err("index out of range");
      }
      var vs := ValuesAlong(vals, a, idxs[a][..|dst|]);
      ghost var t0 := TableOf(vals, x);
      Store(x, dst, vs);
      if Distinct(dst) {
        AssignDistinct(t0, dst, vs);
      }
      r := Ok(());
    }

    /** `visit_phi_node`: one fresh LLVM phi per element. */
    method VisitPhi(x: Id) returns (r: Result<()>)
      modifies this
      ensures OnlyTable(x)
      ensures r.Err? <==> x !in idxs
      ensures r.Err? ==> vals == old(vals)
      ensures r.Ok? ==> forall idx :: idx in idxs[x] ==> Get(x, idx) == PhiNode(x, idx)
      ensures r.Ok? ==> forall idx :: idx !in idxs[x] ==> Get(x, idx) == old(Get(x, idx))
    {
      if x !in idxs {
        return Err("map::at");
      }
      var xs := idxs[x];
      var vs := seq(|xs|, k requires 0 <= k < |xs| => PhiNode(x, xs[k]));
      StoreRule(x, xs, vs, idx => PhiNode(x, idx));
      r := Ok(());
    }

    /** `visit_constant_int` / `visit_constant_fp`: every element is the
        constant. */
    method VisitConstant(x: Id, c: Val) returns (r: Result<()>)
      modifies this
      ensures OnlyTable(x)
      ensures r.Err? <==> x !in idxs
      ensures r.Err? ==> vals == old(vals)
      ensures r.Ok? ==> forall idx :: idx in idxs[x] ==> Get(x, idx) == c
      ensures r.Ok? ==> forall idx :: idx !in idxs[x] ==> Get(x, idx) == old(Get(x, idx))
    {
      if x !in idxs {
        return Err("map::at");
      }
      var xs := idxs[x];
      var vs := seq(|xs|, k requires 0 <= k < |xs| => c);
      StoreRule(x, xs, vs, _ => c);
      r := Ok(());
    }

    /** `visit_cast_inst`. Casts from or to fp8 convert groups of four
        elements after the vector-width guard; casts from or to bf16 go
        through the bf16 helpers; every other cast is one LLVM cast per
        element. */
    method VisitCast(x: Id, cop: CastOp, a: Id) returns (r: Result<()>)
      requires x in prog && a in prog && x != a
      requires prog[x].inst == CastInst(cop, a) && WellFormedValue(prog, x)
      modifies this
      ensures OnlyTable(x)
      ensures x !in idxs || a !in idxs ==> r.Err?
      ensures r.Ok? ==> forall idx :: idx !in idxs[x] ==> Get(x, idx) == old(Get(x, idx))
      ensures r.Ok? && !IsFp8Cast(prog, x) && prog[x].ty.ScalarType() != Bf16 && prog[a].ty.ScalarType() != Bf16 ==>
        forall idx :: idx in idxs[x] ==> Get(x, idx) == Cast(cop, old(Get(a, idx)), prog[x].ty.ScalarType())
      ensures r.Ok? && !IsFp8Cast(prog, x) && prog[x].ty.ScalarType() == Bf16 && prog[a].ty.ScalarType() == Fp32 ==>
        |idxs[x]| <= |idxs[a]| && forall k :: 0 <= k < |idxs[x]| && Distinct(idxs[x]) ==>
          Get(x, idxs[x][k]) == Fp32ToBf16(old(Get(a, idxs[a][k])), hardwareBf16)
      ensures r.Ok? && !IsFp8Cast(prog, x) && prog[x].ty.ScalarType() == Fp32 && prog[a].ty.ScalarType() == Bf16 ==>
        |idxs[x]| <= |idxs[a]| && forall k :: 0 <= k < |idxs[x]| && Distinct(idxs[x]) ==>
          Get(x, idxs[x][k]) == Bf16ToFp32(old(Get(a, idxs[a][k])))
      ensures !IsFp8Cast(prog, x) && x in idxs && a in idxs ==>
        (r.Ok? <==> !(Involves(prog[x].ty.ScalarType(), prog[a].ty.ScalarType(), Bf16)
                      && Involves(prog[x].ty.ScalarType(), prog[a].ty.ScalarType(), Fp32)
                      && |idxs[a]| < |idxs[x]|))
      ensures r.Ok? && !IsFp8Cast(prog, x) && Involves(prog[x].ty.ScalarType(), prog[a].ty.ScalarType(), Bf16)
              && !Involves(prog[x].ty.ScalarType(), prog[a].ty.ScalarType(), Fp32) ==>
        vals == old(vals)
      ensures IsFp8Cast(prog, x) ==>
        var l := prog[x].layout;
        (NarrowFormats.Fp8Guard(l.nts[l.order[0]]).Err? && x in idxs && a in idxs ==> r.Err?)
      ensures r.Ok? && IsFp8Cast(prog, x) ==> NarrowFormats.Fp8Guard(prog[x].layout.nts[prog[x].layout.order[0]]).Ok?
      ensures IsFp8Cast(prog, x) && x in idxs && a in idxs
              && NarrowFormats.Fp8Guard(prog[x].layout.nts[prog[x].layout.order[0]]).Ok? ==>
        (r.Ok? <==> |idxs[x]| % 4 == 0 && |idxs[x]| <= |idxs[a]|
                    && forall g :: 0 <= g < |idxs[x]| / 4 ==>
                         Fp8GroupOf(old(ValuesAlong(vals, a, idxs[a][..|idxs[x]|])), g,
                                    prog[a].ty.ScalarType(), prog[x].ty.ScalarType()).Ok?)
      ensures r.Ok? && IsFp8Cast(prog, x) && Distinct(idxs[x]) ==>
        |idxs[x]| % 4 == 0 && |idxs[x]| <= |idxs[a]|
        && forall k :: 0 <= k < |idxs[x]| ==>
             var grp := Fp8GroupOf(old(ValuesAlong(vals, a, idxs[a][..|idxs[x]|])), k / 4,
                                   prog[a].ty.ScalarType(), prog[x].ty.ScalarType());
             grp.Ok? && Get(x, idxs[x][k]) == grp.value[k % 4]
    {
      if x !in idxs || a !in idxs {
        return Err("map::at");
      }
      var retTy, opTy := prog[x].ty.ScalarType(), prog[a].ty.ScalarType();
      var xs, os := idxs[x], idxs[a];
      if retTy == Fp8 || opTy == Fp8 {
        var l := prog[x].layout;
        var guard := NarrowFormats.Fp8Guard(l.nts[l.order[0]]);
        if guard.Err? {
          return Err(guard.msg);
        }
        r := ConvertFp8(x, a, opTy, retTy);
        return;
      }
      if retTy == Bf16 || opTy == Bf16 {
        if (opTy == Fp32 || retTy == Fp32) && |os| < |xs| {
          return Err("index out of range");
        }
        if opTy == Fp32 {
          var hw := hardwareBf16;
          StoreMapped(x, a, xs, os, w => Fp32ToBf16(w, hw));
        }
        if retTy == Fp32 {
          StoreMapped(x, a, xs, os, w => Bf16ToFp32(w));
        }
        return Ok(());
      }
      var v0 := vals;
      var vs := seq(|xs|, k requires 0 <= k < |xs| => Cast(cop, Lookup(v0, a, xs[k]), retTy));
      StoreRule(x, xs, vs, idx => Cast(cop, Lookup(v0, a, idx), retTy));
      r := Ok(());
    }

    /** The `i += 4` loop of an fp8 cast: each group of four elements of
        `x` is the conversion of the operand's group at the same
        positions; a conversion that is neither fp32 to fp8 nor fp8 to
        fp16 fails. */
    method ConvertFp8(x: Id, a: Id, opTy: ScalarTy, retTy: ScalarTy) returns (r: Result<()>)
      requires x != a && x in idxs && a in idxs
      modifies this
      ensures OnlyTable(x)
      ensures r.Ok? <==> |idxs[x]| % 4 == 0 && |idxs[x]| <= |idxs[a]|
                         && forall g :: 0 <= g < |idxs[x]| / 4 ==>
                              Fp8GroupOf(old(ValuesAlong(vals, a, idxs[a][..|idxs[x]|])), g, opTy, retTy).Ok?
      ensures r.Err? ==> vals == old(vals)
      ensures r.Ok? ==> forall idx :: idx !in idxs[x] ==> Get(x, idx) == old(Get(x, idx))
      ensures r.Ok? && Distinct(idxs[x]) ==>
        forall k :: 0 <= k < |idxs[x]| ==>
          var grp := Fp8GroupOf(old(ValuesAlong(vals, a, idxs[a][..|idxs[x]|])), k / 4, opTy, retTy);
          grp.Ok? && Get(x, idxs[x][k]) == grp.value[k % 4]
    {
      var xs, os := idxs[x], idxs[a];
      if |xs| % 4 != 0 || |os| < |xs| {
        return Err("index out of range");
      }
      var ins := ValuesAlong(vals, a, os[..|xs|]);
      var converted := ConvertGroups(ins, opTy, retTy);
      if converted.Err? {
        var g :| 0 <= g < |ins| / 4 && !Fp8Group(ins[4 * g], ins[4 * g + 1], ins[4 * g + 2], ins[4 * g + 3], opTy, retTy).Ok?;
        assert !Fp8GroupOf(ins, g, opTy, retTy).Ok?;
        return Err(converted.msg);
      }
      ghost var t0 := TableOf(vals, x);
      Store(x, xs, converted.value);
      if Distinct(xs) {
        AssignDistinct(t0, xs, converted.value);
        GroupElements(ins, converted.value, opTy, retTy);
      }
      forall idx | idx !in xs
        ensures Get(x, idx) == old(Get(x, idx))
      {
        AssignOutside(t0, xs, converted.value, idx);
      }
      return Ok(());
    }

    /** The element loop of a bf16 cast: `f` of the operand's element at
        the same position. */
    method StoreMapped(x: Id, a: Id, xs: seq<Index>, os: seq<Index>, f: Val -> Val)
      requires x != a && |xs| <= |os|
      modifies this
      ensures OnlyTable(x)
      ensures Distinct(xs) ==> forall k :: 0 <= k < |xs| ==> Get(x, xs[k]) == f(old(Get(a, os[k])))
      ensures forall idx :: idx !in xs ==> Get(x, idx) == old(Get(x, idx))
    {
      ghost var t0 := TableOf(vals, x);
      var ins := ValuesAlong(vals, a, os[..|xs|]);
      var vs := seq(|xs|, k requires 0 <= k < |xs| => f(ins[k]));
      Store(x, xs, vs);
      if Distinct(xs) {
        AssignDistinct(t0, xs, vs);
      }
      forall idx | idx !in xs
        ensures Get(x, idx) == old(Get(x, idx))
      {
        AssignOutside(t0, xs, vs, idx);
      }
    }

    /** `usr->accept(this)`: the rule of the instruction that defines `x`.
        Instructions outside the modelled rules leave the table alone. */
    method Accept(x: Id) returns (r: Result<()>)
      requires x in prog && WellFormedValue(prog, x)
      modifies this
      ensures OnlyTable(x)
    {
      var val := prog[x];
      match val.inst {
        case Constant(c) => r := VisitConstant(x, c);
        case Argument => r := Ok(());
        case Phi(_) => r := VisitPhi(x);
        case BinaryInst(bop, l, rr) =>
          r := VisitElementwise(x, l, rr, (p, q) => Bin(bop, p, q));
        case ICmpInst(p, l, rr) =>
          var code := ICmpCode(p);
          r := VisitElementwise(x, l, rr, (u, w) => ICmp(code, u, w));
        case FCmpInst(p, l, rr) =>
          var code := FCmpCode(p);
          r := VisitElementwise(x, l, rr, (u, w) => FCmp(code, u, w));
        case CastInst(cop, a) => r := VisitCast(x, cop, a);
        case SplatInst(a) => r := VisitSplat(x, a);
        case BroadcastInst(a) =>
          var shape := if prog[a].ty.Block? then prog[a].ty.shape else [];
          r := VisitBroadcast(x, a, shape);
        case ReshapeInst(a) => r := VisitReshape(x, a);
        case CatInst(l, rr) => r := VisitCat(x, l, rr);
        case Other(_) => r := Ok(());
      }
    }

    // -------------------------------------------------------------------
    // Indices and layouts

    /** Only the materialized indices and the order of `v` changed. */
    twostate predicate OnlyIdxs(v: Id)
      reads this
    {
      vals == old(vals) && idxs - {v} == old(idxs) - {v} && ords - {v} == old(ords) - {v}
      && axes == old(axes) && seen == old(seen)
      && sharedPtrs == old(sharedPtrs) && shmems == old(shmems) && shoffs == old(shoffs)
    }

    /** `init_idx`: one empty index for a scalar, none for a shared block,
        and for a distributed block the product of its dimensions'
        coordinate lists, in the order that sorts the dimensions by their
        axes' layout order. */
    method InitIdx(v: Id) returns (r: Result<()>)
      requires v in prog && WellFormedValue(prog, v)
      modifies this
      ensures OnlyIdxs(v) && v in idxs
      ensures r.Err? <==> var val := prog[v];
        val.ty.Block? && val.layout.Distributed?
        && exists d :: 0 <= d < |val.ty.shape| && val.ty.shape[d] > 1 && val.axes[d] !in axes
      ensures prog[v].ty.Block? && prog[v].layout.Shared? ==> idxs[v] == []
      ensures r.Ok? ==> Indexed(prog, v, idxs, ords, axes)
    {
      // `idxs_[v].clear()` is folded into the one update of each path
      var val := prog[v];
      if !val.ty.Block? {
        idxs := idxs[v := [[]]];
        return Ok(());
      }
      if val.layout.Shared? {
        idxs := idxs[v := []];
        return Ok(());
      }
      var lists := CoordinateListsOf(val);
      if lists.Err? {
        idxs := idxs[v := []];
        return Err(lists.msg);
      }
      var ord := IM.SortDims(SortKeys(val));
      var product := IM.Materialize(lists.value, ord);
      ords := ords[v := ord];
      idxs := idxs[v := product];
      r := Ok(());
    }

    /** The loop of `init_idx` that gathers each dimension's coordinates:
        the values of its axis, or `{0}` for a dimension of size 1. An axis
        that was never laid out is a failed `axes_.at`. */
    method CoordinateListsOf(val: Value) returns (r: Result<seq<seq<int>>>)
      requires val.ty.Block? && val.layout.Distributed? && |val.axes| == |val.ty.shape|
      ensures r.Err? <==> exists d :: 0 <= d < |val.ty.shape| && val.ty.shape[d] > 1 && val.axes[d] !in axes
      ensures r.Ok? ==> r.value == IM.CoordinateLists(val.ty.shape, AxisValues(val, axes))
    {
      var shape := val.ty.shape;
      ghost var want := IM.CoordinateLists(shape, AxisValues(val, axes));
      var lists: seq<seq<int>> := [];
      var d := 0;
      while d < |shape|
        invariant 0 <= d <= |shape| && |lists| == d
        invariant forall j :: 0 <= j < d && shape[j] > 1 ==> val.axes[j] in axes
        invariant forall j :: 0 <= j < d ==> lists[j] == want[j]
      {
        if shape[d] > 1 {
          if val.axes[d] !in axes {
            return Err("map::at");
          }
          lists := lists + [axes[val.axes[d]].values];
        } else {
          lists := lists + [[0]];
        }
        d := d + 1;
      }
      assert lists == want;
      r := Ok(lists);
    }

    /** `visit_layout_scanline`: the distributed axis of every dimension of
        a scanline layout, stored under the layout's axis ids. */
    method VisitLayoutScanline(tid: nat, layoutAxes: seq<int>, shape: seq<int>, order: seq<int>,
                               mts: seq<int>, nts: seq<int>, perCta: seq<int>)
      requires |shape| >= 1 && IsPermutation(order, |shape|)
      requires |layoutAxes| == |mts| == |nts| == |perCta| == |shape|
      requires Positive(mts) && Positive(nts) && Positive(perCta)
      requires forall k :: 0 <= k < |shape| ==> shape[k] >= 0
      modifies this
      ensures vals == old(vals) && idxs == old(idxs) && ords == old(ords) && seen == old(seen)
      ensures sharedPtrs == old(sharedPtrs) && shmems == old(shmems) && shoffs == old(shoffs)
      ensures forall k :: 0 <= k < |layoutAxes| ==> layoutAxes[k] in axes
      ensures forall ax :: ax !in layoutAxes ==> (ax in axes <==> ax in old(axes)) && (ax in axes ==> axes[ax] == old(axes[ax]))
      ensures DistinctIds(layoutAxes) ==>
        var created := AxesAt(axes, layoutAxes);
        (forall k :: 0 <= k < |shape| ==> Scanline.OwnsCoordinates(created[k], nts[k], shape[k], perCta[k]))
        && Permute(Scanline.ThreadIds(created), order) == TopUnreduced(tid, Permute(mts, order))
    {
      var created := Scanline.ScanlineAxes(tid, shape, order, mts, nts, perCta);
      StoreAxes(layoutAxes, created);
    }

    /** The loop of `visit_layout_scanline` that fills `axes_`. */
    method StoreAxes(ids: seq<int>, created: seq<Scanline.DistributedAxis>)
      requires |ids| == |created|
      modifies this
      ensures vals == old(vals) && idxs == old(idxs) && ords == old(ords) && seen == old(seen)
      ensures sharedPtrs == old(sharedPtrs) && shmems == old(shmems) && shoffs == old(shoffs)
      ensures forall k :: 0 <= k < |ids| ==> ids[k] in axes
      ensures forall ax :: ax !in ids ==> (ax in axes <==> ax in old(axes)) && (ax in axes ==> axes[ax] == old(axes[ax]))
      ensures DistinctIds(ids) ==> AxesAt(axes, ids) == created
    {
      var k := 0;
      while k < |ids|
        invariant 0 <= k <= |ids|
        invariant vals == old(vals) && idxs == old(idxs) && ords == old(ords) && seen == old(seen)
        invariant sharedPtrs == old(sharedPtrs) && shmems == old(shmems) && shoffs == old(shoffs)
        invariant forall j :: 0 <= j < k ==> ids[j] in axes
        invariant forall ax :: ax !in ids ==> (ax in axes <==> ax in old(axes)) && (ax in axes ==> axes[ax] == old(axes[ax]))
        invariant DistinctIds(ids) ==> forall j :: 0 <= j < k ==> axes[ids[j]] == created[j]
      {
        axes := axes[ids[k] := created[k]];
        k := k + 1;
      }
    }

    /** `visit_layout_shared`: the pointers and phis of one shared layout. */
    method VisitLayoutShared(buffer: int, b: Buffering, arena: int, allocOffset: int, elt: ScalarTy,
                             tok: SharedBuffers.PhiTokens)
      modifies this
      ensures sharedPtrs == old(sharedPtrs)[buffer := SharedBuffers.LayoutPointers(b, arena, allocOffset, elt, tok)]
      ensures vals == old(vals) && idxs == old(idxs) && ords == old(ords) && axes == old(axes)
      ensures seen == old(seen) && shmems == old(shmems) && shoffs == old(shoffs)
    {
      sharedPtrs := sharedPtrs[buffer := SharedBuffers.LayoutPointers(b, arena, allocOffset, elt, tok)];
    }

    function PtrsOf(buffer: int): SharedBuffers.LayoutPtrs
      reads this
    {
      if buffer in sharedPtrs then sharedPtrs[buffer] else SharedBuffers.LayoutPtrs(Null, Null, Null, Null, Null, Null)
    }

    // -------------------------------------------------------------------
    // Visiting a value

    /** `visit_value`: memoized by `seen_`. A shared block first records
        its buffer pointer; then the operands are visited (only the
        constant ones for a phi), the indices materialized and the
        defining rule run. A thrown error stops the walk. */
    method VisitValue(v: Id) returns (r: Result<()>)
      requires v in prog && WellFormed(prog)
      modifies this
      ensures v in seen && seen >= old(seen)
      ensures old(v in seen) ==>
        (r.Ok? && vals == old(vals) && idxs == old(idxs) && seen == old(seen)
         && shmems == old(shmems) && shoffs == old(shoffs) && ords == old(ords) && axes == old(axes))
      ensures sharedPtrs == old(sharedPtrs) && axes == old(axes)
      ensures Restrict(shmems, old(seen)) == Restrict(old(shmems), old(seen))
      ensures Restrict(shoffs, old(seen)) == Restrict(old(shoffs), old(seen))
      ensures r.Ok? && !old(v in seen) ==> v in idxs && OperandsSeen(prog, v, seen) && Indexed(prog, v, idxs, ords, axes)
      ensures r.Ok? && !old(v in seen) && prog[v].ty.Block? && prog[v].layout.Shared? ==>
        (var c := SharedBuffers.ChooseBufferPointer(v, prog[v].layout.buffering, PtrsOf(prog[v].layout.buffer));
         c.Ok? && v in shmems && shmems[v] == c.value.ptr && v in shoffs && shoffs[v] == c.value.offset)
      decreases prog.Keys - seen, 2
    {
      if v in seen {
        return Ok(());
      }
      r := VisitUnseen(v);
    }

    /** `visit_value` on a value not seen before. */
    method VisitUnseen(v: Id) returns (r: Result<()>)
      requires v in prog && WellFormed(prog) && v !in seen
      modifies this
      ensures v in seen && seen >= old(seen)
      ensures sharedPtrs == old(sharedPtrs) && axes == old(axes)
      ensures Restrict(shmems, old(seen)) == Restrict(old(shmems), old(seen))
      ensures Restrict(shoffs, old(seen)) == Restrict(old(shoffs), old(seen))
      ensures r.Ok? ==> v in idxs && OperandsSeen(prog, v, seen) && Indexed(prog, v, idxs, ords, axes)
      ensures r.Ok? && prog[v].ty.Block? && prog[v].layout.Shared? ==>
        (var c := SharedBuffers.ChooseBufferPointer(v, prog[v].layout.buffering, PtrsOf(prog[v].layout.buffer));
         c.Ok? && v in shmems && shmems[v] == c.value.ptr && v in shoffs && shoffs[v] == c.value.offset)
      decreases prog.Keys - seen, 1
    {
      seen := seen + {v};
      var val := prog[v];
      assert WellFormedValue(prog, v);
      if val.ty.Block? && val.layout.Shared? {
        var c := SharedBuffers.ChooseBufferPointer(v, val.layout.buffering, PtrsOf(val.layout.buffer));
        if c.Err? {
          return Err(c.msg);
        }
        shmems := shmems[v := c.value.ptr];
        shoffs := shoffs[v := c.value.offset];
      }
      RestrictUpdate(old(shmems), shmems, old(seen), v);
      RestrictUpdate(old(shoffs), shoffs, old(seen), v);
      ghost var seen1 := seen;
      ghost var shmems1, shoffs1 := shmems, shoffs;
      var ops := val.inst.Operands();
      assert forall o :: o in ops ==> o in prog;
      forall j | 0 <= j < |ops|
        ensures ops[j] in prog
      {
        assert ops[j] in ops;
      }
      r := VisitOperands(ops, val.inst.Phi?);
      RestrictSmaller(shmems, shmems1, seen1, old(seen));
      RestrictSmaller(shoffs, shoffs1, seen1, old(seen));
      if r.Err? {
        return;
      }
      RestrictPoint(shmems, shmems1, seen1, v);
      RestrictPoint(shoffs, shoffs1, seen1, v);
      assert OperandsSeen(prog, v, seen);
      r := InitIdx(v);
      if r.Err? {
        return;
      }
      r := Accept(v);
    }

    /** The operand loop of `visit_value`: each operand is visited in
        turn (only the constant ones of a phi), and the first error stops
        the loop. Values seen before keep their buffer pointers. */
    method VisitOperands(ops: seq<Id>, phi: bool) returns (r: Result<()>)
      requires WellFormed(prog) && forall j :: 0 <= j < |ops| ==> ops[j] in prog
      modifies this
      ensures seen >= old(seen) && sharedPtrs == old(sharedPtrs) && axes == old(axes)
      ensures Restrict(shmems, old(seen)) == Restrict(old(shmems), old(seen))
      ensures Restrict(shoffs, old(seen)) == Restrict(old(shoffs), old(seen))
      ensures r.Ok? ==> forall j :: 0 <= j < |ops| && (prog[ops[j]].inst.Constant? || !phi) ==> ops[j] in seen
      decreases prog.Keys - seen, 3
    {
      var i := 0;
      while i < |ops|
        invariant 0 <= i <= |ops|
        invariant seen >= old(seen) && sharedPtrs == old(sharedPtrs) && axes == old(axes)
        invariant Restrict(shmems, old(seen)) == Restrict(old(shmems), old(seen))
        invariant Restrict(shoffs, old(seen)) == Restrict(old(shoffs), old(seen))
        invariant forall j :: 0 <= j < i && (prog[ops[j]].inst.Constant? || !phi) ==> ops[j] in seen
      {
        var op := ops[i];
        if prog[op].inst.Constant? || !phi {
          ghost var seenBefore, shmemsBefore, shoffsBefore := seen, shmems, shoffs;
          var ri := VisitValue(op);
          RestrictSmaller(shmems, shmemsBefore, seenBefore, old(seen));
          RestrictSmaller(shoffs, shoffsBefore, seenBefore, old(seen));
          if ri.Err? {
            return ri;
          }
        }
        i := i + 1;
      }
      r := Ok(());
    }
  }
}
