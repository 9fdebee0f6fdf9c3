/** The swizzled shared-memory addresses of `visit_masked_load_async_inst`
    and `visit_copy_to_shared_inst`: a vector of `min_vec` elements goes to
    a column group XORed with a phase taken from its row, so that rows that
    share a phase land in different banks. */
module Swizzle {
  import opened MachineInt
  import opened MixedRadix
  import opened Wrappers
  import Ir

  function Min(a: int, b: int): int {
    if a <= b then a else b
  }

  function Max(a: int, b: int): int {
    if a >= b then a else b
  }

  /** What the two visitors read from the layouts and the swizzle
      analysis; `order0`/`order1` are `in_order[0]`/`in_order[1]` and
      `mts0`/`mts1` the threads per tile along them. */
  datatype Geometry = Geometry(
    inVec: nat, outVec: nat, perPhase: nat, maxPhase: nat,
    inShape0: nat, mts0: nat, mts1: nat, outShape0: nat,
    order0: nat, order1: nat)

  function MinVec(g: Geometry): (mv: nat)
    ensures mv <= g.inVec && mv <= g.outVec && (g.inVec >= 1 && g.outVec >= 1 ==> mv >= 1)
  {
    Min(g.outVec, g.inVec)
  }

  /** `s`: how many input vectors form one output vector. */
  function GroupSize(g: Geometry): (s: nat)
    ensures s >= 1
  {
    Max(g.outVec / Max(g.inVec, 1), 1)
  }

  /** `in_ld`: the input tile's extent along its fastest dimension. */
  function InLd(g: Geometry): nat {
    g.inShape0 / Max(g.mts0, 1)
  }

  function NShared0(g: Geometry): nat {
    Max(g.inVec / Max(g.outVec, 1), 1)
  }

  function NShared1(g: Geometry): nat {
    Max(g.perPhase * g.maxPhase / Max(g.mts1, 1), 1)
  }

  /** The parameters the integer divisions need; `in_order` is a
      permutation, so its first two entries differ. */
  predicate ValidGeometry(g: Geometry) {
    && g.inVec >= 1 && g.outVec >= 1 && g.perPhase >= 1 && g.maxPhase >= 1
    && g.mts0 >= 1 && g.mts1 >= 1
    && InLd(g) / MinVec(g) >= 1
    && g.order0 != g.order1
  }

  /** An index of any rank that has the two coordinates the swizzle reads,
      `in_order[0]` and `in_order[1]`, both non-negative. */
  predicate Reaches(idx: Ir.Index, g: Geometry) {
    g.order0 < |idx| && g.order1 < |idx| && idx[g.order0] >= 0 && idx[g.order1] >= 0
  }

  predicate ValidIndices(idxs: seq<Ir.Index>, g: Geometry) {
    forall i :: 0 <= i < |idxs| ==> Reaches(idxs[i], g)
  }

  /** `(row / per_phase) % max_phase`. */
  function Phase(row: nat, perPhase: nat, maxPhase: nat): (ph: nat)
    requires perPhase >= 1 && maxPhase >= 1
    ensures ph < maxPhase
  {
    (row / perPhase) % maxPhase
  }

  /** The column group `grp` with its high part `grp / s` XORed with the
      phase and its low part `grp % s` kept. */
  function SwizzleGroup(grp: nat, phase: nat, s: nat): nat
    requires s >= 1
  {
    Xor(grp / s, phase) * s + grp % s
  }

  /** The swizzle keeps the low part and XORs the high part. */
  lemma SwizzleParts(grp: nat, phase: nat, s: nat)
    requires s >= 1
    ensures SwizzleGroup(grp, phase, s) / s == Xor(grp / s, phase)
    ensures SwizzleGroup(grp, phase, s) % s == grp % s
  {
    DivModUnique(SwizzleGroup(grp, phase, s), s, Xor(grp / s, phase), grp % s);
  }

  /** Swizzling twice with the same phase gives the group back. */
  lemma SwizzleInvolution(grp: nat, phase: nat, s: nat)
    requires s >= 1
    ensures SwizzleGroup(SwizzleGroup(grp, phase, s), phase, s) == grp
  {
    var y := SwizzleGroup(grp, phase, s);
    SwizzleParts(grp, phase, s);
    XorInvolution(grp / s, phase);
    assert SwizzleGroup(y, phase, s) == Xor(y / s, phase) * s + y % s;
    Recombine(grp, s);
  }

  lemma Recombine(x: nat, s: nat)
    requires s >= 1
    ensures (x / s) * s + x % s == x
  {
  }

  /** Within one row distinct column groups stay distinct. */
  lemma SwizzleInjective(a: nat, b: nat, phase: nat, s: nat)
    requires s >= 1
    ensures SwizzleGroup(a, phase, s) == SwizzleGroup(b, phase, s) ==> a == b
  {
    SwizzleInvolution(a, phase, s);
    SwizzleInvolution(b, phase, s);
  }

  /** With the number of high parts a power of two covering every phase,
      the swizzled group stays in the row. */
  lemma SwizzleInRow(grp: nat, phase: nat, s: nat, k: nat)
    requires s >= 1 && grp < Pow2(k) * s && phase < Pow2(k)
    ensures SwizzleGroup(grp, phase, s) < Pow2(k) * s
  {
    DivLess(grp, s, Pow2(k));
    XorBound(grp / s, phase, k);
    var x := Xor(grp / s, phase);
    MulAddBound(x, s, grp % s, Pow2(k));
    assert SwizzleGroup(grp, phase, s) == x * s + grp % s;
  }

  /** Phase 0 leaves the layout unswizzled. */
  lemma SwizzlePhaseZero(grp: nat, s: nat)
    requires s >= 1
    ensures SwizzleGroup(grp, 0, s) == grp
  {
    XorZero(grp / s);
    assert SwizzleGroup(grp, 0, s) == (grp / s) * s + grp % s;
    Recombine(grp, s);
  }

  /** The swizzled column of a tile in elements: the column group of
      `col`, swizzled by the row's phase, rescaled by `min_vec`. */
  function SwizzledColumn(row: nat, col: nat, g: Geometry): nat
    requires ValidGeometry(g)
  {
    SwizzleGroup(col / MinVec(g), Phase(row, g.perPhase, g.maxPhase), GroupSize(g)) * MinVec(g)
  }

  /** Where row `row` of a tile starts, `row` rows of `len` elements in. */
  function RowStart(row: nat, len: nat): (start: nat)
    ensures row >= 1 ==> start >= len
  {
    row * len
  }

  /** The element offset of a tile's shared pointer: the swizzled column
      plus the row times the output row length. */
  function TileOffset(idx: Ir.Index, second: nat, g: Geometry): nat
    requires ValidGeometry(g) && Reaches(idx, g)
  {
    var row: nat := idx[g.order1];
    var col: nat := idx[g.order0];
    SwizzledColumn(row, col + second * g.outVec, g) + RowStart(row, g.outShape0)
  }

  /** Swizzled columns start vectors: they are multiples of `min_vec`. */
  lemma SwizzledColumnAligned(row: nat, col: nat, g: Geometry)
    requires ValidGeometry(g)
    ensures SwizzledColumn(row, col, g) % MinVec(g) == 0
  {
    var m := MinVec(g);
    var x := SwizzleGroup(col / m, Phase(row, g.perPhase, g.maxPhase), GroupSize(g));
    assert SwizzledColumn(row, col, g) == x * m;
    ScaleBack(x, m);
  }

  /** The vector a swizzled column starts is the swizzled column group. */
  lemma SwizzledColumnGroup(row: nat, col: nat, g: Geometry)
    requires ValidGeometry(g)
    ensures SwizzledColumn(row, col, g) / MinVec(g)
      == SwizzleGroup(col / MinVec(g), Phase(row, g.perPhase, g.maxPhase), GroupSize(g))
  {
    var m := MinVec(g);
    var x := SwizzleGroup(col / m, Phase(row, g.perPhase, g.maxPhase), GroupSize(g));
    var c := SwizzledColumn(row, col, g);
    assert c == x * m;
    ScaleBack(x, m);
    assert c / m == x;
  }

  /** Two columns of one row get the same swizzled column only when they
      are in the same vector: the swizzle is a bijection on the vectors of
      a row. */
  lemma SwizzledColumnInjective(row: nat, a: nat, b: nat, g: Geometry)
    requires ValidGeometry(g) && SwizzledColumn(row, a, g) == SwizzledColumn(row, b, g)
    ensures a / MinVec(g) == b / MinVec(g)
  {
    var m, ph, gs := MinVec(g), Phase(row, g.perPhase, g.maxPhase), GroupSize(g);
    SwizzledColumnGroup(row, a, g);
    SwizzledColumnGroup(row, b, g);
    assert SwizzleGroup(a / m, ph, gs) == SwizzleGroup(b / m, ph, gs);
    SwizzleInjective(a / m, b / m, ph, gs);
  }

  /** The tile a vector `id` belongs to and its static offset inside the
      tile, as both visitors compute them. */
  datatype Placement = Placement(key0: nat, key1: nat, off: int)

  function Place(i: nat, g: Geometry): (p: Placement)
    requires ValidGeometry(g)
    ensures p.key0 < NShared1(g) && p.key1 < NShared0(g)
  {
    var id := i / MinVec(g);
    var rows := InLd(g) / MinVec(g);
    var id0, id1 := id % rows, id / rows;
    var off0 := id0 / NShared0(g) * NShared0(g) * g.mts0;
    var off1 := id1 / NShared1(g) * NShared1(g) * g.mts1;
    Placement(id1 % NShared1(g), id0 % NShared0(g), off1 * g.outShape0 + off0)
  }

  /** The position in `idxs` of the index a tile pointer is computed
      from: `key.first * in_ld`. */
  function KeyRow(key0: nat, g: Geometry): nat {
    key0 * InLd(g)
  }

  /** `idxs_.at(arg).at(key.first*in_ld)` is in range for element `i`;
      past the end, `.at` throws `std::out_of_range`. */
  predicate RowIndexed(idxs: seq<Ir.Index>, i: nat, g: Geometry)
    requires ValidGeometry(g)
  {
    KeyRow(Place(i, g).key0, g) < |idxs|
  }

  /** Every element's key row is in range. */
  predicate KeyIndexed(idxs: seq<Ir.Index>, g: Geometry)
    requires ValidGeometry(g)
  {
    forall i :: 0 <= i < |idxs| ==> RowIndexed(idxs, i, g)
  }

  /** Vector `k` is complete and the key row of its last element, the one
      the copy to shared memory looks up, is in range. */
  predicate VectorIndexed(idxs: seq<Ir.Index>, k: nat, g: Geometry)
    requires ValidGeometry(g)
  {
    k * MinVec(g) + MinVec(g) <= |idxs| && RowIndexed(idxs, k * MinVec(g) + MinVec(g) - 1, g)
  }

  /** Every complete vector's key row is in range. */
  predicate VectorsIndexed(idxs: seq<Ir.Index>, g: Geometry)
    requires ValidGeometry(g)
  {
    forall k :: 0 <= k < |idxs| / MinVec(g) ==> VectorIndexed(idxs, k, g)
  }

  /** A vector ends inside `n` elements exactly when it is one of the
      first `n / m`. */
  lemma VectorsFit(k: nat, m: nat, n: nat)
    requires m > 0
    ensures k * m + m <= n <==> k < n / m
  {
    var q, rem := n / m, n % m;
    assert n == q * m + rem;
    if k < q {
      MulMonotone(k + 1, q, m);
      Distribute(k, 1, m);
    } else {
      MulMonotone(q, k, m);
    }
  }

  /** The memo of tile pointers holds the right offset for every key. */
  predicate Memo(tiles: map<(nat, nat), nat>, idxs: seq<Ir.Index>, g: Geometry)
    requires ValidGeometry(g) && ValidIndices(idxs, g)
  {
    forall k :: k in tiles ==> KeyRow(k.0, g) < |idxs| && tiles[k] == TileOffset(idxs[KeyRow(k.0, g)], k.1, g)
  }

  /** An element's shared address: the tile pointer (an element offset
      from the buffer) and the static offset added to it. */
  datatype Address = Address(tile: nat, off: int)

  function ElementAddress(idxs: seq<Ir.Index>, i: nat, g: Geometry): Address
    requires ValidGeometry(g) && ValidIndices(idxs, g) && i < |idxs| && RowIndexed(idxs, i, g)
  {
    var p := Place(i, g);
    Address(TileOffset(idxs[KeyRow(p.key0, g)], p.key1, g), p.off)
  }

  /** The first loop of `visit_masked_load_async_inst`: one address per
      element, the tile pointers memoized by key in `tmp`. It fails, as
      the source's `.at` throws, exactly when some element's key row is
      past the end of the indices. */
  method AsyncAddresses(idxs: seq<Ir.Index>, g: Geometry) returns (r: Result<seq<Address>>)
    requires ValidGeometry(g) && ValidIndices(idxs, g)
    ensures r.Ok? <==> KeyIndexed(idxs, g)
    ensures r.Ok? ==> |r.value| == |idxs| && forall i :: 0 <= i < |idxs| ==> r.value[i] == ElementAddress(idxs, i, g)
  {
    var tmp: map<(nat, nat), nat> := map[];
    var shared: seq<Address> := [];
    var i := 0;
    while i < |idxs|
      invariant 0 <= i <= |idxs| && |shared| == i
      invariant forall j :: 0 <= j < i ==> RowIndexed(idxs, j, g) && shared[j] == ElementAddress(idxs, j, g)
      invariant Memo(tmp, idxs, g)
    {
      var p := Place(i, g);
      var key: (nat, nat) := (p.key0, p.key1);
      if key !in tmp {
        if KeyRow(key.0, g) >= |idxs| {
          assert !RowIndexed(idxs, i, g);
          return Err("vector::at: key row out of range");
        }
        tmp := tmp[key := TileOffset(idxs[KeyRow(key.0, g)], key.1, g)];
      }
      assert RowIndexed(idxs, i, g);
      shared := shared + [Address(tmp[key], p.off)];
      i := i + 1;
    }
    return Ok(shared);
  }

  /** A vector store of `min_vec` values to `tile + off`. */
  datatype VectorStore = VectorStore(at: Address, values: seq<Ir.Val>)

  /** Vector `k` of the copy: the values `k * min_vec` to
      `k * min_vec + min_vec - 1`, stored at the address of the last one. */
  function VectorAt(idxs: seq<Ir.Index>, vals: seq<Ir.Val>, k: nat, g: Geometry): (v: VectorStore)
    requires ValidGeometry(g) && ValidIndices(idxs, g) && |vals| == |idxs| && VectorIndexed(idxs, k, g)
    ensures v.at == ElementAddress(idxs, k * MinVec(g) + MinVec(g) - 1, g)
    ensures |v.values| == MinVec(g)
    ensures forall t :: 0 <= t < MinVec(g) ==> v.values[t] == vals[k * MinVec(g) + t]
  {
    VectorStore(ElementAddress(idxs, k * MinVec(g) + MinVec(g) - 1, g), vals[k * MinVec(g)..k * MinVec(g) + MinVec(g)])
  }

  lemma VectorAtLast(idxs: seq<Ir.Index>, vals: seq<Ir.Val>, k: nat, g: Geometry, base: nat, i: nat)
    requires ValidGeometry(g) && ValidIndices(idxs, g) && |vals| == |idxs| && VectorIndexed(idxs, k, g)
    requires base == k * MinVec(g) && i == base + MinVec(g) - 1
    ensures VectorAt(idxs, vals, k, g) == VectorStore(ElementAddress(idxs, i, g), vals[base..i + 1])
  {
  }

  /** `stores` are the first vectors of the copy, all below `bound`. */
  predicate Stored(stores: seq<VectorStore>, idxs: seq<Ir.Index>, vals: seq<Ir.Val>, g: Geometry, bound: nat)
    requires ValidGeometry(g) && ValidIndices(idxs, g) && |vals| == |idxs| && bound <= |idxs|
  {
    forall k :: 0 <= k < |stores| ==>
      k * MinVec(g) + MinVec(g) <= bound && VectorIndexed(idxs, k, g) && stores[k] == VectorAt(idxs, vals, k, g)
  }

  lemma StoredSnoc(stores: seq<VectorStore>, idxs: seq<Ir.Index>, vals: seq<Ir.Val>, g: Geometry, base: nat, v: VectorStore)
    requires ValidGeometry(g) && ValidIndices(idxs, g) && |vals| == |idxs|
    requires base == |stores| * MinVec(g) && base + MinVec(g) <= |idxs| && VectorIndexed(idxs, |stores|, g)
    requires Stored(stores, idxs, vals, g, base) && v == VectorAt(idxs, vals, |stores|, g)
    ensures Stored(stores + [v], idxs, vals, g, base + MinVec(g))
    ensures base + MinVec(g) == |stores + [v]| * MinVec(g)
  {
    var mv := MinVec(g);
    Distribute(|stores|, 1, mv);
    var next := stores + [v];
    forall k: nat | k < |next|
      ensures k * mv + mv <= base + mv && VectorIndexed(idxs, k, g) && next[k] == VectorAt(idxs, vals, k, g)
    {
      if k < |stores| {
        assert next[k] == stores[k];
        assert k * mv + mv <= base;
      } else {
        assert k == |stores| && next[k] == v;
      }
    }
  }

  lemma SliceSnoc(vals: seq<Ir.Val>, lo: nat, i: nat)
    requires lo <= i < |vals|
    ensures vals[lo..i + 1] == vals[lo..i] + [vals[i]]
  {
  }

  /** Element `i`, the last of vector `k`, decides whether that vector is
      indexed. */
  lemma LastOfVector(idxs: seq<Ir.Index>, g: Geometry, k: nat, i: nat)
    requires ValidGeometry(g) && i < |idxs| && i == k * MinVec(g) + MinVec(g) - 1
    ensures VectorIndexed(idxs, k, g) <==> RowIndexed(idxs, i, g)
  {
  }

  /** The loop of `visit_copy_to_shared_inst`: the values are gathered into
      a vector of `min_vec` and, after the last one, stored at the address
      of that last element, the tile pointers memoized in `ptrs`. It fails,
      as the source's `.at` throws, exactly when the last element of some
      complete vector has its key row past the end of the indices. */
  method CopyToSharedStores(idxs: seq<Ir.Index>, vals: seq<Ir.Val>, g: Geometry) returns (r: Result<seq<VectorStore>>)
    requires ValidGeometry(g) && ValidIndices(idxs, g) && |vals| == |idxs|
    ensures r.Ok? <==> VectorsIndexed(idxs, g)
    ensures r.Ok? ==> |r.value| == |idxs| / MinVec(g) && forall k :: 0 <= k < |r.value| ==>
      VectorIndexed(idxs, k, g) && r.value[k] == VectorAt(idxs, vals, k, g)
  {
    var mv := MinVec(g);
    var ptrs: map<(nat, nat), nat> := map[];
    var stores: seq<VectorStore> := [];
    var current: seq<Ir.Val> := [];
    ghost var base := 0;
    var i := 0;
    while i < |idxs|
      invariant base <= i <= |idxs| && i < base + mv && base == |stores| * mv
      invariant i > base ==> current == vals[base..i]
      invariant Stored(stores, idxs, vals, g, base)
      invariant Memo(ptrs, idxs, g)
    {
      DivModUnique(i, mv, |stores|, i - base);
      if i % mv == 0 {
        current := [];
        assert i == base;
      }
      assert current == vals[base..i];
      SliceSnoc(vals, base, i);
      current := current + [vals[i]];
      if i % mv == mv - 1 {
        LastOfVector(idxs, g, |stores|, i);
        var p := Place(i, g);
        var key: (nat, nat) := (p.key0, p.key1);
        if key !in ptrs {
          if KeyRow(key.0, g) >= |idxs| {
            VectorsFit(|stores|, mv, |idxs|);
            return Err("vector::at: key row out of range");
          }
          ptrs := ptrs[key := TileOffset(idxs[KeyRow(key.0, g)], key.1, g)];
        }
        assert Address(ptrs[key], p.off) == ElementAddress(idxs, i, g);
        VectorAtLast(idxs, vals, |stores|, g, base, i);
        StoredSnoc(stores, idxs, vals, g, base, VectorStore(Address(ptrs[key], p.off), current));
        stores := stores + [VectorStore(Address(ptrs[key], p.off), current)];
        base := base + mv;
      }
      i := i + 1;
    }
    DivModUnique(|idxs|, mv, |stores|, |idxs| - base);
    return Ok(stores);
  }

  /** All elements of one vector share their tile key and address, so the
      scalar addresses of the asynchronous copy and the vector store of the
      copy to shared memory agree on every element. */
  lemma VectorSharesAddress(idxs: seq<Ir.Index>, g: Geometry, k: nat, t: nat)
    requires ValidGeometry(g) && ValidIndices(idxs, g) && VectorIndexed(idxs, k, g) && t < MinVec(g)
    ensures RowIndexed(idxs, k * MinVec(g) + t, g)
    ensures ElementAddress(idxs, k * MinVec(g) + t, g) == ElementAddress(idxs, k * MinVec(g) + MinVec(g) - 1, g)
  {
    var mv := MinVec(g);
    DivModUnique(k * mv + t, mv, k, t);
    DivModUnique(k * mv + mv - 1, mv, k, mv - 1);
    assert Place(k * mv + t, g) == Place(k * mv + mv - 1, g);
  }

  /** The two visitors agree: element `t` of vector `k` is copied
      asynchronously to the address at which the copy to shared memory
      stores vector `k`, and it is lane `t` of that vector. */
  lemma CopyPathsAgree(idxs: seq<Ir.Index>, vals: seq<Ir.Val>, g: Geometry, k: nat, t: nat)
    requires ValidGeometry(g) && ValidIndices(idxs, g) && |vals| == |idxs|
    requires VectorIndexed(idxs, k, g) && t < MinVec(g)
    ensures RowIndexed(idxs, k * MinVec(g) + t, g)
    ensures VectorAt(idxs, vals, k, g).at == ElementAddress(idxs, k * MinVec(g) + t, g)
    ensures VectorAt(idxs, vals, k, g).values[t] == vals[k * MinVec(g) + t]
  {
    VectorSharesAddress(idxs, g, k, t);
  }

  /** When the asynchronous copy finds every key row, so does the copy to
      shared memory. */
  lemma AsyncIndexedCopyIndexed(idxs: seq<Ir.Index>, g: Geometry)
    requires ValidGeometry(g) && KeyIndexed(idxs, g)
    ensures VectorsIndexed(idxs, g)
  {
    var mv := MinVec(g);
    forall k: nat | k < |idxs| / mv
      ensures VectorIndexed(idxs, k, g)
    {
      VectorsFit(k, mv, |idxs|);
      assert RowIndexed(idxs, k * mv + mv - 1, g);
    }
  }

  /** The key rows need not be in range. With `in_ld == 6`, `min_vec == 4`
      and two rows of shared tiles, element 4 falls in key row 1, which
      starts at index 6 of six: the asynchronous copy fails, while the copy
      to shared memory, which looks up only the last element of its one
      complete vector, does not. */
  lemma KeyRowPastEnd(idxs: seq<Ir.Index>)
    requires |idxs| == 6
    ensures ValidGeometry(Geometry(4, 4, 1, 2, 6, 1, 1, 8, 0, 1))
    ensures !KeyIndexed(idxs, Geometry(4, 4, 1, 2, 6, 1, 1, 8, 0, 1))
    ensures VectorsIndexed(idxs, Geometry(4, 4, 1, 2, 6, 1, 1, 8, 0, 1))
  {
    var g := Geometry(4, 4, 1, 2, 6, 1, 1, 8, 0, 1);
    assert Place(4, g).key0 == 1 && KeyRow(1, g) == 6;
    assert !RowIndexed(idxs, 4, g);
    assert |idxs| / MinVec(g) == 1;
    assert Place(3, g).key0 == 0;
    assert VectorIndexed(idxs, 0, g);
  }
}
