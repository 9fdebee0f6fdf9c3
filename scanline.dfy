/** `visit_layout_scanline`: how a scanline layout splits a thread id into
    per-dimension thread coordinates and which coordinates each thread owns. */
module Scanline {
  import opened MixedRadix
  import opened Permutation

  /** A distributed axis: the run length, the coordinate list, and the
      thread's coordinate along the axis. */
  datatype DistributedAxis = DistributedAxis(contiguous: int, values: seq<int>, threadId: int)

  /** The thread id rebuilt from its warp and lane, as the source does
      before delinearizing. */
  function FullThreadId(tid: nat): (full: nat)
    ensures full == tid
  {
    (tid / 32) * 32 + tid % 32
  }

  /** The delinearization loop: dimension `order[k]` receives the
      remainder modulo `mts[order[k]]`, the id is divided, and the last
      dimension in the order receives whatever is left. Read in layout
      order, the thread coordinates are the mixed-radix digits of the thread
      id with the last one unreduced. */
  method Delinearize(tid: nat, mts: seq<int>, order: seq<int>) returns (threadId: seq<int>)
    requires |mts| >= 1 && IsPermutation(order, |mts|) && Positive(mts)
    ensures |threadId| == |mts|
    ensures Permute(threadId, order) == TopUnreduced(tid, Permute(mts, order))
  {
    var dim := |mts|;
    ghost var radix := Permute(mts, order);
    ghost var digits := Digits(tid, radix);
    threadId := seq(dim, _ => 0);
    var full: int := FullThreadId(tid);
    var k := 0;
    while k < dim - 1
      invariant 0 <= k <= dim - 1 && |threadId| == dim
      invariant full == Quotient(tid, radix, k)
      invariant forall j :: 0 <= j < k ==> threadId[order[j]] == digits[j]
    {
      var dimK := mts[order[k]];
      var rem := full % dimK;
      DelinearizeStep(tid, radix, k);
      full := full / dimK;
      ghost var before := threadId;
      threadId := threadId[order[k] := rem];
      assert forall j :: 0 <= j < k ==> order[j] != order[k];
      assert forall j :: 0 <= j < k ==> threadId[order[j]] == before[order[j]];
      k := k + 1;
    }
    QuotientIsDivision(tid, radix, dim - 1);
    FinishDelinearize(tid, radix, order, threadId, full);
    threadId := threadId[order[dim - 1] := full];
  }

  /** The id left after peeling the first `k` digits, as the loop computes
      it: divided by one radix at a time. */
  function Quotient(tid: nat, radix: seq<int>, k: nat): int
    requires Positive(radix) && k <= |radix|
  {
    if k == 0 then tid else Quotient(tid, radix, k - 1) / radix[k - 1]
  }

  lemma {:induction false} QuotientIsDivision(tid: nat, radix: seq<int>, k: nat)
    requires Positive(radix) && k <= |radix|
    ensures Quotient(tid, radix, k) == tid / Weight(radix, k)
  {
    if k > 0 {
      QuotientIsDivision(tid, radix, k - 1);
      DivDiv(tid, Weight(radix, k - 1), radix[k - 1]);
    }
  }

  /** One turn of the delinearization loop: the remainder is the next
      digit. */
  lemma DelinearizeStep(tid: nat, radix: seq<int>, k: nat)
    requires Positive(radix) && k < |radix|
    ensures Quotient(tid, radix, k) % radix[k] == Digits(tid, radix)[k]
  {
    QuotientIsDivision(tid, radix, k);
  }

  /** The last dimension in the order receives the unreduced rest. */
  lemma FinishDelinearize(tid: nat, radix: seq<int>, order: seq<int>, threadId: seq<int>, full: int)
    requires |radix| >= 1 && Positive(radix) && IsPermutation(order, |radix|) && |threadId| == |radix|
    requires forall j :: 0 <= j < |radix| - 1 ==> threadId[order[j]] == Digits(tid, radix)[j]
    requires full == tid / Weight(radix, |radix| - 1)
    ensures Permute(threadId[order[|radix| - 1] := full], order) == TopUnreduced(tid, radix)
  {
    var n := |radix|;
    var t := TopUnreduced(tid, radix);
    var next := threadId[order[n - 1] := full];
    forall j | 0 <= j < n
      ensures next[order[j]] == t[j]
    {
      if j < n - 1 {
        assert order[j] != order[n - 1];
      }
    }
    Placement(next, order, t);
  }

  /** Values placed at the positions an order names, read back in that order. */
  lemma Placement(s: seq<int>, order: seq<int>, t: seq<int>)
    requires IsPermutation(order, |s|) && |t| == |order|
    requires forall j :: 0 <= j < |order| ==> s[order[j]] == t[j]
    ensures Permute(s, order) == t
  {
  }

  /** The thread id is recovered from the coordinates, and when it is below
      the number of threads of the layout every coordinate is below its `mts`. */
  lemma DelinearizeInverse(tid: nat, mts: seq<int>, order: seq<int>, threadId: seq<int>)
    requires |mts| >= 1 && IsPermutation(order, |mts|) && Positive(mts) && |threadId| == |mts|
    requires Permute(threadId, order) == TopUnreduced(tid, Permute(mts, order))
    ensures Recompose(Permute(threadId, order), Permute(mts, order)) == tid
    ensures tid < Prod(mts) ==> forall d :: 0 <= d < |mts| ==> 0 <= threadId[d] < mts[d]
  {
    var radix := Permute(mts, order);
    TopUnreducedRecomposes(tid, radix);
    if tid < Prod(mts) {
      ProdPermuted(mts, order);
      forall d | 0 <= d < |mts|
        ensures 0 <= threadId[d] < mts[d]
      {
        assert d in order;
        var j :| 0 <= j < |order| && order[j] == d;
        assert Permute(threadId, order)[j] == threadId[d];
      }
    }
  }

  /** Offset of the `n`-th owned coordinate from the thread's first one:
      runs of `nts` consecutive coordinates, one run every `perCta`. */
  function RunOffset(n: nat, nts: int, perCta: int): int
    requires nts > 0
  {
    n / nts * perCta + n % nts
  }

  /** The per-axis coordinate loop: `per_thread = nts * shape / per_cta`
      coordinates, the `n`-th being the thread's scaled id plus its run
      offset (unsigned divisions, exact products). */
  method AxisCoordinates(threadId: int, nts: int, shapeK: int, perCta: int) returns (idxList: seq<int>)
    requires nts > 0 && perCta > 0 && shapeK >= 0
    ensures |idxList| == nts * shapeK / perCta
    ensures forall n :: 0 <= n < |idxList| ==> idxList[n] == threadId * nts + RunOffset(n, nts, perCta)
  {
    var scaled := threadId * nts;
    var perThread := nts * shapeK / perCta;
    idxList := [];
    var n := 0;
    while n < perThread
      invariant 0 <= n <= perThread && |idxList| == n
      invariant forall m :: 0 <= m < n ==> idxList[m] == scaled + RunOffset(m, nts, perCta)
    {
      var offset := n / nts * perCta + n % nts;
      idxList := idxList + [scaled + offset];
      n := n + 1;
    }
  }

  /** Run offsets grow strictly when a run fits in the stride. */
  lemma RunOffsetIncreasing(n: nat, m: nat, nts: int, perCta: int)
    requires nts > 0 && nts <= perCta && n < m
    ensures RunOffset(n, nts, perCta) < RunOffset(m, nts, perCta)
  {
    var qn, qm := n / nts, m / nts;
    assert qn <= qm by {
      DivMonotone(n, m, nts);
    }
    if qn < qm {
      MulMonotone(qn + 1, qm, perCta);
      assert RunOffset(n, nts, perCta) < qn * perCta + perCta;
    } else {
      assert n % nts < m % nts;
    }
  }

  lemma DivMonotone(n: nat, m: nat, d: int)
    requires d > 0 && n <= m
    ensures n / d <= m / d
  {
    if n / d > m / d {
      assert (n / d) * d >= (m / d + 1) * d by {
        MulMonotone(m / d + 1, n / d, d);
      }
    }
  }

  /** When `perCta` divides the extent, every run offset of the thread's
      `per_thread` coordinates lies below `perCta` times the number of
      runs, that is below the extent; adding the thread's scaled id keeps
      the coordinate below the extent whenever the thread's run fits before
      the next tile (`threadId * nts + nts <= perCta`). */
  lemma CoordinatesInBounds(threadId: nat, n: nat, nts: int, shapeK: int, perCta: int)
    requires nts > 0 && nts <= perCta && shapeK >= 0 && shapeK % perCta == 0
    requires n < nts * shapeK / perCta
    ensures 0 <= RunOffset(n, nts, perCta) < shapeK
    ensures threadId * nts + nts <= perCta ==> threadId * nts + RunOffset(n, nts, perCta) < shapeK
  {
    var tiles := shapeK / perCta;
    assert shapeK == tiles * perCta;
    assert nts * shapeK / perCta == nts * tiles by {
      assert nts * shapeK == (nts * tiles) * perCta;
      DivModUnique(nts * shapeK, perCta, nts * tiles, 0);
    }
    var q := n / nts;
    assert q < tiles by {
      DivLess(n, nts, tiles);
    }
    DivNonneg(n, nts);
    MulMonotone(0, q, perCta);
    MulMonotone(q + 1, tiles, perCta);
    assert q * perCta + perCta <= shapeK;
    assert RunOffset(n, nts, perCta) == q * perCta + n % nts;
    assert n % nts < nts;
  }

  /** The coordinates a thread owns along one axis, as `AxisCoordinates` computes them. */
  predicate OwnsCoordinates(a: DistributedAxis, nts: int, shapeK: int, perCta: int)
    requires nts > 0 && perCta > 0
  {
    && a.contiguous == nts
    && |a.values| == nts * shapeK / perCta
    && forall n :: 0 <= n < |a.values| ==> a.values[n] == a.threadId * nts + RunOffset(n, nts, perCta)
  }

  function ThreadIds(axes: seq<DistributedAxis>): (t: seq<int>)
    ensures |t| == |axes| && forall k :: 0 <= k < |axes| ==> t[k] == axes[k].threadId
  {
    seq(|axes|, k requires 0 <= k < |axes| => axes[k].threadId)
  }

  /** `visit_layout_scanline` for one thread: the distributed axis of every
      dimension of the layout, in dimension order. */
  method ScanlineAxes(tid: nat, shape: seq<int>, order: seq<int>, mts: seq<int>, nts: seq<int>, perCta: seq<int>)
    returns (axes: seq<DistributedAxis>)
    requires |shape| >= 1 && IsPermutation(order, |shape|)
    requires |mts| == |nts| == |perCta| == |shape|
    requires Positive(mts) && Positive(nts) && Positive(perCta)
    requires forall k :: 0 <= k < |shape| ==> shape[k] >= 0
    ensures |axes| == |shape|
    ensures Permute(ThreadIds(axes), order) == TopUnreduced(tid, Permute(mts, order))
    ensures forall k :: 0 <= k < |shape| ==> OwnsCoordinates(axes[k], nts[k], shape[k], perCta[k])
  {
    var threadId := Delinearize(tid, mts, order);
    axes := [];
    var k := 0;
    while k < |shape|
      invariant 0 <= k <= |shape| && |axes| == k
      invariant forall j :: 0 <= j < k ==> axes[j].threadId == threadId[j]
      invariant forall j :: 0 <= j < k ==> OwnsCoordinates(axes[j], nts[j], shape[j], perCta[j])
    {
      var idxList := AxisCoordinates(threadId[k], nts[k], shape[k], perCta[k]);
      axes := axes + [DistributedAxis(nts[k], idxList, threadId[k])];
      k := k + 1;
    }
    assert ThreadIds(axes) == threadId;
  }
}
