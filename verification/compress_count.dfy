/** The ready-count snapshot of one compression stage (src/BitHeap.cpp:1658-1668):
    cnt[w] is the number of bits of column w whose stage is at most the current
    one. The source keeps cnt in a fixed array of 100000 zero-initialised entries;
    entries at or beyond maxWeight are never written, so the model keeps a sequence
    of maxWeight entries and reads anything beyond it as 0. */
module CompressCount {
  import opened BitHeapStore

  /** cnt[k] as the array reads it. */
  function Rd(cnt: seq<nat>, k: int): nat
  {
    if 0 <= k < |cnt| then cnt[k] else 0
  }

  /** The counts never promise more bits than a live column holds. */
  predicate CntFits(h: Heap, cnt: seq<nat>)
  {
    |cnt| == h.maxWeight && forall k :: h.minWeight <= k < h.maxWeight && k < |h.cols| ==> cnt[k] <= |h.cols[k]|
  }

  /** computeStage(...) <= stage, for the current stage: the target's timing is not
      modelled, so readiness is any predicate on bits. */
  type Ready = Bit -> bool

  /** Readiness that respects time: a bit no later than a ready bit is ready. */
  ghost predicate MonotoneReady(ready: Ready)
  {
    forall a: Bit, b: Bit :: NoLater(a, b) && ready(b) ==> ready(a)
  }

  /** The number of ready bits of a column. */
  function CountReady(col: seq<Bit>, ready: Ready): (n: nat)
    ensures n <= |col|
  {
    if |col| == 0 then 0 else CountReady(col[..|col| - 1], ready) + (if ready(col[|col| - 1]) then 1 else 0)
  }

  /** Every bit is ready exactly when the count is the height. */
  lemma {:induction false} CountReadyAll(col: seq<Bit>, ready: Ready)
    ensures CountReady(col, ready) == |col| <==> forall j :: 0 <= j < |col| ==> ready(col[j])
  {
    if |col| != 0 {
      var n := |col| - 1;
      CountReadyAll(col[..n], ready);
      assert forall j :: 0 <= j < n ==> col[..n][j] == col[j];
    }
  }

  /** In a column sorted by time, with readiness that respects time, the ready bits
      are exactly the cnt oldest ones: popping cnt bits from the front takes the
      ready bits and nothing else. */
  lemma {:induction false} ReadyPrefix(col: seq<Bit>, ready: Ready)
    requires SortedColumn(col) && MonotoneReady(ready)
    ensures forall j :: 0 <= j < |col| ==> (ready(col[j]) <==> j < CountReady(col, ready))
  {
    if |col| != 0 {
      var n := |col| - 1;
      var pre := col[..n];
      assert SortedColumn(pre);
      ReadyPrefix(pre, ready);
      assert forall j :: 0 <= j < n ==> pre[j] == col[j];
      if ready(col[n]) {
        forall j | 0 <= j < n
          ensures ready(col[j])
        {
          assert NoLater(col[j], col[n]);
        }
        CountReadyAll(pre, ready);
      }
    }
  }

  /** The snapshot taken at the start of compress(stage): columns from minWeight up
      get their ready counts, the entries below keep the values left by the previous
      stage. */
  function Snapshot(h: Heap, prev: seq<nat>, ready: Ready): (cnt: seq<nat>)
    requires Valid(h) && |prev| == h.maxWeight
    ensures |cnt| == h.maxWeight && CntFits(h, cnt)
    ensures forall k :: 0 <= k < h.minWeight ==> cnt[k] == prev[k]
    ensures forall k :: h.minWeight <= k < h.maxWeight ==> cnt[k] == CountReady(h.cols[k], ready)
  {
    seq(h.maxWeight, k requires 0 <= k < h.maxWeight =>
          if k < h.minWeight then prev[k] else CountReady(h.cols[k], ready))
  }

  /** The sum of the counts: what every compression step lowers. */
  function Total(cnt: seq<nat>): nat
  {
    if |cnt| == 0 then 0 else Total(cnt[..|cnt| - 1]) + cnt[|cnt| - 1]
  }

  lemma {:induction false} TotalDecreases(a: seq<nat>, b: seq<nat>, i: nat)
    requires |a| == |b| && i < |a| && b[i] < a[i]
    requires forall k :: 0 <= k < |a| ==> b[k] <= a[k]
    ensures Total(b) < Total(a)
  {
    var n := |a| - 1;
    if i < n {
      TotalDecreases(a[..n], b[..n], i);
    } else {
      TotalAtMost(a[..n], b[..n]);
    }
  }

  lemma {:induction false} TotalAtMost(a: seq<nat>, b: seq<nat>)
    requires |a| == |b| && forall k :: 0 <= k < |a| ==> b[k] <= a[k]
    ensures Total(b) <= Total(a)
  {
    if |a| != 0 {
      var n := |a| - 1;
      TotalAtMost(a[..n], b[..n]);
    }
  }

  /** h', cnt' come from h, cnt by compression steps that leave the counts below lo
      alone: the frame, the value modulo 2^maxWeight, sortedness and the empty low
      columns are kept, and no count grows. */
  ghost predicate Descends(h: Heap, cnt: seq<nat>, h': Heap, cnt': seq<nat>, lo: nat)
  {
    Keeps(h, h') && SameFrame(h, h') && CntFits(h', cnt') && |cnt'| == |cnt| &&
    forall k :: 0 <= k < |cnt| ==> cnt'[k] <= cnt[k] && (k < lo ==> cnt'[k] == cnt[k])
  }

  lemma DescendsRefl(h: Heap, cnt: seq<nat>, lo: nat)
    requires Valid(h) && CntFits(h, cnt)
    ensures Descends(h, cnt, h, cnt, lo)
  {
    KeepsRefl(h);
  }

  lemma DescendsTrans(h0: Heap, c0: seq<nat>, h1: Heap, c1: seq<nat>, h2: Heap, c2: seq<nat>, lo: nat, lo': nat)
    requires Descends(h0, c0, h1, c1, lo) && Descends(h1, c1, h2, c2, lo') && lo <= lo'
    ensures Descends(h0, c0, h2, c2, lo)
  {
    KeepsTrans(h0, h1, h2);
  }
}
