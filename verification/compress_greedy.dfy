/** The last pass of a compression stage (src/BitHeap.cpp:2030-2099): column by
    column from minWeight, the first catalog entry is applied as long as it fits the
    ready bits, then the rest of the catalog is walked in order, each entry applied
    when its columns hold enough ready bits, until at most two ready bits remain. */
module CompressGreedy {
  import opened Utils
  import opened BitHeapStore
  import opened BitHeapReduce
  import opened Compressors
  import opened CompressCount

  /** The counts after compressor c consumed its inputs at column i. */
  function Consume(cnt: seq<nat>, i: nat, c: Compressor): (r: seq<nat>)
    requires i < |cnt| && c.col0 <= cnt[i] && (c.col1 != 0 ==> i + 1 < |cnt| && c.col1 <= cnt[i + 1])
    ensures |r| == |cnt|
    ensures forall k :: 0 <= k < |cnt| ==> r[k] + Taken(c, i, k) == cnt[k]
  {
    seq(|cnt|, k requires 0 <= k < |cnt| => if k == i then cnt[i] - c.col0
                                              else if k == i + 1 && c.col1 != 0 then cnt[k] - c.col1
                                              else cnt[k])
  }

  /** Compressor c fits the ready bits at column i. */
  predicate Fits(h: Heap, cnt: seq<nat>, i: nat, c: Compressor)
  {
    h.minWeight <= i < h.maxWeight && 1 <= c.col0 <= Rd(cnt, i) &&
    (c.col1 != 0 ==> i + 1 < h.maxWeight && c.col1 <= Rd(cnt, i + 1))
  }

  /** One elemReduce of the pass together with its count update. */
  function Apply(h: Heap, cnt: seq<nat>, i: nat, c: Compressor, kind: int, manage: Manage, delay: real)
    : (r: (Heap, seq<nat>))
    requires Valid(h) && CntFits(h, cnt) && Fits(h, cnt, i, c)
    ensures Descends(h, cnt, r.0, r.1, i)
    ensures forall k :: 0 <= k < |cnt| ==> r.1[k] + Taken(c, i, k) == cnt[k]
    ensures Total(r.1) < Total(cnt)
  {
    var c' := Consume(cnt, i, c);
    ApplyFits(h, cnt, i, c, kind, manage, delay);
    ElemReduceHeights(h, i, c, kind, manage, delay);
    ElemReduceValue(h, i, c, kind, manage, delay);
    ElemReduceSorted(h, i, c, kind, manage, delay);
    TotalDecreases(cnt, c', i);
    (ElemReduce(h, i, c, kind, manage, delay).value, c')
  }

  /** A compressor that fits the ready bits can be applied, and the counts it leaves
      still fit the heap it produces. */
  lemma ApplyFits(h: Heap, cnt: seq<nat>, i: nat, c: Compressor, kind: int, manage: Manage, delay: real)
    requires Valid(h) && CntFits(h, cnt) && Fits(h, cnt, i, c)
    ensures LatestDefined(h, i, c.col0, c.col1) && Applicable(h, i, c)
    ensures var r := ElemReduce(h, i, c, kind, manage, delay);
            r.Ok? && CntFits(r.value, Consume(cnt, i, c))
  {
    var r := ElemReduce(h, i, c, kind, manage, delay);
    ElemReduceHeights(h, i, c, kind, manage, delay);
    var c' := Consume(cnt, i, c);
    forall k | r.value.minWeight <= k < r.value.maxWeight && k < |r.value.cols|
      ensures c'[k] <= |r.value.cols[k]|
    {
      assert c'[k] + Taken(c, i, k) == cnt[k] <= |h.cols[k]|;
    }
  }

  /** The work on one column i. Afterwards fewer ready bits remain there than the
      first entry takes, only columns i and i + 1 lost ready bits, and with the full
      catalog of a target at most two ready bits remain in column i. */
  method GreedyColumn(h: Heap, cnt: seq<nat>, i: nat, cs: seq<Compressor>, lutInputs: int,
                      kind: int, manage: Manage, delay: real)
    returns (h': Heap, cnt': seq<nat>)
    requires Valid(h) && CntFits(h, cnt) && h.minWeight <= i < h.maxWeight && CatalogShape(cs)
    ensures Descends(h, cnt, h', cnt', i)
    ensures forall k :: 0 <= k < |cnt| && k != i && k != i + 1 ==> cnt'[k] == cnt[k]
    ensures cnt'[i] < cs[0].col0
    ensures FullCatalog(lutInputs, cs) ==> cnt'[i] <= 2
  {
    var h1, c1 := ExhaustFirst(h, cnt, i, cs, kind, manage, delay);
    SecondPhaseStart(cs, lutInputs, c1[i]);
    h', cnt' := WalkCatalog(h1, c1, i, cs, lutInputs, kind, manage, delay);
    DescendsTrans(h, cnt, h1, c1, h', cnt', i, i);
  }

  /** The first entry, applied as long as column i has the ready bits for it. */
  method ExhaustFirst(h: Heap, cnt: seq<nat>, i: nat, cs: seq<Compressor>, kind: int, manage: Manage, delay: real)
    returns (h': Heap, cnt': seq<nat>)
    requires Valid(h) && CntFits(h, cnt) && h.minWeight <= i < h.maxWeight && CatalogShape(cs)
    ensures Descends(h, cnt, h', cnt', i)
    ensures forall k :: 0 <= k < |cnt| && k != i ==> cnt'[k] == cnt[k]
    ensures cnt'[i] < cs[0].col0
  {
    var m := h.maxWeight;
    h', cnt' := h, cnt;
    DescendsRefl(h, cnt, i);
    while cnt'[i] >= cs[0].col0
      invariant |cnt'| == m && Descends(h, cnt, h', cnt', i)
      invariant forall k :: 0 <= k < m && k != i ==> cnt'[k] == cnt[k]
      decreases Total(cnt')
    {
      var (next, c') := Apply(h', cnt', i, cs[0], kind, manage, delay);
      DescendsTrans(h, cnt, h', cnt', next, c', i, i);
      h', cnt' := next, c';
    }
  }

  /** The walk over the other entries while column i has more than two ready bits:
      a two-column entry is applied again as long as both its columns have the bits
      for it, a single-column entry at most once. */
  method WalkCatalog(h: Heap, cnt: seq<nat>, i: nat, cs: seq<Compressor>, lutInputs: int,
                     kind: int, manage: Manage, delay: real)
    returns (h': Heap, cnt': seq<nat>)
    requires Valid(h) && CntFits(h, cnt) && h.minWeight <= i < h.maxWeight && CatalogShape(cs)
    requires cnt[i] < cs[0].col0
    requires FullCatalog(lutInputs, cs) ==> cnt[i] <= 2 || Pending(cs, 1, cnt[i])
    ensures Descends(h, cnt, h', cnt', i)
    ensures forall k :: 0 <= k < |cnt| && k != i && k != i + 1 ==> cnt'[k] == cnt[k]
    ensures FullCatalog(lutInputs, cs) ==> cnt'[i] <= 2
  {
    var m := h.maxWeight;
    h', cnt' := h, cnt;
    DescendsRefl(h, cnt, i);
    var j := 1;
    while j < |cs| && cnt'[i] > 2
      invariant 1 <= j <= |cs|
      invariant |cnt'| == m && Descends(h, cnt, h', cnt', i)
      invariant forall k :: 0 <= k < m && k != i && k != i + 1 ==> cnt'[k] == cnt[k]
      invariant FullCatalog(lutInputs, cs) ==> cnt'[i] <= 2 || Pending(cs, j, cnt'[i])
      decreases |cs| - j + cnt'[i]
    {
      var c := cs[j];
      if cnt'[i] >= c.col0 && (c.col1 == 0 || (i < m - 1 && cnt'[i + 1] >= c.col1)) {
        ghost var before := cnt'[i];
        var (next, c') := Apply(h', cnt', i, c, kind, manage, delay);
        DescendsTrans(h, cnt, h', cnt', next, c', i, i);
        h', cnt' := next, c';
        if FullCatalog(lutInputs, cs) {
          FirstFitEmpties(cs, lutInputs, j, before);
        }
        if c.col1 == 0 {
          j := j + 1;
        }
      } else {
        if FullCatalog(lutInputs, cs) && cnt'[i] > 2 {
          PendingSkip(cs, j, cnt'[i]);
        }
        j := j + 1;
      }
    }
  }

  /** The single-column compressor taking exactly n bits is still ahead at j. */
  ghost predicate Pending(cs: seq<Compressor>, j: nat, n: nat)
  {
    exists j' :: j <= j' < |cs| && cs[j'] == Compressor(n, 0)
  }

  /** After the first entry is exhausted, with the full catalog, a column with more
      than two ready bits finds its single-column compressor further on. */
  lemma SecondPhaseStart(cs: seq<Compressor>, lutInputs: int, n: nat)
    requires CatalogShape(cs) && n < cs[0].col0
    ensures FullCatalog(lutInputs, cs) ==> n <= 2 || Pending(cs, 1, n)
  {
    if FullCatalog(lutInputs, cs) && n > 2 {
      CatalogFirst(lutInputs, cs);
      var c := Compressor(n, 0);
      WorkableBound(lutInputs, c);
      assert c in cs;
      var j' :| 0 <= j' < |cs| && cs[j'] == c;
    }
  }

  /** With the full catalog, the first entry at or after j whose first column fits n
      ready bits takes all n of them. */
  lemma FirstFitEmpties(cs: seq<Compressor>, lutInputs: int, j: nat, n: nat)
    requires FullCatalog(lutInputs, cs) && n > 2 ==> Pending(cs, j, n)
    requires j < |cs| && cs[j].col0 <= n
    ensures FullCatalog(lutInputs, cs) && n > 2 ==> cs[j].col0 == n
  {
    if !(FullCatalog(lutInputs, cs) && n > 2) {
      return;
    }
    var j' :| j <= j' < |cs| && cs[j'] == Compressor(n, 0);
    if j < j' {
      assert Precedes(cs[j], cs[j']);
    }
  }

  /** An entry that does not fit is not the pending single-column one. */
  lemma PendingSkip(cs: seq<Compressor>, j: nat, n: nat)
    requires Pending(cs, j, n) && j < |cs| && (n < cs[j].col0 || cs[j].col1 != 0)
    ensures Pending(cs, j + 1, n)
  {
    var j' :| j <= j' < |cs| && cs[j'] == Compressor(n, 0);
  }

  /** The pass over columns minWeight .. maxWeight - 1: afterwards every column holds
      fewer ready bits than the first entry takes, and with the full catalog of a
      target at most two. */
  method GreedyPass(h: Heap, cnt: seq<nat>, cs: seq<Compressor>, lutInputs: int,
                    kind: int, manage: Manage, delay: real)
    returns (h': Heap, cnt': seq<nat>)
    requires Valid(h) && CntFits(h, cnt) && CatalogShape(cs)
    ensures Descends(h, cnt, h', cnt', h.minWeight)
    ensures forall k :: h.minWeight <= k < h.maxWeight ==> cnt'[k] < cs[0].col0
    ensures FullCatalog(lutInputs, cs) ==> forall k :: h.minWeight <= k < h.maxWeight ==> cnt'[k] <= 2
  {
    var m := h.maxWeight;
    h', cnt' := h, cnt;
    DescendsRefl(h, cnt, h.minWeight);
    var i := h.minWeight;
    while i < m
      invariant h.minWeight <= i <= m
      invariant |cnt'| == m && h'.minWeight == h.minWeight && Descends(h, cnt, h', cnt', h.minWeight)
      invariant forall k :: h.minWeight <= k < i ==> cnt'[k] < cs[0].col0
      invariant FullCatalog(lutInputs, cs) ==> forall k :: h.minWeight <= k < i ==> cnt'[k] <= 2
      decreases m - i
    {
      var next, c' := GreedyColumn(h', cnt', i, cs, lutInputs, kind, manage, delay);
      DescendsTrans(h, cnt, h', cnt', next, c', h.minWeight, i);
      h', cnt' := next, c';
      i := i + 1;
    }
  }
}
