/** Queries over the bit heap and the finalisation of its low columns
    (src/BitHeap.cpp): getLatestBit, getFirstSoonestBit and concatenateLSBColumns. */
module BitHeapQueries {
  import opened Wrappers
  import opened Utils
  import opened BitHeapStore

  /** The bits of columns lo .. hi - 1 in the order the scans visit them: column by
      column from lo, each column from its oldest bit. */
  function ScanBits(cols: seq<seq<Bit>>, lo: nat, hi: nat): (s: seq<Bit>)
    requires lo <= hi <= |cols|
    decreases hi - lo
  {
    if lo == hi then [] else ScanBits(cols, lo, hi - 1) + cols[hi - 1]
  }

  /** Every bit of the scanned columns is in the scan. */
  lemma {:induction false} ScanBitsCover(cols: seq<seq<Bit>>, lo: nat, hi: nat)
    requires lo <= hi <= |cols|
    ensures forall w, k :: lo <= w < hi && 0 <= k < |cols[w]| ==> cols[w][k] in ScanBits(cols, lo, hi)
    decreases hi - lo
  {
    if lo != hi {
      ScanBitsCover(cols, lo, hi - 1);
      var s := ScanBits(cols, lo, hi - 1);
      forall w, k | lo <= w < hi && 0 <= k < |cols[w]|
        ensures cols[w][k] in ScanBits(cols, lo, hi)
      {
        if w == hi - 1 {
          assert (s + cols[w])[|s| + k] == cols[w][k];
        } else {
          assert cols[w][k] in s;
        }
      }
    }
  }

  /** Every bit of the scan comes from one of the scanned columns. */
  lemma {:induction false} ScanBitsFrom(cols: seq<seq<Bit>>, lo: nat, hi: nat)
    requires lo <= hi <= |cols|
    ensures forall b :: b in ScanBits(cols, lo, hi) ==> exists w :: lo <= w < hi && b in cols[w]
    decreases hi - lo
  {
    if lo != hi {
      ScanBitsFrom(cols, lo, hi - 1);
    }
  }

  // ---------------------------------------------------------------------------
  // getLatestBit (src/BitHeap.cpp:1229-1262)
  // ---------------------------------------------------------------------------

  /** The index getLatestBit's scan settles on: a bit replaces the running maximum,
      which starts at the stamp (0, 0), when its own stamp is no earlier, so the last
      scanned of the latest bits wins. None when no bit reaches (0, 0). */
  function LatestIndex(bits: seq<Bit>): (r: Option<nat>)
    ensures r.None? <==> forall k :: 0 <= k < |bits| ==> !StampLe(0, 0.0, bits[k].cycle, bits[k].cp)
    ensures r.Some? ==> r.value < |bits| && StampLe(0, 0.0, bits[r.value].cycle, bits[r.value].cp)
    ensures r.Some? ==> forall k :: 0 <= k < |bits| ==> NoLater(bits[k], bits[r.value])
    ensures r.Some? ==> forall k :: r.value < k < |bits| ==> !NoLater(bits[r.value], bits[k])
  {
    if |bits| == 0 then None
    else
      var n := |bits| - 1;
      var p := LatestIndex(bits[..n]);
      var x := bits[n];
      if (p.None? && StampLe(0, 0.0, x.cycle, x.cp)) || (p.Some? && NoLater(bits[p.value], x)) then Some(n)
      else p
  }

  /** getLatestBit(lo, hi): the latest bit of columns lo..hi (both included), the
      last scanned winning ties; fatal ("All columns are void!") when no bit is found,
      which includes every bit being stamped before (0, 0). */
  function GetLatestBit(h: Heap, lo: nat, hi: nat): (r: Result<Bit>)
    requires Valid(h) && hi < h.maxWeight
    ensures r.Fatal? <==> forall w, k :: lo <= w <= hi && 0 <= k < |h.cols[w]| ==>
                                  !StampLe(0, 0.0, h.cols[w][k].cycle, h.cols[w][k].cp)
    ensures r.Ok? ==> exists w :: lo <= w <= hi && r.value in h.cols[w]
    ensures r.Ok? ==> forall w, k :: lo <= w <= hi && 0 <= k < |h.cols[w]| ==> NoLater(h.cols[w][k], r.value)
  {
    if lo > hi then Fatal("All columns are void!")
    else
      var bits := ScanBits(h.cols, lo, hi + 1);
      ScanBitsCover(h.cols, lo, hi + 1);
      ScanBitsFrom(h.cols, lo, hi + 1);
      match LatestIndex(bits)
      case None => Fatal("All columns are void!")
      case Some(i) => assert bits[i] in bits; Ok(bits[i])
  }

  // ---------------------------------------------------------------------------
  // getFirstSoonestBit (src/BitHeap.cpp:1061-1092)
  // ---------------------------------------------------------------------------

  /** The sentinel the scan starts from: cycle 9999, critical path 100. */
  const SentinelCycle: int := 9999
  const SentinelCp: real := 100.0

  /** The index getFirstSoonestBit's scan settles on: a bit replaces the running
      minimum only when strictly earlier, so the first scanned of the soonest bits
      wins. None when no bit is earlier than the sentinel. */
  function SoonestIndex(bits: seq<Bit>): (r: Option<nat>)
    ensures r.None? <==> forall k :: 0 <= k < |bits| ==> StampLe(SentinelCycle, SentinelCp, bits[k].cycle, bits[k].cp)
    ensures r.Some? ==> r.value < |bits| && !StampLe(SentinelCycle, SentinelCp, bits[r.value].cycle, bits[r.value].cp)
    ensures r.Some? ==> forall k :: 0 <= k < |bits| ==> NoLater(bits[r.value], bits[k])
    ensures r.Some? ==> forall k :: 0 <= k < r.value ==> !NoLater(bits[k], bits[r.value])
  {
    if |bits| == 0 then None
    else
      var n := |bits| - 1;
      var p := SoonestIndex(bits[..n]);
      var x := bits[n];
      if (p.None? && !StampLe(SentinelCycle, SentinelCp, x.cycle, x.cp)) || (p.Some? && !NoLater(bits[p.value], x)) then Some(n)
      else p
  }

  /** getFirstSoonestBit: the soonest bit of the columns from minWeight up, the
      first scanned winning ties; None (NULL) when no bit is earlier than the
      sentinel, in particular when those columns are empty. */
  function GetFirstSoonestBit(h: Heap): (r: Option<Bit>)
    requires Valid(h)
    ensures r.None? <==> forall w, k :: h.minWeight <= w < h.maxWeight && 0 <= k < |h.cols[w]| ==>
                                  StampLe(SentinelCycle, SentinelCp, h.cols[w][k].cycle, h.cols[w][k].cp)
    ensures r.Some? ==> exists w :: h.minWeight <= w < h.maxWeight && r.value in h.cols[w]
    ensures r.Some? ==> forall w, k :: h.minWeight <= w < h.maxWeight && 0 <= k < |h.cols[w]| ==> NoLater(r.value, h.cols[w][k])
  {
    var bits := ScanBits(h.cols, h.minWeight, h.maxWeight);
    ScanBitsCover(h.cols, h.minWeight, h.maxWeight);
    ScanBitsFrom(h.cols, h.minWeight, h.maxWeight);
    match SoonestIndex(bits)
    case None => None
    case Some(i) => assert bits[i] in bits; Some(bits[i])
  }

  // ---------------------------------------------------------------------------
  // concatenateLSBColumns (src/BitHeap.cpp:2209-2272)
  // ---------------------------------------------------------------------------

  /** The first column at or after w whose height is not 1 (or maxWeight). */
  function RunEnd(cols: seq<seq<Bit>>, w: nat): (e: nat)
    requires w <= |cols|
    ensures w <= e <= |cols|
    ensures forall k :: w <= k < e ==> |cols[k]| == 1
    ensures e < |cols| ==> |cols[e]| != 1
    decreases |cols| - w
  {
    if w == |cols| || |cols[w]| != 1 then w else RunEnd(cols, w + 1)
  }

  /** The bits of the height-1 columns lo .. e - 1, least significant first. */
  function FrontBits(cols: seq<seq<Bit>>, lo: nat, e: nat): (bits: seq<Bit>)
    requires lo <= e <= |cols|
    requires forall k :: lo <= k < e ==> |cols[k]| == 1
    ensures |bits| == e - lo
    ensures forall j :: 0 <= j < e - lo ==> bits[j] == cols[lo + j][0]
  {
    seq(e - lo, j requires 0 <= j < e - lo => cols[lo + j][0])
  }

  /** The heap with the height-1 columns lo .. e - 1 emptied into one more chunk at
      weight lo, and minWeight moved to e. */
  function Concatenated(h: Heap, e: nat): (r: Heap)
    requires Valid(h) && h.minWeight <= e <= h.maxWeight
    requires forall k :: h.minWeight <= k < e ==> |h.cols[k]| == 1
  {
    var lo := h.minWeight;
    h.(cols := seq(h.maxWeight, k requires 0 <= k < h.maxWeight => if lo <= k < e then [] else h.cols[k]),
       chunks := h.chunks + [Chunk(lo, FrontBits(h.cols, lo, e))],
       minWeight := e)
  }

  /** concatenateLSBColumns: the columns of height 1 from minWeight up are already
      final; they become one chunk of the result and minWeight moves past them. A
      column of height 0 reached by the scan is fatal, and so is getLatestBit failing
      on the taken columns. */
  function ConcatenateLSBColumns(h: Heap): (r: Result<Heap>)
    requires Valid(h)
    ensures r.Fatal? <==> var e := RunEnd(h.cols, h.minWeight);
                          (e < h.maxWeight && |h.cols[e]| == 0) ||
                          (e != h.minWeight && GetLatestBit(h, h.minWeight, e - 1).Fatal?)
    ensures r.Ok? ==> Valid(r.value) && r.value.maxWeight == h.maxWeight && r.value.constantBits == h.constantBits
    ensures r.Ok? ==> h.minWeight <= r.value.minWeight
    ensures r.Ok? ==> forall k :: h.minWeight <= k < r.value.minWeight ==> |h.cols[k]| == 1
    ensures r.Ok? ==> r.value.minWeight == h.maxWeight || |h.cols[r.value.minWeight]| > 1
    ensures r.Ok? && r.value.minWeight == h.minWeight ==> r.value == h
    ensures r.Ok? && r.value.minWeight != h.minWeight ==>
              r.value.chunks == h.chunks + [Chunk(h.minWeight, FrontBits(h.cols, h.minWeight, r.value.minWeight))]
    ensures r.Ok? ==> forall k :: 0 <= k < h.maxWeight ==>
              r.value.cols[k] == (if h.minWeight <= k < r.value.minWeight then [] else h.cols[k])
  {
    var e := RunEnd(h.cols, h.minWeight);
    if e < h.maxWeight && |h.cols[e]| == 0 then Fatal("LSB columns cannot be void!")
    else if e == h.minWeight then
      assert h.cols == seq(h.maxWeight, k requires 0 <= k < h.maxWeight => h.cols[k]);
      Ok(h)
    else
      var _ :- GetLatestBit(h, h.minWeight, e - 1);
      Ok(Concatenated(h, e))
  }

  /** The chunk holds the value the emptied columns held. */
  lemma ConcatenatedValue(h: Heap, e: nat)
    requires Valid(h) && h.minWeight <= e <= h.maxWeight
    requires forall k :: h.minWeight <= k < e ==> |h.cols[k]| == 1
    ensures TotalValue(Concatenated(h, e)) == TotalValue(h)
  {
    var r := Concatenated(h, e);
    ConcatenatedColumns(h, e);
    ChunksAppend(h.chunks, Chunk(h.minWeight, FrontBits(h.cols, h.minWeight, e)));
    assert ColumnsValue(r.cols) + ChunksValue(r.chunks) == ColumnsValue(h.cols) + ChunksValue(h.chunks);
  }

  /** A chunk appended adds its value at its weight. */
  lemma ChunksAppend(chunks: seq<Chunk>, c: Chunk)
    ensures ChunksValue(chunks + [c]) == ChunksValue(chunks) + Shift(LsbValue(Vals(c.bits)), c.lsb)
  {
    assert (chunks + [c])[..|chunks|] == chunks;
  }

  /** The emptied columns lose exactly the value of the chunk's bits. */
  lemma ConcatenatedColumns(h: Heap, e: nat)
    requires Valid(h) && h.minWeight <= e <= h.maxWeight
    requires forall k :: h.minWeight <= k < e ==> |h.cols[k]| == 1
    ensures ColumnsValue(Concatenated(h, e).cols) + Shift(LsbValue(Vals(FrontBits(h.cols, h.minWeight, e))), h.minWeight)
            == ColumnsValue(h.cols)
  {
    var lo := h.minWeight;
    var bits := FrontBits(h.cols, lo, e);
    forall j | 0 <= j < e - lo
      ensures h.cols[lo + j] == [bits[j]]
    {
    }
    ColumnsShed(h.cols, Concatenated(h, e).cols, lo, e, bits);
  }

  /** Emptying the one-bit columns lo..e-1 takes away the value of their bits. */
  lemma ColumnsShed(a: seq<seq<Bit>>, b: seq<seq<Bit>>, lo: nat, e: nat, bits: seq<Bit>)
    requires |a| == |b| && lo <= e <= |a| && |bits| == e - lo
    requires forall k :: 0 <= k < |a| ==> b[k] == (if lo <= k < e then [] else a[k])
    requires forall j :: 0 <= j < e - lo ==> a[lo + j] == [bits[j]]
    ensures ColumnsValue(b) + Shift(LsbValue(Vals(bits)), lo) == ColumnsValue(a)
  {
    var ones := Ones(bits);
    var neg := Negated(ones);
    var ds := Window(neg, lo, |a|);
    forall k | 0 <= k < |a|
      ensures Count(b[k]) == Count(a[k]) + ds[k]
    {
      if lo <= k < e {
        assert a[k] == [bits[k - lo]];
        assert a[k][..0] == [];
      }
    }
    ColumnsValuePointwise(a, b, ds);
    WeightedSumWindow(ds, lo, neg);
    ConcatenatedChunk(bits, ones, neg, lo);
  }

  /** 1 for each bit that is set, 0 for the others. */
  function Ones(bits: seq<Bit>): (ds: seq<int>)
    ensures |ds| == |bits| && forall j :: 0 <= j < |bits| ==> ds[j] == (if bits[j].val then 1 else 0)
  {
    seq(|bits|, j requires 0 <= j < |bits| => if bits[j].val then 1 else 0)
  }

  function Negated(ds: seq<int>): (ns: seq<int>)
    ensures |ns| == |ds| && forall j :: 0 <= j < |ds| ==> ns[j] == -ds[j]
  {
    seq(|ds|, j requires 0 <= j < |ds| => -ds[j])
  }

  /** `inner` placed from position lo in n positions, zeros elsewhere. */
  function Window(inner: seq<int>, lo: nat, n: nat): (ds: seq<int>)
    requires lo + |inner| <= n
    ensures |ds| == n && forall k :: 0 <= k < n ==> ds[k] == (if lo <= k < lo + |inner| then inner[k - lo] else 0)
  {
    seq(n, k requires 0 <= k < n => if lo <= k < lo + |inner| then inner[k - lo] else 0)
  }

  lemma ConcatenatedChunk(bits: seq<Bit>, ones: seq<int>, neg: seq<int>, lo: nat)
    requires |ones| == |neg| == |bits|
    requires forall j :: 0 <= j < |bits| ==> ones[j] == (if bits[j].val then 1 else 0) && neg[j] == -ones[j]
    ensures Shift(WeightedSum(neg), lo) == -Shift(LsbValue(Vals(bits)), lo)
  {
    WeightedSumOfBits(ones, Vals(bits));
    WeightedSumNegate(ones, neg);
    ShiftSub(0, WeightedSum(ones), lo);
    ShiftZero(lo);
  }

  /** concatenateLSBColumns keeps the value of the heap exactly: the bits it moves
      into the chunk stay counted there. */
  lemma ConcatenateValue(h: Heap)
    requires Valid(h)
    ensures var r := ConcatenateLSBColumns(h);
            r.Ok? ==> TotalValue(r.value) == TotalValue(h)
  {
    var e := RunEnd(h.cols, h.minWeight);
    if e != h.minWeight && ConcatenateLSBColumns(h).Ok? {
      ConcatenatedValue(h, e);
    }
  }

  /** chunkDoneIndex (the number of chunks) grows by exactly one iff a column was
      taken, and the heap is Sorted afterwards if it was before. */
  lemma ConcatenateChunks(h: Heap)
    requires Valid(h)
    ensures var r := ConcatenateLSBColumns(h);
            r.Ok? ==> |r.value.chunks| == |h.chunks| + (if r.value.minWeight != h.minWeight then 1 else 0) &&
                      (Sorted(h) ==> Sorted(r.value))
  {
  }

  /** concatenateLSBColumns, with the facts compression needs. */
  function Finalise(h: Heap): (r: Result<Heap>)
    requires Valid(h)
    ensures r.Fatal? <==> ConcatenateLSBColumns(h).Fatal?
    ensures r.Ok? ==> Keeps(h, r.value) && h.minWeight <= r.value.minWeight && BitsValue(r.value) == BitsValue(h)
  {
    ConcatenateKeeps(h);
    ConcatenateLSBColumns(h)
  }

  lemma ConcatenateKeeps(h: Heap)
    requires Valid(h)
    ensures var r := ConcatenateLSBColumns(h);
            r.Ok? ==> Keeps(h, r.value) && BitsValue(r.value) == BitsValue(h)
  {
    var r := ConcatenateLSBColumns(h);
    if r.Ok? {
      ConcatenateValue(h);
      ConcatenateChunks(h);
      ConcatenatedKeeps(h, r.value);
    }
  }

  /** The facts of a successful concatenateLSBColumns give Keeps. */
  lemma ConcatenatedKeeps(h: Heap, c: Heap)
    requires Valid(h) && Valid(c) && c.maxWeight == h.maxWeight && c.constantBits == h.constantBits
    requires TotalValue(c) == TotalValue(h) && (Sorted(h) ==> Sorted(c)) && h.minWeight <= c.minWeight
    requires forall k :: 0 <= k < h.maxWeight ==> c.cols[k] == (if h.minWeight <= k < c.minWeight then [] else h.cols[k])
    ensures Keeps(h, c) && BitsValue(c) == BitsValue(h)
  {
    KeepsOfFacts(h, c);
  }

  /** What a step must show for Keeps, once the value is known to be equal. */
  lemma KeepsOfFacts(h: Heap, c: Heap)
    requires Valid(h) && Valid(c) && c.maxWeight == h.maxWeight && c.constantBits == h.constantBits
    requires BitsValue(c) == BitsValue(h) && (Sorted(h) ==> Sorted(c))
    requires h.minWeight <= c.minWeight
    requires forall k :: 0 <= k < h.maxWeight ==> c.cols[k] == (if h.minWeight <= k < c.minWeight then [] else h.cols[k])
    ensures Keeps(h, c)
  {
    CongruentPow2Refl(BitsValue(h), h.maxWeight);
  }
}
