/** The final addition, generateFinalAddVHDL (src/BitHeap.cpp:1267-1460): once the
    columns from minWeight are low enough, they are read as two (Xilinx) or three
    (Altera) rows of one adder. A heap of height at most one needs no adder: its
    bits are finalised into a chunk. */
module FinalAdd {
  import opened Wrappers
  import opened Utils
  import opened BitHeapStore
  import opened BitHeapQueries
  import opened BitHeapReduce

  /** Bit r of column w in an adder of n rows: the r-th oldest bit of the column
      when the column holds at most n bits, '0' otherwise (a taller column is
      written as zeros). */
  function RowBit(h: Heap, n: nat, r: nat, w: nat): bool
    requires Valid(h) && w < h.maxWeight
  {
    |h.cols[w]| <= n && r < |h.cols[w]| && h.cols[w][r].val
  }

  /** Row r of the adder, least significant column (minWeight) first. */
  function Row(h: Heap, n: nat, r: nat): (row: seq<bool>)
    requires Valid(h)
    ensures |row| == h.maxWeight - h.minWeight
    ensures forall j :: 0 <= j < |row| ==> row[j] == RowBit(h, n, r, h.minWeight + j)
  {
    seq(h.maxWeight - h.minWeight, j requires 0 <= j < h.maxWeight - h.minWeight => RowBit(h, n, r, h.minWeight + j))
  }

  /** The number of rows of the adder generateFinalAddVHDL builds. */
  function Rows(isXilinx: bool): nat
  {
    if isXilinx then 2 else 3
  }

  /** The columns from minWeight are short enough for n rows, and none is left below. */
  predicate FitsRows(h: Heap, n: nat)
    requires Valid(h)
  {
    (forall w :: 0 <= w < h.minWeight ==> |h.cols[w]| == 0) &&
    (forall w :: h.minWeight <= w < h.maxWeight ==> |h.cols[w]| <= n)
  }

  /** A heap that fits n rows has no column taller than n. */
  lemma FitsRowsHeight(h: Heap, n: nat)
    requires Valid(h) && FitsRows(h, n)
    ensures MaxHeight(h.cols) <= n && LowEmpty(h)
  {
  }

  /** The ones of every column, as numbers. */
  function ColumnCounts(h: Heap): (ds: seq<int>)
    requires Valid(h)
    ensures |ds| == h.maxWeight
    ensures forall w :: 0 <= w < h.maxWeight ==> ds[w] == Count(h.cols[w])
  {
    seq(h.maxWeight, w requires 0 <= w < h.maxWeight => Count(h.cols[w]))
  }

  lemma ColumnCountsValue(h: Heap)
    requires Valid(h)
    ensures ColumnsValue(h.cols) == WeightedSum(ColumnCounts(h))
  {
    var empty := seq(h.maxWeight, w requires 0 <= w < h.maxWeight => []);
    EmptyColumnsValue(empty);
    ColumnsValuePointwise(empty, h.cols, ColumnCounts(h));
  }

  /** Row r as numbers, and the three rows added digit by digit. */
  function RowDigits(h: Heap, n: nat, r: nat): (ds: seq<int>)
    requires Valid(h)
    ensures |ds| == h.maxWeight - h.minWeight
    ensures forall j :: 0 <= j < |ds| ==> ds[j] == if RowBit(h, n, r, h.minWeight + j) then 1 else 0
  {
    seq(h.maxWeight - h.minWeight, j requires 0 <= j < h.maxWeight - h.minWeight =>
          if RowBit(h, n, r, h.minWeight + j) then 1 else 0)
  }

  function DigitSum(a: seq<int>, b: seq<int>): (ds: seq<int>)
    requires |a| == |b|
    ensures |ds| == |a| && forall j :: 0 <= j < |a| ==> ds[j] == a[j] + b[j]
  {
    seq(|a|, j requires 0 <= j < |a| => a[j] + b[j])
  }

  lemma RowDigitsValue(h: Heap, n: nat, r: nat)
    requires Valid(h)
    ensures WeightedSum(RowDigits(h, n, r)) == LsbValue(Row(h, n, r))
  {
    WeightedSumOfBits(RowDigits(h, n, r), Row(h, n, r));
  }

  /** The three rows added digit by digit. */
  function RowsDigits(h: Heap, n: nat): (ds: seq<int>)
    requires Valid(h)
    ensures |ds| == h.maxWeight - h.minWeight
  {
    DigitSum(DigitSum(RowDigits(h, n, 0), RowDigits(h, n, 1)), RowDigits(h, n, 2))
  }

  lemma RowsDigitsValue(h: Heap, n: nat)
    requires Valid(h)
    ensures WeightedSum(RowsDigits(h, n)) == LsbValue(Row(h, n, 0)) + LsbValue(Row(h, n, 1)) + LsbValue(Row(h, n, 2))
  {
    var o0, o1, o2 := RowDigits(h, n, 0), RowDigits(h, n, 1), RowDigits(h, n, 2);
    WeightedSumAdd(o0, o1, DigitSum(o0, o1));
    WeightedSumAdd(DigitSum(o0, o1), o2, RowsDigits(h, n));
    RowDigitsValue(h, n, 0);
    RowDigitsValue(h, n, 1);
    RowDigitsValue(h, n, 2);
  }

  /** Column by column, the ones of the heap are the digits of the rows. */
  lemma ColumnCountsWindow(h: Heap, n: nat)
    requires Valid(h) && n <= 3 && FitsRows(h, n)
    ensures WeightedSum(ColumnCounts(h)) == Shift(WeightedSum(RowsDigits(h, n)), h.minWeight)
  {
    var lo := h.minWeight;
    var inner := RowsDigits(h, n);
    var counts := ColumnCounts(h);
    forall w | 0 <= w < h.maxWeight
      ensures counts[w] == (if lo <= w < lo + |inner| then inner[w - lo] else 0)
    {
      if lo <= w {
        ColumnRowsCount(h, n, w);
      } else {
        assert h.cols[w] == [];
      }
    }
    WeightedSumWindow(counts, lo, inner);
  }

  /** When every column fits, the rows of the adder hold exactly the value of the
      columns: nothing is lost or counted twice. */
  lemma FinalRowsValue(h: Heap, n: nat)
    requires Valid(h) && n <= 3 && FitsRows(h, n)
    ensures Shift(LsbValue(Row(h, n, 0)) + LsbValue(Row(h, n, 1)) + LsbValue(Row(h, n, 2)), h.minWeight)
            == ColumnsValue(h.cols)
  {
    ColumnCountsValue(h);
    ColumnCountsWindow(h, n);
    RowsDigitsValue(h, n);
  }

  /** A column that fits n rows counts as many ones as its row bits. */
  lemma ColumnRowsCount(h: Heap, n: nat, w: nat)
    requires Valid(h) && n <= 3 && w < h.maxWeight && |h.cols[w]| <= n
    ensures Count(h.cols[w]) == (if RowBit(h, n, 0, w) then 1 else 0) + (if RowBit(h, n, 1, w) then 1 else 0)
                                + (if RowBit(h, n, 2, w) then 1 else 0)
  {
    var col := h.cols[w];
    CountPrefix(col, |col|);
    assert col[..|col|] == col;
  }

  /** The number the generated result stands for: the adder's sum of the rows,
      placed at minWeight, and the chunks already finished to its right. */
  function AdderResult(h: Heap, n: nat): int
    requires Valid(h)
  {
    Shift(LsbValue(Row(h, n, 0)) + LsbValue(Row(h, n, 1)) + LsbValue(Row(h, n, 2)), h.minWeight) + ChunksValue(h.chunks)
  }

  /** When every column fits the adder, the result is exactly the value of the heap. */
  lemma AdderResultValue(h: Heap, n: nat)
    requires Valid(h) && n <= 3 && FitsRows(h, n)
    ensures AdderResult(h, n) == BitsValue(h)
  {
    FinalRowsValue(h, n);
  }

  /** generateFinalAddVHDL(isXilinx): with a heap of height at most one, the
      remaining bits are finalised and no adder is built (0 rows); otherwise the
      adder has Rows(isXilinx) rows and the heap is left as it is, once getLatestBit
      over minWeight..maxWeight-1 has found the bit the adder starts after (it throws
      when none has a defined time). When the columns below minWeight are empty and
      no column is taller than the adder has rows, every remaining bit lands in the
      adder. */
  method FinalAddition(h: Heap, isXilinx: bool) returns (r: Result<(Heap, nat)>)
    requires Valid(h)
    ensures MaxHeight(h.cols) == 0 ==> r == Ok((h, 0))
    ensures MaxHeight(h.cols) >= 2 ==>
              (h.maxWeight >= 1 && (r.Fatal? <==> GetLatestBit(h, h.minWeight, h.maxWeight - 1).Fatal?))
    ensures MaxHeight(h.cols) >= 2 && r.Ok? ==> r == Ok((h, Rows(isXilinx)))
    ensures r.Fatal? ==> MaxHeight(h.cols) >= 1
    ensures r.Ok? && MaxHeight(h.cols) == 1 ==> r.value.1 == 0
    ensures r.Ok? ==> Keeps(h, r.value.0) && BitsValue(r.value.0) == BitsValue(h)
    ensures r.Ok? && LowEmpty(h) && MaxHeight(h.cols) <= Rows(isXilinx) ==> FitsRows(r.value.0, r.value.1)
  {
    var mh := GetMaxHeight(h);
    KeepsRefl(h);
    if mh >= 2 {
      var lb := GetLatestBit(h, h.minWeight, h.maxWeight - 1);
      if lb.Fatal? {
        return Fatal(lb.msg);
      }
      return Ok((h, Rows(isXilinx)));
    } else if mh == 0 {
      return Ok((h, 0));
    }
    var h' :- Finalise(h);
    FinaliseTakesAll(h);
    return Ok((h', 0));
  }

  /** A heap of height one that concatenateLSBColumns accepts is taken entirely. */
  lemma FinaliseTakesAll(h: Heap)
    requires Valid(h) && MaxHeight(h.cols) == 1
    ensures var r := Finalise(h);
            r.Ok? && LowEmpty(h) ==> FitsRows(r.value, 0)
  {
    var r := ConcatenateLSBColumns(h);
    if r.Ok? {
      assert r.value.minWeight == h.maxWeight;
    }
  }
}
