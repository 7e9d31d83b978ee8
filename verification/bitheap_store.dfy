/** The column store of the weighted-bit heap (src/BitHeap.cpp).

    A heap holds, per weight w < maxWeight, a list of bits kept in (cycle, critical
    path) order, plus a constant that is folded algebraically and only turned into
    bits when the compressor tree is generated. Each bit carries an abstract value
    `val`, which the source never sees; it exists so that the model can state what
    every operation does to the number the heap represents. */
module BitHeapStore {
  import opened Wrappers
  import opened Utils

  /** Bit kinds as the code numbers them (the `type` argument of addBit). */
  const PlainBit: int := 0
  const ComplementedBit: int := 1
  const ConstantBit: int := 2
  const AdderBit: int := 3
  const FullAdderBit: int := 4

  /** A weighted bit: the cycle and critical path at which it is available, its
      kind, and the value it carries. */
  datatype Bit = Bit(cycle: int, cp: real, kind: int, val: bool)

  /** (c1, p1) is no later than (c2, p2): the order of WeightedBit's `<=`. */
  predicate StampLe(c1: int, p1: real, c2: int, p2: real)
  {
    c1 < c2 || (c1 == c2 && p1 <= p2)
  }

  predicate NoLater(a: Bit, b: Bit)
  {
    StampLe(a.cycle, a.cp, b.cycle, b.cp)
  }

  predicate SortedColumn(col: seq<Bit>)
  {
    forall i, j :: 0 <= i < j < |col| ==> NoLater(col[i], col[j])
  }

  /** A finished chunk of the result (tempR_bh_k): one bit per weight, from lsb up. */
  datatype Chunk = Chunk(lsb: nat, bits: seq<Bit>)

  /** The heap: `cols[w]` is the list of bits of weight w; `constantBits` the folded
      constant; columns below `minWeight` are already final and live in `chunks`. */
  datatype Heap = Heap(maxWeight: nat, cols: seq<seq<Bit>>, constantBits: int,
                       minWeight: nat, chunks: seq<Chunk>)

  predicate Valid(h: Heap)
  {
    |h.cols| == h.maxWeight && h.minWeight <= h.maxWeight
  }

  predicate Sorted(h: Heap)
  {
    forall w :: 0 <= w < |h.cols| ==> SortedColumn(h.cols[w])
  }

  /** Every column below minWeight is empty: its bits went into a chunk. */
  predicate LowEmpty(h: Heap)
  {
    forall k :: 0 <= k < h.minWeight && k < |h.cols| ==> |h.cols[k]| == 0
  }

  /** cur is a heap h can turn into during compression: it has the same width and
      constant, stands for the same number modulo 2^maxWeight, and keeps the columns
      sorted and the columns below minWeight empty when h did. */
  ghost predicate Keeps(h: Heap, cur: Heap)
  {
    Valid(cur) && cur.maxWeight == h.maxWeight && cur.constantBits == h.constantBits &&
    CongruentPow2(BitsValue(cur), BitsValue(h), h.maxWeight) &&
    (Sorted(h) ==> Sorted(cur)) && (LowEmpty(h) ==> LowEmpty(cur))
  }

  lemma KeepsRefl(h: Heap)
    requires Valid(h)
    ensures Keeps(h, h)
  {
    CongruentPow2Refl(BitsValue(h), h.maxWeight);
  }

  lemma KeepsTrans(a: Heap, b: Heap, c: Heap)
    requires Keeps(a, b) && Keeps(b, c)
    ensures Keeps(a, c)
  {
    CongruentPow2Trans(BitsValue(c), BitsValue(b), BitsValue(a), a.maxWeight);
  }

  /** The two heaps differ at most in their columns. */
  predicate SameFrame(a: Heap, b: Heap)
  {
    a.maxWeight == b.maxWeight && a.constantBits == b.constantBits &&
    a.minWeight == b.minWeight && a.chunks == b.chunks
  }

  // ---------------------------------------------------------------------------
  // The value a heap stands for
  // ---------------------------------------------------------------------------

  /** Number of bits of value one in a column. */
  function Count(col: seq<Bit>): nat
  {
    if |col| == 0 then 0 else Count(col[..|col| - 1]) + (if col[|col| - 1].val then 1 else 0)
  }

  lemma {:induction false} CountAppend(a: seq<Bit>, b: seq<Bit>)
    ensures Count(a + b) == Count(a) + Count(b)
    decreases |b|
  {
    if |b| == 0 {
      assert a + b == a;
    } else {
      CountAppend(a, b[..|b| - 1]);
      assert (a + b)[..|a + b| - 1] == a + b[..|b| - 1];
    }
  }

  lemma {:induction false} CountBound(col: seq<Bit>)
    ensures Count(col) <= |col|
  {
    if |col| != 0 {
      CountBound(col[..|col| - 1]);
    }
  }

  /** Sum over weights w of Count(cols[w]) * 2^w. */
  function ColumnsValue(cols: seq<seq<Bit>>): int
  {
    if |cols| == 0 then 0
    else ColumnsValue(cols[..|cols| - 1]) + Shift(Count(cols[|cols| - 1]), |cols| - 1)
  }

  /** Replacing one column changes the value by the column's change times its weight. */
  lemma {:induction false} ColumnsValueUpdate(cols: seq<seq<Bit>>, w: nat, c: seq<Bit>)
    requires w < |cols|
    ensures ColumnsValue(cols[w := c]) == ColumnsValue(cols) + Shift(Count(c), w) - Shift(Count(cols[w]), w)
    decreases |cols|
  {
    var n := |cols| - 1;
    var cols' := cols[w := c];
    if w == n {
      assert cols'[..n] == cols[..n];
    } else {
      ColumnsValueUpdate(cols[..n], w, c);
      assert cols'[..n] == cols[..n][w := c];
    }
  }

  function Vals(bits: seq<Bit>): (r: seq<bool>)
    ensures |r| == |bits|
    ensures forall k :: 0 <= k < |bits| ==> r[k] == bits[k].val
  {
    if |bits| == 0 then [] else Vals(bits[..|bits| - 1]) + [bits[|bits| - 1].val]
  }

  function ChunksValue(chunks: seq<Chunk>): int
  {
    if |chunks| == 0 then 0
    else ChunksValue(chunks[..|chunks| - 1])
         + Shift(LsbValue(Vals(chunks[|chunks| - 1].bits)), chunks[|chunks| - 1].lsb)
  }

  /** Value of every bit the heap holds, in columns or in finished chunks. */
  function BitsValue(h: Heap): int
  {
    ColumnsValue(h.cols) + ChunksValue(h.chunks)
  }

  /** Value of the heap including the constant not yet materialised. */
  function TotalValue(h: Heap): int
  {
    BitsValue(h) + h.constantBits
  }

  /** The BitHeap constructor: maxWeight empty columns, no constant, no chunk. */
  function NewHeap(maxWeight: nat): (h: Heap)
    ensures Valid(h) && Sorted(h)
    ensures h.maxWeight == maxWeight && h.minWeight == 0 && |h.chunks| == 0
    ensures forall w :: 0 <= w < maxWeight ==> |h.cols[w]| == 0
    ensures TotalValue(h) == 0
  {
    var h := Heap(maxWeight, seq(maxWeight, _ => []), 0, 0, []);
    assert ColumnsValue(h.cols) == 0 by { EmptyColumnsValue(h.cols); }
    h
  }

  lemma {:induction false} EmptyColumnsValue(cols: seq<seq<Bit>>)
    requires forall w :: 0 <= w < |cols| ==> |cols[w]| == 0
    ensures ColumnsValue(cols) == 0
  {
    if |cols| != 0 {
      EmptyColumnsValue(cols[..|cols| - 1]);
      ShiftZero(|cols| - 1);
    }
  }

  // ---------------------------------------------------------------------------
  // addBit
  // ---------------------------------------------------------------------------

  /** Where addBit's insertion loop stops: before the first existing bit that the
      new bit is no later than, or at the end. */
  function InsertPos(col: seq<Bit>, b: Bit): (p: nat)
    ensures p <= |col|
    ensures forall k :: 0 <= k < p ==> !NoLater(b, col[k])
    ensures p < |col| ==> NoLater(b, col[p])
  {
    if |col| == 0 || NoLater(b, col[0]) then 0 else 1 + InsertPos(col[1..], b)
  }

  function Insert(col: seq<Bit>, b: Bit): (r: seq<Bit>)
    ensures |r| == |col| + 1
  {
    var p := InsertPos(col, b);
    col[..p] + [b] + col[p..]
  }

  /** Insertion adds exactly the new bit: as a multiset, and in the count of ones. */
  lemma InsertContents(col: seq<Bit>, b: Bit)
    ensures multiset(Insert(col, b)) == multiset(col) + multiset{b}
    ensures Count(Insert(col, b)) == Count(col) + (if b.val then 1 else 0)
  {
    var p := InsertPos(col, b);
    CountAppend(col[..p] + [b], col[p..]);
    CountAppend(col[..p], [b]);
    CountAppend(col[..p], col[p..]);
    assert col[..p] + col[p..] == col;
    assert [b][..0] == [];
  }

  /** Inserting into a sorted column keeps it sorted, and the new bit lands ahead of
      every bit with the same (cycle, critical path): ties are newest-first. */
  lemma InsertSorted(col: seq<Bit>, b: Bit)
    requires SortedColumn(col)
    ensures SortedColumn(Insert(col, b))
    ensures Insert(col, b)[InsertPos(col, b)] == b
    ensures forall k :: 0 <= k < InsertPos(col, b) ==>
              StampLe(Insert(col, b)[k].cycle, Insert(col, b)[k].cp, b.cycle, b.cp) &&
              !StampLe(b.cycle, b.cp, Insert(col, b)[k].cycle, Insert(col, b)[k].cp)
    ensures forall k :: InsertPos(col, b) < k < |col| + 1 ==> NoLater(b, Insert(col, b)[k])
  {
    var p := InsertPos(col, b);
    var r := Insert(col, b);
    InsertIndices(col, b);
    forall k | p < k < |r|
      ensures NoLater(b, r[k])
    {
      assert NoLater(b, col[p]);
      if k - 1 > p {
        assert NoLater(col[p], col[k - 1]);
      }
    }
    forall i, j | 0 <= i < j < |r|
      ensures NoLater(r[i], r[j])
    {
      if j < p {
        assert NoLater(col[i], col[j]);
      } else if i > p {
        assert NoLater(col[i - 1], col[j - 1]);
      } else if i < p && j > p {
        assert NoLater(col[i], col[j - 1]);
      }
    }
  }

  /** Where each entry of the inserted column comes from. */
  lemma InsertIndices(col: seq<Bit>, b: Bit)
    ensures var p := InsertPos(col, b);
            var r := Insert(col, b);
            r[p] == b &&
            (forall k :: 0 <= k < p ==> r[k] == col[k]) &&
            (forall k :: p < k < |r| ==> r[k] == col[k - 1])
  {
  }

  lemma InsertKeepsSorted(col: seq<Bit>, b: Bit)
    ensures SortedColumn(col) ==> SortedColumn(Insert(col, b))
  {
    if SortedColumn(col) {
      InsertSorted(col, b);
    }
  }

  /** addBit at column w >= 0; a weight at or beyond maxWeight is silently dropped. */
  function Put(h: Heap, w: nat, b: Bit): (r: Heap)
    requires Valid(h)
    ensures Valid(r) && SameFrame(h, r)
    ensures w >= h.maxWeight ==> r == h
    ensures forall k :: 0 <= k < h.maxWeight && k != w ==> r.cols[k] == h.cols[k]
    ensures w < h.maxWeight ==> r.cols[w] == Insert(h.cols[w], b)
  {
    if w >= h.maxWeight then h else h.(cols := h.cols[w := Insert(h.cols[w], b)])
  }

  /** A put bit adds its weight to the value exactly when it is one and kept. */
  lemma PutValue(h: Heap, w: nat, b: Bit)
    requires Valid(h)
    ensures BitsValue(Put(h, w, b)) == BitsValue(h) + (if w < h.maxWeight && b.val then Pow2(w) else 0)
  {
    if w < h.maxWeight {
      ColumnsValueUpdate(h.cols, w, Insert(h.cols[w], b));
      InsertContents(h.cols[w], b);
      OneMoreAtWeight(Count(h.cols[w]), w, b.val);
    }
  }

  lemma PutContents(h: Heap, w: nat, b: Bit)
    requires Valid(h)
    ensures w < h.maxWeight ==> multiset(Put(h, w, b).cols[w]) == multiset(h.cols[w]) + multiset{b}
  {
    if w < h.maxWeight {
      InsertContents(h.cols[w], b);
    }
  }

  lemma PutSorted(h: Heap, w: nat, b: Bit)
    requires Valid(h)
    ensures Sorted(h) ==> Sorted(Put(h, w, b))
  {
    if w < h.maxWeight {
      InsertKeepsSorted(h.cols[w], b);
    }
  }

  lemma OneMoreAtWeight(n: int, w: nat, v: bool)
    ensures Shift(n + (if v then 1 else 0), w) - Shift(n, w) == (if v then Pow2(w) else 0)
  {
    if v {
      ShiftAdd(n, 1, w);
      ShiftPow2(0, w);
    }
  }

  /** addBit (src/BitHeap.cpp:505-543): fatal on a negative weight. The new bit `b`
      is stamped by the caller with the operator's current cycle and critical path. */
  function AddBit(h: Heap, w: int, b: Bit): (r: Result<Heap>)
    requires Valid(h)
    ensures r.Fatal? <==> w < 0
    ensures r.Ok? ==> Valid(r.value) && SameFrame(h, r.value)
    ensures r.Ok? && w >= h.maxWeight ==> r.value == h
    ensures r.Ok? && w < h.maxWeight ==>
              (forall k :: 0 <= k < h.maxWeight && k != w ==> r.value.cols[k] == h.cols[k]) &&
              |r.value.cols[w]| == |h.cols[w]| + 1 &&
              multiset(r.value.cols[w]) == multiset(h.cols[w]) + multiset{b}
    ensures r.Ok? && Sorted(h) ==> Sorted(r.value)
    ensures r.Ok? ==> BitsValue(r.value) == BitsValue(h) + (if w < h.maxWeight && b.val then Pow2(w) else 0)
  {
    if w < 0 then Fatal("Negative weight in addBit")
    else
      PutValue(h, w, b);
      PutSorted(h, w, b);
      PutContents(h, w, b);
      Ok(Put(h, w, b))
  }

  // ---------------------------------------------------------------------------
  // Vectors of bits added at consecutive weights
  // ---------------------------------------------------------------------------

  /** Add one bit per entry of `vals`, entry i at weight w + i, all with the same
      stamp and kind; with `onlyOnes`, entries that are false add no bit (how the
      constant is materialised). The source adds the bits one addBit at a time;
      they land in distinct columns, so each column receives at most one of them
      and the columns can be updated independently. */
  function AddRun(h: Heap, w: nat, vals: seq<bool>, cycle: int, cp: real, kind: int, onlyOnes: bool): (r: Heap)
    requires Valid(h)
    ensures Valid(r) && SameFrame(h, r)
  {
    h.(cols := seq(|h.cols|, k requires 0 <= k < |h.cols| => RunColumn(h.cols[k], w, vals, cycle, cp, kind, onlyOnes, k)))
  }

  /** The number of bits a run adds to column k: one if the run covers k (with
      `onlyOnes`, only where its entry is true). */
  function RunHeight(w: nat, vals: seq<bool>, onlyOnes: bool, k: nat): nat
  {
    if w <= k < w + |vals| && (!onlyOnes || vals[k - w]) then 1 else 0
  }

  /** Column k after the run. */
  function RunColumn(col: seq<Bit>, w: nat, vals: seq<bool>, cycle: int, cp: real, kind: int, onlyOnes: bool, k: nat): seq<Bit>
  {
    if RunHeight(w, vals, onlyOnes, k) == 1 then Insert(col, Bit(cycle, cp, kind, vals[k - w])) else col
  }

  /** The number of ones a run adds to column k. */
  function RunOne(w: nat, vals: seq<bool>, k: nat): int
  {
    if w <= k < w + |vals| && vals[k - w] then 1 else 0
  }

  function RunDeltas(w: nat, vals: seq<bool>, maxWeight: nat): (ds: seq<int>)
    ensures |ds| == maxWeight
  {
    seq(maxWeight, k requires 0 <= k < maxWeight => RunOne(w, vals, k))
  }

  lemma RunColumnCount(col: seq<Bit>, w: nat, vals: seq<bool>, cycle: int, cp: real, kind: int, onlyOnes: bool, k: nat)
    ensures Count(RunColumn(col, w, vals, cycle, cp, kind, onlyOnes, k)) == Count(col) + RunOne(w, vals, k)
    ensures |RunColumn(col, w, vals, cycle, cp, kind, onlyOnes, k)| == |col| + RunHeight(w, vals, onlyOnes, k)
    ensures SortedColumn(col) ==> SortedColumn(RunColumn(col, w, vals, cycle, cp, kind, onlyOnes, k))
  {
    if RunHeight(w, vals, onlyOnes, k) == 1 {
      InsertContents(col, Bit(cycle, cp, kind, vals[k - w]));
      InsertKeepsSorted(col, Bit(cycle, cp, kind, vals[k - w]));
    }
  }

  /** A run adds the value of the entries that fall below maxWeight, shifted to w. */
  lemma AddRunValue(h: Heap, w: nat, vals: seq<bool>, cycle: int, cp: real, kind: int, onlyOnes: bool)
    requires Valid(h)
    ensures BitsValue(AddRun(h, w, vals, cycle, cp, kind, onlyOnes))
            == BitsValue(h) + Shift(LsbValue(vals[..Kept(w, |vals|, h.maxWeight)]), w)
  {
    var r := AddRun(h, w, vals, cycle, cp, kind, onlyOnes);
    var ds := RunDeltas(w, vals, h.maxWeight);
    forall k | 0 <= k < |h.cols|
      ensures Count(r.cols[k]) == Count(h.cols[k]) + ds[k]
    {
      RunColumnCount(h.cols[k], w, vals, cycle, cp, kind, onlyOnes, k);
    }
    ColumnsValuePointwise(h.cols, r.cols, ds);
    RunSum(w, vals, h.maxWeight);
  }

  lemma AddRunSorted(h: Heap, w: nat, vals: seq<bool>, cycle: int, cp: real, kind: int, onlyOnes: bool)
    requires Valid(h)
    ensures Sorted(h) ==> Sorted(AddRun(h, w, vals, cycle, cp, kind, onlyOnes))
  {
    var r := AddRun(h, w, vals, cycle, cp, kind, onlyOnes);
    if Sorted(h) {
      forall k | 0 <= k < |r.cols|
        ensures SortedColumn(r.cols[k])
      {
        RunColumnCount(h.cols[k], w, vals, cycle, cp, kind, onlyOnes, k);
      }
    }
  }

  /** A run adds RunHeight bits to each column below maxWeight. */
  lemma AddRunHeights(h: Heap, w: nat, vals: seq<bool>, cycle: int, cp: real, kind: int, onlyOnes: bool)
    requires Valid(h)
    ensures forall k :: 0 <= k < h.maxWeight ==>
              |AddRun(h, w, vals, cycle, cp, kind, onlyOnes).cols[k]| == |h.cols[k]| + RunHeight(w, vals, onlyOnes, k)
  {
    forall k | 0 <= k < h.maxWeight
      ensures |AddRun(h, w, vals, cycle, cp, kind, onlyOnes).cols[k]| == |h.cols[k]| + RunHeight(w, vals, onlyOnes, k)
    {
      RunColumnCount(h.cols[k], w, vals, cycle, cp, kind, onlyOnes, k);
    }
  }

  lemma AddRunEmpty(h: Heap, w: nat, cycle: int, cp: real, kind: int, onlyOnes: bool)
    requires Valid(h)
    ensures AddRun(h, w, [], cycle, cp, kind, onlyOnes) == h
  {
    assert AddRun(h, w, [], cycle, cp, kind, onlyOnes).cols == h.cols;
  }

  /** The run is the source's loop: adding entries 0..n-1 and then entry n with
      one more addBit gives the same heap. */
  lemma AddRunLast(h: Heap, w: nat, vals: seq<bool>, cycle: int, cp: real, kind: int, onlyOnes: bool)
    requires Valid(h) && |vals| > 0
    ensures var n := |vals| - 1;
            var h' := AddRun(h, w, vals[..n], cycle, cp, kind, onlyOnes);
            AddRun(h, w, vals, cycle, cp, kind, onlyOnes)
            == if !onlyOnes || vals[n] then Put(h', w + n, Bit(cycle, cp, kind, vals[n])) else h'
  {
    var n := |vals| - 1;
    var h' := AddRun(h, w, vals[..n], cycle, cp, kind, onlyOnes);
    var r := AddRun(h, w, vals, cycle, cp, kind, onlyOnes);
    var e := if !onlyOnes || vals[n] then Put(h', w + n, Bit(cycle, cp, kind, vals[n])) else h';
    forall k | 0 <= k < |h.cols|
      ensures r.cols[k] == e.cols[k]
    {
      if w <= k < w + n {
        assert vals[..n][k - w] == vals[k - w];
      }
    }
    assert r.cols == e.cols;
  }

  /** Columns whose counts change by ds change the value by the weighted sum of ds. */
  lemma {:induction false} ColumnsValuePointwise(a: seq<seq<Bit>>, b: seq<seq<Bit>>, ds: seq<int>)
    requires |a| == |b| == |ds|
    requires forall k :: 0 <= k < |a| ==> Count(b[k]) == Count(a[k]) + ds[k]
    ensures ColumnsValue(b) == ColumnsValue(a) + WeightedSum(ds)
  {
    if |a| != 0 {
      var n := |a| - 1;
      ColumnsValuePointwise(a[..n], b[..n], ds[..n]);
      ShiftAdd(Count(a[n]), ds[n], n);
    }
  }

  /** The ones a run adds, weighted, are the value of its kept entries at weight w. */
  lemma {:induction false} RunSum(w: nat, vals: seq<bool>, maxWeight: nat)
    ensures WeightedSum(RunDeltas(w, vals, maxWeight)) == Shift(LsbValue(vals[..Kept(w, |vals|, maxWeight)]), w)
  {
    if maxWeight == 0 {
      ShiftZero(w);
    } else {
      var m := maxWeight - 1;
      RunSum(w, vals, m);
      assert RunDeltas(w, vals, maxWeight)[..m] == RunDeltas(w, vals, m);
      RunSumStep(w, vals, m);
    }
  }

  lemma RunSumStep(w: nat, vals: seq<bool>, m: nat)
    ensures Shift(LsbValue(vals[..Kept(w, |vals|, m + 1)]), w)
            == Shift(LsbValue(vals[..Kept(w, |vals|, m)]), w) + Shift(RunOne(w, vals, m), m)
  {
    var k := Kept(w, |vals|, m);
    if w <= m < w + |vals| {
      assert Kept(w, |vals|, m + 1) == k + 1 && k == m - w;
      assert vals[..k + 1] == vals[..k] + [vals[k]];
      LsbValueSnoc(vals[..k], vals[k]);
      var t := if vals[k] then Pow2(k) else 0;
      ShiftAdd(LsbValue(vals[..k]), t, w);
      if vals[k] {
        ShiftPow2(k, w);
        ShiftPow2(0, m);
      } else {
        ShiftZero(w);
        ShiftZero(m);
      }
    } else {
      assert Kept(w, |vals|, m + 1) == k;
      ShiftZero(m);
    }
  }

  /** How many entries of a run of `len` bits at weight w fit below maxWeight. */
  function Kept(w: nat, len: nat, maxWeight: nat): (k: nat)
    ensures k <= len
    ensures k == len || w + k >= maxWeight
    ensures w + k <= maxWeight || k == 0
  {
    if w >= maxWeight then 0 else if len <= maxWeight - w then len else maxWeight - w
  }

  /** The part of a run that falls at or beyond maxWeight, counted in units of
      2^maxWeight. */
  function Excess(vals: seq<bool>, w: nat, maxWeight: nat): int
  {
    var k := Kept(w, |vals|, maxWeight);
    if k == |vals| then 0 else Shift(LsbValue(vals[k..]), w + k - maxWeight)
  }

  /** Dropping the bits at or beyond maxWeight changes a run's value by a multiple
      of 2^maxWeight. */
  lemma KeptExcess(vals: seq<bool>, w: nat, maxWeight: nat)
    ensures Shift(LsbValue(vals), w)
            == Shift(LsbValue(vals[..Kept(w, |vals|, maxWeight)]), w) + Shift(Excess(vals, w, maxWeight), maxWeight)
  {
    var k := Kept(w, |vals|, maxWeight);
    LsbValueSplit(vals, k);
    var lo := LsbValue(vals[..k]);
    var hi := LsbValue(vals[k..]);
    if k == |vals| {
      assert vals[..k] == vals;
      assert vals[k..] == [];
      ShiftZero(w);
      ShiftAdd(lo, 0, w);
      ShiftZero(maxWeight);
    } else {
      assert w + k >= maxWeight;
      ShiftAdd(lo, Shift(hi, k), w);
      ShiftShift(hi, k, w);
      ShiftShift(hi, w + k - maxWeight, maxWeight);
    }
  }

  lemma KeptCongruent(vals: seq<bool>, w: nat, maxWeight: nat)
    ensures CongruentPow2(Shift(LsbValue(vals), w), Shift(LsbValue(vals[..Kept(w, |vals|, maxWeight)]), w), maxWeight)
  {
    KeptExcess(vals, w, maxWeight);
    assert Shift(LsbValue(vals), w) - (Shift(LsbValue(vals[..Kept(w, |vals|, maxWeight)]), w)) == Shift(Excess(vals, w, maxWeight), maxWeight);
  }

  // ---------------------------------------------------------------------------
  // removeBit, removeCompressedBits, heights
  // ---------------------------------------------------------------------------

  /** removeBit (src/BitHeap.cpp:559-574): dir 0 drops the oldest bit, dir 1 the
      newest, any other dir nothing. Popping an empty list is undefined behaviour in
      the source, hence the requirement. */
  function RemoveBit(h: Heap, weight: nat, dir: int): (r: Heap)
    requires Valid(h) && weight < h.maxWeight
    requires (dir == 0 || dir == 1) ==> |h.cols[weight]| > 0
    ensures Valid(r) && SameFrame(h, r)
    ensures forall k :: 0 <= k < h.maxWeight && k != weight ==> r.cols[k] == h.cols[k]
    ensures dir == 0 ==> h.cols[weight] == [h.cols[weight][0]] + r.cols[weight]
    ensures dir == 1 ==> h.cols[weight] == r.cols[weight] + [h.cols[weight][|h.cols[weight]| - 1]]
    ensures dir != 0 && dir != 1 ==> r == h
  {
    var col := h.cols[weight];
    if dir == 0 then h.(cols := h.cols[weight := col[1..]])
    else if dir == 1 then h.(cols := h.cols[weight := col[..|col| - 1]])
    else h
  }

  /** removeCompressedBits (src/BitHeap.cpp:671-687): drop the `red` oldest bits of
      column c; the value falls by exactly the value of the dropped bits. */
  function RemoveCompressedBits(h: Heap, c: nat, red: int): (r: Heap)
    requires Valid(h)
    requires red > 0 ==> c < h.maxWeight && red <= |h.cols[c]|
    ensures Valid(r) && SameFrame(h, r)
    ensures red <= 0 ==> r == h
    ensures red > 0 ==> h.cols[c] == h.cols[c][..red] + r.cols[c]
    ensures forall k :: 0 <= k < h.maxWeight && k != c ==> r.cols[k] == h.cols[k]
    ensures Sorted(h) ==> Sorted(r)
    ensures red > 0 ==> BitsValue(r) == BitsValue(h) - Shift(Count(h.cols[c][..red]), c)
  {
    if red <= 0 then h
    else
      var col := h.cols[c];
      assert col == col[..red] + col[red..];
      CountAppend(col[..red], col[red..]);
      ColumnsValueUpdate(h.cols, c, col[red..]);
      ShiftAdd(Count(col[..red]), Count(col[red..]), c);
      h.(cols := h.cols[c := col[red..]])
  }

  /** The source removes the bits one removeBit(c, 0) at a time: dropping `red` bits
      at once is the same as dropping one and then red - 1. */
  lemma RemoveCompressedBitsStep(h: Heap, c: nat, red: int)
    requires Valid(h) && red > 0 && c < h.maxWeight && red <= |h.cols[c]|
    ensures RemoveCompressedBits(h, c, red) == RemoveCompressedBits(RemoveBit(h, c, 0), c, red - 1)
  {
    var h1 := RemoveBit(h, c, 0);
    if red > 1 {
      assert h1.cols[c][red - 1..] == h.cols[c][red..];
      assert h1.cols[c := h1.cols[c][red - 1..]] == h.cols[c := h.cols[c][red..]];
    }
  }

  function CurrentHeight(h: Heap, w: nat): nat
    requires Valid(h) && w < h.maxWeight
  {
    |h.cols[w]|
  }

  /** The height of the tallest column. */
  function MaxHeight(cols: seq<seq<Bit>>): (m: nat)
    ensures forall w :: 0 <= w < |cols| ==> |cols[w]| <= m
    ensures m == 0 || exists w :: 0 <= w < |cols| && |cols[w]| == m
  {
    if |cols| == 0 then 0
    else
      var m' := MaxHeight(cols[..|cols| - 1]);
      assert forall w :: 0 <= w < |cols| - 1 ==> cols[..|cols| - 1][w] == cols[w];
      if |cols[|cols| - 1]| > m' then |cols[|cols| - 1]| else m'
  }

  /** getMaxHeight (src/BitHeap.cpp:690-701): a scan over all columns. */
  method GetMaxHeight(h: Heap) returns (m: nat)
    requires Valid(h)
    ensures forall w :: 0 <= w < h.maxWeight ==> |h.cols[w]| <= m
    ensures m == 0 || exists w :: 0 <= w < h.maxWeight && |h.cols[w]| == m
    ensures m == MaxHeight(h.cols)
  {
    m := 0;
    var i := 0;
    while i < h.maxWeight
      invariant 0 <= i <= h.maxWeight
      invariant forall w :: 0 <= w < i ==> |h.cols[w]| <= m
      invariant m == 0 || exists w :: 0 <= w < i && |h.cols[w]| == m
    {
      if |h.cols[i]| > m {
        m := |h.cols[i]|;
      }
      i := i + 1;
    }
    MaxHeightUnique(h.cols, m);
  }

  lemma MaxHeightUnique(cols: seq<seq<Bit>>, m: nat)
    requires forall w :: 0 <= w < |cols| ==> |cols[w]| <= m
    requires m == 0 || exists w :: 0 <= w < |cols| && |cols[w]| == m
    ensures m == MaxHeight(cols)
  {
    var M := MaxHeight(cols);
    if m != 0 {
      var w :| 0 <= w < |cols| && |cols[w]| == m;
      assert m <= M;
    }
    if M != 0 {
      var w :| 0 <= w < |cols| && |cols[w]| == M;
      assert M <= m;
    }
  }

  // ---------------------------------------------------------------------------
  // The constant
  // ---------------------------------------------------------------------------

  /** The two heaps differ at most in the folded constant. */
  predicate OnlyConstantDiffers(a: Heap, b: Heap)
  {
    a.maxWeight == b.maxWeight && a.cols == b.cols && a.minWeight == b.minWeight && a.chunks == b.chunks
  }

  /** addConstantOneBit (src/BitHeap.cpp:162-167). */
  function AddConstantOneBit(h: Heap, weight: int): (r: Result<Heap>)
    ensures r.Fatal? <==> weight < 0
    ensures r.Ok? ==> OnlyConstantDiffers(h, r.value) && TotalValue(r.value) == TotalValue(h) + Pow2(weight)
  {
    if weight < 0 then Fatal("Negative weight in addConstantOneBit")
    else Ok(h.(constantBits := h.constantBits + Pow2(weight)))
  }

  /** subConstantOneBit (src/BitHeap.cpp:171-176). */
  function SubConstantOneBit(h: Heap, weight: int): (r: Result<Heap>)
    ensures r.Fatal? <==> weight < 0
    ensures r.Ok? ==> OnlyConstantDiffers(h, r.value) && TotalValue(r.value) == TotalValue(h) - Pow2(weight)
  {
    if weight < 0 then Fatal("Negative weight in subConstantOneBit")
    else Ok(h.(constantBits := h.constantBits - Pow2(weight)))
  }

  /** addConstant (src/BitHeap.cpp:181-186): c may be negative. */
  function AddConstant(h: Heap, weight: int, c: int): (r: Result<Heap>)
    ensures r.Fatal? <==> weight < 0
    ensures r.Ok? ==> OnlyConstantDiffers(h, r.value) && TotalValue(r.value) == TotalValue(h) + Shift(c, weight)
  {
    if weight < 0 then Fatal("Negative weight in addConstant")
    else Ok(h.(constantBits := h.constantBits + Shift(c, weight)))
  }

  /** Adding then removing a constant one at the same weight gives the heap back. */
  lemma ConstantOneRoundTrip(h: Heap, weight: int)
    requires weight >= 0
    ensures AddConstantOneBit(h, weight).Ok?
    ensures SubConstantOneBit(AddConstantOneBit(h, weight).value, weight) == Ok(h)
  {
  }

  /** Adding c and then -c at the same weight gives the heap back. */
  lemma {:induction false} AddConstantCancels(h: Heap, weight: int, c: int)
    requires weight >= 0
    ensures AddConstant(h, weight, c).Ok?
    ensures AddConstant(AddConstant(h, weight, c).value, weight, -c) == Ok(h)
  {
    ShiftAdd(c, -c, weight);
    ShiftZero(weight);
  }

  /** The constant ones the sign-extension loops add, 2^lo + ... + 2^(hi-1). */
  function OnesBetween(lo: nat, hi: nat): (s: int)
    ensures lo <= hi ==> s == Pow2(hi) - Pow2(lo)
    ensures lo >= hi ==> s == 0
    decreases hi - lo
  {
    if lo >= hi then 0 else Pow2(lo) + OnesBetween(lo + 1, hi)
  }

  // ---------------------------------------------------------------------------
  // Bit-vector helpers (src/BitHeap.cpp:190-262)
  // ---------------------------------------------------------------------------

  function Complement(xs: seq<bool>): (r: seq<bool>)
    ensures |r| == |xs|
    ensures forall i :: 0 <= i < |xs| ==> r[i] == !xs[i]
  {
    seq(|xs|, i requires 0 <= i < |xs| => !xs[i])
  }

  lemma {:induction false} ComplementValue(xs: seq<bool>)
    ensures LsbValue(Complement(xs)) + LsbValue(xs) == Pow2(|xs|) - 1
  {
    if |xs| != 0 {
      var n := |xs| - 1;
      ComplementValue(xs[..n]);
      assert Complement(xs)[..n] == Complement(xs[..n]);
    }
  }

  /** The two's-complement value of a vector whose last entry is the sign. */
  function SignedValue(xs: seq<bool>): int
    requires |xs| >= 1
  {
    LsbValue(xs) - (if xs[|xs| - 1] then Pow2(|xs|) else 0)
  }

  /** addUnsignedBitVector (src/BitHeap.cpp:190-203): bit i of x at weight+i, all
      stamped with x's cycle and critical path. */
  function AddUnsignedBitVector(h: Heap, weight: int, xs: seq<bool>, cycle: int, cp: real): (r: Result<Heap>)
    requires Valid(h)
    ensures r.Fatal? <==> weight < 0
    ensures r.Ok? ==> Valid(r.value) && h.constantBits == r.value.constantBits
    ensures r.Ok? ==> CongruentPow2(TotalValue(r.value), TotalValue(h) + Shift(LsbValue(xs), weight), h.maxWeight)
  {
    if weight < 0 then Fatal("Negative weight in addUnsignedBitVector")
    else
      var r := AddRun(h, weight, xs, cycle, cp, PlainBit, false);
      AddRunValue(h, weight, xs, cycle, cp, PlainBit, false);
      AddUnsignedValue(h, r, weight, xs);
      Ok(r)
  }

  lemma AddUnsignedValue(h: Heap, r: Heap, weight: nat, xs: seq<bool>)
    requires BitsValue(r) == BitsValue(h) + Shift(LsbValue(xs[..Kept(weight, |xs|, h.maxWeight)]), weight)
    requires r.constantBits == h.constantBits
    ensures CongruentPow2(TotalValue(r), TotalValue(h) + Shift(LsbValue(xs), weight), h.maxWeight)
  {
    KeptExcess(xs, weight, h.maxWeight);
    var E := Excess(xs, weight, h.maxWeight);
    ShiftSub(0, E, h.maxWeight);
    ShiftZero(h.maxWeight);
    assert TotalValue(r) - (TotalValue(h) + Shift(LsbValue(xs), weight)) == Shift(-E, h.maxWeight);
  }

  /** subtractUnsignedBitVector (src/BitHeap.cpp:205-226): the complemented bits,
      a constant one at `weight`, and ones from weight+size up to maxWeight. */
  function SubtractUnsignedBitVector(h: Heap, weight: int, xs: seq<bool>, cycle: int, cp: real): (r: Result<Heap>)
    requires Valid(h)
    ensures r.Fatal? <==> weight < 0
    ensures r.Ok? ==> Valid(r.value)
    ensures r.Ok? ==> CongruentPow2(TotalValue(r.value), TotalValue(h) - Shift(LsbValue(xs), weight), h.maxWeight)
  {
    if weight < 0 then Fatal("Negative weight in subtractUnsignedBitVector")
    else
      var M := h.maxWeight;
      var s := |xs|;
      var h1 := AddRun(h, weight, Complement(xs), cycle, cp, ComplementedBit, false);
      AddRunValue(h, weight, Complement(xs), cycle, cp, ComplementedBit, false);
      var ones := Pow2(weight) + (if s + weight < M then OnesBetween(s + weight, M) else 0);
      var r := h1.(constantBits := h1.constantBits + ones);
      assert Complement(xs)[..Kept(weight, s, M)] == Complement(xs[..Kept(weight, s, M)]);
      SubtractUnsignedValue(TotalValue(h), TotalValue(r), M, weight, xs);
      Ok(r)
  }

  /** The heap's value goes from `before` to `after` when the kept complemented
      bits, the one at weight and the sign-extension ones are added. */
  lemma SubtractUnsignedValue(before: int, after: int, M: nat, weight: nat, xs: seq<bool>)
    requires after == before + Shift(LsbValue(Complement(xs[..Kept(weight, |xs|, M)])), weight) + Pow2(weight)
                      + (if |xs| + weight < M then OnesBetween(|xs| + weight, M) else 0)
    ensures CongruentPow2(after, before - Shift(LsbValue(xs), weight), M)
  {
    var q := SubtractUnsignedDiff(before, after, M, weight, xs);
    assert after - (before - Shift(LsbValue(xs), weight)) == Shift(q, M);
  }

  lemma SubtractUnsignedDiff(before: int, after: int, M: nat, weight: nat, xs: seq<bool>) returns (q: int)
    requires after == before + Shift(LsbValue(Complement(xs[..Kept(weight, |xs|, M)])), weight) + Pow2(weight)
                      + (if |xs| + weight < M then OnesBetween(|xs| + weight, M) else 0)
    ensures after - (before - Shift(LsbValue(xs), weight)) == Shift(q, M)
  {
    var s := |xs|;
    var cx := Complement(xs);
    var x := LsbValue(xs);
    assert cx[..Kept(weight, s, M)] == Complement(xs[..Kept(weight, s, M)]);
    KeptExcess(cx, weight, M);
    var E := Excess(cx, weight, M);
    ComplementValue(xs);
    ShiftedComplement(x, s, weight);
    // kept == 2^(s+weight) - 2^weight - x*2^weight - E*2^M
    var q0 := SignExtension(s + weight, M);
    ShiftSub(q0, E, M);
    q := q0 - E;
  }

  /** The complement of an s-bit x, placed at weight w. */
  lemma ShiftedComplement(x: int, s: nat, w: nat)
    ensures Shift(Pow2(s) - 1 - x, w) == Pow2(s + w) - Pow2(w) - Shift(x, w)
  {
    ShiftSub(Pow2(s) - 1, x, w);
    ShiftSub(Pow2(s), 1, w);
    ShiftPow2(s, w);
    ShiftPow2(0, w);
  }

  /** The ones a sign extension adds from weight lo up to maxWeight, plus 2^lo,
      are a multiple of 2^maxWeight. */
  lemma SignExtension(lo: nat, maxWeight: nat) returns (q: int)
    ensures (if lo < maxWeight then OnesBetween(lo, maxWeight) else 0) + Pow2(lo) == Shift(q, maxWeight)
  {
    if lo < maxWeight {
      ShiftPow2(0, maxWeight);
      q := 1;
    } else {
      ShiftPow2(lo - maxWeight, maxWeight);
      q := Pow2(lo - maxWeight);
    }
  }

  /** addSignedBitVector (src/BitHeap.cpp:229-252): the sign bit complemented, and
      ones from weight+size-1 up to maxWeight. The vector must have a sign bit, so it
      is at least one bit wide; the source's size-0 call, which adds no bit of x and
      only ones from weight-1 (none when weight is 0), is not modelled. */
  function AddSignedBitVector(h: Heap, weight: int, xs: seq<bool>, cycle: int, cp: real): (r: Result<Heap>)
    requires Valid(h) && |xs| >= 1
    ensures r.Fatal? <==> weight < 0
    ensures r.Ok? ==> Valid(r.value)
    ensures r.Ok? ==> CongruentPow2(TotalValue(r.value), TotalValue(h) + Shift(SignedValue(xs), weight), h.maxWeight)
  {
    if weight < 0 then Fatal("Negative weight in addSignedBitVector")
    else
      var M := h.maxWeight;
      var s := |xs|;
      var vals := xs[s - 1 := !xs[s - 1]];
      var h1 := AddRun(h, weight, vals, cycle, cp, PlainBit, false);
      AddRunValue(h, weight, vals, cycle, cp, PlainBit, false);
      var ones := if s + weight - 1 < M then OnesBetween(s + weight - 1, M) else 0;
      var r := h1.(constantBits := h1.constantBits + ones);
      AddSignedValue(TotalValue(h), TotalValue(r), M, weight, xs, vals);
      Ok(r)
  }

  /** Flipping the sign bit adds 2^(size-1) to the two's-complement value. */
  lemma SignFlipValue(xs: seq<bool>, vals: seq<bool>)
    requires |xs| >= 1 && vals == xs[|xs| - 1 := !xs[|xs| - 1]]
    ensures LsbValue(vals) == SignedValue(xs) + Pow2(|xs| - 1)
  {
    var n := |xs| - 1;
    assert vals[..n] == xs[..n];
    assert Pow2(n + 1) == 2 * Pow2(n);
  }

  /** The heap's value goes from `before` to `after` when the kept bits of x with
      its sign bit flipped and the sign-extension ones are added. */
  lemma AddSignedValue(before: int, after: int, M: nat, weight: nat, xs: seq<bool>, vals: seq<bool>)
    requires |xs| >= 1 && vals == xs[|xs| - 1 := !xs[|xs| - 1]]
    requires after == before + Shift(LsbValue(vals[..Kept(weight, |vals|, M)]), weight)
                      + (if |xs| + weight - 1 < M then OnesBetween(|xs| + weight - 1, M) else 0)
    ensures CongruentPow2(after, before + Shift(SignedValue(xs), weight), M)
  {
    var q := AddSignedDiff(before, after, M, weight, xs, vals);
    assert after - (before + Shift(SignedValue(xs), weight)) == Shift(q, M);
  }

  lemma AddSignedDiff(before: int, after: int, M: nat, weight: nat, xs: seq<bool>, vals: seq<bool>) returns (q: int)
    requires |xs| >= 1 && vals == xs[|xs| - 1 := !xs[|xs| - 1]]
    requires after == before + Shift(LsbValue(vals[..Kept(weight, |vals|, M)]), weight)
                      + (if |xs| + weight - 1 < M then OnesBetween(|xs| + weight - 1, M) else 0)
    ensures after - (before + Shift(SignedValue(xs), weight)) == Shift(q, M)
  {
    var s := |xs|;
    var sx := SignedValue(xs);
    KeptExcess(vals, weight, M);
    var E := Excess(vals, weight, M);
    SignFlipValue(xs, vals);
    ShiftAdd(sx, Pow2(s - 1), weight);
    ShiftPow2(s - 1, weight);
    // kept == sx*2^weight + 2^(s-1+weight) - E*2^M
    var q0 := SignExtension(s - 1 + weight, M);
    ShiftSub(q0, E, M);
    q := q0 - E;
  }

  /** subtractSignedBitVector (src/BitHeap.cpp:255-261) is not implemented in the
      source: every call is fatal. */
  function SubtractSignedBitVector(h: Heap, weight: int, xs: seq<bool>): (r: Result<Heap>)
    ensures r.Fatal?
  {
    if weight < 0 then Fatal("Negative weight in subtractSignedBitVector")
    else Fatal("BitHeap::addSignedBitVector not yet implemented")
  }

  /** The constant is materialised (src/BitHeap.cpp:813-816): for each w < maxWeight
      whose bit in constantBits is 1 (two's complement for a negative constant), a
      constant bit at cycle 0. The source leaves constantBits untouched. */
  function MaterialiseConstant(h: Heap, cp: real): (r: Heap)
    requires Valid(h)
    ensures Valid(r) && SameFrame(h, r)
    ensures Sorted(h) ==> Sorted(r)
    ensures forall w :: 0 <= w < h.maxWeight ==>
              |r.cols[w]| == |h.cols[w]| + (if BitOf(h.constantBits, w) then 1 else 0)
    ensures BitsValue(r) == BitsValue(h) + h.constantBits % Pow2(h.maxWeight)
  {
    MaterialiseConstantFacts(h, cp);
    AddRunSorted(h, 0, LowBits(h.constantBits, h.maxWeight), 0, cp, ConstantBit, true);
    AddRun(h, 0, LowBits(h.constantBits, h.maxWeight), 0, cp, ConstantBit, true)
  }

  lemma MaterialiseConstantFacts(h: Heap, cp: real)
    requires Valid(h)
    ensures var r := AddRun(h, 0, LowBits(h.constantBits, h.maxWeight), 0, cp, ConstantBit, true);
            (forall w :: 0 <= w < h.maxWeight ==>
               |r.cols[w]| == |h.cols[w]| + (if BitOf(h.constantBits, w) then 1 else 0)) &&
            BitsValue(r) == BitsValue(h) + h.constantBits % Pow2(h.maxWeight)
  {
    var vals := LowBits(h.constantBits, h.maxWeight);
    AddRunHeights(h, 0, vals, 0, cp, ConstantBit, true);
    AddRunValue(h, 0, vals, 0, cp, ConstantBit, true);
    LowBitsValue(h.constantBits, h.maxWeight);
    LowBitsEntries(h.constantBits, h.maxWeight);
    assert vals[..Kept(0, |vals|, h.maxWeight)] == vals;
  }
}
