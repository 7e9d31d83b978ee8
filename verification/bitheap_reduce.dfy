/** The elementary reduction steps of the bit heap (src/BitHeap.cpp): the latest
    input of a compressor, one compressor application (elemReduce), the 3:2
    compressor shortcut and the row adder (applyAdder).

    A compressor is an abstract value-preserving primitive: it takes col0 bits of
    weight i and col1 bits of weight i + 1 and produces the binary digits of the
    number of ones among them (each bit of column i + 1 counting twice). */
module BitHeapReduce {
  import opened Wrappers
  import opened Utils
  import opened BitHeapStore
  import opened Compressors

  /** A time stamp: a cycle and a critical path within that cycle. */
  datatype Stamp = Stamp(cycle: int, cp: real)

  function StampOf(b: Bit): Stamp
  {
    Stamp(b.cycle, b.cp)
  }

  /** The operator's manageCriticalPath: from the stamp of the latest input and the
      delay of the logic, the stamp of the outputs. Target delays and the decision to
      insert a register are not modelled: any function will do. */
  type Manage = (Stamp, real) -> Stamp

  // ---------------------------------------------------------------------------
  // computeLatest (src/BitHeap.cpp:105-155)
  // ---------------------------------------------------------------------------

  /** What computeLatest may read without undefined behaviour: with a second column
      (c1 != 0), column w + 1 must exist and both indices must name existing bits,
      since b0 and b1 are read uninitialised otherwise. */
  predicate LatestDefined(h: Heap, w: nat, c0: int, c1: int)
    requires Valid(h)
  {
    w < h.maxWeight && c1 != 0 ==>
      w + 1 < h.maxWeight && 1 <= c0 <= |h.cols[w]| && 1 <= c1 <= |h.cols[w + 1]|
  }

  /** The c0-th bit of column w (counting from 1) or, with c1 != 0, the later of it
      and the c1-th bit of column w + 1, the second winning a tie. None beyond
      maxWeight; fatal when c1 == 0 and column w has no c0-th bit. */
  function ComputeLatest(h: Heap, w: nat, c0: int, c1: int): (r: Result<Option<Bit>>)
    requires Valid(h) && LatestDefined(h, w, c0, c1)
    ensures r.Fatal? <==> w < h.maxWeight && c1 == 0 && !(1 <= c0 <= |h.cols[w]|)
    ensures r.Ok? ==> (r.value.None? <==> w >= h.maxWeight)
    ensures r.Ok? && r.value.Some? ==>
              NoLater(h.cols[w][c0 - 1], r.value.value) &&
              (c1 != 0 ==> NoLater(h.cols[w + 1][c1 - 1], r.value.value)) &&
              (r.value.value == h.cols[w][c0 - 1] || (c1 != 0 && r.value.value == h.cols[w + 1][c1 - 1]))
    ensures r.Ok? && r.value.Some? && c1 != 0 && NoLater(h.cols[w][c0 - 1], h.cols[w + 1][c1 - 1]) ==>
              r.value.value == h.cols[w + 1][c1 - 1]
  {
    if w >= h.maxWeight then Ok(None)
    else if c1 == 0 then
      if 1 <= c0 <= |h.cols[w]| then Ok(Some(h.cols[w][c0 - 1])) else Fatal("unexpected condition")
    else
      var b0 := h.cols[w][c0 - 1];
      var b1 := h.cols[w + 1][c1 - 1];
      Ok(Some(if NoLater(b0, b1) then b1 else b0))
  }

  /** In a sorted heap the bit computeLatest returns is no earlier than any of the
      first c0 bits of column w and the first c1 bits of column w + 1: the inputs
      of the compressor that elemReduce applies. */
  lemma ComputeLatestIsLatest(h: Heap, w: nat, c0: int, c1: int)
    requires Valid(h) && Sorted(h) && LatestDefined(h, w, c0, c1)
    ensures var r := ComputeLatest(h, w, c0, c1);
            r.Ok? && r.value.Some? ==>
              (forall j :: 0 <= j < c0 ==> NoLater(h.cols[w][j], r.value.value)) &&
              (c1 != 0 ==> var next := h.cols[w + 1]; forall j :: 0 <= j < c1 ==> NoLater(next[j], r.value.value))
  {
    var r := ComputeLatest(h, w, c0, c1);
    if r.Ok? && r.value.Some? {
      var b := r.value.value;
      forall j | 0 <= j < c0
        ensures NoLater(h.cols[w][j], b)
      {
        assert SortedColumn(h.cols[w]);
        if j < c0 - 1 {
          assert NoLater(h.cols[w][j], h.cols[w][c0 - 1]);
        }
      }
      if c1 != 0 {
        var next := h.cols[w + 1];
        assert SortedColumn(next);
        forall j | 0 <= j < c1
          ensures NoLater(next[j], b)
        {
          if j < c1 - 1 {
            assert NoLater(next[j], next[c1 - 1]);
          }
        }
      }
    }
  }

  // ---------------------------------------------------------------------------
  // elemReduce (src/BitHeap.cpp:577-667)
  // ---------------------------------------------------------------------------

  /** The compressor can be applied at column i: both its inputs exist. */
  predicate Applicable(h: Heap, i: nat, c: Compressor)
    requires Valid(h)
  {
    i < h.maxWeight && 1 <= c.col0 <= |h.cols[i]| &&
    (c.col1 != 0 ==> i + 1 < h.maxWeight && c.col1 <= |h.cols[i + 1]|)
  }

  /** The number of bits a compressor applied at column i takes from column k. */
  function Taken(c: Compressor, i: nat, k: nat): nat
  {
    if k == i then c.col0 else if k == i + 1 then c.col1 else 0
  }

  /** The number a compressor counts: the ones among its inputs, the oldest col0 bits
      of column i with weight 1 and the oldest col1 bits of column i + 1 with weight 2. */
  function InputSum(h: Heap, i: nat, c: Compressor): nat
    requires Valid(h) && Applicable(h, i, c)
  {
    Count(h.cols[i][..c.col0]) + (if c.col1 != 0 then 2 * Count(h.cols[i + 1][..c.col1]) else 0)
  }

  /** The compressor's output bits, least significant first. */
  function Outputs(h: Heap, i: nat, c: Compressor): (o: seq<bool>)
    requires Valid(h) && Applicable(h, i, c)
    ensures |o| == OutputSize(c)
  {
    LowBits(InputSum(h, i, c), OutputSize(c))
  }

  /** The heap after the compressor has consumed its inputs and its outputs have been
      added at weights i.., all stamped s with the given kind. */
  function Reduced(h: Heap, i: nat, c: Compressor, kind: int, s: Stamp): (r: Heap)
    requires Valid(h) && Applicable(h, i, c)
    ensures Valid(r) && SameFrame(h, r)
  {
    var h1 := RemoveCompressedBits(h, i, c.col0);
    var h2 := if c.col1 != 0 then RemoveCompressedBits(h1, i + 1, c.col1) else h1;
    AddRun(h2, i, Outputs(h, i, c), s.cycle, s.cp, kind, false)
  }

  /** elemReduce: fatal when computeLatest finds no bit ("No latest bit?") or fails;
      otherwise the outputs are stamped by manageCriticalPath from the latest input. */
  function ElemReduce(h: Heap, i: nat, c: Compressor, kind: int, manage: Manage, delay: real): (r: Result<Heap>)
    requires Valid(h) && LatestDefined(h, i, c.col0, c.col1)
    ensures r.Fatal? <==> !Applicable(h, i, c)
    ensures r.Ok? ==> Valid(r.value) && SameFrame(h, r.value)
  {
    var latest :- ComputeLatest(h, i, c.col0, c.col1);
    if latest.None? then Fatal("elemReduce: No latest bit?")
    else Ok(Reduced(h, i, c, kind, manage(StampOf(latest.value), delay)))
  }

  /** The stamp elemReduce gives its outputs. */
  function OutputStamp(h: Heap, i: nat, c: Compressor, manage: Manage, delay: real): Stamp
    requires Valid(h) && LatestDefined(h, i, c.col0, c.col1) && Applicable(h, i, c)
  {
    manage(StampOf(ComputeLatest(h, i, c.col0, c.col1).value.value), delay)
  }

  /** Replacing bits worth Shift(S, w) by the binary digits of S placed at w keeps a
      value modulo 2^maxWeight, and exactly when every digit lands below maxWeight. */
  lemma OutputsReplaceInputs(before: int, after: int, S: int, outs: seq<bool>, w: nat, maxWeight: nat)
    requires LsbValue(outs) == S
    requires after == before - Shift(S, w) + Shift(LsbValue(outs[..Kept(w, |outs|, maxWeight)]), w)
    ensures CongruentPow2(after, before, maxWeight)
    ensures w + |outs| <= maxWeight ==> after == before
  {
    var kept := Shift(LsbValue(outs[..Kept(w, |outs|, maxWeight)]), w);
    var E := Excess(outs, w, maxWeight);
    KeptExcess(outs, w, maxWeight);
    NegatedShift(E, maxWeight);
    assert after - before == Shift(-E, maxWeight);
    if w + |outs| <= maxWeight {
      KeptAll(outs, w, maxWeight);
    }
  }

  lemma NegatedShift(x: int, k: nat)
    ensures Shift(-x, k) == -Shift(x, k)
  {
    ShiftSub(0, x, k);
    ShiftZero(k);
  }

  lemma KeptAll(outs: seq<bool>, w: nat, maxWeight: nat)
    requires w + |outs| <= maxWeight
    ensures outs[..Kept(w, |outs|, maxWeight)] == outs
  {
  }

  /** The ones a compressor consumes, weighted, are worth Shift(InputSum, i). */
  lemma ReducedInputs(h: Heap, i: nat, c: Compressor)
    requires Valid(h) && Applicable(h, i, c)
    ensures var h1 := RemoveCompressedBits(h, i, c.col0);
            var h2 := if c.col1 != 0 then RemoveCompressedBits(h1, i + 1, c.col1) else h1;
            BitsValue(h2) == BitsValue(h) - Shift(InputSum(h, i, c), i)
  {
    var c0 := Count(h.cols[i][..c.col0]);
    var h1 := RemoveCompressedBits(h, i, c.col0);
    if c.col1 != 0 {
      var c1 := Count(h.cols[i + 1][..c.col1]);
      assert h1.cols[i + 1] == h.cols[i + 1];
      ShiftDoublePlus(c1, c0, i);
    }
  }

  /** The compressor's outputs spell exactly the number it counts. */
  lemma OutputsSpellSum(h: Heap, i: nat, c: Compressor)
    requires Valid(h) && Applicable(h, i, c)
    ensures LsbValue(Outputs(h, i, c)) == InputSum(h, i, c)
  {
    CountBound(h.cols[i][..c.col0]);
    if c.col1 != 0 {
      CountBound(h.cols[i + 1][..c.col1]);
    }
    LowBitsSmall(InputSum(h, i, c), OutputSize(c));
  }

  lemma ReducedValue(h: Heap, i: nat, c: Compressor, kind: int, s: Stamp)
    requires Valid(h) && Applicable(h, i, c)
    ensures CongruentPow2(BitsValue(Reduced(h, i, c, kind, s)), BitsValue(h), h.maxWeight)
    ensures i + OutputSize(c) <= h.maxWeight ==> BitsValue(Reduced(h, i, c, kind, s)) == BitsValue(h)
  {
    var h1 := RemoveCompressedBits(h, i, c.col0);
    var h2 := if c.col1 != 0 then RemoveCompressedBits(h1, i + 1, c.col1) else h1;
    var outs := Outputs(h, i, c);
    ReducedInputs(h, i, c);
    AddRunValue(h2, i, outs, s.cycle, s.cp, kind, false);
    OutputsSpellSum(h, i, c);
    OutputsReplaceInputs(BitsValue(h), BitsValue(Reduced(h, i, c, kind, s)), InputSum(h, i, c), outs, i, h.maxWeight);
  }

  /** elemReduce keeps the value of the heap modulo 2^maxWeight, and exactly when the
      compressor's outputs all fall below maxWeight. */
  lemma ElemReduceValue(h: Heap, i: nat, c: Compressor, kind: int, manage: Manage, delay: real)
    requires Valid(h) && LatestDefined(h, i, c.col0, c.col1)
    ensures var r := ElemReduce(h, i, c, kind, manage, delay);
            r.Ok? ==> CongruentPow2(BitsValue(r.value), BitsValue(h), h.maxWeight) &&
                      (i + OutputSize(c) <= h.maxWeight ==> BitsValue(r.value) == BitsValue(h))
  {
    if Applicable(h, i, c) {
      ReducedValue(h, i, c, kind, OutputStamp(h, i, c, manage, delay));
    }
  }

  /** The column contents after a reduction, before the outputs are inserted. */
  lemma ReducedRemoved(h: Heap, i: nat, c: Compressor)
    requires Valid(h) && Applicable(h, i, c)
    ensures var h1 := RemoveCompressedBits(h, i, c.col0);
            var h2 := if c.col1 != 0 then RemoveCompressedBits(h1, i + 1, c.col1) else h1;
            forall k :: 0 <= k < h.maxWeight ==> h2.cols[k] == h.cols[k][Taken(c, i, k)..]
  {
    var h1 := RemoveCompressedBits(h, i, c.col0);
    var h2 := if c.col1 != 0 then RemoveCompressedBits(h1, i + 1, c.col1) else h1;
    forall k | 0 <= k < h.maxWeight
      ensures h2.cols[k] == h.cols[k][Taken(c, i, k)..]
    {
      if k == i {
        assert h.cols[i] == h.cols[i][..c.col0] + h1.cols[i];
      } else if k == i + 1 && c.col1 != 0 {
        assert h1.cols[k] == h.cols[k];
        assert h1.cols[k] == h1.cols[k][..c.col1] + h2.cols[k];
      }
    }
  }

  /** elemReduce pops Taken(c, i, k) bits from the front of each column k and inserts
      one output bit in each column i .. i + OutputSize(c) - 1 below maxWeight, stamped
      from the latest input and carrying the given kind and its digit of the sum. */
  lemma ElemReduceContents(h: Heap, i: nat, c: Compressor, kind: int, manage: Manage, delay: real)
    requires Valid(h) && LatestDefined(h, i, c.col0, c.col1)
    ensures var r := ElemReduce(h, i, c, kind, manage, delay);
            r.Ok? ==>
              forall k :: 0 <= k < h.maxWeight ==>
                multiset(r.value.cols[k]) ==
                  multiset(h.cols[k][Taken(c, i, k)..]) +
                  (if i <= k < i + OutputSize(c)
                   then var s := OutputStamp(h, i, c, manage, delay);
                        multiset{Bit(s.cycle, s.cp, kind, Outputs(h, i, c)[k - i])}
                   else multiset{})
  {
    if Applicable(h, i, c) {
      var s := OutputStamp(h, i, c, manage, delay);
      var h1 := RemoveCompressedBits(h, i, c.col0);
      var h2 := if c.col1 != 0 then RemoveCompressedBits(h1, i + 1, c.col1) else h1;
      var outs := Outputs(h, i, c);
      var r := Reduced(h, i, c, kind, s);
      ReducedRemoved(h, i, c);
      forall k | 0 <= k < h.maxWeight
        ensures multiset(r.cols[k]) ==
                  multiset(h.cols[k][Taken(c, i, k)..]) +
                  (if i <= k < i + OutputSize(c) then multiset{Bit(s.cycle, s.cp, kind, outs[k - i])} else multiset{})
      {
        assert r.cols[k] == RunColumn(h2.cols[k], i, outs, s.cycle, s.cp, kind, false, k);
        if i <= k < i + OutputSize(c) {
          InsertContents(h2.cols[k], Bit(s.cycle, s.cp, kind, outs[k - i]));
        }
      }
    }
  }

  /** Heights: each column loses what the compressor takes from it and gains one bit
      per output digit of its weight. */
  lemma ElemReduceHeights(h: Heap, i: nat, c: Compressor, kind: int, manage: Manage, delay: real)
    requires Valid(h) && LatestDefined(h, i, c.col0, c.col1)
    ensures var r := ElemReduce(h, i, c, kind, manage, delay);
            r.Ok? ==>
              forall k :: 0 <= k < h.maxWeight ==>
                |r.value.cols[k]| + Taken(c, i, k) == |h.cols[k]| + (if i <= k < i + OutputSize(c) then 1 else 0)
  {
    if Applicable(h, i, c) {
      var s := OutputStamp(h, i, c, manage, delay);
      var h1 := RemoveCompressedBits(h, i, c.col0);
      var h2 := if c.col1 != 0 then RemoveCompressedBits(h1, i + 1, c.col1) else h1;
      ReducedRemoved(h, i, c);
      AddRunHeights(h2, i, Outputs(h, i, c), s.cycle, s.cp, kind, false);
    }
  }

  lemma ElemReduceSorted(h: Heap, i: nat, c: Compressor, kind: int, manage: Manage, delay: real)
    requires Valid(h) && LatestDefined(h, i, c.col0, c.col1)
    ensures var r := ElemReduce(h, i, c, kind, manage, delay);
            r.Ok? && Sorted(h) ==> Sorted(r.value)
  {
    if Applicable(h, i, c) {
      var s := OutputStamp(h, i, c, manage, delay);
      var h1 := RemoveCompressedBits(h, i, c.col0);
      var h2 := if c.col1 != 0 then RemoveCompressedBits(h1, i + 1, c.col1) else h1;
      AddRunSorted(h2, i, Outputs(h, i, c), s.cycle, s.cp, kind, false);
    }
  }

  // ---------------------------------------------------------------------------
  // applyCompressor3_2 (src/BitHeap.cpp:1096-1110)
  // ---------------------------------------------------------------------------

  /** applyCompressor3_2: elemReduce with the catalog's (3, 0) entry and kind 4. The
      catalog always holds that entry (generation fails otherwise), so the search for
      it is not modelled. */
  function ApplyCompressor3_2(h: Heap, col: nat, manage: Manage, delay: real): (r: Result<Heap>)
    requires Valid(h)
    ensures r.Fatal? <==> col >= h.maxWeight || |h.cols[col]| < 3
    ensures r.Ok? ==> Valid(r.value) && SameFrame(h, r.value)
    ensures r.Ok? ==> |r.value.cols[col]| == |h.cols[col]| - 2
    ensures r.Ok? && col + 1 < h.maxWeight ==> |r.value.cols[col + 1]| == |h.cols[col + 1]| + 1
    ensures r.Ok? ==> forall k :: 0 <= k < h.maxWeight && k != col && k != col + 1 ==> |r.value.cols[k]| == |h.cols[k]|
    ensures r.Ok? ==> CongruentPow2(BitsValue(r.value), BitsValue(h), h.maxWeight)
    ensures r.Ok? && col + 2 <= h.maxWeight ==> BitsValue(r.value) == BitsValue(h)
    ensures r.Ok? && Sorted(h) ==> Sorted(r.value)
  {
    assert OutputSize(FullAdder) == 2;
    ElemReduceHeights(h, col, FullAdder, FullAdderBit, manage, delay);
    ElemReduceValue(h, col, FullAdder, FullAdderBit, manage, delay);
    ElemReduceSorted(h, col, FullAdder, FullAdderBit, manage, delay);
    ElemReduce(h, col, FullAdder, FullAdderBit, manage, delay)
  }

  // ---------------------------------------------------------------------------
  // applyAdder (src/BitHeap.cpp:1117-1224)
  // ---------------------------------------------------------------------------

  /** Where the carry-in is read in column lsb: after the operand bits actually read. */
  function CinIndex(n: nat): nat
  {
    if n > 1 then 2 else 1
  }

  /** What applyAdder may read and remove without undefined behaviour: columns lsb
      to msb exist and hold at least cnt bits, and the carry-in bit exists. */
  predicate AdderDefined(h: Heap, lsb: nat, msb: nat, hasCin: bool, cnt: seq<nat>)
    requires Valid(h)
  {
    lsb <= msb < h.maxWeight && |cnt| == h.maxWeight &&
    (forall k :: lsb <= k <= msb ==> cnt[k] <= |h.cols[k]|) &&
    (hasCin ==> CinIndex(cnt[lsb]) < |h.cols[lsb]|)
  }

  /** The doc-comment contract of applyAdder: at most two bits per column, and in
      column lsb three bits with a carry-in, two without. */
  predicate AdderContract(lsb: nat, msb: nat, hasCin: bool, cnt: seq<nat>)
    requires lsb <= msb < |cnt|
  {
    (forall k :: lsb < k <= msb ==> cnt[k] <= 2) &&
    (if hasCin then cnt[lsb] == 3 else cnt[lsb] <= 2)
  }

  /** The ones column k contributes to the operands X and Y: its first bit when
      cnt[k] >= 1, its second when cnt[k] >= 2. */
  function OperandOnes(h: Heap, cnt: seq<nat>, k: nat): (n: nat)
    requires Valid(h) && k < h.maxWeight && |cnt| == h.maxWeight && cnt[k] <= |h.cols[k]|
    ensures n <= 2
  {
    (if cnt[k] >= 1 && h.cols[k][0].val then 1 else 0) + (if cnt[k] >= 2 && h.cols[k][1].val then 1 else 0)
  }

  function CarryIn(h: Heap, lsb: nat, msb: nat, hasCin: bool, cnt: seq<nat>): nat
    requires Valid(h) && AdderDefined(h, lsb, msb, hasCin, cnt)
  {
    if hasCin && h.cols[lsb][CinIndex(cnt[lsb])].val then 1 else 0
  }

  /** The operand ones of columns lsb..msb, one entry per column from lsb. */
  function Operands(h: Heap, lsb: nat, msb: nat, hasCin: bool, cnt: seq<nat>): (ds: seq<int>)
    requires Valid(h) && AdderDefined(h, lsb, msb, hasCin, cnt)
    ensures |ds| == msb - lsb + 1
  {
    seq(msb - lsb + 1, j requires 0 <= j < msb - lsb + 1 => OperandOnes(h, cnt, lsb + j))
  }

  /** X + Y + Cin: the number the adder computes. */
  function AdderSum(h: Heap, lsb: nat, msb: nat, hasCin: bool, cnt: seq<nat>): int
    requires Valid(h) && AdderDefined(h, lsb, msb, hasCin, cnt)
  {
    WeightedSum(Operands(h, lsb, msb, hasCin, cnt)) + CarryIn(h, lsb, msb, hasCin, cnt)
  }

  /** The heap with the cnt[k] oldest bits of every column lsb..msb removed. */
  function ClearedForAdder(h: Heap, lsb: nat, msb: nat, hasCin: bool, cnt: seq<nat>): (r: Heap)
    requires Valid(h) && AdderDefined(h, lsb, msb, hasCin, cnt)
    ensures Valid(r) && SameFrame(h, r)
  {
    h.(cols := seq(h.maxWeight, k requires 0 <= k < h.maxWeight =>
                     if lsb <= k <= msb then h.cols[k][cnt[k]..] else h.cols[k]))
  }

  /** applyAdder: an adder of msb - lsb + 2 bits reads up to two bits per column (and a
      carry-in from column lsb), removes cnt[k] bits from each column lsb..msb, and adds
      its msb - lsb + 2 result bits, of kind 3 and stamped s, at weights lsb..msb + 1.
      When cnt[lsb] == 0 the emitted first operand is one digit short; the model reads
      that digit as 0. */
  function ApplyAdder(h: Heap, lsb: nat, msb: nat, hasCin: bool, cnt: seq<nat>, s: Stamp): (r: Heap)
    requires Valid(h) && AdderDefined(h, lsb, msb, hasCin, cnt)
    ensures Valid(r) && SameFrame(h, r)
  {
    AddRun(ClearedForAdder(h, lsb, msb, hasCin, cnt), lsb,
           LowBits(AdderSum(h, lsb, msb, hasCin, cnt), msb - lsb + 2), s.cycle, s.cp, AdderBit, false)
  }

  /** Two operands of n bits and a carry-in never overflow n + 1 bits. */
  lemma AdderNoOverflow(h: Heap, lsb: nat, msb: nat, hasCin: bool, cnt: seq<nat>)
    requires Valid(h) && AdderDefined(h, lsb, msb, hasCin, cnt)
    ensures 0 <= AdderSum(h, lsb, msb, hasCin, cnt) < Pow2(msb - lsb + 2)
    ensures LsbValue(LowBits(AdderSum(h, lsb, msb, hasCin, cnt), msb - lsb + 2)) == AdderSum(h, lsb, msb, hasCin, cnt)
  {
    var ops := Operands(h, lsb, msb, hasCin, cnt);
    forall k | 0 <= k < |ops|
      ensures 0 <= ops[k] <= 2
    {
      assert ops[k] == OperandOnes(h, cnt, lsb + k);
    }
    WeightedSumAtMostTwo(ops);
    LowBitsSmall(AdderSum(h, lsb, msb, hasCin, cnt), msb - lsb + 2);
  }

  lemma {:induction false} WeightedSumAtMostTwo(ds: seq<int>)
    requires forall k :: 0 <= k < |ds| ==> 0 <= ds[k] <= 2
    ensures 0 <= WeightedSum(ds) <= 2 * Pow2(|ds|) - 2
  {
    if |ds| != 0 {
      var n := |ds| - 1;
      WeightedSumAtMostTwo(ds[..n]);
      ShiftNonNegative(ds[n], n);
      ShiftMonotone(ds[n], 2, n);
      ShiftPow2(1, n);
    }
  }

  /** Heights: columns lsb..msb lose cnt[k] bits, and every column lsb..msb + 1 below
      maxWeight gains one result bit. */
  lemma ApplyAdderHeights(h: Heap, lsb: nat, msb: nat, hasCin: bool, cnt: seq<nat>, s: Stamp)
    requires Valid(h) && AdderDefined(h, lsb, msb, hasCin, cnt)
    ensures var r := ApplyAdder(h, lsb, msb, hasCin, cnt, s);
            forall k :: 0 <= k < h.maxWeight ==>
              |r.cols[k]| == |h.cols[k]| - (if lsb <= k <= msb then cnt[k] else 0)
                             + (if lsb <= k <= msb + 1 then 1 else 0)
  {
    var h1 := ClearedForAdder(h, lsb, msb, hasCin, cnt);
    AddRunHeights(h1, lsb, LowBits(AdderSum(h, lsb, msb, hasCin, cnt), msb - lsb + 2), s.cycle, s.cp, AdderBit, false);
  }

  lemma ApplyAdderSorted(h: Heap, lsb: nat, msb: nat, hasCin: bool, cnt: seq<nat>, s: Stamp)
    requires Valid(h) && AdderDefined(h, lsb, msb, hasCin, cnt)
    ensures Sorted(h) ==> Sorted(ApplyAdder(h, lsb, msb, hasCin, cnt, s))
  {
    var h1 := ClearedForAdder(h, lsb, msb, hasCin, cnt);
    AddRunSorted(h1, lsb, LowBits(AdderSum(h, lsb, msb, hasCin, cnt), msb - lsb + 2), s.cycle, s.cp, AdderBit, false);
  }

  /** An adder from minWeight up within its doc-comment contract is a compression
      step: it keeps the heap's value modulo 2^maxWeight, sortedness and the empty
      columns below minWeight. */
  lemma ApplyAdderKeeps(h: Heap, lsb: nat, msb: nat, hasCin: bool, cnt: seq<nat>, s: Stamp)
    requires Valid(h) && AdderDefined(h, lsb, msb, hasCin, cnt) && AdderContract(lsb, msb, hasCin, cnt)
    requires h.minWeight <= lsb
    ensures Keeps(h, ApplyAdder(h, lsb, msb, hasCin, cnt, s))
  {
    ApplyAdderValue(h, lsb, msb, hasCin, cnt, s);
    ApplyAdderHeights(h, lsb, msb, hasCin, cnt, s);
    ApplyAdderSorted(h, lsb, msb, hasCin, cnt, s);
  }

  /** applyAdder as a step of a pass: the heap it leaves, with what the passes need
      to know about it. */
  method RunAdder(h: Heap, lsb: nat, msb: nat, hasCin: bool, cnt: seq<nat>, s: Stamp) returns (r: Heap)
    requires Valid(h) && AdderDefined(h, lsb, msb, hasCin, cnt) && AdderContract(lsb, msb, hasCin, cnt)
    requires h.minWeight <= lsb
    ensures Keeps(h, r) && SameFrame(h, r)
    ensures forall k :: 0 <= k < h.maxWeight ==>
              |r.cols[k]| == |h.cols[k]| - (if lsb <= k <= msb then cnt[k] else 0)
                             + (if lsb <= k <= msb + 1 then 1 else 0)
  {
    ApplyAdderKeeps(h, lsb, msb, hasCin, cnt, s);
    ApplyAdderHeights(h, lsb, msb, hasCin, cnt, s);
    r := ApplyAdder(h, lsb, msb, hasCin, cnt, s);
  }

  /** The ones among the first n <= 3 bits of a column. */
  lemma CountPrefix(col: seq<Bit>, n: nat)
    requires n <= 3 && n <= |col|
    ensures Count(col[..n]) == (if n >= 1 && col[0].val then 1 else 0) + (if n >= 2 && col[1].val then 1 else 0)
                                + (if n >= 3 && col[2].val then 1 else 0)
  {
    var v0 := if n >= 1 && col[0].val then 1 else 0;
    var v1 := if n >= 2 && col[1].val then 1 else 0;
    if n >= 1 {
      assert col[..1][..0] == [];
      assert Count(col[..1]) == (if col[0].val then 1 else 0);
    }
    if n >= 2 {
      assert col[..2][..1] == col[..1];
      assert Count(col[..2]) == Count(col[..1]) + (if col[1].val then 1 else 0);
    }
    if n >= 3 {
      assert col[..3][..2] == col[..2];
      assert Count(col[..3]) == Count(col[..2]) + (if col[2].val then 1 else 0);
    }
  }

  /** Under the doc-comment contract the bits removed from each column are exactly
      those the adder reads. */
  lemma ContractConsumesOperands(h: Heap, lsb: nat, msb: nat, hasCin: bool, cnt: seq<nat>, k: nat)
    requires Valid(h) && AdderDefined(h, lsb, msb, hasCin, cnt) && AdderContract(lsb, msb, hasCin, cnt)
    requires lsb <= k <= msb
    ensures Count(h.cols[k][..cnt[k]]) == OperandOnes(h, cnt, k) + (if k == lsb then CarryIn(h, lsb, msb, hasCin, cnt) else 0)
  {
    CountPrefix(h.cols[k], cnt[k]);
  }

  /** The weighted ones removed by ClearedForAdder, under the contract, are worth the
      adder's sum at weight lsb. */
  lemma ClearedValue(h: Heap, lsb: nat, msb: nat, hasCin: bool, cnt: seq<nat>)
    requires Valid(h) && AdderDefined(h, lsb, msb, hasCin, cnt) && AdderContract(lsb, msb, hasCin, cnt)
    ensures BitsValue(ClearedForAdder(h, lsb, msb, hasCin, cnt)) == BitsValue(h) - Shift(AdderSum(h, lsb, msb, hasCin, cnt), lsb)
  {
    var ds := ClearedDeltas(h, lsb, msb, hasCin, cnt);
    ClearedCounts(h, lsb, msb, hasCin, cnt);
    ClearedDeltasSum(h, lsb, msb, hasCin, cnt);
  }

  /** Per column, minus the ones the adder reads (and the carry-in at lsb). */
  function ClearedDeltas(h: Heap, lsb: nat, msb: nat, hasCin: bool, cnt: seq<nat>): (ds: seq<int>)
    requires Valid(h) && AdderDefined(h, lsb, msb, hasCin, cnt)
    ensures |ds| == h.maxWeight
  {
    var ops := Operands(h, lsb, msb, hasCin, cnt);
    var used := ops[0 := ops[0] + CarryIn(h, lsb, msb, hasCin, cnt)];
    seq(h.maxWeight, k requires 0 <= k < h.maxWeight => if lsb <= k <= msb then -used[k - lsb] else 0)
  }

  lemma ClearedCounts(h: Heap, lsb: nat, msb: nat, hasCin: bool, cnt: seq<nat>)
    requires Valid(h) && AdderDefined(h, lsb, msb, hasCin, cnt) && AdderContract(lsb, msb, hasCin, cnt)
    ensures ColumnsValue(ClearedForAdder(h, lsb, msb, hasCin, cnt).cols)
            == ColumnsValue(h.cols) + WeightedSum(ClearedDeltas(h, lsb, msb, hasCin, cnt))
  {
    var r := ClearedForAdder(h, lsb, msb, hasCin, cnt);
    var ds := ClearedDeltas(h, lsb, msb, hasCin, cnt);
    forall k | 0 <= k < h.maxWeight
      ensures Count(r.cols[k]) == Count(h.cols[k]) + ds[k]
    {
      if lsb <= k <= msb {
        assert h.cols[k] == h.cols[k][..cnt[k]] + r.cols[k];
        CountAppend(h.cols[k][..cnt[k]], r.cols[k]);
        ContractConsumesOperands(h, lsb, msb, hasCin, cnt, k);
      }
    }
    ColumnsValuePointwise(h.cols, r.cols, ds);
  }

  lemma ClearedDeltasSum(h: Heap, lsb: nat, msb: nat, hasCin: bool, cnt: seq<nat>)
    requires Valid(h) && AdderDefined(h, lsb, msb, hasCin, cnt)
    ensures WeightedSum(ClearedDeltas(h, lsb, msb, hasCin, cnt)) == -Shift(AdderSum(h, lsb, msb, hasCin, cnt), lsb)
  {
    var n := msb - lsb + 1;
    var ops := Operands(h, lsb, msb, hasCin, cnt);
    var cin := CarryIn(h, lsb, msb, hasCin, cnt);
    var used := ops[0 := ops[0] + cin];
    var neg := seq(n, j requires 0 <= j < n => -used[j]);
    var ds := ClearedDeltas(h, lsb, msb, hasCin, cnt);
    WeightedSumWindow(ds, lsb, neg);
    WeightedSumNegate(used, neg);
    WeightedSumBumpFirst(ops, used, cin);
    NegatedShift(AdderSum(h, lsb, msb, hasCin, cnt), lsb);
  }

  lemma {:induction false} WeightedSumBumpFirst(a: seq<int>, b: seq<int>, c: int)
    requires |a| >= 1 && b == a[0 := a[0] + c]
    ensures WeightedSum(b) == WeightedSum(a) + c
  {
    var n := |a| - 1;
    if n == 0 {
      assert a[..0] == b[..0];
    } else {
      assert b[..n] == a[..n][0 := a[0] + c];
      WeightedSumBumpFirst(a[..n], b[..n], c);
    }
  }

  /** Under its doc-comment contract, applyAdder keeps the value of the heap modulo
      2^maxWeight, and exactly when the carry-out column msb + 1 is below maxWeight. */
  lemma ApplyAdderValue(h: Heap, lsb: nat, msb: nat, hasCin: bool, cnt: seq<nat>, s: Stamp)
    requires Valid(h) && AdderDefined(h, lsb, msb, hasCin, cnt) && AdderContract(lsb, msb, hasCin, cnt)
    ensures CongruentPow2(BitsValue(ApplyAdder(h, lsb, msb, hasCin, cnt, s)), BitsValue(h), h.maxWeight)
    ensures msb + 2 <= h.maxWeight ==> BitsValue(ApplyAdder(h, lsb, msb, hasCin, cnt, s)) == BitsValue(h)
  {
    var h1 := ClearedForAdder(h, lsb, msb, hasCin, cnt);
    var S := AdderSum(h, lsb, msb, hasCin, cnt);
    var outs := LowBits(S, msb - lsb + 2);
    ClearedValue(h, lsb, msb, hasCin, cnt);
    AddRunValue(h1, lsb, outs, s.cycle, s.cp, AdderBit, false);
    AdderNoOverflow(h, lsb, msb, hasCin, cnt);
    OutputsReplaceInputs(BitsValue(h), BitsValue(ApplyAdder(h, lsb, msb, hasCin, cnt, s)), S, outs, lsb, h.maxWeight);
  }
}
