/** The ternary-adder chains of a compression stage, used on targets with fast
    ternary adders (src/BitHeap.cpp:1779-2025). From a start column, a chain of
    columns is grown while the ready counts keep a three-operand adder worth
    building; an accepted chain of 4 to 32 columns consumes up to three ready bits
    per column and adds the end - index + 3 bits of their sum. */
module CompressTernary {
  import opened Wrappers
  import opened Utils
  import opened BitHeapStore
  import opened BitHeapReduce
  import opened CompressCount

  const MinAdd3Length: nat := 4
  const MaxAdd3Length: nat := 32

  // ---------------------------------------------------------------------------
  // The chain search (src/BitHeap.cpp:1795-1886)
  // ---------------------------------------------------------------------------

  /** endAddChain-- as the source writes it: never below 0. */
  function Dec(e: nat): nat
  {
    if e > 0 then e - 1 else 0
  }

  /** One pass of the search body at endAddChain = e: the next value of endAddChain
      and whether the search goes on. Entries of cnt at or beyond maxWeight read 0. */
  function ChainStep(cnt: seq<nat>, index: nat, e: nat): (r: (nat, bool))
    ensures r.1 ==> r.0 == e + 1 && e < |cnt|
    ensures !r.1 ==> r.0 <= e && (r.0 == e ==> e == 0 || e == index || (Rd(cnt, e) >= 3 && e >= |cnt|))
  {
    var m := |cnt|;
    var c := Rd(cnt, e);
    if c >= 3 then
      if e == m then (e, false) else (e + 1, true)
    else if c == 2 then
      if (e >= 1 && Rd(cnt, e - 1) >= 3) || (e >= 2 && Rd(cnt, e - 1) >= 2 && Rd(cnt, e - 2) >= 3) then
        if e < m && Rd(cnt, e - 1) == 2 && Rd(cnt, e + 1) >= 2 then (e + 1, true) else (Dec(e), false)
      else (Dec(e), false)
    else if c == 1 then
      if (e >= 1 && Rd(cnt, e - 1) >= 2) || (e >= 2 && Rd(cnt, e - 2) >= 3) then
        if e < m && Rd(cnt, e + 1) >= 2 then (e + 1, true) else (Dec(e), false)
      else (Dec(e), false)
    else if e == index then (e, false)
    else if (e >= 1 && Rd(cnt, e - 1) >= 3) || (e >= 2 && Rd(cnt, e - 1) >= 2 && Rd(cnt, e - 2) >= 3) then
      if e + 1 < m && Rd(cnt, e + 1) >= 2 && Rd(cnt, e + 2) >= 2 then (e + 1, true)
      else if e < m && Rd(cnt, e + 1) >= 2 then (e + 1, true)
      else (Dec(e), false)
    else (Dec(e), false)
  }

  /** The search from endAddChain = e: it stops when a step says so or when the chain
      reaches maxAdd3Length columns past index. */
  function ChainEnd(cnt: seq<nat>, index: nat, e: nat): nat
    requires index <= e <= |cnt|
    decreases |cnt| - e
  {
    var (e', go) := ChainStep(cnt, index, e);
    if !go || e' - index == MaxAdd3Length then e' else ChainEnd(cnt, index, e')
  }

  /** A found chain: endAddChain > index and 4 <= endAddChain - index <= 32. */
  predicate Accepted(index: nat, e: nat)
  {
    e > index && MinAdd3Length <= e - index <= MaxAdd3Length
  }

  /** The chain ends at most 32 columns past index and at most at maxWeight; it
      reaches maxWeight only by running to its full length there, and it never ends
      more than one column below index. */
  lemma {:induction false} ChainEndBounds(cnt: seq<nat>, index: nat, e: nat)
    requires index <= e <= |cnt| && index < |cnt| && e - index < MaxAdd3Length
    ensures var r := ChainEnd(cnt, index, e);
            r + 1 >= index && r <= |cnt| && r <= index + MaxAdd3Length &&
            (r == |cnt| ==> r == index + MaxAdd3Length)
    decreases |cnt| - e
  {
    var (e', go) := ChainStep(cnt, index, e);
    if go && e' - index != MaxAdd3Length {
      ChainEndBounds(cnt, index, e');
    }
  }

  /** A chain can only start at a column with a ready bit: the search started at an
      empty column stops at once. */
  lemma ChainStartsNonEmpty(cnt: seq<nat>, index: nat)
    requires index <= |cnt|
    ensures Accepted(index, ChainEnd(cnt, index, index)) ==> Rd(cnt, index) >= 1
  {
  }

  // ---------------------------------------------------------------------------
  // The adder of a chain (src/BitHeap.cpp:1888-2021)
  // ---------------------------------------------------------------------------

  /** Bits taken from column k: min(cnt[k], 3). */
  function Take(cnt: seq<nat>, k: int): (t: nat)
    ensures t <= 3 && t <= Rd(cnt, k)
  {
    var c := Rd(cnt, k);
    if c > 3 then 3 else c
  }

  /** The chain lo..hi lives at or above minWeight and may reach column maxWeight
      (where nothing is ready). */
  predicate ChainDefined(h: Heap, cnt: seq<nat>, lo: nat, hi: nat)
  {
    Valid(h) && CntFits(h, cnt) && h.minWeight <= lo < h.maxWeight && lo <= hi <= h.maxWeight
  }

  /** The last column of the chain that exists. */
  function Top(h: Heap, hi: nat): nat
    requires 1 <= h.maxWeight
  {
    if hi < h.maxWeight then hi else h.maxWeight - 1
  }

  /** The ones each column of the chain gives to the three operands. */
  function ChainInputs(h: Heap, cnt: seq<nat>, lo: nat, hi: nat): (ins: seq<int>)
    requires ChainDefined(h, cnt, lo, hi)
    ensures |ins| == Top(h, hi) - lo + 1
    ensures forall j :: 0 <= j < |ins| ==> ins[j] == Given(h, cnt, lo + j)
    ensures forall j :: 0 <= j < |ins| ==> 0 <= ins[j] <= 3
  {
    seq(Top(h, hi) - lo + 1, j requires 0 <= j < Top(h, hi) - lo + 1 => Given(h, cnt, lo + j))
  }

  /** The ones column k gives: at most three. */
  function Given(h: Heap, cnt: seq<nat>, k: nat): (n: nat)
    requires Valid(h) && CntFits(h, cnt) && h.minWeight <= k < h.maxWeight
    ensures n <= 3 && n == Count(h.cols[k][..Take(cnt, k)])
  {
    var pre := h.cols[k][..Take(cnt, k)];
    CountBound(pre);
    Count(pre)
  }

  /** The number the ternary adder computes. */
  function ChainSum(h: Heap, cnt: seq<nat>, lo: nat, hi: nat): int
    requires ChainDefined(h, cnt, lo, hi)
  {
    WeightedSum(ChainInputs(h, cnt, lo, hi))
  }

  /** The heap with the taken bits of columns lo..hi removed. */
  function ChainCleared(h: Heap, cnt: seq<nat>, lo: nat, hi: nat): (r: Heap)
    requires ChainDefined(h, cnt, lo, hi)
    ensures Valid(r) && SameFrame(h, r)
  {
    h.(cols := seq(h.maxWeight, k requires 0 <= k < h.maxWeight =>
                     if lo <= k <= hi then h.cols[k][Take(cnt, k)..] else h.cols[k]))
  }

  /** The counts after the chain: each column lo..hi loses what it gave. */
  function ChainCounts(cnt: seq<nat>, lo: nat, hi: nat): (r: seq<nat>)
    ensures |r| == |cnt|
  {
    seq(|cnt|, k requires 0 <= k < |cnt| => if lo <= k <= hi then cnt[k] - Take(cnt, k) else cnt[k])
  }

  /** The chain applied: the taken bits removed and the hi - lo + 3 result bits, of
      kind 3 and stamped s, added at weights lo..hi + 2 (those below maxWeight). */
  function ApplyChain(h: Heap, cnt: seq<nat>, lo: nat, hi: nat, s: Stamp): (r: Heap)
    requires ChainDefined(h, cnt, lo, hi)
    ensures Valid(r) && SameFrame(h, r)
  {
    AddRun(ChainCleared(h, cnt, lo, hi), lo, LowBits(ChainSum(h, cnt, lo, hi), hi - lo + 3), s.cycle, s.cp, AdderBit, false)
  }

  lemma {:induction false} WeightedSumAtMostThree(ds: seq<int>)
    requires forall k :: 0 <= k < |ds| ==> 0 <= ds[k] <= 3
    ensures 0 <= WeightedSum(ds) && WeightedSum(ds) + 3 <= Shift(3, |ds|)
  {
    if |ds| != 0 {
      var n := |ds| - 1;
      WeightedSumAtMostThree(ds[..n]);
      ShiftNonNegative(ds[n], n);
      ShiftMonotone(ds[n], 3, n);
    }
  }

  /** Three operands of n bits never overflow n + 2 bits. */
  lemma ChainNoOverflow(h: Heap, cnt: seq<nat>, lo: nat, hi: nat)
    requires ChainDefined(h, cnt, lo, hi)
    ensures 0 <= ChainSum(h, cnt, lo, hi) < Pow2(hi - lo + 3)
    ensures LsbValue(LowBits(ChainSum(h, cnt, lo, hi), hi - lo + 3)) == ChainSum(h, cnt, lo, hi)
  {
    var ins := ChainInputs(h, cnt, lo, hi);
    var n := |ins|;
    WeightedSumAtMostThree(ins);
    ShiftMonotone(3, 4, n);
    ShiftPow2(2, n);
    Pow2Monotone(n + 2, hi - lo + 3);
    LowBitsSmall(ChainSum(h, cnt, lo, hi), hi - lo + 3);
  }

  /** The ones removed, weighted, are worth the chain's sum at weight lo. */
  lemma ChainClearedValue(h: Heap, cnt: seq<nat>, lo: nat, hi: nat)
    requires ChainDefined(h, cnt, lo, hi)
    ensures BitsValue(ChainCleared(h, cnt, lo, hi)) == BitsValue(h) - Shift(ChainSum(h, cnt, lo, hi), lo)
  {
    ChainClearedCounts(h, cnt, lo, hi);
    ChainDeltasSum(h, cnt, lo, hi);
  }

  /** Per column, minus the ones it gives. */
  function ChainDeltas(h: Heap, cnt: seq<nat>, lo: nat, hi: nat): (ds: seq<int>)
    requires ChainDefined(h, cnt, lo, hi)
    ensures |ds| == h.maxWeight
  {
    seq(h.maxWeight, k requires 0 <= k < h.maxWeight =>
          if lo <= k <= hi then -(Count(h.cols[k][..Take(cnt, k)]) as int) else 0)
  }

  lemma ChainClearedCounts(h: Heap, cnt: seq<nat>, lo: nat, hi: nat)
    requires ChainDefined(h, cnt, lo, hi)
    ensures ColumnsValue(ChainCleared(h, cnt, lo, hi).cols) == ColumnsValue(h.cols) + WeightedSum(ChainDeltas(h, cnt, lo, hi))
  {
    var r := ChainCleared(h, cnt, lo, hi);
    var ds := ChainDeltas(h, cnt, lo, hi);
    forall k | 0 <= k < h.maxWeight
      ensures Count(r.cols[k]) == Count(h.cols[k]) + ds[k]
    {
      if lo <= k <= hi {
        var t := Take(cnt, k);
        assert h.cols[k] == h.cols[k][..t] + r.cols[k];
        CountAppend(h.cols[k][..t], r.cols[k]);
      }
    }
    ColumnsValuePointwise(h.cols, r.cols, ds);
  }

  lemma ChainDeltasSum(h: Heap, cnt: seq<nat>, lo: nat, hi: nat)
    requires ChainDefined(h, cnt, lo, hi)
    ensures WeightedSum(ChainDeltas(h, cnt, lo, hi)) == -Shift(ChainSum(h, cnt, lo, hi), lo)
  {
    var ins := ChainInputs(h, cnt, lo, hi);
    var neg := seq(|ins|, j requires 0 <= j < |ins| => -ins[j]);
    var ds := ChainDeltas(h, cnt, lo, hi);
    forall k | 0 <= k < |ds|
      ensures ds[k] == (if lo <= k < lo + |neg| then neg[k - lo] else 0)
    {
      if lo <= k < lo + |neg| {
        assert ins[k - lo] == Given(h, cnt, k);
      }
    }
    WeightedSumWindow(ds, lo, neg);
    WeightedSumNegate(ins, neg);
    NegatedShift(ChainSum(h, cnt, lo, hi), lo);
  }

  /** The chain keeps the value of the heap modulo 2^maxWeight, and exactly when its
      top result bit hi + 2 is below maxWeight. */
  lemma ApplyChainValue(h: Heap, cnt: seq<nat>, lo: nat, hi: nat, s: Stamp)
    requires ChainDefined(h, cnt, lo, hi)
    ensures CongruentPow2(BitsValue(ApplyChain(h, cnt, lo, hi, s)), BitsValue(h), h.maxWeight)
    ensures hi + 3 <= h.maxWeight ==> BitsValue(ApplyChain(h, cnt, lo, hi, s)) == BitsValue(h)
  {
    var h1 := ChainCleared(h, cnt, lo, hi);
    var S := ChainSum(h, cnt, lo, hi);
    var outs := LowBits(S, hi - lo + 3);
    ChainClearedValue(h, cnt, lo, hi);
    AddRunValue(h1, lo, outs, s.cycle, s.cp, AdderBit, false);
    ChainNoOverflow(h, cnt, lo, hi);
    OutputsReplaceInputs(BitsValue(h), BitsValue(ApplyChain(h, cnt, lo, hi, s)), S, outs, lo, h.maxWeight);
  }

  /** Heights: each column lo..hi loses the bits it gave, each column lo..hi + 2
      below maxWeight gains one result bit; and the counts still fit the columns. */
  lemma ApplyChainHeights(h: Heap, cnt: seq<nat>, lo: nat, hi: nat, s: Stamp)
    requires ChainDefined(h, cnt, lo, hi)
    ensures var r := ApplyChain(h, cnt, lo, hi, s);
            (forall k :: 0 <= k < h.maxWeight ==>
               |r.cols[k]| == |h.cols[k]| - (if lo <= k <= hi then Take(cnt, k) else 0)
                              + (if lo <= k <= hi + 2 then 1 else 0)) &&
            CntFits(r, ChainCounts(cnt, lo, hi))
  {
    var h1 := ChainCleared(h, cnt, lo, hi);
    AddRunHeights(h1, lo, LowBits(ChainSum(h, cnt, lo, hi), hi - lo + 3), s.cycle, s.cp, AdderBit, false);
  }

  lemma ApplyChainSorted(h: Heap, cnt: seq<nat>, lo: nat, hi: nat, s: Stamp)
    requires ChainDefined(h, cnt, lo, hi)
    ensures Sorted(h) ==> Sorted(ApplyChain(h, cnt, lo, hi, s))
  {
    var h1 := ChainCleared(h, cnt, lo, hi);
    if Sorted(h) {
      forall k | 0 <= k < h.maxWeight
        ensures SortedColumn(h1.cols[k])
      {
        assert SortedColumn(h.cols[k]);
      }
    }
    AddRunSorted(h1, lo, LowBits(ChainSum(h, cnt, lo, hi), hi - lo + 3), s.cycle, s.cp, AdderBit, false);
  }

  // ---------------------------------------------------------------------------
  // The latest input of a chain (src/BitHeap.cpp:1916-1929)
  // ---------------------------------------------------------------------------

  /** The position a bit is stored at: the source compares WeightedBit pointers. */
  type Address = Bit -> int

  /** As written: starting from the first bit of column lo, each column's latest
      taken bit (computeLatest(i, min(cnt[i], 3), 0)) replaces the running choice
      when its ADDRESS is greater. Result after columns lo..i-1. */
  function LatestByAddress(h: Heap, cnt: seq<nat>, lo: nat, i: nat, addr: Address): (b: Bit)
    requires ChainDefined(h, cnt, lo, if i > lo then i - 1 else lo) && lo <= i && |h.cols[lo]| >= 1
    decreases i - lo
  {
    if i == lo then h.cols[lo][0]
    else
      var last := LatestByAddress(h, cnt, lo, i - 1, addr);
      if Rd(cnt, i - 1) > 0 then
        var cur := h.cols[i - 1][Take(cnt, i - 1) - 1];
        if addr(last) < addr(cur) then cur else last
      else last
  }

  /** Corrected: the running choice is replaced by a strictly later bit. Afterwards
      no taken bit of columns lo..i-1 is later than the choice. */
  function LatestByStamp(h: Heap, cnt: seq<nat>, lo: nat, i: nat): (b: Bit)
    requires ChainDefined(h, cnt, lo, if i > lo then i - 1 else lo) && lo <= i && |h.cols[lo]| >= 1
    ensures Sorted(h) ==> forall k, j :: lo <= k < i && 0 <= j < Take(cnt, k) ==> NoLater(h.cols[k][j], b)
    ensures b == h.cols[lo][0] || exists k :: lo <= k < i && Rd(cnt, k) > 0 && b == h.cols[k][Take(cnt, k) - 1]
    decreases i - lo
  {
    if i == lo then h.cols[lo][0]
    else
      var last := LatestByStamp(h, cnt, lo, i - 1);
      if Rd(cnt, i - 1) > 0 then
        var col := h.cols[i - 1];
        var cur := col[Take(cnt, i - 1) - 1];
        LastTakenIsLatest(h, i - 1, Take(cnt, i - 1));
        if !NoLater(cur, last) then cur else last
      else last
  }

  /** In a sorted column the t-th bit is the latest of the first t. */
  lemma LastTakenIsLatest(h: Heap, k: nat, t: nat)
    requires Valid(h) && k < h.maxWeight && 1 <= t <= |h.cols[k]|
    ensures Sorted(h) ==> forall j :: 0 <= j < t ==> NoLater(h.cols[k][j], h.cols[k][t - 1])
  {
    if Sorted(h) {
      assert SortedColumn(h.cols[k]);
    }
  }

  /** The pointer comparison can keep an earlier bit while a later one is consumed:
      two one-bit columns whose later bit is stored at the lower address. */
  lemma LatestByAddressCounterexample()
    ensures var a := Bit(1, 0.0, PlainBit, true);
            var b := Bit(5, 0.0, PlainBit, true);
            var h := Heap(2, [[a], [b]], 0, 0, []);
            var cnt: seq<nat> := [1, 1];
            var addr: Address := x => if x == a then 2 else 1;
            Sorted(h) && ChainDefined(h, cnt, 0, 1) &&
            LatestByAddress(h, cnt, 0, 2, addr) == a && !NoLater(b, a) && Take(cnt, 1) == 1 &&
            LatestByStamp(h, cnt, 0, 2) == b
  {
    var a := Bit(1, 0.0, PlainBit, true);
    var b := Bit(5, 0.0, PlainBit, true);
    var h := Heap(2, [[a], [b]], 0, 0, []);
    var cnt: seq<nat> := [1, 1];
    var addr: Address := x => if x == a then 2 else 1;
    assert LatestByAddress(h, cnt, 0, 1, addr) == a;
    assert LatestByStamp(h, cnt, 0, 1) == a;
  }

  /** One accepted chain with its corrected timing: the result bits are stamped by
      manageCriticalPath from the latest taken bit and the adder's delay. */
  function ChainStamp(h: Heap, cnt: seq<nat>, lo: nat, hi: nat, manage: Manage, adder3Delay: int -> real): Stamp
    requires ChainDefined(h, cnt, lo, hi) && |h.cols[lo]| >= 1
  {
    manage(StampOf(LatestByStamp(h, cnt, lo, hi + 1)), adder3Delay(hi - lo + 3))
  }

  // ---------------------------------------------------------------------------
  // The pass (src/BitHeap.cpp:1779-2025)
  // ---------------------------------------------------------------------------

  /** One accepted chain applied: the heap, the counts and the facts the pass keeps. */
  function BuildChain(h: Heap, cnt: seq<nat>, index: nat, e: nat, manage: Manage, adder3Delay: int -> real)
    : (r: (Heap, seq<nat>))
    requires Valid(h) && CntFits(h, cnt) && h.minWeight <= index < h.maxWeight && e <= h.maxWeight
    requires Accepted(index, e) && Rd(cnt, index) >= 1
    ensures Descends(h, cnt, r.0, r.1, index)
    ensures Total(r.1) < Total(cnt)
  {
    var s := ChainStamp(h, cnt, index, e, manage, adder3Delay);
    var c' := ChainCounts(cnt, index, e);
    ApplyChainDescends(h, cnt, index, e, s);
    TotalDecreases(cnt, c', index);
    (ApplyChain(h, cnt, index, e, s), c')
  }

  lemma ApplyChainDescends(h: Heap, cnt: seq<nat>, lo: nat, hi: nat, s: Stamp)
    requires ChainDefined(h, cnt, lo, hi)
    ensures Descends(h, cnt, ApplyChain(h, cnt, lo, hi, s), ChainCounts(cnt, lo, hi), lo)
  {
    var r := ApplyChain(h, cnt, lo, hi, s);
    ApplyChainValue(h, cnt, lo, hi, s);
    ApplyChainHeights(h, cnt, lo, hi, s);
    ApplyChainSorted(h, cnt, lo, hi, s);
    assert LowEmpty(h) ==> LowEmpty(r);
  }

  /** One scan from lastCompressed up to maxWeight: every accepted chain is built
      and the scan resumes after its end; otherwise it moves one column on. */
  method ScanChains(h: Heap, cnt: seq<nat>, lastCompressed: nat, manage: Manage, adder3Delay: int -> real)
    returns (h': Heap, cnt': seq<nat>, performed: bool)
    requires Valid(h) && CntFits(h, cnt) && h.minWeight <= lastCompressed
    ensures Descends(h, cnt, h', cnt', lastCompressed)
    ensures performed ==> Total(cnt') < Total(cnt)
    ensures !performed ==> h' == h && cnt' == cnt
  {
    var m := h.maxWeight;
    var index := lastCompressed;
    h', cnt', performed := h, cnt, false;
    DescendsRefl(h, cnt, lastCompressed);
    while index < m
      invariant lastCompressed <= index && |cnt'| == m
      invariant Descends(h, cnt, h', cnt', lastCompressed)
      invariant performed ==> Total(cnt') < Total(cnt)
      invariant !performed ==> h' == h && cnt' == cnt
      decreases if index <= m then m + 1 - index else 0
    {
      var e := ChainEnd(cnt', index, index);
      ChainEndBounds(cnt', index, index);
      if Accepted(index, e) {
        ChainStartsNonEmpty(cnt', index);
        var (next, c') := BuildChain(h', cnt', index, e, manage, adder3Delay);
        DescendsTrans(h, cnt, h', cnt', next, c', lastCompressed, index);
        h', cnt' := next, c';
        performed := true;
        index := e + 1;
      } else {
        index := index + 1;
      }
    }
  }

  /** The pass, as the source runs it: scans from lastCompressed to maxWeight,
      building every accepted chain, and starts over from lastCompressed until a scan
      builds nothing (the scan clears the pass's flag exactly when it reaches
      maxWeight without a chain). When lastCompressed is at or beyond maxWeight the
      scan never runs, so the flag is never cleared; that run is reported as a
      failure. */
  method TernaryPass(h: Heap, cnt: seq<nat>, lastCompressed: nat, manage: Manage, adder3Delay: int -> real)
    returns (r: Result<(Heap, seq<nat>)>)
    requires Valid(h) && CntFits(h, cnt) && h.minWeight <= lastCompressed
    ensures r.Fatal? <==> lastCompressed >= h.maxWeight
    ensures r.Ok? ==> Descends(h, cnt, r.value.0, r.value.1, lastCompressed)
  {
    var m := h.maxWeight;
    if lastCompressed >= m {
      return Fatal("diverges: no column to scan");
    }
    var cur, c := h, cnt;
    DescendsRefl(h, cnt, lastCompressed);
    var compressible := true;
    while compressible
      invariant Descends(h, cnt, cur, c, lastCompressed)
      decreases Total(c), if compressible then 1 else 0
    {
      var next, c', performed := ScanChains(cur, c, lastCompressed, manage, adder3Delay);
      DescendsTrans(h, cnt, cur, c, next, c', lastCompressed, lastCompressed);
      cur, c := next, c';
      compressible := performed;
    }
    return Ok((cur, c));
  }
}
