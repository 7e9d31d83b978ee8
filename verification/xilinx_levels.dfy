/** The last compressions on targets without fast ternary adders, once no column
    holds more than three bits (src/BitHeap.cpp:889-983): the low columns with fewer
    than three bits go to one adder, then, from the first column with three bits,
    each such column gets a full adder (3:2 compressor), or starts a row adder with
    carry-in through the columns of two bits that follow it. Afterwards at most two
    bits remain per column, ready for a two-row final adder. */
module XilinxLevels {
  import opened Wrappers
  import opened Utils
  import opened BitHeapStore
  import opened BitHeapReduce
  import opened BitHeapQueries
  import opened Compressors
  import opened CompressCount
  import opened CompressStage
  import opened FinalAdd

  /** The size of the source's cnt array. */
  const CntArraySize: nat := 100000

  // ---------------------------------------------------------------------------
  // The scans over cnt
  // ---------------------------------------------------------------------------

  /** while (cnt[i] < 3) i++: the first column from i counting three bits or more;
      None when the scan leaves the counts, where the source reads zeros up to the
      end of its array and beyond. */
  function FirstAtLeastThree(cnt: seq<nat>, i: nat): (r: Option<nat>)
    ensures r.Some? ==> i <= r.value < |cnt| && cnt[r.value] >= 3 &&
                        forall k :: i <= k < r.value ==> cnt[k] < 3
    ensures r.None? <==> forall k :: i <= k < |cnt| ==> cnt[k] < 3
    decreases |cnt| - i
  {
    if i >= |cnt| then None
    else if cnt[i] >= 3 then Some(i)
    else FirstAtLeastThree(cnt, i + 1)
  }

  /** do i++ while (cnt[i] != 3), as written (src/BitHeap.cpp:943-947): nothing
      bounds i, so with no 3 ahead the scan reads past maxWeight, where cnt is 0,
      and off the end of the array (None). */
  function SkipToThreeAsWritten(cnt: seq<nat>, i: nat): (r: Option<nat>)
    decreases CntArraySize - i
  {
    if i + 1 >= CntArraySize then None
    else if Rd(cnt, i + 1) == 3 then Some(i + 1)
    else SkipToThreeAsWritten(cnt, i + 1)
  }

  /** while ((i <= maxWeight) && (cnt[i] != 3)) i++ (src/BitHeap.cpp:978-981): the
      first k from i that counts three bits, or maxWeight + 1. */
  function SkipBounded(cnt: seq<nat>, i: nat, m: nat): (r: nat)
    ensures i <= r && (r <= m + 1 || r == i)
    ensures r <= m ==> Rd(cnt, r) == 3
    ensures forall k :: i <= k < r ==> Rd(cnt, k) != 3
    decreases m + 1 - i
  {
    if i > m || Rd(cnt, i) == 3 then i else SkipBounded(cnt, i + 1, m)
  }

  /** The do-while with the bound of its sibling loop: the first k after i that
      counts three bits, or maxWeight + 1. */
  function SkipToThree(cnt: seq<nat>, i: nat, m: nat): (r: nat)
    ensures i < r && (r <= m + 1 || r == i + 1)
    ensures r <= m ==> Rd(cnt, r) == 3
    ensures forall k :: i < k < r ==> Rd(cnt, k) != 3
  {
    SkipBounded(cnt, i + 1, m)
  }

  /** With no column after i counting three bits, the unbounded scan runs off the
      array. */
  lemma {:induction false} SkipAsWrittenRunsPast(cnt: seq<nat>, i: nat)
    requires |cnt| <= CntArraySize
    requires forall k :: i < k < |cnt| ==> cnt[k] != 3
    ensures SkipToThreeAsWritten(cnt, i).None?
    decreases CntArraySize - i
  {
    if i + 1 < CntArraySize {
      SkipAsWrittenRunsPast(cnt, i + 1);
    }
  }

  /** The smallest input that shows it: heights [3, 0], so maxWeight = 2. Column 0
      counts three bits and column 1 none, so the scan after column 0 finds no 3. */
  lemma SkipAsWrittenCounterexample()
    ensures SkipToThreeAsWritten([3, 0], 0).None?
    ensures SkipToThree([3, 0], 0, 2) == 3
  {
    SkipAsWrittenRunsPast([3, 0], 0);
  }

  /** When a column after i counts three bits, both scans stop at the first one. */
  lemma {:induction false} SkipAgrees(cnt: seq<nat>, i: nat, m: nat)
    requires |cnt| == m <= CntArraySize
    requires exists k :: i < k < m && cnt[k] == 3
    ensures SkipToThreeAsWritten(cnt, i) == Some(SkipToThree(cnt, i, m))
    decreases m - i
  {
    if Rd(cnt, i + 1) != 3 {
      var k :| i < k < m && cnt[k] == 3;
      assert i + 1 < k;
      SkipAgrees(cnt, i + 1, m);
      assert SkipToThree(cnt, i, m) == SkipBounded(cnt, i + 2, m);
    }
  }

  /** do i++ while (cnt[i] == 2): the run of columns counting two bits after i. It
      stops at maxWeight at the latest, where cnt reads 0. */
  function RunOfTwos(cnt: seq<nat>, i: nat): (r: nat)
    ensures i < r && (r <= |cnt| || r == i + 1)
    ensures Rd(cnt, r) != 2 && forall k :: i < k < r ==> Rd(cnt, k) == 2
    decreases |cnt| - i
  {
    if Rd(cnt, i + 1) != 2 then i + 1 else RunOfTwos(cnt, i + 1)
  }

  // ---------------------------------------------------------------------------
  // The pass
  // ---------------------------------------------------------------------------

  /** The counts the pass works from: the heights of the columns from minWeight;
      the entries below keep what the last compression stage left. */
  function HeightCounts(h: Heap, prev: seq<nat>): (cnt: seq<nat>)
    requires Valid(h) && |prev| == h.maxWeight
    ensures |cnt| == h.maxWeight
    ensures forall k :: h.minWeight <= k < h.maxWeight ==> cnt[k] == |h.cols[k]|
    ensures forall k :: 0 <= k < h.minWeight ==> cnt[k] == prev[k]
  {
    seq(h.maxWeight, k requires 0 <= k < h.maxWeight => if k < h.minWeight then prev[k] else |h.cols[k]|)
  }

  /** The state of the pass at column i: the columns after i are untouched; column
      i, if it exists, counts three bits and holds three or four (a carry may have
      landed there); every column from minWeight before i holds at most two. */
  predicate LevelsInv(cnt: seq<nat>, cur: Heap, i: nat)
  {
    Valid(cur) && |cnt| == cur.maxWeight && cur.minWeight <= i &&
    (forall k :: cur.minWeight <= k < cur.maxWeight ==> cnt[k] <= 3) &&
    (forall k :: i < k < cur.maxWeight ==> |cur.cols[k]| == cnt[k]) &&
    (i < cur.maxWeight ==> cnt[i] == 3 && 3 <= |cur.cols[i]| <= 4) &&
    (forall k :: cur.minWeight <= k < i && k < cur.maxWeight ==> |cur.cols[k]| <= 2)
  }

  /** applyCompressor3_2(i), and the instant elemReduce moves the operator to. */
  function ThreeTwo(cur: Heap, i: nat, t: Target): (r: (Heap, Stamp))
    requires Valid(cur) && i < cur.maxWeight && |cur.cols[i]| >= 3
    ensures Keeps(cur, r.0) && SameFrame(cur, r.0)
    ensures |r.0.cols[i]| == |cur.cols[i]| - 2
    ensures i + 1 < cur.maxWeight ==> |r.0.cols[i + 1]| == |cur.cols[i + 1]| + 1
    ensures forall k :: 0 <= k < cur.maxWeight && k != i && k != i + 1 ==> |r.0.cols[k]| == |cur.cols[k]|
  {
    var delay := t.lutDelay + t.localWireDelay;
    var r := ApplyCompressor3_2(cur, i, t.manage, delay);
    (r.value, OutputStamp(cur, i, FullAdder, t.manage, delay))
  }

  /** The instant of an adder over columns j..e-1: the latest of its bits plus its
      delay. getLatestBit throws when no bit of those columns has a defined time, so
      the check on its result that follows in the source is never reached. */
  function AdderStamp(cur: Heap, j: nat, e: nat, t: Target): (r: Result<Stamp>)
    requires Valid(cur) && j < e <= cur.maxWeight
    ensures r.Fatal? <==> forall w, k :: j <= w < e && 0 <= k < |cur.cols[w]| ==>
                                 !StampLe(0, 0.0, cur.cols[w][k].cycle, cur.cols[w][k].cp)
  {
    var lb :- GetLatestBit(cur, j, e - 1);
    Ok(t.manage(StampOf(lb), t.localWireDelay + t.adderDelay(e - j)))
  }

  lemma AdderRunDefined(cur: Heap, cnt: seq<nat>, j: nat, e: nat)
    requires LevelsInv(cnt, cur, j) && j < cur.maxWeight && j + 1 < e <= cur.maxWeight
    requires forall k :: j < k < e ==> Rd(cnt, k) == 2
    ensures AdderDefined(cur, j, e - 1, true, cnt) && AdderContract(j, e - 1, true, cnt)
  {
    assert CinIndex(cnt[j]) == 2;
    forall k | j < k <= e - 1
      ensures cnt[k] <= 2 && cnt[k] <= |cur.cols[k]|
    {
      assert Rd(cnt, k) == 2;
    }
  }

  /** applyAdder(j, e - 1) with carry-in over column j (three counted bits) and the
      run of twos after it, its sum bits stamped s. */
  function AdderRun(cur: Heap, cnt: seq<nat>, j: nat, e: nat, s: Stamp): (r: Heap)
    requires LevelsInv(cnt, cur, j) && j < cur.maxWeight && j + 1 < e <= cur.maxWeight
    requires forall k :: j < k < e ==> Rd(cnt, k) == 2
  {
    AdderRunDefined(cur, cnt, j, e);
    ApplyAdder(cur, j, e - 1, true, cnt, s)
  }

  /** The adder over the run is a compression step; it takes the counted bits of
      columns j..e-1 and puts one sum bit in each of columns j..e. */
  lemma AdderRunEffect(cur: Heap, cnt: seq<nat>, j: nat, e: nat, s: Stamp)
    requires LevelsInv(cnt, cur, j) && j < cur.maxWeight && j + 1 < e <= cur.maxWeight
    requires forall k :: j < k < e ==> Rd(cnt, k) == 2
    ensures var c := AdderRun(cur, cnt, j, e, s);
            Keeps(cur, c) && SameFrame(cur, c)
  {
    AdderRunDefined(cur, cnt, j, e);
    ApplyAdderKeeps(cur, j, e - 1, true, cnt, s);
  }

  lemma AdderRunHeights(cur: Heap, cnt: seq<nat>, j: nat, e: nat, s: Stamp)
    requires LevelsInv(cnt, cur, j) && j < cur.maxWeight && j + 1 < e <= cur.maxWeight
    requires forall k :: j < k < e ==> Rd(cnt, k) == 2
    ensures var c := AdderRun(cur, cnt, j, e, s);
            forall k :: 0 <= k < cur.maxWeight ==>
              |c.cols[k]| == |cur.cols[k]| - (if j <= k < e then cnt[k] else 0) + (if j <= k <= e then 1 else 0)
  {
    AdderRunDefined(cur, cnt, j, e);
    ApplyAdderHeights(cur, j, e - 1, true, cnt, s);
  }

  lemma ThreeTwoInv(cnt: seq<nat>, cur: Heap, i: nat, t: Target)
    requires LevelsInv(cnt, cur, i) && i < cur.maxWeight
    requires i + 1 < cur.maxWeight ==> cnt[i + 1] != 2
    ensures LevelsInv(cnt, ThreeTwo(cur, i, t).0, SkipToThree(cnt, i, cur.maxWeight))
  {
    ThreeTwoLeavesInv(cnt, cur, ThreeTwo(cur, i, t).0, i);
  }

  /** The invariant after a full adder in column i, from the heights alone. */
  lemma ThreeTwoLeavesInv(cnt: seq<nat>, cur: Heap, c: Heap, i: nat)
    requires LevelsInv(cnt, cur, i) && i < cur.maxWeight
    requires i + 1 < cur.maxWeight ==> cnt[i + 1] != 2
    requires Valid(c) && SameFrame(cur, c)
    requires |c.cols[i]| == |cur.cols[i]| - 2
    requires i + 1 < cur.maxWeight ==> |c.cols[i + 1]| == |cur.cols[i + 1]| + 1
    requires forall k :: 0 <= k < cur.maxWeight && k != i && k != i + 1 ==> |c.cols[k]| == |cur.cols[k]|
    ensures LevelsInv(cnt, c, SkipToThree(cnt, i, cur.maxWeight))
  {
    var m := cur.maxWeight;
    var i' := SkipToThree(cnt, i, m);
    forall k | c.minWeight <= k < i' && k < m
      ensures |c.cols[k]| <= 2
    {
      if k == i + 1 {
        assert cnt[k] != 3;
      } else if k > i + 1 {
        assert Rd(cnt, k) != 3;
      }
    }
  }

  lemma AdderRunInv(cnt: seq<nat>, cur: Heap, i: nat, s: Stamp)
    requires LevelsInv(cnt, cur, i) && i + 1 < cur.maxWeight && cnt[i + 1] == 2
    ensures var e := RunOfTwos(cnt, i);
            LevelsInv(cnt, AdderRun(cur, cnt, i, e, s), SkipBounded(cnt, e, cur.maxWeight))
  {
    var e := RunOfTwos(cnt, i);
    AdderRunEffect(cur, cnt, i, e, s);
    AdderRunHeights(cur, cnt, i, e, s);
    RunLeavesInv(cnt, cur, AdderRun(cur, cnt, i, e, s), i, e);
  }

  /** The invariant after an adder over i..e-1, from the heights alone. */
  lemma RunLeavesInv(cnt: seq<nat>, cur: Heap, c: Heap, i: nat, e: nat)
    requires LevelsInv(cnt, cur, i) && i + 1 < e && e == RunOfTwos(cnt, i)
    requires Valid(c) && SameFrame(cur, c)
    requires forall k :: 0 <= k < cur.maxWeight ==>
               |c.cols[k]| == |cur.cols[k]| - (if i <= k < e then cnt[k] else 0) + (if i <= k <= e then 1 else 0)
    ensures LevelsInv(cnt, c, SkipBounded(cnt, e, cur.maxWeight))
  {
    var m := cur.maxWeight;
    var i' := SkipBounded(cnt, e, m);
    forall k | c.minWeight <= k < i' && k < m
      ensures |c.cols[k]| <= 2
    {
      if k == e {
        assert Rd(cnt, k) != 3 && Rd(cnt, k) != 2;
      } else if k > e {
        assert Rd(cnt, k) != 3;
      } else if i < k < e {
        assert Rd(cnt, k) == 2;
      }
    }
  }

  /** One turn of the pass from column i: a full adder in column i, or an adder over
      the run of columns of two after it. Fatal exactly when that run's adder has no
      bit with a defined time (getLatestBit throws). */
  method LevelsStep(cnt: seq<nat>, cur: Heap, i: nat, t: Target)
    returns (r: Result<(Heap, nat, Stamp)>)
    requires LevelsInv(cnt, cur, i) && i < cur.maxWeight
    ensures r.Fatal? <==> i + 1 < cur.maxWeight && cnt[i + 1] == 2 &&
                          AdderStamp(cur, i, RunOfTwos(cnt, i), t).Fatal?
    ensures r.Ok? ==> var (cur', i', _) := r.value;
                      LevelsInv(cnt, cur', i') && i < i' && cur'.minWeight == cur.minWeight &&
                      Keeps(cur, cur') && SameFrame(cur, cur')
  {
    var m := cur.maxWeight;
    if i == m - 1 {
      r := Ok((ThreeTwo(cur, i, t).0, i + 1, ThreeTwo(cur, i, t).1));
      ThreeTwoInv(cnt, cur, i, t);
    } else if cnt[i + 1] != 2 {
      r := Ok((ThreeTwo(cur, i, t).0, SkipToThree(cnt, i, m), ThreeTwo(cur, i, t).1));
      ThreeTwoInv(cnt, cur, i, t);
    } else {
      var e := RunOfTwos(cnt, i);
      var s :- AdderStamp(cur, i, e, t);
      r := Ok((AdderRun(cur, cnt, i, e, s), SkipBounded(cnt, e, m), s));
      AdderRunInv(cnt, cur, i, s);
      AdderRunEffect(cur, cnt, i, e, s);
    }
  }

  /** The first adder over the columns below the first column of three: it leaves
      one bit in each of them and a carry in that column. */
  lemma LowAdderDefined(h: Heap, cnt: seq<nat>, i: nat)
    requires Valid(h) && |cnt| == h.maxWeight && h.minWeight < i < h.maxWeight
    requires forall k :: h.minWeight <= k < h.maxWeight ==> cnt[k] == |h.cols[k]|
    requires forall k :: h.minWeight <= k < i ==> cnt[k] < 3
    ensures AdderDefined(h, h.minWeight, i - 1, false, cnt) && AdderContract(h.minWeight, i - 1, false, cnt)
  {
  }

  /** Concatenating after the first adder takes exactly its one-bit columns. */
  lemma FirstConcatenation(c: Heap, i: nat)
    requires Valid(c) && c.minWeight <= i < c.maxWeight && |c.cols[i]| > 1
    requires forall k :: c.minWeight <= k < i ==> |c.cols[k]| == 1
    ensures var r := Finalise(c);
            r.Ok? ==> r.value.minWeight == i && forall k :: i <= k < c.maxWeight ==> r.value.cols[k] == c.cols[k]
  {
    var r := ConcatenateLSBColumns(c);
    if r.Ok? {
      assert r.value.minWeight == i;
    }
  }

  /** The last concatenation leaves at most two bits in every column. */
  lemma LastConcatenation(cnt: seq<nat>, cur: Heap, i: nat)
    requires LevelsInv(cnt, cur, i) && i >= cur.maxWeight
    ensures var r := Finalise(cur);
            r.Ok? && LowEmpty(cur) ==> FitsRows(r.value, 2)
  {
    var r := ConcatenateLSBColumns(cur);
    if r.Ok? && LowEmpty(cur) {
      forall w | r.value.minWeight <= w < r.value.maxWeight
        ensures |r.value.cols[w]| <= 2
      {
        assert r.value.cols[w] == cur.cols[w];
      }
    }
  }

  /** The pass starts at the first column counting three bits; a heap with empty
      low columns and three bits in some column has one. */
  lemma FirstThreeExists(h: Heap, prev: seq<nat>)
    requires Valid(h) && |prev| == h.maxWeight && LowEmpty(h) && MaxHeight(h.cols) == 3
    ensures FirstAtLeastThree(HeightCounts(h, prev), h.minWeight).Some?
  {
    var w :| 0 <= w < |h.cols| && |h.cols[w]| == 3;
    assert HeightCounts(h, prev)[w] == 3;
  }

  /** The columns below the first column of three go to one adder without carry-in,
      timed from their latest bit, and are concatenated away (src/BitHeap.cpp:905-921). */
  method FirstAdder(h: Heap, cnt: seq<nat>, i: nat, t: Target, now: Stamp) returns (r: Result<(Heap, Stamp)>)
    requires Valid(h) && |cnt| == h.maxWeight && h.minWeight <= i < h.maxWeight && cnt[i] >= 3
    requires forall k :: h.minWeight <= k < h.maxWeight ==> cnt[k] == |h.cols[k]| && cnt[k] <= 3
    requires forall k :: h.minWeight <= k < i ==> cnt[k] < 3
    ensures i == h.minWeight ==> r == Ok((h, now))
    ensures r.Ok? ==> Keeps(h, r.value.0) && h.minWeight <= r.value.0.minWeight && LevelsInv(cnt, r.value.0, i)
  {
    KeepsRefl(h);
    if i == h.minWeight {
      return Ok((h, now));
    }
    var lb := GetLatestBit(h, h.minWeight, i - 1);
    if lb.Fatal? {
      return Fatal(lb.msg);
    }
    var stamp := t.manage(StampOf(lb.value), t.localWireDelay + t.adderDelay(i - h.minWeight));
    var c := LowAdder(h, cnt, i, stamp);
    var f :- Finalise(c);
    FirstAdderFinal(h, cnt, i, c);
    return Ok((f, stamp));
  }

  /** applyAdder(minWeight, i - 1, false): one bit remains in each column below i,
      and the carry lands in column i. */
  method LowAdder(h: Heap, cnt: seq<nat>, i: nat, s: Stamp) returns (c: Heap)
    requires Valid(h) && |cnt| == h.maxWeight && h.minWeight < i < h.maxWeight
    requires forall k :: h.minWeight <= k < h.maxWeight ==> cnt[k] == |h.cols[k]|
    requires forall k :: h.minWeight <= k < i ==> cnt[k] < 3
    ensures Keeps(h, c) && SameFrame(h, c)
    ensures forall k :: h.minWeight <= k < i ==> |c.cols[k]| == 1
    ensures |c.cols[i]| == |h.cols[i]| + 1
    ensures forall k :: i < k < h.maxWeight ==> |c.cols[k]| == |h.cols[k]|
  {
    LowAdderDefined(h, cnt, i);
    c := RunAdder(h, h.minWeight, i - 1, false, cnt, s);
  }

  /** What the first adder leaves, once concatenated: a heap in the pass's state at
      the first column of three. */
  lemma FirstAdderFinal(h: Heap, cnt: seq<nat>, i: nat, c: Heap)
    requires Valid(h) && |cnt| == h.maxWeight && h.minWeight < i < h.maxWeight && cnt[i] >= 3
    requires forall k :: h.minWeight <= k < h.maxWeight ==> cnt[k] == |h.cols[k]| && cnt[k] <= 3
    requires Keeps(h, c) && SameFrame(h, c)
    requires forall k :: h.minWeight <= k < i ==> |c.cols[k]| == 1
    requires |c.cols[i]| == |h.cols[i]| + 1
    requires forall k :: i < k < h.maxWeight ==> |c.cols[k]| == |h.cols[k]|
    ensures var f := Finalise(c);
            f.Ok? ==> Keeps(h, f.value) && h.minWeight <= f.value.minWeight && LevelsInv(cnt, f.value, i)
  {
    var f := Finalise(c);
    if f.Ok? {
      KeepsTrans(h, c, f.value);
      FirstConcatenation(c, i);
      FirstAdderInv(h, cnt, i, c, f.value);
    }
  }

  /** The pass's invariant holds at the first column of three once the columns
      below it are concatenated away. */
  lemma FirstAdderInv(h: Heap, cnt: seq<nat>, i: nat, c: Heap, f: Heap)
    requires Valid(h) && |cnt| == h.maxWeight && h.minWeight <= i < h.maxWeight && cnt[i] >= 3
    requires forall k :: h.minWeight <= k < h.maxWeight ==> cnt[k] == |h.cols[k]| && cnt[k] <= 3
    requires Valid(c) && SameFrame(h, c) && |c.cols[i]| == |h.cols[i]| + 1
    requires forall k :: i < k < h.maxWeight ==> |c.cols[k]| == |h.cols[k]|
    requires Valid(f) && f.maxWeight == h.maxWeight && f.minWeight == i
    requires forall k :: i <= k < h.maxWeight ==> f.cols[k] == c.cols[k]
    ensures LevelsInv(cnt, f, i)
  {
  }

  /** The Xilinx three-level pass (src/BitHeap.cpp:889-1013), with the skip after a
      full adder bounded (the corrected SkipToThree of the findings). Fatal when no
      column from minWeight counts three bits (the source's scan runs off its array),
      when the first adder's columns or a later run adder's columns hold no bit with a
      defined time (getLatestBit throws), or when a concatenation fails. Otherwise the heap keeps
      its value modulo 2^maxWeight, and with empty low columns at most two bits
      remain in every column. */
  method XilinxThreeLevels(h: Heap, prev: seq<nat>, t: Target, now: Stamp) returns (r: Result<Heap>)
    requires Valid(h) && |prev| == h.maxWeight && MaxHeight(h.cols) <= 3
    ensures FirstAtLeastThree(HeightCounts(h, prev), h.minWeight).None? ==> r.Fatal?
    ensures r.Ok? ==> Keeps(h, r.value) && h.minWeight <= r.value.minWeight
    ensures r.Ok? && LowEmpty(h) ==> FitsRows(r.value, 2)
  {
    var m := h.maxWeight;
    var cnt := HeightCounts(h, prev);
    var first := FirstAtLeastThree(cnt, h.minWeight);
    if first.None? {
      return Fatal("undefined: the scan for a column of three bits runs off the count array");
    }
    var i := first.value;
    var start :- FirstAdder(h, cnt, i, t, now);
    var (cur, stamp) := start;
    while i < m
      invariant LevelsInv(cnt, cur, i) && Keeps(h, cur) && cur.maxWeight == m && h.minWeight <= cur.minWeight
      decreases if i <= m then m + 1 - i else 0
    {
      var step :- LevelsStep(cnt, cur, i, t);
      var (cur', i', stamp') := step;
      KeepsTrans(h, cur, cur');
      cur, i, stamp := cur', i', stamp';
    }
    var f := Finalise(cur);
    if f.Fatal? {
      return Fatal(f.msg);
    }
    LastConcatenation(cnt, cur, i);
    KeepsTrans(h, cur, f.value);
    return Ok(f.value);
  }
}
