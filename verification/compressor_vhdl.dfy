/** The compression driver, generateCompressorVHDL (src/BitHeap.cpp:796-1032): the
    constant is materialised as bits, compression stages run until no column holds
    more than three bits, the last levels are handled per target family, and the
    final adder reads what remains. */
module CompressorVhdl {
  import opened Wrappers
  import opened Utils
  import opened BitHeapStore
  import opened BitHeapQueries
  import opened BitHeapReduce
  import opened Compressors
  import opened CompressCount
  import opened CompressStage
  import opened FinalAdd
  import opened XilinxLevels

  /** How the heap's sum is produced: nothing for an empty heap, the columns copied
      bit by bit when none holds more than one bit, or an adder of `rows` rows (0
      rows: every bit went into a chunk). */
  datatype Finish = Empty | Copied | Added(rows: nat)

  /** CompressionResult for a heap of height at most one: the front bit of every
      column, '0' for an empty one, least significant first. */
  function CompressionResult(h: Heap): (r: seq<bool>)
    requires Valid(h)
    ensures |r| == h.maxWeight
    ensures forall w :: 0 <= w < h.maxWeight ==> r[w] == (|h.cols[w]| > 0 && h.cols[w][0].val)
  {
    seq(h.maxWeight, w requires 0 <= w < h.maxWeight => |h.cols[w]| > 0 && h.cols[w][0].val)
  }

  /** Copying loses nothing when no column holds more than one bit. */
  lemma CopiedValue(h: Heap)
    requires Valid(h) && MaxHeight(h.cols) <= 1
    ensures LsbValue(CompressionResult(h)) == ColumnsValue(h.cols)
  {
    var ds := ColumnCounts(h);
    var vals := CompressionResult(h);
    ColumnCountsValue(h);
    forall k | 0 <= k < |ds|
      ensures ds[k] == (if vals[k] then 1 else 0)
    {
      var col := h.cols[k];
      if |col| == 1 {
        assert col[..0] == [];
      }
    }
    WeightedSumOfBits(ds, vals);
  }

  /** The constant's bits stand for the constant modulo 2^maxWeight. */
  lemma MaterialisedValue(h: Heap, cp: real)
    requires Valid(h)
    ensures CongruentPow2(BitsValue(MaterialiseConstant(h, cp)), TotalValue(h), h.maxWeight)
  {
    CongruentPow2Remainder(BitsValue(h), h.constantBits, h.maxWeight);
  }

  /** The copied result, with the chunks, stands for the heap and its constant. */
  lemma CopiedCongruent(h: Heap, cp: real)
    requires Valid(h) && MaxHeight(MaterialiseConstant(h, cp).cols) <= 1
    ensures var h1 := MaterialiseConstant(h, cp);
            CongruentPow2(LsbValue(CompressionResult(h1)) + ChunksValue(h1.chunks), TotalValue(h), h.maxWeight)
  {
    MaterialisedValue(h, cp);
    CopiedValue(MaterialiseConstant(h, cp));
  }

  /** The stages of compression: compress(stage), stage after stage, while some
      column holds more than three bits, at most `fuel` times. */
  method CompressStages(h0: Heap, t: Target, cs: seq<Compressor>, stage: int, fuel: nat)
    returns (r: Result<(Heap, seq<nat>)>)
    requires Valid(h0) && CatalogShape(cs)
    ensures r.Ok? ==> var (cur, cnt) := r.value;
              Keeps(h0, cur) && |cnt| == h0.maxWeight && MaxHeight(cur.cols) <= 3
  {
    var m := h0.maxWeight;
    var cur := h0;
    var cnt: seq<nat> := seq(m, _ => 0);
    var stage := stage;
    var left := fuel;
    KeepsRefl(h0);
    var mh := GetMaxHeight(cur);
    while mh > 3
      invariant Keeps(h0, cur) && |cnt| == m && mh == MaxHeight(cur.cols)
      decreases left
    {
      if left == 0 {
        return Fatal("compression stages exceed the bound");
      }
      var c :- Compress(cur, cnt, stage, t, cs);
      KeepsTrans(h0, cur, c.0);
      cur, cnt := c.0, c.1;
      stage := stage + 1;
      left := left - 1;
      mh := GetMaxHeight(cur);
    }
    return Ok((cur, cnt));
  }

  /** The last levels and the final adder (src/BitHeap.cpp:871-1032): with three
      bits in some column, getLatestBit over the live columns (its result is
      dereferenced), then a three-row adder on targets with fast ternary adders, the
      Xilinx pass and a two-row adder otherwise; with at most two bits, a two-row
      adder. */
  method LastLevels(cur: Heap, cnt: seq<nat>, t: Target, now: Stamp) returns (r: Result<(Heap, nat)>)
    requires Valid(cur) && |cnt| == cur.maxWeight && MaxHeight(cur.cols) <= 3
    ensures r.Ok? ==> Keeps(cur, r.value.0) && r.value.1 <= 3
    ensures r.Ok? && LowEmpty(cur) ==> FitsRows(r.value.0, r.value.1)
    ensures MaxHeight(cur.cols) > 2 ==> cur.maxWeight >= 1
    ensures MaxHeight(cur.cols) > 2 && GetLatestBit(cur, cur.minWeight, cur.maxWeight - 1).Fatal? ==> r.Fatal?
    ensures (MaxHeight(cur.cols) > 2 && t.fastTernaryAdders &&
             GetLatestBit(cur, cur.minWeight, cur.maxWeight - 1).Ok?) ==> r == Ok((cur, 3))
  {
    var mh := GetMaxHeight(cur);
    if mh > 2 {
      var lb := GetLatestBit(cur, cur.minWeight, cur.maxWeight - 1);
      if lb.Fatal? {
        return Fatal(lb.msg);
      }
      if t.fastTernaryAdders {
        r := FinalAddition(cur, false);
      } else {
        var x :- XilinxThreeLevels(cur, cnt, t, now);
        if LowEmpty(cur) {
          FitsRowsHeight(x, 2);
        }
        r := FinalAddition(x, true);
        assert r.Ok? ==> Keeps(x, r.value.0);
        if r.Ok? {
          KeepsTrans(cur, x, r.value.0);
        }
      }
    } else {
      r := FinalAddition(cur, true);
    }
  }

  /** Everything after the constant (src/BitHeap.cpp:846-1032): the catalog, minWeight reset to
      0, the compression stages, the last levels and the final adder, whose result
      stands for the heap's bits modulo 2^maxWeight. */
  method CompressAndAdd(h1: Heap, t: Target, stage: int, now: Stamp, fuel: nat)
    returns (r: Result<(Heap, nat)>)
    requires Valid(h1)
    ensures t.lutInputs < 3 ==> r.Fatal?
    ensures r.Ok? ==> Valid(r.value.0) && r.value.0.maxWeight == h1.maxWeight && r.value.1 <= 3
    ensures r.Ok? ==> FitsRows(r.value.0, r.value.1) &&
                      CongruentPow2(AdderResult(r.value.0, r.value.1), BitsValue(h1), h1.maxWeight)
  {
    var gen := GeneratePossibleCompressors(t.lutInputs);
    if gen.Fatal? {
      return Fatal(gen.msg);
    }
    var cs := gen.value;
    FullCatalogShape(t.lutInputs, cs);
    var h0 := h1.(minWeight := 0);
    var c :- CompressStages(h0, t, cs, stage, fuel);
    var res :- LastLevels(c.0, c.1, t, now);
    var (h', n) := res;
    KeepsTrans(h0, c.0, h');
    AdderResultValue(h', n);
    return Ok(res);
  }

  /** generateCompressorVHDL. `stageOf` gives the first stage from the soonest bit
      (the source derives it from the target's frequency and delays), `now` is the
      operator's instant, and `fuel` bounds the number of compression stages. An
      empty heap produces nothing, its constant included; a heap of height at most
      one after materialising the constant is copied; otherwise the sum is left to
      an adder of two or three rows. Whatever is produced stands for the heap's
      bits plus its constant, modulo 2^maxWeight. */
  method GenerateCompressorVHDL(h: Heap, t: Target, cp: real, stageOf: Bit -> int, now: Stamp, fuel: nat)
    returns (r: Result<(Heap, Finish)>)
    requires Valid(h)
    ensures MaxHeight(h.cols) == 0 <==> r == Ok((h, Empty))
    ensures r.Ok? ==> Valid(r.value.0) && r.value.0.maxWeight == h.maxWeight
    ensures r.Ok? && r.value.1.Copied? ==> var h' := r.value.0;
              MaxHeight(h'.cols) <= 1 &&
              CongruentPow2(LsbValue(CompressionResult(h')) + ChunksValue(h'.chunks), TotalValue(h), h.maxWeight)
    ensures r.Ok? && r.value.1.Added? ==> var (h', n) := (r.value.0, r.value.1.rows);
              n <= 3 && FitsRows(h', n) && CongruentPow2(AdderResult(h', n), TotalValue(h), h.maxWeight)
    ensures MaxHeight(h.cols) > 0 && GetFirstSoonestBit(MaterialiseConstant(h, cp)).None? ==> r.Fatal?
    ensures MaxHeight(h.cols) > 0 && MaxHeight(MaterialiseConstant(h, cp).cols) >= 2 && t.lutInputs < 3 ==> r.Fatal?
  {
    var m := h.maxWeight;
    var mh := GetMaxHeight(h);
    if mh == 0 {
      return Ok((h, Empty));
    }
    var h1 := MaterialiseConstant(h, cp);
    var first := GetFirstSoonestBit(h1);
    if first.None? {
      return Fatal("undefined: getFirstSoonestBit found no bit");
    }
    mh := GetMaxHeight(h1);
    if mh <= 1 {
      CopiedCongruent(h, cp);
      return Ok((h1, Copied));
    }
    var res :- CompressAndAdd(h1, t, stageOf(first.value), now, fuel);
    MaterialisedValue(h, cp);
    CongruentPow2Trans(AdderResult(res.0, res.1), BitsValue(h1), TotalValue(h), m);
    return Ok((res.0, Added(res.1)));
  }

  /** generateCompressorVHDL with the constant made into bits before the test for
      an empty heap, so that a heap whose only contribution is its constant still
      produces a result (all '0' when the constant has no bit below maxWeight).
      Every produced result stands for the heap's bits plus its constant, modulo
      2^maxWeight. */
  method GenerateKeepingConstant(h: Heap, t: Target, cp: real, stageOf: Bit -> int, now: Stamp, fuel: nat)
    returns (r: Result<(Heap, Finish)>)
    requires Valid(h)
    ensures r.Ok? ==> !r.value.1.Empty? && Valid(r.value.0) && r.value.0.maxWeight == h.maxWeight
    ensures r.Ok? && r.value.1.Copied? ==> var h' := r.value.0;
              MaxHeight(h'.cols) <= 1 &&
              CongruentPow2(LsbValue(CompressionResult(h')) + ChunksValue(h'.chunks), TotalValue(h), h.maxWeight)
    ensures r.Ok? && r.value.1.Added? ==> var (h', n) := (r.value.0, r.value.1.rows);
              n <= 3 && FitsRows(h', n) && CongruentPow2(AdderResult(h', n), TotalValue(h), h.maxWeight)
    ensures var h1 := MaterialiseConstant(h, cp);
            MaxHeight(h1.cols) == 0 || (MaxHeight(h1.cols) == 1 && GetFirstSoonestBit(h1).Some?) ==>
              r == Ok((h1, Copied))
    ensures var h1 := MaterialiseConstant(h, cp);
            MaxHeight(h1.cols) > 0 && GetFirstSoonestBit(h1).None? ==> r.Fatal?
    ensures MaxHeight(MaterialiseConstant(h, cp).cols) >= 2 && t.lutInputs < 3 ==> r.Fatal?
  {
    var m := h.maxWeight;
    var h1 := MaterialiseConstant(h, cp);
    var mh := GetMaxHeight(h1);
    if mh == 0 {
      CopiedCongruent(h, cp);
      return Ok((h1, Copied));
    }
    var first := GetFirstSoonestBit(h1);
    if first.None? {
      return Fatal("undefined: getFirstSoonestBit found no bit");
    }
    if mh <= 1 {
      CopiedCongruent(h, cp);
      return Ok((h1, Copied));
    }
    var res :- CompressAndAdd(h1, t, stageOf(first.value), now, fuel);
    MaterialisedValue(h, cp);
    CongruentPow2Trans(AdderResult(res.0, res.1), BitsValue(h1), TotalValue(h), m);
    return Ok((res.0, Added(res.1)));
  }

  /** A heap of m empty columns whose only contribution is the constant 5. */
  function ConstantOnlyHeap(m: nat): (h: Heap)
    ensures Valid(h) && h.maxWeight == m && h.minWeight == 0 && |h.chunks| == 0 && h.constantBits == 5
    ensures forall w :: 0 <= w < m ==> |h.cols[w]| == 0
    ensures MaxHeight(h.cols) == 0 && TotalValue(h) == 5
  {
    var h0 := NewHeap(m);
    var h := h0.(constantBits := 5);
    assert BitsValue(h) == BitsValue(h0);
    h
  }

  /** As written, that heap produces nothing, whatever its width (20 in the
      example): the test for an empty heap comes before the constant is made into
      bits, so no result stands for 5. */
  method ConstantOnlyAsWritten(m: nat, t: Target, cp: real, stageOf: Bit -> int, now: Stamp, fuel: nat)
    returns (r: Result<(Heap, Finish)>)
    ensures r == Ok((ConstantOnlyHeap(m), Empty)) && TotalValue(ConstantOnlyHeap(m)) == 5
  {
    r := GenerateCompressorVHDL(ConstantOnlyHeap(m), t, cp, stageOf, now, fuel);
  }

  /** Corrected, the same heap, at any width that holds 5, is copied into a result
      whose value is 5. */
  method ConstantOnlyCorrected(m: nat, t: Target, cp: real, stageOf: Bit -> int, now: Stamp, fuel: nat)
    returns (r: Result<(Heap, Finish)>)
    requires m >= 3
    ensures r.Ok? && r.value.1.Copied? && Valid(r.value.0) && LsbValue(CompressionResult(r.value.0)) == 5
  {
    var h := ConstantOnlyHeap(m);
    ConstantOnlyMaterialised(m, cp);
    r := GenerateKeepingConstant(h, t, cp, stageOf, now, fuel);
    var h1 := MaterialiseConstant(h, cp);
    LsbValueBound(CompressionResult(h1));
    SmallCongruent(LsbValue(CompressionResult(h1)), 5, m);
  }

  /** The constant 5 becomes one bit at weight 0 and one at weight 2, each at cycle
      0, so the materialised heap has height one and a soonest bit. */
  lemma ConstantOnlyMaterialised(m: nat, cp: real)
    requires m >= 3
    ensures var h1 := MaterialiseConstant(ConstantOnlyHeap(m), cp);
            MaxHeight(h1.cols) == 1 && GetFirstSoonestBit(h1).Some? && |h1.chunks| == 0 && 5 < Pow2(m)
  {
    var h := ConstantOnlyHeap(m);
    var h1 := MaterialiseConstant(h, cp);
    var b := Bit(0, cp, ConstantBit, true);
    assert h1.cols[0] == [b] by {
      var vals := LowBits(5, m);
      LowBitsEntries(5, m);
      assert vals[0];
      assert h1 == AddRun(h, 0, vals, 0, cp, ConstantBit, true);
      assert h1.cols[0] == RunColumn(h.cols[0], 0, vals, 0, cp, ConstantBit, true, 0);
      assert h1.cols[0] == Insert([], b);
    }
    assert MaxHeight(h1.cols) == 1 by {
      assert forall w :: 0 <= w < m ==> |h1.cols[w]| <= 1;
      assert |h1.cols[0]| == 1;
    }
    assert GetFirstSoonestBit(h1).Some? by {
      assert h1.minWeight == 0 && 0 < |h1.cols[0]|;
      assert !StampLe(SentinelCycle, SentinelCp, h1.cols[0][0].cycle, h1.cols[0][0].cp);
    }
    Pow2Monotone(3, m);
  }

  /** Two numbers below 2^m that agree modulo 2^m are equal. */
  lemma SmallCongruent(a: int, b: int, m: nat)
    requires 0 <= a < Pow2(m) && 0 <= b < Pow2(m) && CongruentPow2(a, b, m)
    ensures a == b
  {
    CongruentPow2Mod(a, b, m);
    var d, p := a - b, Pow2(m);
    if d > 0 {
      DivModUnique(d, p, 0, d);
    } else if d < 0 {
      DivModUnique(d, p, -1, d + p);
    }
  }
}
