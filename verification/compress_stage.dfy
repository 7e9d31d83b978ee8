/** One compression stage, compress(stage) (src/BitHeap.cpp:1645-2100): the LSB
    columns are finalised, the ready counts are taken, an LSB adder may take the
    low columns, the Altera ternary adders run, and the greedy compressor pass
    finishes the stage. */
module CompressStage {
  import opened Wrappers
  import opened Utils
  import opened BitHeapStore
  import opened BitHeapReduce
  import opened BitHeapQueries
  import opened Compressors
  import opened CompressCount
  import opened CompressLsb
  import opened CompressTernary
  import opened CompressGreedy

  /** What the stage reads from the target and the operator: whether the vendor is
      Altera (getVendor() == "Altera", which turns on the ternary pass), whether the
      target has fast ternary adders in logic (hasFastLogicTernaryAdders(), which
      picks the three-row final adder; a separate query that only some Altera targets
      answer yes), the LUT size, the time of a bit, the delays, manageCriticalPath,
      and which bits are ready at a given stage (computeStage(...) <= stage). */
  datatype Target = Target(altera: bool, fastTernaryAdders: bool, lutInputs: int, time: Time, adderDelay: AdderDelay,
                           localWireDelay: real, lutDelay: real, manage: Manage, readyAt: int -> Ready)

  /** The kind elemReduce gives its outputs when called without one. */
  const CompressorKind: int := PlainBit

  /** compress(stage), with cnt the counts left by the previous stage. Fatal when
      concatenateLSBColumns fails, when the LSB scan reads past a column, when the
      LSB adder's latest bit was never set, or when the ternary pass (Altera only)
      has no column to scan, which happens only when concatenation left no live
      column. Otherwise the heap keeps its value modulo 2^maxWeight, and of the bits
      ready at the start of the stage each column from minWeight keeps fewer than
      the first catalog entry takes (at most two with a generated catalog). */
  method Compress(h: Heap, prev: seq<nat>, stage: int, t: Target, cs: seq<Compressor>)
    returns (r: Result<(Heap, seq<nat>)>)
    requires Valid(h) && |prev| == h.maxWeight && CatalogShape(cs)
    ensures ConcatenateLSBColumns(h).Fatal? ==> r.Fatal?
    ensures r.Fatal? ==> (Finalise(h).Fatal? ||
              var h0 := Finalise(h).value;
              var cnt := Snapshot(h0, prev, t.readyAt(stage));
              LsbUndefined(h0, cnt, t.time) || (t.altera && h0.minWeight >= h0.maxWeight))
    ensures r.Ok? ==> var (h', cnt) := r.value;
              Keeps(h, h') && h.minWeight <= h'.minWeight && CntFits(h', cnt)
    ensures r.Ok? ==> var (h', cnt) := r.value;
              forall k :: h'.minWeight <= k < h'.maxWeight ==> cnt[k] < cs[0].col0
    ensures r.Ok? && FullCatalog(t.lutInputs, cs) ==> var (h', cnt) := r.value;
              forall k :: h'.minWeight <= k < h'.maxWeight ==> cnt[k] <= 2
  {
    var m := h.maxWeight;
    var cr := Finalise(h);
    if cr.Fatal? {
      return Fatal(cr.msg);
    }
    var h0 := cr.value;
    var cnt := Snapshot(h0, prev, t.readyAt(stage));
    var lr := LsbPhase(h0, cnt, t);
    if lr.Fatal? {
      return Fatal(lr.msg);
    }
    var (h1, c1, lastCompressed) := lr.value;
    var h2, c2 := h1, c1;
    if t.altera {
      var tr := TernaryPass(h1, c1, lastCompressed, t.manage, n => t.localWireDelay + t.adderDelay(n));
      if tr.Fatal? {
        return Fatal(tr.msg);
      }
      h2, c2 := tr.value.0, tr.value.1;
    } else {
      KeepsRefl(h1);
    }
    var h3, c3 := GreedyPass(h2, c2, cs, t.lutInputs, CompressorKind, t.manage, t.lutDelay + t.localWireDelay);
    KeepsTrans(h1, h2, h3);
    KeepsTrans(h0, h1, h3);
    KeepsTrans(h, h0, h3);
    return Ok((h3, c3));
  }

  /** The LSB scan and its adder; also gives the column the ternary pass starts from
      (lastCompressed): after the adder's last column, or minWeight without one. */
  method LsbPhase(h: Heap, cnt: seq<nat>, t: Target) returns (r: Result<(Heap, seq<nat>, nat)>)
    requires Valid(h) && CntFits(h, cnt)
    ensures r.Fatal? ==> LsbUndefined(h, cnt, t.time)
    ensures r.Ok? ==> var (h', cnt', lastCompressed) := r.value;
              Keeps(h, h') && SameFrame(h, h') && CntFits(h', cnt') && BitsValue(h') == BitsValue(h) &&
              h.minWeight <= lastCompressed && (lastCompressed == h.minWeight || lastCompressed < h.maxWeight)
  {
    CongruentPow2Refl(BitsValue(h), h.maxWeight);
    var scan := LsbScan(h, cnt, t.time, t.adderDelay);
    if scan.LsbPastEnd? {
      return Fatal("undefined: the LSB scan reads past the end of a column");
    }
    var amw := scan.adderMaxWeight;
    var mw := h.minWeight;
    if amw > mw {
      forall k | mw <= k <= amw
        ensures 0 < cnt[k] <= 2
      {
        assert Candidate(h, cnt, k);
      }
    }
    var lr := ApplyLsbAdder(h, cnt, amw, scan.latest, t.manage, t.localWireDelay + t.adderDelay(amw - mw + 1));
    if lr.Fatal? {
      return Fatal(lr.msg);
    }
    return Ok((lr.value.0, lr.value.1, if amw > mw then amw + 1 else mw));
  }
}
