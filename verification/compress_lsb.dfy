/** The LSB-adder short-circuit of a compression stage (src/BitHeap.cpp:1672-1765):
    starting at minWeight, columns with one or two ready bits are candidates for a
    plain row adder; the adder is extended to a column when the latest bit it would
    add, plus the adder's delay, still arrives before the first bit of the scanned
    columns it would leave out. */
module CompressLsb {
  import opened Wrappers
  import opened Utils
  import opened BitHeapStore
  import opened BitHeapReduce
  import opened CompressCount

  /** The time of a bit: cycle / frequency + critical path. */
  type Time = Bit -> real

  /** The target's adderDelay(n) for an n-bit adder. */
  type AdderDelay = int -> real

  /** How the scan ends. `LsbRange` gives the last column of the adder
      (adderMaxWeight) and the latest bit it adds; that bit is None when no added bit
      was ever later than time 0, in which case the source's latestBitAdded is an
      uninitialised pointer. `LsbPastEnd` is the undefined read of the bit after the
      ready ones in a column whose every bit is ready. */
  datatype LsbOutcome = LsbRange(adderMaxWeight: nat, latest: Option<Bit>) | LsbPastEnd(index: nat)

  /** Column k takes part in the scan: it is not the last column and has one or two
      ready bits. */
  predicate Candidate(h: Heap, cnt: seq<nat>, k: nat)
  {
    k + 1 < h.maxWeight && 0 < Rd(cnt, k) <= 2
  }

  /** The time a bound starts from: 0 before any bit was retained. */
  function TimeOf(time: Time, b: Option<Bit>): real
  {
    if b.Some? then time(b.value) else 0.0
  }

  /** The latest ready bit of column k and the first bit after the ready ones. */
  function LastReady(h: Heap, cnt: seq<nat>, k: nat): Bit
    requires Valid(h) && CntFits(h, cnt) && h.minWeight <= k < h.maxWeight && 0 < cnt[k]
  {
    h.cols[k][cnt[k] - 1]
  }

  function FirstWaiting(h: Heap, cnt: seq<nat>, k: nat): Bit
    requires Valid(h) && CntFits(h, cnt) && h.minWeight <= k < h.maxWeight && cnt[k] < |h.cols[k]|
  {
    h.cols[k][cnt[k]]
  }

  /** Every column mw..last-1 was scanned without an undefined read. */
  predicate ScannedClean(h: Heap, cnt: seq<nat>, last: nat)
    requires Valid(h) && CntFits(h, cnt)
  {
    forall k :: h.minWeight <= k < last ==> Candidate(h, cnt, k) && cnt[k] < |h.cols[k]|
  }

  /** The adder over columns mw..amw with latest input `latest` finishes before any
      bit left out of those columns arrives, and before time 1. */
  predicate InTime(h: Heap, cnt: seq<nat>, time: Time, adderDelay: AdderDelay, amw: nat, latest: Option<Bit>)
    requires Valid(h) && CntFits(h, cnt) && amw < h.maxWeight && ScannedClean(h, cnt, amw + 1)
  {
    TimeOf(time, latest) + adderDelay(amw - h.minWeight + 1) < 1.0 &&
    forall k :: h.minWeight <= k <= amw ==>
      time(LastReady(h, cnt, k)) <= TimeOf(time, latest) &&
      TimeOf(time, latest) + adderDelay(amw - h.minWeight + 1) < time(FirstWaiting(h, cnt, k))
  }

  /** The two undefined reads of the scan in src/BitHeap.cpp:1690-1744: a candidate
      column all of whose bits are ready, where lines 1712-1714 step past its last
      bit and read the one after it; or an adder over mw..last-1 whose last ready bits
      are none later than time 0, so that lines 1702-1707 never set
      possiblyLatestBitAdded and line 1740 reads latestBitAdded uninitialised. */
  predicate LsbUndefined(h: Heap, cnt: seq<nat>, time: Time)
    requires Valid(h) && CntFits(h, cnt)
  {
    (exists i :: h.minWeight <= i < h.maxWeight && Candidate(h, cnt, i) && cnt[i] == |h.cols[i]|) ||
    (exists last :: h.minWeight + 1 < last < h.maxWeight && ScannedClean(h, cnt, last) &&
                    forall k :: h.minWeight <= k < last ==> time(LastReady(h, cnt, k)) <= 0.0)
  }

  /** The scan. */
  method LsbScan(h: Heap, cnt: seq<nat>, time: Time, adderDelay: AdderDelay) returns (res: LsbOutcome)
    requires Valid(h) && CntFits(h, cnt)
    ensures res.LsbPastEnd? ==> var i := res.index;
              h.minWeight <= i && Candidate(h, cnt, i) && cnt[i] == |h.cols[i]| && ScannedClean(h, cnt, i)
    ensures res.LsbRange? ==> res.adderMaxWeight == h.minWeight ||
                                (h.minWeight < res.adderMaxWeight && res.adderMaxWeight + 1 < h.maxWeight)
    ensures res.LsbRange? && res.adderMaxWeight > h.minWeight ==>
              ScannedClean(h, cnt, res.adderMaxWeight + 1) &&
              InTime(h, cnt, time, adderDelay, res.adderMaxWeight, res.latest)
  {
    var mw := h.minWeight;
    var index := mw;
    var tLatest: real := 0.0;
    var tFirst: real := 1.0;
    var amw := mw;
    var poss: Option<Bit> := None;
    var latest: Option<Bit> := None;
    while Candidate(h, cnt, index)
      invariant mw <= index <= h.maxWeight
      invariant ScannedClean(h, cnt, index)
      invariant tLatest == TimeOf(time, poss)
      invariant forall k :: mw <= k < index ==> time(LastReady(h, cnt, k)) <= tLatest
      invariant tFirst <= 1.0 && forall k :: mw <= k < index ==> tFirst <= time(FirstWaiting(h, cnt, k))
      invariant mw <= amw && (amw == mw || (amw < index && amw + 1 < h.maxWeight))
      invariant amw > mw ==> InTime(h, cnt, time, adderDelay, amw, latest)
      decreases h.maxWeight - index
    {
      var col := h.cols[index];
      var last := col[cnt[index] - 1];
      if tLatest < time(last) {
        tLatest := time(last);
        poss := Some(last);
      }
      if cnt[index] == |col| {
        return LsbPastEnd(index);
      }
      var next := col[cnt[index]];
      if tFirst > time(next) {
        tFirst := time(next);
      }
      if tLatest + adderDelay(index - mw + 1) < tFirst {
        amw := index;
        latest := poss;
      }
      index := index + 1;
    }
    return LsbRange(amw, latest);
  }

  /** cnt with the entries lo..hi set to 0. */
  function ZeroRange(cnt: seq<nat>, lo: nat, hi: nat): (r: seq<nat>)
    ensures |r| == |cnt|
    ensures forall k :: 0 <= k < |cnt| ==> r[k] == (if lo <= k <= hi then 0 else cnt[k])
  {
    seq(|cnt|, k requires 0 <= k < |cnt| => if lo <= k <= hi then 0 else cnt[k])
  }

  /** The adder the scan chose: applyAdder(minWeight, adderMaxWeight, false), timed
      from the latest bit it adds, after which the counts of its columns are 0.
      Nothing happens when adderMaxWeight is minWeight; reading the time of an
      uninitialised latestBitAdded is reported as a failure. */
  function ApplyLsbAdder(h: Heap, cnt: seq<nat>, amw: nat, latest: Option<Bit>, manage: Manage, delay: real)
    : (r: Result<(Heap, seq<nat>)>)
    requires Valid(h) && CntFits(h, cnt)
    requires amw == h.minWeight ||
             (h.minWeight < amw && amw + 1 < h.maxWeight && forall k :: h.minWeight <= k <= amw ==> 0 < cnt[k] <= 2)
    ensures amw == h.minWeight ==> r == Ok((h, cnt))
    ensures r.Fatal? <==> amw > h.minWeight && latest.None?
    ensures r.Ok? ==> var (h', cnt') := r.value;
              Valid(h') && SameFrame(h, h') && CntFits(h', cnt') && BitsValue(h') == BitsValue(h) &&
              (Sorted(h) ==> Sorted(h'))
    ensures r.Ok? && amw > h.minWeight ==> var (h', cnt') := r.value;
              (forall k :: 0 <= k < h.maxWeight ==>
                 cnt'[k] == (if h.minWeight <= k <= amw then 0 else cnt[k]) &&
                 |h'.cols[k]| == |h.cols[k]| - (if h.minWeight <= k <= amw then cnt[k] else 0)
                                 + (if h.minWeight <= k <= amw + 1 then 1 else 0))
  {
    if amw == h.minWeight then Ok((h, cnt))
    else if latest.None? then Fatal("undefined: latestBitAdded was never set")
    else
      var mw := h.minWeight;
      var s := manage(StampOf(latest.value), delay);
      Ok(LsbAdder(h, cnt, amw, s))
  }

  /** The adder over minWeight..amw and the counts it leaves. */
  function LsbAdder(h: Heap, cnt: seq<nat>, amw: nat, s: Stamp): (r: (Heap, seq<nat>))
    requires Valid(h) && CntFits(h, cnt)
    requires h.minWeight < amw && amw + 1 < h.maxWeight && forall k :: h.minWeight <= k <= amw ==> 0 < cnt[k] <= 2
    ensures Valid(r.0) && SameFrame(h, r.0) && CntFits(r.0, r.1) && BitsValue(r.0) == BitsValue(h)
    ensures Sorted(h) ==> Sorted(r.0)
    ensures forall k :: 0 <= k < h.maxWeight ==>
              r.1[k] == (if h.minWeight <= k <= amw then 0 else cnt[k]) &&
              |r.0.cols[k]| == |h.cols[k]| - (if h.minWeight <= k <= amw then cnt[k] else 0)
                               + (if h.minWeight <= k <= amw + 1 then 1 else 0)
  {
    LsbAdderEffect(h, cnt, amw, s);
    (ApplyAdder(h, h.minWeight, amw, false, cnt, s), ZeroRange(cnt, h.minWeight, amw))
  }

  lemma LsbAdderEffect(h: Heap, cnt: seq<nat>, amw: nat, s: Stamp)
    requires Valid(h) && CntFits(h, cnt)
    requires h.minWeight < amw && amw + 1 < h.maxWeight && forall k :: h.minWeight <= k <= amw ==> 0 < cnt[k] <= 2
    ensures AdderDefined(h, h.minWeight, amw, false, cnt)
    ensures var h' := ApplyAdder(h, h.minWeight, amw, false, cnt, s);
            Valid(h') && SameFrame(h, h') && BitsValue(h') == BitsValue(h) && (Sorted(h) ==> Sorted(h')) &&
            forall k :: 0 <= k < h.maxWeight ==>
              |h'.cols[k]| == |h.cols[k]| - (if h.minWeight <= k <= amw then cnt[k] else 0)
                              + (if h.minWeight <= k <= amw + 1 then 1 else 0)
  {
    var mw := h.minWeight;
    assert AdderDefined(h, mw, amw, false, cnt) && AdderContract(mw, amw, false, cnt);
    ApplyAdderValue(h, mw, amw, false, cnt, s);
    ApplyAdderHeights(h, mw, amw, false, cnt, s);
    ApplyAdderSorted(h, mw, amw, false, cnt, s);
  }
}
