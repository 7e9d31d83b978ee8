/** The second-generation compression strategy (src/BitHeap/CompressionStrategy.cpp):
    rounds of compression that only take bits arriving within a delay of the
    soonest free bit, repeated until the heap no longer needs compressing.

    Its heap is BitheapNew's: a list of columns of bits, each bit free, being
    compressed or already compressed, stamped with a cycle and a critical path.
    Column indices are the ones the code uses to index `bits`. */
module CompressionStrategy {
  import opened Wrappers
  import opened Utils
  import opened Compressors

  datatype BitState = Free | BeingCompressed | Compressed

  datatype SBit = SBit(cycle: int, cp: real, state: BitState)

  /** The heap as the strategy sees it: its lsb and msb and its columns. */
  datatype SHeap = SHeap(lsb: nat, msb: int, bits: seq<seq<SBit>>)

  /** a arrives strictly before b: the comparison getSoonestBit replaces on. */
  predicate Sooner(a: SBit, b: SBit)
  {
    a.cycle < b.cycle || (a.cycle == b.cycle && a.cp < b.cp)
  }

  predicate NoLater(a: SBit, b: SBit)
  {
    !Sooner(b, a)
  }

  /** A bit's place: column and index in the column. */
  datatype Pos = Pos(col: nat, idx: nat)

  predicate Exists(bits: seq<seq<SBit>>, p: Pos)
  {
    p.col < |bits| && p.idx < |bits[p.col]|
  }

  function At(bits: seq<seq<SBit>>, p: Pos): SBit
    requires Exists(bits, p)
  {
    bits[p.col][p.idx]
  }

  predicate FreeAt(bits: seq<seq<SBit>>, p: Pos)
  {
    Exists(bits, p) && At(bits, p).state == Free
  }

  /** p lies in columns lo..hi. */
  predicate InColumns(bits: seq<seq<SBit>>, p: Pos, lo: int, hi: int)
  {
    Exists(bits, p) && lo <= p.col <= hi
  }

  /** p comes before q in the scan: by column, then by index. */
  predicate Before(p: Pos, q: Pos)
  {
    p.col < q.col || (p.col == q.col && p.idx < q.idx)
  }

  // ---------------------------------------------------------------------------
  // getSoonestBit
  // ---------------------------------------------------------------------------

  /** The scan of getSoonestBit from (i, j) to the end of column hi, holding the
      soonest bit found so far: a free bit replaces it only when it arrives strictly
      sooner. `None` is the null pointer. */
  function Scan(bits: seq<seq<SBit>>, best: Option<Pos>, i: nat, j: nat, hi: nat): (r: Option<Pos>)
    requires hi < |bits| && (best.Some? ==> Exists(bits, best.value) && !Before(Pos(i, j), best.value))
    requires i <= hi ==> j <= |bits[i]|
    ensures ScanFinds(bits, best, i, j, hi, r)
    decreases if i <= hi then hi + 1 - i else 0, if i <= hi then |bits[i]| - j else 0
  {
    if i > hi then best
    else if j == |bits[i]| then
      var r := Scan(bits, best, i + 1, 0, hi);
      ScanNextColumn(bits, best, i, hi, r);
      r
    else
      var p := Pos(i, j);
      var best' := if FreeAt(bits, p) && (best.None? || Sooner(At(bits, p), At(bits, best.value))) then Some(p) else best;
      var r := Scan(bits, best', i, j + 1, hi);
      ScanNextBit(bits, best, best', i, j, hi, r);
      r
  }

  /** What the scan from (i, j) with candidate best returns: a bit no later than
      best, either best itself or a strictly sooner free bit at or after (i, j); no
      later than any free bit from (i, j) to the end of column hi, and strictly
      sooner than those of them it passed. */
  ghost predicate ScanFinds(bits: seq<seq<SBit>>, best: Option<Pos>, i: nat, j: nat, hi: nat, r: Option<Pos>)
    requires best.Some? ==> Exists(bits, best.value)
  {
    (r.Some? ==> Exists(bits, r.value)) &&
    (best.Some? ==> r.Some? && NoLater(At(bits, r.value), At(bits, best.value))) &&
    (r == best || (r.Some? && FreeAt(bits, r.value) && !Before(r.value, Pos(i, j)) && r.value.col <= hi &&
                   (best.Some? ==> Sooner(At(bits, r.value), At(bits, best.value))))) &&
    (forall q :: InColumns(bits, q, i, hi) && !Before(q, Pos(i, j)) && FreeAt(bits, q) ==>
       r.Some? && NoLater(At(bits, r.value), At(bits, q))) &&
    (forall q :: (InColumns(bits, q, i, hi) && !Before(q, Pos(i, j)) && FreeAt(bits, q) && r.Some? &&
                  Before(q, r.value)) ==> Sooner(At(bits, r.value), At(bits, q)))
  }

  lemma ScanNextColumn(bits: seq<seq<SBit>>, best: Option<Pos>, i: nat, hi: nat, r: Option<Pos>)
    requires i <= hi < |bits| && (best.Some? ==> Exists(bits, best.value) && !Before(Pos(i, |bits[i]|), best.value))
    requires ScanFinds(bits, best, i + 1, 0, hi, r)
    ensures ScanFinds(bits, best, i, |bits[i]|, hi, r)
  {
  }

  lemma ScanNextBit(bits: seq<seq<SBit>>, best: Option<Pos>, best': Option<Pos>, i: nat, j: nat, hi: nat, r: Option<Pos>)
    requires i <= hi < |bits| && j < |bits[i]|
    requires best.Some? ==> Exists(bits, best.value) && !Before(Pos(i, j), best.value)
    requires var p := Pos(i, j);
             best' == if FreeAt(bits, p) && (best.None? || Sooner(At(bits, p), At(bits, best.value))) then Some(p) else best
    requires ScanFinds(bits, best', i, j + 1, hi, r)
    ensures ScanFinds(bits, best, i, j, hi, r)
  {
  }

  /** The first column from c on that is not empty, stopping at hi. */
  function FirstNonEmpty(bits: seq<seq<SBit>>, c: nat, hi: nat): (r: nat)
    requires hi < |bits|
    ensures c <= r && (c <= hi ==> r <= hi) && (c > hi ==> r == c)
    ensures forall k :: c <= k < r ==> |bits[k]| == 0
    ensures c <= hi && r < hi ==> |bits[r]| > 0
    decreases if c <= hi then hi - c else 0
  {
    if c < hi && |bits[c]| == 0 then FirstNonEmpty(bits, c + 1, hi) else c
  }

  /** What getSoonestBit does when its arguments are in range: a bit's place, or
      the read of bits[count][0] (or of a column past the end) that is undefined. */
  datatype Soonest = Found(at: Pos) | Undefined

  /** getSoonestBit as written: the first bit of the first non-empty column is the
      starting candidate whether it is free or not, and when every column of the
      range is empty that first bit does not exist. */
  function GetSoonestBitAsWritten(h: SHeap, lo: nat, hi: nat): (r: Result<Soonest>)
    ensures r.Fatal? <==> lo < h.lsb || hi > h.msb
    ensures r.Ok? && lo <= hi < |h.bits| ==> (r.value.Undefined? <==> forall k :: lo <= k <= hi ==> |h.bits[k]| == 0)
    ensures r.Ok? && r.value.Found? ==> var p := r.value.at;
              Exists(h.bits, p) && (lo <= hi ==> InColumns(h.bits, p, lo, hi)) &&
              (FreeAt(h.bits, p) || (p.idx == 0 && forall k :: lo <= k < p.col ==> |h.bits[k]| == 0)) &&
              (forall q :: InColumns(h.bits, q, lo, hi) && FreeAt(h.bits, q) ==> NoLater(At(h.bits, p), At(h.bits, q))) &&
              (forall q :: InColumns(h.bits, q, lo, hi) && FreeAt(h.bits, q) && Before(q, p) ==>
                 Sooner(At(h.bits, p), At(h.bits, q)))
  {
    if lo < h.lsb || hi > h.msb then Fatal("Invalid arguments for getSoonest bit")
    else if hi >= |h.bits| then Ok(Undefined)
    else
      var count := FirstNonEmpty(h.bits, lo, hi);
      if count >= |h.bits| || |h.bits[count]| == 0 then Ok(Undefined)
      else
        var first := Pos(count, 0);
        var r := Scan(h.bits, Some(first), count, 0, hi);
        SoonestFromFirst(h.bits, lo, hi, count, r.value);
        Ok(Found(r.value))
  }

  /** The positions before the starting column hold no bits, so what the scan
      promises from (count, 0) holds for the whole range. */
  lemma SoonestFromFirst(bits: seq<seq<SBit>>, lo: nat, hi: nat, count: nat, p: Pos)
    requires lo <= count <= hi < |bits| || (lo == count > hi && count < |bits|)
    requires forall k :: lo <= k < count ==> |bits[k]| == 0
    ensures forall q :: InColumns(bits, q, lo, hi) ==> InColumns(bits, q, count, hi) && !Before(q, Pos(count, 0))
  {
  }

  /** getSoonestBit as its documentation describes it: the soonest free bit of the
      range, and the null pointer when the range holds no free bit. */
  function GetSoonestBit(h: SHeap, lo: nat, hi: nat): (r: Result<Option<Pos>>)
    ensures r.Fatal? <==> lo < h.lsb || hi > h.msb || hi >= |h.bits|
    ensures r.Ok? ==> (r.value.None? <==> forall q :: InColumns(h.bits, q, lo, hi) ==> !FreeAt(h.bits, q))
    ensures r.Ok? && r.value.Some? ==> var p := r.value.value;
              InColumns(h.bits, p, lo, hi) && FreeAt(h.bits, p) &&
              (forall q :: InColumns(h.bits, q, lo, hi) && FreeAt(h.bits, q) ==> NoLater(At(h.bits, p), At(h.bits, q))) &&
              (forall q :: InColumns(h.bits, q, lo, hi) && FreeAt(h.bits, q) && Before(q, p) ==>
                 Sooner(At(h.bits, p), At(h.bits, q)))
  {
    if lo < h.lsb || hi > h.msb || hi >= |h.bits| then Fatal("Invalid arguments for getSoonest bit")
    else if lo > hi then Ok(None)
    else Ok(Scan(h.bits, None, lo, 0, hi))
  }

  /** The two ways the documented and the written getSoonestBit differ: the written
      one reads the first bit of an empty column when the range holds no bit, and
      returns a bit that is not free when the first bit of the range is not. */
  lemma SoonestAsWrittenCounterexample()
    ensures GetSoonestBitAsWritten(SHeap(0, 0, [[]]), 0, 0) == Ok(Undefined)
    ensures GetSoonestBit(SHeap(0, 0, [[]]), 0, 0) == Ok(None)
    ensures var h := SHeap(0, 0, [[SBit(0, 0.0, Compressed), SBit(1, 0.0, Free)]]);
            GetSoonestBitAsWritten(h, 0, 0) == Ok(Found(Pos(0, 0))) && !FreeAt(h.bits, Pos(0, 0)) &&
            GetSoonestBit(h, 0, 0) == Ok(Some(Pos(0, 1)))
  {
    var h := SHeap(0, 0, [[SBit(0, 0.0, Compressed), SBit(1, 0.0, Free)]]);
    assert GetSoonestBit(SHeap(0, 0, [[]]), 0, 0).Ok?;
    var r := GetSoonestBit(h, 0, 0);
    assert FreeAt(h.bits, Pos(0, 1)) && InColumns(h.bits, Pos(0, 1), 0, 0);
    assert r.value.Some? && r.value.value.col == 0 && r.value.value.idx < 2;
    assert r.value.value.idx != 0;
    var w := GetSoonestBitAsWritten(h, 0, 0);
    assert w.value.Found? && w.value.at.col == 0 && w.value.at.idx < 2;
    assert FreeAt(h.bits, Pos(0, 1)) && Before(Pos(0, 1), Pos(0, 1)) == false;
    assert w.value.at.idx != 1;
  }

  /** When the written getSoonestBit lands on a free bit, it is the bit the
      documented one returns: both are the first, in scan order, of the soonest free
      bits, and there is only one such bit. */
  lemma SoonestAgrees(h: SHeap, lo: nat, hi: nat)
    requires lo <= hi < |h.bits|
    requires GetSoonestBitAsWritten(h, lo, hi).Ok? && GetSoonestBitAsWritten(h, lo, hi).value.Found?
    requires FreeAt(h.bits, GetSoonestBitAsWritten(h, lo, hi).value.at)
    ensures GetSoonestBit(h, lo, hi) == Ok(Some(GetSoonestBitAsWritten(h, lo, hi).value.at))
  {
    var p := GetSoonestBitAsWritten(h, lo, hi).value.at;
    var r := GetSoonestBit(h, lo, hi);
    assert r.Ok? && r.value.Some?;
    var p' := r.value.value;
    assert !Before(p, p');
    assert !Before(p', p);
  }

  // ---------------------------------------------------------------------------
  // canApplyCompressor
  // ---------------------------------------------------------------------------

  /** The time of a bit as the code computes it: cycle times the clock period, plus
      the critical path. */
  function TotalTime(b: SBit, period: real): real
  {
    b.cycle as real * period + b.cp
  }

  /** b may go into a compressor timed from t0: it is free and arrives at most
      `delay` after t0. */
  predicate Eligible(b: SBit, t0: real, delay: real, period: real)
  {
    b.state == Free && TotalTime(b, period) - t0 <= delay
  }

  /** The number of eligible bits among the first n of a column. */
  function CountEligible(col: seq<SBit>, n: nat, t0: real, delay: real, period: real): (c: nat)
    requires n <= |col|
    ensures c <= n
  {
    if n == 0 then 0
    else CountEligible(col, n - 1, t0, delay, period) + (if Eligible(col[n - 1], t0, delay, period) then 1 else 0)
  }

  lemma {:induction false} CountEligibleMonotone(col: seq<SBit>, m: nat, n: nat, t0: real, delay: real, period: real)
    requires m <= n <= |col|
    ensures CountEligible(col, m, t0, delay, period) <= CountEligible(col, n, t0, delay, period)
    decreases n - m
  {
    if m < n {
      CountEligibleMonotone(col, m, n - 1, t0, delay, period);
    }
  }

  /** A longer delay makes no bit ineligible. */
  lemma {:induction false} CountEligibleWidens(col: seq<SBit>, n: nat, t0: real, d: real, d': real, period: real)
    requires n <= |col| && d <= d'
    ensures CountEligible(col, n, t0, d, period) <= CountEligible(col, n, t0, d', period)
  {
    if n > 0 {
      CountEligibleWidens(col, n - 1, t0, d, d', period);
    }
  }

  predicate Increasing(s: seq<nat>)
  {
    forall a, b :: 0 <= a < b < |s| ==> s[a] < s[b]
  }

  /** The inner while loop of canApplyCompressor as written, from index idx with the
      indices taken so far: a bit that is not free is skipped with `continue` before
      the index moves on, so the loop reads that same bit forever. */
  datatype Taking = Taken(idx: seq<nat>) | Stuck(at: nat)

  function TakeAsWritten(col: seq<SBit>, need: nat, t0: real, delay: real, period: real, idx: nat, got: seq<nat>): Taking
    requires idx <= |col|
    decreases |col| - idx
  {
    if |got| >= need || idx == |col| then Taken(got)
    else if col[idx].state != Free then Stuck(idx)
    else if TotalTime(col[idx], period) - t0 <= delay then TakeAsWritten(col, need, t0, delay, period, idx + 1, got + [idx])
    else TakeAsWritten(col, need, t0, delay, period, idx + 1, got)
  }

  /** The same loop with the index moving past a bit that is not free. */
  function TakeFrom(col: seq<SBit>, need: nat, t0: real, delay: real, period: real, idx: nat, got: seq<nat>): (r: seq<nat>)
    requires idx <= |col| && |got| <= need && Increasing(got)
    requires forall k :: 0 <= k < |got| ==> got[k] < idx && Eligible(col[got[k]], t0, delay, period)
    requires |got| == CountEligible(col, idx, t0, delay, period)
    requires forall e :: 0 <= e < idx && Eligible(col[e], t0, delay, period) ==> e in got
    ensures FirstEligible(col, need, t0, delay, period, r)
    decreases |col| - idx
  {
    if |got| >= need || idx == |col| then
      TakeDone(col, need, t0, delay, period, idx, got);
      got
    else if Eligible(col[idx], t0, delay, period) then
      TakeStep(col, need, t0, delay, period, idx, got);
      TakeFrom(col, need, t0, delay, period, idx + 1, got + [idx])
    else
      SkipStep(col, need, t0, delay, period, idx, got);
      TakeFrom(col, need, t0, delay, period, idx + 1, got)
  }

  /** r holds the first `need` eligible bits of a column, in order, or all of them
      when there are fewer. */
  predicate FirstEligible(col: seq<SBit>, need: nat, t0: real, delay: real, period: real, r: seq<nat>)
  {
    Increasing(r) && |r| <= need &&
    (forall k :: 0 <= k < |r| ==> r[k] < |col| && Eligible(col[r[k]], t0, delay, period)) &&
    (forall e :: (0 <= e < |col| && Eligible(col[e], t0, delay, period) &&
                  (|r| < need || (0 < |r| && e < r[|r| - 1]))) ==> e in r) &&
    |r| == (if need <= CountEligible(col, |col|, t0, delay, period) then need
            else CountEligible(col, |col|, t0, delay, period))
  }

  /** When the loop stops, what it took is the first eligible bits. */
  lemma TakeDone(col: seq<SBit>, need: nat, t0: real, delay: real, period: real, idx: nat, got: seq<nat>)
    requires idx <= |col| && |got| <= need && (|got| >= need || idx == |col|) && Increasing(got)
    requires forall k :: 0 <= k < |got| ==> got[k] < idx && Eligible(col[got[k]], t0, delay, period)
    requires |got| == CountEligible(col, idx, t0, delay, period)
    requires forall e :: 0 <= e < idx && Eligible(col[e], t0, delay, period) ==> e in got
    ensures FirstEligible(col, need, t0, delay, period, got)
  {
    CountEligibleMonotone(col, idx, |col|, t0, delay, period);
    forall e | 0 <= e < |col| && Eligible(col[e], t0, delay, period) && (|got| < need || (0 < |got| && e < got[|got| - 1]))
      ensures e in got
    {
      if |got| >= need {
        assert got[|got| - 1] < idx;
      }
    }
  }

  /** The loop invariant of TakeFrom after taking the eligible bit at idx. */
  lemma TakeStep(col: seq<SBit>, need: nat, t0: real, delay: real, period: real, idx: nat, got: seq<nat>)
    requires idx < |col| && |got| < need && Increasing(got) && Eligible(col[idx], t0, delay, period)
    requires forall k :: 0 <= k < |got| ==> got[k] < idx && Eligible(col[got[k]], t0, delay, period)
    requires |got| == CountEligible(col, idx, t0, delay, period)
    requires forall e :: 0 <= e < idx && Eligible(col[e], t0, delay, period) ==> e in got
    ensures var g := got + [idx];
            |g| <= need && Increasing(g) && |g| == CountEligible(col, idx + 1, t0, delay, period) &&
            (forall k :: 0 <= k < |g| ==> g[k] < idx + 1 && Eligible(col[g[k]], t0, delay, period)) &&
            (forall e :: 0 <= e < idx + 1 && Eligible(col[e], t0, delay, period) ==> e in g)
  {
    var g := got + [idx];
    forall e | 0 <= e < idx + 1 && Eligible(col[e], t0, delay, period)
      ensures e in g
    {
      if e < idx {
        assert e in got;
      } else {
        assert g[|got|] == e;
      }
    }
  }

  /** The loop invariant of TakeFrom after passing a bit that is not eligible. */
  lemma SkipStep(col: seq<SBit>, need: nat, t0: real, delay: real, period: real, idx: nat, got: seq<nat>)
    requires idx < |col| && |got| <= need && !Eligible(col[idx], t0, delay, period)
    requires forall k :: 0 <= k < |got| ==> got[k] < idx
    requires |got| == CountEligible(col, idx, t0, delay, period)
    requires forall e :: 0 <= e < idx && Eligible(col[e], t0, delay, period) ==> e in got
    ensures |got| == CountEligible(col, idx + 1, t0, delay, period)
    ensures forall k :: 0 <= k < |got| ==> got[k] < idx + 1
    ensures forall e :: 0 <= e < idx + 1 && Eligible(col[e], t0, delay, period) ==> e in got
  {
  }

  /** The first `need` eligible bits of a column, or all of them when there are
      fewer. */
  function Take(col: seq<SBit>, need: nat, t0: real, delay: real, period: real): (r: seq<nat>)
    ensures FirstEligible(col, need, t0, delay, period, r)
  {
    TakeFrom(col, need, t0, delay, period, 0, [])
  }

  /** On a column of free bits the written loop takes the same bits. */
  lemma {:induction false} TakeAgrees(col: seq<SBit>, need: nat, t0: real, delay: real, period: real, idx: nat, got: seq<nat>)
    requires idx <= |col| && |got| <= need && Increasing(got)
    requires forall k :: 0 <= k < |got| ==> got[k] < idx && Eligible(col[got[k]], t0, delay, period)
    requires |got| == CountEligible(col, idx, t0, delay, period)
    requires forall e :: 0 <= e < idx && Eligible(col[e], t0, delay, period) ==> e in got
    requires forall k :: idx <= k < |col| ==> col[k].state == Free
    ensures TakeAsWritten(col, need, t0, delay, period, idx, got) == Taken(TakeFrom(col, need, t0, delay, period, idx, got))
    decreases |col| - idx
  {
    if |got| < need && idx < |col| {
      if TotalTime(col[idx], period) - t0 <= delay {
        TakeStep(col, need, t0, delay, period, idx, got);
        TakeAgrees(col, need, t0, delay, period, idx + 1, got + [idx]);
      } else {
        SkipStep(col, need, t0, delay, period, idx, got);
        TakeAgrees(col, need, t0, delay, period, idx + 1, got);
      }
    }
  }

  /** The places of the bits taken from one column. */
  function Places(column: nat, idx: seq<nat>): (ps: seq<Pos>)
    ensures |ps| == |idx| && forall k :: 0 <= k < |idx| ==> ps[k] == Pos(column, idx[k])
  {
    seq(|idx|, k requires 0 <= k < |idx| => Pos(column, idx[k]))
  }

  /** What canApplyCompressor does with an index in range: the bits it returns, or
      one of the two things the code does not survive. */
  datatype CanApply = Bits(at: seq<Pos>) | ReadsPastCatalog | LoopsForever(col: nat, idx: nat)

  /** canApplyCompressor as written: the guard on the compressor index lets the
      index one past the end through, and a bit that is not free stops the column
      scan for good. */
  function CanApplyCompressorAsWritten(h: SHeap, column: nat, n: nat, soonest: SBit, delay: real, period: real)
    : (r: Result<CanApply>)
    ensures r.Fatal? <==> n > |StrategyCatalog()|
    ensures r == Ok(ReadsPastCatalog) <==> n == |StrategyCatalog()|
  {
    var cat := StrategyCatalog();
    if n > |cat| then Fatal("Compressor index out of range")
    else if n == |cat| then Ok(ReadsPastCatalog)
    else
      var c := cat[n];
      var t0 := TotalTime(soonest, period);
      if 2 + column >= |h.bits| then Ok(Bits([]))
      else match TakeAsWritten(h.bits[column], c.col0, t0, delay, period, 0, [])
        case Stuck(k) => Ok(LoopsForever(column, k))
        case Taken(a) =>
          if |a| < c.col0 then Ok(Bits([]))
          else match TakeAsWritten(h.bits[column + 1], c.col1, t0, delay, period, 0, [])
            case Stuck(k) => Ok(LoopsForever(column + 1, k))
            case Taken(b) => if |b| < c.col1 then Ok(Bits([])) else Ok(Bits(Places(column, a) + Places(column + 1, b)))
  }

  /** canApplyCompressor with the guard rejecting every index past the catalog and
      the scan moving past bits that are not free: the bits to compress, or nothing
      when the compressor cannot be applied at this column. */
  function CanApplyCompressor(h: SHeap, column: nat, n: nat, soonest: SBit, delay: real, period: real)
    : (r: Result<seq<Pos>>)
    ensures r.Fatal? <==> n >= |StrategyCatalog()|
  {
    var cat := StrategyCatalog();
    if n >= |cat| then Fatal("Compressor index out of range")
    else
      var c := cat[n];
      var t0 := TotalTime(soonest, period);
      if 2 + column >= |h.bits| then Ok([])
      else
        var a := Take(h.bits[column], c.col0, t0, delay, period);
        var b := Take(h.bits[column + 1], c.col1, t0, delay, period);
        if |a| < c.col0 || |b| < c.col1 then Ok([]) else Ok(Places(column, a) + Places(column + 1, b))
  }

  /** What canApplyCompressor returns, in terms of the heap: nothing exactly when a
      column lacks eligible bits (or the compressor would reach past the heap), and
      otherwise col0 distinct eligible bits of the column and col1 of the next. */
  lemma CanApplyMeaning(h: SHeap, column: nat, n: nat, soonest: SBit, delay: real, period: real)
    requires n < |StrategyCatalog()|
    ensures var r := CanApplyCompressor(h, column, n, soonest, delay, period);
            var c := StrategyCatalog()[n];
            var t0 := TotalTime(soonest, period);
            r.Ok? &&
            (r.value == [] <==>
               2 + column >= |h.bits| ||
               CountEligible(h.bits[column], |h.bits[column]|, t0, delay, period) < c.col0 ||
               CountEligible(h.bits[column + 1], |h.bits[column + 1]|, t0, delay, period) < c.col1) &&
            (r.value != [] ==>
               2 + column < |h.bits| && |r.value| == c.col0 + c.col1 &&
               (forall k :: 0 <= k < |r.value| ==>
                  r.value[k].col == (if k < c.col0 then column else column + 1) &&
                  Exists(h.bits, r.value[k]) && Eligible(At(h.bits, r.value[k]), t0, delay, period)) &&
               (forall a, b :: 0 <= a < b < |r.value| ==> r.value[a] != r.value[b]))
  {
    var c := StrategyCatalog()[n];
    assert c in StrategyCatalog();
    var r := CanApplyCompressor(h, column, n, soonest, delay, period);
    if r.value != [] {
      var t0 := TotalTime(soonest, period);
      var a := Take(h.bits[column], c.col0, t0, delay, period);
      var b := Take(h.bits[column + 1], c.col1, t0, delay, period);
      assert r.value == Places(column, a) + Places(column + 1, b);
      forall i, j | 0 <= i < j < |r.value|
        ensures r.value[i] != r.value[j]
      {
        if j < |a| {
          assert a[i] < a[j];
        } else if i >= |a| {
          assert b[i - |a|] < b[j - |a|];
        }
      }
    }
  }

  /** A longer delay never takes away a compressor that applies. */
  lemma CanApplyWidens(h: SHeap, column: nat, n: nat, soonest: SBit, d: real, d': real, period: real)
    requires n < |StrategyCatalog()| && d <= d'
    requires CanApplyCompressor(h, column, n, soonest, d, period) != Ok([])
    ensures CanApplyCompressor(h, column, n, soonest, d', period) != Ok([])
  {
    CanApplyMeaning(h, column, n, soonest, d, period);
    CanApplyMeaning(h, column, n, soonest, d', period);
    if 2 + column < |h.bits| {
      var t0 := TotalTime(soonest, period);
      CountEligibleWidens(h.bits[column], |h.bits[column]|, t0, d, d', period);
      CountEligibleWidens(h.bits[column + 1], |h.bits[column + 1]|, t0, d, d', period);
    }
  }

  predicate AllFree(col: seq<SBit>)
  {
    forall k :: 0 <= k < |col| ==> col[k].state == Free
  }

  /** When the two columns hold only free bits, the written canApplyCompressor
      returns what the corrected one does. */
  lemma CanApplyAgrees(h: SHeap, column: nat, n: nat, soonest: SBit, delay: real, period: real)
    requires n < |StrategyCatalog()| && 2 + column < |h.bits|
    requires AllFree(h.bits[column]) && AllFree(h.bits[column + 1])
    ensures CanApplyCompressorAsWritten(h, column, n, soonest, delay, period) ==
            Ok(Bits(CanApplyCompressor(h, column, n, soonest, delay, period).value))
  {
    var c := StrategyCatalog()[n];
    var t0 := TotalTime(soonest, period);
    TakeAgrees(h.bits[column], c.col0, t0, delay, period, 0, []);
    TakeAgrees(h.bits[column + 1], c.col1, t0, delay, period, 0, []);
  }

  /** The two defects of the written canApplyCompressor on concrete inputs: index 7
      of a seven-entry catalog passes the guard, and a compressed bit at the front of
      a column is read forever. */
  lemma CanApplyAsWrittenCounterexample()
    ensures var h := SHeap(0, 2, [[SBit(0, 0.0, Compressed)], [], []]);
            var s := SBit(0, 0.0, Free);
            CanApplyCompressorAsWritten(h, 0, 7, s, 1.0, 1.0) == Ok(ReadsPastCatalog) &&
            CanApplyCompressor(h, 0, 7, s, 1.0, 1.0).Fatal? &&
            CanApplyCompressorAsWritten(h, 0, 6, s, 1.0, 1.0) == Ok(LoopsForever(0, 0)) &&
            CanApplyCompressor(h, 0, 6, s, 1.0, 1.0) == Ok([])
  {
    var h := SHeap(0, 2, [[SBit(0, 0.0, Compressed)], [], []]);
    var s := SBit(0, 0.0, Free);
    CanApplyMeaning(h, 0, 6, s, 1.0, 1.0);
    assert StrategyCatalog()[6].col0 == 3;
  }

  // ---------------------------------------------------------------------------
  // applyCompressor and removeCompressedBits
  // ---------------------------------------------------------------------------

  /** The number of free bits of a column, and of the heap. */
  function ColFree(col: seq<SBit>): (n: nat)
    ensures n <= |col|
  {
    if |col| == 0 then 0 else ColFree(col[..|col| - 1]) + (if col[|col| - 1].state == Free then 1 else 0)
  }

  function FreeCount(bits: seq<seq<SBit>>): nat
  {
    if |bits| == 0 then 0 else FreeCount(bits[..|bits| - 1]) + ColFree(bits[|bits| - 1])
  }

  function FreeBit(b: SBit): nat
  {
    if b.state == Free then 1 else 0
  }

  lemma {:induction false} ColFreeUpdate(col: seq<SBit>, i: nat, b: SBit)
    requires i < |col|
    ensures ColFree(col[i := b]) + FreeBit(col[i]) == ColFree(col) + FreeBit(b)
  {
    var n := |col| - 1;
    if i < n {
      assert col[i := b][..n] == col[..n][i := b];
      ColFreeUpdate(col[..n], i, b);
    } else {
      assert col[i := b][..n] == col[..n];
    }
  }

  lemma ColFreeAppend(col: seq<SBit>, b: SBit)
    ensures ColFree(col + [b]) == ColFree(col) + FreeBit(b)
  {
    assert (col + [b])[..|col|] == col;
  }

  lemma {:induction false} FreeCountUpdate(bits: seq<seq<SBit>>, c: nat, col: seq<SBit>)
    requires c < |bits|
    ensures FreeCount(bits[c := col]) + ColFree(bits[c]) == FreeCount(bits) + ColFree(col)
  {
    var n := |bits| - 1;
    if c < n {
      assert bits[c := col][..n] == bits[..n][c := col];
      FreeCountUpdate(bits[..n], c, col);
    } else {
      assert bits[c := col][..n] == bits[..n];
    }
  }

  /** Heaps whose columns hold as many free bits each hold as many free bits. */
  lemma {:induction false} FreeCountPointwise(a: seq<seq<SBit>>, b: seq<seq<SBit>>)
    requires |a| == |b| && forall k :: 0 <= k < |a| ==> ColFree(a[k]) == ColFree(b[k])
    ensures FreeCount(a) == FreeCount(b)
  {
    if |a| != 0 {
      FreeCountPointwise(a[..|a| - 1], b[..|b| - 1]);
    }
  }

  /** The heap with the bit at p marked compressed. */
  function MarkOne(bits: seq<seq<SBit>>, p: Pos): (r: seq<seq<SBit>>)
    requires Exists(bits, p)
    ensures |r| == |bits| && forall k :: 0 <= k < |bits| ==> |r[k]| == |bits[k]|
    ensures forall q :: Exists(bits, q) ==>
              At(r, q) == if q == p then At(bits, p).(state := Compressed) else At(bits, q)
  {
    bits[p.col := bits[p.col][p.idx := At(bits, p).(state := Compressed)]]
  }

  lemma MarkOneCount(bits: seq<seq<SBit>>, p: Pos)
    requires FreeAt(bits, p)
    ensures FreeCount(MarkOne(bits, p)) + 1 == FreeCount(bits)
  {
    var col := bits[p.col][p.idx := At(bits, p).(state := Compressed)];
    ColFreeUpdate(bits[p.col], p.idx, At(bits, p).(state := Compressed));
    FreeCountUpdate(bits, p.col, col);
  }

  /** The heap with every bit at ps marked compressed. */
  function Mark(bits: seq<seq<SBit>>, ps: seq<Pos>): (r: seq<seq<SBit>>)
    requires forall k :: 0 <= k < |ps| ==> Exists(bits, ps[k])
    ensures |r| == |bits| && forall k :: 0 <= k < |bits| ==> |r[k]| == |bits[k]|
    ensures forall q :: Exists(bits, q) ==>
              At(r, q) == if q in ps then At(bits, q).(state := Compressed) else At(bits, q)
  {
    if |ps| == 0 then bits
    else
      var n := |ps| - 1;
      assert forall q :: q in ps <==> q in ps[..n] || q == ps[n];
      MarkOne(Mark(bits, ps[..n]), ps[n])
  }

  /** Marking distinct free bits takes exactly that many free bits away. */
  lemma {:induction false} MarkCount(bits: seq<seq<SBit>>, ps: seq<Pos>)
    requires forall k :: 0 <= k < |ps| ==> Exists(bits, ps[k]) && At(bits, ps[k]).state == Free
    requires forall a, b :: 0 <= a < b < |ps| ==> ps[a] != ps[b]
    ensures FreeCount(Mark(bits, ps)) + |ps| == FreeCount(bits)
  {
    if |ps| != 0 {
      var n := |ps| - 1;
      MarkCount(bits, ps[..n]);
      assert ps[n] !in ps[..n];
      MarkOneCount(Mark(bits, ps[..n]), ps[n]);
    }
  }

  /** The heap with bit b appended to columns w..w+o-1. */
  function AddOutputs(bits: seq<seq<SBit>>, w: nat, o: nat, b: SBit): (r: seq<seq<SBit>>)
    ensures |r| == |bits| && forall k :: 0 <= k < |bits| ==> r[k] == if w <= k < w + o then bits[k] + [b] else bits[k]
  {
    seq(|bits|, k requires 0 <= k < |bits| => if w <= k < w + o then bits[k] + [b] else bits[k])
  }

  /** How many of the columns w..w+o-1 exist in a heap of n columns. */
  function Overlap(w: nat, o: nat, n: nat): nat
  {
    if n <= w then 0 else if n <= w + o then n - w else o
  }

  lemma {:induction false} AddOutputsCount(bits: seq<seq<SBit>>, w: nat, o: nat, b: SBit)
    requires b.state == Free
    ensures FreeCount(AddOutputs(bits, w, o, b)) == FreeCount(bits) + Overlap(w, o, |bits|)
  {
    if |bits| != 0 {
      var n := |bits| - 1;
      AddOutputsPrefix(bits, w, o, b);
      AddOutputsCount(bits[..n], w, o, b);
      ColFreeAppend(bits[n], b);
    }
  }

  lemma AddOutputsPrefix(bits: seq<seq<SBit>>, w: nat, o: nat, b: SBit)
    requires |bits| != 0
    ensures AddOutputs(bits, w, o, b)[..|bits| - 1] == AddOutputs(bits[..|bits| - 1], w, o, b)
  {
  }

  /** applyCompressor, given the bits canApplyCompressor chose: they are marked
      compressed and the compressor's outputs, free bits stamped by the target,
      join the columns from `weight` up. */
  function ApplyCompressor(h: SHeap, ps: seq<Pos>, c: Compressor, weight: nat, stamp: (int, real)): (r: SHeap)
    requires forall k :: 0 <= k < |ps| ==> Exists(h.bits, ps[k])
    ensures r.lsb == h.lsb && r.msb == h.msb && |r.bits| == |h.bits|
  {
    h.(bits := AddOutputs(Mark(h.bits, ps), weight, OutputSize(c), SBit(stamp.0, stamp.1, Free)))
  }

  /** A compressor applied where canApplyCompressor allows it leaves fewer free bits:
      it takes col0 + col1 of them and gives back fewer outputs. */
  lemma ApplyShrinks(h: SHeap, column: nat, n: nat, soonest: SBit, delay: real, period: real, stamp: (int, real))
    requires n < |StrategyCatalog()|
    requires CanApplyCompressor(h, column, n, soonest, delay, period).Ok?
    requires CanApplyCompressor(h, column, n, soonest, delay, period).value != []
    ensures var ps := CanApplyCompressor(h, column, n, soonest, delay, period).value;
            (forall k :: 0 <= k < |ps| ==> Exists(h.bits, ps[k])) &&
            FreeCount(ApplyCompressor(h, ps, StrategyCatalog()[n], column, stamp).bits) < FreeCount(h.bits)
  {
    var c := StrategyCatalog()[n];
    var ps := CanApplyCompressor(h, column, n, soonest, delay, period).value;
    CanApplyMeaning(h, column, n, soonest, delay, period);
    assert c in StrategyCatalog();
    CatalogSecondColumn(6, c);
    WorkableCompresses(6, c);
    assert forall k :: 0 <= k < |ps| ==> FreeAt(h.bits, ps[k]);
    MarkCount(h.bits, ps);
    var m := Mark(h.bits, ps);
    AddOutputsCount(m, column, OutputSize(c), SBit(stamp.0, stamp.1, Free));
  }

  /** removeCompressedBits: each column without its compressed bits. */
  function Keep(col: seq<SBit>): (r: seq<SBit>)
    ensures ColFree(r) == ColFree(col) && |r| <= |col|
  {
    if |col| == 0 then []
    else
      var n := |col| - 1;
      var k := Keep(col[..n]);
      KeepStep(col, k);
      k + (if col[n].state == Compressed then [] else [col[n]])
  }

  lemma KeepStep(col: seq<SBit>, k: seq<SBit>)
    requires |col| != 0 && ColFree(k) == ColFree(col[..|col| - 1])
    ensures ColFree(k + (if col[|col| - 1].state == Compressed then [] else [col[|col| - 1]])) == ColFree(col)
  {
    var n := |col| - 1;
    ColFreeAppend(k, col[n]);
    assert k + [] == k;
  }

  /** Exactly the bits that are not compressed survive. */
  lemma {:induction false} KeepMembers(col: seq<SBit>)
    ensures forall b :: b in Keep(col) <==> b in col && b.state != Compressed
  {
    if |col| != 0 {
      var n := |col| - 1;
      KeepMembers(col[..n]);
      assert col == col[..n] + [col[n]];
    }
  }

  /** A column without compressed bits is kept whole. */
  lemma {:induction false} KeepClean(col: seq<SBit>)
    requires forall j :: 0 <= j < |col| ==> col[j].state != Compressed
    ensures Keep(col) == col
  {
    if |col| != 0 {
      var n := |col| - 1;
      KeepClean(col[..n]);
      assert col == col[..n] + [col[n]];
    }
  }

  function RemoveCompressedBits(h: SHeap): (r: SHeap)
    ensures r.lsb == h.lsb && r.msb == h.msb && |r.bits| == |h.bits|
    ensures forall k, b :: 0 <= k < |r.bits| && b in r.bits[k] ==> b.state != Compressed
    ensures forall k, b :: 0 <= k < |h.bits| && b in h.bits[k] && b.state != Compressed ==> b in r.bits[k]
    ensures FreeCount(r.bits) == FreeCount(h.bits)
  {
    var r := h.(bits := seq(|h.bits|, k requires 0 <= k < |h.bits| => Keep(h.bits[k])));
    forall k | 0 <= k < |h.bits| {
      KeepMembers(h.bits[k]);
    }
    FreeCountPointwise(r.bits, h.bits);
    r
  }

  /** Removing compressed bits twice removes nothing more. */
  lemma RemoveCompressedIdempotent(h: SHeap)
    ensures RemoveCompressedBits(RemoveCompressedBits(h)) == RemoveCompressedBits(h)
  {
    var r := RemoveCompressedBits(h);
    forall k | 0 <= k < |r.bits|
      ensures Keep(r.bits[k]) == r.bits[k]
    {
      assert forall j :: 0 <= j < |r.bits[k]| ==> r.bits[k][j] in r.bits[k];
      KeepClean(r.bits[k]);
    }
  }

  // ---------------------------------------------------------------------------
  // compress and startCompression
  // ---------------------------------------------------------------------------

  /** The (cycle, critical path) stamp the target gives the outputs of compressor
      n applied at a column: the target's timing model is a parameter. */
  type Stamper = (nat, nat) -> (int, real)

  /** No compressor from index i on, at no column from j on (in the scan order of
      compress), finds bits to compress. */
  predicate NothingApplies(h: SHeap, s: SBit, delay: real, period: real, i: nat, j: nat)
  {
    forall n: nat, col: nat :: i <= n < |StrategyCatalog()| && col < |h.bits| && (n > i || col >= j) ==>
      CanApplyCompressor(h, col, n, s, delay, period) == Ok([])
  }

  /** The two loops of compress from compressor i, column j: a compressor is
      applied at a column for as long as canApplyCompressor finds bits for it, then
      the scan moves to the next column, and after the last column to the next
      compressor. Every application takes free bits away, which bounds the loop. */
  function Round(h: SHeap, s: SBit, delay: real, period: real, stamp: Stamper, i: nat, j: nat, performed: bool)
    : (r: (SHeap, bool))
    ensures r.0.lsb == h.lsb && r.0.msb == h.msb && |r.0.bits| == |h.bits|
    ensures r.1 == (performed || r.0 != h)
    ensures r.0 == h || FreeCount(r.0.bits) < FreeCount(h.bits)
    ensures r.0 == h ==> NothingApplies(h, s, delay, period, i, j)
    ensures NothingApplies(h, s, delay, period, i, j) ==> r == (h, performed)
    decreases FreeCount(h.bits), |StrategyCatalog()| - i, |h.bits| - j
  {
    var cat := StrategyCatalog();
    if i >= |cat| then (h, performed)
    else if j >= |h.bits| then
      NextCompressor(h, s, delay, period, i);
      Round(h, s, delay, period, stamp, i + 1, 0, performed)
    else
      var ps := CanApplyCompressor(h, j, i, s, delay, period).value;
      if ps == [] then
        NextColumn(h, s, delay, period, i, j);
        Round(h, s, delay, period, stamp, i, j + 1, performed)
      else
        ApplyShrinks(h, j, i, s, delay, period, stamp(i, j));
        var h' := ApplyCompressor(h, ps, cat[i], j, stamp(i, j));
        assert !NothingApplies(h, s, delay, period, i, j) by {
          assert CanApplyCompressor(h, j, i, s, delay, period) != Ok([]);
        }
        Round(h', s, delay, period, stamp, i, j, true)
  }

  lemma NextCompressor(h: SHeap, s: SBit, delay: real, period: real, i: nat)
    ensures NothingApplies(h, s, delay, period, i, |h.bits|) <==> NothingApplies(h, s, delay, period, i + 1, 0)
  {
  }

  lemma NextColumn(h: SHeap, s: SBit, delay: real, period: real, i: nat, j: nat)
    ensures NothingApplies(h, s, delay, period, i, j) <==>
            ((i < |StrategyCatalog()| && j < |h.bits| ==> CanApplyCompressor(h, j, i, s, delay, period) == Ok([])) &&
             NothingApplies(h, s, delay, period, i, j + 1))
  {
    var here := i < |StrategyCatalog()| && j < |h.bits| ==> CanApplyCompressor(h, j, i, s, delay, period) == Ok([]);
    if here && NothingApplies(h, s, delay, period, i, j + 1) {
      forall n: nat, col: nat | i <= n < |StrategyCatalog()| && col < |h.bits| && (n > i || col >= j)
        ensures CanApplyCompressor(h, col, n, s, delay, period) == Ok([])
      {
        if n != i || col != j {
          assert n > i || col >= j + 1;
        }
      }
    }
    if NothingApplies(h, s, delay, period, i, j) {
      forall n: nat, col: nat | i <= n < |StrategyCatalog()| && col < |h.bits| && (n > i || col >= j + 1)
        ensures CanApplyCompressor(h, col, n, s, delay, period) == Ok([])
      {
      }
      if i < |StrategyCatalog()| && j < |h.bits| {
        assert CanApplyCompressor(h, j, i, s, delay, period) == Ok([]);
      }
    }
  }

  /** compress(delay): fatal on a heap without columns (the last column index,
      size - 1, wraps around); no compression when the heap holds no free bit;
      otherwise the compressors applied around the soonest free bit. */
  function Compress(h: SHeap, delay: real, period: real, stamp: Stamper): (r: Result<(SHeap, bool)>)
    ensures r.Fatal? <==> |h.bits| == 0 || h.lsb > 0 || |h.bits| - 1 > h.msb
    ensures r.Ok? ==> r.value.0.lsb == h.lsb && r.value.0.msb == h.msb && |r.value.0.bits| == |h.bits|
    ensures r.Ok? ==> (r.value.1 <==> r.value.0 != h)
    ensures r.Ok? && r.value.1 ==> FreeCount(r.value.0.bits) < FreeCount(h.bits)
    ensures r.Ok? ==> (r.value.1 <==> !Idle(h, delay, period))
  {
    if |h.bits| == 0 then Fatal("the heap has no column")
    else
      var s :- GetSoonestBit(h, 0, |h.bits| - 1);
      if s.None? then Ok((h, false))
      else Ok(Round(h, At(h.bits, s.value), delay, period, stamp, 0, 0, false))
  }

  /** compress has nothing to do within a delay: the heap holds no free bit, or no
      compressor finds bits around its soonest free bit. */
  predicate Idle(h: SHeap, delay: real, period: real)
  {
    |h.bits| == 0 ||
    var s := GetSoonestBit(h, 0, |h.bits| - 1);
    s.Fatal? || s.value.None? || NothingApplies(h, At(h.bits, s.value.value), delay, period, 0, 0)
  }

  /** A wider delay never loses a compression: when compress compresses within a
      delay, it compresses within any wider one. */
  lemma CompressWidens(h: SHeap, d: real, d': real, period: real, stamp: Stamper)
    requires d <= d'
    ensures Compress(h, d, period, stamp).Ok? && Compress(h, d, period, stamp).value.1 ==>
              Compress(h, d', period, stamp).Ok? && Compress(h, d', period, stamp).value.1
  {
    IdleWidens(h, d, d', period);
  }

  lemma IdleWidens(h: SHeap, d: real, d': real, period: real)
    requires d <= d'
    ensures Idle(h, d', period) ==> Idle(h, d, period)
  {
    if |h.bits| != 0 {
      var s := GetSoonestBit(h, 0, |h.bits| - 1);
      if s.Ok? && s.value.Some? {
        NothingAppliesWidens(h, At(h.bits, s.value.value), d, d', period);
      }
    }
  }

  lemma NothingAppliesWidens(h: SHeap, s: SBit, d: real, d': real, period: real)
    requires d <= d'
    ensures NothingApplies(h, s, d', period, 0, 0) ==> NothingApplies(h, s, d, period, 0, 0)
  {
    if !NothingApplies(h, s, d, period, 0, 0) {
      var n: nat, col: nat :| n < |StrategyCatalog()| && col < |h.bits| &&
                              CanApplyCompressor(h, col, n, s, d, period) != Ok([]);
      CanApplyWidens(h, col, n, s, d, d', period);
    }
  }

  /** The delay after a round without compression: the first one widens it from a
      compressor's delay to one clock period, the later ones add a period each. */
  function NextDelay(delay: real, compressionDelay: real, period: real): real
  {
    if delay == compressionDelay then period else delay + period
  }

  /** The delay after k rounds in a row without compression. */
  function Delays(compressionDelay: real, period: real, k: nat): real
  {
    if k == 0 then compressionDelay else NextDelay(Delays(compressionDelay, period, k - 1), compressionDelay, period)
  }

  /** With a compressor faster than a clock period, k failed rounds widen the
      delay to k periods, so it grows without bound. */
  lemma {:induction false} DelaySchedule(compressionDelay: real, period: real, k: nat)
    requires 0.0 < compressionDelay < period
    ensures k >= 1 ==> Delays(compressionDelay, period, k) == k as real * period
    ensures k >= 1 ==> Delays(compressionDelay, period, k) >= period
  {
    if k >= 2 {
      DelaySchedule(compressionDelay, period, k - 1);
      assert (k - 1) as real * period + period == k as real * period;
    }
  }

  datatype Run = Done(heap: SHeap, delay: real) | OutOfFuel | Failed(msg: string)

  /** The loop of startCompression: while the heap needs compressing, compress,
      remove the compressed bits, and widen the delay after a round without
      compression. `passDelay` says whether compress works with the loop's delay
      or, as the source does, with the fixed compressor delay. The heap's
      compressionRequired test is a parameter; fuel bounds the rounds. */
  function Rounds(h: SHeap, delay: real, compressionDelay: real, period: real, required: SHeap -> bool,
                  stamp: Stamper, passDelay: bool, fuel: nat): (r: Run)
    ensures r.Done? ==> !required(r.heap) && FreeCount(r.heap.bits) <= FreeCount(h.bits)
    ensures r.Done? ==> |r.heap.bits| == |h.bits| && r.heap.lsb == h.lsb && r.heap.msb == h.msb
    decreases fuel
  {
    if !required(h) then Done(h, delay)
    else if fuel == 0 then OutOfFuel
    else
      match Turn(h, if passDelay then delay else compressionDelay, period, stamp)
      case Fatal(m) => Failed(m)
      case Ok((h', performed)) =>
        Rounds(h', if performed then delay else NextDelay(delay, compressionDelay, period),
               compressionDelay, period, required, stamp, passDelay, fuel - 1)
  }

  /** One turn of the loop: compress within a delay, then remove the compressed
      bits. */
  function Turn(h: SHeap, delay: real, period: real, stamp: Stamper): (r: Result<(SHeap, bool)>)
    ensures r.Ok? ==> FreeCount(r.value.0.bits) <= FreeCount(h.bits)
    ensures r.Ok? ==> |r.value.0.bits| == |h.bits| && r.value.0.lsb == h.lsb && r.value.0.msb == h.msb
  {
    var c :- Compress(h, delay, period, stamp);
    Ok((RemoveCompressedBits(c.0), c.1))
  }

  /** startCompression as written: compress is handed the loop's delay but works
      with the compressor delay. The test on isCompressed is left out: when it
      skips the loop, the loop would not have run either. */
  function StartCompressionAsWritten(h: SHeap, compressionDelay: real, period: real, required: SHeap -> bool,
                                     stamp: Stamper, fuel: nat): (r: Run)
    ensures r.Done? ==> !required(r.heap)
  {
    Rounds(h, compressionDelay, compressionDelay, period, required, stamp, false, fuel)
  }

  /** startCompression with compress working with the delay it is handed. */
  function StartCompression(h: SHeap, compressionDelay: real, period: real, required: SHeap -> bool,
                            stamp: Stamper, fuel: nat): (r: Run)
    ensures r.Done? ==> !required(r.heap) && FreeCount(r.heap.bits) <= FreeCount(h.bits)
  {
    Rounds(h, compressionDelay, compressionDelay, period, required, stamp, true, fuel)
  }

  /** As written, a round that compresses nothing on a heap that still needs
      compressing repeats forever: the widened delay never reaches compress. */
  lemma {:induction false} StallAsWritten(h: SHeap, delay: real, compressionDelay: real, period: real,
                                          required: SHeap -> bool, stamp: Stamper, fuel: nat)
    requires required(h)
    requires Turn(h, compressionDelay, period, stamp) == Ok((h, false))
    ensures Rounds(h, delay, compressionDelay, period, required, stamp, false, fuel) == OutOfFuel
    decreases fuel
  {
    if fuel > 0 {
      IdleRound(h, delay, compressionDelay, period, required, stamp, fuel);
      StallAsWritten(h, NextDelay(delay, compressionDelay, period), compressionDelay, period, required, stamp, fuel - 1);
    } else {
      NoFuel(h, delay, compressionDelay, period, required, stamp);
    }
  }

  /** Without fuel, a heap that needs compressing runs out of it. */
  lemma NoFuel(h: SHeap, delay: real, compressionDelay: real, period: real,
               required: SHeap -> bool, stamp: Stamper)
    requires required(h)
    ensures Rounds(h, delay, compressionDelay, period, required, stamp, false, 0) == OutOfFuel
  {
  }

  /** A round of the loop as written that leaves the heap as it was only widens
      the delay. */
  lemma IdleRound(h: SHeap, delay: real, compressionDelay: real, period: real,
                  required: SHeap -> bool, stamp: Stamper, fuel: nat)
    requires required(h) && fuel > 0
    requires Turn(h, compressionDelay, period, stamp) == Ok((h, false))
    ensures Rounds(h, delay, compressionDelay, period, required, stamp, false, fuel) ==
            Rounds(h, NextDelay(delay, compressionDelay, period), compressionDelay, period, required, stamp, false, fuel - 1)
  {
  }

  /** A heap of three columns whose first column holds a bit of cycle 0 and two
      bits of cycle 1, with a compressor delay of half a period. */
  function StallHeap(): SHeap
  {
    SHeap(0, 2, [[SBit(0, 0.0, Free), SBit(1, 0.0, Free), SBit(1, 0.0, Free)], [], []])
  }

  /** On that heap no compressor applies within the compressor delay, but the full
      adder applies within one period. The loop as written hands the widened delay
      to nobody and never ends; with compress using the delay it is handed, the
      second round compresses. */
  lemma StallCounterexample(required: SHeap -> bool, stamp: Stamper, fuel: nat)
    requires required(StallHeap())
    ensures Compress(StallHeap(), 0.5, 1.0, stamp) == Ok((StallHeap(), false))
    ensures Compress(StallHeap(), 1.0, 1.0, stamp).Ok? && Compress(StallHeap(), 1.0, 1.0, stamp).value.1
    ensures StartCompressionAsWritten(StallHeap(), 0.5, 1.0, required, stamp, fuel) == OutOfFuel
    ensures fuel >= 1 ==>
              StartCompression(StallHeap(), 0.5, 1.0, required, stamp, fuel) ==
              Rounds(StallHeap(), 1.0, 0.5, 1.0, required, stamp, true, fuel - 1)
  {
    var h := StallHeap();
    StallSoonest();
    StallWithinDelay();
    StallWithinPeriod();
    StallClean();
    assert Turn(h, 0.5, 1.0, stamp) == Ok((h, false));
    StallAsWritten(h, 0.5, 0.5, 1.0, required, stamp, fuel);
  }

  /** The soonest free bit of the heap is the first one. */
  lemma StallSoonest()
    ensures GetSoonestBit(StallHeap(), 0, 2) == Ok(Some(Pos(0, 0)))
  {
    var h := StallHeap();
    var sb := GetSoonestBit(h, 0, 2);
    assert InColumns(h.bits, Pos(0, 0), 0, 2) && FreeAt(h.bits, Pos(0, 0));
    var p := sb.value.value;
    assert p.col == 0 && p.idx < 3;
    assert NoLater(At(h.bits, p), SBit(0, 0.0, Free));
  }

  /** Within half a period of the first bit only that bit is eligible, and every
      compressor needs three. */
  lemma StallWithinDelay()
    ensures NothingApplies(StallHeap(), SBit(0, 0.0, Free), 0.5, 1.0, 0, 0)
  {
    var h := StallHeap();
    var a := SBit(0, 0.0, Free);
    assert CountEligible(h.bits[0], 3, 0.0, 0.5, 1.0) == 1;
    forall n: nat, c: nat | n < |StrategyCatalog()| && c < |h.bits|
      ensures CanApplyCompressor(h, c, n, a, 0.5, 1.0) == Ok([])
    {
      CanApplyMeaning(h, c, n, a, 0.5, 1.0);
      assert StrategyCatalog()[n] in StrategyCatalog();
    }
  }

  /** Within one period all three bits are eligible and the full adder applies. */
  lemma StallWithinPeriod()
    ensures !NothingApplies(StallHeap(), SBit(0, 0.0, Free), 1.0, 1.0, 0, 0)
  {
    var h := StallHeap();
    var a := SBit(0, 0.0, Free);
    assert CountEligible(h.bits[0], 3, 0.0, 1.0, 1.0) == 3;
    CanApplyMeaning(h, 0, 6, a, 1.0, 1.0);
    assert CanApplyCompressor(h, 0, 6, a, 1.0, 1.0) != Ok([]);
  }

  /** The heap holds no compressed bit. */
  lemma StallClean()
    ensures RemoveCompressedBits(StallHeap()) == StallHeap()
  {
    var h := StallHeap();
    KeepClean(h.bits[0]);
    KeepClean(h.bits[1]);
    KeepClean(h.bits[2]);
    assert RemoveCompressedBits(h).bits == h.bits;
  }
}
