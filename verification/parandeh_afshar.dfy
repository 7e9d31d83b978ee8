/** The Parandeh-Afshar compression strategy
    (src/BitHeap/ParandehAfsharCompressionStrategy.cpp). It works on bitAmount, the
    number of bits of each column at each stage: within a stage it keeps placing a
    compressor at the tallest column where one compresses efficiently, then carries
    the bits left over to the next stage, until the next stage is ready for the
    final adder. The efficiency of a compressor at a place, the placement itself
    and the test for the final adder belong to the base strategy, which is not part
    of this model: they are parameters. */
module ParandehAfshar {
  import opened Wrappers

  /** bitAmount[s][c]: the number of bits of column c at stage s. */
  type Amounts = seq<seq<int>>

  /** The margin by which one efficiency must beat another to count as better. */
  const Eps: real := 0.0001

  // ---------------------------------------------------------------------------
  // ParandehAfsharSearch
  // ---------------------------------------------------------------------------

  /** getCompressionEfficiency at the current stage: compressor i placed with its
      first column at the given column. */
  type Efficiency = (int, nat) -> real

  /** The first column of the right placement of a compressor `height` columns wide,
      which ends at `column`. */
  function RightStart(column: nat, height: nat): int
  {
    column - (height - 1)
  }

  /** The efficiency of the right placement, -1 when it would start below column 0. */
  function RightEff(e: Efficiency, heights: seq<nat>, column: nat, i: nat): real
    requires i < |heights|
  {
    var start := RightStart(column, heights[i]);
    if start >= 0 then e(start, i) else -1.0
  }

  /** Compressor i succeeds on the left: efficient, and the right placement is not
      better by more than the margin. */
  predicate LeftWins(e: Efficiency, heights: seq<nat>, column: nat, i: nat)
    requires i < |heights|
  {
    e(column, i) > Eps && RightEff(e, heights, column, i) <= e(column, i) + Eps
  }

  /** Compressor i succeeds on the right. */
  predicate RightWins(e: Efficiency, heights: seq<nat>, column: nat, i: nat)
    requires i < |heights|
  {
    !LeftWins(e, heights, column, i) && RightEff(e, heights, column, i) > Eps
  }

  /** What compressor i offers the search: the efficiency of the placement it would
      take, -1 when neither placement is efficient. */
  function Gain(e: Efficiency, heights: seq<nat>, column: nat, i: nat): real
    requires i < |heights|
  {
    if LeftWins(e, heights, column, i) then e(column, i)
    else if RightWins(e, heights, column, i) then RightEff(e, heights, column, i)
    else -1.0
  }

  /** The column compressor i would be placed at. */
  function Placement(e: Efficiency, heights: seq<nat>, column: nat, i: nat): int
    requires i < |heights|
  {
    if LeftWins(e, heights, column, i) then column else RightStart(column, heights[i])
  }

  /** A compressor succeeds exactly when one of its placements is efficient. */
  lemma SucceedsIff(e: Efficiency, heights: seq<nat>, column: nat, i: nat)
    requires i < |heights|
    ensures Gain(e, heights, column, i) > Eps <==>
            e(column, i) > Eps || (RightStart(column, heights[i]) >= 0 && e(RightStart(column, heights[i]), i) > Eps)
    ensures Gain(e, heights, column, i) > Eps ==> Placement(e, heights, column, i) >= 0
  {
  }

  /** The state of the search loop: the chosen compressor (None for the null
      pointer), its column, its efficiency, and whether any compressor succeeded. */
  datatype SearchState = SearchState(compressor: Option<nat>, column: int, best: real, found: bool)

  /** The search loop from compressor i on: a successful compressor replaces the
      best one only when its efficiency is higher by more than the margin. */
  function SearchFrom(e: Efficiency, heights: seq<nat>, column: nat, i: nat, st: SearchState): (r: SearchState)
    requires i <= |heights|
    requires SearchInv(e, heights, column, i, st)
    ensures SearchInv(e, heights, column, |heights|, r)
    decreases |heights| - i
  {
    if i == |heights| then st
    else
      var g := Gain(e, heights, column, i);
      var st' :=
        if g > Eps then
          (if st.best + Eps < g then SearchState(Some(i), Placement(e, heights, column, i), g, true)
           else st.(found := true))
        else st;
      SearchStep(e, heights, column, i, st, st');
      SearchFrom(e, heights, column, i + 1, st')
  }

  /** What the loop keeps after the first i compressors: `found` says whether one of
      them succeeded; then the chosen one is the best found, it beats every earlier
      compressor, and no compressor so far beats it by more than the margin. */
  ghost predicate SearchInv(e: Efficiency, heights: seq<nat>, column: nat, i: nat, st: SearchState)
    requires i <= |heights|
  {
    (st.found <==> exists k :: 0 <= k < i && Gain(e, heights, column, k) > Eps) &&
    (!st.found ==> st == SearchState(None, -1, -1.0, false)) &&
    (st.found ==>
       st.compressor.Some? && st.compressor.value < i &&
       st.best == Gain(e, heights, column, st.compressor.value) &&
       st.column == Placement(e, heights, column, st.compressor.value) &&
       (forall k :: 0 <= k < st.compressor.value ==> Gain(e, heights, column, k) < st.best)) &&
    (forall k :: 0 <= k < i ==> Gain(e, heights, column, k) <= st.best + Eps)
  }

  lemma SearchStep(e: Efficiency, heights: seq<nat>, column: nat, i: nat, st: SearchState, st': SearchState)
    requires i < |heights| && SearchInv(e, heights, column, i, st)
    requires var g := Gain(e, heights, column, i);
             st' == if g > Eps then
                      (if st.best + Eps < g then SearchState(Some(i), Placement(e, heights, column, i), g, true)
                       else st.(found := true))
                    else st
    ensures SearchInv(e, heights, column, i + 1, st')
  {
    var g := Gain(e, heights, column, i);
    if g > Eps {
      assert Gain(e, heights, column, i) > Eps;
    } else {
      assert g == -1.0;
    }
  }

  /** ParandehAfsharSearch(stage, column): the compressor to place and where, or
      (null, -1) when no compressor has an efficient placement. The chosen
      compressor is strictly more efficient than every earlier one and no later one
      beats it by more than the margin, so near-ties go to the earlier entry. */
  function Search(e: Efficiency, heights: seq<nat>, column: nat): (r: (Option<nat>, int))
    ensures r.0.None? <==> forall i :: 0 <= i < |heights| ==> Gain(e, heights, column, i) <= Eps
    ensures r.0.None? ==> r.1 == -1
    ensures r.0.Some? ==>
              var c := r.0.value;
              c < |heights| && Gain(e, heights, column, c) > Eps && r.1 == Placement(e, heights, column, c) && r.1 >= 0 &&
              (forall i :: 0 <= i < c ==> Gain(e, heights, column, i) < Gain(e, heights, column, c)) &&
              (forall i :: c < i < |heights| ==> Gain(e, heights, column, i) <= Gain(e, heights, column, c) + Eps)
  {
    var st := SearchFrom(e, heights, column, 0, SearchState(None, -1, -1.0, false));
    if st.found then
      SucceedsIff(e, heights, column, st.compressor.value);
      (st.compressor, st.column)
    else (None, -1)
  }

  /** The left placement wins whenever the right one is not better by more than the
      margin. */
  lemma SearchPrefersLeft(e: Efficiency, heights: seq<nat>, column: nat)
    requires Search(e, heights, column).0.Some?
    ensures var c := Search(e, heights, column).0.value;
            Search(e, heights, column).1 == column <==>
              (e(column, c) > Eps && RightEff(e, heights, column, c) <= e(column, c) + Eps) ||
              RightStart(column, heights[c]) == column
  {
  }

  /** A compressor that beats every other one by more than the margin is the one
      chosen. */
  lemma SearchPicksClearWinner(e: Efficiency, heights: seq<nat>, column: nat, m: nat)
    requires m < |heights| && Gain(e, heights, column, m) > Eps
    requires forall i :: 0 <= i < |heights| && i != m ==> Gain(e, heights, column, i) + Eps < Gain(e, heights, column, m)
    ensures Search(e, heights, column).0 == Some(m)
  {
    var r := Search(e, heights, column);
    assert r.0.Some?;
    var c := r.0.value;
    assert !(c < m) && !(m < c);
  }

  // ---------------------------------------------------------------------------
  // The column order of a stage
  // ---------------------------------------------------------------------------

  /** The scan for the tallest column not used yet, from column c on, holding the
      best so far: a column replaces it only when strictly taller, and column 0
      with size 0 stands when no unused column holds a bit. */
  function PickFrom(amounts: seq<int>, used: set<nat>, c: nat, cur: nat, maxSize: int): (r: (nat, int))
    requires c <= |amounts|
    requires maxSize >= 0 && (maxSize > 0 ==> cur < c && cur !in used && amounts[cur] == maxSize)
    requires maxSize == 0 ==> cur == 0
    requires forall k :: 0 <= k < c && k !in used ==> amounts[k] <= maxSize
    requires forall k :: 0 <= k < cur && k !in used ==> amounts[k] < maxSize
    ensures r.1 >= maxSize && (r.1 == 0 ==> r.0 == 0)
    ensures r.1 > 0 ==> r.0 < |amounts| && r.0 !in used && amounts[r.0] == r.1
    ensures forall k :: 0 <= k < |amounts| && k !in used ==> amounts[k] <= r.1
    ensures forall k :: 0 <= k < r.0 && k !in used ==> amounts[k] < r.1
    decreases |amounts| - c
  {
    if c == |amounts| then (cur, maxSize)
    else if c !in used && amounts[c] > maxSize then PickFrom(amounts, used, c + 1, c, amounts[c])
    else PickFrom(amounts, used, c + 1, cur, maxSize)
  }

  /** The tallest unused column, the lowest such on ties; (0, 0) when every unused
      column is empty. */
  function PickMax(amounts: seq<int>, used: set<nat>): (r: (nat, int))
    ensures r.1 >= 0 && (r.1 == 0 ==> r.0 == 0)
    ensures r.1 > 0 ==> r.0 < |amounts| && r.0 !in used && amounts[r.0] == r.1
    ensures forall k :: 0 <= k < |amounts| && k !in used ==> amounts[k] <= r.1
    ensures forall k :: 0 <= k < r.0 && k !in used ==> amounts[k] < r.1
  {
    PickFrom(amounts, used, 0, 0, 0)
  }

  /** The columns the stage loop searches, in order, from turn a on: each turn marks
      the picked column used and searches it when it holds bits. */
  function OrderFrom(amounts: seq<int>, used: set<nat>, a: nat): seq<nat>
    decreases |amounts| - a
  {
    if a >= |amounts| then []
    else
      var p := PickMax(amounts, used);
      (if p.1 > 0 then [p.0] else []) + OrderFrom(amounts, used + {p.0}, a + 1)
  }

  function Order(amounts: seq<int>): seq<nat>
  {
    OrderFrom(amounts, {}, 0)
  }

  /** The non-empty columns that are not used yet. */
  function Pending(amounts: seq<int>, used: set<nat>): set<nat>
  {
    set c: nat | c < |amounts| && c !in used && amounts[c] > 0
  }

  /** Column c comes before column d in the search: taller, or as tall and lower. */
  predicate Taller(amounts: seq<int>, c: nat, d: nat)
    requires c < |amounts| && d < |amounts|
  {
    amounts[c] > amounts[d] || (amounts[c] == amounts[d] && c < d)
  }

  /** o lists the columns of p, tallest first. */
  ghost predicate ListsTallestFirst(amounts: seq<int>, p: set<nat>, o: seq<nat>)
  {
    (forall c :: c in o <==> c in p) &&
    (forall i :: 0 <= i < |o| ==> o[i] < |amounts|) &&
    (forall i, j :: 0 <= i < j < |o| ==> Taller(amounts, o[i], o[j]))
  }

  /** One pick: with a pending column, the tallest one, which comes before every
      other pending column; otherwise nothing is pending, before or after. */
  lemma PickPending(amounts: seq<int>, used: set<nat>)
    ensures var p := PickMax(amounts, used);
            (p.1 > 0 ==>
               p.0 in Pending(amounts, used) &&
               Pending(amounts, used + {p.0}) == Pending(amounts, used) - {p.0} &&
               forall d :: d in Pending(amounts, used + {p.0}) ==> Taller(amounts, p.0, d)) &&
            (p.1 <= 0 ==> Pending(amounts, used) == {} && Pending(amounts, used + {p.0}) == {})
  {
  }

  lemma PrependTallest(amounts: seq<int>, p: set<nat>, c: nat, rest: seq<nat>)
    requires c < |amounts| && c in p && ListsTallestFirst(amounts, p - {c}, rest)
    requires forall d :: d in p - {c} ==> Taller(amounts, c, d)
    ensures ListsTallestFirst(amounts, p, [c] + rest)
  {
    var o := [c] + rest;
    forall i, j | 0 <= i < j < |o|
      ensures Taller(amounts, o[i], o[j])
    {
      if i == 0 {
        assert o[j] == rest[j - 1] && rest[j - 1] in rest;
      }
    }
  }

  /** The order from turn a: the pending columns (when there are few enough turns
      left), each once, tallest first. */
  lemma {:induction false} OrderFromSpec(amounts: seq<int>, used: set<nat>, a: nat)
    requires a <= |amounts| && |Pending(amounts, used)| <= |amounts| - a
    ensures ListsTallestFirst(amounts, Pending(amounts, used), OrderFrom(amounts, used, a))
    decreases |amounts| - a
  {
    if a < |amounts| {
      var p := PickMax(amounts, used);
      PickPending(amounts, used);
      OrderFromSpec(amounts, used + {p.0}, a + 1);
      if p.1 > 0 {
        PrependTallest(amounts, Pending(amounts, used), p.0, OrderFrom(amounts, used + {p.0}, a + 1));
      } else {
        assert OrderFrom(amounts, used, a) == [] + OrderFrom(amounts, used + {p.0}, a + 1);
      }
    } else {
      assert Pending(amounts, used) == {};
    }
  }

  /** The stage loop searches exactly the non-empty columns, each once, from the
      tallest down, the lower column first among equally tall ones. */
  lemma OrderSpec(amounts: seq<int>)
    ensures var o := Order(amounts);
            (forall c: nat :: c in o <==> c < |amounts| && amounts[c] > 0) &&
            (forall i :: 0 <= i < |o| ==> o[i] < |amounts|) &&
            (forall i, j :: 0 <= i < j < |o| ==> Taller(amounts, o[i], o[j]))
  {
    PendingBound(amounts);
    OrderFromSpec(amounts, {}, 0);
  }

  lemma PendingBound(amounts: seq<int>)
    ensures |Pending(amounts, {})| <= |amounts|
  {
    SubsetCard(Pending(amounts, {}), Range(|amounts|));
  }

  lemma {:induction false} SubsetCard(a: set<nat>, b: set<nat>)
    requires a <= b
    ensures |a| <= |b|
    decreases |a|
  {
    if a != {} {
      var x :| x in a;
      SubsetCard(a - {x}, b - {x});
    }
  }

  /** The columns below n. */
  function Range(n: nat): (r: set<nat>)
    ensures |r| == n && forall c: nat :: c in r <==> c < n
  {
    if n == 0 then {} else Range(n - 1) + {n - 1}
  }

  // ---------------------------------------------------------------------------
  // The stages
  // ---------------------------------------------------------------------------

  /** placeCompressor(stage, column, compressor): its effect on bitAmount. */
  type Placer = (Amounts, nat, int, nat) -> Amounts

  /** The efficiency oracle over the whole state: bitAmount, stage, column and
      compressor. */
  type StageEfficiency = (Amounts, nat, int, nat) -> real

  /** The first place, from j on, of the order whose search succeeds. */
  function FirstFound(order: seq<nat>, e: Efficiency, heights: seq<nat>, j: nat): (r: Option<nat>)
    requires j <= |order|
    ensures r.None? <==> forall i :: j <= i < |order| ==> Search(e, heights, order[i]).0.None?
    ensures r.Some? ==> j <= r.value < |order| && Search(e, heights, order[r.value]).0.Some? &&
                        forall k :: j <= k < r.value ==> Search(e, heights, order[k]).0.None?
    decreases |order| - j
  {
    if j == |order| then None
    else if Search(e, heights, order[j]).0.Some? then Some(j)
    else FirstFound(order, e, heights, j + 1)
  }

  /** One turn of the stage loop: the compressor and column chosen at stage s, or
      None when a full scan of the columns finds nothing. */
  function Choose(b: Amounts, s: nat, eff: StageEfficiency, heights: seq<nat>): (r: Option<(nat, int)>)
    requires s < |b|
    ensures var e := (col: int, i: nat) => eff(b, s, col, i);
            var o := Order(b[s]);
            (r.None? <==> forall i :: 0 <= i < |o| ==> Search(e, heights, o[i]).0.None?) &&
            (r.Some? ==> exists i :: 0 <= i < |o| && Search(e, heights, o[i]) == (Some(r.value.0), r.value.1) &&
                                     forall k :: 0 <= k < i ==> Search(e, heights, o[k]).0.None?)
  {
    var e := (col: int, i: nat) => eff(b, s, col, i);
    var o := Order(b[s]);
    match FirstFound(o, e, heights, 0)
    case None => None
    case Some(i) =>
      var found := Search(e, heights, o[i]);
      Some((found.0.value, found.1))
  }

  /** The placements of stage s, repeated until a scan finds nothing; None when the
      fuel runs out first (the placement oracle need not remove bits). */
  function PlaceAll(b: Amounts, s: nat, eff: StageEfficiency, heights: seq<nat>, place: Placer, fuel: nat): (r: Option<Amounts>)
    requires s < |b|
    ensures r.Some? ==> s < |r.value| && Choose(r.value, s, eff, heights).None?
    decreases fuel
  {
    match Choose(b, s, eff, heights)
    case None => Some(b)
    case Some((comp, col)) =>
      var b' := place(b, s, col, comp);
      if fuel == 0 || s >= |b'| then None else PlaceAll(b', s, eff, heights, place, fuel - 1)
  }

  /** The stages made sure to exist before stage s is processed: stage s + 1 is
      created, as wide as stage s, when missing. */
  function Extend(b: Amounts, s: nat): (r: Amounts)
    ensures |r| == if |b| < s + 2 then s + 2 else |b|
    ensures forall k :: 0 <= k < |b| ==> r[k] == b[k]
    ensures forall k :: |b| <= k < s + 1 ==> r[k] == []
    ensures |b| < s + 2 ==> r[s + 1] == seq(|r[s]|, _ => 0)
  {
    if |b| >= s + 2 then b
    else
      var grown := b + seq(s + 2 - |b|, _ => []);
      grown[s + 1 := seq(|grown[s]|, _ => 0)]
  }

  /** The end of stage s: every column's remaining bits move to stage s + 1. Fatal
      when stage s + 1 is missing or narrower than a column that holds bits. */
  function Merge(b: Amounts, s: nat): (r: Result<Amounts>)
    ensures r.Ok? ==> s + 1 < |b| && |r.value| == |b|
    ensures r.Ok? ==> forall t :: 0 <= t < |b| && t != s && t != s + 1 ==> r.value[t] == b[t]
    ensures r.Ok? ==>
              var cur, next, cur', next' := b[s], b[s + 1], r.value[s], r.value[s + 1];
              |cur'| == |cur| && |next'| == |next| &&
              (forall c :: 0 <= c < |cur| ==> cur'[c] == if cur[c] > 0 then 0 else cur[c]) &&
              (forall c :: 0 <= c < |cur| && c < |next| ==> cur'[c] + next'[c] == cur[c] + next[c]) &&
              (forall c :: |cur| <= c < |next| ==> next'[c] == next[c])
    ensures r.Fatal? <==> s + 1 >= |b| || exists c :: |b[s + 1]| <= c < |b[s]| && b[s][c] > 0
  {
    if s + 1 >= |b| then Fatal("no next stage")
    else if exists c :: |b[s + 1]| <= c < |b[s]| && b[s][c] > 0 then Fatal("next stage too narrow")
    else
      var cur := seq(|b[s]|, c requires 0 <= c < |b[s]| => if b[s][c] > 0 then 0 else b[s][c]);
      var next := seq(|b[s + 1]|, c requires 0 <= c < |b[s + 1]| =>
                      if c < |b[s]| && b[s][c] > 0 then b[s + 1][c] + b[s][c] else b[s + 1][c]);
      Ok(b[s := cur][s + 1 := next])
  }

  /** The number of bits of column c over all stages. */
  function ColumnTotal(b: Amounts, c: nat): int
  {
    if |b| == 0 then 0 else ColumnTotal(b[..|b| - 1], c) + (if c < |b[|b| - 1]| then b[|b| - 1][c] else 0)
  }

  /** Moving bits to the next stage keeps every column's total. */
  lemma MergeKeepsTotals(b: Amounts, s: nat, c: nat)
    requires Merge(b, s).Ok?
    ensures ColumnTotal(Merge(b, s).value, c) == ColumnTotal(b, c)
  {
    var r := Merge(b, s).value;
    TotalsSplit(b, r, s, c);
  }

  lemma {:induction false} TotalsSplit(b: Amounts, r: Amounts, s: nat, c: nat)
    requires |r| == |b| && s + 1 < |b|
    requires forall t :: 0 <= t < |b| && t != s && t != s + 1 ==> r[t] == b[t]
    requires |r[s]| == |b[s]| && |r[s + 1]| == |b[s + 1]|
    requires (if c < |r[s]| then r[s][c] else 0) + (if c < |r[s + 1]| then r[s + 1][c] else 0) ==
             (if c < |b[s]| then b[s][c] else 0) + (if c < |b[s + 1]| then b[s + 1][c] else 0)
    ensures ColumnTotal(r, c) == ColumnTotal(b, c)
    decreases |b|
  {
    var n := |b| - 1;
    if n > s + 1 {
      TotalsSplit(b[..n], r[..n], s, c);
    } else {
      assert n == s + 1;
      var m := n - 1;
      assert b[..n][..m] == b[..m] && r[..n][..m] == r[..m];
      TotalsEqual(b[..m], r[..m], c);
    }
  }

  lemma {:induction false} TotalsEqual(b: Amounts, r: Amounts, c: nat)
    requires b == r
    ensures ColumnTotal(r, c) == ColumnTotal(b, c)
  {
  }

  /** A new, empty stage as wide as the last one. */
  function NewStage(b: Amounts): (r: Amounts)
    requires |b| >= 1
    ensures |r| == |b| + 1 && r[..|b|] == b && r[|b|] == seq(|b[|b| - 1]|, _ => 0)
  {
    b + [seq(|b[|b| - 1]|, _ => 0)]
  }

  /** The outcome of the algorithm: the final bitAmount, the last stage processed and
      bitAmount after each merge; running out of fuel; or a fatal error. */
  datatype Outcome = Finished(amounts: Amounts, stage: nat, merged: seq<Amounts>) | OutOfFuel | Failed(msg: string)

  /** checkAlgorithmReachedAdder(2, s): the stage is ready for the final adder. */
  type Reached = (Amounts, nat) -> bool

  /** parandehAfshar() from stage s on. */
  function Stages(b: Amounts, s: nat, eff: StageEfficiency, heights: seq<nat>, place: Placer, reached: Reached,
                  fuel: nat): (r: Outcome)
    ensures StopsAtFirst(r, s, reached)
    decreases fuel
  {
    if fuel == 0 then OutOfFuel
    else
      var b1 := Extend(b, s);
      match PlaceAll(b1, s, eff, heights, place, fuel)
      case None => OutOfFuel
      case Some(b2) =>
        match Merge(b2, s)
        case Fatal(m) => Failed(m)
        case Ok(b3) =>
          if reached(b3, s + 1) then Finished(b3, s, [b3])
          else
            var r := Stages(NewStage(b3), s + 1, eff, heights, place, reached, fuel - 1);
            PrependTrace(b3, s, r, reached);
            Prepend(b3, r)
  }

  /** The outcome with one more merged stage in front. */
  function Prepend(b: Amounts, r: Outcome): Outcome
  {
    if r.Finished? then Finished(r.amounts, r.stage, [b] + r.merged) else r
  }

  /** The stopping rule of the stages from s: a finished run ends at the first stage
      whose next stage is ready for the final adder. */
  ghost predicate StopsAtFirst(r: Outcome, s: nat, reached: Reached)
  {
    r.Finished? ==>
      r.stage >= s && |r.merged| == r.stage - s + 1 && r.merged[|r.merged| - 1] == r.amounts &&
      reached(r.amounts, r.stage + 1) &&
      forall k :: 0 <= k < |r.merged| - 1 ==> !reached(r.merged[k], s + k + 1)
  }

  lemma PrependTrace(b: Amounts, s: nat, r: Outcome, reached: Reached)
    requires !reached(b, s + 1) && StopsAtFirst(r, s + 1, reached)
    ensures StopsAtFirst(Prepend(b, r), s, reached)
  {
    if r.Finished? {
      var m := [b] + r.merged;
      forall k | 0 <= k < |m| - 1
        ensures !reached(m[k], s + k + 1)
      {
        if k > 0 {
          assert m[k] == r.merged[k - 1];
        }
      }
    }
  }

  /** parandehAfshar(): the stages from stage 0. */
  function ParandehAfsharRun(b: Amounts, eff: StageEfficiency, heights: seq<nat>, place: Placer, reached: Reached,
                             fuel: nat): (r: Outcome)
    ensures StopsAtFirst(r, 0, reached)
  {
    Stages(b, 0, eff, heights, place, reached, fuel)
  }
}
