/** The greedy tiling of a multiplier board (src/IntMult/TilingStrategyGreedy.cpp):
    the ordering of the tile catalogue, the lookup of variable-size 2xk tiles,
    one round of tile selection, the cost bookkeeping of greedySolution and the
    super-tile pass that pairs DSP blocks. */
module TilingStrategyGreedy {
  import opened Wrappers
  import opened BaseMultiplierCategory
  import Field

  const INT32_MAX: nat := 0x7fff_ffff

  /** The strategy's state after construction. */
  datatype Strategy = Strategy(
    tiles: seq<Category>,
    superTiles: seq<Category>,
    v2xkTiles: seq<Category>,
    kx2Tiles: seq<Category>,
    maxPrefMult: nat,
    occupationThreshold: real,
    use2xk: bool,
    useSuperTiles: bool)

  // ---------------------------------------------------------------------------
  // Sorting (std::sort with a comparator)
  // ---------------------------------------------------------------------------

  /** The comparators std::sort gets here are strict orders. */
  ghost predicate StrictOrder(before: (Category, Category) -> bool)
  {
    (forall a :: !before(a, a)) &&
    (forall a, b, c :: before(a, b) && before(b, c) ==> before(a, c))
  }

  /** What std::sort leaves: no entry goes strictly before an earlier one. */
  predicate SortedBy(s: seq<Category>, before: (Category, Category) -> bool)
  {
    forall i, j :: 0 <= i < j < |s| ==> !before(s[j], s[i])
  }

  /** Puts x in front of the first entry it goes strictly before. */
  function InsertBy(s: seq<Category>, x: Category, before: (Category, Category) -> bool): (r: seq<Category>)
    ensures multiset(r) == multiset(s) + multiset{x}
  {
    if |s| == 0 then [x]
    else if before(x, s[0]) then [x] + s
    else
      assert s == [s[0]] + s[1..];
      [s[0]] + InsertBy(s[1..], x, before)
  }

  lemma {:induction false} InsertBySorted(s: seq<Category>, x: Category, before: (Category, Category) -> bool)
    requires StrictOrder(before) && SortedBy(s, before)
    ensures SortedBy(InsertBy(s, x, before), before)
  {
    if |s| == 0 {
    } else if before(x, s[0]) {
      forall j | 0 <= j < |s|
        ensures !before(s[j], x)
      {
        if j > 0 {
          assert !before(s[j], s[0]);
        }
      }
      PrependSorted(x, s, before);
    } else {
      var t := InsertBy(s[1..], x, before);
      InsertBySorted(s[1..], x, before);
      forall j | 0 <= j < |t|
        ensures !before(t[j], s[0])
      {
        assert t[j] in multiset(t);
        if t[j] != x {
          var k :| 0 <= k < |s[1..]| && s[1..][k] == t[j];
          assert s[k + 1] == t[j];
        }
      }
      PrependSorted(s[0], t, before);
    }
  }

  /** An entry that no later entry goes before can lead a sorted sequence. */
  lemma PrependSorted(h: Category, t: seq<Category>, before: (Category, Category) -> bool)
    requires SortedBy(t, before)
    requires forall j :: 0 <= j < |t| ==> !before(t[j], h)
    ensures SortedBy([h] + t, before)
  {
    var r := [h] + t;
    forall i, j | 0 <= i < j < |r|
      ensures !before(r[j], r[i])
    {
      assert r[j] == t[j - 1];
      if i > 0 {
        assert r[i] == t[i - 1];
      }
    }
  }

  /** std::sort: a permutation of s that before leaves sorted. */
  method SortBy(s: seq<Category>, before: (Category, Category) -> bool) returns (r: seq<Category>)
    requires StrictOrder(before)
    ensures multiset(r) == multiset(s)
    ensures SortedBy(r, before)
  {
    r := [];
    var i := 0;
    while i < |s|
      invariant 0 <= i <= |s|
      invariant multiset(r) == multiset(s[..i])
      invariant SortedBy(r, before)
    {
      InsertBySorted(r, s[i], before);
      r := InsertBy(r, s[i], before);
      assert s[..i + 1] == s[..i] + [s[i]];
      i := i + 1;
    }
    assert s[..i] == s;
  }

  /** The three comparators of the constructor. */
  predicate NarrowerY(a: Category, b: Category) { WY(a) < WY(b) }
  predicate NarrowerX(a: Category, b: Category) { WX(a) < WX(b) }
  predicate MoreEfficient(a: Category, b: Category) { FLess(Efficiency(b), Efficiency(a)) }

  lemma ComparatorsAreStrict()
    ensures StrictOrder(NarrowerY) && StrictOrder(NarrowerX) && StrictOrder(MoreEfficient)
  {
    forall a, b, c
      ensures !MoreEfficient(a, a)
      ensures MoreEfficient(a, b) && MoreEfficient(b, c) ==> MoreEfficient(a, c)
    {
      FLessStrict(Efficiency(c), Efficiency(b), Efficiency(a));
      FLessStrict(Efficiency(a), Efficiency(a), Efficiency(a));
    }
  }

  // ---------------------------------------------------------------------------
  // The constructor
  // ---------------------------------------------------------------------------

  /** The index of the first tile that uses no DSP block, |s| when there is none. */
  function FirstLUTTile(s: seq<Category>): (i: nat)
    ensures i <= |s|
    ensures forall k :: 0 <= k < i ==> s[k].dspCost != 0
    ensures i < |s| ==> s[i].dspCost == 0
  {
    if |s| == 0 || s[0].dspCost == 0 then 0 else 1 + FirstLUTTile(s[1..])
  }

  /** The insertion loop of the constructor: the kx2 tile and then the 2xk tile
      go right in front of the first tile without DSP blocks; with no such tile
      nothing is inserted. */
  function WithVariableTiles(s: seq<Category>, kx2: Category, v2xk: Category): seq<Category>
  {
    if |s| == 0 then s
    else if s[0].dspCost == 0 then [kx2, v2xk] + s
    else [s[0]] + WithVariableTiles(s[1..], kx2, v2xk)
  }

  /** The variable tiles land between the DSP tiles and the LUT-only tiles, and
      nothing else moves. */
  lemma {:induction false} VariableTilesBeforeFirstLUTTile(s: seq<Category>, kx2: Category, v2xk: Category)
    ensures FirstLUTTile(s) == |s| ==> WithVariableTiles(s, kx2, v2xk) == s
    ensures FirstLUTTile(s) < |s| ==>
              WithVariableTiles(s, kx2, v2xk) == s[..FirstLUTTile(s)] + [kx2, v2xk] + s[FirstLUTTile(s)..]
  {
    if |s| > 0 && s[0].dspCost == 0 {
      assert s[..0] == [] && s[0..] == s;
    } else if |s| > 0 {
      VariableTilesBeforeFirstLUTTile(s[1..], kx2, v2xk);
      VariableTilesAfterDSPTile(s, kx2, v2xk);
    }
  }

  /** The step of the induction: a leading DSP tile stays in front. */
  lemma VariableTilesAfterDSPTile(s: seq<Category>, kx2: Category, v2xk: Category)
    requires |s| > 0 && s[0].dspCost != 0
    requires var t := s[1..];
             FirstLUTTile(t) == |t| ==> WithVariableTiles(t, kx2, v2xk) == t
    requires var t := s[1..];
             FirstLUTTile(t) < |t| ==>
               WithVariableTiles(t, kx2, v2xk) == t[..FirstLUTTile(t)] + [kx2, v2xk] + t[FirstLUTTile(t)..]
    ensures FirstLUTTile(s) == |s| ==> WithVariableTiles(s, kx2, v2xk) == s
    ensures FirstLUTTile(s) < |s| ==>
              WithVariableTiles(s, kx2, v2xk) == s[..FirstLUTTile(s)] + [kx2, v2xk] + s[FirstLUTTile(s)..]
  {
    var t := s[1..];
    var p := FirstLUTTile(t);
    assert FirstLUTTile(s) == p + 1;
    assert WithVariableTiles(s, kx2, v2xk) == [s[0]] + WithVariableTiles(t, kx2, v2xk);
    assert s == [s[0]] + t;
    if p < |t| {
      ConsSplit(s[0], t, p, [kx2, v2xk]);
    }
  }

  /** Putting x in front of t, split at p, is splitting x :: t at p + 1. */
  lemma ConsSplit<T>(x: T, t: seq<T>, p: nat, mid: seq<T>)
    requires p <= |t|
    ensures [x] + (t[..p] + mid + t[p..]) == ([x] + t)[..p + 1] + mid + ([x] + t)[p + 1..]
  {
    assert ([x] + t)[..p + 1] == [x] + t[..p];
    assert ([x] + t)[p + 1..] == t[p..];
  }

  /** The constructor. With use2xk, the 2xk tile (2 by INT32_MAX) joins the 2xk
      list and the kx2 tile (INT32_MAX by 2) the kx2 list, which are then sorted
      by ascending wY and wX; the base tiles are sorted by descending efficiency
      and, with use2xk, the two variable tiles are inserted in front of the
      first LUT-only tile. BaseMultiplierXilinx2xk is not part of this model:
      its two instances are parameters. */
  method NewStrategy(base: seq<Category>, superTiles: seq<Category>, v2xk: seq<Category>, kx2: seq<Category>,
                     maxPrefMult: nat, occupationThreshold: real, use2xk: bool, useSuperTiles: bool,
                     tile2xk: Category, tilekx2: Category)
    returns (s: Strategy, sorted: seq<Category>)
    requires WX(tile2xk) == 2 && WY(tile2xk) == INT32_MAX && WX(tilekx2) == INT32_MAX && WY(tilekx2) == 2
    ensures multiset(sorted) == multiset(base) && SortedBy(sorted, MoreEfficient)
    ensures !use2xk || FirstLUTTile(sorted) == |sorted| ==> s.tiles == sorted
    ensures use2xk && FirstLUTTile(sorted) < |sorted| ==>
              s.tiles == sorted[..FirstLUTTile(sorted)] + [tilekx2, tile2xk] + sorted[FirstLUTTile(sorted)..]
    ensures use2xk ==> multiset(s.v2xkTiles) == multiset(v2xk) + multiset{tile2xk} && SortedBy(s.v2xkTiles, NarrowerY)
    ensures use2xk ==> multiset(s.kx2Tiles) == multiset(kx2) + multiset{tilekx2} && SortedBy(s.kx2Tiles, NarrowerX)
    ensures !use2xk ==> s.v2xkTiles == v2xk && s.kx2Tiles == kx2
    ensures s.superTiles == superTiles && s.maxPrefMult == maxPrefMult && s.use2xk == use2xk
    ensures s.occupationThreshold == occupationThreshold && s.useSuperTiles == useSuperTiles
  {
    ComparatorsAreStrict();
    var ys := v2xk;
    var xs := kx2;
    if use2xk {
      ys := SortBy(v2xk + [tile2xk], NarrowerY);
      xs := SortBy(kx2 + [tilekx2], NarrowerX);
    }
    sorted := SortBy(base, MoreEfficient);
    VariableTilesBeforeFirstLUTTile(sorted, tilekx2, tile2xk);
    var tiles := if use2xk then WithVariableTiles(sorted, tilekx2, tile2xk) else sorted;
    s := Strategy(tiles, superTiles, ys, xs, maxPrefMult, occupationThreshold, use2xk, useSuperTiles);
  }

  // ---------------------------------------------------------------------------
  // findVariableTile
  // ---------------------------------------------------------------------------

  predicate Ascending(s: seq<Category>, key: Category -> int)
  {
    forall i, j :: 0 <= i < j < |s| ==> key(s[i]) <= key(s[j])
  }

  /** std::lower_bound by bisection: the first index whose key is not below v. */
  function LowerBound(s: seq<Category>, key: Category -> int, v: int, lo: nat, hi: nat): (r: nat)
    requires lo <= hi <= |s| && Ascending(s, key)
    requires forall k :: 0 <= k < lo ==> key(s[k]) < v
    requires forall k :: hi <= k < |s| ==> key(s[k]) >= v
    ensures lo <= r <= hi
    ensures forall k :: 0 <= k < r ==> key(s[k]) < v
    ensures forall k :: r <= k < |s| ==> key(s[k]) >= v
    decreases hi - lo
  {
    if lo == hi then lo
    else
      var mid := lo + (hi - lo) / 2;
      if key(s[mid]) < v then LowerBound(s, key, v, mid + 1, hi) else LowerBound(s, key, v, lo, mid)
  }

  /** The first tile of s whose key is at least v, if any. */
  function FirstAtLeast(s: seq<Category>, key: Category -> int, v: int): (r: Option<Category>)
    requires Ascending(s, key)
    ensures r.Some? <==> exists k :: 0 <= k < |s| && key(s[k]) >= v
    ensures r.Some? ==> r.value in s && key(r.value) >= v
    ensures r.Some? ==> forall k :: 0 <= k < |s| && key(s[k]) >= v ==> key(r.value) <= key(s[k])
  {
    var p := LowerBound(s, key, v, 0, |s|);
    if p == |s| then None else Some(s[p])
  }

  function KeyX(c: Category): int { WX(c) }
  function KeyY(c: Category): int { WY(c) }

  /** The lookup can run: lower_bound needs the list it searches in order. */
  predicate LookupReady(s: Strategy)
  {
    Ascending(s.kx2Tiles, KeyX) && Ascending(s.v2xkTiles, KeyY)
  }

  lemma SortedIsAscending(s: Strategy)
    requires SortedBy(s.kx2Tiles, NarrowerX) && SortedBy(s.v2xkTiles, NarrowerY)
    ensures LookupReady(s)
  {
  }

  /** findVariableTile: a request of height 2 is served by the narrowest kx2 tile
      at least wX wide, a request of width 2 by the shortest 2xk tile at least
      wY high; anything else, or a request no tile meets, finds nothing. */
  function FindVariableTile(s: Strategy, wX: nat, wY: nat): (r: Option<Category>)
    requires LookupReady(s)
    ensures wY == 2 ==> (r.Some? <==> exists k :: 0 <= k < |s.kx2Tiles| && WX(s.kx2Tiles[k]) >= wX)
    ensures wY == 2 && r.Some? ==>
              (r.value in s.kx2Tiles && WX(r.value) >= wX &&
               forall k :: 0 <= k < |s.kx2Tiles| && WX(s.kx2Tiles[k]) >= wX ==> WX(r.value) <= WX(s.kx2Tiles[k]))
    ensures wY != 2 && wX == 2 ==> (r.Some? <==> exists k :: 0 <= k < |s.v2xkTiles| && WY(s.v2xkTiles[k]) >= wY)
    ensures wY != 2 && wX == 2 && r.Some? ==>
              (r.value in s.v2xkTiles && WY(r.value) >= wY &&
               forall k :: 0 <= k < |s.v2xkTiles| && WY(s.v2xkTiles[k]) >= wY ==> WY(r.value) <= WY(s.v2xkTiles[k]))
    ensures wY != 2 && wX != 2 ==> r.None?
  {
    if wY == 2 then FirstAtLeast(s.kx2Tiles, KeyX, wX)
    else if wX == 2 then FirstAtLeast(s.v2xkTiles, KeyY, wY)
    else None
  }

  /** With use2xk the INT32_MAX tiles are in the lists, so every request of
      height or width 2 up to INT32_MAX finds a tile. */
  lemma VariableLookupSucceeds(s: Strategy, tile2xk: Category, tilekx2: Category, w: nat)
    requires LookupReady(s) && w <= INT32_MAX
    requires tile2xk in s.v2xkTiles && WY(tile2xk) == INT32_MAX
    requires tilekx2 in s.kx2Tiles && WX(tilekx2) == INT32_MAX
    ensures FindVariableTile(s, w, 2).Some?
    ensures w != 2 ==> FindVariableTile(s, 2, w).Some?
  {
    var i :| 0 <= i < |s.kx2Tiles| && s.kx2Tiles[i] == tilekx2;
    var j :| 0 <= j < |s.v2xkTiles| && s.v2xkTiles[j] == tile2xk;
  }

  // ---------------------------------------------------------------------------
  // One round of the selection loop
  // ---------------------------------------------------------------------------

  /** The free space around the cursor leaves room for a 2xk or kx2 tile. */
  predicate SpaceFor2xk(neededX: nat, neededY: nat)
  {
    (neededX >= 6 && neededY >= 2) || (neededX >= 2 && neededY >= 6)
  }

  /** The variable tile the loop asks for: kx2 of the free width when the free
      run is wider than high, 2xk of the free height otherwise. */
  function VariableTileFor(s: Strategy, neededX: nat, neededY: nat): Option<Category>
    requires LookupReady(s)
  {
    if neededX > neededY then FindVariableTile(s, neededX, 2) else FindVariableTile(s, 2, neededY)
  }

  /** The share of a tile's area its placement would cover. */
  function Usage(covered: nat, area: nat): (u: real)
    ensures u >= 0.0
    ensures 0 < covered <= area ==> u > 0.0
  {
    if area == 0 then 0.0 else covered as real / area as real
  }

  /** efficiency * usage in single precision: infinity times zero is NaN. */
  function Scale(e: FloatValue, k: real): (r: FloatValue)
    requires k >= 0.0
    ensures e.Finite? && e.value >= 0.0 ==> r.Finite? && r.value >= 0.0
    ensures e.Infinity? && k > 0.0 ==> r.Infinity?
  {
    match e
    case Finite(x) => Finite(x * k)
    case Infinity => if k > 0.0 then Infinity else NaN
    case NaN => NaN
  }

  /** Tile i survives every filter of the loop: a DSP tile only while fewer than
      max_pref_mult DSP blocks are used, a LUT tile only if the free rectangle is
      at least its area, any tile only if it covers something, and a DSP tile
      only when it covers at least the occupation threshold of its area. */
  predicate Passes(s: Strategy, neededX: nat, neededY: nat, usedDSP: nat, covered: seq<nat>, i: nat)
    requires i < |s.tiles| && |covered| == |s.tiles|
  {
    var t := s.tiles[i];
    (t.dspCost != 0 ==> usedDSP != s.maxPrefMult) &&
    !(t.dspCost == 0 && neededX * neededY < Area(t)) &&
    covered[i] > 0 &&
    (t.dspCost != 0 ==> Usage(covered[i], Area(t)) >= s.occupationThreshold)
  }

  /** Tile i is a variable tile the loop would try to look up while no tile is
      chosen yet. */
  predicate TriesVariable(s: Strategy, neededX: nat, neededY: nat, i: nat)
    requires i < |s.tiles|
  {
    s.use2xk && s.tiles[i].variable && SpaceFor2xk(neededX, neededY)
  }

  predicate NonNegativeCosts(s: Strategy)
  {
    forall i :: 0 <= i < |s.tiles| ==> s.tiles[i].lutCost >= 0.0
  }

  /** What the loop does with one tile: pass over it, stop, take it with its
      score, or take the variable tile the lookup returns. */
  datatype Step = Skip | Stop | Take(score: FloatValue) | UseVariable(bm: Category, index: nat)

  /** The body of the selection loop for tile i, given the best efficiency so
      far. A DSP tile scores the number of bits it covers and is taken only when
      that beats the best so far, else the loop stops; a LUT tile scores its
      efficiency scaled by the share of its area it covers and is taken unless
      that is below the best so far, in which case the loop stops if the tile
      fits whole and moves on otherwise. */
  function Consider(s: Strategy, neededX: nat, neededY: nat, usedDSP: nat, covered: seq<nat>,
                    i: nat, efficiency: FloatValue): (r: Step)
    requires i < |s.tiles| && |covered| == |s.tiles| && LookupReady(s)
    requires covered[i] <= Area(s.tiles[i])
    ensures r.Take? || r.Stop? ==> Passes(s, neededX, neededY, usedDSP, covered, i)
    ensures r.Take? ==> !FLess(r.score, efficiency)
    ensures r.UseVariable? ==> TriesVariable(s, neededX, neededY, i) && FLess(efficiency, Finite(0.0)) &&
                               VariableTileFor(s, neededX, neededY) == Some(r.bm) &&
                               (r.index == i || r.index == i + 1)
    ensures (!Passes(s, neededX, neededY, usedDSP, covered, i) &&
             !(TriesVariable(s, neededX, neededY, i) && FLess(efficiency, Finite(0.0)))) ==> r.Skip?
    ensures (efficiency == Finite(-1.0) && NonNegativeCosts(s) &&
             Passes(s, neededX, neededY, usedDSP, covered, i) && !TriesVariable(s, neededX, neededY, i)) ==> r.Take?
  {
    var t := s.tiles[i];
    if t.dspCost != 0 && usedDSP == s.maxPrefMult then Skip
    else if s.use2xk && t.variable && FLess(efficiency, Finite(0.0)) && SpaceFor2xk(neededX, neededY) then
      match VariableTileFor(s, neededX, neededY)
      case None => Skip
      case Some(v) => UseVariable(v, if neededX > neededY then i else i + 1)
    else if t.dspCost == 0 && neededX * neededY < Area(t) then Skip
    else if covered[i] == 0 then Skip
    else if t.dspCost != 0 then
      if Usage(covered[i], Area(t)) < s.occupationThreshold then Skip
      else if FLess(efficiency, Finite(covered[i] as real)) then
        FLessStrict(efficiency, Finite(covered[i] as real), efficiency);
        Take(Finite(covered[i] as real))
      else Stop
    else
      var score := Scale(Efficiency(t), Usage(covered[i], Area(t)));
      if FLess(score, efficiency) then (if covered[i] == Area(t) then Stop else Skip)
      else Take(score)
  }

  /** How the round ended: no tile chosen (the last tile is the fallback), a
      variable tile looked up, or a tile picked by its score. */
  datatype How = Fallback | Variable | Scored

  datatype Choice = Choice(bm: Category, tileIndex: nat, efficiency: FloatValue, how: How)

  /** The selection loop of greedySolution for one cursor position. covered[i]
      is what checkTilePlacement reports for tile i at the cursor; the board
      behind it is not part of this method. */
  method SelectTile(s: Strategy, neededX: nat, neededY: nat, usedDSP: nat, covered: seq<nat>)
    returns (ch: Choice)
    requires |s.tiles| >= 1 && |covered| == |s.tiles| && LookupReady(s)
    requires forall i :: 0 <= i < |covered| ==> covered[i] <= Area(s.tiles[i])
    ensures ch.how.Scored? ==> ch.tileIndex < |s.tiles| && ch.bm == s.tiles[ch.tileIndex] &&
                               Passes(s, neededX, neededY, usedDSP, covered, ch.tileIndex)
    ensures ch.how.Scored? && ch.bm.dspCost != 0 ==>
              usedDSP != s.maxPrefMult && Usage(covered[ch.tileIndex], Area(ch.bm)) >= s.occupationThreshold
    ensures ch.how.Variable? ==> s.use2xk && SpaceFor2xk(neededX, neededY) &&
                                 VariableTileFor(s, neededX, neededY) == Some(ch.bm)
    ensures ch.how.Fallback? ==> ch.bm == s.tiles[|s.tiles| - 1] && ch.tileIndex == |s.tiles| - 1
    ensures ch.how.Fallback? && NonNegativeCosts(s) ==>
              forall i :: 0 <= i < |s.tiles| && Passes(s, neededX, neededY, usedDSP, covered, i) ==>
                TriesVariable(s, neededX, neededY, i)
  {
    var last := |s.tiles| - 1;
    var bm := s.tiles[last];
    var efficiency := Finite(-1.0);
    var tileIndex := last;
    var how := Fallback;
    var i := 0;
    while i < |s.tiles|
      invariant 0 <= i <= |s.tiles|
      invariant how.Scored? ==> tileIndex < i && bm == s.tiles[tileIndex] &&
                                Passes(s, neededX, neededY, usedDSP, covered, tileIndex)
      invariant how.Fallback? ==> bm == s.tiles[last] && tileIndex == last && efficiency == Finite(-1.0)
      invariant how.Fallback? && NonNegativeCosts(s) ==>
                  forall k :: 0 <= k < i && Passes(s, neededX, neededY, usedDSP, covered, k) ==>
                    TriesVariable(s, neededX, neededY, k)
      invariant !how.Variable?
    {
      var step := Consider(s, neededX, neededY, usedDSP, covered, i, efficiency);
      if step.Stop? {
        break;
      } else if step.UseVariable? {
        bm, tileIndex, how := step.bm, step.index, Variable;
        break;
      } else if step.Take? {
        bm, tileIndex, efficiency, how := s.tiles[i], i, step.score, Scored;
      }
      i := i + 1;
    }
    ch := Choice(bm, tileIndex, efficiency, how);
  }

  // ---------------------------------------------------------------------------
  // Cost bookkeeping
  // ---------------------------------------------------------------------------

  function Sum(cs: seq<real>): real
  {
    if |cs| == 0 then 0.0 else Sum(cs[..|cs| - 1]) + cs[|cs| - 1]
  }

  /** The cost check after each addition: every running total start + cs[0] +
      ... + cs[k-1] with k >= 1 stays within cmpCost. */
  predicate WithinBudget(start: real, cs: seq<real>, cmpCost: real)
  {
    |cs| == 0 || (WithinBudget(start, cs[..|cs| - 1], cmpCost) && start + Sum(cs) <= cmpCost)
  }

  /** WithinBudget is the check on every running total. */
  lemma {:induction false} BudgetIsEveryTotal(start: real, cs: seq<real>, cmpCost: real)
    ensures WithinBudget(start, cs, cmpCost) <==>
            forall k :: 1 <= k <= |cs| ==> start + Sum(cs[..k]) <= cmpCost
    decreases |cs|
  {
    if |cs| > 0 {
      var init := cs[..|cs| - 1];
      BudgetIsEveryTotal(start, init, cmpCost);
      assert cs[..|cs|] == cs;
      forall k | 1 <= k <= |init|
        ensures init[..k] == cs[..k]
      {
      }
    }
  }

  /** Charging a then b is charging a, then b from where a left off. */
  lemma {:induction false} BudgetAppend(start: real, a: seq<real>, b: seq<real>, cmpCost: real)
    ensures Sum(a + b) == Sum(a) + Sum(b)
    ensures WithinBudget(start, a + b, cmpCost) <==>
            WithinBudget(start, a, cmpCost) && WithinBudget(start + Sum(a), b, cmpCost)
    decreases |b|
  {
    if |b| == 0 {
      assert a + b == a;
    } else {
      var init := b[..|b| - 1];
      assert (a + b)[..|a + b| - 1] == a + init;
      BudgetAppend(start, a, init, cmpCost);
    }
  }

  /** One more charge: the budget holds after it exactly when it held before
      and the new total is within cmpCost. */
  lemma BudgetStep(start: real, cs: seq<real>, c: real, cmpCost: real)
    ensures Sum(cs + [c]) == Sum(cs) + c
    ensures WithinBudget(start, cs + [c], cmpCost) <==>
            WithinBudget(start, cs, cmpCost) && start + Sum(cs) + c <= cmpCost
  {
    assert (cs + [c])[..|cs|] == cs;
  }

  /** One addition to the running cost followed by the check against cmpCost:
      `over` says the new total exceeds it. */
  method Charge(start: real, charged: seq<real>, total: real, c: real, cmpCost: real)
    returns (charged': seq<real>, total': real, over: bool)
    requires total == start + Sum(charged) && WithinBudget(start, charged, cmpCost)
    ensures charged' == charged + [c] && total' == start + Sum(charged')
    ensures over <==> !WithinBudget(start, charged', cmpCost)
  {
    BudgetStep(start, charged, c, cmpCost);
    charged' := charged + [c];
    total' := total + c;
    over := total' > cmpCost;
  }

  /** A placed tile: its category, anchor and the LUT cost getLUTCost reports
      there. */
  datatype Placed = Placed(bm: Category, at: Field.Cell, lutCost: real)

  /** A DSP block waiting for the super-tile pass. */
  type Block = (Category, Field.Cell)

  /** The costs the main loop charges: those of the LUT-only tiles, in order. */
  function LUTCosts(placed: seq<Placed>): seq<real>
  {
    if |placed| == 0 then []
    else LUTCosts(placed[..|placed| - 1]) +
         (if placed[|placed| - 1].bm.dspCost == 0 then [placed[|placed| - 1].lutCost] else [])
  }

  /** The area the main loop charges: that of the LUT-only tiles. */
  function LUTArea(placed: seq<Placed>): nat
  {
    if |placed| == 0 then 0
    else LUTArea(placed[..|placed| - 1]) + (if placed[|placed| - 1].bm.dspCost == 0 then Area(placed[|placed| - 1].bm) else 0)
  }

  /** The DSP blocks of the main loop, in order. */
  function DSPBlocks(placed: seq<Placed>): seq<Block>
  {
    if |placed| == 0 then []
    else DSPBlocks(placed[..|placed| - 1]) +
         (if placed[|placed| - 1].bm.dspCost != 0 then [(placed[|placed| - 1].bm, placed[|placed| - 1].at)] else [])
  }

  /** One more placement adds its own share to the costs, area and blocks. */
  lemma ChargedStep(placed: seq<Placed>, i: nat)
    requires i < |placed|
    ensures LUTCosts(placed[..i + 1]) ==
              LUTCosts(placed[..i]) + (if placed[i].bm.dspCost == 0 then [placed[i].lutCost] else [])
    ensures LUTArea(placed[..i + 1]) == LUTArea(placed[..i]) + (if placed[i].bm.dspCost == 0 then Area(placed[i].bm) else 0)
    ensures DSPBlocks(placed[..i + 1]) ==
              DSPBlocks(placed[..i]) + (if placed[i].bm.dspCost != 0 then [(placed[i].bm, placed[i].at)] else [])
  {
    assert placed[..i + 1][..i] == placed[..i];
  }

  /** The costs of two runs of placements are those of each in turn. */
  lemma {:induction false} LUTCostsAppend(a: seq<Placed>, b: seq<Placed>)
    ensures LUTCosts(a + b) == LUTCosts(a) + LUTCosts(b)
    decreases |b|
  {
    if |b| == 0 {
      assert a + b == a;
    } else {
      assert (a + b)[..|a + b| - 1] == a + b[..|b| - 1];
      LUTCostsAppend(a, b[..|b| - 1]);
    }
  }

  /** The charging in the main loop of greedySolution after placeTileInField: a
      DSP tile is set aside for the super-tile pass when `collect` holds, a LUT
      tile adds its area and its cost, and the run fails as soon as the cost
      exceeds cmpCost. */
  method ChargeTiles(placed: seq<Placed>, cost: real, area: nat, cmpCost: real, collect: bool)
    returns (ok: bool, tempCost: real, tempArea: nat, blocks: seq<Block>)
    ensures ok <==> WithinBudget(cost, LUTCosts(placed), cmpCost)
    ensures ok ==> tempCost == cost + Sum(LUTCosts(placed)) && tempArea == area + LUTArea(placed)
    ensures ok ==> blocks == (if collect then DSPBlocks(placed) else [])
  {
    tempCost := cost;
    tempArea := area;
    blocks := [];
    var i := 0;
    while i < |placed|
      invariant i <= |placed| && Charged(placed, i, cost, area, cmpCost, collect, tempCost, tempArea, blocks)
    {
      var p := placed[i];
      ChargeStep(placed, i, cost, area, cmpCost, collect, tempCost, tempArea, blocks);
      if p.bm.dspCost != 0 {
        if collect {
          blocks := blocks + [(p.bm, p.at)];
        }
      } else {
        tempArea := tempArea + Area(p.bm);
        tempCost := tempCost + p.lutCost;
        if tempCost > cmpCost {
          return false, tempCost, tempArea, blocks;
        }
      }
      i := i + 1;
    }
    ChargedAll(placed, cost, area, cmpCost, collect, tempCost, tempArea, blocks);
    ok := true;
  }

  /** The invariant of the charging loop after i placements. */
  ghost predicate Charged(placed: seq<Placed>, i: nat, cost: real, area: nat, cmpCost: real, collect: bool,
                          tempCost: real, tempArea: nat, blocks: seq<Block>)
  {
    i <= |placed| &&
    WithinBudget(cost, LUTCosts(placed[..i]), cmpCost) &&
    tempCost == cost + Sum(LUTCosts(placed[..i])) && tempArea == area + LUTArea(placed[..i]) &&
    blocks == (if collect then DSPBlocks(placed[..i]) else [])
  }

  /** One turn of the charging loop: a DSP tile keeps the totals and may be set
      aside; a LUT tile either keeps the invariant with its cost and area added,
      or pushes the cost past cmpCost, and then the whole run is over budget. */
  lemma ChargeStep(placed: seq<Placed>, i: nat, cost: real, area: nat, cmpCost: real, collect: bool,
                   tempCost: real, tempArea: nat, blocks: seq<Block>)
    requires i < |placed| && Charged(placed, i, cost, area, cmpCost, collect, tempCost, tempArea, blocks)
    ensures placed[i].bm.dspCost != 0 ==>
              Charged(placed, i + 1, cost, area, cmpCost, collect, tempCost, tempArea,
                      if collect then blocks + [(placed[i].bm, placed[i].at)] else blocks)
    ensures placed[i].bm.dspCost == 0 && tempCost + placed[i].lutCost <= cmpCost ==>
              Charged(placed, i + 1, cost, area, cmpCost, collect, tempCost + placed[i].lutCost,
                      tempArea + Area(placed[i].bm), blocks)
    ensures placed[i].bm.dspCost == 0 && tempCost + placed[i].lutCost > cmpCost ==>
              !WithinBudget(cost, LUTCosts(placed), cmpCost)
  {
    var p := placed[i];
    ChargedStep(placed, i);
    if p.bm.dspCost != 0 {
      assert LUTCosts(placed[..i + 1]) == LUTCosts(placed[..i]) + [];
      assert LUTCosts(placed[..i]) + [] == LUTCosts(placed[..i]);
    } else {
      assert LUTCosts(placed[..i + 1]) == LUTCosts(placed[..i]) + [p.lutCost];
      BudgetStep(cost, LUTCosts(placed[..i]), p.lutCost, cmpCost);
      if tempCost + p.lutCost > cmpCost {
        assert placed == placed[..i + 1] + placed[i + 1..];
        LUTCostsAppend(placed[..i + 1], placed[i + 1..]);
        BudgetAppend(cost, LUTCosts(placed[..i + 1]), LUTCosts(placed[i + 1..]), cmpCost);
      }
    }
  }

  /** At the end of the loop the invariant is the method's promise. */
  lemma ChargedAll(placed: seq<Placed>, cost: real, area: nat, cmpCost: real, collect: bool,
                   tempCost: real, tempArea: nat, blocks: seq<Block>)
    requires Charged(placed, |placed|, cost, area, cmpCost, collect, tempCost, tempArea, blocks)
    ensures WithinBudget(cost, LUTCosts(placed), cmpCost)
    ensures tempCost == cost + Sum(LUTCosts(placed)) && tempArea == area + LUTArea(placed)
    ensures blocks == (if collect then DSPBlocks(placed) else [])
  {
    assert placed[..|placed|] == placed;
  }

  /** blocks holds the entries of `from` at strictly increasing positions idx. */
  ghost predicate IndexMap(blocks: seq<Block>, from: seq<Block>, idx: seq<nat>)
  {
    |idx| == |blocks| &&
    (forall k {:trigger idx[k]} :: 0 <= k < |idx| ==> idx[k] < |from| && blocks[k] == from[idx[k]]) &&
    (forall k, l :: 0 <= k < l < |idx| ==> idx[k] < idx[l])
  }

  ghost predicate Subsequence(blocks: seq<Block>, from: seq<Block>)
  {
    exists idx :: IndexMap(blocks, from, idx)
  }

  /** Erasing an entry keeps the remaining ones at increasing positions. */
  lemma RemoveKeepsIndexMap(temp: seq<Block>, blocks: seq<Block>, idx: seq<nat>, j: nat)
    requires IndexMap(temp, blocks, idx) && j < |temp|
    ensures IndexMap(temp[..j] + temp[j + 1..], blocks, idx[..j] + idx[j + 1..])
  {
    var t := temp[..j] + temp[j + 1..];
    var x := idx[..j] + idx[j + 1..];
    forall k | 0 <= k < |x|
      ensures x[k] < |blocks| && t[k] == blocks[x[k]]
    {
      if k < j {
        assert x[k] == idx[k] && t[k] == temp[k];
      } else {
        assert x[k] == idx[k + 1] && t[k] == temp[k + 1];
      }
    }
    forall k, l | 0 <= k < l < |x|
      ensures x[k] < x[l]
    {
      var k' := if k < j then k else k + 1;
      var l' := if l < j then l else l + 1;
      assert x[k] == idx[k'] && x[l] == idx[l'];
    }
  }

  /** The pass's bookkeeping before block i: temp and kept are both taken from
      blocks in order, and every kept block comes before block i of temp. */
  ghost predicate PassTracked(blocks: seq<Block>, temp: seq<Block>, tIdx: seq<nat>,
                              kept: seq<Block>, kIdx: seq<nat>, i: nat)
  {
    IndexMap(temp, blocks, tIdx) && IndexMap(kept, blocks, kIdx) &&
    (i < |temp| ==> forall k :: 0 <= k < |kIdx| ==> kIdx[k] < tIdx[i])
  }

  /** Keeping block i. */
  lemma KeepStep(blocks: seq<Block>, temp: seq<Block>, tIdx: seq<nat>, kept: seq<Block>, kIdx: seq<nat>, i: nat)
    requires PassTracked(blocks, temp, tIdx, kept, kIdx, i) && i < |temp|
    ensures PassTracked(blocks, temp, tIdx, kept + [temp[i]], kIdx + [tIdx[i]], i + 1)
  {
  }

  /** Merging block i with block j, which leaves the list. */
  lemma MergeStep(blocks: seq<Block>, temp: seq<Block>, tIdx: seq<nat>, kept: seq<Block>, kIdx: seq<nat>, i: nat, j: nat)
    requires PassTracked(blocks, temp, tIdx, kept, kIdx, i) && i < j < |temp|
    ensures PassTracked(blocks, temp[..j] + temp[j + 1..], tIdx[..j] + tIdx[j + 1..], kept, kIdx, i + 1)
  {
    RemoveKeepsIndexMap(temp, blocks, tIdx, j);
    var x := tIdx[..j] + tIdx[j + 1..];
    if i + 1 < |x| {
      assert x[i] == tIdx[i];
    }
  }

  /** The invariant of performSuperTilePass before block i of temp, after nSup
      merges. */
  ghost predicate PassState(blocks: seq<Block>, subst: (Block, Block) -> Option<(Category, real)>,
                            temp: seq<Block>, tIdx: seq<nat>, kept: seq<Block>, kIdx: seq<nat>, nSup: nat, i: nat)
  {
    i <= |temp| && PassTracked(blocks, temp, tIdx, kept, kIdx, i) &&
    i == |kept| + nSup && |temp| + nSup == |blocks| &&
    (NoSuperTile(blocks, subst) ==> nSup == 0)
  }

  /** The pass starts with the whole list and nothing kept. */
  lemma PassStarts(blocks: seq<Block>, subst: (Block, Block) -> Option<(Category, real)>)
    ensures PassState(blocks, subst, blocks, seq(|blocks|, k requires 0 <= k => k as nat), [], [], 0, 0)
  {
  }

  /** Keeping block i, which forms a super tile with no later block. */
  lemma PassKeep(blocks: seq<Block>, subst: (Block, Block) -> Option<(Category, real)>,
                 temp: seq<Block>, tIdx: seq<nat>, kept: seq<Block>, kIdx: seq<nat>, nSup: nat, i: nat)
    requires i < |temp| && PassState(blocks, subst, temp, tIdx, kept, kIdx, nSup, i)
    ensures PassState(blocks, subst, temp, tIdx, kept + [temp[i]], kIdx + [tIdx[i]], nSup, i + 1)
  {
    KeepStep(blocks, temp, tIdx, kept, kIdx, i);
  }

  /** Merging block i with block j, which leaves the list: possible only when
      some two blocks form a super tile. */
  lemma PassMerge(blocks: seq<Block>, subst: (Block, Block) -> Option<(Category, real)>,
                  temp: seq<Block>, tIdx: seq<nat>, kept: seq<Block>, kIdx: seq<nat>, nSup: nat, i: nat, j: nat)
    requires i < j < |temp| && PassState(blocks, subst, temp, tIdx, kept, kIdx, nSup, i)
    requires subst(temp[i], temp[j]).Some?
    ensures PassState(blocks, subst, temp[..j] + temp[j + 1..], tIdx[..j] + tIdx[j + 1..], kept, kIdx, nSup + 1, i + 1)
    ensures !NoSuperTile(blocks, subst)
  {
    if NoSuperTile(blocks, subst) {
      NoSuperTileInherited(blocks, temp, tIdx, subst);
    }
    MergeStep(blocks, temp, tIdx, kept, kIdx, i, j);
  }

  /** At the end of the pass, kept is taken from blocks in order, and is all of
      blocks when nothing was merged. */
  lemma PassEnds(blocks: seq<Block>, subst: (Block, Block) -> Option<(Category, real)>,
                 temp: seq<Block>, tIdx: seq<nat>, kept: seq<Block>, kIdx: seq<nat>, nSup: nat, i: nat)
    requires i >= |temp| && PassState(blocks, subst, temp, tIdx, kept, kIdx, nSup, i)
    ensures Subsequence(kept, blocks) && |kept| + 2 * nSup == |blocks|
    ensures nSup == 0 ==> kept == blocks
    ensures NoSuperTile(blocks, subst) ==> nSup == 0
  {
    assert IndexMap(kept, blocks, kIdx);
    if nSup == 0 {
      FullSubsequence(kept, blocks, kIdx);
    }
  }

  /** Blocks taken in order from blocks that form no super tile form none. */
  lemma NoSuperTileInherited(blocks: seq<Block>, temp: seq<Block>, tIdx: seq<nat>,
                             subst: (Block, Block) -> Option<(Category, real)>)
    requires NoSuperTile(blocks, subst) && IndexMap(temp, blocks, tIdx)
    ensures NoSuperTile(temp, subst)
  {
    forall k, l | 0 <= k < l < |temp|
      ensures subst(temp[k], temp[l]).None?
    {
      assert temp[k] == blocks[tIdx[k]] && temp[l] == blocks[tIdx[l]];
    }
  }

  /** A subsequence as long as the whole is the whole. */
  lemma FullSubsequence(kept: seq<Block>, blocks: seq<Block>, idx: seq<nat>)
    requires IndexMap(kept, blocks, idx) && |kept| == |blocks|
    ensures kept == blocks
  {
    forall k | 0 <= k < |idx|
      ensures idx[k] == k
    {
      IndexAtLeast(idx, k);
      IndexAtMost(idx, |blocks|, k);
    }
    forall k | 0 <= k < |kept|
      ensures kept[k] == blocks[k]
    {
      assert idx[k] == k;
    }
  }

  /** Strictly increasing indices: the k-th is at least k. */
  lemma {:induction false} IndexAtLeast(idx: seq<nat>, k: nat)
    requires k < |idx|
    requires forall m, l :: 0 <= m < l < |idx| ==> idx[m] < idx[l]
    ensures k <= idx[k]
    decreases k
  {
    if k > 0 {
      IndexAtLeast(idx, k - 1);
      assert idx[k - 1] < idx[k];
    }
  }

  /** Strictly increasing indices below n: the k-th is at most n - |idx| + k. */
  lemma {:induction false} IndexAtMost(idx: seq<nat>, n: nat, k: nat)
    requires k < |idx|
    requires forall m :: 0 <= m < |idx| ==> idx[m] < n
    requires forall m, l :: 0 <= m < l < |idx| ==> idx[m] < idx[l]
    ensures idx[k] <= n - |idx| + k
    decreases |idx| - k
  {
    if k + 1 < |idx| {
      IndexAtMost(idx, n, k + 1);
      assert idx[k] < idx[k + 1];
    }
  }

  /** The corner a super tile is anchored at: the smaller coordinates of its two
      blocks. */
  function BaseCoord(a: Block, b: Block): (c: Field.Cell)
    ensures c.0 <= a.1.0 && c.0 <= b.1.0 && c.1 <= a.1.1 && c.1 <= b.1.1
    ensures (c.0 == a.1.0 || c.0 == b.1.0) && (c.1 == a.1.1 || c.1 == b.1.1)
  {
    (if a.1.0 < b.1.0 then a.1.0 else b.1.0, if a.1.1 < b.1.1 then a.1.1 else b.1.1)
  }

  /** The inner loop of performSuperTilePass: the first block after block i
      that forms a super tile with it, |temp| when there is none. */
  method FindPartner(temp: seq<Block>, i: nat, subst: (Block, Block) -> Option<(Category, real)>)
    returns (j: nat)
    requires i < |temp|
    ensures i < j <= |temp|
    ensures j < |temp| ==> subst(temp[i], temp[j]).Some?
    ensures forall k :: i < k < j ==> subst(temp[i], temp[k]).None?
  {
    j := i + 1;
    while j < |temp| && subst(temp[i], temp[j]).None?
      invariant i < j <= |temp|
      invariant forall k :: i < k < j ==> subst(temp[i], temp[k]).None?
    {
      j := j + 1;
    }
  }

  /** No two blocks, the first before the second, form a super tile. */
  predicate NoSuperTile(blocks: seq<Block>, subst: (Block, Block) -> Option<(Category, real)>)
  {
    forall k, l :: 0 <= k < l < |blocks| ==> subst(blocks[k], blocks[l]).None?
  }

  /** performSuperTilePass. Each block, in turn, is merged with the first later
      block for which a super tile exists; that later block leaves the list and
      the super tile's cost is charged, failing as soon as the cost exceeds
      cmpCost. A block merged with no later one is kept. `subst` stands for
      superTileSubtitution on the two blocks' corners relative to BaseCoord,
      paired with the LUT cost of the super tile it returns. */
  method PerformSuperTilePass(blocks: seq<Block>, cost: real, cmpCost: real,
                              subst: (Block, Block) -> Option<(Category, real)>)
    returns (ok: bool, costOut: real, kept: seq<Block>, supers: seq<(Category, Field.Cell)>, charged: seq<real>)
    ensures ok <==> WithinBudget(cost, charged, cmpCost)
    ensures costOut == cost + Sum(charged) && |charged| == |supers|
    ensures ok ==> Subsequence(kept, blocks) && |kept| + 2 * |supers| == |blocks|
    ensures ok && supers == [] ==> kept == blocks
    ensures NoSuperTile(blocks, subst) ==> ok && supers == []
  {
    var temp := blocks;
    ghost var tIdx: seq<nat> := seq(|blocks|, k requires 0 <= k => k as nat);
    ghost var kIdx: seq<nat> := [];
    kept := [];
    supers := [];
    charged := [];
    costOut := cost;
    var i := 0;
    PassStarts(blocks, subst);
    while i < |temp|
      invariant i <= |temp| && PassState(blocks, subst, temp, tIdx, kept, kIdx, |supers|, i)
      invariant |charged| == |supers| && WithinBudget(cost, charged, cmpCost) && costOut == cost + Sum(charged)
    {
      var j := FindPartner(temp, i, subst);
      if j < |temp| {
        PassMerge(blocks, subst, temp, tIdx, kept, kIdx, |supers|, i, j);
        var (tile, c) := subst(temp[i], temp[j]).value;
        supers := supers + [(tile, BaseCoord(temp[i], temp[j]))];
        var over;
        charged, costOut, over := Charge(cost, charged, costOut, c, cmpCost);
        if over {
          return false, costOut, kept, supers, charged;
        }
        temp := temp[..j] + temp[j + 1..];
        tIdx := tIdx[..j] + tIdx[j + 1..];
      } else {
        PassKeep(blocks, subst, temp, tIdx, kept, kIdx, |supers|, i);
        kept := kept + [temp[i]];
        kIdx := kIdx + [tIdx[i]];
      }
      i := i + 1;
    }
    PassEnds(blocks, subst, temp, tIdx, kept, kIdx, |supers|, i);
    ok := true;
  }

  /** The last loop of greedySolution: the LUT cost of every kept DSP block is
      charged, failing as soon as the cost exceeds cmpCost. blockCost stands for
      getLUTCost at the block's anchor. */
  method ChargeBlocks(kept: seq<Block>, cost: real, cmpCost: real, blockCost: Block -> real)
    returns (ok: bool, costOut: real, charged: seq<real>)
    ensures ok <==> WithinBudget(cost, charged, cmpCost)
    ensures costOut == cost + Sum(charged)
    ensures |charged| <= |kept| && forall k :: 0 <= k < |charged| ==> charged[k] == blockCost(kept[k])
    ensures ok ==> |charged| == |kept|
  {
    costOut := cost;
    charged := [];
    var i := 0;
    while i < |kept|
      invariant 0 <= i <= |kept| && |charged| == i
      invariant forall k :: 0 <= k < i ==> charged[k] == blockCost(kept[k])
      invariant WithinBudget(cost, charged, cmpCost) && costOut == cost + Sum(charged)
    {
      var c := blockCost(kept[i]);
      var over;
      charged, costOut, over := Charge(cost, charged, costOut, c, cmpCost);
      if over {
        return false, costOut, charged;
      }
      i := i + 1;
    }
    ok := true;
  }

  /** The super-tile tail of greedySolution: the pass, then the kept blocks. */
  method ChargeSuperTiles(blocks: seq<Block>, cost: real, cmpCost: real,
                          subst: (Block, Block) -> Option<(Category, real)>, blockCost: Block -> real)
    returns (ok: bool, costOut: real, charged: seq<real>)
    ensures ok <==> WithinBudget(cost, charged, cmpCost)
    ensures ok ==> costOut == cost + Sum(charged)
    ensures NoSuperTile(blocks, subst) && ok ==>
              |charged| == |blocks| && forall k :: 0 <= k < |blocks| ==> charged[k] == blockCost(blocks[k])
  {
    var passOk, passCost, kept, supers, superCosts := PerformSuperTilePass(blocks, cost, cmpCost, subst);
    charged := superCosts;
    if !passOk {
      return false, passCost, charged;
    }
    var blocksOk, blocksCost, blockCosts := ChargeBlocks(kept, passCost, cmpCost, blockCost);
    BudgetAppend(cost, superCosts, blockCosts, cmpCost);
    charged := superCosts + blockCosts;
    return blocksOk, blocksCost, charged;
  }

  /** greedySolution's bookkeeping for a run whose main loop placed `placed`:
      `cost` and `area` are overwritten only when the run succeeds. A run fails
      exactly when one of the running totals (LUT tiles, then super tiles, then
      the remaining DSP blocks) exceeds cmpCost; without super tiles only the
      LUT tiles are charged. */
  method GreedySolution(s: Strategy, placed: seq<Placed>, cost: real, area: nat, cmpCost: real,
                        subst: (Block, Block) -> Option<(Category, real)>, blockCost: Block -> real)
    returns (ok: bool, costOut: real, areaOut: nat, charged: seq<real>)
    ensures ok <==> WithinBudget(cost, charged, cmpCost)
    ensures !ok ==> costOut == cost && areaOut == area
    ensures ok ==> costOut == cost + Sum(charged) && areaOut == area + LUTArea(placed)
    ensures LUTCosts(placed) <= charged
    ensures !s.useSuperTiles ==> charged == LUTCosts(placed)
  {
    var collect := s.useSuperTiles && |s.superTiles| > 0;
    var lutOk, tempCost, tempArea, blocks := ChargeTiles(placed, cost, area, cmpCost, collect);
    charged := LUTCosts(placed);
    if !lutOk {
      return false, cost, area, charged;
    }
    if !s.useSuperTiles {
      return true, tempCost, tempArea, charged;
    }
    var superOk, superCost, superCosts := ChargeSuperTiles(blocks, tempCost, cmpCost, subst, blockCost);
    SuperTail(cost, charged, superCosts, cmpCost, tempCost);
    charged := charged + superCosts;
    if !superOk {
      return false, cost, area, charged;
    }
    return true, superCost, tempArea, charged;
  }

  /** The charges of the super-tile tail follow those of the LUT tiles: the
      whole run is within budget exactly when the tail is, starting from the
      LUT tiles' total. */
  lemma SuperTail(cost: real, lut: seq<real>, sup: seq<real>, cmpCost: real, tempCost: real)
    requires WithinBudget(cost, lut, cmpCost) && tempCost == cost + Sum(lut)
    ensures WithinBudget(cost, lut + sup, cmpCost) <==> WithinBudget(tempCost, sup, cmpCost)
    ensures cost + Sum(lut + sup) == tempCost + Sum(sup)
    ensures lut <= lut + sup
  {
    BudgetAppend(cost, lut, sup, cmpCost);
  }
}
