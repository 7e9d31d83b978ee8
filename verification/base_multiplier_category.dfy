/** Multiplier tiles (src/IntMult/BaseMultiplierCategory.hpp): a category of
    base multiplier and the parametrization of one of its tiles. */
module BaseMultiplierCategory {

  /** A tile: a wX by wY multiplier, possibly placed flipped (its x and y
      inputs exchanged on the multiplier board). */
  datatype Parametrization = Parametrization(
    wX: nat, wY: nat, signedX: bool, signedY: bool, flipped: bool, shapePara: int)

  function MultXWordSize(p: Parametrization): nat { p.wX }
  function MultYWordSize(p: Parametrization): nat { p.wY }

  /** The tile's extent along the board's x axis. */
  function TileXWordSize(p: Parametrization): (w: nat)
    ensures w == MultXWordSize(p) || w == MultYWordSize(p)
  {
    if p.flipped then p.wY else p.wX
  }

  /** The tile's extent along the board's y axis. */
  function TileYWordSize(p: Parametrization): (w: nat)
    ensures w == MultXWordSize(p) || w == MultYWordSize(p)
  {
    if p.flipped then p.wX else p.wY
  }

  function Flip(p: Parametrization): Parametrization
  {
    p.(flipped := !p.flipped)
  }

  /** A flipped tile covers the transposed rectangle of the same multiplier:
      the tile sizes swap, the multiplier sizes and the covered area do not. */
  lemma FlipTransposes(p: Parametrization)
    ensures TileXWordSize(Flip(p)) == TileYWordSize(p) && TileYWordSize(Flip(p)) == TileXWordSize(p)
    ensures MultXWordSize(Flip(p)) == MultXWordSize(p) && MultYWordSize(Flip(p)) == MultYWordSize(p)
    ensures TileXWordSize(p) * TileYWordSize(p) == MultXWordSize(p) * MultYWordSize(p)
    ensures Flip(Flip(p)) == p
  {
  }

  /** A base multiplier category: its tile, the input sizes it supports and its
      costs. lutCost is set by each concrete category; dspCost says how many DSP
      blocks a tile uses. */
  datatype Category = Category(
    tile: Parametrization,
    maxWordSizeLargeInputUnsigned: int,
    maxWordSizeSmallInputUnsigned: int,
    deltaWidthUnsignedSigned: int,
    maxSumOfInputWordSizes: int,
    rectangular: bool,
    typ: string,
    lutCost: real,
    dspCost: nat,
    variable: bool)

  /** The constructor: an unflipped wX by wY tile; the largest input sizes are
      wX and wY and their sum bounds the sum of the input sizes. */
  function NewCategory(wX: nat, wY: nat, signedX: bool, signedY: bool, shapePara: int,
                       typ: string, rectangular: bool, lutCost: real, dspCost: nat, variable: bool): (c: Category)
    ensures MultXWordSize(c.tile) == wX && MultYWordSize(c.tile) == wY
    ensures TileXWordSize(c.tile) == wX && TileYWordSize(c.tile) == wY
    ensures c.maxWordSizeLargeInputUnsigned == wX && c.maxWordSizeSmallInputUnsigned == wY
    ensures c.maxSumOfInputWordSizes == c.maxWordSizeLargeInputUnsigned + c.maxWordSizeSmallInputUnsigned
    ensures c.deltaWidthUnsignedSigned == 0
  {
    Category(Parametrization(wX, wY, signedX, signedY, false, shapePara),
             wX, wY, 0, wX + wY, rectangular, typ, lutCost, dspCost, variable)
  }

  /** wX() and wY(): the multiplier sizes of the category's tile. */
  function WX(c: Category): nat { c.tile.wX }
  function WY(c: Category): nat { c.tile.wY }

  /** getArea: the number of partial-product bits a tile covers. */
  function Area(c: Category): (a: nat)
    ensures a == TileXWordSize(c.tile) * TileYWordSize(c.tile)
  {
    FlipTransposes(c.tile);
    c.tile.wX * c.tile.wY
  }

  /** A single-precision value as far as the tiling strategies use it: a real,
      or one of the IEEE results of a division by zero. */
  datatype FloatValue = Finite(value: real) | Infinity | NaN

  /** The IEEE `<`: false whenever NaN takes part, and infinity is above every
      finite value. */
  predicate FLess(a: FloatValue, b: FloatValue)
  {
    match a
    case Finite(x) => (b.Finite? && x < b.value) || b.Infinity?
    case Infinity => false
    case NaN => false
  }

  /** FLess is a strict order: irreflexive and transitive. */
  lemma FLessStrict(a: FloatValue, b: FloatValue, c: FloatValue)
    ensures !FLess(a, a)
    ensures FLess(a, b) && FLess(b, c) ==> FLess(a, c)
    ensures FLess(a, b) ==> !FLess(b, a)
  {
  }

  /** efficiency = getArea() / cost() with cost() = lut_cost: bits covered per
      LUT. A zero cost gives infinity, or NaN for a tile that covers nothing. */
  function Efficiency(c: Category): (e: FloatValue)
    ensures e.Finite? <==> c.lutCost != 0.0
    ensures e.Finite? ==> e.value * c.lutCost == Area(c) as real
    ensures e.Infinity? <==> c.lutCost == 0.0 && Area(c) > 0
    ensures c.lutCost > 0.0 && Area(c) > 0 ==> e.Finite? && e.value > 0.0
  {
    if c.lutCost != 0.0 then Finite(Area(c) as real / c.lutCost)
    else if Area(c) > 0 then Infinity
    else NaN
  }

  /** At equal cost, a larger tile is at least as efficient. */
  lemma EfficiencyMonotone(a: Category, b: Category)
    requires a.lutCost == b.lutCost && a.lutCost > 0.0 && Area(a) <= Area(b)
    ensures Efficiency(a).value <= Efficiency(b).value
  {
    var c := a.lutCost;
    assert Efficiency(b).value - Efficiency(a).value == (Area(b) as real - Area(a) as real) / c;
  }
}
