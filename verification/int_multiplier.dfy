/** The integer multiplier's parameter set-up, its logic-only splitting, the small
    multiplication tables it is built of, and the outputs its test bench expects
    (src/IntMultiplier.cpp). A wX x wY product has wFull = wX + wY bits; when only
    the wOut most significant are wanted, g guard bits below them keep the
    truncated result faithful. */
module IntMultiplier {
  import opened Wrappers
  import opened Utils

  // ---------------------------------------------------------------------------
  // Guard bits
  // ---------------------------------------------------------------------------

  /** The error bound, in ulps of the full product, accumulated once the i lowest
      columns are dropped: 1 + 2*2^1 + 3*2^2 + ... + (i+1)*2^i. */
  function UlpError(i: nat): nat
  {
    ShiftNonNegative(i + 1, i);
    if i == 0 then 1 else UlpError(i - 1) + Shift(i + 1, i)
  }

  /** The bound in closed form: i * 2^(i+1) + 1. */
  lemma {:induction false} UlpErrorClosed(i: nat)
    ensures UlpError(i) == Shift(i, i + 1) + 1
  {
    if i != 0 {
      UlpErrorClosed(i - 1);
      // (i-1) 2^i + (i+1) 2^i == 2i 2^i == i 2^(i+1)
      ShiftAdd(i - 1, i + 1, i);
      ShiftAdd(i, i, i);
    }
  }

  /** The bound grows at least as fast as 2^i, so it needs more than i bits. */
  lemma {:induction false} UlpErrorGrows(i: nat)
    ensures UlpError(i) >= Pow2(i) && IntLog2(UlpError(i)) >= i + 1
  {
    if i != 0 {
      UlpErrorGrows(i - 1);
      ShiftMonotone(1, i + 1, i);
      ShiftPow2(0, i);
    }
    if IntLog2(UlpError(i)) < i + 1 {
      Pow2Monotone(IntLog2(UlpError(i)), i);
    }
  }

  /** i is the first number of dropped columns whose error bound needs t bits. */
  predicate FirstReached(t: int, i: nat)
  {
    IntLog2(UlpError(i)) >= t && forall j :: 0 <= j < i ==> IntLog2(UlpError(j)) < t
  }

  /** neededGuardBits: none when the full product is kept; otherwise the truncated
      width t = wX + wY - wOut less the number i of columns that can be dropped
      before the error bound needs t bits. */
  method NeededGuardBits(wX: int, wY: int, wOut: int) returns (g: int)
    ensures wX + wY == wOut ==> g == 0
    ensures wX + wY != wOut ==> wX + wY - wOut - g >= 0 && FirstReached(wX + wY - wOut, wX + wY - wOut - g)
  {
    if wX + wY == wOut {
      return 0;
    }
    var i: nat := 0;
    var ulpError := 1;
    while wX + wY - wOut > IntLog2(ulpError)
      invariant ulpError == UlpError(i)
      invariant forall j :: 0 <= j < i ==> IntLog2(UlpError(j)) < wX + wY - wOut
      invariant i == 0 || i < wX + wY - wOut
      decreases wX + wY - wOut - i
    {
      UlpErrorGrows(i);
      i := i + 1;
      ulpError := ulpError + Shift(i + 1, i);
    }
    g := wX + wY - i - wOut;
  }

  /** When some columns are truncated, at least one guard bit and at most the
      truncated width are kept. */
  lemma GuardBitsBounds(t: int, i: nat)
    requires t >= 1 && FirstReached(t, i)
    ensures 1 <= t - i <= t
  {
    UlpErrorGrows(t - 1);
  }

  /** At most one number of dropped columns is the first to reach t bits. */
  lemma FirstReachedUnique(t: int, i: nat, j: nat)
    requires FirstReached(t, i) && FirstReached(t, j)
    ensures i == j
  {
  }

  // ---------------------------------------------------------------------------
  // initialize
  // ---------------------------------------------------------------------------

  /** The sizes initialize derives. wX and wY are the declared widths, swapped if
      needed so that wX >= wY. */
  datatype Shape = Shape(wXdecl: int, wYdecl: int, wX: int, wY: int, wOut: int,
                         wFull: int, wTruncated: int, g: int, maxWeight: int, weightShift: int)

  /** What initialize guarantees of a shape: the output is the wOut top bits of the
      full product, computed on maxWeight = wOut + g columns that start weightShift
      columns above the product's LSB. */
  predicate Consistent(s: Shape)
  {
    0 <= s.wXdecl && 0 <= s.wYdecl && s.wFull == s.wXdecl + s.wYdecl &&
    0 <= s.wOut <= s.wFull && s.wTruncated == s.wFull - s.wOut &&
    (s.wTruncated == 0 ==> s.g == 0) && (s.wTruncated >= 1 ==> 1 <= s.g <= s.wTruncated) &&
    s.maxWeight + s.weightShift == s.wFull && s.maxWeight == s.wOut + s.g &&
    s.wX >= s.wY && s.wX + s.wY == s.wFull && (s.wX == s.wXdecl || s.wX == s.wYdecl)
  }

  /** initialize: fatal on a negative width or on an output wider than the full
      product; wOut = 0 asks for the full product. */
  method Initialize(wXdecl: int, wYdecl: int, wOut: int) returns (r: Result<Shape>)
    ensures r.Fatal? <==> wOut < 0 || wXdecl < 0 || wYdecl < 0 || wOut > wXdecl + wYdecl
    ensures r.Ok? ==> Consistent(r.value) && r.value.wXdecl == wXdecl && r.value.wYdecl == wYdecl
    ensures r.Ok? ==> r.value.wOut == (if wOut == 0 then wXdecl + wYdecl else wOut)
    ensures r.Ok? ==> (r.value.wX == wXdecl <==> wYdecl <= wXdecl || wXdecl == wYdecl)
  {
    if wOut < 0 || wXdecl < 0 || wYdecl < 0 {
      return Fatal("negative input/output size");
    }
    var wFull := wXdecl + wYdecl;
    if wOut > wFull {
      return Fatal("wOut too large for the multiplier");
    }
    var out := if wOut == 0 then wFull else wOut;
    var wTruncated := wFull - out;
    var g := NeededGuardBits(wXdecl, wYdecl, out);
    if wTruncated >= 1 {
      GuardBitsBounds(wTruncated, wTruncated - g);
    }
    var maxWeight := out + g;
    var weightShift := wFull - maxWeight;
    var wX, wY := if wYdecl > wXdecl then wYdecl else wXdecl, if wYdecl > wXdecl then wXdecl else wYdecl;
    return Ok(Shape(wXdecl, wYdecl, wX, wY, out, wFull, wTruncated, g, maxWeight, weightShift));
  }

  /** buildLogicOnly's round bit: with guard bits, a constant one is added at
      weight wFull - wOut - 1 - weightShift above the heap's LSB. That is half an
      ulp of the result, whose LSB is g columns up. */
  function RoundBit(s: Shape, lsbWeight: int): (r: Option<int>)
    requires Consistent(s)
    ensures r.Some? <==> s.g > 0
    ensures r.Some? ==> r.value == lsbWeight + s.g - 1 && r.value - lsbWeight < s.maxWeight
  {
    if s.g > 0 then Some(lsbWeight + s.wFull - s.wOut - 1 - s.weightShift) else None
  }

  // ---------------------------------------------------------------------------
  // The logic-only split
  // ---------------------------------------------------------------------------

  /** The logic-only architecture cuts X into chunks of dx bits and Y into chunks of
      dy bits, padding each on the left up to a whole number of chunks. */
  datatype Split = Split(dx: nat, dy: nat, chunksX: nat, chunksY: nat, padX: nat, padY: nat)

  /** buildHeapLogicOnly's split for a target with lutInputs LUT inputs: one
      dx x dy product fills a LUT, dx = lutInputs >> 1. */
  function LogicOnlySplit(lutInputs: int, wX: nat, wY: nat): (s: Split)
    requires lutInputs >= 2
    ensures s.dx + s.dy == lutInputs && s.dx <= s.dy <= s.dx + 1 && s.dx >= 1
    ensures s.dx * s.chunksX == wX + s.padX && s.padX < s.dx
    ensures s.dy * s.chunksY == wY + s.padY && s.padY < s.dy
  {
    var dx := lutInputs / 2;
    var dy := lutInputs - dx;
    var chunksX := CeilDiv(wX, dx);
    var chunksY := CeilDiv(wY, dy);
    CeilDivPad(wX, dx);
    CeilDivPad(wY, dy);
    Split(dx, dy, chunksX, chunksY, dx * chunksX - wX, dy * chunksY - wY)
  }

  /** Rounding a width up to whole chunks pads it by less than a chunk. */
  lemma CeilDivPad(w: nat, d: nat)
    requires d >= 1
    ensures 0 <= d * CeilDiv(w, d) - w < d
  {
    var c := CeilDiv(w, d);
    if c != 0 {
      assert (c - 1) * d == c * d - d;
    }
  }

  // ---------------------------------------------------------------------------
  // SmallMultTable
  // ---------------------------------------------------------------------------

  /** The operands a table input yx stands for: y is its bits from dx up, x its dx
      low bits, each read in two's complement when signed. */
  function TableOperands(dx: nat, dy: nat, signedX: bool, signedY: bool, yx: int): (xy: (int, int))
    requires dx >= 1 && dy >= 1 && 0 <= yx < Pow2(dx + dy)
    ensures 0 < xy.0 + Pow2(dx) && xy.0 < Pow2(dx) && 0 < xy.1 + Pow2(dy) && xy.1 < Pow2(dy)
    ensures Lo(yx, dx) == Lo(xy.0, dx) && Hi(yx, dx) == Lo(xy.1, dy)
  {
    HiBelow(yx, dx, dy);
    var y := Hi(yx, dx);
    var x := Lo(yx, dx);
    WrapIsLow(x - Pow2(dx), dx);
    WrapIsLow(x, dx);
    WrapIsLow(y - Pow2(dy), dy);
    WrapIsLow(y, dy);
    (if signedX then SignedValue(x, dx) else x, if signedY then SignedValue(y, dy) else y)
  }

  lemma HiBelow(yx: int, dx: nat, dy: nat)
    requires 0 <= yx < Pow2(dx + dy)
    ensures 0 <= Hi(yx, dx) < Pow2(dy)
  {
    HiNonNegative(yx, dx);
    LoBound(yx, dx);
    ShiftPow2(dy, dx);
    ShiftLess(Hi(yx, dx), Pow2(dy), dx);
  }

  /** The signed product a table stores, before it is written in two's complement. */
  function TableProduct(x: int, y: int, negate: bool): int
  {
    if negate then -(x * y) else x * y
  }

  /** SmallMultTable::function: the product written on wF = dx + dy bits in two's
      complement; when the table is narrower (wOut < wF), the tr = wF - wOut low bits
      are rounded off, half-way cases up. */
  function SmallMultTable(dx: nat, dy: nat, wOut: nat, negate: bool, signedX: bool, signedY: bool, yx: int): (r: int)
    requires dx >= 1 && dy >= 1 && 0 <= yx < Pow2(dx + dy)
    ensures r >= 0
  {
    var xy := TableOperands(dx, dy, signedX, signedY, yx);
    var p := Wrap(TableProduct(xy.0, xy.1, negate), dx + dy);
    TableProductFits(xy.0, xy.1, negate, dx, dy);
    if wOut < dx + dy then RoundHalfUp(p, dx + dy - wOut) else p
  }

  /** (p + 2^(tr-1)) >> tr: p rounded to a multiple of 2^tr, half-way cases up. */
  function RoundHalfUp(p: int, tr: nat): (r: int)
    requires tr >= 1 && p >= 0
    ensures r >= 0
  {
    HiNonNegative(p + Pow2(tr - 1), tr);
    Hi(p + Pow2(tr - 1), tr)
  }

  /** The rounded value is within half a unit of p; rounding a number of w + tr
      bits can carry into bit w. */
  lemma RoundHalfUpNearest(p: int, tr: nat, w: nat)
    requires tr >= 1 && 0 <= p < Pow2(w + tr)
    ensures Shift(RoundHalfUp(p, tr), tr) <= p + Pow2(tr - 1) < Shift(RoundHalfUp(p, tr), tr) + Pow2(tr)
    ensures RoundHalfUp(p, tr) <= Pow2(w)
  {
    var r := RoundHalfUp(p, tr);
    LoBound(p + Pow2(tr - 1), tr);
    ShiftAdd(Pow2(w), 1, tr);
    ShiftPow2(w, tr);
    ShiftPow2(0, tr);
    ShiftLess(r, Pow2(w) + 1, tr);
  }

  /** A product of operands of dx and dy bits, negated or not, has a two's
      complement on dx + dy bits. */
  lemma TableProductFits(x: int, y: int, negate: bool, dx: nat, dy: nat)
    requires 0 < x + Pow2(dx) && x < Pow2(dx) && 0 < y + Pow2(dy) && y < Pow2(dy)
    ensures 0 <= TableProduct(x, y, negate) + Pow2(dx + dy) && TableProduct(x, y, negate) < Pow2(dx + dy)
  {
    Pow2Add(dx, dy);
    ProductBound(x, y, Pow2(dx), Pow2(dy));
  }

  /** |x| < a and |y| < b give |x y| < a b. */
  lemma ProductBound(x: int, y: int, a: int, b: int)
    requires 0 < x + a && x < a && 0 < y + b && y < b
    ensures -(a * b) < x * y < a * b
  {
    if x >= 0 && y >= 0 {
      MulLess(x, y, a, b);
    } else if x >= 0 {
      MulLess(x, -y, a, b);
      assert x * y == -(x * -y);
    } else if y >= 0 {
      MulLess(-x, y, a, b);
      assert x * y == -(-x * y);
    } else {
      MulLess(-x, -y, a, b);
      assert x * y == -x * -y;
    }
  }

  lemma MulLess(u: int, v: int, a: int, b: int)
    requires 0 <= u < a && 0 <= v < b
    ensures 0 <= u * v < a * b
  {
    assert u * v <= u * b by {
      assert u * (b - v) >= 0;
    }
    assert u * b < a * b by {
      assert (a - u) * b > 0;
    }
  }

  /** Without rounding, the table stores the product modulo 2^(dx+dy): the low
      bits of the input operands' product. */
  lemma SmallMultTableExact(dx: nat, dy: nat, wOut: nat, negate: bool, signedX: bool, signedY: bool, yx: int)
    requires dx >= 1 && dy >= 1 && 0 <= yx < Pow2(dx + dy) && wOut >= dx + dy
    ensures var xy := TableOperands(dx, dy, signedX, signedY, yx);
            SmallMultTable(dx, dy, wOut, negate, signedX, signedY, yx) == Lo(TableProduct(xy.0, xy.1, negate), dx + dy)
  {
    var xy := TableOperands(dx, dy, signedX, signedY, yx);
    TableProductFits(xy.0, xy.1, negate, dx, dy);
  }

  /** With rounding, the table stores the product's two's complement p rounded to
      the nearest multiple of 2^tr, half-way cases up: r 2^tr - 2^(tr-1) <= p <
      r 2^tr + 2^(tr-1). The result can reach 2^wOut, one more than wOut bits hold. */
  lemma SmallMultTableRounds(dx: nat, dy: nat, wOut: nat, negate: bool, signedX: bool, signedY: bool, yx: int)
    requires dx >= 1 && dy >= 1 && 0 <= yx < Pow2(dx + dy) && wOut < dx + dy
    ensures var xy := TableOperands(dx, dy, signedX, signedY, yx);
            var p := Lo(TableProduct(xy.0, xy.1, negate), dx + dy);
            var r := SmallMultTable(dx, dy, wOut, negate, signedX, signedY, yx);
            Shift(r, dx + dy - wOut) <= p + Pow2(dx + dy - wOut - 1) < Shift(r, dx + dy - wOut) + Pow2(dx + dy - wOut) &&
            r <= Pow2(wOut)
  {
    var xy := TableOperands(dx, dy, signedX, signedY, yx);
    TableProductFits(xy.0, xy.1, negate, dx, dy);
    var p := Lo(TableProduct(xy.0, xy.1, negate), dx + dy);
    assert dx + dy == wOut + (dx + dy - wOut);
    RoundHalfUpNearest(p, dx + dy - wOut, wOut);
  }

  /** A table result can need wOut + 1 bits: -1 x 1 negated on a 1 x 1 table
      rounded to one bit gives 2. */
  lemma SmallMultTableCarries()
    ensures SmallMultTable(1, 1, 1, true, false, false, 3) == Pow2(1)
  {
    CarriesOperands();
    CarriesRounding();
  }

  lemma CarriesOperands()
    ensures TableOperands(1, 1, false, false, 3) == (1, 1)
  {
    assert Hi(3, 1) == 1;
    assert Lo(3, 1) == 1;
  }

  lemma CarriesRounding()
    ensures RoundHalfUp(Wrap(TableProduct(1, 1, true), 2), 1) == 2
  {
    assert Wrap(TableProduct(1, 1, true), 2) == 3 by {
      assert Pow2(2) == 4;
    }
    assert Hi(4, 1) == Hi(2, 0);
  }

  // ---------------------------------------------------------------------------
  // emulate
  // ---------------------------------------------------------------------------

  /** The inputs as the multiplier reads them: two's complement when signedIO, with
      the declared widths. */
  function Decode(v: int, w: nat, signedIO: bool): int
    requires w >= 1
  {
    if signedIO then SignedValue(v, w) else v
  }

  /** emulate: the expected values of R. The exact product (negated if asked) is
      written on wFull bits; with truncation both its floor at the wOut-bit ulp and
      the next value, modulo 2^wOut, are accepted (a faithful result). */
  function Emulate(s: Shape, negate: bool, signedIO: bool, X: int, Y: int): (outs: seq<int>)
    requires Consistent(s) && s.wXdecl >= 1 && s.wYdecl >= 1
    requires 0 <= X < Pow2(s.wXdecl) && 0 <= Y < Pow2(s.wYdecl)
    ensures var full := Lo(TableProduct(Decode(X, s.wXdecl, signedIO), Decode(Y, s.wYdecl, signedIO), negate), s.wFull);
            (s.wTruncated == 0 ==> outs == [full]) &&
            (s.wTruncated != 0 ==> |outs| == 2 && 0 <= outs[0] < Pow2(s.wOut) &&
                                   Shift(outs[0], s.wTruncated) <= full < Shift(outs[0] + 1, s.wTruncated) &&
                                   outs[1] == Lo(outs[0] + 1, s.wOut))
  {
    var x := Decode(X, s.wXdecl, signedIO);
    var y := Decode(Y, s.wYdecl, signedIO);
    TableProductFits(x, y, negate, s.wXdecl, s.wYdecl);
    var svR := Wrap(TableProduct(x, y, negate), s.wFull);
    if s.wTruncated == 0 then [svR]
    else
      EmulateTruncated(svR, s.wOut, s.wTruncated);
      var q := Hi(svR, s.wTruncated);
      [q, Lo(q + 1, s.wOut)]
  }

  /** Dropping wTruncated bits of a wFull-bit value leaves a wOut-bit floor. */
  lemma EmulateTruncated(v: int, wOut: nat, wTruncated: nat)
    requires 0 <= v < Pow2(wOut + wTruncated)
    ensures 0 <= Hi(v, wTruncated) < Pow2(wOut)
    ensures Shift(Hi(v, wTruncated), wTruncated) <= v < Shift(Hi(v, wTruncated) + 1, wTruncated)
  {
    HiBelow(v, wTruncated, wOut);
    LoBound(v, wTruncated);
    ShiftAdd(Hi(v, wTruncated), 1, wTruncated);
    ShiftPow2(0, wTruncated);
  }

  /** The rounded value is the floor of p / 2^tr or the next integer. */
  lemma RoundHalfUpFloor(p: int, tr: nat, w: nat)
    requires tr >= 1 && 0 <= p < Pow2(w + tr)
    ensures RoundHalfUp(p, tr) == Hi(p, tr) || RoundHalfUp(p, tr) == Hi(p, tr) + 1
  {
    var r := RoundHalfUp(p, tr);
    var q := Hi(p, tr);
    RoundHalfUpNearest(p, tr, w);
    EmulateTruncated(p, w, tr);
    ShiftAdd(r, 1, tr);
    ShiftAdd(q + 1, 1, tr);
    ShiftPow2(0, tr);
    ShiftLess(q, r + 1, tr);
    ShiftLess(r, q + 2, tr);
  }

  /** The operand order of the table input YY & XX: after initialize's swap XX is
      the wider input. */
  function TableInput(s: Shape, X: int, Y: int): int
    requires Consistent(s)
  {
    if s.wX == s.wXdecl then Shift(Y, s.wX) + X else Shift(X, s.wX) + Y
  }

  /** The smallest multipliers are one SmallMultTable fed YY & XX. Its output,
      read on wOut bits, is one of the values the test bench accepts. */
  lemma SmallMultiplierFaithful(s: Shape, negate: bool, signedIO: bool, X: int, Y: int)
    requires Consistent(s) && s.wXdecl >= 1 && s.wYdecl >= 1
    requires 0 <= X < Pow2(s.wXdecl) && 0 <= Y < Pow2(s.wYdecl)
    ensures 0 <= TableInput(s, X, Y) < Pow2(s.wX + s.wY) && s.wX >= 1 && s.wY >= 1
    ensures Lo(SmallMultTable(s.wX, s.wY, s.wOut, negate, signedIO, signedIO, TableInput(s, X, Y)), s.wOut) in
            Emulate(s, negate, signedIO, X, Y)
  {
    TableSeesOperands(s, signedIO, X, Y);
    TableOutputIs(s, negate, signedIO, X, Y);
    EmulateIs(s, negate, signedIO, X, Y);
    var full := Lo(TableProduct(Decode(X, s.wXdecl, signedIO), Decode(Y, s.wYdecl, signedIO), negate), s.wFull);
    assert 0 <= full < Pow2(s.wOut + s.wTruncated) by {
      assert s.wFull == s.wOut + s.wTruncated;
    }
    RoundedIsAccepted(full, s.wOut, s.wTruncated);
  }

  /** The table's output is the full product's wFull-bit two's complement, rounded
      off to wOut bits when the output is narrower. */
  lemma TableOutputIs(s: Shape, negate: bool, signedIO: bool, X: int, Y: int)
    requires Consistent(s) && s.wXdecl >= 1 && s.wYdecl >= 1
    requires 0 <= X < Pow2(s.wXdecl) && 0 <= Y < Pow2(s.wYdecl)
    ensures 0 <= TableInput(s, X, Y) < Pow2(s.wX + s.wY) && s.wX >= 1 && s.wY >= 1
    ensures var full := Lo(TableProduct(Decode(X, s.wXdecl, signedIO), Decode(Y, s.wYdecl, signedIO), negate), s.wFull);
            SmallMultTable(s.wX, s.wY, s.wOut, negate, signedIO, signedIO, TableInput(s, X, Y)) ==
              if s.wOut < s.wOut + s.wTruncated then RoundHalfUp(full, s.wTruncated) else full
  {
    var x := Decode(X, s.wXdecl, signedIO);
    var y := Decode(Y, s.wYdecl, signedIO);
    TableSeesOperands(s, signedIO, X, Y);
    var yx := TableInput(s, X, Y);
    SmallMultTableIs(s.wX, s.wY, s.wOut, negate, signedIO, signedIO, yx);
    SameProduct(TableOperands(s.wX, s.wY, signedIO, signedIO, yx), x, y, negate, s.wX + s.wY);
  }

  /** The product does not depend on the order of its operands. */
  lemma SameProduct(ops: (int, int), x: int, y: int, negate: bool, w: nat)
    requires ops == (x, y) || ops == (y, x)
    ensures Lo(TableProduct(ops.0, ops.1, negate), w) == Lo(TableProduct(x, y, negate), w)
  {
    assert x * y == y * x;
  }

  lemma EmulateIs(s: Shape, negate: bool, signedIO: bool, X: int, Y: int)
    requires Consistent(s) && s.wXdecl >= 1 && s.wYdecl >= 1
    requires 0 <= X < Pow2(s.wXdecl) && 0 <= Y < Pow2(s.wYdecl)
    ensures var full := Lo(TableProduct(Decode(X, s.wXdecl, signedIO), Decode(Y, s.wYdecl, signedIO), negate), s.wFull);
            Emulate(s, negate, signedIO, X, Y) ==
              if s.wTruncated == 0 then [full] else [Hi(full, s.wTruncated), Lo(Hi(full, s.wTruncated) + 1, s.wOut)]
  {
    var x := Decode(X, s.wXdecl, signedIO);
    var y := Decode(Y, s.wYdecl, signedIO);
    TableProductFits(x, y, negate, s.wXdecl, s.wYdecl);
  }

  /** The table decodes YY & XX into the inputs emulate decodes, in either order. */
  lemma TableSeesOperands(s: Shape, signedIO: bool, X: int, Y: int)
    requires Consistent(s) && s.wXdecl >= 1 && s.wYdecl >= 1
    requires 0 <= X < Pow2(s.wXdecl) && 0 <= Y < Pow2(s.wYdecl)
    ensures 0 <= TableInput(s, X, Y) < Pow2(s.wX + s.wY) && s.wX >= 1 && s.wY >= 1
    ensures var ops := TableOperands(s.wX, s.wY, signedIO, signedIO, TableInput(s, X, Y));
            var x := Decode(X, s.wXdecl, signedIO);
            var y := Decode(Y, s.wYdecl, signedIO);
            ops == (x, y) || ops == (y, x)
  {
    var swapped := s.wX != s.wXdecl;
    var xx := if swapped then Y else X;
    var yy := if swapped then X else Y;
    InputPacks(xx, yy, s.wX, s.wY);
  }

  /** The table's output in terms of the two's complement of its product. */
  lemma SmallMultTableIs(dx: nat, dy: nat, wOut: nat, negate: bool, signedX: bool, signedY: bool, yx: int)
    requires dx >= 1 && dy >= 1 && 0 <= yx < Pow2(dx + dy)
    ensures var xy := TableOperands(dx, dy, signedX, signedY, yx);
            var p := Lo(TableProduct(xy.0, xy.1, negate), dx + dy);
            SmallMultTable(dx, dy, wOut, negate, signedX, signedY, yx) ==
              if wOut < dx + dy then RoundHalfUp(p, dx + dy - wOut) else p
  {
    var xy := TableOperands(dx, dy, signedX, signedY, yx);
    TableProductFits(xy.0, xy.1, negate, dx, dy);
  }

  /** A full product rounded to wOut bits, read on wOut bits, is the truncated
      value or the next one: both are accepted. */
  lemma RoundedIsAccepted(full: int, wOut: nat, wTruncated: nat)
    requires 0 <= full < Pow2(wOut + wTruncated)
    ensures var t := if wOut < wOut + wTruncated then RoundHalfUp(full, wTruncated) else full;
            var q := Hi(full, wTruncated);
            (wTruncated == 0 ==> Lo(t, wOut) == full) &&
            (wTruncated != 0 ==> Lo(t, wOut) == q || Lo(t, wOut) == Lo(q + 1, wOut))
  {
    if wTruncated == 0 {
      LoSmall(full, wOut);
    } else {
      RoundHalfUpFloor(full, wTruncated, wOut);
      EmulateTruncated(full, wOut, wTruncated);
      LoSmall(Hi(full, wTruncated), wOut);
    }
  }

  /** YY & XX splits back into its two operands. */
  lemma InputPacks(xx: int, yy: int, wX: nat, wY: nat)
    requires 0 <= xx < Pow2(wX) && 0 <= yy < Pow2(wY)
    ensures 0 <= Shift(yy, wX) + xx < Pow2(wX + wY)
    ensures Lo(Shift(yy, wX) + xx, wX) == xx && Hi(Shift(yy, wX) + xx, wX) == yy
  {
    LoHiUnique(Shift(yy, wX) + xx, wX, yy, xx);
    ShiftNonNegative(yy, wX);
    ShiftMonotone(yy + 1, Pow2(wY), wX);
    ShiftAdd(yy, 1, wX);
    ShiftPow2(0, wX);
    ShiftPow2(wY, wX);
  }
}
