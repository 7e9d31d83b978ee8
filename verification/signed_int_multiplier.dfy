/** SignedIntMultiplier (src/SignedIntMultiplier.cpp): a two's complement
    multiplier of a wInX-bit and a wInY-bit input with a full-width output, its
    reference emulation and the way the Virtex5/6 architecture orients the two
    operands over 18x25 DSP blocks. */
module SignedIntMultiplier {
  import opened Wrappers
  import opened Utils

  /** The output R is as wide as both inputs together. */
  function OutputWidth(wInX: nat, wInY: nat): nat
  {
    wInX + wInY
  }

  /** The output width leaves room for the largest product magnitude,
      2^(wInX-1) 2^(wInY-1), below its sign bit. */
  lemma OutputWidthHoldsProducts(wInX: nat, wInY: nat)
    requires wInX >= 1 && wInY >= 1
    ensures OutputWidth(wInX, wInY) >= 2
    ensures Pow2(wInX - 1) * Pow2(wInY - 1) < Pow2(OutputWidth(wInX, wInY) - 1)
  {
    Pow2Add(wInX - 1, wInY - 1);
    Pow2Monotone(wInX + wInY - 2, wInX + wInY - 1);
  }

  // ---------------------------------------------------------------------------
  // emulate
  // ---------------------------------------------------------------------------

  /** SignedIntMultiplier::emulate: both inputs read in two's complement, their
      product written back on wOut bits by adding 2^wOut when it is negative. The
      result is the product modulo 2^wOut. */
  function Emulate(wInX: nat, wInY: nat, X: int, Y: int): (r: int)
    requires wInX >= 1 && wInY >= 1
    ensures 0 <= X < Pow2(wInX) && 0 <= Y < Pow2(wInY) ==> 0 <= r < Pow2(OutputWidth(wInX, wInY))
    ensures var p := SignedValue(X, wInX) * SignedValue(Y, wInY);
            r == p || r == p + Pow2(OutputWidth(wInX, wInY))
  {
    var p := SignedValue(X, wInX) * SignedValue(Y, wInY);
    var wOut := OutputWidth(wInX, wInY);
    ProductFitsIfInRange(wInX, wInY, X, Y);
    if p < 0 then p + Pow2(wOut) else p
  }

  /** For inputs of their declared widths the product never overflows the
      output: reading the emulated value back in two's complement on wOut bits
      gives the exact product of the signed inputs. */
  lemma EmulateIsProduct(wInX: nat, wInY: nat, X: int, Y: int)
    requires wInX >= 1 && wInY >= 1
    requires 0 <= X < Pow2(wInX) && 0 <= Y < Pow2(wInY)
    ensures SignedValue(Emulate(wInX, wInY, X, Y), OutputWidth(wInX, wInY)) ==
            SignedValue(X, wInX) * SignedValue(Y, wInY)
  {
    ProductFits(wInX, wInY, X, Y);
    ReadsBack(SignedValue(X, wInX) * SignedValue(Y, wInY), OutputWidth(wInX, wInY), Emulate(wInX, wInY, X, Y));
  }

  /** A w-bit two's complement number p, written as p or p + 2^w, reads back as
      p. */
  lemma ReadsBack(p: int, w: nat, e: int)
    requires w >= 1 && 0 <= p + Pow2(w - 1) && p < Pow2(w - 1)
    requires e == p || e == p + Pow2(w)
    ensures SignedValue(e, w) == p
  {
    assert Pow2(w) == 2 * Pow2(w - 1);
  }

  /** For inputs of their declared widths, the expected R is the signed product
      modulo 2^wOut. */
  lemma EmulateIsLow(wInX: nat, wInY: nat, X: int, Y: int)
    requires wInX >= 1 && wInY >= 1
    requires 0 <= X < Pow2(wInX) && 0 <= Y < Pow2(wInY)
    ensures Emulate(wInX, wInY, X, Y) == Lo(SignedValue(X, wInX) * SignedValue(Y, wInY), OutputWidth(wInX, wInY))
  {
    ProductFitsIfInRange(wInX, wInY, X, Y);
    WrapIsLow(SignedValue(X, wInX) * SignedValue(Y, wInY), OutputWidth(wInX, wInY));
  }

  lemma ProductFitsIfInRange(wInX: nat, wInY: nat, X: int, Y: int)
    requires wInX >= 1 && wInY >= 1
    ensures 0 <= X < Pow2(wInX) && 0 <= Y < Pow2(wInY) ==>
              var p := SignedValue(X, wInX) * SignedValue(Y, wInY);
              var wOut := OutputWidth(wInX, wInY);
              0 <= p + Pow2(wOut) && p < Pow2(wOut)
  {
    if 0 <= X < Pow2(wInX) && 0 <= Y < Pow2(wInY) {
      var wOut := OutputWidth(wInX, wInY);
      ProductFits(wInX, wInY, X, Y);
      Pow2Monotone(wOut - 1, wOut);
    }
  }

  /** The product of a wInX-bit and a wInY-bit two's complement number lies in
      [-2^(wOut-1), 2^(wOut-1)): it is a wOut-bit two's complement number. */
  lemma ProductFits(wInX: nat, wInY: nat, X: int, Y: int)
    requires wInX >= 1 && wInY >= 1
    requires 0 <= X < Pow2(wInX) && 0 <= Y < Pow2(wInY)
    ensures var p := SignedValue(X, wInX) * SignedValue(Y, wInY);
            0 <= p + Pow2(OutputWidth(wInX, wInY) - 1) && p < Pow2(OutputWidth(wInX, wInY) - 1)
  {
    var a := Pow2(wInX - 1);
    var b := Pow2(wInY - 1);
    OutputWidthHoldsProducts(wInX, wInY);
    SignedProductBound(SignedValue(X, wInX), SignedValue(Y, wInY), a, b);
  }

  /** -a <= x < a and -b <= y < b give -(a b) <= x y <= a b; the upper bound is
      reached only by the two most negative operands. */
  lemma SignedProductBound(x: int, y: int, a: int, b: int)
    requires -a <= x < a && -b <= y < b
    ensures -(a * b) <= x * y <= a * b
  {
    if x >= 0 && y >= 0 {
      MulAtMost(x, y, a, b);
    } else if x >= 0 {
      MulAtMost(x, -y, a, b);
      assert x * y == -(x * -y);
    } else if y >= 0 {
      MulAtMost(-x, y, a, b);
      assert x * y == -(-x * y);
    } else {
      MulAtMost(-x, -y, a, b);
      assert x * y == -x * -y;
    }
  }

  lemma MulAtMost(u: int, v: int, a: int, b: int)
    requires 0 <= u <= a && 0 <= v <= b
    ensures 0 <= u * v <= a * b
  {
    assert u * v <= u * b by {
      assert u * (b - v) >= 0;
    }
    assert u * b <= a * b by {
      assert (a - u) * b >= 0;
    }
  }

  // ---------------------------------------------------------------------------
  // Virtex5/6 operand orientation
  // ---------------------------------------------------------------------------

  /** Widths covered by 1..5 chunks on the 18-bit side of a DSP block: one signed
      18-bit chunk plus 17-bit unsigned ones. */
  const L18: seq<int> := [18, 35, 52, 69, 86]

  /** The same for the 25-bit side: one 25-bit chunk plus 24-bit ones. */
  const L25: seq<int> := [25, 49, 73, 97, 121]

  /** `while (l[k] < w) k++`: the least index whose width covers w. The loop reads
      past the five entries when no entry does; that read is undefined and is
      modelled as None. */
  function ChunkIndex(l: seq<int>, w: int): (r: Option<nat>)
    ensures r.Some? ==> r.value < |l| && l[r.value] >= w && forall j :: 0 <= j < r.value ==> l[j] < w
    ensures r.None? <==> forall j :: 0 <= j < |l| ==> l[j] < w
  {
    ChunkIndexFrom(l, w, 0)
  }

  function ChunkIndexFrom(l: seq<int>, w: int, k: nat): (r: Option<nat>)
    requires k <= |l| && forall j :: 0 <= j < k ==> l[j] < w
    ensures r.Some? ==> k <= r.value < |l| && l[r.value] >= w && forall j :: 0 <= j < r.value ==> l[j] < w
    ensures r.None? <==> forall j :: 0 <= j < |l| ==> l[j] < w
    decreases |l| - k
  {
    if k == |l| then None
    else if l[k] >= w then Some(k)
    else ChunkIndexFrom(l, w, k + 1)
  }

  /** A table of the widths covered by 1, 2, ... chunks: one chunk of `first`
      bits, the others of `step` bits. */
  predicate ChunkWidths(l: seq<int>, first: int, step: int)
  {
    forall k :: 0 <= k < |l| ==> l[k] == first + step * k
  }

  lemma TablesAreChunkWidths()
    ensures ChunkWidths(L18, 18, 17) && ChunkWidths(L25, 25, 24)
  {
  }

  /** Reference definition: the chunk index is the number of extra step-bit
      chunks needed once the first chunk is used, ceil((w - first) / step). */
  lemma ChunkIndexIsCeil(l: seq<int>, first: int, step: int, w: int)
    requires ChunkWidths(l, first, step) && step >= 1 && |l| >= 1
    requires w <= l[|l| - 1]
    ensures ChunkIndex(l, w) == Some(if w <= first then 0 else CeilDiv(w - first, step))
  {
    var k: nat := if w <= first then 0 else CeilDiv(w - first, step);
    var n := |l| - 1;
    if w > first {
      assert (k - 1) * step < w - first <= n * step;
      if k > n {
        MulAtMost(n, step, k - 1, step);
        assert false;
      }
      assert k * step >= w - first;
      assert l[k] == first + step * k;
    }
    assert k < |l| && l[k] >= w;
    forall j | 0 <= j < k
      ensures l[j] < w
    {
      assert l[j] == first + step * j;
      MulAtMost(j, step, k - 1, step);
    }
    ChunkIndexAt(l, w, k);
  }

  /** Any index that is the least to cover w is the one the scan finds. */
  lemma ChunkIndexAt(l: seq<int>, w: int, k: nat)
    requires k < |l| && l[k] >= w && forall j :: 0 <= j < k ==> l[j] < w
    ensures ChunkIndex(l, w) == Some(k)
  {
    var i := ChunkIndex(l, w);
    assert i.Some? by {
      assert !(l[k] < w);
    }
  }

  /** The orientation chosen: whether X and Y are swapped, the padded widths xS
      (18-bit side) and yS (25-bit side) and the chunk counts cOp1, cOp2. */
  datatype Orientation = Orientation(swapped: bool, xS: int, yS: int, cOp1: nat, cOp2: nat)

  /** The chunk indices (k1, k2) of an operand of w18 bits on the 18-bit side
      and one of w25 bits on the 25-bit side, or None when a width exceeds the
      tables. */
  function Chunks(w18: int, w25: int): (c: Option<(nat, nat)>)
    ensures c.Some? <==> w18 <= 86 && w25 <= 121
    ensures c.Some? ==> c.value.0 < |L18| && c.value.1 < |L25|
  {
    match (ChunkIndex(L18, w18), ChunkIndex(L25, w25))
    case (Some(k1), Some(k2)) => Some((k1, k2))
    case _ => None
  }

  /** The number of DSP blocks an orientation uses, (k1 + 1) (k2 + 1). */
  function Cost(w18: int, w25: int): (c: Option<nat>)
    ensures c.Some? <==> w18 <= 86 && w25 <= 121
  {
    match Chunks(w18, w25)
    case Some(k) => Some(Blocks(k))
    case None => None
  }

  /** The padded widths and chunk counts for chunk indices (k1, k2). */
  function Layout(swapped: bool, k: (nat, nat)): Orientation
    requires k.0 < |L18| && k.1 < |L25|
  {
    Orientation(swapped, L18[k.0], L25[k.1], k.0 + 1, k.1 + 1)
  }

  /** The Virtex5/6 branch of the constructor: both orientations are scored by
      their number of DSP blocks and the cheaper one is taken, ties keeping X on
      the 18-bit side. None when a width exceeds 86 bits, where the scoring
      loops read past their tables. */
  function Orient(wInX: int, wInY: int): (r: Option<Orientation>)
    ensures r.Some? <==> wInX <= 86 && wInY <= 86
  {
    if wInX <= 86 && wInY <= 86 then
      var k0 := Chunks(wInX, wInY).value;
      var k1 := Chunks(wInY, wInX).value;
      if Blocks(k1) < Blocks(k0) then Some(Layout(true, k1)) else Some(Layout(false, k0))
    else None
  }

  /** The DSP blocks of chunk indices (k1, k2). */
  function Blocks(k: (nat, nat)): nat
  {
    (k.0 + 1) * (k.1 + 1)
  }

  /** Whatever the orientation, each operand is padded to a width that holds it
      and splits into the chunks the architecture multiplies. */
  lemma OrientCovers(wInX: int, wInY: int)
    ensures Orient(wInX, wInY).Some? ==> OrientationCovers(wInX, wInY, Orient(wInX, wInY).value)
  {
    if wInX <= 86 && wInY <= 86 {
      LayoutCovers(wInX, wInY, false);
      LayoutCovers(wInY, wInX, true);
    }
  }

  /** The layout of an operand of w18 bits on the 18-bit side and one of w25
      bits on the 25-bit side covers them. */
  lemma LayoutCovers(w18: int, w25: int, swapped: bool)
    requires w18 <= 86 && w25 <= 121
    ensures var o := Layout(swapped, Chunks(w18, w25).value);
            OrientationCovers(if swapped then w25 else w18, if swapped then w18 else w25, o)
  {
    ChunksCover(w18, w25);
  }

  /** One side of a layout: the padded widths hold the operands, are split into
      a first chunk and further 17- or 24-bit chunks, and need every chunk. */
  lemma ChunksCover(w18: int, w25: int)
    requires w18 <= 86 && w25 <= 121
    ensures var k := Chunks(w18, w25).value;
            var xS := L18[k.0];
            var yS := L25[k.1];
            xS == 18 + 17 * k.0 && w18 <= xS && (k.0 == 0 || xS - 17 < w18) &&
            yS == 25 + 24 * k.1 && w25 <= yS && (k.1 == 0 || yS - 24 < w25)
  {
    TablesAreChunkWidths();
    var k := Chunks(w18, w25).value;
    assert ChunkIndex(L18, w18) == Some(k.0) && ChunkIndex(L25, w25) == Some(k.1);
    if k.0 > 0 {
      assert L18[k.0 - 1] < w18;
    }
    if k.1 > 0 {
      assert L25[k.1 - 1] < w25;
    }
  }

  /** The first operand op1 goes on the 18-bit side: X unless swapped. Its padded
      width xS holds it, one chunk fewer would not, and xS splits into one 18-bit
      chunk and cOp1 - 1 chunks of 17 bits; likewise op2 on the 25-bit side. */
  ghost predicate OrientationCovers(wInX: int, wInY: int, o: Orientation)
  {
    var wOp1 := if o.swapped then wInY else wInX;
    var wOp2 := if o.swapped then wInX else wInY;
    o.cOp1 >= 1 && o.cOp2 >= 1 &&
    o.xS == 18 + 17 * (o.cOp1 - 1) && o.yS == 25 + 24 * (o.cOp2 - 1) &&
    wOp1 <= o.xS && (o.cOp1 == 1 || o.xS - 17 < wOp1) &&
    wOp2 <= o.yS && (o.cOp2 == 1 || o.yS - 24 < wOp2)
  }

  /** The orientation taken is the cheaper of the two, and a swap happens only
      when it is strictly cheaper. */
  lemma OrientIsCheapest(wInX: int, wInY: int)
    requires wInX <= 86 && wInY <= 86
    ensures var o := Orient(wInX, wInY).value;
            Cost(wInX, wInY).Some? && Cost(wInY, wInX).Some? &&
            o.cOp1 * o.cOp2 == Min(Cost(wInX, wInY).value, Cost(wInY, wInX).value) &&
            (o.swapped <==> Cost(wInY, wInX).value < Cost(wInX, wInY).value)
  {
  }

  function Min(a: int, b: int): int
  {
    if a <= b then a else b
  }

  /** Two sample orientations: 30 x 40 keeps X on the 18-bit side (2 x 2 blocks
      against 3 x 2), 40 x 30 swaps the operands. */
  lemma OrientExamples()
    ensures Orient(30, 40) == Some(Orientation(false, 35, 49, 2, 2))
    ensures Orient(40, 30) == Some(Orientation(true, 35, 49, 2, 2))
  {
    ChunkIndexAt(L18, 30, 1);
    ChunkIndexAt(L25, 40, 1);
    ChunkIndexAt(L18, 40, 2);
    ChunkIndexAt(L25, 30, 1);
    assert Chunks(30, 40) == Some((1, 1)) && Chunks(40, 30) == Some((2, 1));
    assert L18[1] == 35 && L25[1] == 49;
  }
}
