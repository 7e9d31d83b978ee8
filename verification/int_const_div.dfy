/** Euclidean division by a small constant d (src/ConstMult/IntConstDiv.cpp). The
    input X is cut into radix-2^alpha digits. A table maps a gamma-bit remainder
    followed by one digit to the digit's quotient and the new remainder. The
    linear architecture chains the tables from the most significant digit down;
    the logarithmic one divides every digit alone and then merges neighbouring
    blocks pairwise, level by level, with tables fed two remainders. */
module IntConstDiv {
  import opened Wrappers
  import opened Utils

  lemma ShiftMul(q: int, d: int, k: nat)
    ensures Shift(q * d, k) == Shift(q, k) * d
  {
    ShiftIsProduct(q * d, k);
    ShiftIsProduct(q, k);
    assert (q * d) * Pow2(k) == (q * Pow2(k)) * d;
  }

  lemma Distrib3(a: int, b: int, c: int, m: int)
    ensures (a + b + c) * m == a * m + b * m + c * m
  {
  }

  // ---------------------------------------------------------------------------
  // The tables
  // ---------------------------------------------------------------------------

  /** A table output: the quotient above gamma bits of remainder. */
  function Unpack(y: int, gamma: nat): (int, int)
  {
    (Hi(y, gamma), Lo(y, gamma))
  }

  /** EuclideanDivTable::function: fatal outside [0, 2^(alpha+gamma)); otherwise
      the quotient and the remainder of x by d, packed. */
  function EuclideanDivTable(d: nat, alpha: nat, gamma: nat, x: int): (r: Result<int>)
    requires d >= 1
    ensures r.Fatal? <==> x < 0 || x >= Pow2(alpha + gamma)
    ensures r.Ok? && d - 1 < Pow2(gamma) ==> Unpack(r.value, gamma) == (x / d, x % d)
  {
    if x < 0 || x >= Pow2(alpha + gamma) then
      Fatal("ERROR in IntConstDiv::EuclideanDivTable::function, argument out of range")
    else
      var y := Shift(x / d, gamma) + x % d;
      assert d - 1 < Pow2(gamma) ==> Unpack(y, gamma) == (x / d, x % d) by {
        if d - 1 < Pow2(gamma) {
          LoHiUnique(y, gamma, x / d, x % d);
        }
      }
      Ok(y)
  }

  /** The width alpha * 2^level of a block of 2^level digits. */
  function BlockWidth(alpha: nat, level: nat): nat
  {
    if level == 0 then alpha else 2 * BlockWidth(alpha, level - 1)
  }

  lemma {:induction false} BlockWidthIsProduct(alpha: nat, level: nat)
    ensures BlockWidth(alpha, level) == alpha * Pow2(level)
  {
    if level != 0 {
      BlockWidthIsProduct(alpha, level - 1);
    }
  }

  /** The number a table of the logarithmic architecture divides. At level 0 the
      input is one digit. Above, it is a remainder r1 above a gamma-bit remainder
      r0, and r1 stands for a block alpha * 2^(level-1) bits above r0's. */
  function CBLKDividend(level: nat, alpha: nat, gamma: nat, x: int): int
  {
    if level == 0 then x
    else Lo(x, gamma) + Shift(Hi(x, gamma), BlockWidth(alpha, level - 1))
  }

  /** CBLKTable::function: the packed quotient and remainder of the dividend by d. */
  function CBLKTable(level: nat, d: nat, alpha: nat, gamma: nat, x: int): (r: int)
    requires d >= 1
    ensures d - 1 < Pow2(gamma) ==>
              var y := CBLKDividend(level, alpha, gamma, x);
              Unpack(r, gamma) == (y / d, y % d)
  {
    var y := CBLKDividend(level, alpha, gamma, x);
    var out := Shift(y / d, gamma) + y % d;
    assert d - 1 < Pow2(gamma) ==> Unpack(out, gamma) == (y / d, y % d) by {
      if d - 1 < Pow2(gamma) {
        LoHiUnique(out, gamma, y / d, y % d);
      }
    }
    out
  }

  /** One node of the logarithmic tree. Take a block H written W = alpha * 2^(level-1)
      bits above a block L. Feed the level table the remainders of H and L. Its
      remainder is the remainder of the whole. Its quotient, added to the two
      sub-quotients placed side by side, is the quotient of the whole. */
  lemma CBLKCombines(level: nat, d: nat, alpha: nat, gamma: nat, H: int, L: int)
    requires level >= 1 && d >= 1 && d - 1 < Pow2(gamma)
    ensures var W := BlockWidth(alpha, level - 1);
            var out := Unpack(CBLKTable(level, d, alpha, gamma, Shift(H % d, gamma) + L % d), gamma);
            (Shift(H, W) + L) / d == Shift(H / d, W) + L / d + out.0 &&
            (Shift(H, W) + L) % d == out.1
  {
    var W := BlockWidth(alpha, level - 1);
    var x := Shift(H % d, gamma) + L % d;
    LoHiUnique(x, gamma, H % d, L % d);
    var y := L % d + Shift(H % d, W);
    assert CBLKDividend(level, alpha, gamma, x) == y;
    ShiftDivMod(H, d, W);
    CombineAlgebra(Shift(H, W), L, d, Shift(H / d, W), Shift(H % d, W), y);
  }

  /** H shifted is its quotient shifted, times d, plus its remainder shifted. */
  lemma ShiftDivMod(H: int, d: nat, W: nat)
    requires d >= 1
    ensures Shift(H, W) == Shift(H / d, W) * d + Shift(H % d, W)
  {
    assert H == (H / d) * d + H % d;
    ShiftAdd((H / d) * d, H % d, W);
    ShiftMul(H / d, d, W);
  }

  /** The division of S + L, where S is A * d + B, is carried by the division of
      L's remainder plus B. */
  lemma CombineAlgebra(S: int, L: int, d: nat, A: int, B: int, y: int)
    requires d >= 1 && S == A * d + B && y == L % d + B
    ensures (S + L) / d == A + L / d + y / d && (S + L) % d == y % d
  {
    var q := A + L / d + y / d;
    assert S + L == q * d + y % d by {
      assert L == (L / d) * d + L % d;
      assert y == (y / d) * d + y % d;
      Distrib3(A, L / d, y / d, d);
    }
    DivModUnique(S + L, d, q, y % d);
  }

  // ---------------------------------------------------------------------------
  // The parameters
  // ---------------------------------------------------------------------------

  datatype Params = Params(gamma: nat, alpha: nat, qSize: nat, rho: nat, nbDigitsIn: nat)

  /** The number of alpha-bit digits the constructor cuts a wIn-bit input into. */
  function NbDigits(wIn: nat, alpha: nat): (n: nat)
    requires alpha >= 1
    ensures n * alpha >= wIn && (n == 0 || (n - 1) * alpha < wIn)
  {
    var nb := wIn / alpha;
    var inPadBits := wIn - nb * alpha;
    PadBits(wIn, alpha);
    if inPadBits != 0 then nb + 1 else nb
  }

  /** The padding is what the whole digits leave of the input, less than a digit. */
  lemma PadBits(wIn: nat, alpha: nat)
    requires alpha >= 1
    ensures var nb := wIn / alpha;
            nb >= 0 && 0 <= wIn - nb * alpha < alpha && (nb + 1) * alpha == nb * alpha + alpha &&
            (nb > 0 ==> (nb - 1) * alpha == nb * alpha - alpha)
  {
    var nb := wIn / alpha;
    assert wIn == nb * alpha + wIn % alpha;
    DivMonotone(0, wIn, alpha);
  }

  /** The default alpha: in the linear architecture a digit and a remainder fill
      one LUT, with at least one bit of digit; in the logarithmic one a digit
      fills a LUT. */
  function DefaultAlpha(architecture: int, lutInputs: int, gamma: nat): int
  {
    if architecture == 0 then (if lutInputs - gamma < 1 then 1 else lutInputs - gamma)
    else lutInputs
  }

  /** The widths of an operator for wIn-bit inputs: qSize bits hold every
      quotient of a wIn-bit input, rho every quotient of an alpha-bit digit, and the
      nbDigitsIn digits cover the input with less than one digit to spare. */
  ghost predicate Sized(p: Params, d: nat, wIn: nat)
    requires d >= 1
  {
    (Pow2(wIn) - 1) / d < Pow2(p.qSize) && (Pow2(p.alpha) - 1) / d < Pow2(p.rho) &&
    p.nbDigitsIn * p.alpha >= wIn && (p.nbDigitsIn == 0 || (p.nbDigitsIn - 1) * p.alpha < wIn)
  }

  /** Enough bits for every quotient by d of a w-bit number, and no more. */
  function QuotientBits(w: nat, d: nat): (q: nat)
    requires d >= 1
    ensures (Pow2(w) - 1) / d < Pow2(q) && ((Pow2(w) - 1) / d >= 1 ==> Pow2(q - 1) <= (Pow2(w) - 1) / d)
  {
    IntLog2((Pow2(w) - 1) / d)
  }

  lemma SizedParams(p: Params, d: nat, wIn: nat)
    requires d >= 1 && p.alpha >= 1
    requires p.qSize == QuotientBits(wIn, d) && p.rho == QuotientBits(p.alpha, d) && p.nbDigitsIn == NbDigits(wIn, p.alpha)
    ensures Sized(p, d, wIn)
  {
  }

  /** The constructor's parameter derivation. Architectures other than 0 and 1
      are fatal; gamma bits hold every remainder, and no fewer do. */
  function Parameters(d: nat, wIn: nat, alpha: int, architecture: int, lutInputs: int): (r: Result<Params>)
    requires d >= 1 && (alpha == -1 || alpha >= 1) && lutInputs >= 1
    ensures r.Fatal? <==> architecture != 0 && architecture != 1
    ensures r.Ok? ==> d - 1 < Pow2(r.value.gamma) && (d >= 2 ==> Pow2(r.value.gamma - 1) <= d - 1)
    ensures r.Ok? ==> r.value.alpha >= 1 && (alpha != -1 ==> r.value.alpha == alpha)
    ensures r.Ok? && alpha == -1 && architecture == 0 ==>
              r.value.alpha + r.value.gamma >= lutInputs && (r.value.alpha == 1 || r.value.alpha + r.value.gamma == lutInputs)
    ensures r.Ok? && alpha == -1 && architecture == 1 ==> r.value.alpha == lutInputs
    ensures r.Ok? ==> Sized(r.value, d, wIn)
  {
    var gamma := IntLog2(d - 1);
    var a := if alpha == -1 then DefaultAlpha(architecture, lutInputs, gamma) else alpha;
    var qSize := QuotientBits(wIn, d);
    var rho := QuotientBits(a, d);
    var nbDigitsIn := NbDigits(wIn, a);
    SizedParams(Params(gamma, a, qSize, rho, nbDigitsIn), d, wIn);
    if architecture != 0 && architecture != 1 then Fatal("arch not supported")
    else Ok(Params(gamma, a, qSize, rho, nbDigitsIn))
  }

  // ---------------------------------------------------------------------------
  // Radix-2^alpha digits
  // ---------------------------------------------------------------------------

  /** The radix-2^alpha digits of x, least significant first. */
  function Digits(x: int, alpha: nat, n: nat): (ds: seq<int>)
    ensures |ds| == n && forall i :: 0 <= i < n ==> 0 <= ds[i] < Pow2(alpha)
    decreases n
  {
    if n == 0 then [] else [Lo(x, alpha)] + Digits(Hi(x, alpha), alpha, n - 1)
  }

  /** The number radix-2^alpha digits, least significant first, stand for. */
  function DigitsValue(ds: seq<int>, alpha: nat): int
  {
    if |ds| == 0 then 0 else ds[0] + Shift(DigitsValue(ds[1..], alpha), alpha)
  }

  /** 2^(alpha n), the first number n digits cannot write. */
  function Radix(alpha: nat, n: nat): int
  {
    if n == 0 then 1 else Shift(Radix(alpha, n - 1), alpha)
  }

  lemma {:induction false} RadixPow2(alpha: nat, n: nat)
    ensures Radix(alpha, n) == Pow2(alpha * n)
  {
    if n != 0 {
      RadixPow2(alpha, n - 1);
      ShiftPow2(alpha * (n - 1), alpha);
      assert alpha * (n - 1) + alpha == alpha * n;
    }
  }

  /** Cutting a number of [0, 2^(alpha n)) into n digits loses nothing. */
  lemma {:induction false} DigitsRoundTrip(x: int, alpha: nat, n: nat)
    requires 0 <= x < Radix(alpha, n)
    ensures DigitsValue(Digits(x, alpha, n), alpha) == x
    decreases n
  {
    if n == 0 {
    } else {
      var h := Hi(x, alpha);
      HiNonNegative(x, alpha);
      assert x == Lo(x, alpha) + Shift(h, alpha);
      assert h < Radix(alpha, n - 1) by {
        if h >= Radix(alpha, n - 1) {
          ShiftMonotone(Radix(alpha, n - 1), h, alpha);
        }
      }
      DigitsRoundTrip(h, alpha, n - 1);
      assert Digits(x, alpha, n)[1..] == Digits(h, alpha, n - 1);
    }
  }

  // ---------------------------------------------------------------------------
  // The linear architecture
  // ---------------------------------------------------------------------------

  lemma DivBelow(x: int, P: nat, B: int)
    requires P >= 1 && x < P * B
    ensures x / P < B
  {
  }

  /** One step of long division in radix 2^alpha: the remainder so far followed by
      the next digit is what the table divides. Its quotient is the next quotient
      digit, below 2^alpha, and its remainder is the new remainder. */
  lemma HornerDivStep(high: int, x: int, d: nat, alpha: nat)
    requires d >= 1 && 0 <= x < Pow2(alpha)
    ensures 0 <= Shift(high % d, alpha) + x
    ensures (x + Shift(high, alpha)) / d == Shift(high / d, alpha) + (Shift(high % d, alpha) + x) / d
    ensures (x + Shift(high, alpha)) % d == (Shift(high % d, alpha) + x) % d
    ensures 0 <= (Shift(high % d, alpha) + x) / d < Pow2(alpha)
  {
    ShiftDivMod(high, d, alpha);
    AddMultiple(x + Shift(high, alpha), Shift(high % d, alpha) + x, Shift(high / d, alpha), d);
    DigitBound(high % d, x, d, alpha);
  }

  /** Adding a multiple of d moves the quotient and keeps the remainder. */
  lemma AddMultiple(v: int, inp: int, A: int, d: nat)
    requires d >= 1 && v == A * d + inp
    ensures v / d == A + inp / d && v % d == inp % d
  {
    assert v == (A + inp / d) * d + inp % d by {
      assert inp == (inp / d) * d + inp % d;
    }
    DivModUnique(v, d, A + inp / d, inp % d);
  }

  /** A remainder followed by a digit, divided by d, is again a digit. */
  lemma DigitBound(r: int, x: int, d: nat, alpha: nat)
    requires d >= 1 && 0 <= r < d && 0 <= x < Pow2(alpha)
    ensures 0 <= Shift(r, alpha) + x && 0 <= (Shift(r, alpha) + x) / d < Pow2(alpha)
  {
    var inp := Shift(r, alpha) + x;
    ShiftBelow(r, d, alpha);
    ShiftIsProduct(d, alpha);
    DivBelow(inp, d, Pow2(alpha));
    DivMonotone(0, inp, d);
  }

  /** A number below d, shifted, leaves room for a digit below d shifted. */
  lemma ShiftBelow(r: int, d: nat, alpha: nat)
    requires 0 <= r < d
    ensures 0 <= Shift(r, alpha) && Shift(r, alpha) + Pow2(alpha) <= Shift(d, alpha)
  {
    ShiftMonotone(r, d - 1, alpha);
    ShiftSub(d, 1, alpha);
    ShiftPow2(0, alpha);
    ShiftNonNegative(r, alpha);
  }

  /** The table never sees an argument out of its range: a remainder below d fits
      gamma bits, so a remainder followed by a digit fits alpha + gamma bits. */
  lemma TableInRange(r: int, x: int, d: nat, alpha: nat, gamma: nat)
    requires 0 <= r < d && d - 1 < Pow2(gamma) && 0 <= x < Pow2(alpha)
    ensures 0 <= Shift(r, alpha) + x < Pow2(alpha + gamma)
  {
    ShiftMonotone(r, Pow2(gamma) - 1, alpha);
    ShiftSub(Pow2(gamma), 1, alpha);
    ShiftPow2(gamma, alpha);
    ShiftPow2(0, alpha);
    ShiftNonNegative(r, alpha);
  }

  /** The linear architecture on input X. From the most significant digit down,
      the table divides the remainder so far followed by the digit, and the
      quotient digit is read from bits alpha+gamma-1 to gamma of its output. The
      quotient digits, each below 2^alpha, spell X div d, and the last remainder
      is X mod d. */
  method LinearArchitecture(X: int, d: nat, alpha: nat, gamma: nat, nbDigitsIn: nat) returns (qs: seq<int>, r: int)
    requires d >= 1 && d - 1 < Pow2(gamma) && 0 <= X < Radix(alpha, nbDigitsIn)
    ensures |qs| == nbDigitsIn && forall i :: 0 <= i < |qs| ==> 0 <= qs[i] < Pow2(alpha)
    ensures DigitsValue(qs, alpha) == X / d && r == X % d
  {
    var xs := Digits(X, alpha, nbDigitsIn);
    r := 0;
    qs := [];
    var i := nbDigitsIn;
    while i > 0
      invariant 0 <= i <= nbDigitsIn
      invariant |qs| == nbDigitsIn - i && forall k :: 0 <= k < |qs| ==> 0 <= qs[k] < Pow2(alpha)
      invariant SuffixDivided(xs, i, qs, r, d, alpha)
    {
      i := i - 1;
      LinearStep(xs, i, qs, r, d, alpha, gamma);
      var out := TableOutput(d, alpha, gamma, r, xs[i]);
      PrependDigit(out.0, qs, alpha);
      qs := [out.0] + qs;
      r := out.1;
    }
    DigitsRoundTrip(X, alpha, nbDigitsIn);
    assert xs[0..] == xs;
  }

  /** The quotient digits and the remainder so far are the division of the digits
      from i up. */
  ghost predicate SuffixDivided(xs: seq<int>, i: nat, qs: seq<int>, r: int, d: nat, alpha: nat)
    requires d >= 1 && i <= |xs|
  {
    DigitsValue(qs, alpha) == DigitsValue(xs[i..], alpha) / d && r == DigitsValue(xs[i..], alpha) % d
  }

  /** One table of the chain, fed the remainder r followed by the digit x: the
      quotient digit, read from bits alpha+gamma-1 to gamma, and the new remainder. */
  function TableOutput(d: nat, alpha: nat, gamma: nat, r: int, x: int): (out: (int, int))
    requires d >= 1 && d - 1 < Pow2(gamma) && 0 <= r < d && 0 <= x < Pow2(alpha)
    ensures 0 <= out.0 < Pow2(alpha) && 0 <= out.1 < Pow2(gamma)
  {
    TableInRange(r, x, d, alpha, gamma);
    var out := EuclideanDivTable(d, alpha, gamma, Shift(r, alpha) + x).value;
    (Lo(Hi(out, gamma), alpha), Lo(out, gamma))
  }

  /** One table of the chain carries the division of the digits above digit i on
      to the digits from i up. */
  lemma LinearStep(xs: seq<int>, i: nat, qs: seq<int>, r: int, d: nat, alpha: nat, gamma: nat)
    requires d >= 1 && d - 1 < Pow2(gamma) && i < |xs| && 0 <= xs[i] < Pow2(alpha)
    requires SuffixDivided(xs, i + 1, qs, r, d, alpha)
    ensures 0 <= r < d
    ensures SuffixDivided(xs, i, [TableOutput(d, alpha, gamma, r, xs[i]).0] + qs, TableOutput(d, alpha, gamma, r, xs[i]).1, d, alpha)
  {
    var high := DigitsValue(xs[i + 1..], alpha);
    TableStep(high, xs[i], r, d, alpha, gamma);
    var out := TableOutput(d, alpha, gamma, r, xs[i]);
    ChainDigits(xs, i, qs, out.0, d, alpha);
  }

  lemma PrependDigit(q: int, qs: seq<int>, alpha: nat)
    requires 0 <= q < Pow2(alpha) && forall k :: 0 <= k < |qs| ==> 0 <= qs[k] < Pow2(alpha)
    ensures forall k :: 0 <= k < |[q] + qs| ==> 0 <= ([q] + qs)[k] < Pow2(alpha)
  {
  }

  lemma ChainDigits(xs: seq<int>, i: nat, qs: seq<int>, qi: int, d: nat, alpha: nat)
    requires d >= 1 && i < |xs|
    ensures DigitsValue(xs[i..], alpha) == xs[i] + Shift(DigitsValue(xs[i + 1..], alpha), alpha)
    ensures DigitsValue([qi] + qs, alpha) == qi + Shift(DigitsValue(qs, alpha), alpha)
  {
    assert xs[i..][1..] == xs[i + 1..];
    assert ([qi] + qs)[1..] == qs;
  }

  /** The table's output, cut into quotient digit and remainder, is the division
      of the remainder so far followed by the digit x. */
  lemma TableStep(high: int, x: int, r: int, d: nat, alpha: nat, gamma: nat)
    requires d >= 1 && d - 1 < Pow2(gamma) && 0 <= x < Pow2(alpha) && r == high % d
    ensures EuclideanDivTable(d, alpha, gamma, Shift(r, alpha) + x).Ok?
    ensures var out := EuclideanDivTable(d, alpha, gamma, Shift(r, alpha) + x).value;
            Lo(Hi(out, gamma), alpha) + Shift(high / d, alpha) == (x + Shift(high, alpha)) / d &&
            Lo(out, gamma) == (x + Shift(high, alpha)) % d
  {
    TableInRange(r, x, d, alpha, gamma);
    var out := EuclideanDivTable(d, alpha, gamma, Shift(r, alpha) + x).value;
    TableDecodes(high, x, r, Hi(out, gamma), Lo(out, gamma), d, alpha);
  }

  /** A table's quotient and remainder for the remainder r of high followed by x
      continue the division of high into that of high followed by x. */
  lemma TableDecodes(high: int, x: int, r: int, qi: int, ri: int, d: nat, alpha: nat)
    requires d >= 1 && 0 <= x < Pow2(alpha) && r == high % d
    requires qi == (Shift(r, alpha) + x) / d && ri == (Shift(r, alpha) + x) % d
    ensures Lo(qi, alpha) + Shift(high / d, alpha) == (x + Shift(high, alpha)) / d
    ensures ri == (x + Shift(high, alpha)) % d
  {
    HornerDivStep(high, x, d, alpha);
    LoSmall(qi, alpha);
  }

  // ---------------------------------------------------------------------------
  // The logarithmic architecture
  // ---------------------------------------------------------------------------

  /** Level 0: every digit divided alone by the level-0 table. */
  function Leaves(d: nat, alpha: nat, gamma: nat, xs: seq<int>): (ps: seq<(int, int)>)
    requires d >= 1
    ensures |ps| == |xs|
    ensures d - 1 < Pow2(gamma) ==> forall i :: 0 <= i < |xs| ==> ps[i] == (xs[i] / d, xs[i] % d)
  {
    if |xs| == 0 then [] else [Unpack(CBLKTable(0, d, alpha, gamma, xs[0]), gamma)] + Leaves(d, alpha, gamma, xs[1..])
  }

  /** One table of a level above 0: it is fed the remainder of the high block
      above the remainder of the low one, and the partial quotient is its quotient
      plus the two sub-quotients placed side by side. */
  function Node(level: nat, d: nat, alpha: nat, gamma: nat, high: (int, int), low: (int, int)): (int, int)
    requires level >= 1 && d >= 1
  {
    var out := Unpack(CBLKTable(level, d, alpha, gamma, Shift(high.1, gamma) + low.1), gamma);
    (out.0 + Shift(high.0, BlockWidth(alpha, level - 1)) + low.0, out.1)
  }

  /** One level: neighbouring blocks merged in pairs, the low block first. An odd
      last block is fed to its table under a zero remainder. */
  function CombineLevel(level: nat, d: nat, alpha: nat, gamma: nat, ps: seq<(int, int)>): (r: seq<(int, int)>)
    requires level >= 1 && d >= 1
    ensures |r| == (|ps| + 1) / 2
  {
    if |ps| == 0 then []
    else if |ps| == 1 then [Node(level, d, alpha, gamma, (0, 0), ps[0])]
    else [Node(level, d, alpha, gamma, ps[1], ps[0])] + CombineLevel(level, d, alpha, gamma, ps[2..])
  }

  /** The levels from `level` up to levels - 1. */
  function Tree(level: nat, levels: nat, d: nat, alpha: nat, gamma: nat, ps: seq<(int, int)>): (r: seq<(int, int)>)
    requires level >= 1 && d >= 1
    ensures |ps| >= 1 ==> |r| >= 1
    decreases levels - level
  {
    if level >= levels then ps else Tree(level + 1, levels, d, alpha, gamma, CombineLevel(level, d, alpha, gamma, ps))
  }

  /** The number of levels: the tree is deep enough to merge every digit. */
  function Levels(nbDigitsIn: nat): nat
  {
    IntLog2(2 * nbDigitsIn - 1)
  }

  /** The logarithmic architecture on input X: the partial quotient and remainder of
      the last block built. */
  function LogarithmicArchitecture(X: int, d: nat, alpha: nat, gamma: nat, nbDigitsIn: nat): (int, int)
    requires d >= 1
  {
    var ps := Tree(1, Levels(nbDigitsIn), d, alpha, gamma, Leaves(d, alpha, gamma, Digits(X, alpha, nbDigitsIn)));
    if |ps| == 0 then (0, 0) else ps[|ps| - 1]
  }

  /** The code as written reads Q and R from the signals the last level above 0
      declared. With a single digit there is no such level, and Q and R are driven
      by signal names that were never set. */
  function LogarithmicAsWritten(X: int, d: nat, alpha: nat, gamma: nat, nbDigitsIn: nat): (r: Result<(int, int)>)
    requires d >= 1
    ensures r.Ok? ==> r.value == LogarithmicArchitecture(X, d, alpha, gamma, nbDigitsIn)
  {
    if Levels(nbDigitsIn) <= 1 then Fatal("Q and R assigned from undeclared signals")
    else Ok(LogarithmicArchitecture(X, d, alpha, gamma, nbDigitsIn))
  }

  /** The values of the blocks of the next level: neighbours merged in pairs. */
  function Pair(vs: seq<int>, W: nat): seq<int>
  {
    if |vs| == 0 then []
    else if |vs| == 1 then [vs[0]]
    else [vs[0] + Shift(vs[1], W)] + Pair(vs[2..], W)
  }

  function TreeValues(level: nat, levels: nat, alpha: nat, vs: seq<int>): seq<int>
    requires level >= 1
    decreases levels - level
  {
    if level >= levels then vs else TreeValues(level + 1, levels, alpha, Pair(vs, BlockWidth(alpha, level - 1)))
  }

  /** Each partial quotient and remainder is the division of its block's value. */
  ghost predicate Divides(ps: seq<(int, int)>, vs: seq<int>, d: nat)
    requires d >= 1
  {
    |ps| == |vs| && forall i :: 0 <= i < |ps| ==> ps[i] == (vs[i] / d, vs[i] % d)
  }

  /** Merging blocks in pairs keeps the number they spell, in twice the radix. */
  lemma {:induction false} PairValue(vs: seq<int>, W: nat)
    ensures |Pair(vs, W)| == (|vs| + 1) / 2
    ensures DigitsValue(Pair(vs, W), W + W) == DigitsValue(vs, W)
  {
    if |vs| == 0 {
    } else if |vs| == 1 {
      ShiftZero(W);
      ShiftZero(W + W);
    } else {
      var rest := DigitsValue(vs[2..], W);
      PairValue(vs[2..], W);
      assert vs[1..][1..] == vs[2..];
      assert Pair(vs, W)[1..] == Pair(vs[2..], W);
      ShiftAdd(vs[1], Shift(rest, W), W);
      ShiftShift(rest, W, W);
    }
  }

  /** A level computes the division of every merged block. */
  lemma {:induction false} CombineDivides(level: nat, d: nat, alpha: nat, gamma: nat, ps: seq<(int, int)>, vs: seq<int>)
    requires level >= 1 && d >= 1 && d - 1 < Pow2(gamma)
    requires Divides(ps, vs, d)
    ensures Divides(CombineLevel(level, d, alpha, gamma, ps), Pair(vs, BlockWidth(alpha, level - 1)), d)
  {
    var W := BlockWidth(alpha, level - 1);
    PairValue(vs, W);
    if |ps| == 0 {
    } else if |ps| == 1 {
      NodeDivides(level, d, alpha, gamma, 0, vs[0]);
      ShiftZero(W);
    } else {
      NodeDivides(level, d, alpha, gamma, vs[1], vs[0]);
      CombineDivides(level, d, alpha, gamma, ps[2..], vs[2..]);
      var c := CombineLevel(level, d, alpha, gamma, ps);
      var p := Pair(vs, W);
      assert c[1..] == CombineLevel(level, d, alpha, gamma, ps[2..]);
      assert p[1..] == Pair(vs[2..], W);
      ConsDivides(c, p, d);
    }
  }

  /** A table above level 0 fed the divisions of a high and a low block gives the
      division of the merged block. */
  lemma NodeDivides(level: nat, d: nat, alpha: nat, gamma: nat, H: int, L: int)
    requires level >= 1 && d >= 1 && d - 1 < Pow2(gamma)
    ensures Node(level, d, alpha, gamma, (H / d, H % d), (L / d, L % d)) ==
            ((Shift(H, BlockWidth(alpha, level - 1)) + L) / d, (Shift(H, BlockWidth(alpha, level - 1)) + L) % d)
  {
    CBLKCombines(level, d, alpha, gamma, H, L);
  }

  lemma ConsDivides(c: seq<(int, int)>, p: seq<int>, d: nat)
    requires d >= 1 && |c| >= 1 && |c| == |p| && c[0] == (p[0] / d, p[0] % d)
    requires Divides(c[1..], p[1..], d)
    ensures Divides(c, p, d)
  {
    forall i | 1 <= i < |c|
      ensures c[i] == (p[i] / d, p[i] % d)
    {
      assert c[i] == c[1..][i - 1];
      assert p[i] == p[1..][i - 1];
    }
  }

  /** Every level above 0 keeps the blocks' divisions right and the number they
      spell, each time in twice the radix. */
  lemma {:induction false} TreeDivides(level: nat, levels: nat, d: nat, alpha: nat, gamma: nat, ps: seq<(int, int)>, vs: seq<int>)
    requires 1 <= level <= levels && d >= 1 && d - 1 < Pow2(gamma)
    requires Divides(ps, vs, d)
    ensures Divides(Tree(level, levels, d, alpha, gamma, ps), TreeValues(level, levels, alpha, vs), d)
    ensures DigitsValue(TreeValues(level, levels, alpha, vs), BlockWidth(alpha, levels - 1)) == DigitsValue(vs, BlockWidth(alpha, level - 1))
    ensures |TreeValues(level, levels, alpha, vs)| == Halvings(|vs|, levels - level)
    decreases levels - level
  {
    if level < levels {
      var W := BlockWidth(alpha, level - 1);
      CombineDivides(level, d, alpha, gamma, ps, vs);
      PairValue(vs, W);
      TreeDivides(level + 1, levels, d, alpha, gamma, CombineLevel(level, d, alpha, gamma, ps), Pair(vs, W));
    }
  }

  /** The number of blocks left after k levels, from n blocks. */
  function Halvings(n: nat, k: nat): nat
  {
    if k == 0 then n else Halvings((n + 1) / 2, k - 1)
  }

  lemma {:induction false} HalvingsToOne(n: nat, k: nat)
    requires 1 <= n <= Pow2(k)
    ensures Halvings(n, k) == 1
  {
    if k != 0 {
      HalvingsToOne((n + 1) / 2, k - 1);
    }
  }

  /** Levels(n) levels leave a single block of n digits. */
  lemma LevelsEnough(nbDigitsIn: nat)
    requires nbDigitsIn >= 1
    ensures Levels(nbDigitsIn) >= 1 && Halvings(nbDigitsIn, Levels(nbDigitsIn) - 1) == 1
  {
    var L := Levels(nbDigitsIn);
    assert Pow2(L) == 2 * Pow2(L - 1);
    HalvingsToOne(nbDigitsIn, L - 1);
  }

  /** The logarithmic architecture divides: its last block is the whole input, so
      its partial quotient is X div d and its remainder X mod d. */
  lemma LogarithmicCorrect(X: int, d: nat, alpha: nat, gamma: nat, nbDigitsIn: nat)
    requires d >= 1 && d - 1 < Pow2(gamma) && 0 <= X < Radix(alpha, nbDigitsIn)
    ensures LogarithmicArchitecture(X, d, alpha, gamma, nbDigitsIn) == (X / d, X % d)
  {
    if nbDigitsIn == 0 {
      assert X == 0;
    } else {
      TreeRoot(X, d, alpha, gamma, nbDigitsIn);
    }
  }

  /** From at least one digit, the tree ends in a single block: the whole input. */
  lemma TreeRoot(X: int, d: nat, alpha: nat, gamma: nat, nbDigitsIn: nat)
    requires d >= 1 && d - 1 < Pow2(gamma) && 0 <= X < Radix(alpha, nbDigitsIn) && nbDigitsIn >= 1
    ensures var ps := Tree(1, Levels(nbDigitsIn), d, alpha, gamma, Leaves(d, alpha, gamma, Digits(X, alpha, nbDigitsIn)));
            |ps| == 1 && ps[0] == (X / d, X % d)
  {
    var xs := Digits(X, alpha, nbDigitsIn);
    DigitsRoundTrip(X, alpha, nbDigitsIn);
    var L := Levels(nbDigitsIn);
    LevelsEnough(nbDigitsIn);
    var leaves := Leaves(d, alpha, gamma, xs);
    assert Divides(leaves, xs, d);
    TreeDivides(1, L, d, alpha, gamma, leaves, xs);
    var vs := TreeValues(1, L, alpha, xs);
    ShiftZero(BlockWidth(alpha, L - 1));
    assert DigitsValue(vs, BlockWidth(alpha, L - 1)) == vs[0];
  }

  /** With one digit the code as written names no signal for Q and R, while the
      tree it stands for already holds the answer in its only leaf; with more
      digits the two agree. */
  lemma LogarithmicAsWrittenSingleDigit(X: int, d: nat, alpha: nat, gamma: nat, nbDigitsIn: nat)
    requires d >= 1 && d - 1 < Pow2(gamma) && 0 <= X < Radix(alpha, nbDigitsIn)
    ensures nbDigitsIn <= 1 <==> LogarithmicAsWritten(X, d, alpha, gamma, nbDigitsIn).Fatal?
    ensures LogarithmicArchitecture(X, d, alpha, gamma, nbDigitsIn) == (X / d, X % d)
  {
    LogarithmicCorrect(X, d, alpha, gamma, nbDigitsIn);
    if nbDigitsIn >= 2 {
      IntLog2Monotone(3, 2 * nbDigitsIn - 1);
      assert IntLog2(3) == 2 by {
        assert IntLog2(1) == 1;
      }
    } else if nbDigitsIn == 1 {
      assert IntLog2(1) == 1;
    }
  }

  // ---------------------------------------------------------------------------
  // The operator
  // ---------------------------------------------------------------------------

  /** emulate: the expected outputs, Q (unless only the remainder is wanted) and R,
      the Euclidean quotient and remainder of X by d. */
  function Emulate(X: int, d: nat, remainderOnly: bool): (outs: seq<(string, int)>)
    requires d >= 1
    ensures |outs| == (if remainderOnly then 1 else 2)
    ensures outs[|outs| - 1].0 == "R" && 0 <= outs[|outs| - 1].1 < d
    ensures !remainderOnly ==> outs[0].0 == "Q" && outs[0].1 * d + outs[1].1 == X
  {
    if remainderOnly then [("R", X % d)] else [("Q", X / d), ("R", X % d)]
  }

  lemma DivMonotone(a: int, b: int, d: nat)
    requires d >= 1 && a <= b
    ensures a / d <= b / d
  {
    var qa, qb := a / d, b / d;
    assert (qa - qb) * d == (a - a % d) - (b - b % d);
    assert (qa - qb) * d < d;
    if qa - qb >= 1 {
      MulAtLeast(qa - qb, d);
    }
  }

  /** The quotient output keeps qSize bits of the quotient digits; for a wIn-bit
      input nothing is lost. */
  lemma QuotientFits(X: int, d: nat, wIn: nat, qSize: nat)
    requires d >= 1 && 0 <= X < Pow2(wIn) && (Pow2(wIn) - 1) / d < Pow2(qSize)
    ensures Lo(X / d, qSize) == X / d
  {
    var q := X / d;
    DivMonotone(X, Pow2(wIn) - 1, d);
    DivMonotone(0, X, d);
    LoSmall(q, qSize);
  }

  /** The digits cover a wIn-bit input. */
  lemma InputFits(X: int, wIn: nat, alpha: nat, n: nat)
    requires 0 <= X < Pow2(wIn) && n * alpha >= wIn
    ensures X < Radix(alpha, n)
  {
    RadixPow2(alpha, n);
    assert alpha * n == n * alpha;
    Pow2Monotone(wIn, alpha * n);
  }

  /** IntConstDiv: the outputs of the chosen architecture on a wIn-bit input are
      the ones emulate expects; architectures other than 0 and 1 are fatal. */
  method Operator(X: int, d: nat, wIn: nat, alpha: int, architecture: int, lutInputs: int, remainderOnly: bool)
    returns (r: Result<seq<(string, int)>>)
    requires d >= 1 && (alpha == -1 || alpha >= 1) && lutInputs >= 1 && 0 <= X < Pow2(wIn)
    ensures r.Fatal? <==> architecture != 0 && architecture != 1
    ensures r.Ok? ==> r.value == Emulate(X, d, remainderOnly)
  {
    var params := Parameters(d, wIn, alpha, architecture, lutInputs);
    if params.Fatal? {
      return Fatal(params.msg);
    }
    var p := params.value;
    InputFits(X, wIn, p.alpha, p.nbDigitsIn);
    var quotient, remainder;
    if architecture == 0 {
      var qs;
      qs, remainder := LinearArchitecture(X, d, p.alpha, p.gamma, p.nbDigitsIn);
      quotient := DigitsValue(qs, p.alpha);
    } else {
      LogarithmicCorrect(X, d, p.alpha, p.gamma, p.nbDigitsIn);
      quotient, remainder := LogarithmicArchitecture(X, d, p.alpha, p.gamma, p.nbDigitsIn).0,
                             LogarithmicArchitecture(X, d, p.alpha, p.gamma, p.nbDigitsIn).1;
    }
    QuotientFits(X, d, wIn, p.qSize);
    var Q := Lo(quotient, p.qSize);
    r := Ok(if remainderOnly then [("R", remainder)] else [("Q", Q), ("R", remainder)]);
  }
}
