/** Integer and binary-string utilities of src/utils.cpp.

    Binary strings are written most significant bit first, one '0' or '1' per bit. */
module Utils {
  import opened Wrappers

  /** 2^n on unbounded integers. */
  function Pow2(n: nat): (r: nat)
    ensures r >= 1
  {
    if n == 0 then 1 else 2 * Pow2(n - 1)
  }

  lemma {:induction false} Pow2Add(a: nat, b: nat)
    ensures Pow2(a + b) == Pow2(a) * Pow2(b)
  {
    if b != 0 {
      Pow2Add(a, b - 1);
      assert Pow2(a + b) == 2 * Pow2(a + b - 1);
    }
  }

  lemma {:induction false} Pow2Monotone(a: nat, b: nat)
    requires a <= b
    ensures Pow2(a) <= Pow2(b)
  {
    if a < b {
      Pow2Monotone(a, b - 1);
    }
  }

  lemma Pow2Injective(a: nat, b: nat)
    requires Pow2(a) < Pow2(b)
    ensures a < b
  {
    if a >= b {
      Pow2Monotone(b, a);
    }
  }

  /** The number of bits needed to write `n`: the least r with 2^r > n
      (0 for every n < 1). Both intlog2 overloads of utils.cpp compute it. */
  function IntLog2(n: int): (r: nat)
    ensures n < Pow2(r)
    ensures n >= 1 ==> r >= 1 && Pow2(r - 1) <= n
    ensures n < 1 ==> r == 0
    decreases if n < 1 then 0 else n
  {
    if n < 1 then 0 else 1 + IntLog2(n / 2)
  }

  /** IntLog2 is the LEAST exponent whose power of two exceeds n. */
  lemma IntLog2Least(n: int, r: nat)
    requires n < Pow2(r)
    ensures IntLog2(n) <= r
  {
    if n >= 1 {
      Pow2Injective(IntLog2(n) - 1, r);
    }
  }

  /** Any exponent whose power of two exceeds n, with the power below it not exceeding n,
      is IntLog2(n). */
  lemma IntLog2Unique(n: int, r: nat)
    requires n < Pow2(r)
    requires r >= 1 && Pow2(r - 1) <= n
    ensures IntLog2(n) == r
  {
    IntLog2Least(n, r);
    Pow2Injective(r - 1, IntLog2(n));
  }

  lemma IntLog2Monotone(a: int, b: int)
    requires a <= b
    ensures IntLog2(a) <= IntLog2(b)
  {
    IntLog2Least(a, IntLog2(b));
  }

  /** The mpz_class overload of intlog2, loop for loop. */
  method IntLog2Mpz(number: int) returns (result: nat)
    ensures number < Pow2(result)
    ensures result == 0 || Pow2(result - 1) <= number
    ensures result == IntLog2(number)
  {
    var po2: int := 1;
    result := 0;
    while po2 <= number
      invariant po2 == Pow2(result)
      invariant result == 0 || Pow2(result - 1) <= number
      decreases number - po2
    {
      po2 := po2 * 2;
      result := result + 1;
    }
    if result >= 1 {
      IntLog2Unique(number, result);
    }
  }

  /** The double overload of intlog2: a power of two exceeds a real exactly when it
      exceeds its floor, so the result is IntLog2 of the floor. */
  method IntLog2Double(number: real) returns (result: nat)
    ensures number < Pow2(result) as real
    ensures result == 0 || Pow2(result - 1) as real <= number
    ensures result == IntLog2(number.Floor)
  {
    var po2: real := 1.0;
    result := 0;
    while po2 <= number
      invariant po2 == Pow2(result) as real
      invariant result == 0 || Pow2(result - 1) as real <= number
      invariant result <= IntLog2(number.Floor)
      decreases IntLog2(number.Floor) - result
    {
      assert Pow2(result) <= number.Floor;
      if result == IntLog2(number.Floor) {
        assert false;
      }
      po2 := po2 * 2.0;
      result := result + 1;
    }
    assert number.Floor < Pow2(result);
    if result >= 1 {
      assert Pow2(result - 1) <= number.Floor;
      IntLog2Unique(number.Floor, result);
    }
  }

  /** intpow2: 2^power as a double; the loop never runs for power <= 0, giving 1. */
  method IntPow2(power: int) returns (x: real)
    ensures power >= 0 ==> x == Pow2(power) as real
    ensures power <= 0 ==> x == 1.0
  {
    x := 1.0;
    var i := 0;
    while i < power
      invariant 0 <= i
      invariant power >= 0 ==> i <= power
      invariant power <= 0 ==> i == 0
      invariant x == Pow2(i) as real
    {
      x := x * 2.0;
      i := i + 1;
    }
  }

  /** invintpow2: 2^-minusPower, by repeated halving. */
  method InvIntPow2(minusPower: int) returns (x: real)
    ensures minusPower >= 0 ==> x * Pow2(minusPower) as real == 1.0
    ensures minusPower <= 0 ==> x == 1.0
  {
    x := 1.0;
    var i := 0;
    while i < minusPower
      invariant 0 <= i
      invariant minusPower >= 0 ==> i <= minusPower
      invariant minusPower <= 0 ==> i == 0
      invariant x * Pow2(i) as real == 1.0
    {
      x := x / 2.0;
      i := i + 1;
    }
  }

  /** The greedy digit loop shared by unsigned_binary and printBinNum: with po2 running
      through 2^(k-1), ..., 1, emit '1' and subtract whenever the remaining number
      reaches po2, '0' otherwise. */
  function GreedyBits(number: int, k: nat): string
  {
    if k == 0 then ""
    else if number >= Pow2(k - 1) then "1" + GreedyBits(number - Pow2(k - 1), k - 1)
    else "0" + GreedyBits(number, k - 1)
  }

  predicate IsBinary(s: string)
  {
    forall i :: 0 <= i < |s| ==> s[i] == '0' || s[i] == '1'
  }

  /** The value of an MSB-first binary string (any character other than '1' reads as 0). */
  function BinValue(s: string): nat
  {
    if |s| == 0 then 0
    else (if s[|s| - 1] == '1' then 1 else 0) + 2 * BinValue(s[..|s| - 1])
  }

  lemma {:induction false} BinValueBound(s: string)
    ensures BinValue(s) < Pow2(|s|)
  {
    if |s| != 0 {
      BinValueBound(s[..|s| - 1]);
    }
  }

  /** Prepending one digit adds its weight above the rest. */
  lemma {:induction false} BinValueCons(c: char, s: string)
    ensures BinValue([c] + s) == (if c == '1' then Pow2(|s|) else 0) + BinValue(s)
    decreases |s|
  {
    if |s| != 0 {
      var t := [c] + s;
      assert t[..|t| - 1] == [c] + s[..|s| - 1];
      BinValueCons(c, s[..|s| - 1]);
    }
  }

  lemma {:induction false} GreedyBitsShape(number: int, k: nat)
    ensures |GreedyBits(number, k)| == k
    ensures IsBinary(GreedyBits(number, k))
  {
    if k != 0 {
      if number >= Pow2(k - 1) {
        GreedyBitsShape(number - Pow2(k - 1), k - 1);
      } else {
        GreedyBitsShape(number, k - 1);
      }
    }
  }

  /** For 0 <= number < 2^k the greedy loop writes `number` in binary on k digits. */
  lemma {:induction false} GreedyBitsValue(number: int, k: nat)
    requires 0 <= number < Pow2(k)
    ensures BinValue(GreedyBits(number, k)) == number
  {
    if k != 0 {
      GreedyBitsShape(number, k);
      if number >= Pow2(k - 1) {
        GreedyBitsValue(number - Pow2(k - 1), k - 1);
        GreedyBitsShape(number - Pow2(k - 1), k - 1);
        BinValueCons('1', GreedyBits(number - Pow2(k - 1), k - 1));
      } else {
        GreedyBitsValue(number, k - 1);
        GreedyBitsShape(number, k - 1);
        BinValueCons('0', GreedyBits(number, k - 1));
      }
    }
  }

  /** Once the number reaches 2^k it stays above every remaining po2: all digits are '1'. */
  lemma {:induction false} GreedyBitsSaturate(number: int, k: nat)
    requires number >= Pow2(k) - 1
    ensures forall i :: 0 <= i < |GreedyBits(number, k)| ==> GreedyBits(number, k)[i] == '1'
  {
    if k != 0 {
      assert number >= Pow2(k - 1);
      GreedyBitsSaturate(number - Pow2(k - 1), k - 1);
    }
  }

  /** unsigned_binary(x, size): exits on negative x, otherwise the greedy digits of x. */
  function UnsignedBinary(x: int, size: nat): (r: Result<string>)
    ensures x < 0 <==> r.Fatal?
    ensures r.Ok? ==> |r.value| == size && IsBinary(r.value)
  {
    if x < 0 then Fatal("printBinPosNumGMP: Positive number expected")
    else
      GreedyBitsShape(x, size);
      Ok(GreedyBits(x, size))
  }

  /** Round trip: an in-range number is written with exactly `size` digits whose value is x. */
  lemma UnsignedBinaryRoundTrip(x: int, size: nat)
    requires 0 <= x < Pow2(size)
    ensures UnsignedBinary(x, size).Ok?
    ensures BinValue(UnsignedBinary(x, size).value) == x
  {
    GreedyBitsValue(x, size);
  }

  /** The other direction: re-encoding the value of a binary string of length size gives it back. */
  lemma {:induction false} UnsignedBinaryOfValue(s: string)
    requires IsBinary(s)
    ensures UnsignedBinary(BinValue(s), |s|) == Ok(s)
    decreases |s|
  {
    if |s| != 0 {
      var t := s[1..];
      assert s == [s[0]] + t;
      BinValueCons(s[0], t);
      BinValueBound(t);
      UnsignedBinaryOfValue(t);
      assert GreedyBits(BinValue(t), |t|) == t;
    }
  }

  /** An out-of-range number saturates: every digit is '1'. */
  lemma UnsignedBinarySaturates(x: int, size: nat)
    requires x >= Pow2(size)
    ensures UnsignedBinary(x, size).Ok?
    ensures forall i :: 0 <= i < size ==> UnsignedBinary(x, size).value[i] == '1'
  {
    GreedyBitsShape(x, size);
    GreedyBitsSaturate(x, size);
  }

  /** printBinNum(o, x, size) on a uint64_t x: fatal for size >= 64 or x >= 2^size,
      otherwise the same MSB-first digits as unsigned_binary. */
  function PrintBinNum(x: nat, size: nat): (r: Result<string>)
    requires x < Pow2(64)
    ensures r.Fatal? <==> size >= 64 || x >= Pow2(size)
    ensures r.Ok? ==> |r.value| == size && IsBinary(r.value) && BinValue(r.value) == x
  {
    if size >= 64 then Fatal("printBinNum: size larger than 64")
    else if x >= Pow2(size) then Fatal("printBinNum: input out of range")
    else
      GreedyBitsShape(x, size);
      GreedyBitsValue(x, size);
      Ok(GreedyBits(x, size))
  }

  /** printBinNumGMP: a sign character ('-' for negative x, ' ' otherwise) followed by the
      unsigned digits of |x|. */
  function PrintBinNumGMP(x: int, size: nat): (r: string)
    ensures |r| == size + 1
    ensures r[0] == (if x < 0 then '-' else ' ')
    ensures IsBinary(r[1..])
    ensures (if x < 0 then -x else x) < Pow2(size) ==> BinValue(r[1..]) == (if x < 0 then -x else x)
  {
    var px := if x < 0 then -x else x;
    GreedyBitsShape(px, size);
    GreedyBitsValue2(px, size);
    assert ([if x < 0 then '-' else ' '] + GreedyBits(px, size))[1..] == GreedyBits(px, size);
    [if x < 0 then '-' else ' '] + UnsignedBinary(px, size).value
  }

  lemma GreedyBitsValue2(number: int, k: nat)
    ensures 0 <= number < Pow2(k) ==> BinValue(GreedyBits(number, k)) == number
  {
    if 0 <= number < Pow2(k) {
      GreedyBitsValue(number, k);
    }
  }

  /** Ceiling division on positive divisors (used for digit and chunk counts). */
  function CeilDiv(a: nat, b: nat): (r: nat)
    requires b > 0
    ensures r * b >= a
    ensures r == 0 || (r - 1) * b < a
  {
    if a % b == 0 then a / b else a / b + 1
  }

  /** Euclidean division is unique: any decomposition a == q*m + r with 0 <= r < m is
      the one `/` and `%` compute. */
  lemma MulAtLeast(d: int, m: int)
    requires d >= 1 && m > 0
    ensures d * m >= m
  {
    var e := d - 1;
    assert e >= 0;
    assert e * m >= 0;
    assert d * m == e * m + m;
  }

  lemma DivModUnique(a: int, m: int, q: int, r: int)
    requires m > 0
    requires a == q * m + r
    requires 0 <= r < m
    ensures a / m == q
    ensures a % m == r
  {
    var q' := a / m;
    var r' := a % m;
    assert a == q' * m + r';
    var d := q - q';
    assert d * m == q * m - q' * m;
    assert d * m == r' - r;
    if d >= 1 {
      MulAtLeast(d, m);
    } else if d <= -1 {
      MulAtLeast(-d, m);
    }
  }

  lemma MultipleMod(q: int, m: int)
    requires m > 0
    ensures (q * m) % m == 0
  {
    DivModUnique(q * m, m, q, 0);
  }

  // ---------------------------------------------------------------------------
  // x * 2^k by repeated doubling. Statements about weighted sums use Shift
  // rather than a product so that their proofs stay within linear arithmetic.
  // ---------------------------------------------------------------------------

  function Shift(x: int, k: nat): int
  {
    if k == 0 then x else 2 * Shift(x, k - 1)
  }

  lemma {:induction false} ShiftIsProduct(x: int, k: nat)
    ensures Shift(x, k) == x * Pow2(k)
  {
    if k != 0 {
      ShiftIsProduct(x, k - 1);
    }
  }

  lemma {:induction false} ShiftAdd(a: int, b: int, k: nat)
    ensures Shift(a + b, k) == Shift(a, k) + Shift(b, k)
  {
    if k != 0 {
      ShiftAdd(a, b, k - 1);
    }
  }

  lemma {:induction false} ShiftSub(a: int, b: int, k: nat)
    ensures Shift(a - b, k) == Shift(a, k) - Shift(b, k)
  {
    if k != 0 {
      ShiftSub(a, b, k - 1);
    }
  }

  lemma {:induction false} ShiftZero(k: nat)
    ensures Shift(0, k) == 0
  {
    if k != 0 {
      ShiftZero(k - 1);
    }
  }

  lemma {:induction false} ShiftShift(x: int, a: nat, b: nat)
    ensures Shift(Shift(x, a), b) == Shift(x, a + b)
  {
    if b != 0 {
      ShiftShift(x, a, b - 1);
    }
  }

  lemma {:induction false} ShiftPow2(j: nat, k: nat)
    ensures Shift(Pow2(j), k) == Pow2(j + k)
  {
    if k != 0 {
      ShiftPow2(j, k - 1);
    }
  }

  lemma {:induction false} ShiftNonNegative(x: int, k: nat)
    requires x >= 0
    ensures Shift(x, k) >= x
  {
    if k != 0 {
      ShiftNonNegative(x, k - 1);
    }
  }

  /** Shift is strictly monotone: a smaller shifted value comes from a smaller one. */
  lemma ShiftLess(a: int, b: int, k: nat)
    requires Shift(a, k) < Shift(b, k)
    ensures a < b
  {
    if a >= b {
      ShiftMonotone(b, a, k);
    }
  }

  lemma {:induction false} ShiftMonotone(a: int, b: int, k: nat)
    requires a <= b
    ensures Shift(a, k) <= Shift(b, k)
  {
    if k != 0 {
      ShiftMonotone(a, b, k - 1);
    }
  }

  /** a and b are congruent modulo 2^m: they differ by a multiple of 2^m. Stated
      with Shift so that reasoning about it stays linear; CongruentPow2Mod relates
      it to the remainder. */
  ghost predicate CongruentPow2(a: int, b: int, m: nat)
  {
    exists q :: a - b == Shift(q, m)
  }

  lemma CongruentPow2Mod(a: int, b: int, m: nat)
    ensures CongruentPow2(a, b, m) <==> (a - b) % Pow2(m) == 0
  {
    if CongruentPow2(a, b, m) {
      var q :| a - b == Shift(q, m);
      ShiftIsProduct(q, m);
      MultipleMod(q, Pow2(m));
    }
    if (a - b) % Pow2(m) == 0 {
      var q := (a - b) / Pow2(m);
      DivModExact(a - b, Pow2(m));
      ShiftIsProduct(q, m);
      assert a - b == Shift(q, m);
    }
  }

  /** A number congruent to 0 modulo m is m times its quotient. */
  lemma DivModExact(a: int, m: int)
    requires m > 0 && a % m == 0
    ensures a == (a / m) * m
  {
  }

  lemma CongruentPow2Trans(a: int, b: int, c: int, m: nat)
    requires CongruentPow2(a, b, m) && CongruentPow2(b, c, m)
    ensures CongruentPow2(a, c, m)
  {
    var q1 :| a - b == Shift(q1, m);
    var q2 :| b - c == Shift(q2, m);
    ShiftAdd(q1, q2, m);
  }

  lemma CongruentPow2Refl(a: int, m: nat)
    ensures CongruentPow2(a, a, m)
  {
    ShiftZero(m);
  }

  /** Adding the remainder of c modulo 2^m instead of c itself changes nothing
      modulo 2^m. */
  lemma CongruentPow2Remainder(x: int, c: int, m: nat)
    ensures CongruentPow2(x + c % Pow2(m), x + c, m)
  {
    var q := c / Pow2(m);
    assert c == q * Pow2(m) + c % Pow2(m);
    ShiftIsProduct(-q, m);
    assert (x + c % Pow2(m)) - (x + c) == Shift(-q, m);
  }

  /** The sum of ds[k] * 2^k. */
  function WeightedSum(ds: seq<int>): int
  {
    if |ds| == 0 then 0 else WeightedSum(ds[..|ds| - 1]) + Shift(ds[|ds| - 1], |ds| - 1)
  }

  /** The value of a bit vector given least significant bit first. */
  function LsbValue(vals: seq<bool>): nat
  {
    if |vals| == 0 then 0
    else LsbValue(vals[..|vals| - 1]) + (if vals[|vals| - 1] then Pow2(|vals| - 1) else 0)
  }

  lemma {:induction false} LsbValueBound(vals: seq<bool>)
    ensures LsbValue(vals) < Pow2(|vals|)
  {
    if |vals| != 0 {
      LsbValueBound(vals[..|vals| - 1]);
    }
  }

  /** Appending a high part b to a low part a adds b's value shifted by |a|. */
  lemma {:induction false} LsbValueAppend(a: seq<bool>, b: seq<bool>)
    ensures LsbValue(a + b) == LsbValue(a) + Shift(LsbValue(b), |a|)
    decreases |b|
  {
    if |b| == 0 {
      assert a + b == a;
      ShiftZero(|a|);
    } else {
      var b' := b[..|b| - 1];
      var ab := a + b;
      LsbValueAppend(a, b');
      assert ab[..|ab| - 1] == a + b';
      assert ab[|ab| - 1] == b[|b| - 1];
      var t := if b[|b| - 1] then Pow2(|b| - 1) else 0;
      if b[|b| - 1] {
        ShiftPow2(|b| - 1, |a|);
      } else {
        ShiftZero(|a|);
      }
      ShiftAdd(LsbValue(b'), t, |a|);
    }
  }

  lemma LsbValueSnoc(a: seq<bool>, b: bool)
    ensures LsbValue(a + [b]) == LsbValue(a) + (if b then Pow2(|a|) else 0)
  {
    assert (a + [b])[..|a|] == a;
  }

  /** Splitting a vector at k: the low part plus the high part shifted by k. */
  lemma LsbValueSplit(vals: seq<bool>, k: nat)
    requires k <= |vals|
    ensures LsbValue(vals) == LsbValue(vals[..k]) + Shift(LsbValue(vals[k..]), k)
  {
    assert vals == vals[..k] + vals[k..];
    LsbValueAppend(vals[..k], vals[k..]);
  }

  lemma {:induction false} ShiftDoublePlus(hi: int, b: int, k: nat)
    ensures Shift(2 * hi + b, k) == Shift(hi, k + 1) + Shift(b, k)
  {
    if k != 0 {
      ShiftDoublePlus(hi, b, k - 1);
    }
  }

  /** x >> n on an arbitrary-precision integer: floor division by 2^n, so that a
      negative x keeps its two's-complement bits. */
  function ShiftRight(x: int, n: nat): int
  {
    if n == 0 then x else ShiftRight(x, n - 1) / 2
  }

  /** Bit i of an integer: (x >> i) & 1. */
  function BitOf(x: int, i: nat): bool
  {
    ShiftRight(x, i) % 2 == 1
  }

  /** The n low bits of x, least significant first. */
  function LowBits(x: int, n: nat): (r: seq<bool>)
    ensures |r| == n
  {
    if n == 0 then [] else LowBits(x, n - 1) + [BitOf(x, n - 1)]
  }

  /** x is its high part x >> n shifted back, plus the value of its n low bits. */
  lemma {:induction false} LowBitsSplit(x: int, n: nat)
    ensures x == Shift(ShiftRight(x, n), n) + LsbValue(LowBits(x, n))
  {
    if n != 0 {
      LowBitsSplit(x, n - 1);
      LowBitsStep(x, n);
      HighBitsStep(x, n);
    }
  }

  lemma LowBitsStep(x: int, n: nat)
    requires n > 0
    ensures LsbValue(LowBits(x, n)) == LsbValue(LowBits(x, n - 1)) + (if BitOf(x, n - 1) then Pow2(n - 1) else 0)
  {
    assert LowBits(x, n) == LowBits(x, n - 1) + [BitOf(x, n - 1)];
    LsbValueSnoc(LowBits(x, n - 1), BitOf(x, n - 1));
  }

  lemma HighBitsStep(x: int, n: nat)
    requires n > 0
    ensures Shift(ShiftRight(x, n - 1), n - 1) == Shift(ShiftRight(x, n), n) + (if BitOf(x, n - 1) then Pow2(n - 1) else 0)
  {
    var r1 := ShiftRight(x, n - 1);
    var hi := ShiftRight(x, n);
    var b := r1 % 2;
    assert r1 == 2 * hi + b;
    ShiftDoublePlus(hi, b, n - 1);
    if b == 1 {
      ShiftPow2(0, n - 1);
    } else {
      ShiftZero(n - 1);
    }
  }

  /** The low n bits of x spell x mod 2^n (and x >> n is x div 2^n). */
  lemma LowBitsValue(x: int, n: nat)
    ensures LsbValue(LowBits(x, n)) == x % Pow2(n)
    ensures ShiftRight(x, n) == x / Pow2(n)
  {
    LowBitsSplit(x, n);
    LsbValueBound(LowBits(x, n));
    ShiftIsProduct(ShiftRight(x, n), n);
    DivModUnique(x, Pow2(n), ShiftRight(x, n), LsbValue(LowBits(x, n)));
  }

  lemma {:induction false} LowBitsEntries(x: int, n: nat)
    ensures forall i :: 0 <= i < n ==> LowBits(x, n)[i] == BitOf(x, i)
  {
    if n != 0 {
      LowBitsEntries(x, n - 1);
      assert LowBits(x, n)[..n - 1] == LowBits(x, n - 1);
    }
  }
  /** A number that fits in n bits is spelled exactly by its n low bits. */
  lemma LowBitsSmall(x: int, n: nat)
    requires 0 <= x < Pow2(n)
    ensures LsbValue(LowBits(x, n)) == x
  {
    LowBitsValue(x, n);
    DivModUnique(x, Pow2(n), 0, x);
  }

  lemma {:induction false} WeightedSumZeros(ds: seq<int>)
    requires forall k :: 0 <= k < |ds| ==> ds[k] == 0
    ensures WeightedSum(ds) == 0
  {
    if |ds| != 0 {
      WeightedSumZeros(ds[..|ds| - 1]);
      ShiftZero(|ds| - 1);
    }
  }

  /** A sequence holding `inner` from position lo and zeros elsewhere has the weighted
      sum of `inner`, shifted by lo. */
  lemma {:induction false} WeightedSumWindow(ds: seq<int>, lo: nat, inner: seq<int>)
    requires lo + |inner| <= |ds|
    requires forall k :: 0 <= k < |ds| ==> ds[k] == (if lo <= k < lo + |inner| then inner[k - lo] else 0)
    ensures WeightedSum(ds) == Shift(WeightedSum(inner), lo)
    decreases |ds|
  {
    var n := |ds| - 1;
    if |inner| == 0 {
      WeightedSumZeros(ds);
      ShiftZero(lo);
    } else if n >= lo + |inner| {
      WeightedSumWindow(ds[..n], lo, inner);
      ShiftZero(n);
    } else {
      var m := |inner| - 1;
      WeightedSumWindow(ds[..n], lo, inner[..m]);
      ShiftAdd(WeightedSum(inner[..m]), Shift(inner[m], m), lo);
      ShiftShift(inner[m], m, lo);
    }
  }

  /** Negating every entry negates the weighted sum. */
  lemma {:induction false} WeightedSumNegate(a: seq<int>, b: seq<int>)
    requires |a| == |b| && forall k :: 0 <= k < |a| ==> b[k] == -a[k]
    ensures WeightedSum(b) == -WeightedSum(a)
  {
    if |a| != 0 {
      var n := |a| - 1;
      WeightedSumNegate(a[..n], b[..n]);
      ShiftSub(0, a[n], n);
      ShiftZero(n);
    }
  }

  /** Weighted sums add up pointwise. */
  lemma {:induction false} WeightedSumAdd(a: seq<int>, b: seq<int>, c: seq<int>)
    requires |a| == |b| == |c| && forall k :: 0 <= k < |c| ==> c[k] == a[k] + b[k]
    ensures WeightedSum(c) == WeightedSum(a) + WeightedSum(b)
  {
    if |c| != 0 {
      var n := |c| - 1;
      WeightedSumAdd(a[..n], b[..n], c[..n]);
      ShiftAdd(a[n], b[n], n);
    }
  }

  /** The weighted sum of a 0/1 sequence is the value of the bits it encodes. */
  lemma {:induction false} WeightedSumOfBits(ds: seq<int>, vals: seq<bool>)
    requires |ds| == |vals|
    requires forall k :: 0 <= k < |ds| ==> ds[k] == (if vals[k] then 1 else 0)
    ensures WeightedSum(ds) == LsbValue(vals)
  {
    if |ds| != 0 {
      var n := |ds| - 1;
      WeightedSumOfBits(ds[..n], vals[..n]);
      if vals[n] {
        ShiftPow2(0, n);
      } else {
        ShiftZero(n);
      }
    }
  }

  // ---------------------------------------------------------------------------
  // Bit fields: the low k bits and the rest, peeled from the bottom
  // ---------------------------------------------------------------------------

  /** x shifted right by k bits (floor division by 2^k). */
  function Hi(x: int, k: nat): int
    decreases k
  {
    if k == 0 then x else Hi(x / 2, k - 1)
  }

  /** The low k bits of x. */
  function Lo(x: int, k: nat): (r: int)
    ensures 0 <= r < Pow2(k)
  {
    LoBound(x, k);
    x - Shift(Hi(x, k), k)
  }

  lemma {:induction false} LoBound(x: int, k: nat)
    ensures 0 <= x - Shift(Hi(x, k), k) < Pow2(k)
    decreases k
  {
    if k != 0 {
      LoBound(x / 2, k - 1);
    }
  }

  lemma {:induction false} HiNonNegative(x: int, k: nat)
    requires x >= 0
    ensures Hi(x, k) >= 0
    decreases k
  {
    if k != 0 {
      HiNonNegative(x / 2, k - 1);
    }
  }

  /** A field written as q above k bits holding r reads back as q and r. */
  lemma {:induction false} LoHiUnique(x: int, k: nat, q: int, r: int)
    requires 0 <= r < Pow2(k) && x == Shift(q, k) + r
    ensures Hi(x, k) == q && Lo(x, k) == r
    decreases k
  {
    if k != 0 {
      LoHiUnique(x / 2, k - 1, q, r / 2);
    }
  }

  lemma LoSmall(q: int, k: nat)
    requires 0 <= q < Pow2(k)
    ensures Lo(q, k) == q
  {
    ShiftZero(k);
    LoHiUnique(q, k, 0, q);
  }

  /** Hi peels bits from the bottom, ShiftRight from the top: both are x >> k. */
  lemma {:induction false} HiIsShiftRight(x: int, k: nat)
    ensures Hi(x, k) == ShiftRight(x, k)
    decreases k
  {
    if k != 0 {
      HiIsShiftRight(x / 2, k - 1);
      ShiftRightHalf(x, k - 1);
    }
  }

  lemma {:induction false} ShiftRightHalf(x: int, n: nat)
    ensures ShiftRight(x / 2, n) == ShiftRight(x, n) / 2
  {
    if n != 0 {
      ShiftRightHalf(x, n - 1);
    }
  }

  // ---------------------------------------------------------------------------
  // Two's complement
  // ---------------------------------------------------------------------------

  /** v read as a w-bit two's-complement number: the values from 2^(w-1) up stand
      for v - 2^w. */
  function SignedValue(v: int, w: nat): (r: int)
    requires w >= 1
    ensures 0 <= v < Pow2(w) ==> 0 <= r + Pow2(w - 1) && r < Pow2(w - 1)
    ensures r == v || r == v - Pow2(w)
  {
    if v >= Pow2(w - 1) then v - Pow2(w) else v
  }

  /** A value written on w bits the way the emulators do it: 2^w is added once to a
      negative value. */
  function Wrap(p: int, w: nat): (r: int)
    ensures 0 <= p + Pow2(w) && p < Pow2(w) ==> 0 <= r < Pow2(w) && r == Lo(p, w)
  {
    WrapIsLow(p, w);
    if p < 0 then p + Pow2(w) else p
  }

  lemma WrapIsLow(p: int, w: nat)
    ensures 0 <= p + Pow2(w) && p < 0 ==> Lo(p, w) == p + Pow2(w)
    ensures 0 <= p < Pow2(w) ==> Lo(p, w) == p
  {
    if 0 <= p + Pow2(w) && p < 0 {
      ShiftPow2(0, w);
      ShiftSub(0, 1, w);
      ShiftZero(w);
      LoHiUnique(p, w, -1, p + Pow2(w));
    } else if 0 <= p < Pow2(w) {
      LoSmall(p, w);
    }
  }
}
