/** UserDefinedOperator (src/UserDefinedOperator.cpp), the template operator of
    the distribution: it adds three param0-bit inputs X, Y, Z and outputs a
    param1-bit S. */
module UserDefinedOperator {
  import opened Utils

  /** The declared ports and their widths. */
  datatype Port = Port(name: string, width: nat, isInput: bool)

  function Ports(param0: nat, param1: nat): (ps: seq<Port>)
    ensures forall p :: p in ps && p.isInput ==> p.width == param0
    ensures forall p :: p in ps && !p.isInput ==> p.name == "S" && p.width == param1
  {
    [Port("X", param0, true), Port("Y", param0, true), Port("Z", param0, true), Port("S", param1, false)]
  }

  /** The architecture's intermediate sums: T = X + Y on param0 + 1 bits and
      R = T + Z on param0 + 2 bits. Neither overflows: X + Y + Z < 3 * 2^param0. */
  lemma SumsFit(param0: nat, X: nat, Y: nat, Z: nat)
    requires X < Pow2(param0) && Y < Pow2(param0) && Z < Pow2(param0)
    ensures X + Y < Pow2(param0 + 1)
    ensures X + Y + Z < Pow2(param0 + 2)
  {
    assert Pow2(param0 + 2) == 4 * Pow2(param0);
  }

  /** An expected output as a test case records it: the port name and its value. */
  datatype Expected = Expected(port: string, value: int)

  /** The value emulate expects: the sum modulo 2^param1, plus the sum divided by
      2^(param0+1), that is its bit param0 + 1, added at weight 1. */
  function EmulatedValue(param0: nat, param1: nat, X: nat, Y: nat, Z: nat): (v: int)
    requires X < Pow2(param0) && Y < Pow2(param0) && Z < Pow2(param0)
    ensures var s := X + Y + Z;
            var top := if s >= Pow2(param0 + 1) then 1 else 0;
            v == s % Pow2(param1) + top && 0 <= v <= Pow2(param1)
  {
    var s := X + Y + Z;
    SumsFit(param0, X, Y, Z);
    TopBit(s, param0);
    s % Pow2(param1) + s / Pow2(param0 + 1)
  }

  /** A sum below 2^(w+2) divided by 2^(w+1) is its bit w + 1. */
  lemma TopBit(s: nat, w: nat)
    requires s < Pow2(w + 2)
    ensures s / Pow2(w + 1) == if s >= Pow2(w + 1) then 1 else 0
  {
    assert Pow2(w + 2) == 2 * Pow2(w + 1);
    if s >= Pow2(w + 1) {
      DivModUnique(s, Pow2(w + 1), 1, s - Pow2(w + 1));
    } else {
      DivModUnique(s, Pow2(w + 1), 0, s);
    }
  }

  /** UserDefinedOperator::emulate as written: the expected value is recorded
      under the name "R", the architecture's internal signal. */
  function EmulateAsWritten(param0: nat, param1: nat, X: nat, Y: nat, Z: nat): (e: Expected)
    requires X < Pow2(param0) && Y < Pow2(param0) && Z < Pow2(param0)
    ensures e.value == EmulatedValue(param0, param1, X, Y, Z)
    ensures forall p :: p in Ports(param0, param1) ==> p.name != e.port
  {
    Expected("R", EmulatedValue(param0, param1, X, Y, Z))
  }

  /** emulate with the expected value recorded under the output port S, the
      port the test bench compares. */
  function Emulate(param0: nat, param1: nat, X: nat, Y: nat, Z: nat): (e: Expected)
    requires X < Pow2(param0) && Y < Pow2(param0) && Z < Pow2(param0)
    ensures e.value == EmulatedValue(param0, param1, X, Y, Z)
    ensures exists p :: p in Ports(param0, param1) && !p.isInput && p.name == e.port
  {
    assert Ports(param0, param1)[3].name == "S";
    Expected("S", EmulatedValue(param0, param1, X, Y, Z))
  }

  /** The architecture: T = X + Y on param0 + 1 bits, R = T + Z on param0 + 2
      bits, and S driven by bit param0 + 1 of R followed by the param1 low bits
      of R, a vector of param1 + 1 bits on a port declared param1 bits wide. */
  function Architecture(param0: nat, param1: nat, X: nat, Y: nat, Z: nat): (s: nat)
    requires X < Pow2(param0) && Y < Pow2(param0) && Z < Pow2(param0)
    ensures s < Pow2(param1 + 1)
    ensures s % Pow2(param1) == (X + Y + Z) % Pow2(param1)
    ensures s / Pow2(param1) == if X + Y + Z >= Pow2(param0 + 1) then 1 else 0
  {
    var r := X + Y + Z;
    SumsFit(param0, X, Y, Z);
    TopBit(r, param0);
    var top := r / Pow2(param0 + 1);
    var s := top * Pow2(param1) + r % Pow2(param1);
    DivModUnique(s, Pow2(param1), top, r % Pow2(param1));
    assert Pow2(param1 + 1) == 2 * Pow2(param1);
    s
  }

  /** emulate adds the sum's top bit at weight 1 where the architecture puts it
      above the param1 low bits: the two agree exactly when that bit is clear or
      param1 is 0. */
  lemma ArchitectureVersusEmulate(param0: nat, param1: nat, X: nat, Y: nat, Z: nat)
    requires X < Pow2(param0) && Y < Pow2(param0) && Z < Pow2(param0)
    ensures Architecture(param0, param1, X, Y, Z) == EmulatedValue(param0, param1, X, Y, Z) <==>
            X + Y + Z < Pow2(param0 + 1) || param1 == 0
  {
    var s := Architecture(param0, param1, X, Y, Z);
    var p := Pow2(param1);
    assert s == (s / p) * p + s % p;
    if param1 != 0 {
      assert p == 2 * Pow2(param1 - 1);
    }
  }

  /** emulate with the sum's top bit added at weight 2^param1, where the
      architecture drives it, and recorded under S: the expectation the test bench
      would find the architecture meeting. */
  function EmulateAligned(param0: nat, param1: nat, X: nat, Y: nat, Z: nat): (e: Expected)
    requires X < Pow2(param0) && Y < Pow2(param0) && Z < Pow2(param0)
    ensures e.port == "S" && e.value == Architecture(param0, param1, X, Y, Z)
    ensures e.value == EmulatedValue(param0, param1, X, Y, Z) <==> X + Y + Z < Pow2(param0 + 1) || param1 == 0
  {
    ArchitectureVersusEmulate(param0, param1, X, Y, Z);
    var s := X + Y + Z;
    SumsFit(param0, X, Y, Z);
    TopBit(s, param0);
    Expected("S", s % Pow2(param1) + s / Pow2(param0 + 1) * Pow2(param1))
  }

  /** The two differ only in the name they record. */
  lemma EmulateCorrectsName(param0: nat, param1: nat, X: nat, Y: nat, Z: nat)
    requires X < Pow2(param0) && Y < Pow2(param0) && Z < Pow2(param0)
    ensures EmulateAsWritten(param0, param1, X, Y, Z).value == Emulate(param0, param1, X, Y, Z).value
    ensures EmulateAsWritten(param0, param1, X, Y, Z).port != Emulate(param0, param1, X, Y, Z).port
  {
  }
}
