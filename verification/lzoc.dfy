/** The leading zero-or-one counter LZOC (src/ShiftersEtc/LZOC.cpp): it counts
    how many of the most significant bits of a wIn-bit input I equal the bit OZB.
    The hardware pads I to a power of two and halves the window once per output
    bit; the emulator scans I from its top bit. */
module LZOC {
  import opened Utils

  /** wOut = intlog2(wIn): the least width in which wIn itself, and so every
      count from 0 to wIn, can be written. */
  function OutputWidth(wIn: nat): (wOut: nat)
    ensures wIn < Pow2(wOut)
    ensures wIn >= 1 ==> wOut >= 1 && Pow2(wOut - 1) <= wIn
  {
    IntLog2(wIn)
  }

  /** All bits of s equal b. */
  predicate AllAre(s: seq<bool>, b: bool)
  {
    forall j :: 0 <= j < |s| ==> s[j] == b
  }

  /** The input's wIn bits, most significant first. */
  function MsbFirst(I: int, wIn: nat): (bits: seq<bool>)
    ensures |bits| == wIn
  {
    seq(wIn, j requires 0 <= j < wIn => BitOf(I, wIn - 1 - j))
  }

  // ---------------------------------------------------------------------------
  // The reference count
  // ---------------------------------------------------------------------------

  /** The number of leading bits of s that equal b. */
  function Leading(s: seq<bool>, b: bool): (n: nat)
    ensures n <= |s| && AllAre(s[..n], b) && (n < |s| ==> s[n] != b)
  {
    if |s| == 0 || s[0] != b then 0
    else
      var n := 1 + Leading(s[1..], b);
      assert s[..n] == [s[0]] + s[1..][..n - 1];
      n
  }

  /** Any n with n leading b's followed by a non-b bit (or the end) is the count. */
  lemma LeadingUnique(s: seq<bool>, b: bool, n: nat)
    requires n <= |s| && AllAre(s[..n], b) && (n < |s| ==> s[n] != b)
    ensures Leading(s, b) == n
  {
  }

  /** Past an all-b prefix, the count goes on in the rest. */
  lemma LeadingPastPrefix(s: seq<bool>, b: bool, k: nat)
    requires k <= |s| && AllAre(s[..k], b)
    ensures Leading(s, b) == k + Leading(s[k..], b)
  {
    var n := Leading(s[k..], b);
    assert s[..k + n] == s[..k] + s[k..][..n];
    AllAreConcat(s[..k], s[k..][..n], b);
    if k + n < |s| {
      assert s[k + n] == s[k..][n];
    }
    LeadingUnique(s, b, k + n);
  }

  /** A prefix holding a bit other than b contains the whole count. */
  lemma LeadingInPrefix(s: seq<bool>, b: bool, k: nat)
    requires k <= |s| && !AllAre(s[..k], b)
    ensures Leading(s, b) == Leading(s[..k], b)
  {
    var n := Leading(s[..k], b);
    assert s[..n] == s[..k][..n];
    assert s[n] == s[..k][n];
    LeadingUnique(s, b, n);
  }

  lemma AllAreConcat(s: seq<bool>, t: seq<bool>, b: bool)
    requires AllAre(s, b) && AllAre(t, b)
    ensures AllAre(s + t, b)
  {
    forall j | 0 <= j < |s + t|
      ensures (s + t)[j] == b
    {
      if j >= |s| {
        assert (s + t)[j] == t[j - |s|];
      }
    }
  }

  // ---------------------------------------------------------------------------
  // emulate
  // ---------------------------------------------------------------------------

  /** LZOC::emulate: scans j = 0, 1, ... and stops at the first bit wIn - j - 1
      of I that differs from OZB, or after wIn bits. */
  method Emulate(wIn: nat, I: int, ozb: bool) returns (so: nat)
    ensures so <= wIn
    ensures so < wIn ==> BitOf(I, wIn - 1 - so) != ozb
    ensures so == Leading(MsbFirst(I, wIn), ozb)
  {
    var j := 0;
    while j < wIn
      invariant 0 <= j <= wIn
      invariant AllAre(MsbFirst(I, wIn)[..j], ozb)
    {
      if BitOf(I, wIn - j - 1) != ozb {
        break;
      }
      assert MsbFirst(I, wIn)[..j + 1] == MsbFirst(I, wIn)[..j] + [BitOf(I, wIn - j - 1)];
      j := j + 1;
    }
    so := j;
    LeadingUnique(MsbFirst(I, wIn), ozb, so);
  }

  // ---------------------------------------------------------------------------
  // The hardware: padded levels and one digit per level
  // ---------------------------------------------------------------------------

  /** level_wOut: I followed by 2^wOut - wIn copies of not(OZB). As wIn < 2^wOut
      the padding always holds at least one bit, so the case wIn = 2^wOut without
      padding never arises. */
  function TopLevel(I: int, ozb: bool, wIn: nat): (level: seq<bool>)
    ensures |level| == Pow2(OutputWidth(wIn)) && |level| > wIn
    ensures level[..wIn] == MsbFirst(I, wIn)
    ensures forall j :: wIn <= j < |level| ==> level[j] == !ozb
  {
    MsbFirst(I, wIn) + seq(Pow2(OutputWidth(wIn)) - wIn, _ => !ozb)
  }

  /** The digits digit_i ... digit_1 read as a number: digit_i is set when the
      upper half of level_i is all OZB, and level_{i-1} is then its lower half,
      otherwise its upper half. */
  function Digits(level: seq<bool>, ozb: bool, i: nat): (o: nat)
    requires |level| == Pow2(i)
    ensures o < Pow2(i)
  {
    if i == 0 then 0
    else
      var half := Pow2(i - 1);
      if AllAre(level[..half], ozb) then half + Digits(level[half..], ozb, i - 1)
      else Digits(level[..half], ozb, i - 1)
  }

  /** The output O of an LZOC of width wIn on input I. */
  function Hardware(I: int, ozb: bool, wIn: nat): (o: nat)
    ensures o < Pow2(OutputWidth(wIn))
  {
    Digits(TopLevel(I, ozb, wIn), ozb, OutputWidth(wIn))
  }

  /** On a level holding at least one bit other than OZB, the digits count its
      leading OZB bits. */
  lemma {:induction false} DigitsCount(level: seq<bool>, ozb: bool, i: nat)
    requires |level| == Pow2(i) && !AllAre(level, ozb)
    ensures Digits(level, ozb, i) == Leading(level, ozb)
  {
    if i == 0 {
      LeadingUnique(level, ozb, 0);
    } else {
      var half := Pow2(i - 1);
      var upper := level[..half];
      var lower := level[half..];
      if AllAre(upper, ozb) {
        assert !AllAre(lower, ozb) by {
          if AllAre(lower, ozb) {
            assert level == upper + lower;
            AllAreConcat(upper, lower, ozb);
          }
        }
        DigitsCount(lower, ozb, i - 1);
        LeadingPastPrefix(level, ozb, half);
      } else {
        DigitsCount(upper, ozb, i - 1);
        LeadingInPrefix(level, ozb, half);
      }
    }
  }

  /** The hardware computes what the emulator expects: the number of leading
      bits of I equal to OZB, wIn when all are. */
  lemma HardwareIsLeading(I: int, ozb: bool, wIn: nat)
    ensures Hardware(I, ozb, wIn) == Leading(MsbFirst(I, wIn), ozb)
    ensures Hardware(I, ozb, wIn) <= wIn
  {
    var level := TopLevel(I, ozb, wIn);
    assert level[wIn] == !ozb;
    DigitsCount(level, ozb, OutputWidth(wIn));
    var bits := MsbFirst(I, wIn);
    var n := Leading(bits, ozb);
    assert level[..n] == bits[..n] by {
      assert level[..wIn][..n] == bits[..n];
    }
    if n < wIn {
      assert level[n] == level[..wIn][n];
    }
    LeadingUnique(level, ozb, n);
  }
}
