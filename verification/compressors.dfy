/** Basic compressors and the catalogs the compression passes choose from
    (src/BitHeap.cpp generatePossibleCompressors and
    src/BitHeap/CompressionStrategy.cpp generatePossibleCompressors). */
module Compressors {
  import opened Wrappers
  import opened Utils

  /** A basic compressor with its two input column heights: col0 bits of weight i
      and col1 bits of weight i + 1. */
  datatype Compressor = Compressor(col0: nat, col1: nat)

  /** Number of output bits: enough to write col0 + 2 * col1, the largest number of
      ones the inputs can hold. */
  function OutputSize(c: Compressor): (n: nat)
    ensures c.col0 + 2 * c.col1 < Pow2(n)
    ensures c.col0 + 2 * c.col1 >= 1 ==> Pow2(n - 1) <= c.col0 + 2 * c.col1
  {
    IntLog2(c.col0 + 2 * c.col1)
  }

  /** The full adder: three bits of one column in, two bits out. */
  const FullAdder: Compressor := Compressor(3, 0)

  /** The half adder, built next to the catalog and never part of it. */
  const HalfAdder: Compressor := Compressor(2, 0)

  /** A compressor is workable on a target with lutInputs LUT inputs when it has at
      least three bits in its first column, no more second-column bits than
      first-column bits, fits one LUT, and has at most three outputs. */
  predicate Workable(lutInputs: int, c: Compressor)
  {
    3 <= c.col0 && c.col1 <= c.col0 && c.col0 + c.col1 <= lutInputs && IntLog2(c.col0 + 2 * c.col1) <= 3
  }

  /** The catalog order: by first column, then by second column, both descending. */
  predicate Precedes(a: Compressor, b: Compressor)
  {
    a.col0 > b.col0 || (a.col0 == b.col0 && a.col1 > b.col1)
  }

  predicate StrictlyDescending(cs: seq<Compressor>)
  {
    forall i, j :: 0 <= i < j < |cs| ==> Precedes(cs[i], cs[j])
  }

  /** Three outputs hold any count below eight. */
  lemma WorkableBound(lutInputs: int, c: Compressor)
    ensures Workable(lutInputs, c) <==>
              3 <= c.col0 && c.col1 <= c.col0 && c.col0 + c.col1 <= lutInputs && c.col0 + 2 * c.col1 < 8
  {
    AtMostThreeBits(c.col0 + 2 * c.col1);
  }

  lemma AtMostThreeBits(n: int)
    ensures IntLog2(n) <= 3 <==> n < 8
  {
    assert Pow2(3) == 8 by {
      assert Pow2(1) == 2;
      assert Pow2(2) == 4;
    }
    var r := IntLog2(n);
    if r <= 3 {
      Pow2Monotone(r, 3);
    } else {
      Pow2Monotone(3, r - 1);
    }
  }

  /** BitHeap::generatePossibleCompressors: every workable compressor for the
      target's lutInputs, in catalog order; fatal when the full adder is missing,
      which is exactly when the target has fewer than three LUT inputs. */
  method GeneratePossibleCompressors(lutInputs: int) returns (r: Result<seq<Compressor>>)
    ensures r.Fatal? <==> lutInputs < 3
    ensures r.Ok? ==> forall c :: c in r.value <==> Workable(lutInputs, c)
    ensures r.Ok? ==> StrictlyDescending(r.value)
    ensures r.Ok? ==> FullAdder in r.value && HalfAdder !in r.value
  {
    var cs: seq<Compressor> := [];
    var hasFullAdder := false;
    var col0 := lutInputs;
    while col0 >= 3
      invariant col0 <= lutInputs
      invariant forall c :: c in cs <==> Workable(lutInputs, c) && c.col0 > col0
      invariant StrictlyDescending(cs)
      invariant hasFullAdder <==> FullAdder in cs
      decreases col0
    {
      cs, hasFullAdder := AddFirstColumn(lutInputs, col0, cs, hasFullAdder);
      col0 := col0 - 1;
    }
    if !hasFullAdder {
      assert lutInputs < 3 by {
        if lutInputs >= 3 {
          WorkableBound(lutInputs, FullAdder);
        }
      }
      return Fatal("What, generatePossibleCompressors() didn't build a full adder !?!");
    }
    assert HalfAdder !in cs;
    return Ok(cs);
  }

  /** One turn of the outer loop: the workable compressors with col0 bits in their
      first column, by descending col1, appended to the catalog built so far. */
  method AddFirstColumn(lutInputs: int, col0: int, cs0: seq<Compressor>, fa0: bool)
    returns (cs: seq<Compressor>, hasFullAdder: bool)
    requires 3 <= col0
    requires forall c :: c in cs0 <==> Workable(lutInputs, c) && c.col0 > col0
    requires StrictlyDescending(cs0)
    requires fa0 <==> FullAdder in cs0
    ensures forall c :: c in cs <==> Workable(lutInputs, c) && c.col0 >= col0
    ensures StrictlyDescending(cs)
    ensures hasFullAdder <==> FullAdder in cs
  {
    cs, hasFullAdder := cs0, fa0;
    var col1 := col0;
    while col1 >= 0
      invariant -1 <= col1 <= col0
      invariant forall c :: c in cs <==> Workable(lutInputs, c) && (c.col0 > col0 || (c.col0 == col0 && c.col1 > col1))
      invariant StrictlyDescending(cs)
      invariant hasFullAdder <==> FullAdder in cs
      decreases col1
    {
      var c := Compressor(col0, col1);
      WorkableBound(lutInputs, c);
      if col0 + col1 <= lutInputs && IntLog2(col0 + 2 * col1) <= 3 {
        if col0 == 3 && col1 == 0 {
          hasFullAdder := true;
        }
        AppendDescending(cs, c);
        cs := cs + [c];
      }
      col1 := col1 - 1;
    }
  }

  lemma AppendDescending(cs: seq<Compressor>, c: Compressor)
    requires StrictlyDescending(cs) && forall x :: x in cs ==> Precedes(x, c)
    ensures StrictlyDescending(cs + [c])
  {
    forall i, j | 0 <= i < j < |cs| + 1
      ensures Precedes((cs + [c])[i], (cs + [c])[j])
    {
      if j == |cs| {
        assert cs[i] in cs;
      }
    }
  }

  /** The catalog opens with the largest single-column compressor the target
      allows: min(lutInputs, 7) bits of one column. */
  lemma CatalogFirst(lutInputs: int, cs: seq<Compressor>)
    requires lutInputs >= 3
    requires forall c :: c in cs <==> Workable(lutInputs, c)
    requires StrictlyDescending(cs)
    ensures |cs| >= 1 && cs[0] == Compressor(if lutInputs < 7 then lutInputs else 7, 0)
  {
    var top := Compressor(if lutInputs < 7 then lutInputs else 7, 0);
    WorkableBound(lutInputs, top);
    assert top in cs;
    var i :| 0 <= i < |cs| && cs[i] == top;
    if i != 0 {
      assert Precedes(cs[0], top);
      assert cs[0] in cs;
      WorkableBound(lutInputs, cs[0]);
      assert false;
    }
  }

  /** Every entry of a catalog has col1 at most 2: three outputs leave no room for
      more second-column bits once col0 is at least 3. */
  lemma CatalogSecondColumn(lutInputs: int, c: Compressor)
    requires Workable(lutInputs, c)
    ensures c.col1 <= 2 && c.col0 <= 7 && OutputSize(c) <= 3
  {
    WorkableBound(lutInputs, c);
  }

  /** Every catalog entry compresses: it has more inputs than outputs. */
  lemma WorkableCompresses(lutInputs: int, c: Compressor)
    requires Workable(lutInputs, c)
    ensures OutputSize(c) < c.col0 + c.col1
  {
    WorkableBound(lutInputs, c);
    var n := c.col0 + 2 * c.col1;
    var o := OutputSize(c);
    assert Pow2(o - 1) <= n;
    if o == 3 {
      assert Pow2(2) == 4;
    } else {
      assert o <= 2 < 3 <= c.col0;
    }
  }

  /** What a compression pass relies on in a catalog: it is not empty, its first
      entry is a single-column compressor, and every entry takes at least one bit of
      its first column. */
  predicate CatalogShape(cs: seq<Compressor>)
  {
    |cs| >= 1 && cs[0].col1 == 0 && forall j :: 0 <= j < |cs| ==> cs[j].col0 >= 1
  }

  /** The catalog exactly as generation builds it for a target with lutInputs inputs. */
  ghost predicate FullCatalog(lutInputs: int, cs: seq<Compressor>)
  {
    lutInputs >= 3 && (forall c :: c in cs <==> Workable(lutInputs, c)) && StrictlyDescending(cs)
  }

  /** A generated catalog has the shape the passes need. */
  lemma FullCatalogShape(lutInputs: int, cs: seq<Compressor>)
    requires FullCatalog(lutInputs, cs)
    ensures CatalogShape(cs)
  {
    CatalogFirst(lutInputs, cs);
    forall j | 0 <= j < |cs|
      ensures cs[j].col0 >= 1
    {
      assert cs[j] in cs;
    }
  }

  // ---------------------------------------------------------------------------
  // CompressionStrategy::generatePossibleCompressors
  // ---------------------------------------------------------------------------

  /** The second-generation catalog: a fixed list of seven compressors. */
  function StrategyCatalog(): (cs: seq<Compressor>)
    ensures |cs| == 7 && cs[|cs| - 1] == FullAdder
    ensures forall c :: c in cs ==> Workable(6, c)
  {
    var cs := [Compressor(6, 0), Compressor(4, 1), Compressor(5, 0), Compressor(3, 1),
               Compressor(4, 0), Compressor(3, 2), Compressor(3, 0)];
    forall c | c in cs
      ensures Workable(6, c)
    {
      WorkableBound(6, c);
    }
    cs
  }

  /** The fixed list is the six-input catalog without the (5, 1) compressor, in
      another order: it is not in catalog order, as (4, 1) comes before (5, 0). */
  lemma StrategyCatalogContents()
    ensures forall c :: c in StrategyCatalog() <==> Workable(6, c) && c != Compressor(5, 1)
    ensures !StrictlyDescending(StrategyCatalog())
  {
    forall c | Workable(6, c)
      ensures c in StrategyCatalog() || c == Compressor(5, 1)
    {
      WorkableBound(6, c);
    }
    assert !Precedes(StrategyCatalog()[1], StrategyCatalog()[2]);
  }
}
