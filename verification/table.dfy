/** Table (src/Table.cpp): an operator tabulating a function f on the inputs
    minIn..maxIn of a wIn-bit input X, with a wOut-bit output Y. */
module Table {
  import opened Wrappers
  import opened Utils

  /** A validated table: its widths, its input range and whether the range is
      every wIn-bit input. */
  datatype Table = Table(wIn: nat, wOut: nat, minIn: nat, maxIn: int, full: bool)

  /** x is one of the inputs the table lists. */
  predicate InRange(t: Table, x: int)
  {
    t.minIn <= x <= t.maxIn
  }

  /** The constructor. maxIn = -1 stands for the largest wIn-bit input; a
      negative minIn and a maxIn that does not fit in wIn bits are fatal, in that
      order. The constructor computes 1 << wIn on an int, so wIn is at most 30. */
  function Create(wIn: nat, wOut: nat, minIn: int, maxIn: int): (r: Result<Table>)
    requires wIn <= 30
    ensures r.Fatal? <==> minIn < 0 || maxIn >= Pow2(wIn)
    ensures r.Ok? ==> r.value.wIn == wIn && r.value.wOut == wOut && r.value.minIn == minIn
    ensures r.Ok? ==> r.value.maxIn == (if maxIn == -1 then Pow2(wIn) - 1 else maxIn)
    ensures r.Ok? ==> r.value.maxIn < Pow2(wIn)
  {
    var maxIn := if maxIn == -1 then Pow2(wIn) - 1 else maxIn;
    if minIn < 0 then Fatal("ERROR in Table::Table, minIn<0")
    else if maxIn >= Pow2(wIn) then Fatal("ERROR in Table::Table, maxIn too large")
    else Ok(Table(wIn, wOut, minIn, maxIn, minIn == 0 && maxIn == Pow2(wIn) - 1))
  }

  /** `full` holds exactly when the range lists every wIn-bit input. */
  lemma FullMeansEveryInput(wIn: nat, wOut: nat, minIn: int, maxIn: int)
    requires wIn <= 30 && Create(wIn, wOut, minIn, maxIn).Ok?
    ensures var t := Create(wIn, wOut, minIn, maxIn).value;
            t.full <==> forall x :: 0 <= x < Pow2(wIn) ==> InRange(t, x)
  {
    var t := Create(wIn, wOut, minIn, maxIn).value;
    if !t.full {
      if t.minIn != 0 {
        assert !InRange(t, 0);
      } else {
        assert !InRange(t, Pow2(wIn) - 1);
      }
    }
  }

  /** A maxIn below -1 is accepted and leaves the range empty. */
  lemma EmptyRangeAccepted(wIn: nat, wOut: nat, minIn: nat, maxIn: int)
    requires wIn <= 30 && maxIn < -1
    ensures Create(wIn, wOut, minIn, maxIn).Ok?
    ensures forall x :: !InRange(Create(wIn, wOut, minIn, maxIn).value, x)
  {
  }

  // ---------------------------------------------------------------------------
  // outputVHDL
  // ---------------------------------------------------------------------------

  /** One line of the `with x select` statement: the output written on wOut bits
      and the input key on wIn bits. */
  datatype Row = Row(value: string, key: string)

  /** Every digit is '1'. */
  predicate AllOnes(s: string)
  {
    forall i :: 0 <= i < |s| ==> s[i] == '1'
  }

  /** What the row for input x holds: the key spells x on wIn bits; the value
      spells f(x) on wOut bits, or is all ones when f(x) does not fit. */
  predicate RowFor(t: Table, f: int -> int, x: int, row: Row)
  {
    |row.key| == t.wIn && IsBinary(row.key) && BinValue(row.key) == x &&
    |row.value| == t.wOut && IsBinary(row.value) &&
    (f(x) < Pow2(t.wOut) ==> BinValue(row.value) == f(x)) &&
    (f(x) >= Pow2(t.wOut) ==> AllOnes(row.value))
  }

  predicate NonNegativeOn(t: Table, f: int -> int)
  {
    forall x :: t.minIn <= x <= t.maxIn ==> f(x) >= 0
  }

  /** Table::outputVHDL: one row per input from minIn to maxIn, in ascending
      order, followed by the default row of wOut '-'. unsigned_binary exits on a
      negative f(x); printBinNum never fails here as every key is below 2^wIn and
      wIn is at most 30. */
  method OutputRows(t: Table, f: int -> int) returns (r: Result<(seq<Row>, string)>)
    requires t.wIn <= 30 && t.maxIn < Pow2(t.wIn)
    ensures r.Fatal? <==> !NonNegativeOn(t, f)
    ensures r.Ok? ==> |r.value.0| == (if t.maxIn < t.minIn then 0 else t.maxIn - t.minIn + 1)
    ensures r.Ok? ==> forall i :: 0 <= i < |r.value.0| ==> RowFor(t, f, t.minIn + i, r.value.0[i])
    ensures r.Ok? ==> r.value.1 == seq(t.wOut, _ => '-')
  {
    var rows: seq<Row> := [];
    var x := t.minIn;
    while x <= t.maxIn
      invariant t.minIn <= x && (x <= t.maxIn + 1 || x == t.minIn)
      invariant |rows| == x - t.minIn
      invariant forall i :: 0 <= i < |rows| ==> RowFor(t, f, t.minIn + i, rows[i])
      invariant forall z :: t.minIn <= z < x ==> f(z) >= 0
      decreases t.maxIn - x
    {
      var row := EmitRow(t, f, x);
      if row.Fatal? {
        assert t.minIn <= x <= t.maxIn && f(x) < 0;
        return Fatal(row.msg);
      }
      AppendRow(t, f, rows, row.value);
      rows := rows + [row.value];
      x := x + 1;
    }
    var others := seq(t.wOut, _ => '-');
    return Ok((rows, others));
  }

  /** One turn of the row loop: the output f(x) through unsigned_binary, which
      exits on a negative value, and the key x through printBinNum. */
  method EmitRow(t: Table, f: int -> int, x: int) returns (r: Result<Row>)
    requires t.wIn <= 30 && 0 <= x < Pow2(t.wIn)
    ensures r.Fatal? <==> f(x) < 0
    ensures r.Ok? ==> RowFor(t, f, x, r.value)
  {
    var value := UnsignedBinary(f(x), t.wOut);
    if value.Fatal? {
      return Fatal(value.msg);
    }
    Pow2Monotone(t.wIn, 64);
    var key := PrintBinNum(x, t.wIn);
    assert key.Ok?;
    var row := Row(value.value, key.value);
    RowIsFor(t, f, x, value, key, row);
    return Ok(row);
  }

  /** The digits the two printing routines emit are the row the input stands for. */
  lemma RowIsFor(t: Table, f: int -> int, x: int, value: Result<string>, key: Result<string>, row: Row)
    requires 0 <= x < Pow2(t.wIn) && t.wIn < 64 && x < Pow2(64) && f(x) >= 0
    requires value == UnsignedBinary(f(x), t.wOut) && value.Ok? && row.value == value.value
    requires key == PrintBinNum(x, t.wIn) && key.Ok? && row.key == key.value
    ensures RowFor(t, f, x, row)
  {
    if f(x) < Pow2(t.wOut) {
      UnsignedBinaryRoundTrip(f(x), t.wOut);
    } else {
      UnsignedBinarySaturates(f(x), t.wOut);
    }
  }

  lemma AppendRow(t: Table, f: int -> int, rows: seq<Row>, row: Row)
    requires forall i :: 0 <= i < |rows| ==> RowFor(t, f, t.minIn + i, rows[i])
    requires RowFor(t, f, t.minIn + |rows|, row)
    ensures forall i :: 0 <= i < |rows + [row]| ==> RowFor(t, f, t.minIn + i, (rows + [row])[i])
  {
  }

  /** The keys are distinct and ascending: each input has exactly one row. */
  lemma KeysAscending(t: Table, f: int -> int, rows: seq<Row>, i: nat, j: nat)
    requires forall k :: 0 <= k < |rows| ==> RowFor(t, f, t.minIn + k, rows[k])
    requires i < j < |rows|
    ensures BinValue(rows[i].key) < BinValue(rows[j].key)
  {
    assert RowFor(t, f, t.minIn + i, rows[i]) && RowFor(t, f, t.minIn + j, rows[j]);
  }

  // ---------------------------------------------------------------------------
  // size_in_LUTs
  // ---------------------------------------------------------------------------

  /** size_in_LUTs: wOut * int(intpow2(wIn - lutInputs)). Each output bit needs
      2^(wIn - lutInputs) LUTs of lutInputs inputs when the table is wider than a
      LUT, one LUT otherwise; together they store at least the wOut * 2^wIn bits
      of the table, exactly as many when the table is at least as wide as a LUT. */
  method SizeInLUTs(t: Table, lutInputs: nat) returns (n: int)
    ensures n >= t.wOut
    ensures n * Pow2(lutInputs) >= t.wOut * Pow2(t.wIn)
    ensures t.wIn >= lutInputs ==> n * Pow2(lutInputs) == t.wOut * Pow2(t.wIn)
    ensures t.wIn <= lutInputs ==> n == t.wOut
  {
    var p := IntPow2(t.wIn - lutInputs);
    var k := p.Floor;
    if t.wIn >= lutInputs {
      assert k == Pow2(t.wIn - lutInputs);
      Pow2Add(t.wIn - lutInputs, lutInputs);
      MulAssoc(t.wOut, Pow2(t.wIn - lutInputs), Pow2(lutInputs));
      MulGrows(t.wOut, Pow2(t.wIn - lutInputs));
    } else {
      assert k == 1;
      Pow2Monotone(t.wIn, lutInputs);
      MulMonotone(t.wOut, Pow2(t.wIn), Pow2(lutInputs));
    }
    n := t.wOut * k;
  }

  lemma MulAssoc(a: int, b: int, c: int)
    ensures a * b * c == a * (b * c)
  {
  }

  lemma MulGrows(a: nat, b: nat)
    requires b >= 1
    ensures a * b >= a
  {
    assert a * b == a * (b - 1) + a;
  }

  lemma MulMonotone(a: nat, b: nat, c: nat)
    requires b <= c
    ensures a * b <= a * c
  {
    assert a * c == a * b + a * (c - b);
  }
}
