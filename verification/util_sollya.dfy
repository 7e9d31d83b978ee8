/** Chain and string helpers of src/UtilSollya.cc. */
module UtilSollya {

  // ---------------------------------------------------------------------------
  // makeIntPtrChainToFromBy
  // ---------------------------------------------------------------------------

  /** makeIntPtrChainToFromBy(m, n, k): the values handed to addElement, in the
      order they are handed over. The running value starts at m and drops by k
      after each element; nothing is added when n <= 0. */
  method MakeIntPtrChainToFromBy(m: int, n: int, k: int) returns (added: seq<int>)
    ensures |added| == (if n <= 0 then 0 else n)
    ensures forall j :: 0 <= j < |added| ==> added[j] == m - j * k
  {
    added := [];
    var i := m;
    var j := 0;
    while j < n
      invariant 0 <= j && (j <= n || j == 0)
      invariant |added| == j
      invariant i == m - j * k
      invariant forall l :: 0 <= l < j ==> added[l] == m - l * k
    {
      added := added + [i];
      i := i - k;
      j := j + 1;
    }
  }

  /** Consecutive elements of a chain differ by exactly k. */
  lemma ChainStep(m: int, k: int, added: seq<int>, j: nat)
    requires forall l :: 0 <= l < |added| ==> added[l] == m - l * k
    requires j + 1 < |added|
    ensures added[j] - added[j + 1] == k
  {
    assert added[j + 1] == m - (j + 1) * k;
    assert (j + 1) * k == j * k + k;
  }

  // ---------------------------------------------------------------------------
  // removeTrailingZeros
  // ---------------------------------------------------------------------------

  /** The intended result: the input without its trailing '0' characters, except
      that an input made only of zeros keeps its first one. */
  function RemoveTrailingZeros(s: string): (r: string)
    ensures |r| <= |s| && r == s[..|r|]
    ensures |s| >= 1 ==> |r| >= 1
    ensures |r| >= 1 && r[|r| - 1] == '0' ==> |r| == 1 && forall j :: 0 <= j < |s| ==> s[j] == '0'
    ensures forall j :: |r| <= j < |s| ==> s[j] == '0'
  {
    if |s| <= 1 || s[|s| - 1] != '0' then s
    else RemoveTrailingZeros(s[..|s| - 1])
  }

  /** Removing trailing zeros twice is removing them once. */
  lemma RemoveTrailingZerosIdempotent(s: string)
    ensures RemoveTrailingZeros(RemoveTrailingZeros(s)) == RemoveTrailingZeros(s)
  {
  }

  /** The result is the longest prefix ending in a character other than '0', or
      the first character when there is none. */
  lemma RemoveTrailingZerosIsLastNonZero(s: string, n: nat)
    requires 1 <= n <= |s|
    requires s[n - 1] != '0' || n == 1
    requires forall j :: n <= j < |s| ==> s[j] == '0'
    ensures RemoveTrailingZeros(s) == s[..n]
  {
  }

  /** removeTrailingZeros(outbuf, inbuf) as written. It copies the input into
      outbuf, remembering in temp3 the last position holding a character other
      than '0' (initially position 0), and ends the output after temp3. For an
      empty input nothing is copied, so position 0 keeps out0, whatever outbuf
      held there before. */
  method RemoveTrailingZerosAsWritten(input: string, out0: char) returns (out: string)
    ensures |input| >= 1 ==> out == RemoveTrailingZeros(input)
    ensures |input| == 0 ==> out == (if out0 == '\0' then "" else [out0])
  {
    if |input| == 0 {
      return if out0 == '\0' then "" else [out0];
    }
    var last := 0;
    var i := 0;
    while i < |input|
      invariant 0 <= i <= |input| && 0 <= last < |input|
      invariant last < i || last == 0
      invariant last == 0 || input[last] != '0'
      invariant forall j :: last < j < i ==> input[j] == '0'
    {
      if input[i] != '0' {
        last := i;
      }
      i := i + 1;
    }
    RemoveTrailingZerosIsLastNonZero(input, last + 1);
    out := input[..last + 1];
  }
}
