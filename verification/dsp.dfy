/** The position list of a DSP block (src/Targets/DSP.cpp): the (X, Y) board
    positions where the block is placed, kept in lexicographic order without
    repetition, with a push cursor and a pop cursor. */
module DSP {

  type Pos = (int, int)

  /** Xpositions and Ypositions as one array of pairs of maxPos slots; the first
      `available` slots are the list, posPush is where the next push writes and
      posPop the next slot pop hands out. */
  datatype PositionList = PositionList(slots: seq<Pos>, maxPos: nat, available: nat, posPush: nat, posPop: nat)

  /** What every operation keeps: the arrays have maxPos slots and push writes
      right after the list. */
  predicate Valid(d: PositionList)
  {
    |d.slots| == d.maxPos && d.available == d.posPush <= d.maxPos
  }

  function Live(d: PositionList): (l: seq<Pos>)
    requires Valid(d)
    ensures |l| == d.available
  {
    d.slots[..d.available]
  }

  /** a comes after b: a larger X, or the same X and a larger Y. */
  predicate After(a: Pos, b: Pos)
  {
    a.0 > b.0 || (a.0 == b.0 && a.1 > b.1)
  }

  /** Ascending without repetition. */
  predicate StrictlyAscending(l: seq<Pos>)
  {
    forall i, j :: 0 <= i < j < |l| ==> After(l[j], l[i])
  }

  /** The index of the first entry after v, |l| when there is none. */
  function FirstAfter(l: seq<Pos>, v: Pos): (p: nat)
    ensures p <= |l|
    ensures forall k :: 0 <= k < p ==> !After(l[k], v)
    ensures p < |l| ==> After(l[p], v)
  {
    if |l| == 0 || After(l[0], v) then 0 else 1 + FirstAfter(l[1..], v)
  }

  /** l with v put in front of its first entry after v. */
  function Insert(l: seq<Pos>, v: Pos): seq<Pos>
  {
    l[..FirstAfter(l, v)] + [v] + l[FirstAfter(l, v)..]
  }

  // ---------------------------------------------------------------------------
  // The operations
  // ---------------------------------------------------------------------------

  /** allocatePositions: fresh arrays of `dimension` slots, whatever they hold,
      and an empty list. */
  function AllocatePositions(dimension: nat, contents: seq<Pos>): (d: PositionList)
    requires |contents| == dimension
    ensures Valid(d) && Live(d) == [] && d.maxPos == dimension && d.posPop == 0
  {
    PositionList(contents, dimension, 0, 0, 0)
  }

  /** push: a position already in the list, or a push into full arrays, changes
      nothing; otherwise the position goes in front of the first entry after it,
      the entries from there on move up one slot and the list grows by one. */
  method Push(d: PositionList, X: int, Y: int) returns (e: PositionList)
    requires Valid(d)
    ensures Valid(e) && e.maxPos == d.maxPos && e.posPop == d.posPop
    ensures (X, Y) in Live(d) || d.posPush >= d.maxPos ==> e == d
    ensures (X, Y) !in Live(d) && d.posPush < d.maxPos ==>
              Live(e) == Insert(Live(d), (X, Y)) && e.slots[e.available..] == d.slots[e.available..]
  {
    var present, p := FindSlot(Live(d), (X, Y));
    if present || d.posPush >= d.maxPos {
      return d;
    }
    var slots := ShiftIn(d.slots, p, d.available, (X, Y));
    e := d.(slots := slots, posPush := d.posPush + 1, available := d.available + 1);
  }

  /** The scan of push: p becomes the first slot whose entry comes after v, and
      the scan stops as soon as it meets v itself. */
  method FindSlot(l: seq<Pos>, v: Pos) returns (present: bool, p: nat)
    ensures present <==> v in l
    ensures !present ==> p == FirstAfter(l, v)
  {
    p := |l|;
    var i := 0;
    while i < |l|
      invariant 0 <= i <= |l|
      invariant p == |l| || (p < i && After(l[p], v))
      invariant forall k :: 0 <= k < i && k < p ==> !After(l[k], v)
      invariant v !in l[..i]
    {
      if p == |l| && After(l[i], v) {
        p := i;
      }
      if l[i] == v {
        return true, p;
      }
      assert l[..i + 1] == l[..i] + [l[i]];
      i := i + 1;
    }
    assert l[..i] == l;
    present := false;
  }

  /** The moves of push: the carried entry starts as v; each slot from p to the
      end of the list takes the carried entry and hands its own on, and the last
      one lands in the slot just past the list. */
  method ShiftIn(slots: seq<Pos>, p: nat, available: nat, v: Pos) returns (r: seq<Pos>)
    requires p <= available < |slots|
    ensures |r| == |slots|
    ensures r[..available + 1] == slots[..p] + [v] + slots[p..available]
    ensures r[available + 1..] == slots[available + 1..]
  {
    r := slots;
    var carry := v;
    var j := p;
    while j < available
      invariant p <= j <= available && |r| == |slots|
      invariant forall k :: 0 <= k < p ==> r[k] == slots[k]
      invariant j > p ==> r[p] == v
      invariant forall k :: p < k < j ==> r[k] == slots[k - 1]
      invariant carry == if j == p then v else slots[j - 1]
      invariant forall k :: j <= k < |r| ==> r[k] == slots[k]
    {
      var t := r[j];
      r := r[j := carry];
      carry := t;
      j := j + 1;
    }
    r := r[available := carry];
    var want := slots[..p] + [v] + slots[p..available];
    assert |r[..available + 1]| == |want|;
    forall k | 0 <= k <= available
      ensures r[k] == want[k]
    {
      if k < p {
      } else if k == p {
      } else {
        assert want[k] == slots[p..available][k - p - 1];
      }
    }
  }

  /** pop: the next slot index of the list, -1 once the pop cursor has passed
      the end of the list. */
  function Pop(d: PositionList): (r: (PositionList, int))
    ensures r.1 == -1 <==> d.posPop >= d.available
    ensures r.1 != -1 ==> r.1 == d.posPop < d.available && r.0 == d.(posPop := d.posPop + 1)
    ensures r.1 == -1 ==> r.0 == d
  {
    if d.posPop < d.available then (d.(posPop := d.posPop + 1), d.posPop as int) else (d, -1)
  }

  /** setPosition: moves both the list's end and the push cursor to p when p is
      a slot of the arrays, and does nothing otherwise. */
  function SetPosition(d: PositionList, p: nat): (e: PositionList)
    requires Valid(d)
    ensures Valid(e) && e.slots == d.slots && e.posPop == d.posPop
    ensures p < d.maxPos ==> e.available == p
    ensures p >= d.maxPos ==> e == d
  {
    if p < d.maxPos then d.(posPush := p, available := p) else d
  }

  /** resetPosition: pops start again from the first slot. */
  function ResetPosition(d: PositionList): (e: PositionList)
    ensures e.posPop == 0 && e == d.(posPop := e.posPop)
  {
    d.(posPop := 0)
  }

  // ---------------------------------------------------------------------------
  // Properties
  // ---------------------------------------------------------------------------

  /** Inserting a new position into an ascending list keeps it ascending and
      adds exactly that position. */
  lemma InsertKeepsAscending(l: seq<Pos>, v: Pos)
    requires StrictlyAscending(l) && v !in l
    ensures StrictlyAscending(Insert(l, v))
    ensures forall w :: w in Insert(l, v) <==> w in l || w == v
    ensures |Insert(l, v)| == |l| + 1
  {
    var p := FirstAfter(l, v);
    var m := Insert(l, v);
    forall k | 0 <= k < p
      ensures After(v, l[k])
    {
      assert l[k] != v;
    }
    forall i, j | 0 <= i < j < |m|
      ensures After(m[j], m[i])
    {
      if j < p || i > p {
      } else if i == p {
        assert m[j] == l[j - 1];
        if j - 1 > p {
          assert After(l[j - 1], l[p]);
        }
      } else {
        assert m[i] == l[i];
        if j > p {
          assert m[j] == l[j - 1];
        }
      }
    }
    forall w | w in l
      ensures w in m
    {
      var k :| 0 <= k < |l| && l[k] == w;
      if k < p {
        assert m[k] == w;
      } else {
        assert m[k + 1] == w;
      }
    }
  }

  /** A push keeps the list ascending without repetition, whether or not it
      changes it. */
  lemma PushKeepsAscending(d: PositionList, X: int, Y: int, e: PositionList)
    requires Valid(d) && StrictlyAscending(Live(d))
    requires (X, Y) in Live(d) || d.posPush >= d.maxPos ==> e == d
    requires (X, Y) !in Live(d) && d.posPush < d.maxPos ==> Valid(e) && Live(e) == Insert(Live(d), (X, Y))
    ensures Valid(e) && StrictlyAscending(Live(e))
  {
    if (X, Y) !in Live(d) && d.posPush < d.maxPos {
      InsertKeepsAscending(Live(d), (X, Y));
    }
  }

  /** Cutting the list short with setPosition keeps it ascending. */
  lemma SetPositionKeepsAscending(d: PositionList, p: nat)
    requires Valid(d) && StrictlyAscending(Live(d)) && p <= d.available
    ensures Live(SetPosition(d, p)) == Live(d)[..p] || p >= d.maxPos
    ensures StrictlyAscending(Live(SetPosition(d, p)))
  {
  }

  /** The indices k successive pops hand out. */
  function Pops(d: PositionList, k: nat): (r: seq<int>)
    ensures |r| == k
    decreases k
  {
    if k == 0 then [] else [Pop(d).1] + Pops(Pop(d).0, k - 1)
  }

  /** After resetPosition, the pops hand out every slot of the list in order,
      then -1. */
  lemma {:induction false} PopsInOrder(d: PositionList, k: nat)
    requires d.posPop + k <= d.available
    ensures Pops(d, k) == seq(k, j => d.posPop + j)
    ensures d.posPop + k == d.available ==> Pop(AfterPops(d, k)).1 == -1
    decreases k
  {
    if k > 0 {
      PopsInOrder(Pop(d).0, k - 1);
    }
  }

  /** The position after k pops. */
  function AfterPops(d: PositionList, k: nat): (e: PositionList)
    ensures e == d.(posPop := e.posPop)
    decreases k
  {
    if k == 0 || d.posPop >= d.available then d else AfterPops(Pop(d).0, k - 1)
  }

  // ---------------------------------------------------------------------------
  // The block's footprint on the board
  // ---------------------------------------------------------------------------

  /** The largest multiplication the block performs and the two corners of
      the rectangle it covers on the multiplier board. */
  datatype Footprint = Footprint(maxWidth: int, maxHeight: int, topRight: Pos, bottomLeft: Pos)

  /** The corners span exactly maxWidth columns and maxHeight rows. */
  predicate Spans(f: Footprint)
  {
    f.bottomLeft.0 - f.topRight.0 + 1 == f.maxWidth && f.bottomLeft.1 - f.topRight.1 + 1 == f.maxHeight
  }

  /** rotate: width and height are exchanged and the bottom-left corner is
      moved to match them, keeping the top-right corner. */
  function Rotate(f: Footprint): (g: Footprint)
    ensures g.maxWidth == f.maxHeight && g.maxHeight == f.maxWidth
    ensures g.topRight == f.topRight
    ensures Spans(g)
  {
    var w := f.maxHeight;
    var h := f.maxWidth;
    f.(maxWidth := w, maxHeight := h,
       bottomLeft := (f.topRight.0 + w - 1, f.topRight.1 + h - 1))
  }

  /** Rotating twice gives back a block that spans its rectangle. */
  lemma RotateTwice(f: Footprint)
    requires Spans(f)
    ensures Rotate(Rotate(f)) == f
  {
  }
}
