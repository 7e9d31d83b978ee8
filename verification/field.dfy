/** The multiplier board of the tiling strategies (src/IntMult/Field.cpp): a
    grid of wY rows of wX cells, one per partial-product bit, marked once a tile
    covers it, with a count of the free cells and a cursor on the next free cell. */
module Field {
  import opened BaseMultiplierCategory

  /** A board position (x, y): column x of row y. */
  type Cell = (nat, nat)

  /** The board; cells[y][x] holds when a tile covers (x, y). */
  datatype Field = Field(wX: nat, wY: nat, cells: seq<seq<bool>>, missing: nat, cursor: Cell)

  /** The grid has wY rows of wX cells. */
  predicate Shaped(f: Field)
  {
    |f.cells| == f.wY && forall y :: 0 <= y < |f.cells| ==> |f.cells[y]| == f.wX
  }

  /** The number of free cells of a row. */
  function FreeInRow(row: seq<bool>): (n: nat)
    ensures n <= |row|
  {
    if |row| == 0 then 0 else (if row[0] then 0 else 1) + FreeInRow(row[1..])
  }

  /** The number of free cells of a grid. */
  function FreeCells(cells: seq<seq<bool>>): nat
  {
    if |cells| == 0 then 0 else FreeInRow(cells[0]) + FreeCells(cells[1..])
  }

  /** The class invariant: missing counts the free cells and the cursor lies on
      the board or on its right or bottom edge. */
  predicate Valid(f: Field)
  {
    Shaped(f) && f.missing == FreeCells(f.cells) && f.cursor.0 <= f.wX && f.cursor.1 <= f.wY
  }

  predicate Occupied(f: Field, x: nat, y: nat)
  {
    y < |f.cells| && x < |f.cells[y]| && f.cells[y][x]
  }

  // ---------------------------------------------------------------------------
  // Counting free cells
  // ---------------------------------------------------------------------------

  lemma {:induction false} FreeInRowZero(row: seq<bool>)
    ensures FreeInRow(row) == 0 <==> forall x :: 0 <= x < |row| ==> row[x]
  {
    if |row| > 0 {
      FreeInRowZero(row[1..]);
      if FreeInRow(row) == 0 {
        forall x | 0 <= x < |row| ensures row[x] {
          if x > 0 { assert row[x] == row[1..][x - 1]; }
        }
      } else if !row[0] {
      } else {
        var x :| 0 <= x < |row[1..]| && !row[1..][x];
        assert !row[x + 1];
      }
    }
  }

  lemma {:induction false} FreeCellsZero(cells: seq<seq<bool>>)
    ensures FreeCells(cells) == 0 <==>
            forall y, x :: 0 <= y < |cells| && 0 <= x < |cells[y]| ==> cells[y][x]
  {
    if |cells| > 0 {
      FreeCellsZero(cells[1..]);
      FreeInRowZero(cells[0]);
      if FreeCells(cells) == 0 {
        forall y, x | 0 <= y < |cells| && 0 <= x < |cells[y]| ensures cells[y][x] {
          if y > 0 { assert cells[y] == cells[1..][y - 1]; }
        }
      } else if FreeInRow(cells[0]) != 0 {
      } else {
        var y, x :| 0 <= y < |cells[1..]| && 0 <= x < |cells[1..][y]| && !cells[1..][y][x];
        assert !cells[y + 1][x];
      }
    }
  }

  lemma {:induction false} FreeInRowEmpty(n: nat)
    ensures FreeInRow(seq(n, _ => false)) == n
  {
    if n > 0 {
      assert seq(n, _ => false)[1..] == seq(n - 1, _ => false);
      FreeInRowEmpty(n - 1);
    }
  }

  lemma {:induction false} FreeCellsEmpty(wX: nat, wY: nat)
    ensures FreeCells(seq(wY, _ => seq(wX, _ => false))) == wX * wY
  {
    if wY > 0 {
      assert seq(wY, _ => seq(wX, _ => false))[1..] == seq(wY - 1, _ => seq(wX, _ => false));
      FreeCellsEmpty(wX, wY - 1);
      FreeInRowEmpty(wX);
      assert wX * wY == wX + wX * (wY - 1);
    }
  }

  /** Marking one cell frees one cell less when it was free. */
  lemma {:induction false} FreeInRowMark(row: seq<bool>, j: nat)
    requires j < |row|
    ensures FreeInRow(row[j := true]) + (if row[j] then 0 else 1) == FreeInRow(row)
  {
    if j > 0 {
      assert row[j := true][1..] == row[1..][j - 1 := true];
      FreeInRowMark(row[1..], j - 1);
    }
  }

  /** Replacing a row changes the count by the difference of the two rows' counts. */
  lemma {:induction false} FreeCellsReplace(cells: seq<seq<bool>>, i: nat, row: seq<bool>)
    requires i < |cells|
    ensures FreeCells(cells[i := row]) + FreeInRow(cells[i]) == FreeCells(cells) + FreeInRow(row)
  {
    if i > 0 {
      assert cells[i := row][1..] == cells[1..][i - 1 := row];
      FreeCellsReplace(cells[1..], i - 1, row);
    }
  }

  // ---------------------------------------------------------------------------
  // Construction, reset and the cursor
  // ---------------------------------------------------------------------------

  /** setCursor as written: a coordinate beyond the board is reset to 0, one
      equal to the board's width or height is kept. */
  function SetCursorAsWritten(f: Field, x: nat, y: nat): (g: Field)
    ensures g == f.(cursor := g.cursor)
    ensures g.cursor.0 <= f.wX && g.cursor.1 <= f.wY
    ensures x <= f.wX ==> g.cursor.0 == x
    ensures y <= f.wY ==> g.cursor.1 == y
  {
    f.(cursor := (if x > f.wX then 0 else x, if y > f.wY then 0 else y))
  }

  /** setCursor with the guards the board's reads need: a coordinate that is not
      on the board is reset to 0. */
  function SetCursor(f: Field, x: nat, y: nat): (g: Field)
    ensures g == f.(cursor := g.cursor)
    ensures f.wX >= 1 && f.wY >= 1 ==> g.cursor.0 < f.wX && g.cursor.1 < f.wY
    ensures x < f.wX ==> g.cursor.0 == x
    ensures y < f.wY ==> g.cursor.1 == y
  {
    f.(cursor := (if x >= f.wX then 0 else x, if y >= f.wY then 0 else y))
  }

  /** The constructor: every cell free, wX * wY of them missing, cursor at (0, 0). */
  function New(wX: nat, wY: nat): (f: Field)
    ensures Valid(f) && f.wX == wX && f.wY == wY
    ensures f.missing == wX * wY && f.cursor == (0, 0)
    ensures forall y, x :: 0 <= y < wY && 0 <= x < wX ==> !Occupied(f, x, y)
  {
    FreeCellsEmpty(wX, wY);
    SetCursor(Field(wX, wY, seq(wY, _ => seq(wX, _ => false)), wX * wY, (0, 0)), 0, 0)
  }

  /** reset: clears every cell, row by row, and returns the board to the state
      the constructor builds. */
  method Reset(f: Field) returns (g: Field)
    requires Shaped(f)
    ensures g == New(f.wX, f.wY)
  {
    var cells := f.cells;
    var i := 0;
    while i < f.wY
      invariant 0 <= i <= f.wY && |cells| == f.wY
      invariant forall y :: 0 <= y < i ==> cells[y] == seq(f.wX, _ => false)
      invariant forall y :: i <= y < f.wY ==> |cells[y]| == f.wX
    {
      var row := cells[i];
      var j := 0;
      while j < f.wX
        invariant 0 <= j <= f.wX && |row| == f.wX
        invariant forall x :: 0 <= x < j ==> !row[x]
      {
        row := row[j := false];
        j := j + 1;
      }
      cells := cells[i := row];
      i := i + 1;
    }
    g := SetCursor(Field(f.wX, f.wY, cells, f.missing, f.cursor), 0, 0);
    g := g.(missing := f.wX * f.wY);
  }

  /** setCursor as written lets the cursor reach the right edge x = wX, where
      getMissingHeight reads column wX, and the bottom edge y = wY, where
      getMissingLine reads row wY: neither exists. */
  lemma SetCursorAsWrittenLeavesBoard(f: Field)
    requires Valid(f) && f.wX >= 1 && f.wY >= 1
    ensures var g := SetCursorAsWritten(f, f.wX, 0); !(g.cursor.0 < g.wX || g.cursor.1 >= g.wY)
    ensures var g := SetCursorAsWritten(f, 0, f.wY); !(g.cursor.1 < g.wY || g.cursor.0 >= g.wX)
  {
  }

  /** With the corrected guards the cursor stays where both reads are defined. */
  lemma SetCursorKeepsReadsOnBoard(f: Field, x: nat, y: nat)
    requires Valid(f) && f.wX >= 1 && f.wY >= 1
    ensures var g := SetCursor(f, x, y);
            Valid(g) && (g.cursor.0 < g.wX || g.cursor.1 >= g.wY) && (g.cursor.1 < g.wY || g.cursor.0 >= g.wX)
  {
  }

  /** isFull: no cell is missing. */
  function IsFull(f: Field): (b: bool)
    requires Valid(f)
    ensures b <==> forall y, x :: 0 <= y < f.wY && 0 <= x < f.wX ==> Occupied(f, x, y)
  {
    NoneFreeIsFull(f);
    f.missing == 0
  }

  lemma NoneFreeIsFull(f: Field)
    requires Shaped(f)
    ensures FreeCells(f.cells) == 0 <==> forall y, x :: 0 <= y < f.wY && 0 <= x < f.wX ==> Occupied(f, x, y)
  {
    FreeCellsZero(f.cells);
    if FreeCells(f.cells) != 0 {
      var y, x :| 0 <= y < |f.cells| && 0 <= x < |f.cells[y]| && !f.cells[y][x];
      assert !Occupied(f, x, y);
    }
  }

  // ---------------------------------------------------------------------------
  // Tile footprints
  // ---------------------------------------------------------------------------

  /** The end of a tile placed at c, clipped to the board. */
  function ClipX(f: Field, c: Cell, tile: Parametrization): (m: nat)
    ensures m <= f.wX && m <= c.0 + TileXWordSize(tile)
  {
    if c.0 + TileXWordSize(tile) > f.wX then f.wX else c.0 + TileXWordSize(tile)
  }

  function ClipY(f: Field, c: Cell, tile: Parametrization): (m: nat)
    ensures m <= f.wY && m <= c.1 + TileYWordSize(tile)
  {
    if c.1 + TileYWordSize(tile) > f.wY then f.wY else c.1 + TileYWordSize(tile)
  }

  /** (x, y) is a cell the tile placed at c covers: inside both the board and the
      tile's rectangle, at an offset where the tile's shape is valid. */
  predicate Covers(f: Field, c: Cell, tile: Parametrization, shape: (nat, nat) -> bool, x: nat, y: nat)
  {
    c.0 <= x < ClipX(f, c, tile) && c.1 <= y < ClipY(f, c, tile) && shape(x - c.0, y - c.1)
  }

  /** The covered cells of row y between columns c.0 and x, left to right. */
  function RowCells(c: Cell, y: nat, shape: (nat, nat) -> bool, x: nat): (r: seq<Cell>)
    requires c.1 <= y
    ensures |r| <= (if x <= c.0 then 0 else x - c.0)
  {
    if x <= c.0 then []
    else RowCells(c, y, shape, x - 1) + (if shape(x - 1 - c.0, y - c.1) then [(x - 1, y)] else [])
  }

  /** The covered cells of rows c.1 to y - 1 up to column maxX, in the order the
      placement loops visit them. */
  function RowsCells(c: Cell, maxX: nat, shape: (nat, nat) -> bool, y: nat): (r: seq<Cell>)
  {
    if y <= c.1 then []
    else RowsCells(c, maxX, shape, y - 1) + RowCells(c, y - 1, shape, maxX)
  }

  lemma {:induction false} RowCellsMember(c: Cell, y: nat, shape: (nat, nat) -> bool, x: nat, p: Cell)
    requires c.1 <= y
    ensures p in RowCells(c, y, shape, x) <==> p.1 == y && c.0 <= p.0 < x && shape(p.0 - c.0, y - c.1)
  {
    if x > c.0 {
      RowCellsMember(c, y, shape, x - 1, p);
    }
  }

  lemma {:induction false} RowsCellsMember(c: Cell, maxX: nat, shape: (nat, nat) -> bool, y: nat, p: Cell)
    ensures p in RowsCells(c, maxX, shape, y) <==> c.1 <= p.1 < y && c.0 <= p.0 < maxX && shape(p.0 - c.0, p.1 - c.1)
  {
    if y > c.1 {
      RowsCellsMember(c, maxX, shape, y - 1, p);
      RowCellsMember(c, y - 1, shape, maxX, p);
    }
  }

  /** The cells a tile placed at c covers. */
  function Footprint(f: Field, c: Cell, tile: Parametrization, shape: (nat, nat) -> bool): seq<Cell>
  {
    RowsCells(c, ClipX(f, c, tile), shape, ClipY(f, c, tile))
  }

  /** The footprint holds exactly the cells the tile covers. */
  lemma FootprintMember(f: Field, c: Cell, tile: Parametrization, shape: (nat, nat) -> bool, p: Cell)
    ensures p in Footprint(f, c, tile, shape) <==> Covers(f, c, tile, shape, p.0, p.1)
  {
    RowsCellsMember(c, ClipX(f, c, tile), shape, ClipY(f, c, tile), p);
  }

  /** A footprint never holds more cells than the tile's rectangle. */
  lemma FootprintBound(f: Field, c: Cell, tile: Parametrization, shape: (nat, nat) -> bool)
    ensures |Footprint(f, c, tile, shape)| <= TileXWordSize(tile) * TileYWordSize(tile)
  {
    var maxX := ClipX(f, c, tile);
    var w := if maxX <= c.0 then 0 else maxX - c.0;
    RowsCellsBound(c, maxX, shape, ClipY(f, c, tile));
    var h := ClipY(f, c, tile);
    var rows := if h <= c.1 then 0 else h - c.1;
    assert w <= TileXWordSize(tile) && rows <= TileYWordSize(tile);
    MulBoth(w, rows, TileXWordSize(tile), TileYWordSize(tile));
  }

  lemma {:induction false} RowsCellsBound(c: Cell, maxX: nat, shape: (nat, nat) -> bool, y: nat)
    ensures |RowsCells(c, maxX, shape, y)| <= (if maxX <= c.0 then 0 else maxX - c.0) * (if y <= c.1 then 0 else y - c.1)
  {
    if y > c.1 {
      RowsCellsBound(c, maxX, shape, y - 1);
      var w := if maxX <= c.0 then 0 else maxX - c.0;
      assert w * (y - c.1) == w * (y - 1 - c.1) + w;
    }
  }

  /** A tile of full shape placed wholly inside the board covers its whole
      rectangle. */
  lemma FootprintFull(f: Field, c: Cell, tile: Parametrization, shape: (nat, nat) -> bool)
    requires forall a, b :: shape(a, b)
    requires c.0 + TileXWordSize(tile) <= f.wX && c.1 + TileYWordSize(tile) <= f.wY
    ensures |Footprint(f, c, tile, shape)| == TileXWordSize(tile) * TileYWordSize(tile)
  {
    RowsCellsFull(c, c.0 + TileXWordSize(tile), shape, c.1 + TileYWordSize(tile));
  }

  lemma {:induction false} RowsCellsFull(c: Cell, maxX: nat, shape: (nat, nat) -> bool, y: nat)
    requires forall a, b :: shape(a, b)
    requires c.0 <= maxX && c.1 <= y
    ensures |RowsCells(c, maxX, shape, y)| == (maxX - c.0) * (y - c.1)
  {
    if y > c.1 {
      RowsCellsFull(c, maxX, shape, y - 1);
      RowCellsFull(c, y - 1, shape, maxX);
      assert (maxX - c.0) * (y - c.1) == (maxX - c.0) * (y - 1 - c.1) + (maxX - c.0);
    }
  }

  lemma {:induction false} RowCellsFull(c: Cell, y: nat, shape: (nat, nat) -> bool, x: nat)
    requires forall a, b :: shape(a, b)
    requires c.0 <= x && c.1 <= y
    ensures |RowCells(c, y, shape, x)| == x - c.0
  {
    if x > c.0 {
      RowCellsFull(c, y, shape, x - 1);
      assert shape(x - 1 - c.0, y - c.1);
    }
  }

  lemma MulBoth(a: nat, b: nat, c: nat, d: nat)
    requires a <= c && b <= d
    ensures a * b <= c * d
  {
    assert a * b <= c * b by { assert c * b == a * b + (c - a) * b; }
    assert c * b <= c * d by { assert c * d == c * b + c * (d - b); }
  }

  // ---------------------------------------------------------------------------
  // checkTilePlacement and placeTileInField
  // ---------------------------------------------------------------------------

  /** checkTilePlacement: visits the footprint row by row; 0 as soon as one of
      its cells is taken, otherwise the number of cells the tile would cover. */
  method CheckTilePlacement(f: Field, c: Cell, tile: Parametrization, shape: (nat, nat) -> bool)
    returns (covered: nat)
    requires Shaped(f)
    ensures (exists p :: p in Footprint(f, c, tile, shape) && Occupied(f, p.0, p.1)) ==> covered == 0
    ensures (forall p :: p in Footprint(f, c, tile, shape) ==> !Occupied(f, p.0, p.1)) ==>
            covered == |Footprint(f, c, tile, shape)|
  {
    var maxX := ClipX(f, c, tile);
    var maxY := ClipY(f, c, tile);
    covered := 0;
    var i := c.1;
    while i < maxY
      invariant c.1 <= i && (i <= maxY || i == c.1)
      invariant covered == |RowsCells(c, maxX, shape, i)|
      invariant forall p :: p in RowsCells(c, maxX, shape, i) ==> !Occupied(f, p.0, p.1)
    {
      var free, n, j := CheckRow(f, c, maxX, i, shape);
      if !free {
        assert Covers(f, c, tile, shape, j, i);
        FootprintMember(f, c, tile, shape, (j, i));
        return 0;
      }
      assert RowsCells(c, maxX, shape, i + 1) == RowsCells(c, maxX, shape, i) + RowCells(c, i, shape, maxX);
      covered := covered + n;
      i := i + 1;
    }
  }

  /** One row of checkTilePlacement: whether the cells of row y the tile covers
      are all free, how many there are, and otherwise the first taken one. */
  method CheckRow(f: Field, c: Cell, maxX: nat, y: nat, shape: (nat, nat) -> bool)
    returns (free: bool, n: nat, taken: nat)
    requires Shaped(f) && maxX <= f.wX && c.1 <= y < f.wY
    ensures free ==> n == |RowCells(c, y, shape, maxX)| &&
                     forall p :: p in RowCells(c, y, shape, maxX) ==> !Occupied(f, p.0, p.1)
    ensures !free ==> c.0 <= taken < maxX && shape(taken - c.0, y - c.1) && Occupied(f, taken, y)
  {
    n := 0;
    var j := c.0;
    while j < maxX
      invariant c.0 <= j && (j <= maxX || j == c.0)
      invariant n == |RowCells(c, y, shape, j)|
      invariant forall p :: p in RowCells(c, y, shape, j) ==> !Occupied(f, p.0, p.1)
    {
      if shape(j - c.0, y - c.1) {
        if f.cells[y][j] {
          return false, n, j;
        }
        n := n + 1;
      }
      j := j + 1;
    }
    return true, n, 0;
  }

  /** One row of placeTileInField: marks the free cells of row y the tile covers
      and counts them. */
  method MarkRow(row: seq<bool>, c: Cell, maxX: nat, y: nat, shape: (nat, nat) -> bool)
    returns (r: seq<bool>, marked: nat)
    requires maxX <= |row| && c.1 <= y
    ensures |r| == |row|
    ensures forall x :: 0 <= x < |r| ==> r[x] == (row[x] || (c.0 <= x < maxX && shape(x - c.0, y - c.1)))
    ensures FreeInRow(r) + marked == FreeInRow(row)
  {
    r := row;
    marked := 0;
    var j := c.0;
    while j < maxX
      invariant c.0 <= j && (j <= maxX || j == c.0) && |r| == |row|
      invariant forall x :: 0 <= x < |r| ==> r[x] == (row[x] || (c.0 <= x < j && shape(x - c.0, y - c.1)))
      invariant FreeInRow(r) + marked == FreeInRow(row)
    {
      if shape(j - c.0, y - c.1) && !r[j] {
        FreeInRowMark(r, j);
        marked := marked + 1;
        r := r[j := true];
      }
      j := j + 1;
    }
  }

  /** cells is the board f after the placement loop has marked the rows above
      row i. */
  predicate MarkedAbove(f: Field, c: Cell, tile: Parametrization, shape: (nat, nat) -> bool,
                        cells: seq<seq<bool>>, i: nat)
  {
    |cells| == f.wY && (forall y :: 0 <= y < f.wY ==> |cells[y]| == f.wX) &&
    Shaped(f) &&
    forall y, x :: 0 <= y < f.wY && 0 <= x < f.wX ==>
      cells[y][x] == (f.cells[y][x] || (y < i && Covers(f, c, tile, shape, x, y)))
  }

  lemma MarkedStep(f: Field, c: Cell, tile: Parametrization, shape: (nat, nat) -> bool,
                   cells: seq<seq<bool>>, i: nat, row: seq<bool>)
    requires MarkedAbove(f, c, tile, shape, cells, i) && c.1 <= i < ClipY(f, c, tile)
    requires |row| == f.wX
    requires forall x :: 0 <= x < |row| ==>
               row[x] == (cells[i][x] || (c.0 <= x < ClipX(f, c, tile) && shape(x - c.0, i - c.1)))
    ensures MarkedAbove(f, c, tile, shape, cells[i := row], i + 1)
  {
  }

  /** placeTileInField: marks every free cell of the footprint, takes each from
      missing, then moves the cursor on with updatePosition and returns it. */
  method PlaceTileInField(f: Field, c: Cell, tile: Parametrization, shape: (nat, nat) -> bool)
    returns (g: Field, next: Cell)
    requires Valid(f)
    ensures Valid(g) && g.wX == f.wX && g.wY == f.wY && next == g.cursor
    ensures forall y, x :: 0 <= y < f.wY && 0 <= x < f.wX ==>
              (Occupied(g, x, y) <==> Occupied(f, x, y) || Covers(f, c, tile, shape, x, y))
    ensures NextFreeFrom(g, f.cursor.1, g.cursor)
  {
    var maxX := ClipX(f, c, tile);
    var maxY := ClipY(f, c, tile);
    var cells := f.cells;
    var missing := f.missing;
    var i := c.1;
    while i < maxY
      invariant c.1 <= i && (i <= maxY || i == c.1)
      invariant MarkedAbove(f, c, tile, shape, cells, i)
      invariant missing == FreeCells(cells)
    {
      var row, marked := MarkRow(cells[i], c, maxX, i, shape);
      FreeCellsReplace(cells, i, row);
      MarkedStep(f, c, tile, shape, cells, i, row);
      missing := missing - marked;
      cells := cells[i := row];
      i := i + 1;
    }
    var placed := Field(f.wX, f.wY, cells, missing, f.cursor);
    assert MarkedAbove(f, c, tile, shape, cells, i);
    g := UpdatePosition(placed);
    next := g.cursor;
  }

  // ---------------------------------------------------------------------------
  // The cursor
  // ---------------------------------------------------------------------------

  /** Where updatePosition leaves the cursor when it starts on row `from`: the
      first free cell, in reading order, of rows `from` onward, and (0, 0) when
      those rows are full. */
  predicate NextFreeFrom(f: Field, from: nat, r: Cell)
    requires Shaped(f)
  {
    if exists y, x :: from <= y < f.wY && 0 <= x < f.wX && !f.cells[y][x] then
      from <= r.1 < f.wY && r.0 < f.wX && !f.cells[r.1][r.0] &&
      (forall x :: 0 <= x < r.0 ==> f.cells[r.1][x]) &&
      (forall y, x :: from <= y < r.1 && 0 <= x < f.wX ==> f.cells[y][x])
    else r == (0, 0)
  }

  /** updatePosition: scans the rows from the cursor's row down, each from its
      first column, and stops on the first free cell; (0, 0) when there is none. */
  method UpdatePosition(f: Field) returns (g: Field)
    requires Valid(f)
    ensures Valid(g) && g == f.(cursor := g.cursor)
    ensures NextFreeFrom(f, f.cursor.1, g.cursor)
  {
    var y := f.cursor.1;
    while y != f.wY
      invariant f.cursor.1 <= y <= f.wY
      invariant forall yy, x :: f.cursor.1 <= yy < y && 0 <= x < f.wX ==> f.cells[yy][x]
      decreases f.wY - y
    {
      var i := 0;
      while i < f.wX
        invariant 0 <= i <= f.wX
        invariant forall x :: 0 <= x < i ==> f.cells[y][x]
      {
        if !f.cells[y][i] {
          return f.(cursor := (i, y));
        }
        i := i + 1;
      }
      y := y + 1;
    }
    return f.(cursor := (0, 0));
  }

  /** The position updatePosition picks is determined by the board. */
  lemma NextFreeUnique(f: Field, from: nat, r: Cell, s: Cell)
    requires Shaped(f) && NextFreeFrom(f, from, r) && NextFreeFrom(f, from, s)
    ensures r == s
  {
  }

  /** On a board that is not full, a scan from the top row lands on a free cell. */
  lemma CursorOnFreeCell(f: Field, r: Cell)
    requires Valid(f) && !IsFull(f) && NextFreeFrom(f, 0, r)
    ensures r.1 < f.wY && r.0 < f.wX && !Occupied(f, r.0, r.1)
  {
    var y, x :| 0 <= y < f.wY && 0 <= x < f.wX && !Occupied(f, x, y);
    assert !f.cells[y][x];
  }

  // ---------------------------------------------------------------------------
  // getMissingLine and getMissingHeight
  // ---------------------------------------------------------------------------

  /** getMissingLine: the run of free cells from the cursor rightwards. Row
      cursor.y is read unless the cursor is on the right edge, so it must exist. */
  method GetMissingLine(f: Field) returns (n: nat)
    requires Valid(f) && (f.cursor.1 < f.wY || f.cursor.0 == f.wX)
    ensures f.cursor.0 + n <= f.wX
    ensures forall x :: f.cursor.0 <= x < f.cursor.0 + n ==> !Occupied(f, x, f.cursor.1)
    ensures f.cursor.0 + n < f.wX ==> Occupied(f, f.cursor.0 + n, f.cursor.1)
  {
    n := 0;
    var i := f.cursor.0;
    while i < f.wX
      invariant f.cursor.0 <= i <= f.wX && i == f.cursor.0 + n
      invariant forall x :: f.cursor.0 <= x < i ==> !Occupied(f, x, f.cursor.1)
    {
      if f.cells[f.cursor.1][i] {
        break;
      }
      n := n + 1;
      i := i + 1;
    }
  }

  /** getMissingHeight: the run of free cells from the cursor downwards. Column
      cursor.x is read unless the cursor is on the bottom edge, so it must exist. */
  method GetMissingHeight(f: Field) returns (n: nat)
    requires Valid(f) && (f.cursor.0 < f.wX || f.cursor.1 == f.wY)
    ensures f.cursor.1 + n <= f.wY
    ensures forall y :: f.cursor.1 <= y < f.cursor.1 + n ==> !Occupied(f, f.cursor.0, y)
    ensures f.cursor.1 + n < f.wY ==> Occupied(f, f.cursor.0, f.cursor.1 + n)
  {
    n := 0;
    var i := f.cursor.1;
    while i < f.wY
      invariant f.cursor.1 <= i <= f.wY && i == f.cursor.1 + n
      invariant forall y :: f.cursor.1 <= y < i ==> !Occupied(f, f.cursor.0, y)
    {
      if f.cells[i][f.cursor.0] {
        break;
      }
      n := n + 1;
      i := i + 1;
    }
  }
}
