/** The tile grid of the puzzle: its geometry, the plus-shaped toggle pattern,
    the win predicate and the mapping from canvas pixels to cells. Everything
    here is a pure value; the mutable game lives in module Game. */
module Board {

  /** The TileGame constructor's constants. */
  const GRID_SIZE: int := 3
  const CELL_SIZE: int := 80
  const CELL_PADDING: int := 10
  const GRID_PADDING: int := 30

  /** Distance from the left (top) edge of one cell to that of the next. */
  const STRIDE: int := CELL_SIZE + CELL_PADDING

  datatype Option<T> = None | Some(value: T)

  /** A `{row, col}` position; coordinates may lie outside the grid. */
  datatype Cell = Cell(row: int, col: int)

  /** `gameState.grid`: rows of cells, `true` for a dark tile. */
  type Grid = seq<seq<bool>>

  predicate WellFormed(g: Grid) {
    |g| == GRID_SIZE && forall r :: 0 <= r < |g| ==> |g[r]| == GRID_SIZE
  }

  predicate InGrid(x: Cell) {
    0 <= x.row < GRID_SIZE && 0 <= x.col < GRID_SIZE
  }

  predicate AllInGrid(cells: seq<Cell>) {
    forall i :: 0 <= i < |cells| ==> InGrid(cells[i])
  }

  /** The grid with every cell set to `v`; `Uniform(false)` is a fresh grid. */
  function Uniform(v: bool): (g: Grid)
    ensures WellFormed(g)
    ensures forall r, c :: 0 <= r < GRID_SIZE && 0 <= c < GRID_SIZE ==> g[r][c] == v
  {
    seq(GRID_SIZE, _ => seq(GRID_SIZE, _ => v))
  }

  function Abs(n: int): nat {
    if n < 0 then -n else n
  }

  /** `x` is `at` itself or one of its up, down, left and right neighbours. */
  predicate Near(at: Cell, x: Cell) {
    Abs(x.row - at.row) + Abs(x.col - at.col) <= 1
  }

  // ---------------------------------------------------------------------
  // Toggling
  // ---------------------------------------------------------------------

  /** The candidate neighbours of `at`, in the order toggleTiles lists them:
      up, down, left, right. Some may lie outside the grid. */
  function Adjacent(at: Cell): seq<Cell> {
    [Cell(at.row - 1, at.col), Cell(at.row + 1, at.col),
     Cell(at.row, at.col - 1), Cell(at.row, at.col + 1)]
  }

  lemma AdjacentIsNear(at: Cell, x: Cell)
    ensures (x == at || x in Adjacent(at)) <==> Near(at, x)
  {
  }

  /** `x` has been flipped once toggleTiles has handled `at` and the first
      `k` of its adjacent cells. */
  predicate FlippedBy(at: Cell, k: nat, x: Cell)
    requires k <= 4
  {
    x == at || x in Adjacent(at)[..k]
  }

  /** Handling the next adjacent cell flips that cell and no other: the four
      adjacent cells differ from each other and from `at`. */
  lemma FlippedByNext(at: Cell, k: nat, x: Cell)
    requires k < 4
    ensures FlippedBy(at, k + 1, x) == (FlippedBy(at, k, x) != (x == Adjacent(at)[k]))
  {
  }

  lemma FlippedByAll(at: Cell, x: Cell)
    ensures FlippedBy(at, 4, x) <==> Near(at, x)
  {
    assert Adjacent(at)[..4] == Adjacent(at);
    AdjacentIsNear(at, x);
  }

  /** The cells that toggleTiles flips when `at` is clicked: `at` itself,
      then those of its adjacent cells that lie inside the grid. */
  function Affected(at: Cell): seq<Cell> {
    [at] + Inside(Adjacent(at))
  }

  /** The cells of `cells` that lie inside the grid, in order. */
  function Inside(cells: seq<Cell>): seq<Cell> {
    if cells == [] then []
    else (if InGrid(cells[0]) then [cells[0]] else []) + Inside(cells[1..])
  }

  /** A click at `at` flips exactly the cells of `Affected(at)`, which are the
      in-grid cells near `at`. */
  lemma AffectedIsNear(at: Cell, x: Cell)
    requires InGrid(at)
    ensures x in Affected(at) <==> InGrid(x) && Near(at, x)
  {
  }

  /** The grid after a click at `at`: every in-grid cell near `at` is
      inverted, every other cell keeps its value. */
  function Toggled(g: Grid, at: Cell): (h: Grid)
    requires WellFormed(g)
    ensures WellFormed(h)
  {
    seq(GRID_SIZE, r requires 0 <= r < GRID_SIZE =>
      seq(GRID_SIZE, c requires 0 <= c < GRID_SIZE => g[r][c] != Near(at, Cell(r, c))))
  }

  /** Two well-formed grids that agree on every cell are equal. */
  lemma GridsEqual(g: Grid, h: Grid)
    requires WellFormed(g) && WellFormed(h)
    requires forall r, c :: 0 <= r < GRID_SIZE && 0 <= c < GRID_SIZE ==> g[r][c] == h[r][c]
    ensures g == h
  {
    forall r | 0 <= r < GRID_SIZE
      ensures g[r] == h[r]
    {
      assert forall c :: 0 <= c < GRID_SIZE ==> g[r][c] == h[r][c];
    }
  }

  /** A well-formed grid written out cell by cell (the grid is 3 by 3). */
  lemma GridLiteral(g: Grid)
    requires WellFormed(g)
    ensures g == [[g[0][0], g[0][1], g[0][2]], [g[1][0], g[1][1], g[1][2]], [g[2][0], g[2][1], g[2][2]]]
  {
    assert g[0] == [g[0][0], g[0][1], g[0][2]];
    assert g[1] == [g[1][0], g[1][1], g[1][2]];
    assert g[2] == [g[2][0], g[2][1], g[2][2]];
  }

  /** Clicking the same cell twice restores the grid. */
  lemma ToggleTwiceRestores(g: Grid, at: Cell)
    requires WellFormed(g)
    ensures Toggled(Toggled(g, at), at) == g
  {
    GridsEqual(Toggled(Toggled(g, at), at), g);
  }

  /** The cells in which two well-formed grids differ. */
  function Changed(g: Grid, h: Grid): set<Cell>
    requires WellFormed(g) && WellFormed(h)
  {
    set r, c | 0 <= r < GRID_SIZE && 0 <= c < GRID_SIZE && g[r][c] != h[r][c] :: Cell(r, c)
  }

  predicate Distinct<T(==)>(s: seq<T>) {
    forall i, j :: 0 <= i < j < |s| ==> s[i] != s[j]
  }

  lemma {:induction false} DistinctCard<T>(s: seq<T>)
    requires Distinct(s)
    ensures |set x | x in s| == |s|
  {
    if s != [] {
      DistinctCard(s[1..]);
      assert (set x | x in s) == {s[0]} + (set x | x in s[1..]);
      assert s[0] !in (set x | x in s[1..]);
    }
  }

  predicate OnBorder(i: int) {
    i == 0 || i == GRID_SIZE - 1
  }

  /** A click flips exactly 3 cells in a corner, 4 on an edge and 5 in the
      interior of the grid, and nothing wraps around. */
  lemma FlipCount(g: Grid, at: Cell)
    requires WellFormed(g) && InGrid(at)
    ensures Changed(g, Toggled(g, at)) == set x | x in Affected(at)
    ensures |Changed(g, Toggled(g, at))| ==
      if OnBorder(at.row) && OnBorder(at.col) then 3
      else if OnBorder(at.row) || OnBorder(at.col) then 4
      else 5
  {
    var h := Toggled(g, at);
    forall x | x in Changed(g, h)
      ensures x in Affected(at)
    {
      AffectedIsNear(at, x);
    }
    forall x | x in Affected(at)
      ensures x in Changed(g, h)
    {
      AffectedIsNear(at, x);
      assert g[x.row][x.col] != h[x.row][x.col];
    }
    var aff := Affected(at);
    assert Distinct(aff) && |aff| ==
      if OnBorder(at.row) && OnBorder(at.col) then 3
      else if OnBorder(at.row) || OnBorder(at.col) then 4
      else 5
    by {
      assert at.row == 0 || at.row == 1 || at.row == 2;
      assert at.col == 0 || at.col == 1 || at.col == 2;
    }
    DistinctCard(aff);
  }

  /** The grid after clicking each cell of `picks` in turn. */
  function ApplyAll(g: Grid, picks: seq<Cell>): (h: Grid)
    requires WellFormed(g)
    ensures WellFormed(h)
    decreases |picks|
  {
    if picks == [] then g
    else Toggled(ApplyAll(g, picks[..|picks| - 1]), picks[|picks| - 1])
  }

  /** How many of `picks` are near `x`. */
  function NearCount(picks: seq<Cell>, x: Cell): nat
    decreases |picks|
  {
    if picks == [] then 0
    else NearCount(picks[..|picks| - 1], x) + (if Near(picks[|picks| - 1], x) then 1 else 0)
  }

  /** After a sequence of clicks a cell is inverted exactly when an odd number
      of the clicks were near it, in whatever order they came. */
  lemma {:induction false} ApplyAllParity(g: Grid, picks: seq<Cell>, r: int, c: int)
    requires WellFormed(g) && 0 <= r < GRID_SIZE && 0 <= c < GRID_SIZE
    ensures ApplyAll(g, picks)[r][c] == (g[r][c] != (NearCount(picks, Cell(r, c)) % 2 == 1))
    decreases |picks|
  {
    if picks != [] {
      ApplyAllParity(g, picks[..|picks| - 1], r, c);
    }
  }

  /** Clicking the four corners and the centre of an all-light grid darkens
      every cell. */
  lemma CornersAndCentreDarkenAll()
    ensures ApplyAll(Uniform(false), [Cell(0, 0), Cell(0, 2), Cell(2, 0), Cell(2, 2), Cell(1, 1)]) == Uniform(true)
  {
    var picks := [Cell(0, 0), Cell(0, 2), Cell(2, 0), Cell(2, 2), Cell(1, 1)];
    var u := Uniform(false);
    var g1 := Toggled(u, Cell(0, 0));
    var g2 := Toggled(g1, Cell(0, 2));
    var g3 := Toggled(g2, Cell(2, 0));
    var g4 := Toggled(g3, Cell(2, 2));
    var g := ApplyAll(u, picks);
    assert ApplyAll(u, picks[..1]) == g1 by { assert picks[..1][..0] == []; }
    assert ApplyAll(u, picks[..2]) == g2 by { assert picks[..2][..1] == picks[..1]; }
    assert ApplyAll(u, picks[..3]) == g3 by { assert picks[..3][..2] == picks[..2]; }
    assert ApplyAll(u, picks[..4]) == g4 by { assert picks[..4][..3] == picks[..3]; }
    assert g == Toggled(g4, Cell(1, 1));
    GridLiteral(g);
    assert g[0][0] && g[0][1] && g[0][2] && g[1][0] && g[1][1] && g[1][2] && g[2][0] && g[2][1] && g[2][2];
    GridLiteral(Uniform(true));
  }

  function Reverse<T>(s: seq<T>): (r: seq<T>)
    ensures |r| == |s|
    ensures forall i :: 0 <= i < |s| ==> r[i] == s[|s| - 1 - i]
  {
    if s == [] then [] else [s[|s| - 1]] + Reverse(s[..|s| - 1])
  }

  lemma {:induction false} ApplyAllAppend(g: Grid, a: seq<Cell>, b: seq<Cell>)
    requires WellFormed(g)
    ensures ApplyAll(g, a + b) == ApplyAll(ApplyAll(g, a), b)
    decreases |b|
  {
    if b == [] {
      assert a + b == a;
    } else {
      var b' := b[..|b| - 1];
      assert (a + b)[..|a + b| - 1] == a + b';
      ApplyAllAppend(g, a, b');
    }
  }

  /** Clicking the cells of `picks` and then the same cells in reverse order
      gives back the starting grid: a scrambled grid is always solvable. */
  lemma {:induction false} UndoByReversal(g: Grid, picks: seq<Cell>)
    requires WellFormed(g)
    ensures ApplyAll(ApplyAll(g, picks), Reverse(picks)) == g
    decreases |picks|
  {
    if picks != [] {
      var init, last := picks[..|picks| - 1], picks[|picks| - 1];
      var mid := ApplyAll(g, init);
      calc {
        ApplyAll(ApplyAll(g, picks), Reverse(picks));
        { assert Reverse(picks) == [last] + Reverse(init); }
        ApplyAll(ApplyAll(g, picks), [last] + Reverse(init));
        { ApplyAllAppend(ApplyAll(g, picks), [last], Reverse(init)); }
        ApplyAll(ApplyAll(ApplyAll(g, picks), [last]), Reverse(init));
        { assert ApplyAll(ApplyAll(g, picks), [last]) == Toggled(Toggled(mid, last), last);
          ToggleTwiceRestores(mid, last); }
        ApplyAll(mid, Reverse(init));
        { UndoByReversal(g, init); }
        g;
      }
    }
  }

  // ---------------------------------------------------------------------
  // Winning
  // ---------------------------------------------------------------------

  /** `row.every(cell => cell === v)` */
  function RowAll(row: seq<bool>, v: bool): bool {
    row == [] || (row[0] == v && RowAll(row[1..], v))
  }

  /** `rows.every(row => row.every(cell => cell === v))` */
  function RowsAll(rows: seq<seq<bool>>, v: bool): bool {
    rows == [] || (RowAll(rows[0], v) && RowsAll(rows[1..], v))
  }

  /** isWinState: every cell has the colour of the top-left cell. */
  function IsWin(g: Grid): bool
    requires WellFormed(g)
  {
    RowsAll(g, g[0][0])
  }

  lemma {:induction false} RowAllIff(row: seq<bool>, v: bool)
    ensures RowAll(row, v) <==> forall c :: 0 <= c < |row| ==> row[c] == v
  {
    if row != [] {
      RowAllIff(row[1..], v);
      assert forall c :: 1 <= c < |row| ==> row[c] == row[1..][c - 1];
    }
  }

  lemma {:induction false} RowsAllIff(rows: seq<seq<bool>>, v: bool)
    ensures RowsAll(rows, v) <==> forall r, c :: 0 <= r < |rows| && 0 <= c < |rows[r]| ==> rows[r][c] == v
  {
    if rows != [] {
      RowsAllIff(rows[1..], v);
      RowAllIff(rows[0], v);
      assert forall r :: 1 <= r < |rows| ==> rows[r] == rows[1..][r - 1];
    }
  }

  /** The win predicate holds exactly when all cells share one colour,
      whichever colour that is. */
  lemma IsWinIff(g: Grid)
    requires WellFormed(g)
    ensures IsWin(g) <==> forall r, c :: 0 <= r < GRID_SIZE && 0 <= c < GRID_SIZE ==> g[r][c] == g[0][0]
  {
    RowsAllIff(g, g[0][0]);
  }

  /** An all-light and an all-dark grid are both won, and inverting any
      single cell of either is not. */
  lemma UniformWins(v: bool, x: Cell)
    requires InGrid(x)
    ensures IsWin(Uniform(v))
    ensures var u := Uniform(v); !IsWin(u[x.row := u[x.row][x.col := !v]])
  {
    var u := Uniform(v);
    IsWinIff(u);
    var w := u[x.row := u[x.row][x.col := !v]];
    assert WellFormed(w);
    IsWinIff(w);
    if x == Cell(0, 0) {
      assert w[0][1] != w[0][0];
    } else {
      assert w[x.row][x.col] != w[0][0];
    }
  }

  // ---------------------------------------------------------------------
  // Pixels to cells
  // ---------------------------------------------------------------------

  /** getGridPosition for a click at (x, y) on a canvas whose top-left corner
      is at (left, top). Integer division by the positive STRIDE is floor
      division, as Math.floor of the quotient is in the source. The result is
      the cell whose STRIDE-wide slot (the cell and the gap after it) holds
      the click, or None when the click lies outside the grid's area. */
  function GetGridPosition(x: int, y: int, left: int, top: int): (p: Option<Cell>)
    ensures p.Some? <==>
      0 <= x - left - GRID_PADDING < GRID_SIZE * STRIDE &&
      0 <= y - top - GRID_PADDING < GRID_SIZE * STRIDE
    ensures p.Some? ==> InGrid(p.value)
    ensures p.Some? ==>
      p.value.col * STRIDE <= x - left - GRID_PADDING < (p.value.col + 1) * STRIDE &&
      p.value.row * STRIDE <= y - top - GRID_PADDING < (p.value.row + 1) * STRIDE
  {
    var clickX := x - left - GRID_PADDING;
    var clickY := y - top - GRID_PADDING;
    var col := clickX / STRIDE;
    var row := clickY / STRIDE;
    if 0 <= col < GRID_SIZE && 0 <= row < GRID_SIZE && clickX >= 0 && clickY >= 0 then
      Some(Cell(row, col))
    else
      None
  }

  /** A click anywhere on the square that drawGrid paints for a cell selects
      that cell. */
  lemma ClickOnDrawnCell(at: Cell, dx: int, dy: int, left: int, top: int)
    requires InGrid(at)
    requires 0 <= dx < CELL_SIZE && 0 <= dy < CELL_SIZE
    ensures GetGridPosition(left + GRID_PADDING + at.col * STRIDE + dx,
                            top + GRID_PADDING + at.row * STRIDE + dy, left, top) == Some(at)
  {
  }

  /** The two clicks of the position tests, on a canvas at the page origin. */
  lemma GridPositionExamples()
    ensures GetGridPosition(150, 150, 0, 0) == Some(Cell(1, 1))
    ensures GetGridPosition(1000, 1000, 0, 0) == None
  {
  }
}
