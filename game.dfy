/** The TileGame state machine: a click toggles a plus-shaped group of tiles,
    counts a move and, when all tiles share one colour, ends the game and
    arbitrates the persisted best score. State is first given as a value
    (`State`, with `Step` and `NewGameState` as its transitions), then as the
    `TileGame` class whose methods update it in place and are proved to follow
    those transitions. */
module Game {
  import opened Board

  /** A TileGame's `gameState` together with the persisted best score
      `stored` (0 when no best score is recorded). */
  datatype State = State(grid: Grid, moves: nat, isGameOver: bool, bestScore: nat, stored: nat)

  predicate Ok(s: State) {
    WellFormed(s.grid)
  }

  /** The state right after construction: an all-light grid, no moves, and
      the in-memory best score read from the store. */
  function Initial(stored: nat): (s: State)
    ensures Ok(s)
  {
    State(Uniform(false), 0, false, stored, stored)
  }

  /** A win with `moves` moves is recorded when no best score exists yet or
      when it beats the stored one. */
  predicate IsNewBest(stored: nat, moves: nat) {
    stored == 0 || moves < stored
  }

  /** toggleTiles(at.row, at.col). With `suppressWin` the win test is
      switched off, as newGame does while it scrambles the grid. */
  function Step(s: State, at: Cell, suppressWin: bool): (t: State)
    requires Ok(s) && InGrid(at)
    ensures Ok(t)
  {
    if s.isGameOver then s
    else
      var g := Toggled(s.grid, at);
      var m := s.moves + 1;
      if suppressWin || !IsWin(g) then s.(grid := g, moves := m)
      else if IsNewBest(s.stored, m) then State(g, m, true, m, m)
      else s.(grid := g, moves := m, isGameOver := true)
  }

  /** Once the game is over a click changes nothing: not the grid, the move
      counter, the game-over flag, the in-memory or the stored best score. */
  lemma GameOverIgnoresClicks(s: State, at: Cell, suppressWin: bool)
    requires Ok(s) && InGrid(at) && s.isGameOver
    ensures Step(s, at, suppressWin) == s
  {
  }

  /** An accepted click toggles the plus around the clicked cell, counts
      exactly one move, and the grid keeps its shape. */
  lemma ClickCountsOneMove(s: State, at: Cell, suppressWin: bool)
    requires Ok(s) && InGrid(at) && !s.isGameOver
    ensures var t := Step(s, at, suppressWin);
      t.grid == Toggled(s.grid, at) && WellFormed(t.grid) && t.moves == s.moves + 1
  {
  }

  /** After an accepted click the game is over exactly when the new grid is
      a win; with the win test suppressed it never is, and the best scores
      stay as they were. */
  lemma GameOverIffWin(s: State, at: Cell, suppressWin: bool)
    requires Ok(s) && InGrid(at) && !s.isGameOver
    ensures var t := Step(s, at, suppressWin);
      t.isGameOver <==> !suppressWin && IsWin(t.grid)
    ensures var t := Step(s, at, suppressWin);
      !t.isGameOver ==> t.bestScore == s.bestScore && t.stored == s.stored
  {
  }

  /** On a win, both the stored and the in-memory best score become the move
      count when the stored one is unset or larger, and both stay unchanged
      otherwise. The comparison is with the stored value, not with the
      in-memory copy. */
  lemma WinArbitratesBestScore(s: State, at: Cell)
    requires Ok(s) && InGrid(at) && !s.isGameOver && IsWin(Toggled(s.grid, at))
    ensures var t := Step(s, at, false);
      if s.stored == 0 || s.moves + 1 < s.stored
      then t.stored == t.moves && t.bestScore == t.moves
      else t.stored == s.stored && t.bestScore == s.bestScore
  {
  }

  /** A recorded best score is never raised, and once recorded it is never
      cleared back to "unset". */
  lemma StoredBestNeverIncreases(s: State, at: Cell, suppressWin: bool)
    requires Ok(s) && InGrid(at)
    ensures var t := Step(s, at, suppressWin);
      s.stored != 0 ==> 0 < t.stored <= s.stored
  {
  }

  /** The invariant every click keeps: a finished game shows a won grid, and
      the in-memory best score mirrors the stored one. */
  predicate Consistent(s: State) {
    Ok(s) && (s.isGameOver ==> IsWin(s.grid)) && s.bestScore == s.stored
  }

  lemma ClickKeepsConsistent(s: State, at: Cell, suppressWin: bool)
    requires Consistent(s) && InGrid(at)
    ensures Consistent(Step(s, at, suppressWin))
  {
  }

  /** A freshly constructed game is consistent. */
  lemma InitialConsistent(stored: nat)
    ensures Consistent(Initial(stored))
  {
  }

  /** Clicking the same cell twice without winning in between restores the
      grid but counts two moves. */
  lemma ClickTwice(s: State, at: Cell)
    requires Ok(s) && InGrid(at) && !s.isGameOver && !IsWin(Toggled(s.grid, at))
    ensures var t := Step(Step(s, at, false), at, false);
      t.grid == s.grid && t.moves == s.moves + 2
  {
    ToggleTwiceRestores(s.grid, at);
  }

  // ---------------------------------------------------------------------
  // Best score over a sequence of games
  // ---------------------------------------------------------------------

  /** The stored best score after games won with the move counts `wins`, in
      order, starting from `stored`. */
  function BestAfter(stored: nat, wins: seq<nat>): nat
    decreases |wins|
  {
    if wins == [] then stored
    else
      var before := BestAfter(stored, wins[..|wins| - 1]);
      var m := wins[|wins| - 1];
      if IsNewBest(before, m) then m else before
  }

  /** The best score a winning click records is `BestAfter` of that one win. */
  lemma WinStepIsBestAfter(s: State, at: Cell)
    requires Ok(s) && InGrid(at) && !s.isGameOver && IsWin(Toggled(s.grid, at))
    ensures Step(s, at, false).stored == BestAfter(s.stored, [s.moves + 1])
  {
  }

  /** Every win counts at least one move. */
  predicate AllPositive(wins: seq<nat>) {
    forall i :: 0 <= i < |wins| ==> wins[i] > 0
  }

  /** The stored best score is the fewest moves of any won game (the earlier
      stored value included, unless it was unset). */
  lemma {:induction false} BestIsMinimum(stored: nat, wins: seq<nat>)
    requires AllPositive(wins)
    ensures var b := BestAfter(stored, wins);
      (b == 0 <==> stored == 0 && wins == []) &&
      (b == stored || b in wins) &&
      (stored != 0 ==> b <= stored) &&
      (forall i :: 0 <= i < |wins| ==> b <= wins[i])
    decreases |wins|
  {
    if wins != [] {
      var init := wins[..|wins| - 1];
      BestIsMinimum(stored, init);
      assert forall i :: 0 <= i < |init| ==> init[i] == wins[i];
      assert wins == init + [wins[|wins| - 1]];
    }
  }

  /** Over time the stored best score only goes down: after more games it is
      never above its earlier nonzero value. */
  lemma {:induction false} BestNonIncreasing(stored: nat, wins: seq<nat>, k: nat)
    requires AllPositive(wins) && k <= |wins|
    ensures var earlier := BestAfter(stored, wins[..k]);
      earlier != 0 ==> 0 < BestAfter(stored, wins) <= earlier
    decreases |wins|
  {
    if k < |wins| {
      var init := wins[..|wins| - 1];
      assert init[..k] == wins[..k];
      BestNonIncreasing(stored, init, k);
    } else {
      assert wins[..k] == wins;
    }
  }

  // ---------------------------------------------------------------------
  // New game
  // ---------------------------------------------------------------------

  /** The clicks of the scrambling loop, applied in order with the win test
      suppressed. */
  function Setup(s: State, picks: seq<Cell>): (t: State)
    requires Ok(s) && AllInGrid(picks)
    ensures Ok(t)
    decreases |picks|
  {
    if picks == [] then s
    else Step(Setup(s, picks[..|picks| - 1]), picks[|picks| - 1], true)
  }

  /** newGame: reset to an all-light grid, scramble it with the given clicks
      (the source draws 5 at random), then reset the move counter. */
  function NewGameState(s: State, picks: seq<Cell>): (t: State)
    requires AllInGrid(picks)
    ensures Ok(t)
  {
    Setup(State(Uniform(false), 0, false, s.bestScore, s.stored), picks).(moves := 0)
  }

  /** Scrambling from a game that is not over applies every click: the grid
      is the all-clicks grid, each click counts, and neither the game-over
      flag nor a best score is touched. */
  lemma {:induction false} SetupAppliesEveryClick(s: State, picks: seq<Cell>)
    requires Ok(s) && AllInGrid(picks) && !s.isGameOver
    ensures Setup(s, picks) ==
      s.(grid := ApplyAll(s.grid, picks), moves := s.moves + |picks|)
    decreases |picks|
  {
    if picks != [] {
      SetupAppliesEveryClick(s, picks[..|picks| - 1]);
    }
  }

  /** A new game starts with no moves, not over, with the best scores kept
      and with the grid obtained by clicking every pick on an all-light grid,
      whatever the picks are. */
  lemma NewGameResets(s: State, picks: seq<Cell>)
    requires AllInGrid(picks)
    ensures var t := NewGameState(s, picks);
      t.moves == 0 && !t.isGameOver && t.bestScore == s.bestScore && t.stored == s.stored &&
      t.grid == ApplyAll(Uniform(false), picks)
  {
    SetupAppliesEveryClick(State(Uniform(false), 0, false, s.bestScore, s.stored), picks);
  }

  /** Starting a new game keeps a consistent state consistent. */
  lemma NewGameKeepsConsistent(s: State, picks: seq<Cell>)
    requires AllInGrid(picks) && Consistent(s)
    ensures Consistent(NewGameState(s, picks))
  {
    NewGameResets(s, picks);
  }

  /** A new game is solvable in as many clicks as were used to scramble it:
      clicking the picks in reverse order gives back the all-light grid. */
  lemma NewGameSolvable(s: State, picks: seq<Cell>)
    requires AllInGrid(picks)
    ensures ApplyAll(NewGameState(s, picks).grid, Reverse(picks)) == Uniform(false)
  {
    NewGameResets(s, picks);
    UndoByReversal(Uniform(false), picks);
  }

  /** The scramble is not re-rolled: the four corners and the centre give an
      all-dark grid, so a new game can start already won, though not over. */
  lemma NewGameMayStartWon(s: State)
    ensures var picks := [Cell(0, 0), Cell(0, 2), Cell(2, 0), Cell(2, 2), Cell(1, 1)];
      var t := NewGameState(s, picks);
      IsWin(t.grid) && !t.isGameOver
  {
    var picks := [Cell(0, 0), Cell(0, 2), Cell(2, 0), Cell(2, 2), Cell(1, 1)];
    NewGameResets(s, picks);
    CornersAndCentreDarkenAll();
    UniformWins(true, Cell(0, 0));
  }

  // ---------------------------------------------------------------------
  // The game object
  // ---------------------------------------------------------------------

  /** The `bestScore` entry of the browser's local storage, as a number;
      0 stands for a missing entry. */
  class BestScoreStore {
    var value: nat

    constructor (value: nat)
      ensures this.value == value
    {
      this.value := value;
    }
  }

  class TileGame {
    var grid: array2<bool>
    var moves: nat
    var isGameOver: bool
    var bestScore: nat
    const store: BestScoreStore

    ghost predicate Valid()
      reads this`grid
    {
      grid.Length0 == GRID_SIZE && grid.Length1 == GRID_SIZE
    }

    /** The grid's cells as a value. */
    function Cells(): (g: Grid)
      reads this`grid, grid
      requires Valid()
      ensures WellFormed(g)
      ensures forall r, c :: 0 <= r < GRID_SIZE && 0 <= c < GRID_SIZE ==> g[r][c] == grid[r, c]
    {
      var a := grid;
      seq(GRID_SIZE, r requires 0 <= r < a.Length0 reads a =>
        seq(GRID_SIZE, c requires 0 <= c < a.Length1 reads a => a[r, c]))
    }

    ghost function Snapshot(): State
      reads this, grid, store
      requires Valid()
    {
      State(Cells(), moves, isGameOver, bestScore, store.value)
    }

    constructor (store: BestScoreStore)
      ensures Valid() && fresh(grid) && this.store == store
      ensures Snapshot() == Initial(store.value)
    {
      grid := new bool[GRID_SIZE, GRID_SIZE]((r, c) => false);
      moves := 0;
      isGameOver := false;
      bestScore := store.value;
      this.store := store;
      new;
      GridsEqual(Cells(), Uniform(false));
    }

    /** isWinState: whether every tile has the colour of the top-left one. */
    function IsWinState(): (w: bool)
      reads this`grid, grid
      requires Valid()
      ensures w <==> forall r, c :: 0 <= r < GRID_SIZE && 0 <= c < GRID_SIZE ==> grid[r, c] == grid[0, 0]
    {
      IsWinIff(Cells());
      IsWin(Cells())
    }

    /** The flipping half of toggleTiles: invert the clicked cell, then each
        of its up, down, left and right neighbours that lies inside the grid. */
    method FlipTiles(at: Cell)
      requires Valid() && InGrid(at)
      modifies grid
      ensures Cells() == Toggled(old(Cells()), at)
    {
      grid[at.row, at.col] := !grid[at.row, at.col];
      var adjacent := Adjacent(at);
      for i := 0 to |adjacent|
        invariant forall r, c :: 0 <= r < GRID_SIZE && 0 <= c < GRID_SIZE ==>
          grid[r, c] == (old(grid[r, c]) != FlippedBy(at, i, Cell(r, c)))
      {
        var x := adjacent[i];
        if 0 <= x.row < GRID_SIZE && 0 <= x.col < GRID_SIZE {
          grid[x.row, x.col] := !grid[x.row, x.col];
        }
        forall r, c | 0 <= r < GRID_SIZE && 0 <= c < GRID_SIZE {
          FlippedByNext(at, i, Cell(r, c));
        }
      }
      ghost var g := Toggled(old(Cells()), at);
      forall r, c | 0 <= r < GRID_SIZE && 0 <= c < GRID_SIZE
        ensures Cells()[r][c] == g[r][c]
      {
        FlippedByAll(at, Cell(r, c));
      }
      GridsEqual(Cells(), g);
    }

    /** toggleTiles, with newGame's temporary replacement of isWinState by a
        constant `false` expressed as the flag `suppressWin`. */
    method Toggle(at: Cell, suppressWin: bool)
      requires Valid() && InGrid(at)
      modifies this, grid, store
      ensures Valid() && grid == old(grid)
      ensures Snapshot() == Step(old(Snapshot()), at, suppressWin)
    {
      ghost var before := Snapshot();
      if isGameOver {
        return;
      }
      FlipTiles(at);
      moves := moves + 1;
      ghost var g := Toggled(before.grid, at);
      assert Snapshot() == before.(grid := g, moves := before.moves + 1);
      if !suppressWin && IsWinState() {
        isGameOver := true;
        var currentBestScore := store.value;
        var isNewBest := currentBestScore == 0 || moves < currentBestScore;
        if isNewBest {
          store.value := moves;
          bestScore := moves;
        }
      }
    }

    /** A player's click on the cell at (row, col). */
    method ToggleTiles(row: int, col: int)
      requires Valid() && InGrid(Cell(row, col))
      modifies this, grid, store
      ensures Valid() && grid == old(grid)
      ensures Snapshot() == Step(old(Snapshot()), Cell(row, col), false)
    {
      Toggle(Cell(row, col), false);
    }

    /** newGame, with the 5 random (row, col) draws passed in as `picks`. */
    method NewGame(picks: seq<Cell>)
      requires Valid() && |picks| == 5 && AllInGrid(picks)
      modifies this, store
      ensures Valid() && fresh(grid)
      ensures Snapshot() == NewGameState(old(Snapshot()), picks)
    {
      grid := new bool[GRID_SIZE, GRID_SIZE]((r, c) => false);
      moves := 0;
      isGameOver := false;
      ghost var start := Snapshot();
      assert start == State(Uniform(false), 0, false, old(bestScore), old(store.value)) by {
        GridsEqual(Cells(), Uniform(false));
      }
      for i := 0 to 5
        invariant Valid() && fresh(grid)
        invariant Snapshot() == Setup(start, picks[..i])
      {
        Toggle(picks[i], true);
        assert picks[..i + 1][..i] == picks[..i];
      }
      assert picks[..5] == picks;
      moves := 0;
    }
  }

  // ---------------------------------------------------------------------
  // The scenarios of the source's tests
  // ---------------------------------------------------------------------

  /** Clicking the centre of an all-light grid darkens the centre and its four
      neighbours, leaves the corners light and does not win. */
  lemma CentreClickScenario()
    ensures var t := Step(Initial(0), Cell(1, 1), false);
      t.grid == [[false, true, false], [true, true, true], [false, true, false]] &&
      t.moves == 1 && !t.isGameOver
  {
    var t := Step(Initial(0), Cell(1, 1), false);
    GridLiteral(t.grid);
    assert !t.grid[0][0] && t.grid[0][1];
    IsWinIff(t.grid);
  }

  /** Winning in 6 moves against a stored best of 10 records 6. */
  lemma BetterScoreScenario()
    ensures var s := State([[true, false, true], [false, false, false], [true, false, true]], 5, false, 10, 10);
      var t := Step(s, Cell(1, 1), false);
      t.isGameOver && t.moves == 6 && t.stored == 6 && t.bestScore == 6
  {
    var h := Toggled([[true, false, true], [false, false, false], [true, false, true]], Cell(1, 1));
    GridLiteral(h);
    assert h[0][0] && h[0][1] && h[0][2] && h[1][0] && h[1][1] && h[1][2] && h[2][0] && h[2][1] && h[2][2];
    GridLiteral(Uniform(true));
    UniformWins(true, Cell(0, 0));
  }

  /** The grid of the "worse score" test: clicking its centre darkens only the
      centre, so the game goes on and no best score is written. */
  lemma WorseScoreTestScenario()
    ensures var s := State([[false, true, false], [true, false, true], [false, true, false]], 10, false, 5, 5);
      var t := Step(s, Cell(1, 1), false);
      !t.isGameOver && t.moves == 11 && t.stored == 5 && t.bestScore == 5 &&
      t.grid == [[false, false, false], [false, true, false], [false, false, false]]
  {
    var h := Toggled([[false, true, false], [true, false, true], [false, true, false]], Cell(1, 1));
    GridLiteral(h);
    assert !h[0][0] && !h[0][1] && !h[0][2] && !h[1][0] && h[1][1] && !h[1][2] && !h[2][0] && !h[2][1] && !h[2][2];
    IsWinIff(h);
  }

  /** Winning in 11 moves against a stored best of 5 records nothing. */
  lemma WorseScoreScenario()
    ensures var s := State([[false, true, false], [true, true, true], [false, true, false]], 10, false, 5, 5);
      var t := Step(s, Cell(1, 1), false);
      t.isGameOver && t.moves == 11 && t.stored == 5 && t.bestScore == 5
  {
    var h := Toggled([[false, true, false], [true, true, true], [false, true, false]], Cell(1, 1));
    GridLiteral(h);
    assert !h[0][0] && !h[0][1] && !h[0][2] && !h[1][0] && !h[1][1] && !h[1][2] && !h[2][0] && !h[2][1] && !h[2][2];
    GridLiteral(Uniform(false));
    UniformWins(false, Cell(0, 0));
  }
}
