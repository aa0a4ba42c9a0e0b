/**
 * The bookkeeping of the Tetris main loop: score, cleared lines, level,
 * pause, the active and the queued piece, and the lock -> clear -> score ->
 * level -> respawn -> game-over sequence run when a piece lands. Drawing,
 * key polling and the frame clock stay with the caller, which turns each key
 * press or elapsed fall interval into one call here and supplies the shape
 * of every new piece.
 */
module TetrisGame {
  import opened Wrappers
  import opened Tetris

  function Pow2(n: nat): (p: nat)
    ensures p >= 1
  {
    if n == 0 then 1 else 2 * Pow2(n - 1)
  }

  /** Points for clearing n rows with one lock: 100 * 2^(n-1), and none for no row. */
  function LineScore(n: nat): nat
  {
    if n == 0 then 0 else 100 * Pow2(n - 1)
  }

  lemma LineScoreTable()
    ensures LineScore(0) == 0 && LineScore(1) == 100 && LineScore(2) == 200
    ensures LineScore(3) == 400 && LineScore(4) == 800
  {
  }

  /** Each further row cleared in the same lock doubles the points. */
  lemma LineScoreDoubles(n: nat)
    requires n >= 1
    ensures LineScore(n + 1) == 2 * LineScore(n)
  {
  }

  lemma {:induction false} LineScoreMonotone(m: nat, n: nat)
    requires m <= n
    ensures LineScore(m) <= LineScore(n)
    decreases n - m
  {
    if m < n {
      LineScoreMonotone(m, n - 1);
      if n - 1 >= 1 {
        LineScoreDoubles(n - 1);
      }
    }
  }

  /** The level that the gravity path sets after a clear. */
  function LevelFor(lines: nat): int
  {
    1 + lines / 10
  }

  lemma LevelForMonotone(fewer: nat, more: nat)
    requires fewer <= more
    ensures LevelFor(fewer) <= LevelFor(more)
  {
  }

  /** The gravity interval, in milliseconds per row: 800 at level 1, 50 less per
      level, never under 50. */
  function FallIntervalMs(level: int): (ms: int)
    ensures ms >= 50
  {
    var interval := 800 - (level - 1) * 50;
    if interval > 50 then interval else 50
  }

  lemma FallIntervalShrinks(low: int, high: int)
    requires low <= high
    ensures FallIntervalMs(high) <= FallIntervalMs(low)
    ensures high >= 16 ==> FallIntervalMs(high) == 50
  {
  }

  /** What one landing leaves behind: the grid with the piece locked into it and
      the full rows cleared, and the number of rows cleared. */
  function Landing(grid: Grid, m: Matrix, px: int, py: int, color: Color): (Grid, int)
    requires WellFormed(grid)
  {
    ClearLines(Stamp(grid, m, px, py, color))
  }

  /** A landing keeps the grid well formed and free of full rows, and clears
      at most four rows, since a piece is at most four rows tall. */
  lemma LandingSpec(grid: Grid, m: Matrix, px: int, py: int, color: Color)
    requires WellFormed(grid) && NoFullRows(grid) && |m| <= 4
    ensures var (after, cleared) := Landing(grid, m, px, py, color);
      && WellFormed(after) && NoFullRows(after)
      && 0 <= cleared <= 4
      && cleared == FullRowCount(Stamp(grid, m, px, py, color))
  {
    ClearLinesSpec(Stamp(grid, m, px, py, color));
    LockClearsAtMostHeight(grid, m, px, py, color);
  }

  lemma EmptyGridHasNoFullRows()
    ensures NoFullRows(CreateGrid())
  {
    forall r | 0 <= r < ROWS ensures !IsFull(CreateGrid()[r]) {
      assert CreateGrid()[r][0] == None;
    }
  }

  class Game {
    var grid: Grid
    var current: Piece
    var nextPiece: Piece
    var score: nat
    var lines: nat
    var level: int
    var running: bool
    var paused: bool

    /** The grid is a well-formed field with no full row left uncleared; both
        pieces are distinct and in a valid rotation state; the level never runs
        ahead of the lines. That each piece takes its rotations and colour from
        the table is stated by the methods that create pieces, since the fields
        involved are constant. */
    ghost predicate Valid()
      reads this, current, nextPiece
    {
      && WellFormed(grid) && NoFullRows(grid)
      && current.Valid()
      && nextPiece.Valid()
      && current != nextPiece
      && 1 <= level <= LevelFor(lines)
    }

    /** A new game: empty grid, score 0, level 1, no lines; the two shapes
        stand for the random choices of the first two pieces. */
    constructor (first: ShapeName, second: ShapeName)
      ensures Valid() && fresh(current) && fresh(nextPiece)
      ensures grid == CreateGrid() && score == 0 && lines == 0 && level == 1
      ensures running && !paused
      ensures current.name == first && current.state == 0 && current.x == SpawnX(first) && current.y == 0
      ensures nextPiece.name == second && nextPiece.state == 0 && nextPiece.x == SpawnX(second) && nextPiece.y == 0
      ensures current.FromTable() && nextPiece.FromTable()
      ensures !current.Collides(grid, 0, 0)
    {
      grid := CreateGrid();
      current := new Piece(first);
      nextPiece := new Piece(second);
      score := 0;
      level := 1;
      lines := 0;
      running := true;
      paused := false;
      EmptyGridHasNoFullRows();
      SpawnFitsEmptyGrid(first);
    }

    /** The P key: pause or resume. */
    method TogglePause()
      modifies this`paused
      ensures paused == !old(paused)
    {
      paused := !paused;
    }

    /** Esc, Q or closing the window. */
    method Quit()
      modifies this`running
      ensures !running
    {
      running := false;
    }

    /** Left arrow: one column left unless paused or blocked. */
    method MoveLeft()
      requires Valid()
      modifies current`x, current`y
      ensures Valid()
      ensures current.y == old(current.y)
      ensures current.x == old(current.x) - (if paused || old(current.Collides(grid, -1, 0)) then 0 else 1)
    {
      if !paused {
        var _ := current.Move(-1, 0, grid);
      }
    }

    /** Right arrow: one column right unless paused or blocked. */
    method MoveRight()
      requires Valid()
      modifies current`x, current`y
      ensures Valid()
      ensures current.y == old(current.y)
      ensures current.x == old(current.x) + (if paused || old(current.Collides(grid, 1, 0)) then 0 else 1)
    {
      if !paused {
        var _ := current.Move(1, 0, grid);
      }
    }

    /** Down arrow: one row down, scoring one point only when the move succeeds. */
    method SoftDrop()
      requires Valid()
      modifies this`score, current`x, current`y
      ensures Valid()
      ensures var moved := !paused && !old(current.Collides(grid, 0, 1));
        && current.x == old(current.x)
        && current.y == old(current.y) + (if moved then 1 else 0)
        && score == old(score) + (if moved then 1 else 0)
    {
      if !paused {
        var moved := current.Move(0, 1, grid);
        if moved {
          score := score + 1;
        }
      }
    }

    /** Up arrow: rotate with wall kicks unless paused. */
    method RotatePiece()
      requires Valid()
      modifies current`state, current`matrix, current`x
      ensures Valid()
      ensures paused ==> current.state == old(current.state) && current.x == old(current.x)
      ensures !paused ==>
        var fit := FirstFit(grid, current.states[(old(current.state) + 1) % |current.states|],
                            old(current.x), current.y, TRIALS);
        && (fit.Some? ==> current.state == (old(current.state) + 1) % |current.states|
                          && current.x == old(current.x) + fit.value)
        && (fit.None? ==> current.state == old(current.state) && current.x == old(current.x))
    {
      if !paused {
        var _ := current.Rotate(grid);
      }
    }

    /** The score, line and level update after a lock that cleared some rows. */
    method Tally(cleared: int, gravity: bool)
      requires 0 <= cleared && 1 <= level <= LevelFor(lines)
      modifies this`lines, this`score, this`level
      ensures 1 <= level <= LevelFor(lines)
      ensures lines == old(lines) + cleared
      ensures score == old(score) + LineScore(cleared)
      ensures level == (if gravity && cleared > 0 then LevelFor(lines) else old(level))
    {
      if cleared > 0 {
        LevelForMonotone(lines, lines + cleared);
        lines := lines + cleared;
        score := score + LineScore(cleared);
        if gravity {
          level := LevelFor(lines);
        }
      }
    }

    /** Lock the current piece into the grid and clear the full rows; the result
        is the number of rows cleared. */
    method LockAndClear() returns (cleared: int)
      requires Valid()
      modifies this`grid
      ensures Valid()
      ensures (grid, cleared) == Landing(old(grid), current.matrix, current.x, current.y, current.color)
      ensures 0 <= cleared <= 4
    {
      assert WellShaped(current.states[current.state]);
      LandingSpec(grid, current.matrix, current.x, current.y, current.color);
      var locked := current.Lock(grid);
      var landed := ClearLines(locked);
      cleared := landed.1;
      grid := landed.0;
    }

    /** The landing sequence shared by the hard drop and gravity: lock the piece,
        clear full rows, add lines and points, on the gravity path recompute the
        level, promote the queued piece, queue a new one, and end the game if the
        promoted piece collides where it stands. */
    method Land(nextName: ShapeName, gravity: bool)
      requires Valid()
      modifies this`grid, this`lines, this`score, this`level, this`current, this`nextPiece, this`running
      ensures Valid() && paused == old(paused)
      ensures current == old(nextPiece)
      ensures fresh(nextPiece) && nextPiece.name == nextName && nextPiece.state == 0
      ensures nextPiece.x == SpawnX(nextName) && nextPiece.y == 0 && nextPiece.FromTable()
      ensures var (after, cleared) :=
          Landing(old(grid), old(current.matrix), old(current.x), old(current.y), old(current.color));
        && grid == after
        && 0 <= cleared <= 4
        && lines == old(lines) + cleared
        && score == old(score) + LineScore(cleared)
        && level == (if gravity && cleared > 0 then LevelFor(lines) else old(level))
      ensures running == (old(running) && !current.Collides(grid, 0, 0))
    {
      var cleared := LockAndClear();
      Tally(cleared, gravity);
      var spawned := new Piece(nextName);
      current := nextPiece;
      nextPiece := spawned;
      var collides := current.Collide(grid, 0, 0);
      if collides {
        running := false;
      }
    }

    /** Space: drop the piece as far as it goes and land it. The level is left as it is. */
    method HardDrop(nextName: ShapeName)
      requires Valid()
      modifies this, current`y
      ensures Valid()
      ensures old(paused) ==> current == old(current) && current.y == old(current.y) && unchanged(this)
      ensures !old(paused) ==>
        var row := DropRow(old(grid), old(current.matrix), old(current.x), old(current.y));
        var (after, cleared) :=
          Landing(old(grid), old(current.matrix), old(current.x), row, old(current.color));
        && old(current).y == row
        && grid == after
        && lines == old(lines) + cleared
        && score == old(score) + LineScore(cleared)
        && level == old(level)
        && current == old(nextPiece)
        && fresh(nextPiece) && nextPiece.name == nextName && nextPiece.FromTable()
        && paused == old(paused)
        && nextPiece.state == 0 && nextPiece.x == SpawnX(nextName) && nextPiece.y == 0
        && running == (old(running) && !current.Collides(grid, 0, 0))
    {
      if !paused {
        current.HardDrop(grid);
        Land(nextName, false);
      }
    }

    /** The fall interval has elapsed: move the piece one row down, or, when it
        cannot move, land it and bring the level up to date. Nothing happens while paused. */
    method Fall(nextName: ShapeName)
      requires Valid()
      modifies this, current`x, current`y
      ensures Valid()
      ensures old(paused) ==> current == old(current) && current.y == old(current.y) && unchanged(this)
      ensures !old(paused) && !old(current.Collides(grid, 0, 1)) ==>
        && current == old(current) && current.y == old(current.y) + 1 && current.x == old(current.x)
        && unchanged(this)
      ensures !old(paused) && old(current.Collides(grid, 0, 1)) ==>
        var (after, cleared) :=
          Landing(old(grid), old(current.matrix), old(current.x), old(current.y), old(current.color));
        && grid == after
        && lines == old(lines) + cleared
        && score == old(score) + LineScore(cleared)
        && level == (if cleared > 0 then LevelFor(lines) else old(level))
        && current == old(nextPiece)
        && fresh(nextPiece) && nextPiece.name == nextName && nextPiece.FromTable()
        && paused == old(paused)
        && nextPiece.state == 0 && nextPiece.x == SpawnX(nextName) && nextPiece.y == 0
        && running == (old(running) && !current.Collides(grid, 0, 0))
    {
      if !paused {
        var moved := current.Move(0, 1, grid);
        if !moved {
          Land(nextName, true);
        }
      }
    }
  }
}
