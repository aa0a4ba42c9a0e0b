/**
 * The playfield and piece engine of the Tetris game: the tetromino
 * rotation tables, the 20 x 10 grid, collision, locking, line clearing
 * and the falling piece with its moves, wall-kicked rotation and hard drop.
 */
module Tetris {
  import opened Wrappers

  const COLUMNS: int := 10
  const ROWS: int := 20

  /** An RGB colour tag; a grid cell holds one once a piece has locked over it. */
  datatype Color = Color(red: int, green: int, blue: int)

  type Cell = Option<Color>
  type Grid = seq<seq<Cell>>

  /** A rotation state: rows of 0/1 flags, 1 marking an occupied cell. */
  type Matrix = seq<seq<int>>

  datatype ShapeName = I | J | L | O | S | T | Z

  /** The shape names in table order; COLORS is indexed by position in this list. */
  const SHAPE_NAMES: seq<ShapeName> := [I, J, L, O, S, T, Z]

  const COLORS: seq<Color> := [
    Color(0, 240, 240),  // I
    Color(0, 0, 240),    // J
    Color(240, 160, 0),  // L
    Color(240, 240, 0),  // O
    Color(0, 240, 0),    // S
    Color(160, 0, 240),  // T
    Color(240, 0, 0)     // Z
  ]

  /** The rotation states of each shape, in the order `rotate` cycles through them. */
  function Tetromino(name: ShapeName): (states: seq<Matrix>)
    ensures 1 <= |states| <= 4
  {
    match name
    case I => [
      [[1, 1, 1, 1]],
      [[1], [1], [1], [1]]
    ]
    case J => [
      [[1, 0, 0], [1, 1, 1]],
      [[1, 1], [1, 0], [1, 0]],
      [[1, 1, 1], [0, 0, 1]],
      [[0, 1], [0, 1], [1, 1]]
    ]
    case L => [
      [[0, 0, 1], [1, 1, 1]],
      [[1, 0], [1, 0], [1, 1]],
      [[1, 1, 1], [1, 0, 0]],
      [[1, 1], [0, 1], [0, 1]]
    ]
    case O => [
      [[1, 1], [1, 1]]
    ]
    case S => [
      [[0, 1, 1], [1, 1, 0]],
      [[1, 0], [1, 1], [0, 1]]
    ]
    case T => [
      [[0, 1, 0], [1, 1, 1]],
      [[1, 0], [1, 1], [1, 0]],
      [[1, 1, 1], [0, 1, 0]],
      [[0, 1], [1, 1], [0, 1]]
    ]
    case Z => [
      [[1, 1, 0], [0, 1, 1]],
      [[0, 1], [1, 1], [1, 0]]
    ]
  }

  /** `SHAPE_NAMES.index(name)`. */
  function ShapeIndex(name: ShapeName): (i: nat)
    ensures i < |SHAPE_NAMES| && SHAPE_NAMES[i] == name
    ensures forall k :: 0 <= k < i ==> SHAPE_NAMES[k] != name
  {
    match name
    case I => 0
    case J => 1
    case L => 2
    case O => 3
    case S => 4
    case T => 5
    case Z => 6
  }

  function ColorOf(name: ShapeName): Color
  {
    COLORS[ShapeIndex(name)]
  }

  // ---------------------------------------------------------------------
  // Shape matrices

  predicate Occupied(m: Matrix, r: int, c: int)
  {
    0 <= r < |m| && 0 <= c < |m[r]| && m[r][c] != 0
  }

  /** A rectangle at most 4 x 4 with an occupied cell in its top row. */
  predicate WellShaped(m: Matrix)
  {
    && 0 < |m| <= 4
    && 0 < |m[0]| <= 4
    && (forall r :: 0 <= r < |m| ==> |m[r]| == |m[0]|)
    && 1 in m[0]
  }

  /** Every rotation state in the table is well shaped. */
  lemma StateWellShaped(name: ShapeName, k: nat)
    requires k < |Tetromino(name)|
    ensures WellShaped(Tetromino(name)[k])
  {
    var m := Tetromino(name)[k];
    match name
    case I =>
      if k == 0 { assert m == Tetromino(I)[0]; }
      else { assert m == Tetromino(I)[1]; }
    case J =>
      if k == 0 { assert m == Tetromino(J)[0]; }
      else if k == 1 { assert m == Tetromino(J)[1]; }
      else if k == 2 { assert m == Tetromino(J)[2]; }
      else { assert m == Tetromino(J)[3]; }
    case L =>
      if k == 0 { assert m == Tetromino(L)[0]; }
      else if k == 1 { assert m == Tetromino(L)[1]; }
      else if k == 2 { assert m == Tetromino(L)[2]; }
      else { assert m == Tetromino(L)[3]; }
    case O =>
      assert m == Tetromino(O)[0];
    case S =>
      if k == 0 { assert m == Tetromino(S)[0]; }
      else { assert m == Tetromino(S)[1]; }
    case T =>
      if k == 0 { assert m == Tetromino(T)[0]; }
      else if k == 1 { assert m == Tetromino(T)[1]; }
      else if k == 2 { assert m == Tetromino(T)[2]; }
      else { assert m == Tetromino(T)[3]; }
    case Z =>
      if k == 0 { assert m == Tetromino(Z)[0]; }
      else { assert m == Tetromino(Z)[1]; }
  }

  lemma ShapeTable(name: ShapeName)
    ensures 0 < |Tetromino(name)|
    ensures |Tetromino(name)| == 1 <==> name == O
    ensures forall k :: 0 <= k < |Tetromino(name)| ==> WellShaped(Tetromino(name)[k])
  {
    forall k | 0 <= k < |Tetromino(name)| ensures WellShaped(Tetromino(name)[k]) {
      StateWellShaped(name, k);
    }
  }

  /** The occupied cell in the top row of a well-shaped matrix. */
  lemma TopCell(m: Matrix) returns (c: int)
    requires WellShaped(m)
    ensures Occupied(m, 0, c)
  {
    c :| 0 <= c < |m[0]| && m[0][c] == 1;
  }

  /** The spawn column: the matrix centred horizontally, floor division. */
  function SpawnX(name: ShapeName): int
  {
    COLUMNS / 2 - |Tetromino(name)[0][0]| / 2
  }

  // ---------------------------------------------------------------------
  // The grid

  predicate WellFormed(grid: Grid)
  {
    |grid| == ROWS && forall r :: 0 <= r < ROWS ==> |grid[r]| == COLUMNS
  }

  function EmptyRow(): (row: seq<Cell>)
    ensures |row| == COLUMNS && forall c :: 0 <= c < COLUMNS ==> row[c] == None
  {
    seq(COLUMNS, _ => None)
  }

  /** `create_grid`: ROWS rows of COLUMNS empty cells. */
  function CreateGrid(): (grid: Grid)
    ensures WellFormed(grid)
    ensures forall r, c :: 0 <= r < ROWS && 0 <= c < COLUMNS ==> grid[r][c] == None
  {
    seq(ROWS, _ => EmptyRow())
  }

  /** Whether grid coordinate (gx, gy) stops a piece cell: outside the side walls,
      at or below the floor, or an occupied cell of the visible field. Rows above
      the field (gy < 0) are only checked against the side walls. */
  predicate Blocked(grid: Grid, gx: int, gy: int)
    requires WellFormed(grid)
  {
    gx < 0 || gx >= COLUMNS || gy >= ROWS || (gy >= 0 && grid[gy][gx].Some?)
  }

  /** The meaning of `_collide`: some occupied cell of `m`, with the matrix
      origin at column px and row py, is blocked. */
  predicate CollidesAt(grid: Grid, m: Matrix, px: int, py: int)
    requires WellFormed(grid)
  {
    exists r, c | 0 <= r < |m| && 0 <= c < |m[r]| :: Occupied(m, r, c) && Blocked(grid, px + c, py + r)
  }

  /** A well-shaped piece collides once its origin is on or below the floor;
      so a piece that does not collide has its origin above the floor. */
  lemma FloorCollides(grid: Grid, m: Matrix, px: int, py: int)
    requires WellFormed(grid) && WellShaped(m)
    ensures !CollidesAt(grid, m, px, py) ==> py < ROWS
  {
    var c := TopCell(m);
    if py >= ROWS {
      assert Blocked(grid, px + c, py + 0);
    }
  }

  /** Where a hard drop from row py ends: the first row, from py downwards,
      from which one more row down would collide. */
  function DropRow(grid: Grid, m: Matrix, px: int, py: int): (row: int)
    requires WellFormed(grid) && WellShaped(m)
    ensures py <= row
    decreases ROWS - py
  {
    if CollidesAt(grid, m, px, py + 1) then py
    else
      FloorCollides(grid, m, px, py + 1);
      DropRow(grid, m, px, py + 1)
  }

  /** DropRow is the least row at or below py whose next row collides: every row
      passed on the way down is free. */
  lemma {:induction false} DropRowIsRestingRow(grid: Grid, m: Matrix, px: int, py: int)
    requires WellFormed(grid) && WellShaped(m)
    ensures var d := DropRow(grid, m, px, py);
      && d >= py
      && CollidesAt(grid, m, px, d + 1)
      && forall k :: py < k <= d ==> !CollidesAt(grid, m, px, k)
    decreases ROWS - py
  {
    if !CollidesAt(grid, m, px, py + 1) {
      FloorCollides(grid, m, px, py + 1);
      DropRowIsRestingRow(grid, m, px, py + 1);
    }
  }

  /** A freshly spawned piece never collides with the empty grid. */
  lemma SpawnFitsEmptyGrid(name: ShapeName)
    ensures !CollidesAt(CreateGrid(), Tetromino(name)[0], SpawnX(name), 0)
  {
    var m := Tetromino(name)[0];
    ShapeTable(name);
    assert WellShaped(m);
    forall r, c | Occupied(m, r, c)
      ensures !Blocked(CreateGrid(), SpawnX(name) + c, 0 + r)
    {
      assert |m[r]| == |m[0]|;
    }
  }

  /** The grid after locking: the colour written into every in-bounds cell
      covered by an occupied cell of `m`, every other cell as before. */
  function Stamp(grid: Grid, m: Matrix, px: int, py: int, color: Color): (stamped: Grid)
    requires WellFormed(grid)
    ensures WellFormed(stamped)
  {
    seq(ROWS, i requires 0 <= i < ROWS =>
      seq(COLUMNS, j requires 0 <= j < COLUMNS =>
        if Occupied(m, i - py, j - px) then Some(color) else grid[i][j]))
  }

  /** Locking colours exactly the in-bounds cells under occupied cells of the
      piece; every other cell keeps its content, and piece cells outside the
      field leave no trace. */
  lemma StampSpec(grid: Grid, m: Matrix, px: int, py: int, color: Color)
    requires WellFormed(grid)
    ensures forall r, c :: Occupied(m, r, c) && 0 <= py + r < ROWS && 0 <= px + c < COLUMNS ==>
      Stamp(grid, m, px, py, color)[py + r][px + c] == Some(color)
    ensures forall i, j :: 0 <= i < ROWS && 0 <= j < COLUMNS && Stamp(grid, m, px, py, color)[i][j] != grid[i][j] ==>
      exists r, c :: Occupied(m, r, c) && i == py + r && j == px + c
  {
    var stamped := Stamp(grid, m, px, py, color);
    forall r, c | Occupied(m, r, c) && 0 <= py + r < ROWS && 0 <= px + c < COLUMNS
      ensures stamped[py + r][px + c] == Some(color)
    {
      assert Occupied(m, (py + r) - py, (px + c) - px);
    }
    forall i, j | 0 <= i < ROWS && 0 <= j < COLUMNS && stamped[i][j] != grid[i][j]
      ensures exists r, c :: Occupied(m, r, c) && i == py + r && j == px + c
    {
      assert Occupied(m, i - py, j - px);
    }
  }

  /** Locking a piece that does not collide fills only empty cells: every occupied
      cell keeps its colour, and every piece cell at a non-negative row lies inside
      the field, was empty and now holds the piece colour. */
  lemma StampFillsOnlyEmptyCells(grid: Grid, m: Matrix, px: int, py: int, color: Color)
    requires WellFormed(grid) && !CollidesAt(grid, m, px, py)
    ensures forall i, j :: 0 <= i < ROWS && 0 <= j < COLUMNS && grid[i][j].Some? ==>
      Stamp(grid, m, px, py, color)[i][j] == grid[i][j]
    ensures forall r, c :: Occupied(m, r, c) && py + r >= 0 ==>
      && 0 <= px + c < COLUMNS && py + r < ROWS
      && grid[py + r][px + c] == None
      && Stamp(grid, m, px, py, color)[py + r][px + c] == Some(color)
  {
    var stamped := Stamp(grid, m, px, py, color);
    forall i, j | 0 <= i < ROWS && 0 <= j < COLUMNS && grid[i][j].Some?
      ensures stamped[i][j] == grid[i][j]
    {
      assert Blocked(grid, px + (j - px), py + (i - py));
      assert !Occupied(m, i - py, j - px);
    }
    forall r, c | Occupied(m, r, c) && py + r >= 0
      ensures 0 <= px + c < COLUMNS && py + r < ROWS
      ensures grid[py + r][px + c] == None
      ensures stamped[py + r][px + c] == Some(color)
    {
      assert !Blocked(grid, px + c, py + r);
      assert Occupied(m, (py + r) - py, (px + c) - px);
    }
  }

  // ---------------------------------------------------------------------
  // Line clearing

  predicate IsFull(row: seq<Cell>)
  {
    forall c :: 0 <= c < |row| ==> row[c].Some?
  }

  predicate NoFullRows(grid: Grid)
  {
    forall r :: 0 <= r < |grid| ==> !IsFull(grid[r])
  }

  /** The rows that survive a clear, in their original order. */
  function OpenRows(grid: Grid): Grid
  {
    if grid == [] then []
    else (if IsFull(grid[0]) then [] else [grid[0]]) + OpenRows(grid[1..])
  }

  function FullRowCount(grid: Grid): nat
  {
    if grid == [] then 0
    else (if IsFull(grid[0]) then 1 else 0) + FullRowCount(grid[1..])
  }

  lemma {:induction false} OpenRowsCount(grid: Grid)
    ensures |OpenRows(grid)| + FullRowCount(grid) == |grid|
    ensures NoFullRows(OpenRows(grid))
    ensures forall r :: 0 <= r < |OpenRows(grid)| ==> |OpenRows(grid)[r]| in (set k | 0 <= k < |grid| :: |grid[k]|)
  {
    if grid != [] {
      OpenRowsCount(grid[1..]);
      var rest := OpenRows(grid[1..]);
      var head := if IsFull(grid[0]) then [] else [grid[0]];
      assert OpenRows(grid) == head + rest;
      forall r | 0 <= r < |OpenRows(grid)|
        ensures |OpenRows(grid)[r]| in (set k | 0 <= k < |grid| :: |grid[k]|)
      {
        if r < |head| {
          assert |grid[0]| in (set k | 0 <= k < |grid| :: |grid[k]|);
        } else {
          var k :| 0 <= k < |grid[1..]| && |rest[r - |head|]| == |grid[1..][k]|;
          assert |grid[k + 1]| in (set k | 0 <= k < |grid| :: |grid[k]|);
        }
      }
    }
  }

  /** `clear_lines`: drop the full rows, put as many empty rows on top; the
      second component is the number of rows removed. */
  function ClearLines(grid: Grid): (r: (Grid, int))
    requires WellFormed(grid)
    ensures |r.0| == ROWS && r.1 == FullRowCount(grid) && 0 <= r.1 <= ROWS
  {
    OpenRowsCount(grid);
    var kept := OpenRows(grid);
    var cleared := ROWS - |kept|;
    (seq(if cleared < 0 then 0 else cleared, _ => EmptyRow()) + kept, cleared)
  }

  lemma ClearLinesSpec(grid: Grid)
    requires WellFormed(grid)
    ensures var (result, cleared) := ClearLines(grid);
      && WellFormed(result)
      && cleared == FullRowCount(grid)
      && (forall r :: 0 <= r < cleared ==> result[r] == EmptyRow())
      && result[cleared..] == OpenRows(grid)
      && NoFullRows(result)
  {
    OpenRowsCount(grid);
    var (result, cleared) := ClearLines(grid);
    var kept := OpenRows(grid);
    assert result[cleared..] == kept;
    forall r | 0 <= r < ROWS ensures |result[r]| == COLUMNS && !IsFull(result[r]) {
      if r < cleared {
        assert result[r][0] == None;
      } else {
        assert result[r] == kept[r - cleared];
        var k :| 0 <= k < |grid| && |kept[r - cleared]| == |grid[k]|;
      }
    }
  }

  lemma {:induction false} OpenRowsOfOpenGrid(grid: Grid)
    requires NoFullRows(grid)
    ensures OpenRows(grid) == grid
  {
    if grid != [] {
      assert !IsFull(grid[0]);
      OpenRowsOfOpenGrid(grid[1..]);
    }
  }

  /** Clearing a grid that has no full row removes nothing and changes nothing. */
  lemma ClearLinesWithoutFullRows(grid: Grid)
    requires WellFormed(grid) && NoFullRows(grid)
    ensures ClearLines(grid) == (grid, 0)
  {
    OpenRowsOfOpenGrid(grid);
    assert seq(0, _ => EmptyRow()) + grid == grid;
  }

  /** Clearing twice is clearing once: the second clear finds nothing to remove. */
  lemma ClearLinesIdempotent(grid: Grid)
    requires WellFormed(grid)
    ensures var result := ClearLines(grid).0;
      WellFormed(result) && ClearLines(result) == (result, 0)
  {
    ClearLinesSpec(grid);
    ClearLinesWithoutFullRows(ClearLines(grid).0);
  }

  /** If every full row of `grid` lies in rows lo .. hi-1, there are at most hi - lo of them. */
  lemma {:induction false} FullRowsWithin(grid: Grid, lo: int, hi: int)
    requires lo <= hi
    requires forall r :: 0 <= r < |grid| && IsFull(grid[r]) ==> lo <= r < hi
    ensures FullRowCount(grid) <= hi - lo
  {
    if grid != [] {
      if IsFull(grid[0]) {
        assert lo <= 0 < hi;
        FullRowsWithin(grid[1..], 0, hi - 1);
      } else {
        FullRowsWithin(grid[1..], lo - 1, hi - 1);
      }
    }
  }

  /** Locking at most four rows' worth of piece into a grid without full rows
      completes at most that many rows: one lock clears at most four lines. */
  lemma LockClearsAtMostHeight(grid: Grid, m: Matrix, px: int, py: int, color: Color)
    requires WellFormed(grid) && NoFullRows(grid)
    ensures FullRowCount(Stamp(grid, m, px, py, color)) <= |m|
  {
    var stamped := Stamp(grid, m, px, py, color);
    forall r | 0 <= r < ROWS && !(py <= r < py + |m|) ensures !IsFull(stamped[r]) {
      assert !IsFull(grid[r]);
      var c :| 0 <= c < |grid[r]| && grid[r][c].None?;
      assert !Occupied(m, r - py, c - px);
      assert stamped[r][c] == grid[r][c];
    }
    FullRowsWithin(stamped, py, py + |m|);
  }

  // ---------------------------------------------------------------------
  // Rotation with wall kicks

  /** The horizontal offsets `rotate` tries, in order: first none, then the wall kicks. */
  const KICKS: seq<int> := [-1, 1, -2, 2]
  const TRIALS: seq<int> := [0] + KICKS

  /** The first offset in `offsets` at which `m` fits, or None. */
  function FirstFit(grid: Grid, m: Matrix, px: int, py: int, offsets: seq<int>): (fit: Option<int>)
    requires WellFormed(grid)
  {
    if offsets == [] then None
    else if !CollidesAt(grid, m, px + offsets[0], py) then Some(offsets[0])
    else FirstFit(grid, m, px, py, offsets[1..])
  }

  /** FirstFit picks the earliest offset that fits, and finds none only when none fits. */
  lemma FirstFitIsFirst(grid: Grid, m: Matrix, px: int, py: int, offsets: seq<int>)
    requires WellFormed(grid)
    ensures match FirstFit(grid, m, px, py, offsets)
      case Some(dx) =>
        exists k :: 0 <= k < |offsets| && offsets[k] == dx && !CollidesAt(grid, m, px + dx, py)
          && forall j :: 0 <= j < k ==> CollidesAt(grid, m, px + offsets[j], py)
      case None =>
        forall j :: 0 <= j < |offsets| ==> CollidesAt(grid, m, px + offsets[j], py)
  {
    if FirstFit(grid, m, px, py, offsets).Some? {
      FirstFitFound(grid, m, px, py, offsets);
    } else {
      FirstFitNone(grid, m, px, py, offsets);
    }
  }

  lemma {:induction false} FirstFitFound(grid: Grid, m: Matrix, px: int, py: int, offsets: seq<int>)
    requires WellFormed(grid) && FirstFit(grid, m, px, py, offsets).Some?
    ensures var dx := FirstFit(grid, m, px, py, offsets).value;
      exists k :: 0 <= k < |offsets| && offsets[k] == dx && !CollidesAt(grid, m, px + dx, py)
        && forall j :: 0 <= j < k ==> CollidesAt(grid, m, px + offsets[j], py)
  {
    if CollidesAt(grid, m, px + offsets[0], py) {
      var tail := offsets[1..];
      FirstFitFound(grid, m, px, py, tail);
      var dx := FirstFit(grid, m, px, py, tail).value;
      var k :| 0 <= k < |tail| && tail[k] == dx && !CollidesAt(grid, m, px + dx, py)
        && forall j :: 0 <= j < k ==> CollidesAt(grid, m, px + tail[j], py);
      assert offsets[k + 1] == dx;
      forall j | 0 <= j < k + 1 ensures CollidesAt(grid, m, px + offsets[j], py) {
        if j > 0 { assert offsets[j] == tail[j - 1]; }
      }
    }
  }

  lemma {:induction false} FirstFitNone(grid: Grid, m: Matrix, px: int, py: int, offsets: seq<int>)
    requires WellFormed(grid) && FirstFit(grid, m, px, py, offsets).None?
    ensures forall j :: 0 <= j < |offsets| ==> CollidesAt(grid, m, px + offsets[j], py)
  {
    if offsets != [] {
      var tail := offsets[1..];
      FirstFitNone(grid, m, px, py, tail);
      forall j | 0 <= j < |offsets| ensures CollidesAt(grid, m, px + offsets[j], py) {
        if j > 0 { assert offsets[j] == tail[j - 1]; }
      }
    }
  }

  // ---------------------------------------------------------------------
  // The falling piece

  class Piece {
    const name: ShapeName
    const states: seq<Matrix>
    const color: Color
    var state: nat
    var matrix: Matrix
    var x: int
    var y: int

    /** The rotation states and the colour are those of the table for `name`.
        Only constant fields are involved, so this never changes after construction. */
    ghost predicate FromTable()
    {
      states == Tetromino(name) && color == ColorOf(name)
    }

    /** The current matrix is the current rotation state, and every state is well shaped. */
    ghost predicate Valid()
      reads this`state, this`matrix
    {
      && state < |states|
      && matrix == states[state]
      && forall k :: 0 <= k < |states| ==> WellShaped(states[k])
    }

    /** `Piece(name)`: rotation state 0, centred horizontally on the top row.
        The random choice of a name is made by the caller. */
    constructor (name: ShapeName)
      ensures Valid() && FromTable() && this.name == name
      ensures state == 0 && x == SpawnX(name) && y == 0
    {
      this.name := name;
      states := Tetromino(name);
      color := ColorOf(name);
      state := 0;
      matrix := Tetromino(name)[0];
      x := SpawnX(name);
      y := 0;
      ShapeTable(name);
    }

    /** Whether the piece, shifted by (dx, dy), would collide. */
    predicate Collides(grid: Grid, dx: int, dy: int)
      reads this
      requires WellFormed(grid)
    {
      CollidesAt(grid, matrix, x + dx, y + dy)
    }

    /** `_collide`: scans the occupied cells row by row and stops at the first blocked one. */
    method Collide(grid: Grid, dx: int, dy: int) returns (hit: bool)
      requires WellFormed(grid)
      ensures hit == Collides(grid, dx, dy)
    {
      var r := 0;
      while r < |matrix|
        invariant 0 <= r <= |matrix|
        invariant forall r', c' :: 0 <= r' < r && Occupied(matrix, r', c') ==>
          !Blocked(grid, x + dx + c', y + dy + r')
      {
        var row := matrix[r];
        var c := 0;
        while c < |row|
          invariant 0 <= c <= |row|
          invariant forall c' :: 0 <= c' < c && Occupied(matrix, r, c') ==>
            !Blocked(grid, x + dx + c', y + dy + r)
        {
          if row[c] != 0 {
            var gx := x + c + dx;
            var gy := y + r + dy;
            if gx < 0 || gx >= COLUMNS || gy >= ROWS {
              assert Occupied(matrix, r, c) && Blocked(grid, x + dx + c, y + dy + r);
              return true;
            }
            if gy >= 0 && grid[gy][gx] != None {
              assert Occupied(matrix, r, c) && Blocked(grid, x + dx + c, y + dy + r);
              return true;
            }
          }
          c := c + 1;
        }
        r := r + 1;
      }
      return false;
    }

    /** `move`: shift by (dx, dy) unless that would collide. */
    method Move(dx: int, dy: int, grid: Grid) returns (moved: bool)
      requires Valid() && WellFormed(grid)
      modifies this`x, this`y
      ensures Valid()
      ensures moved == !old(Collides(grid, dx, dy))
      ensures moved ==> x == old(x) + dx && y == old(y) + dy
      ensures !moved ==> x == old(x) && y == old(y)
      ensures moved ==> !Collides(grid, 0, 0)
    {
      var hit := Collide(grid, dx, dy);
      if !hit {
        x := x + dx;
        y := y + dy;
        return true;
      }
      return false;
    }

    /** `rotate`: advance to the next rotation state; if it collides, try the
        wall kicks -1, +1, -2, +2 in that order and keep the first that fits;
        if none fits, restore the state, matrix and column. */
    method Rotate(grid: Grid) returns (rotated: bool)
      requires Valid() && WellFormed(grid)
      modifies this`state, this`matrix, this`x
      ensures Valid() && y == old(y)
      ensures var fit := FirstFit(grid, states[(old(state) + 1) % |states|], old(x), y, TRIALS);
        && rotated == fit.Some?
        && (rotated ==> state == (old(state) + 1) % |states| && x == old(x) + fit.value)
        && (!rotated ==> state == old(state) && x == old(x))
      ensures rotated ==> !Collides(grid, 0, 0)
      ensures |states| == 1 ==> state == 0 && matrix == old(matrix)
    {
      var oldState := state;
      state := (state + 1) % |states|;
      matrix := states[state];
      rotated := Kick(grid);
      if !rotated {
        state := oldState;
        matrix := states[state];
      }
    }

    /** The column search of `rotate` for the current matrix: stay, or shift by
        the first wall kick that fits; with no fit the column is left as it was. */
    method Kick(grid: Grid) returns (found: bool)
      requires Valid() && WellFormed(grid)
      modifies this`x
      ensures Valid()
      ensures var fit := FirstFit(grid, matrix, old(x), y, TRIALS);
        && found == fit.Some?
        && (found ==> x == old(x) + fit.value)
        && (!found ==> x == old(x))
      ensures found ==> !Collides(grid, 0, 0)
    {
      ghost var x0, m := x, matrix;
      ghost var fit := FirstFit(grid, m, x0, y, TRIALS);
      var hit := Collide(grid, 0, 0);
      if !hit {
        return true;
      }
      assert TRIALS[1..] == KICKS;
      var k := 0;
      while k < |KICKS|
        invariant 0 <= k <= |KICKS|
        invariant x == x0
        invariant fit == FirstFit(grid, m, x0, y, KICKS[k..])
      {
        var dx := KICKS[k];
        x := x + dx;
        hit := Collide(grid, 0, 0);
        if !hit {
          return true;
        }
        x := x - dx;
        assert KICKS[k..][1..] == KICKS[k + 1..];
        k := k + 1;
      }
      return false;
    }

    /** `hard_drop`: move down one row at a time while the row below is free. */
    method HardDrop(grid: Grid)
      requires Valid() && WellFormed(grid)
      modifies this`y
      ensures Valid()
      ensures y == DropRow(grid, matrix, x, old(y))
      ensures Collides(grid, 0, 1)
      ensures !old(Collides(grid, 0, 0)) ==> !Collides(grid, 0, 0)
    {
      assert WellShaped(matrix);
      DropRowIsRestingRow(grid, matrix, x, y);
      ghost var m, px := matrix, x;
      ghost var startFree := !CollidesAt(grid, m, px, y);
      ghost var drop := DropRow(grid, m, px, y);
      var hit := Collide(grid, 0, 1);
      while !hit
        invariant y >= old(y)
        invariant hit == CollidesAt(grid, m, px, y + 1)
        invariant DropRow(grid, m, px, y) == drop
        invariant startFree ==> !CollidesAt(grid, m, px, y)
        decreases ROWS - y
      {
        FloorCollides(grid, m, px, y + 1);
        y := y + 1;
        hit := Collide(grid, 0, 1);
      }
    }

    /** `lock`: write the piece colour into each in-bounds cell the piece
        occupies; cells outside the field are dropped. */
    method Lock(grid: Grid) returns (locked: Grid)
      requires Valid() && WellFormed(grid)
      ensures locked == Stamp(grid, matrix, x, y, color)
    {
      locked := grid;
      var r := 0;
      while r < |matrix|
        invariant 0 <= r <= |matrix|
        invariant WellFormed(locked)
        invariant forall i, j :: 0 <= i < ROWS && 0 <= j < COLUMNS ==>
          locked[i][j] == if Occupied(matrix, i - y, j - x) && i - y < r then Some(color) else grid[i][j]
      {
        var row := matrix[r];
        var c := 0;
        while c < |row|
          invariant 0 <= c <= |row|
          invariant WellFormed(locked)
          invariant forall i, j :: 0 <= i < ROWS && 0 <= j < COLUMNS ==>
            locked[i][j] ==
              if Occupied(matrix, i - y, j - x) && (i - y < r || (i - y == r && j - x < c))
              then Some(color) else grid[i][j]
        {
          if row[c] != 0 {
            var gx := x + c;
            var gy := y + r;
            if 0 <= gy < ROWS && 0 <= gx < COLUMNS {
              locked := locked[gy := locked[gy][gx := Some(color)]];
            }
          }
          c := c + 1;
        }
        r := r + 1;
      }
      var stamped := Stamp(grid, matrix, x, y, color);
      forall i | 0 <= i < ROWS ensures locked[i] == stamped[i] {
        assert forall j :: 0 <= j < COLUMNS ==> locked[i][j] == stamped[i][j];
      }
    }
  }
}
