/**
 The Snake game state: a fixed-size grid of cell values, the snake's body as
 a sequence of positions with the head first, the current direction, the
 score and the game-over flag, together with the operations that read and
 change them.

 The state is an immutable record and every operation returns a new one. The
 central property is the coupling invariant `Valid`: a cell holds `Snake`
 exactly when its position is in the body.
 */
module Game {
  import opened Cells
  import opened Scan

  datatype GameState = GameState(
    rows: nat,
    columns: nat,
    grid: Grid,
    dir: Direction,
    score: int,
    gameOver: bool,
    body: seq<Position>)

  /** The grid has the declared size and no cell stores `Outside`. */
  predicate WellFormed(s: GameState) {
    && Shaped(s.grid, s.rows, s.columns)
    && forall i, j :: 0 <= i < s.rows && 0 <= j < s.columns ==> s.grid[i][j] != Outside
  }

  /** `p` is a cell of the grid. */
  predicate InGrid(s: GameState, p: Position) {
    0 <= p.row < s.rows && 0 <= p.column < s.columns
  }

  /** The value stored at an in-grid position. */
  function Cell(s: GameState, p: Position): GridValue
    requires WellFormed(s) && InGrid(s, p)
  {
    s.grid[p.row][p.column]
  }

  /** The coupling invariant: the grid is well formed, the body lies in the
      grid without repeats, and a cell is `Snake` exactly when its position
      is in the body. */
  ghost predicate Valid(s: GameState) {
    && WellFormed(s)
    && (forall k :: 0 <= k < |s.body| ==> InGrid(s, s.body[k]))
    && Distinct(s.body)
    && (forall p :: InGrid(s, p) ==> (Cell(s, p) == Snake <==> p in s.body))
  }

  /** No cell of the grid is `Empty`. */
  ghost predicate Full(s: GameState)
    requires WellFormed(s)
  {
    forall p :: InGrid(s, p) ==> Cell(s, p) != Empty
  }

  // ---------------------------------------------------------------------
  // Bounds and collision classification

  /** True exactly for positions that do not name a cell of the grid. */
  function OutsideGrid(s: GameState, p: Position): (b: bool)
    ensures b <==> p !in CellsOf(s.rows, s.columns)
    ensures b <==> !InGrid(s, p)
  {
    assert InGrid(s, p) ==> p == Position(p.row, p.column);
    p.row < 0 || p.row >= s.rows || p.column < 0 || p.column >= s.columns
  }

  /** What a head moved to `p` would run into: `Outside` off the grid, and
      otherwise the value stored there, which is never `Outside`. */
  function WillHit(s: GameState, p: Position): (v: GridValue)
    requires WellFormed(s)
    ensures v == Outside <==> OutsideGrid(s, p)
    ensures InGrid(s, p) ==> v == Cell(s, p)
  {
    if OutsideGrid(s, p) then Outside else s.grid[p.row][p.column]
  }

  /** Under the coupling invariant the classification is decided by the
      body alone: `Snake` exactly for body positions (the tail included),
      `Outside` exactly off the grid, and `Empty` or `Food` for every other
      cell. */
  lemma WillHitClassifies(s: GameState, p: Position)
    requires Valid(s)
    ensures WillHit(s, p) == Snake <==> p in s.body
    ensures WillHit(s, p) == Outside <==> !InGrid(s, p)
    ensures InGrid(s, p) && p !in s.body ==> WillHit(s, p) in {Empty, Food}
  {
  }

  /** There is no exception for the tail: moving onto the current tail cell
      is classified as a collision with the snake. */
  lemma WillHitTailIsSnake(s: GameState)
    requires Valid(s) && |s.body| > 0
    ensures WillHit(s, TailPosition(s)) == Snake
  {
  }

  // ---------------------------------------------------------------------
  // Reading the body

  /** The front of the body. */
  function HeadPosition(s: GameState): (p: Position)
    requires |s.body| > 0
    ensures p in s.body
    ensures p == s.body[0]
  {
    s.body[0]
  }

  /** The back of the body. */
  function TailPosition(s: GameState): (p: Position)
    requires |s.body| > 0
    ensures p in s.body
    ensures p == s.body[|s.body| - 1]
  {
    s.body[|s.body| - 1]
  }

  /** The body, head first, in order. Under the coupling invariant it lists exactly
      the `Snake` cells of the grid, each once. */
  function SnakePositions(s: GameState): (ps: seq<Position>)
    ensures Valid(s) ==> forall p :: p in ps <==> InGrid(s, p) && Cell(s, p) == Snake
    ensures Valid(s) ==> Distinct(ps)
    ensures ps == s.body
    ensures |ps| == |s.body| && (|ps| > 0 ==> ps[0] == HeadPosition(s) && ps[|ps| - 1] == TailPosition(s))
  {
    s.body
  }

  // ---------------------------------------------------------------------
  // Changing the body and the grid together

  /** Pushes `pos` onto the front of the body and marks its cell `Snake`. */
  function AddHead(s: GameState, pos: Position): (r: GameState)
    requires WellFormed(s) && InGrid(s, pos)
    ensures r.(grid := s.grid, body := s.body) == s
    ensures WellFormed(r)
    ensures |r.body| == |s.body| + 1 && HeadPosition(r) == pos && r.body[1..] == s.body
    ensures Cell(r, pos) == Snake
    ensures forall q :: InGrid(s, q) && q != pos ==> Cell(r, q) == Cell(s, q)
  {
    s.(body := [pos] + s.body, grid := SetCell(s.grid, pos, Snake))
  }

  /** Adding a head on a cell that is not yet `Snake` keeps the coupling
      invariant. */
  lemma AddHeadKeepsValid(s: GameState, pos: Position)
    requires Valid(s) && InGrid(s, pos) && Cell(s, pos) != Snake
    ensures Valid(AddHead(s, pos))
  {
  }

  /** Without the check, adding a head on a body cell repeats a position,
      which the coupling invariant forbids. */
  lemma AddHeadOnBodyRepeats(s: GameState, pos: Position)
    requires WellFormed(s) && InGrid(s, pos) && pos in s.body
    ensures !Distinct(AddHead(s, pos).body)
  {
  }

  /** Drops the back of the body and clears its cell to `Empty`. */
  function RemoveTail(s: GameState): (r: GameState)
    requires WellFormed(s) && |s.body| > 0 && InGrid(s, TailPosition(s))
    ensures r.(grid := s.grid, body := s.body) == s
    ensures WellFormed(r)
    ensures s.body == r.body + [TailPosition(s)]
    ensures Cell(r, TailPosition(s)) == Empty
    ensures forall q :: InGrid(s, q) && q != TailPosition(s) ==> Cell(r, q) == Cell(s, q)
  {
    var tail := s.body[|s.body| - 1];
    s.(grid := SetCell(s.grid, tail, Empty), body := s.body[..|s.body| - 1])
  }

  /** Removing the tail of a repeat-free body keeps the coupling invariant. */
  lemma RemoveTailKeepsValid(s: GameState)
    requires Valid(s) && |s.body| > 0
    ensures Valid(RemoveTail(s))
  {
  }

  /** With a repeated tail the invariant breaks: the cleared cell is still
      listed in the body. */
  lemma RemoveRepeatedTailBreaksCoupling(s: GameState)
    requires WellFormed(s) && |s.body| >= 2 && InGrid(s, TailPosition(s))
    requires s.body[0] == TailPosition(s)
    ensures !Valid(RemoveTail(s))
  {
  }

  /** Adding a head leaves the tail where it was, and removing the tail of
      a body of two or more leaves the head where it was. */
  lemma BodyEndsUnderUpdates(s: GameState, pos: Position)
    requires WellFormed(s) && InGrid(s, pos) && |s.body| > 0
    ensures TailPosition(AddHead(s, pos)) == TailPosition(s)
    ensures |s.body| >= 2 && InGrid(s, TailPosition(s)) ==> HeadPosition(RemoveTail(s)) == HeadPosition(s)
  {
  }

  // ---------------------------------------------------------------------
  // Direction

  /** Replaces the direction unconditionally, with no check against the
      current one. */
  function ChangeDirection(s: GameState, d: Direction): (r: GameState)
    ensures r.dir == d
    ensures r.(dir := s.dir) == s
  {
    s.(dir := d)
  }

  /** Only the last request counts, and the coupling invariant is
      untouched. */
  lemma ChangeDirectionLastWins(s: GameState, d1: Direction, d2: Direction)
    ensures ChangeDirection(ChangeDirection(s, d1), d2) == ChangeDirection(s, d2)
    ensures Valid(s) <==> Valid(ChangeDirection(s, d1))
  {
  }

  // ---------------------------------------------------------------------
  // Food

  /** The empty cells of the grid, each once, in row-major order. */
  function EmptyPositions(s: GameState): (e: seq<Position>)
    requires WellFormed(s)
    ensures forall p :: p in e <==> InGrid(s, p) && Cell(s, p) == Empty
    ensures RowMajor(e) && Distinct(e)
  {
    var e := ScanRows(s.grid, s.rows);
    ScanRowsSound(s.grid, s.rows);
    RowMajorDistinct(e);
    assert forall p :: p in e ==> InGrid(s, p) && Cell(s, p) == Empty by {
      forall p | p in e
        ensures InGrid(s, p) && Cell(s, p) == Empty
      {
        var k :| 0 <= k < |e| && e[k] == p;
      }
    }
    e
  }

  /** The enumeration is the only row-major listing of the empty cells:
      any sequence that lists exactly the empty cells, in row-major order,
      is the enumeration. */
  lemma EmptyPositionsUnique(s: GameState, e: seq<Position>)
    requires WellFormed(s)
    requires forall p :: p in e <==> InGrid(s, p) && Cell(s, p) == Empty
    requires RowMajor(e)
    ensures e == EmptyPositions(s)
  {
    RowMajorUnique(e, EmptyPositions(s));
  }

  /** The scan is empty exactly when the grid is full. */
  lemma NoEmptyPositionsIffFull(s: GameState)
    requires WellFormed(s)
    ensures |EmptyPositions(s)| == 0 <==> Full(s)
  {
    var e := EmptyPositions(s);
    if |e| > 0 {
      assert e[0] in e;
    }
  }

  /** Turns the `pick`-th empty cell (in row-major order) into food, or
      returns the state unchanged when the grid is full. */
  function AddFood(s: GameState, pick: nat): (r: GameState)
    requires WellFormed(s)
    requires |EmptyPositions(s)| == 0 || pick < |EmptyPositions(s)|
    ensures r.(grid := s.grid) == s
    ensures WellFormed(r)
    ensures Full(s) ==> r == s
    ensures !Full(s) ==>
      var f := EmptyPositions(s)[pick];
      && InGrid(s, f) && Cell(s, f) == Empty && Cell(r, f) == Food
      && forall q :: InGrid(s, q) && q != f ==> Cell(r, q) == Cell(s, q)
  {
    NoEmptyPositionsIffFull(s);
    var e := EmptyPositions(s);
    if |e| == 0 then s
    else
      var f := e[pick];
      assert f in e;
      s.(grid := SetCell(s.grid, f, Food))
  }

  /** Placing food keeps the coupling invariant. */
  lemma AddFoodKeepsValid(s: GameState, pick: nat)
    requires Valid(s)
    requires |EmptyPositions(s)| == 0 || pick < |EmptyPositions(s)|
    ensures Valid(AddFood(s, pick))
  {
  }

  /** Every empty cell, and only an empty cell, can receive the food: the
      choice ranges over exactly the empty cells. */
  lemma AddFoodChoices(s: GameState, f: Position)
    requires WellFormed(s) && InGrid(s, f)
    ensures Cell(s, f) == Empty <==>
      exists pick: nat :: pick < |EmptyPositions(s)| && EmptyPositions(s)[pick] == f
  {
    var e := EmptyPositions(s);
    if Cell(s, f) == Empty {
      assert f in e;
      var k :| 0 <= k < |e| && e[k] == f;
      assert k < |e| && e[k] == f;
    }
  }

  // ---------------------------------------------------------------------
  // Construction

  /** The freshly allocated state: blank grid, empty body, heading right,
      zero score, game not over. */
  function Blank(rows: nat, columns: nat): (s: GameState)
    ensures Valid(s) && |s.body| == 0
    ensures s.rows == rows && s.columns == columns
    ensures forall p :: InGrid(s, p) ==> Cell(s, p) == Empty
  {
    GameState(rows, columns, BlankGrid(rows, columns), Right, 0, false, [])
  }

  /** Places the initial three-cell snake in the middle row, adding
      columns 1, 2 and 3 in turn as the new head, so column 3 ends up in
      front and column 1 at the back. */
  function AddSnake(s: GameState): (r: GameState)
    requires WellFormed(s) && s.rows >= 1 && s.columns >= 4
    ensures r.(grid := s.grid, body := s.body) == s
    ensures WellFormed(r)
    ensures r.body == [Position(s.rows / 2, 3), Position(s.rows / 2, 2), Position(s.rows / 2, 1)] + s.body
  {
    var row := s.rows / 2;
    var g1 := SetCell(s.grid, Position(row, 1), Snake);
    var g2 := SetCell(g1, Position(row, 2), Snake);
    var g3 := SetCell(g2, Position(row, 3), Snake);
    s.(grid := g3, body := [Position(row, 3), Position(row, 2), Position(row, 1)] + s.body)
  }

  /** Placing the snake marks exactly its three cells `Snake` and leaves
      every other cell as it was. */
  lemma AddSnakeCells(s: GameState, p: Position)
    requires WellFormed(s) && s.rows >= 1 && s.columns >= 4 && InGrid(s, p)
    ensures Cell(AddSnake(s), p) == if InitialSnakeCell(s.rows, p) then Snake else Cell(s, p)
  {
  }

  /** `p` is one of the three cells the initial snake occupies: row
      `rows / 2`, columns 1 to 3. */
  predicate InitialSnakeCell(rows: nat, p: Position) {
    p.row == rows / 2 && 1 <= p.column <= 3
  }

  /** The state before food is placed: the blank state with the snake. It
      leaves exactly `rows * columns - 3` empty cells. */
  function Snaked(rows: nat, columns: nat): (s: GameState)
    requires rows >= 1 && columns >= 4
    ensures Valid(s) && s.rows == rows && s.columns == columns
    ensures s.body == [Position(rows / 2, 3), Position(rows / 2, 2), Position(rows / 2, 1)]
    ensures s.dir == Right && s.score == 0 && !s.gameOver
    ensures forall p :: InGrid(s, p) ==> Cell(s, p) == if InitialSnakeCell(rows, p) then Snake else Empty
    ensures |EmptyPositions(s)| == rows * columns - 3
  {
    var s := AddSnake(Blank(rows, columns));
    SnakeOnBlankLayout(rows, columns);
    SnakeOnBlankValid(rows, columns);
    InitialEmptyCount(s);
    s
  }

  /** On a blank grid the snake's three cells are `Snake` and every other
      cell is `Empty`. */
  lemma SnakeOnBlankLayout(rows: nat, columns: nat)
    requires rows >= 1 && columns >= 4
    ensures var s := AddSnake(Blank(rows, columns));
      forall p :: InGrid(s, p) ==> Cell(s, p) == if InitialSnakeCell(rows, p) then Snake else Empty
  {
  }

  /** Placing the snake on the blank state establishes the coupling
      invariant: the three cells are added one by one as new heads. */
  lemma SnakeOnBlankValid(rows: nat, columns: nat)
    requires rows >= 1 && columns >= 4
    ensures Valid(AddSnake(Blank(rows, columns)))
  {
  }

  /** The cell the initial food goes to: the `pick`-th free cell in
      row-major order. It is always in the grid and never under the snake. */
  function InitialFood(rows: nat, columns: nat, pick: nat): (f: Position)
    requires rows >= 1 && columns >= 4
    requires pick < rows * columns - 3
    ensures 0 <= f.row < rows && 0 <= f.column < columns
    ensures !InitialSnakeCell(rows, f)
  {
    var e := EmptyPositions(Snaked(rows, columns));
    assert e[pick] in e;
    e[pick]
  }

  /** Construction: allocate, place the snake in the middle row with its
      head at column 3 and its tail at column 1, and place one food item
      on the `pick`-th free cell; every other cell is empty. */
  function New(rows: nat, columns: nat, pick: nat): (s: GameState)
    requires rows >= 1 && columns >= 4
    requires pick < rows * columns - 3
    ensures Valid(s)
    ensures s.rows == rows && s.columns == columns
    ensures s.body == [Position(rows / 2, 3), Position(rows / 2, 2), Position(rows / 2, 1)]
    ensures HeadPosition(s) == Position(rows / 2, 3) && TailPosition(s) == Position(rows / 2, 1)
    ensures s.dir == Right && s.score == 0 && !s.gameOver
    ensures forall p :: InGrid(s, p) ==>
      Cell(s, p) == if InitialSnakeCell(rows, p) then Snake else if p == InitialFood(rows, columns, pick) then Food else Empty
  {
    var t := Snaked(rows, columns);
    AddFoodKeepsValid(t, pick);
    FoodOnSnakedLayout(rows, columns, pick);
    AddFood(t, pick)
  }

  /** After the initial food is placed the grid holds the snake's three
      cells, the chosen food cell, and `Empty` everywhere else. */
  lemma FoodOnSnakedLayout(rows: nat, columns: nat, pick: nat)
    requires rows >= 1 && columns >= 4
    requires pick < rows * columns - 3
    ensures var s := AddFood(Snaked(rows, columns), pick);
      forall p :: InGrid(s, p) ==>
        Cell(s, p) == if InitialSnakeCell(rows, p) then Snake else if p == InitialFood(rows, columns, pick) then Food else Empty
  {
  }

  /** Every cell the snake leaves free can be the one that gets the initial
      food. */
  lemma NewFoodAnywhereFree(rows: nat, columns: nat, p: Position)
    requires rows >= 1 && columns >= 4
    requires 0 <= p.row < rows && 0 <= p.column < columns
    requires !InitialSnakeCell(rows, p)
    ensures exists pick: nat :: pick < rows * columns - 3 && InitialFood(rows, columns, pick) == p
  {
    var t := Snaked(rows, columns);
    var e := EmptyPositions(t);
    assert InGrid(t, p);
    assert p in e;
    var k :| 0 <= k < |e| && e[k] == p;
    assert InitialFood(rows, columns, k) == p;
  }

  /** A grid laid out as right after the snake is placed has exactly
      `rows * columns - 3` empty cells. */
  lemma InitialEmptyCount(s: GameState)
    requires WellFormed(s) && s.rows >= 1 && s.columns >= 4
    requires forall p :: InGrid(s, p) ==> Cell(s, p) == if InitialSnakeCell(s.rows, p) then Snake else Empty
    ensures |EmptyPositions(s)| == s.rows * s.columns - 3
  {
    var r := s.rows / 2;
    forall i | 0 <= i < s.rows
      ensures InitialRow(s.grid[i], i == r)
    {
      forall j | 0 <= j < s.columns
        ensures s.grid[i][j] == if i == r && 1 <= j <= 3 then Snake else Empty
      {
        assert Cell(s, Position(i, j)) == s.grid[i][j];
      }
    }
    ScanRowsCount(s.grid, s.columns, r, s.rows);
  }

  /** A row of the initial grid: `Snake` at columns 1 to 3 if it is the
      snake's row, `Empty` everywhere else. */
  predicate InitialRow(row: seq<GridValue>, snakeRow: bool) {
    forall j :: 0 <= j < |row| ==> row[j] == if snakeRow && 1 <= j <= 3 then Snake else Empty
  }

  /** Length of the scan of the first `n` columns of an initial row. */
  lemma {:induction false} ScanRowCount(g: Grid, i: nat, n: nat, snakeRow: bool)
    requires i < |g| && n <= |g[i]| && InitialRow(g[i], snakeRow)
    ensures |ScanRow(g, i, n)| == if !snakeRow || n <= 1 then n else if n <= 4 then 1 else n - 3
  {
    if n > 0 {
      ScanRowCount(g, i, n - 1, snakeRow);
    }
  }

  /** Length of the scan of a whole initial row. */
  lemma InitialRowCount(g: Grid, i: nat, columns: nat, snakeRow: bool)
    requires i < |g| && |g[i]| == columns && columns >= 4 && InitialRow(g[i], snakeRow)
    ensures |ScanRow(g, i, columns)| + (if snakeRow then 3 else 0) == columns
  {
    ScanRowCount(g, i, columns, snakeRow);
  }

  /** Length of the scan of the first `m` rows of the initial grid. */
  lemma {:induction false} ScanRowsCount(g: Grid, columns: nat, r: nat, m: nat)
    requires m <= |g| && columns >= 4
    requires forall i :: 0 <= i < |g| ==> |g[i]| == columns && InitialRow(g[i], i == r)
    ensures |ScanRows(g, m)| + (if m > r then 3 else 0) == m * columns
  {
    if m > 0 {
      var prev := |ScanRows(g, m - 1)|;
      var last := |ScanRow(g, m - 1, columns)|;
      assert prev + (if m - 1 > r then 3 else 0) == (m - 1) * columns by {
        ScanRowsCount(g, columns, r, m - 1);
      }
      assert last + (if m - 1 == r then 3 else 0) == columns by {
        InitialRowCount(g, m - 1, columns, m - 1 == r);
      }
      assert |ScanRows(g, m)| == prev + last;
      MulStep(m, columns);
    }
  }

  /** One more row adds `c` cells. */
  lemma MulStep(m: nat, c: nat)
    requires m > 0
    ensures (m - 1) * c + c == m * c
  {
  }
}
