# Snake game state

A Dafny model of the state of a grid-based Snake game (`GameState.cs`). The
state holds a fixed `rows` by `columns` grid of cell values (`Empty`,
`Snake`, `Food`; `Outside` is a sentinel that is never stored), the snake's
body as a sequence of positions with the head first, the current direction,
the score and the game-over flag.

The state is an immutable record (`Game.GameState`) and every operation of
the class is a pure function returning the new state:

- construction (`Game.New`), built from the blank state (`Game.Blank`), the
  initial snake (`Game.AddSnake`) and one food item (`Game.AddFood`);
- the row-major enumeration of empty cells (`Game.EmptyPositions`, computed
  by `Scan.ScanRows` / `Scan.ScanRow`);
- the body accessors `HeadPosition`, `TailPosition`, `SnakePositions`;
- the two body mutators `AddHead` and `RemoveTail`, which change the body
  and the grid together;
- `ChangeDirection`, the bounds check `OutsideGrid` and the collision
  classification `WillHit`.

The central property is the coupling invariant `Game.Valid`: the grid has
the declared shape and never stores `Outside`, the body lies inside the grid
without repeats, and a cell is `Snake` exactly when its position is in the
body. Construction establishes it, and `AddHead` (onto a non-`Snake` cell),
`RemoveTail`, `AddFood` and `ChangeDirection` preserve it. Two lemmas show
the side conditions matter: a head added onto a body cell repeats a
position, and removing a repeated tail leaves a cleared cell in the body.

Modules: `Cells` (positions, directions, cell values, the grid and its
single-cell write), `Scan` (row-major enumeration and the uniqueness of
row-major listings), `Game` (the state and its operations).

Modelling decisions:

- `System.Random.Next(count)` returns an index below `count`. It is
  modelled as an explicit `pick` argument in that range. For construction,
  the range is `rows * columns - 3`. `Game.Snaked` proves that this is the
  number of free cells after the snake is placed.
- The grid is allocated with the default value of `GridValue`, which is
  taken to be `Empty` (its first member). The enum's declaration is not part
  of this model.
- The code writes column 3 while placing the snake and writes row
  `rows / 2`. So construction requires `rows >= 1` and `columns >= 4`; with
  fewer columns the C# code fails with an index error.
- Indexing the grid outside its bounds throws in C#. `AddHead`, `RemoveTail`
  and `Cell` therefore require an in-grid position. `HeadPosition` and
  `TailPosition` require a non-empty body, because the C# code dereferences
  `First`/`Last` of the linked list.
- `Position` is an unbounded integer pair with structural equality.
  `Direction` is a plain four-value enumeration: its declaration, opposites
  and translation vectors are not part of this model.

## Model

| member | source | states |
|---|---|---|
| Game.OutsideGrid | GameState.cs:105-108 | a position is outside exactly when it is not one of the `rows * columns` cells of the grid |
| Game.WillHit | GameState.cs:110-118 | the result is `Outside` exactly for off-grid positions, and otherwise it is the stored cell value |
| Game.WillHitClassifies | GameState.cs:110-118 | on a valid state the result is `Snake` exactly for body positions and `Outside` exactly off the grid; any other cell gives `Empty` or `Food` |
| Game.WillHitTailIsSnake | GameState.cs:110-118 | there is no tail exemption: the current tail cell is classified as `Snake` |
| Game.HeadPosition | GameState.cs:72-75 | needs a non-empty body and returns the body's first position, which is a body member |
| Game.TailPosition | GameState.cs:77-80 | needs a non-empty body and returns the body's last position, which is a body member |
| Game.SnakePositions | GameState.cs:82-85 | returns the body itself, in order, head first; on a valid state it lists exactly the `Snake` cells of the grid, each once |
| Game.AddHead | GameState.cs:87-91 | the body grows by one with `pos` as the new head and the old body behind it; only cell `pos` changes, and it becomes `Snake` |
| Game.AddHeadKeepsValid | GameState.cs:87-91 | adding a head on an in-grid cell that is not `Snake` preserves the coupling invariant |
| Game.AddHeadOnBodyRepeats | GameState.cs:87-91 | adding a head on a position already in the body makes the body repeat a position |
| Game.RemoveTail | GameState.cs:93-98 | the old body is the new body followed by the old tail; only the tail cell changes, and it becomes `Empty` |
| Game.RemoveTailKeepsValid | GameState.cs:93-98 | removing the tail of a repeat-free body preserves the coupling invariant |
| Game.RemoveRepeatedTailBreaksCoupling | GameState.cs:93-98 | if the tail also occurs at the head, removing it leaves an `Empty` cell that is still in the body |
| Game.BodyEndsUnderUpdates | GameState.cs:87-98 | adding a head keeps the tail, and removing the tail of a body of length two or more keeps the head |
| Game.ChangeDirection | GameState.cs:100-103 | the direction becomes the argument unconditionally and nothing else changes |
| Game.ChangeDirectionLastWins | GameState.cs:100-103 | two changes in a row equal the last change alone, and a change never affects the coupling invariant |
| Game.EmptyPositions | GameState.cs:45-57 | lists exactly the in-grid `Empty` cells, each once, in strictly increasing row-major order |
| Game.EmptyPositionsUnique | GameState.cs:45-57 | any row-major sequence that lists exactly the empty cells equals the enumeration |
| Scan.ScanRowSound | GameState.cs:49-55 | scanning one row yields only that row's empty cells, all of them, left to right |
| Scan.ScanRowsSound | GameState.cs:47-56 | scanning the first `m` rows yields only those rows' empty cells, all of them, in row-major order |
| Scan.RowMajorUnique | GameState.cs:45-57 | two strictly row-major sequences with the same members are equal |
| Game.NoEmptyPositionsIffFull | GameState.cs:61-66 | the enumeration is empty exactly when no cell is `Empty` |
| Game.AddFood | GameState.cs:59-70 | on a full grid the state is unchanged; otherwise the chosen cell was `Empty` and becomes `Food`, and every other cell and field is unchanged |
| Game.AddFoodKeepsValid | GameState.cs:59-70 | placing food preserves the coupling invariant |
| Game.AddFoodChoices | GameState.cs:61-68 | a cell can receive the food for some pick exactly when it is `Empty` |
| Cells.SetCell | GameState.cs:90 | a grid write keeps the shape, sets the written cell and leaves every other cell unchanged |
| Cells.BlankGrid | GameState.cs:26 | a fresh grid has the requested shape and every cell `Empty` |
| Game.Blank | GameState.cs:22-27 | the freshly allocated state has the requested size, an all-`Empty` grid, an empty body, and satisfies the invariant |
| Game.AddSnake | GameState.cs:34-43 | the body gains `(rows/2, 3)`, `(rows/2, 2)`, `(rows/2, 1)` in front, in that order; the other fields are unchanged |
| Game.AddSnakeCells | GameState.cs:34-43 | exactly the three snake cells become `Snake`, and every other cell keeps its value |
| Game.SnakeOnBlankValid | GameState.cs:34-43 | placing the snake on the blank state yields a state satisfying the invariant |
| Game.Snaked | GameState.cs:22-29 | before food is placed, the state satisfies the invariant, its three cells are `Snake`, every other cell is `Empty`, and exactly `rows * columns - 3` cells are free |
| Game.InitialEmptyCount | GameState.cs:34-57 | a grid laid out like the initial one has exactly `rows * columns - 3` empty cells |
| Game.InitialFood | GameState.cs:30 | the initial food cell is in the grid and never under the snake |
| Game.New | GameState.cs:22-32 | the constructed state satisfies the invariant, and its body is `(r,3), (r,2), (r,1)` with `r = rows/2` (head column 3, tail column 1). The direction is `Right`, the score 0 and the game is not over. The three snake cells are `Snake`, the chosen cell is `Food` and all others are `Empty` |
| Game.FoodOnSnakedLayout | GameState.cs:29-30 | after the initial food is placed, the grid holds the snake's three cells, one food cell and nothing else |
| Game.NewFoodAnywhereFree | GameState.cs:30 | every cell not under the initial snake is the initial food cell for some pick |

## Left out

- The pseudo-random generator is not modelled. Its result is the explicit `pick` argument of `AddFood` and `New`, ranging over all valid indices. No uniformity is stated.
- `Score` and `GameOver` are only declared in the source and never changed. The model carries them as fields, initially 0 and `false`, and no operation changes them.
- No tick (`Move`), direction queue, tail exemption in `WillHit`, score increment or game-over transition exists in `GameState.cs`, so none is modelled.
- Direction opposites and translation vectors are not modelled, because the `Direction` type's declaration is not part of this model.
- The lazy `IEnumerable`/`yield` mechanics of the empty-cell scan are not modelled. The scan is modelled as a finite sequence, computed by `Scan.ScanRow` and `Scan.ScanRows`. Those two functions are specified by the `Scan.ScanRowSound` and `Scan.ScanRowsSound` rows above.
- SnakePositions: returns a value copy of the body. The C# method hands out the live internal `LinkedList`. A caller holding it sees later `AddHead`/`RemoveTail` changes, and iterating it across such a change throws. Neither effect is modelled.
- Aliasing is not modelled: the record model assumes no code outside the class writes to the grid or the body. In C#, `Grid` is a public, writable array, and `SnakePositions` exposes the body list. Through them a caller could store `Outside` or break the coupling, and `Valid` would then no longer hold.
- Exceptions are modelled as preconditions, not as error results. The state that C# leaves behind when it throws is not modelled. For example, `AddHead` with an off-grid position has already pushed onto the list before the array write fails.
- The fixed width of C# `int` is not modelled. Grid coordinates and sizes are unbounded integers, which matches the source for every grid the runtime can allocate.
