# Game of Fifteen — a verified model of the puzzle engine

`GameOfFifteen` is a Swing panel that plays the sliding puzzle on a
`size`-by-`size` grid. The board is an `int[]` of `size * size` cells in
row-major order, with 0 for the blank. `blankPos` records the blank's index,
and `gameOver` says whether the next mouse press starts a new game.

This project models the panel's engine:
- the fixed layout fields and the constructor;
- `reset`, which writes the solved layout;
- `shuffle`, a Fisher-Yates pass over the tiles that leaves the blank's home cell out;
- `isSolvable`, the inversion-parity rule;
- `isSolved`, the goal test;
- `newGame`, which resets and shuffles until the deal passes the parity rule;
- the mouse-press handler, modelled as `Click(x, y)`.

The model is split across four modules:
- `Board` (board.dfy) defines boards as values: the solved layout, arrangements of 0 .. n-1, the goal test, and the inversion count with its meaning as a set of out-of-order pairs.
- `FisherYates` (shuffle.dfy) gives the shuffle as a function of its random draws, and a deal as reset followed by shuffle.
- `Moves` (moves.dfy) defines the click handler as values: the pixel-to-cell rule, the direction rule, and the chained slide of tiles towards the blank.
- `Game` (game.dfy) holds the class `GameOfFifteen`. Its array `tiles`, its `blankPos` and its `gameOver` are updated in place by methods whose loops mirror the Java loops. Each method is proved against the functions of the other three modules.

Randomness is a parameter:
- `Shuffle(draws)` receives the values `RANDOM.nextInt` would return. Draw k lies in `[0, nbTiles - k)`, which is what `nextInt` promises.
- The retry loop of `newGame` receives a sequence of such draw sequences, one per attempt.

## Model

| member | source | states |
|---|---|---|
| Board.SolvedBoard | GameOfFifteen.java:136-139 | the layout `reset` writes, (i + 1) mod n in cell i; it has n cells and holds the blank 0 in the last one |
| Board.SolvedBoardAt | GameOfFifteen.java:134-143 | cell i of the reset layout holds i + 1, except the last cell, which holds the blank 0 |
| Board.SolvedBoardIsArrangement | GameOfFifteen.java:134-143 | the reset layout holds every value 0 .. n-1 exactly once |
| Board.GoalTest | GameOfFifteen.java:178-189 | "last cell is 0 and cell i holds i + 1 for every i < nbTiles" holds exactly when the board equals the reset layout (both directions) |
| Board.TranspositionUnsolves | GameOfFifteen.java:134-189 | exchanging any two distinct cells of the layout `reset` writes gives a board that `isSolved` rejects |
| Board.RangeCount | GameOfFifteen.java:85-86 | helper for BlankIsUnique: in the reference sequence 0 .. n-1 every value below n occurs once, so an arrangement holds exactly one 0 |
| Board.BlankIsUnique | GameOfFifteen.java:85-86 | on an arrangement, the cell holding 0 is unique, so blankPos determines the blank |
| Board.CountAbove | GameOfFifteen.java:169-173 | the inner loop's count, over the first k cells, of the cells holding a value greater than v; it is at most k |
| Board.CountAboveCountsPairs | GameOfFifteen.java:169-173 | the inner loop's count for tile i equals the number of earlier cells j with tiles[j] > tiles[i] |
| Board.InversionPairsSplit | GameOfFifteen.java:167-174 | the out-of-order pairs among the first m cells are those among the first m - 1 plus the disjoint set of pairs ending at cell m - 1, as one pass of the outer loop adds them |
| Board.Inversions | GameOfFifteen.java:165-174 | the value the nested loops leave in `countInversions` after the first m cells; twice it is at most m * (m - 1), so it never exceeds the number of pairs |
| Board.Solvable | GameOfFifteen.java:175 | the parity test `countInversions % 2 == 0` over the first m cells (a definition; its meaning is stated by SolvableIffEvenPairs) |
| Board.InversionsCountPairs | GameOfFifteen.java:163-176 | the counter of `isSolvable` equals the number of pairs j < i < nbTiles with tiles[j] > tiles[i] |
| Board.SolvableIffEvenPairs | GameOfFifteen.java:159-176 | the parity rule holds exactly when the number of out-of-order pairs is even |
| Board.NoInversionsIffSorted | GameOfFifteen.java:159-176 | the counter is 0 exactly when the first m cells are in ascending order |
| Board.SolvedBoardIsSolvable | GameOfFifteen.java:134-176 | the reset layout has zero inversions among its tiles, so it passes the parity rule |
| FisherYates.Swap | GameOfFifteen.java:153-155 | the three assignments that exchange cells r and n; the board keeps its length |
| FisherYates.ShuffleFrom | GameOfFifteen.java:148-156 | the `while (n > 1)` loop as a recursion on the counter, consuming one draw per pass; the board keeps its length |
| FisherYates.ShufflePermutesPrefix | GameOfFifteen.java:145-157 | the shuffle keeps the length and the multiset of the board, and never changes a cell at index n or above (the blank's home cell nbTiles included) |
| FisherYates.Deal | GameOfFifteen.java:127-128 | a reset followed by a shuffle gives a board of n cells whose last cell holds the blank |
| FisherYates.DealIsArrangement | GameOfFifteen.java:126-129 | every deal is an arrangement of 0 .. n-1 |
| FisherYates.SelfDrawsKeepBoard | GameOfFifteen.java:150-156 | if every draw picks the cell being swapped with (r == n after the decrement), the shuffle leaves the board unchanged |
| FisherYates.SelfDrawsAttemptSolvable | GameOfFifteen.java:124-132 | for every board size there is a valid attempt whose deal is the solved layout and passes the parity rule, so the requirement of `NewGame` and of the constructor can be met |
| Moves.CellAt | GameOfFifteen.java:74-82 | a click passes the guard exactly when both offsets lie in [0, gridSize]; the returned column and row are those whose tile span contains the offset |
| Moves.CellInGridIff | GameOfFifteen.java:77-82 | a point that passes the guard lands inside the size-by-size grid exactly when both offsets are below size * tileSize |
| Moves.TileSizePositive | GameOfFifteen.java:51-52 | a grid at least size pixels wide gives tiles at least one pixel wide |
| Moves.GuardAdmitsColumnOutsideGrid | GameOfFifteen.java:77-81 | for every grid, the guard admits the right edge ex == gridSize, where the column computed is at least size, and the bottom edge ey == gridSize, where the row computed is at least size |
| Moves.Direction | GameOfFifteen.java:91-97 | the direction `dir` the handler picks; for size >= 1 it is non-zero exactly when the click shares one, and only one, of the blank's row and column |
| Moves.LineReachesClick | GameOfFifteen.java:85-97 | when a direction is chosen, Steps slides in that direction take the blank to clickPos |
| Moves.ClickOnPath | GameOfFifteen.java:81-97 | an in-grid click has clickPos on the board, and Steps slides in the chosen direction take the blank from blankPos there |
| Moves.Shift | GameOfFifteen.java:102-109 | the board the do-while loop and the final `tiles[blankPos] = 0` leave after k slides of dir from b; it keeps the board's length |
| Moves.ShiftStep | GameOfFifteen.java:102-107 | an unfolding of Shift used by the other proofs: one pass of the do-while loop moves the tile one step beyond the blank into it, and the remaining path starts one cell further on and stays on the board |
| Moves.SlideOneMultiset | GameOfFifteen.java:104-106 | moving the neighbouring tile into the blank and clearing its cell keeps the multiset of the board |
| Moves.ShiftEndsBlank | GameOfFifteen.java:102-109 | after the loop the blank (0) is in the cell where the path ends |
| Moves.ShiftPathCell | GameOfFifteen.java:102-109 | cell j of the blank's path, short of its end, holds the tile that stood at cell j + 1 |
| Moves.ShiftOnPath | GameOfFifteen.java:102-109 | the move loop leaves 0 in the clicked cell, and each cell on the blank's path holds the tile that was one step further along |
| Moves.ShiftOffPath | GameOfFifteen.java:102-109 | the move loop leaves every cell off the blank's path unchanged |
| Moves.ShiftMultiset | GameOfFifteen.java:102-109 | the move loop keeps the multiset of the board with the blank's old cell written as 0 |
| Moves.SlideFacts | GameOfFifteen.java:99-110 | for any path from the blank that ends on the board: the blank ends at the path's end, path cells get the next tile along, other cells are unchanged, and the multiset is kept |
| Moves.Move | GameOfFifteen.java:89-110 | the effect of a press on an in-grid cell: the board keeps its length and the blank either stays where it was or moves to the clicked cell |
| Moves.LineDirection | GameOfFifteen.java:91-97 | for a click that shares exactly one of the blank's row and column, the direction is ±size along a column or ±1 along a row, towards the click, and never 0 |
| Moves.MoveIsShift | GameOfFifteen.java:89-110 | an unfolding of Move used by MoveSlides: a click that picks a direction is the chained slide for Steps steps, and the path ends on clickPos, which lies on the board |
| Moves.MoveSlides | GameOfFifteen.java:89-110 | for a straight-line click on a cell other than the blank, the direction is ±size (same column) or ±1 (same row) and the number of slides is the distance; the blank ends at clickPos holding 0; path cells get the next tile along; other cells and the multiset are unchanged |
| Moves.MoveStays | GameOfFifteen.java:91-99 | a click on the blank itself or on a diagonal cell leaves the board and the blank as they were |
| Moves.MoveKeepsArrangement | GameOfFifteen.java:89-110 | every in-grid click keeps the board an arrangement, with 0 at the new blank index |
| Moves.ChainFromSolved | GameOfFifteen.java:89-110 | from the solved layout of any grid at least 3 wide, a click two cells left of the blank slides the two tiles between one step right and leaves the blank at n - 3 |
| Moves.ChainToSolved | GameOfFifteen.java:89-110 | the click back: on the board ChainFromSolved leaves, a click on the last cell slides both tiles back and restores the solved layout with the blank at n - 1 |
| Moves.SolvedNine | GameOfFifteen.java:134-143 | the solved 3-by-3 layout is 1, 2, ..., 8, 0 |
| Moves.ThreeByThreeScenario | GameOfFifteen.java:89-113 | on a 3-by-3 grid, with [1,2,3,4,5,6,0,7,8] and the blank at 6, a click on cell 8 gives the solved layout [1..8,0] with the blank at 8 |
| Game.GameOfFifteen.Valid | GameOfFifteen.java:42-59 | the field invariant every method keeps: the relations the constructor sets up between size, nbTiles, the array length and the pixel layout, the board an arrangement of 0 .. nbTiles, and blankPos the cell holding 0 (a definition, without a contract of its own) |
| Game.GameOfFifteen.constructor | GameOfFifteen.java:42-121 | sets nbTiles = size*size - 1, an array of size*size cells, gridSize = dim - 2*margin and tileSize = gridSize / size, then deals a new game: the board is the deal of the first supplied attempt that passes the parity rule (all earlier attempts fail it), blank at nbTiles, game not over |
| Game.GameOfFifteen.Reset | GameOfFifteen.java:134-143 | tiles becomes the solved layout ((i + 1) mod length in cell i), blankPos the last index, and the board invariant holds |
| Game.GameOfFifteen.Shuffle | GameOfFifteen.java:145-157 | the array becomes the Fisher-Yates pass of its old contents under the given draws; blankPos and the invariant are kept |
| Game.GameOfFifteen.IsSolvable | GameOfFifteen.java:163-176 | returns true exactly when the inversion count over the first nbTiles cells is even |
| Game.GameOfFifteen.IsSolved | GameOfFifteen.java:178-189 | returns true exactly when the board is 1, 2, ..., nbTiles, 0 |
| Game.GameOfFifteen.DealOnce | GameOfFifteen.java:126-128 | one pass of the retry loop's body: after reset and shuffle the board is the deal of the given draws, with the blank at nbTiles |
| Game.GameOfFifteen.NewGame | GameOfFifteen.java:124-132 | the board is the deal of the first attempt that passes the parity rule (all earlier attempts fail it); blankPos == nbTiles holds 0; the board is an arrangement; gameOver is false |
| Game.GameOfFifteen.SlideBlank | GameOfFifteen.java:99-110 | the do-while loop ends with the blank at clickPos and the array equal to the chained slide of its old contents |
| Game.GameOfFifteen.MoveTo | GameOfFifteen.java:84-113 | a press on the in-grid cell (row, col) leaves the board and the blank as Move says, keeps the board invariant, and sets gameOver exactly when the board is solved |
| Game.GameOfFifteen.Click | GameOfFifteen.java:64-114 | while gameOver, a press only deals a new game, the deal of the first attempt that passes the parity rule; a press failing the guard changes nothing; any other press applies the move of the clicked cell, and afterwards gameOver holds exactly when the board is solved; the board invariant is kept throughout |

## Left out

- Rendering, fonts, colours, `repaint()`, `setPreferredSize`, the `main` method and the `JFrame` setup are left out because they are UI and I/O.
- `java.util.Random` is left out. Its results are parameters, as described above.
- Game.GameOfFifteen.Click requires the clicked row and column to lie below size. The guard at line 77 does not ensure this. `tileSize = gridSize / size` truncates and the guard tests `> gridSize`, so `Moves.GuardAdmitsColumnOutsideGrid` shows that the right and bottom edges always pass the guard with column or row equal to size or more. With dimension 550, margin 30 and size 4, gridSize is 490 and tileSize is 122, so offsets 488 .. 490 give column or row 4. For such a click, the source computes a clickPos that wraps into the next row or falls off the array. That behaviour is not modelled.
- Game.GameOfFifteen.NewGame and Game.GameOfFifteen.constructor require that some attempt among those supplied deals a solvable board. The source's loop retries without bound and stops only with probability 1, so its termination is not modelled.
- Game.GameOfFifteen.constructor requires `1 <= size <= dim - 2*mar`. The source accepts any ints, but a smaller grid would divide by zero at line 52 or give tiles of width 0.
- Java's 32-bit `int` arithmetic is not modelled. Integers are unbounded in `size * size`, in `x - margin` and in `countInversions`. For the inversion counter this makes no difference: `Board.Inversions` is at most nbTiles * (nbTiles - 1) / 2, and a wrap-around would not change the parity anyway.
- The claim that every board passing the parity rule can be solved by legal moves is not modelled. It is a theorem about the puzzle's permutation group, not a property of this code.
- The click handler is split in three. `Click` keeps lines 67-82. `MoveTo` takes the blank's position, the direction and the final `isSolved()` (lines 84-113). `SlideBlank` holds the move loop (lines 102-109). Each runs where the source runs that code.
- The retry loop's body (lines 127-128) is the method `DealOnce`, which `NewGame` calls once per attempt.
- Java's `/` and `%` truncate towards zero, and Dafny's are Euclidean. They agree on every operand the handler divides: the offsets are non-negative after the guard, and blankPos is a valid index.
