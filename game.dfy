/** The puzzle panel's engine: the board array, the blank's index and the
    game-over flag, with the operations that reset, shuffle and deal a new
    game, test the board, and react to a mouse press. */
module Game {
  import opened Board
  import opened FisherYates
  import opened Moves

  class GameOfFifteen {
    /** Side of the grid, number of tiles, and the pixel layout, fixed at construction. */
    const size: int
    const nbTiles: int
    const dimension: int
    const margin: int
    const gridSize: int
    const tileSize: int
    /** The board, row-major; 0 is the blank. */
    const tiles: array<int>
    /** Index of the blank cell. */
    var blankPos: int
    /** True while the panel waits for a click to start a new game. */
    var gameOver: bool

    /** The relations the constructor establishes between the fixed fields. */
    ghost predicate Wellformed()
      reads this
    {
      size >= 1 && nbTiles == size * size - 1 && tiles.Length == size * size &&
      gridSize == dimension - 2 * margin && tileSize == gridSize / size && tileSize >= 1
    }

    /** The board invariant: the tiles are an arrangement of 0 .. nbTiles
        and blankPos holds the blank. */
    ghost predicate Valid()
      reads this, tiles
    {
      Wellformed() && 0 <= blankPos < tiles.Length && tiles[blankPos] == 0 && IsArrangement(tiles[..])
    }

    /** Lays out the fixed fields and deals the first game. `attempts` stands
        for the random draws of the successive shuffles. */
    constructor (size: int, dim: int, mar: int, attempts: seq<seq<int>>)
      requires 1 <= size <= dim - 2 * mar
      requires ValidAttempts(size * size, attempts) && SomeAttemptSolvable(size * size, attempts)
      ensures this.size == size && dimension == dim && margin == mar && Wellformed()
      ensures Valid() && !gameOver && blankPos == nbTiles && Solvable(tiles[..], nbTiles)
      ensures exists a :: 0 <= a < |attempts| && tiles[..] == Deal(tiles.Length, attempts[a]) &&
                forall e :: 0 <= e < a ==> !Solvable(Deal(tiles.Length, attempts[e]), nbTiles)
      ensures fresh(tiles)
    {
      this.size := size;
      dimension := dim;
      margin := mar;
      nbTiles := size * size - 1;
      tiles := new int[size * size];
      gridSize := dim - 2 * mar;
      tileSize := (dim - 2 * mar) / size;
      gameOver := true;
      new;
      TileSizePositive(dim - 2 * mar, size);
      NewGame(attempts);
    }

    /** Writes the solved layout and puts the blank in the last cell. */
    method Reset()
      requires Wellformed()
      modifies this`blankPos, tiles
      ensures Valid()
      ensures tiles[..] == SolvedBoard(tiles.Length) && blankPos == tiles.Length - 1
    {
      var i := 0;
      while i < tiles.Length
        invariant 0 <= i <= tiles.Length
        invariant forall q :: 0 <= q < i ==> tiles[q] == (q + 1) % tiles.Length
      {
        tiles[i] := (i + 1) % tiles.Length;
        i := i + 1;
      }
      blankPos := tiles.Length - 1;
      assert tiles[..] == SolvedBoard(tiles.Length);
      SolvedBoardAt(tiles.Length, tiles.Length - 1);
      SolvedBoardIsArrangement(tiles.Length);
    }

    /** One Fisher-Yates pass over the first nbTiles cells, the blank's home
        cell left out; draw k is the index `nextInt` returns on pass k. */
    method Shuffle(draws: seq<int>)
      requires Valid() && blankPos == nbTiles && ValidDraws(nbTiles, draws)
      modifies tiles
      ensures Valid() && blankPos == nbTiles
      ensures tiles[..] == ShuffleFrom(old(tiles[..]), nbTiles, draws)
    {
      var n := nbTiles;
      while n > 1
        invariant 0 <= n <= nbTiles
        invariant if nbTiles > 1 then 1 <= n else n == nbTiles
        invariant ValidDraws(n, draws[nbTiles - n..])
        invariant ShuffleFrom(tiles[..], n, draws[nbTiles - n..]) == ShuffleFrom(old(tiles[..]), nbTiles, draws)
      {
        ghost var before := tiles[..];
        ghost var rest := draws[nbTiles - n..];
        var r := draws[nbTiles - n];
        n := n - 1;
        var tmp := tiles[r];
        tiles[r] := tiles[n];
        tiles[n] := tmp;
        assert tiles[..] == Swap(before, rest[0], n);
        assert rest[1..] == draws[nbTiles - n..];
      }
      ShufflePermutesPrefix(old(tiles[..]), nbTiles, draws);
    }

    /** The parity rule: an even number of inversions among the first nbTiles cells. */
    method IsSolvable() returns (solvable: bool)
      requires Wellformed()
      ensures solvable <==> Solvable(tiles[..], nbTiles)
    {
      var countInversions := 0;
      for i := 0 to nbTiles
        invariant countInversions == Inversions(tiles[..], i)
      {
        for j := 0 to i
          invariant countInversions == Inversions(tiles[..], i) + CountAbove(tiles[..], tiles[i], j)
        {
          if tiles[j] > tiles[i] {
            countInversions := countInversions + 1;
          }
        }
      }
      return countInversions % 2 == 0;
    }

    /** The goal test: the board is exactly 1, 2, ..., nbTiles, 0. */
    method IsSolved() returns (solved: bool)
      requires Wellformed()
      ensures solved <==> tiles[..] == SolvedBoard(tiles.Length)
    {
      GoalTest(tiles[..]);
      if tiles[tiles.Length - 1] != 0 {
        return false;
      }
      var i := nbTiles - 1;
      while i >= 0
        invariant -1 <= i < nbTiles
        invariant forall q :: i < q < nbTiles ==> tiles[q] == q + 1
      {
        if tiles[i] != i + 1 {
          return false;
        }
        i := i - 1;
      }
      return true;
    }

    /** One pass of the retry loop's body: reset, then shuffle with the
        given draws. */
    method DealOnce(draws: seq<int>)
      requires Wellformed() && ValidDraws(nbTiles, draws)
      modifies this`blankPos, tiles
      ensures Valid() && blankPos == nbTiles
      ensures tiles[..] == Deal(tiles.Length, draws)
    {
      Reset();
      Shuffle(draws);
    }

    /** Resets and shuffles, attempt after attempt, until the board passes the
        parity rule, then starts the game. The board dealt is the one of the
        first attempt that passes. */
    method NewGame(attempts: seq<seq<int>>)
      requires Wellformed()
      requires ValidAttempts(tiles.Length, attempts) && SomeAttemptSolvable(tiles.Length, attempts)
      modifies this`blankPos, this`gameOver, tiles
      ensures Valid() && !gameOver && blankPos == nbTiles && tiles[blankPos] == 0
      ensures Solvable(tiles[..], nbTiles)
      ensures exists a :: 0 <= a < |attempts| && tiles[..] == Deal(tiles.Length, attempts[a]) &&
                forall e :: 0 <= e < a ==> !Solvable(Deal(tiles.Length, attempts[e]), nbTiles)
    {
      var t := 0;
      var solvable := false;
      while !solvable
        invariant 0 <= t <= |attempts|
        invariant forall e :: 0 <= e < t - 1 ==> !Solvable(Deal(tiles.Length, attempts[e]), nbTiles)
        invariant t == 0 ==> !solvable
        invariant t > 0 ==> Valid() && blankPos == nbTiles && tiles[..] == Deal(tiles.Length, attempts[t - 1])
        invariant t > 0 ==> (solvable <==> Solvable(tiles[..], nbTiles))
        decreases |attempts| - t
      {
        ghost var a :| 0 <= a < |attempts| && Solvable(Deal(tiles.Length, attempts[a]), nbTiles);
        assert forall e :: 0 <= e < t ==> !Solvable(Deal(tiles.Length, attempts[e]), nbTiles);
        assert t <= a;
        var draws := attempts[t];
        DealOnce(draws);
        ghost var dealt := tiles[..];
        t := t + 1;
        solvable := IsSolvable();
        assert attempts[t - 1] == draws && tiles[..] == dealt;
      }
      gameOver := false;
    }

    /** The move loop of the click handler: the tile one dir step beyond the
        blank moves into the blank's cell and the blank advances, until the
        blank reaches clickPos, k steps away; then that cell is cleared. */
    method SlideBlank(dir: int, clickPos: int, ghost k: nat)
      requires 0 <= blankPos < tiles.Length && dir != 0 && k > 0
      requires PathCell(blankPos, dir, k) == clickPos && 0 <= clickPos < tiles.Length
      modifies this`blankPos, tiles
      ensures blankPos == clickPos
      ensures tiles[..] == Shift(old(tiles[..]), old(blankPos), dir, k)
    {
      ghost var rem: nat := k;
      var done := false;
      while !done
        invariant 0 <= blankPos < tiles.Length
        invariant PathCell(blankPos, dir, rem) == clickPos
        invariant done <==> rem == 0
        invariant Shift(tiles[..], blankPos, dir, rem) == Shift(old(tiles[..]), old(blankPos), dir, k)
        decreases rem
      {
        PathInRange(blankPos, dir, rem, tiles.Length);
        assert PathCell(blankPos, dir, 1) == blankPos + dir;
        PathShift(blankPos, dir, rem - 1);
        ghost var was := tiles[..];
        var newBlankPos := blankPos + dir;
        tiles[blankPos] := tiles[newBlankPos];
        assert tiles[..] == was[blankPos := was[newBlankPos]];
        blankPos := newBlankPos;
        rem := rem - 1;
        done := blankPos == clickPos;
        if done && rem > 0 {
          PathInjective(blankPos, dir, 0, rem);
        }
      }
      tiles[blankPos] := 0;
    }

    /** The handler's response to a press on the in-grid cell (row, col):
        when the cell shares the blank's row or column and is not the blank,
        the tiles in between slide one step each and the blank lands on it;
        then the game is over exactly when the board is solved. */
    method MoveTo(row: int, col: int)
      requires Valid() && 0 <= row < size && 0 <= col < size
      modifies this`blankPos, this`gameOver, tiles
      ensures Valid()
      ensures var m := Move(Puzzle(old(tiles[..]), old(blankPos)), size, row, col);
              tiles[..] == m.tiles && blankPos == m.blank
      ensures gameOver <==> tiles[..] == SolvedBoard(tiles.Length)
    {
      var c2 := blankPos % size;
      var r2 := blankPos / size;
      var clickPos := row * size + col;
      var dir := 0;
      if col == c2 && Abs(row - r2) > 0 {
        dir := if row - r2 > 0 then size else -size;
      } else if row == r2 && Abs(col - c2) > 0 {
        dir := if col - c2 > 0 then 1 else -1;
      }
      assert dir == Direction(size, row, col, r2, c2);
      MoveKeepsArrangement(tiles[..], blankPos, size, row, col);
      if dir != 0 {
        ClickOnPath(size, blankPos, row, col);
        SlideBlank(dir, clickPos, Steps(row, col, r2, c2));
      }
      gameOver := IsSolved();
    }

    /** A mouse press at (x, y): while the panel waits, it deals a new game;
        otherwise a press inside the grid moves the blank towards the pressed
        cell and the game ends once the board is solved. */
    method Click(x: int, y: int, attempts: seq<seq<int>>)
      requires Valid()
      requires gameOver ==> ValidAttempts(tiles.Length, attempts) && SomeAttemptSolvable(tiles.Length, attempts)
      requires !gameOver && CellAt(x - margin, y - margin, gridSize, tileSize).Some? ==>
                 CellAt(x - margin, y - margin, gridSize, tileSize).value.row < size &&
                 CellAt(x - margin, y - margin, gridSize, tileSize).value.col < size
      modifies this`blankPos, this`gameOver, tiles
      ensures Valid()
      ensures old(gameOver) ==>
                !gameOver && blankPos == nbTiles && Solvable(tiles[..], nbTiles) &&
                exists a :: 0 <= a < |attempts| && tiles[..] == Deal(tiles.Length, attempts[a]) &&
                  forall e :: 0 <= e < a ==> !Solvable(Deal(tiles.Length, attempts[e]), nbTiles)
      ensures !old(gameOver) && CellAt(x - margin, y - margin, gridSize, tileSize).None? ==>
                tiles[..] == old(tiles[..]) && blankPos == old(blankPos) && !gameOver
      ensures !old(gameOver) && CellAt(x - margin, y - margin, gridSize, tileSize).Some? ==>
                var c := CellAt(x - margin, y - margin, gridSize, tileSize).value;
                var m := Move(Puzzle(old(tiles[..]), old(blankPos)), size, c.row, c.col);
                tiles[..] == m.tiles && blankPos == m.blank &&
                (gameOver <==> tiles[..] == SolvedBoard(tiles.Length))
    {
      if gameOver {
        NewGame(attempts);
      } else {
        var ex := x - margin;
        var ey := y - margin;
        if ex < 0 || ex > gridSize || ey < 0 || ey > gridSize {
          return;
        }
        var c1 := ex / tileSize;
        var r1 := ey / tileSize;
        MoveTo(r1, c1);
      }
    }
  }
}
