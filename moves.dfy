/** What one click on the grid does to the board: the pixel-to-cell
    translation, the direction the blank travels, and the chained slide that
    moves every tile between the blank and the clicked cell one step. */
module Moves {
  import opened Board

  datatype Option<T> = None | Some(value: T)

  /** A grid cell by row and column. */
  datatype Cell = Cell(row: int, col: int)

  /** The board together with the index of its blank cell. */
  datatype Puzzle = Puzzle(tiles: seq<int>, blank: int)

  function Abs(a: int): nat
  {
    if a < 0 then -a else a
  }

  lemma MulLe(j: int, k: int, d: int)
    requires j <= k && d >= 0
    ensures j * d <= k * d
  {
    assert (k - j) * d >= 0;
  }

  lemma DivModOf(a: int, d: int, q: int, r: int)
    requires d > 0 && 0 <= r < d && a == q * d + r
    ensures a / d == q && a % d == r
  {
    var q', r' := a / d, a % d;
    assert a == q' * d + r';
    if q' > q {
      MulLe(q + 1, q', d);
      assert false;
    } else if q' < q {
      MulLe(q' + 1, q, d);
      assert false;
    }
  }

  /** The cell under a click at offset (ex, ey) from the grid's corner, as
      the click handler finds it: None when the point fails the guard
      `ex < 0 || ex > gridSize || ey < 0 || ey > gridSize`, otherwise the
      column and row whose tile span contains the point. */
  function CellAt(ex: int, ey: int, gridSize: int, tileSize: int): (r: Option<Cell>)
    requires tileSize > 0
    ensures r.Some? <==> 0 <= ex <= gridSize && 0 <= ey <= gridSize
    ensures r.Some? ==> 0 <= r.value.col && r.value.col * tileSize <= ex < (r.value.col + 1) * tileSize
    ensures r.Some? ==> 0 <= r.value.row && r.value.row * tileSize <= ey < (r.value.row + 1) * tileSize
  {
    if ex < 0 || ex > gridSize || ey < 0 || ey > gridSize then None
    else Some(Cell(ey / tileSize, ex / tileSize))
  }

  /** A point that passes the guard lands on a cell of the size-by-size
      grid exactly when it lies within the size tiles of each axis. */
  lemma CellInGridIff(ex: int, ey: int, gridSize: int, tileSize: int, size: int)
    requires tileSize > 0 && CellAt(ex, ey, gridSize, tileSize).Some?
    ensures var c := CellAt(ex, ey, gridSize, tileSize).value;
            c.row < size && c.col < size <==> ex < size * tileSize && ey < size * tileSize
  {
    var c := CellAt(ex, ey, gridSize, tileSize).value;
    if c.col < size {
      MulLe(c.col + 1, size, tileSize);
    } else {
      MulLe(size, c.col, tileSize);
    }
    if c.row < size {
      MulLe(c.row + 1, size, tileSize);
    } else {
      MulLe(size, c.row, tileSize);
    }
  }

  /** A grid at least one pixel per column gives tiles at least one pixel wide. */
  lemma TileSizePositive(gridSize: int, size: int)
    requires 1 <= size <= gridSize
    ensures gridSize / size >= 1
  {
  }

  /** Because `tileSize = gridSize / size` truncates and the guard uses
      `> gridSize`, the guard always admits the right edge `ex == gridSize`,
      where the column is at least size, and likewise the bottom edge
      `ey == gridSize`, where the row is at least size: outside the grid. */
  lemma GuardAdmitsColumnOutsideGrid(gridSize: int, size: int)
    requires 1 <= size <= gridSize
    ensures var c := CellAt(gridSize, 0, gridSize, gridSize / size);
            c.Some? && c.value.col >= size
    ensures var c := CellAt(0, gridSize, gridSize, gridSize / size);
            c.Some? && c.value.row >= size
  {
    var t := gridSize / size;
    TileSizePositive(gridSize, size);
    assert t * size <= gridSize;
    CellInGridIff(gridSize, 0, gridSize, t, size);
    CellInGridIff(0, gridSize, gridSize, t, size);
  }

  /** The direction of the blank's travel chosen by the `mousePressed`
      handler of `GameOfFifteen`: one row down or up when the click shares
      the blank's column, one column right or left when it shares the
      blank's row, and 0 otherwise. */
  function Direction(size: int, row: int, col: int, blankRow: int, blankCol: int): (r: int)
    ensures size >= 1 ==> (r != 0 <==> (col == blankCol) != (row == blankRow))
  {
    if col == blankCol && Abs(row - blankRow) > 0 then (if row - blankRow > 0 then size else -size)
    else if row == blankRow && Abs(col - blankCol) > 0 then (if col - blankCol > 0 then 1 else -1)
    else 0
  }

  /** Number of single slides between the blank and the clicked cell. */
  function Steps(row: int, col: int, blankRow: int, blankCol: int): nat
  {
    Abs(row - blankRow) + Abs(col - blankCol)
  }

  /** The cell the blank occupies after j steps of dir from b. */
  function PathCell(b: int, dir: int, j: nat): int
  {
    if j == 0 then b else PathCell(b, dir, j - 1) + dir
  }

  /** q is one of the cells the blank visits in k steps of dir from b. */
  ghost predicate OnPath(b: int, dir: int, k: nat, q: int)
  {
    exists j: nat :: j <= k && q == PathCell(b, dir, j)
  }

  lemma {:induction false} PathCellClosedForm(b: int, dir: int, j: nat)
    ensures PathCell(b, dir, j) == b + j * dir
  {
    if j > 0 {
      PathCellClosedForm(b, dir, j - 1);
      assert j * dir == (j - 1) * dir + dir;
    }
  }

  /** A path from b that starts with one step is the path from b + dir. */
  lemma {:induction false} PathShift(b: int, dir: int, j: nat)
    ensures PathCell(b + dir, dir, j) == PathCell(b, dir, j + 1)
  {
    if j > 0 {
      PathShift(b, dir, j - 1);
    }
  }

  lemma {:induction false} PathMonotone(b: int, dir: int, i: nat, j: nat)
    requires i < j
    ensures dir > 0 ==> PathCell(b, dir, i) < PathCell(b, dir, j)
    ensures dir < 0 ==> PathCell(b, dir, i) > PathCell(b, dir, j)
  {
    if i < j - 1 {
      PathMonotone(b, dir, i, j - 1);
    }
  }

  /** A path with a nonzero step visits distinct cells. */
  lemma PathInjective(b: int, dir: int, i: nat, j: nat)
    requires dir != 0 && PathCell(b, dir, i) == PathCell(b, dir, j)
    ensures i == j
  {
    if i < j {
      PathMonotone(b, dir, i, j);
    } else if j < i {
      PathMonotone(b, dir, j, i);
    }
  }

  /** If both ends of a path lie on the board, so does every cell between. */
  lemma PathInRange(b: int, dir: int, k: nat, n: int)
    requires dir != 0 && 0 <= b < n && 0 <= PathCell(b, dir, k) < n
    ensures forall j: nat :: j <= k ==> 0 <= PathCell(b, dir, j) < n
  {
    forall j: nat | j <= k
      ensures 0 <= PathCell(b, dir, j) < n
    {
      if 0 < j {
        PathMonotone(b, dir, 0, j);
      }
      if j < k {
        PathMonotone(b, dir, j, k);
      }
    }
  }

  /** A cell on the path that starts one step further on is on the path. */
  lemma PathTailOnPath(b: int, dir: int, k: nat, q: int)
    requires k > 0 && OnPath(b + dir, dir, k - 1, q)
    ensures OnPath(b, dir, k, q)
  {
    var i: nat :| i <= k - 1 && q == PathCell(b + dir, dir, i);
    PathShift(b, dir, i);
  }

  /** The board the move loop leaves: k times, the tile one dir step beyond
      the blank moves into the blank's cell and the blank advances; then the
      blank's final cell is set to 0. */
  function Shift(s: seq<int>, b: int, dir: int, k: nat): (r: seq<int>)
    requires dir != 0 && 0 <= b < |s| && 0 <= PathCell(b, dir, k) < |s|
    ensures |r| == |s|
    decreases k
  {
    if k == 0 then s[b := 0]
    else
      PathInRange(b, dir, k, |s|);
      assert PathCell(b, dir, 1) == b + dir;
      PathShift(b, dir, k - 1);
      Shift(s[b := s[b + dir]], b + dir, dir, k - 1)
  }

  /** The chained slide leaves every cell off the blank's path as it was. */
  lemma {:induction false} ShiftOffPath(s: seq<int>, b: int, dir: int, k: nat)
    requires dir != 0 && 0 <= b < |s| && 0 <= PathCell(b, dir, k) < |s|
    ensures forall q :: 0 <= q < |s| && !OnPath(b, dir, k, q) ==> Shift(s, b, dir, k)[q] == s[q]
    decreases k
  {
    if k == 0 {
      forall q | 0 <= q < |s| && !OnPath(b, dir, k, q)
        ensures Shift(s, b, dir, k)[q] == s[q]
      {
        assert q != PathCell(b, dir, 0);
      }
    } else {
      ShiftStep(s, b, dir, k);
      var b' := b + dir;
      var s' := s[b := s[b']];
      ShiftOffPath(s', b', dir, k - 1);
      forall q | 0 <= q < |s| && !OnPath(b, dir, k, q)
        ensures Shift(s, b, dir, k)[q] == s[q]
      {
        assert q != PathCell(b, dir, 0);
        if OnPath(b', dir, k - 1, q) {
          PathTailOnPath(b, dir, k, q);
        }
      }
    }
  }

  /** A path never comes back to the cell it started from. */
  lemma StartLeavesPath(b: int, dir: int, k: nat)
    requires dir != 0
    ensures !OnPath(b + dir, dir, k, b)
  {
    if OnPath(b + dir, dir, k, b) {
      var i: nat :| i <= k && b == PathCell(b + dir, dir, i);
      PathShift(b, dir, i);
      PathInjective(b, dir, 0, i + 1);
    }
  }

  /** The chained slide leaves the blank at the far end of its path. */
  lemma {:induction false} ShiftEndsBlank(s: seq<int>, b: int, dir: int, k: nat)
    requires dir != 0 && 0 <= b < |s| && 0 <= PathCell(b, dir, k) < |s|
    ensures Shift(s, b, dir, k)[PathCell(b, dir, k)] == 0
    decreases k
  {
    if k > 0 {
      ShiftStep(s, b, dir, k);
      ShiftEndsBlank(s[b := s[b + dir]], b + dir, dir, k - 1);
    }
  }

  /** Cell j of the blank's path, short of its far end, receives the tile
      that stood at cell j + 1. */
  lemma {:induction false} ShiftPathCell(s: seq<int>, b: int, dir: int, k: nat, j: nat)
    requires dir != 0 && 0 <= b < |s| && 0 <= PathCell(b, dir, k) < |s| && j < k
    ensures 0 <= PathCell(b, dir, j) < |s| && 0 <= PathCell(b, dir, j + 1) < |s|
    ensures Shift(s, b, dir, k)[PathCell(b, dir, j)] == s[PathCell(b, dir, j + 1)]
    decreases k
  {
    PathInRange(b, dir, k, |s|);
    ShiftStep(s, b, dir, k);
    var b' := b + dir;
    var s' := s[b := s[b']];
    if j == 0 {
      StartLeavesPath(b, dir, k - 1);
      ShiftOffPath(s', b', dir, k - 1);
    } else {
      PathShift(b, dir, j);
      PathShift(b, dir, j - 1);
      ShiftPathCell(s', b', dir, k - 1, j - 1);
      if PathCell(b, dir, j + 1) == b {
        PathInjective(b, dir, 0, j + 1);
      }
    }
  }

  /** The chained slide along the blank's path: the blank ends at the far
      end, and every earlier cell of the path holds the tile that was one
      step further along. */
  lemma ShiftOnPath(s: seq<int>, b: int, dir: int, k: nat)
    requires dir != 0 && 0 <= b < |s| && 0 <= PathCell(b, dir, k) < |s|
    ensures forall j: nat :: j <= k ==> 0 <= PathCell(b, dir, j) < |s|
    ensures Shift(s, b, dir, k)[PathCell(b, dir, k)] == 0
    ensures forall j: nat {:trigger Shift(s, b, dir, k)[PathCell(b, dir, j)]} :: j < k ==>
              Shift(s, b, dir, k)[PathCell(b, dir, j)] == s[PathCell(b, dir, j + 1)]
  {
    PathInRange(b, dir, k, |s|);
    ShiftEndsBlank(s, b, dir, k);
    forall j: nat | j < k
      ensures Shift(s, b, dir, k)[PathCell(b, dir, j)] == s[PathCell(b, dir, j + 1)]
    {
      ShiftPathCell(s, b, dir, k, j);
    }
  }

  /** One step of the chained slide: the tile beyond the blank moves in and
      the rest of the path starts one cell further on. */
  lemma ShiftStep(s: seq<int>, b: int, dir: int, k: nat)
    requires dir != 0 && 0 <= b < |s| && 0 <= PathCell(b, dir, k) < |s| && k > 0
    ensures 0 <= b + dir < |s| && PathCell(b + dir, dir, k - 1) == PathCell(b, dir, k)
    ensures Shift(s, b, dir, k) == Shift(s[b := s[b + dir]], b + dir, dir, k - 1)
  {
    PathInRange(b, dir, k, |s|);
    assert PathCell(b, dir, 1) == b + dir;
    PathShift(b, dir, k - 1);
  }

  /** Moving the tile at c into the blank at b and clearing c keeps the
      multiset of the board with b cleared. */
  lemma SlideOneMultiset(s: seq<int>, b: int, c: int)
    requires 0 <= b < |s| && 0 <= c < |s| && b != c
    ensures multiset(s[b := s[c]][c := 0]) == multiset(s[b := 0])
  {
    var u := s[b := 0];
    assert s[b := s[c]][c := 0] == u[b := u[c]][c := u[b]];
  }

  /** The chained slide only moves tiles: apart from the blank it started
      from, it keeps the board's multiset of tiles. */
  lemma {:induction false} ShiftMultiset(s: seq<int>, b: int, dir: int, k: nat)
    requires dir != 0 && 0 <= b < |s| && 0 <= PathCell(b, dir, k) < |s|
    ensures multiset(Shift(s, b, dir, k)) == multiset(s[b := 0])
    decreases k
  {
    if k > 0 {
      ShiftStep(s, b, dir, k);
      ShiftMultiset(s[b := s[b + dir]], b + dir, dir, k - 1);
      SlideOneMultiset(s, b, b + dir);
    }
  }

  lemma CellIndexInRange(size: int, row: int, col: int)
    requires 0 <= row < size && 0 <= col < size
    ensures 0 <= row * size + col < size * size
  {
    MulLe(0, row, size);
    MulLe(row, size - 1, size);
  }

  lemma Distrib(a: int, b: int, c: int)
    ensures (a - b) * c == a * c - b * c
  {
  }

  /** With the blank at row blankRow and column blankCol, Steps steps in the
      chosen direction lead the blank to the clicked cell. */
  lemma {:induction false} LineReachesClick(size: int, blankRow: int, blankCol: int, row: int, col: int)
    requires Direction(size, row, col, blankRow, blankCol) != 0
    ensures PathCell(blankRow * size + blankCol, Direction(size, row, col, blankRow, blankCol),
                     Steps(row, col, blankRow, blankCol)) == row * size + col
  {
    var dir := Direction(size, row, col, blankRow, blankCol);
    var k := Steps(row, col, blankRow, blankCol);
    PathCellClosedForm(blankRow * size + blankCol, dir, k);
    if col == blankCol && row > blankRow {
      assert dir == size && k == row - blankRow;
      Distrib(row, blankRow, size);
    } else if col == blankCol {
      assert dir == -size && k == blankRow - row;
      Distrib(blankRow, row, size);
      assert k * dir == -((blankRow - row) * size);
    } else if col > blankCol {
      assert dir == 1 && k == col - blankCol;
    } else {
      assert dir == -1 && k == blankCol - col;
    }
  }

  /** The clicked cell lies on the board, and when the click picks a
      direction, Steps steps of it lead the blank exactly there. */
  lemma ClickOnPath(size: int, blank: int, row: int, col: int)
    requires size >= 1 && 0 <= blank < size * size
    requires 0 <= row < size && 0 <= col < size
    ensures 0 <= row * size + col < size * size
    ensures Direction(size, row, col, blank / size, blank % size) != 0 ==>
              PathCell(blank, Direction(size, row, col, blank / size, blank % size),
                       Steps(row, col, blank / size, blank % size)) == row * size + col
  {
    CellIndexInRange(size, row, col);
    var blankRow, blankCol := blank / size, blank % size;
    assert blank == blankRow * size + blankCol;
    if Direction(size, row, col, blankRow, blankCol) != 0 {
      LineReachesClick(size, blankRow, blankCol, row, col);
    }
  }

  /** The effect of a click on the in-grid cell (row, col): when it shares
      the blank's column or row and is not the blank, the chained slide of
      the `mousePressed` handler's move loop; otherwise nothing. */
  function Move(p: Puzzle, size: int, row: int, col: int): (r: Puzzle)
    requires size >= 1 && |p.tiles| == size * size && 0 <= p.blank < |p.tiles|
    requires 0 <= row < size && 0 <= col < size
    ensures |r.tiles| == |p.tiles| && 0 <= r.blank < |r.tiles|
    ensures r.blank == p.blank || r.blank == row * size + col
  {
    var blankCol := p.blank % size;
    var blankRow := p.blank / size;
    var dir := Direction(size, row, col, blankRow, blankCol);
    if dir == 0 then p
    else
      ClickOnPath(size, p.blank, row, col);
      Puzzle(Shift(p.tiles, p.blank, dir, Steps(row, col, blankRow, blankCol)), row * size + col)
  }

  /** Everything the chained slide does, for a path of k steps of dir that
      starts at the blank b and ends at target on the board. */
  lemma SlideFacts(s: seq<int>, b: int, dir: int, k: nat, target: int)
    requires dir != 0 && 0 <= b < |s| && s[b] == 0
    requires PathCell(b, dir, k) == target && 0 <= target < |s|
    ensures forall j: nat :: j <= k ==> 0 <= PathCell(b, dir, j) < |s|
    ensures |Shift(s, b, dir, k)| == |s| && Shift(s, b, dir, k)[target] == 0
    ensures multiset(Shift(s, b, dir, k)) == multiset(s)
    ensures forall j: nat {:trigger Shift(s, b, dir, k)[PathCell(b, dir, j)]} :: j < k ==>
              Shift(s, b, dir, k)[PathCell(b, dir, j)] == s[PathCell(b, dir, j + 1)]
    ensures forall q :: 0 <= q < |s| && !OnPath(b, dir, k, q) ==> Shift(s, b, dir, k)[q] == s[q]
  {
    ShiftOnPath(s, b, dir, k);
    ShiftOffPath(s, b, dir, k);
    ShiftMultiset(s, b, dir, k);
    assert s[b := 0] == s;
  }

  /** On a straight line from the blank, the direction is one row or one
      column towards the clicked cell. */
  lemma LineDirection(size: int, blank: int, row: int, col: int)
    requires size >= 1
    requires (col == blank % size && row != blank / size) || (row == blank / size && col != blank % size)
    ensures Direction(size, row, col, blank / size, blank % size) ==
              if col == blank % size then (if row > blank / size then size else -size)
              else (if col > blank % size then 1 else -1)
    ensures Direction(size, row, col, blank / size, blank % size) != 0
  {
  }

  /** A click that picks a direction is the chained slide from the blank,
      ending with the blank on the clicked cell. */
  lemma MoveIsShift(s: seq<int>, blank: int, size: int, row: int, col: int)
    requires size >= 1 && |s| == size * size && 0 <= blank < |s|
    requires 0 <= row < size && 0 <= col < size
    requires Direction(size, row, col, blank / size, blank % size) != 0
    ensures 0 <= row * size + col < |s|
    ensures PathCell(blank, Direction(size, row, col, blank / size, blank % size),
                     Steps(row, col, blank / size, blank % size)) == row * size + col
    ensures Move(Puzzle(s, blank), size, row, col) ==
              Puzzle(Shift(s, blank, Direction(size, row, col, blank / size, blank % size),
                           Steps(row, col, blank / size, blank % size)), row * size + col)
  {
    ClickOnPath(size, blank, row, col);
  }

  /** A click on a cell that shares the blank's column (and not its row) or
      its row (and not its column) moves the blank onto the clicked cell,
      shifting each tile on the way one step towards the blank's old cell
      and leaving every other cell and the multiset of tiles unchanged. */
  lemma MoveSlides(s: seq<int>, blank: int, size: int, row: int, col: int)
    requires size >= 1 && |s| == size * size && 0 <= blank < |s| && s[blank] == 0
    requires 0 <= row < size && 0 <= col < size
    requires (col == blank % size && row != blank / size) || (row == blank / size && col != blank % size)
    ensures 0 <= row * size + col < |s|
    ensures Direction(size, row, col, blank / size, blank % size) ==
              if col == blank % size then (if row > blank / size then size else -size)
              else (if col > blank % size then 1 else -1)
    ensures Steps(row, col, blank / size, blank % size) == Abs(row - blank / size) + Abs(col - blank % size)
    ensures var dir, k := Direction(size, row, col, blank / size, blank % size), Steps(row, col, blank / size, blank % size);
            (forall j: nat :: j <= k ==> 0 <= PathCell(blank, dir, j) < |s|) &&
            PathCell(blank, dir, k) == row * size + col
    ensures var m := Move(Puzzle(s, blank), size, row, col);
            m.blank == row * size + col && |m.tiles| == |s| && m.tiles[m.blank] == 0
    ensures multiset(Move(Puzzle(s, blank), size, row, col).tiles) == multiset(s)
    ensures var m := Move(Puzzle(s, blank), size, row, col);
            var dir, k := Direction(size, row, col, blank / size, blank % size), Steps(row, col, blank / size, blank % size);
            (forall j: nat :: j < k ==> m.tiles[PathCell(blank, dir, j)] == s[PathCell(blank, dir, j + 1)]) &&
            (forall q :: 0 <= q < |s| && !OnPath(blank, dir, k, q) ==> m.tiles[q] == s[q])
  {
    LineDirection(size, blank, row, col);
    MoveIsShift(s, blank, size, row, col);
    SlideFacts(s, blank, Direction(size, row, col, blank / size, blank % size),
               Steps(row, col, blank / size, blank % size), row * size + col);
  }

  /** A click on the blank itself, or on a cell sharing neither its row nor
      its column, moves nothing. */
  lemma MoveStays(s: seq<int>, blank: int, size: int, row: int, col: int)
    requires size >= 1 && |s| == size * size && 0 <= blank < |s|
    requires 0 <= row < size && 0 <= col < size
    requires (row == blank / size) == (col == blank % size)
    ensures Move(Puzzle(s, blank), size, row, col) == Puzzle(s, blank)
  {
  }

  /** Every click keeps the board an arrangement with the blank where the
      puzzle says it is. */
  lemma MoveKeepsArrangement(s: seq<int>, blank: int, size: int, row: int, col: int)
    requires size >= 1 && |s| == size * size && 0 <= blank < |s| && s[blank] == 0
    requires IsArrangement(s)
    requires 0 <= row < size && 0 <= col < size
    ensures var m := Move(Puzzle(s, blank), size, row, col);
            |m.tiles| == |s| && 0 <= m.blank < |s| && m.tiles[m.blank] == 0 && IsArrangement(m.tiles)
  {
    if (row == blank / size) != (col == blank % size) {
      MoveSlides(s, blank, size, row, col);
    }
  }

  /** The solved layout of the 3-by-3 board, written out. */
  lemma SolvedNine()
    ensures SolvedBoard(9) == [1, 2, 3, 4, 5, 6, 7, 8, 0]
  {
    forall i | 0 <= i < 9
      ensures SolvedBoard(9)[i] == [1, 2, 3, 4, 5, 6, 7, 8, 0][i]
    {
      SolvedBoardAt(9, i);
    }
  }

  /** From the solved layout of any grid at least 3 wide, a click two cells
      left of the blank along the last row slides both tiles in between one
      step right and leaves the blank two cells left of home. */
  lemma ChainFromSolved(size: int)
    requires size >= 3
    ensures var n := size * size;
            Move(Puzzle(SolvedBoard(n), n - 1), size, size - 1, size - 3) ==
            Puzzle(SolvedBoard(n)[n - 1 := n - 1][n - 2 := n - 2][n - 3 := 0], n - 3)
  {
    var n := size * size;
    MulLe(3, size, size);
    DivModOf(n - 1, size, size - 1, size - 1);
    var s := SolvedBoard(n);
    SolvedBoardAt(n, n - 1);
    SolvedBoardAt(n, n - 2);
    SolvedBoardAt(n, n - 3);
    assert Direction(size, size - 1, size - 3, size - 1, size - 1) == -1;
    assert (size - 1) * size + (size - 3) == n - 3;
    assert PathCell(n - 1, -1, 1) == n - 2 && PathCell(n - 1, -1, 2) == n - 3;
    assert Shift(s, n - 1, -1, 2) == Shift(s[n - 1 := s[n - 2]], n - 2, -1, 1)
        == Shift(s[n - 1 := s[n - 2]][n - 2 := s[n - 3]], n - 3, -1, 0);
  }

  /** The click back: on the board ChainFromSolved leaves, a click on the
      last cell slides the two tiles back and restores the solved layout. */
  lemma ChainToSolved(size: int)
    requires size >= 3
    ensures var n := size * size;
            Move(Puzzle(SolvedBoard(n)[n - 1 := n - 1][n - 2 := n - 2][n - 3 := 0], n - 3), size, size - 1, size - 1) ==
            Puzzle(SolvedBoard(n), n - 1)
  {
    var n := size * size;
    MulLe(3, size, size);
    DivModOf(n - 3, size, size - 1, size - 3);
    var s := SolvedBoard(n);
    SolvedBoardAt(n, n - 1);
    SolvedBoardAt(n, n - 2);
    SolvedBoardAt(n, n - 3);
    var t := s[n - 1 := n - 1][n - 2 := n - 2][n - 3 := 0];
    assert Direction(size, size - 1, size - 1, size - 1, size - 3) == 1;
    assert (size - 1) * size + (size - 1) == n - 1;
    assert PathCell(n - 3, 1, 1) == n - 2 && PathCell(n - 3, 1, 2) == n - 1;
    assert Shift(t, n - 3, 1, 2) == Shift(t[n - 3 := t[n - 2]], n - 2, 1, 1)
        == Shift(t[n - 3 := t[n - 2]][n - 2 := t[n - 1]], n - 1, 1, 0);
    assert t[n - 3 := t[n - 2]][n - 2 := t[n - 1]][n - 1 := 0] == s;
  }

  /** The 3-by-3 end-to-end case: with the board 1 2 3 / 4 5 6 / 0 7 8 and
      the blank in cell 6, a click on cell 8 (same row, two to the right)
      slides tiles 7 and 8 left and leaves the solved layout 1 .. 8, 0. */
  lemma ThreeByThreeScenario(start: seq<int>)
    requires start == [1, 2, 3, 4, 5, 6, 0, 7, 8]
    ensures Move(Puzzle(start, 6), 3, 2, 2) == Puzzle(SolvedBoard(9), 8)
    ensures SolvedBoard(9) == [1, 2, 3, 4, 5, 6, 7, 8, 0]
  {
    SolvedNine();
    assert start == SolvedBoard(9)[8 := 8][7 := 7][6 := 0];
    ChainToSolved(3);
  }
}
