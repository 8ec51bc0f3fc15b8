/** The Minesweeper board engine: the class that holds the hidden board, what
    the player sees, and the game-over and win flags, and updates them in place. */
module Minesweeper {
  import opened Board

  /** What `reveal` returns: None, 'mine' or 'safe'. */
  datatype RevealResult = NotApplicable | Mine | Safe

  /** The 'U' <-> 'F' switch of `toggle_flag`; any other state stays. */
  function Toggled(c: Cell): (r: Cell)
  {
    if c == U then F else if c == F then U else c
  }

  /** Toggling twice gives back the cell, and toggling never changes what the win check counts. */
  lemma ToggledInvolution(c: Cell)
    ensures Toggled(Toggled(c)) == c
    ensures IsRevealed(Toggled(c)) == IsRevealed(c) && (Toggled(c) == Star <==> c == Star)
    ensures Toggled(c).Num? ==> Toggled(c) == c
  {
  }

  /** Toggling the same cell of a grid twice gives back the grid. */
  lemma ToggleTwiceRestores(v: seq<seq<Cell>>, x: int, y: int)
    requires 0 <= x < |v| && 0 <= y < |v[x]|
    ensures var v1 := Updated(v, x, y, Toggled(v[x][y]));
            Updated(v1, x, y, Toggled(v1[x][y])) == v
  {
    ToggledInvolution(v[x][y]);
    var v1 := Updated(v, x, y, Toggled(v[x][y]));
    assert v1[x][y := Toggled(v1[x][y])] == v[x];
  }

  class MinesweeperGame {
    const width: nat
    const height: nat
    const numMines: nat
    /** The hidden board: MineMark (-1) for a mine, otherwise the adjacency count. */
    var board: seq<seq<int>>
    /** What the player sees of each cell. */
    var visibleBoard: seq<seq<Cell>>
    var gameOver: bool
    var win: bool

    ghost predicate Shaped()
      reads this
    {
      Shape(board, height, width) && Shape(visibleBoard, height, width)
    }

    /** The engine's invariant after construction: every safe cell holds its
        adjacency count, there are exactly numMines mines, and what the player
        sees agrees with the hidden board. */
    ghost predicate Valid()
      reads this
    {
      Shaped() &&
      WellFormed(board, height, width) &&
      CountGrid(board, IsMineValue) == numMines &&
      Consistent(visibleBoard, board, height, width)
    }

    /** The status flags agree with the grid (see Board.StatusOk). */
    ghost predicate StatusConsistent()
      reads this
    {
      Shaped() && StatusOk(visibleBoard, board, height, width, numMines, gameOver, win)
    }

    /** The count at which the win check declares a win. */
    function Target(): (t: int)
    {
      width * height - numMines
    }

    /** A new game. The random coordinates `_place_mines` would draw are
        given as `draws`, in order; they must eventually hit numMines
        distinct cells, or the source's placement loop would never end. */
    constructor (width: nat, height: nat, numMines: nat, draws: seq<Coord>)
      requires forall c :: c in draws ==> InGrid(height, width, c.0, c.1)
      requires DistinctCount(draws) >= numMines
      ensures this.width == width && this.height == height && this.numMines == numMines
      ensures Valid() && StatusConsistent()
      ensures !gameOver && !win
      ensures forall i, j :: InGrid(height, width, i, j) ==> visibleBoard[i][j] == U
      ensures exists k :: 0 <= k <= |draws| && MinesAt(board, height, width, draws[..k])
    {
      this.width := width;
      this.height := height;
      this.numMines := numMines;
      board := Filled(height, width, 0);
      new;
      ghost var k := PlaceMines(draws);
      ghost var placed := board;
      CalculateNumbers();
      assert CountGrid(board, IsMineValue) == numMines && MinesAt(board, height, width, draws[..k]) by {
        SameMinesCount(board, placed, height, width);
        SameMinesAt(board, placed, height, width, draws[..k]);
      }
      visibleBoard := Filled(height, width, U);
      gameOver := false;
      win := false;
      InitialStatusOk(visibleBoard, board, height, width, numMines);
    }

    /** `_place_mines`: draw coordinates until numMines distinct cells hold a mine.
        A draw that hits a mine already placed changes nothing. */
    method PlaceMines(draws: seq<Coord>) returns (ghost used: nat)
      requires Shape(board, height, width)
      requires forall i, j :: InGrid(height, width, i, j) ==> board[i][j] != MineMark
      requires forall c :: c in draws ==> InGrid(height, width, c.0, c.1)
      requires DistinctCount(draws) >= numMines
      modifies this`board
      ensures Shape(board, height, width)
      ensures CountGrid(board, IsMineValue) == numMines
      ensures SafeCellsKept(board, old(board), height, width)
      ensures used <= |draws| && MinesAt(board, height, width, draws[..used])
    {
      CountGridNone(board, IsMineValue);
      var minesPlaced := 0;
      var drawn := 0;
      while minesPlaced < numMines
        invariant 0 <= drawn <= |draws| && minesPlaced <= numMines
        invariant Shape(board, height, width)
        invariant minesPlaced == DistinctCount(draws[..drawn]) == CountGrid(board, IsMineValue)
        invariant MinesAt(board, height, width, draws[..drawn])
        invariant SafeCellsKept(board, old(board), height, width)
        decreases |draws| - drawn
      {
        DrawRemains(draws, drawn);
        var x, y := draws[drawn].0, draws[drawn].1;
        assert draws[drawn] in draws;
        assert draws[..drawn + 1] == draws[..drawn] + [(x, y)];
        if board[x][y] != MineMark {
          DrawFresh(board, old(board), height, width, draws[..drawn], x, y);
          board := Updated(board, x, y, MineMark);
          minesPlaced := minesPlaced + 1;
        } else {
          DrawRepeat(board, height, width, draws[..drawn], x, y);
        }
        drawn := drawn + 1;
      }
      used := drawn;
    }

    /** `_calculate_numbers`: every safe cell gets the number of mines around it. */
    method CalculateNumbers()
      requires Shape(board, height, width)
      modifies this`board
      ensures Shape(board, height, width) && SameMines(board, old(board))
      ensures forall i, j :: InGrid(height, width, i, j) && board[i][j] != MineMark ==>
        board[i][j] == AdjacentMines(old(board), height, width, i, j)
      ensures WellFormed(board, height, width)
    {
      for x := 0 to height
        invariant Shape(board, height, width)
        invariant SameMines(board, old(board))
        invariant NumberedBefore(board, old(board), height, width, x, 0)
      {
        for y := 0 to width
          invariant Shape(board, height, width)
          invariant SameMines(board, old(board))
          invariant NumberedBefore(board, old(board), height, width, x, y)
        {
          if board[x][y] != MineMark {
            var mineCount := CountNeighborMines(x, y);
            CountMinesInSameMines(board, old(board), Neighbors(height, width, x, y));
            NumberCell(board, old(board), height, width, x, y, mineCount);
            board := Updated(board, x, y, mineCount);
          } else {
            SkipMine(board, old(board), height, width, x, y);
          }
        }
        NextRow(board, old(board), height, width, x);
      }
      NumberedWellFormed(board, old(board), height, width);
    }

    /** The loop of `_calculate_numbers` that counts the mines among the neighbours of (x, y). */
    method CountNeighborMines(x: int, y: int) returns (mineCount: nat)
      requires Shape(board, height, width) && InGrid(height, width, x, y)
      ensures mineCount == AdjacentMines(board, height, width, x, y)
    {
      mineCount := 0;
      var neighbors := GetNeighbors(x, y);
      for k := 0 to |neighbors|
        invariant mineCount == CountMinesIn(board, neighbors[..k])
      {
        assert neighbors[..k + 1][..k] == neighbors[..k];
        var nx, ny := neighbors[k].0, neighbors[k].1;
        assert (nx, ny) in neighbors;
        if board[nx][ny] == MineMark {
          mineCount := mineCount + 1;
        }
      }
      assert neighbors[..|neighbors|] == neighbors;
    }

    /** `_get_neighbors`: the in-bounds cells of the 8-neighbourhood of (x, y). */
    method GetNeighbors(x: int, y: int) returns (neighbors: seq<Coord>)
      ensures neighbors == Neighbors(height, width, x, y)
    {
      neighbors := [];
      for dx := -1 to 2
        invariant neighbors == Scan(height, width, x, y, DeltaIndex(dx, -1))
      {
        for dy := -1 to 2
          invariant neighbors == Scan(height, width, x, y, DeltaIndex(dx, dy))
        {
          ScanStep(height, width, x, y, dx, dy);
          if !(dx == 0 && dy == 0) {
            var nx, ny := x + dx, y + dy;
            if 0 <= nx < height && 0 <= ny < width {
              neighbors := neighbors + [(nx, ny)];
            }
          }
        }
      }
    }

    /** `reveal`: a cell that is not 'U' is refused; a mine explodes and
        ends the game; a safe cell shows its number and, when that number is
        0, every unrevealed neighbour is revealed in turn. Each reveal of a
        safe cell ends with the win check. The recursion ends because every
        call turns a 'U' cell into a revealed one. The ghost `order` lists the
        cells a safe reveal changed, in the order the flood fill reached them. */
    method Reveal(x: int, y: int) returns (result: RevealResult, ghost order: seq<Coord>)
      requires Valid() && InGrid(height, width, x, y)
      modifies this`visibleBoard, this`gameOver, this`win
      decreases CountGrid(visibleBoard, IsHidden), 1
      ensures Valid()
      ensures result == NotApplicable <==> old(visibleBoard)[x][y] != U
      ensures result == Mine <==> old(visibleBoard)[x][y] == U && board[x][y] == MineMark
      ensures result == NotApplicable ==>
        visibleBoard == old(visibleBoard) && gameOver == old(gameOver) && win == old(win)
      ensures result == Mine ==> visibleBoard == Updated(old(visibleBoard), x, y, Star) && gameOver && !win
      ensures result == Safe ==> visibleBoard[x][y] == Num(board[x][y])
      ensures result == Safe ==> RevealsOnly(old(visibleBoard), visibleBoard, board, height, width)
      ensures result == Safe ==> CascadeClosed(old(visibleBoard), visibleBoard, height, width)
      ensures result == Safe && board[x][y] == 0 ==> NoHiddenAround(visibleBoard, height, width, x, y)
      ensures result == Safe && board[x][y] != 0 ==> ShowsOnly(old(visibleBoard), visibleBoard, x, y, Num(board[x][y]))
      ensures result == Safe ==>
        Traced(old(visibleBoard), visibleBoard, height, width, order) && Chain(visibleBoard, height, width, order) &&
        |order| > 0 && order[0] == (x, y)
      ensures result == Safe && CountGrid(visibleBoard, IsRevealed) == Target() ==> gameOver && win
      ensures result == Safe ==>
        (gameOver == old(gameOver) && win == old(win)) ||
        (gameOver && win && CountGrid(visibleBoard, IsRevealed) >= Target())
    {
      if visibleBoard[x][y] != U {
        return NotApplicable, [];
      }
      if board[x][y] == MineMark {
        gameOver := true;
        win := false;
        visibleBoard := Updated(visibleBoard, x, y, Star);
        return Mine, [(x, y)];
      }
      var number := board[x][y];
      RevealOneCell(visibleBoard, board, height, width, x, y);
      TracedOne(visibleBoard, height, width, x, y, Num(number));
      visibleBoard := Updated(visibleBoard, x, y, Num(number));
      order := [(x, y)];
      if number == 0 {
        ghost var shown := visibleBoard;
        ghost var reached := RevealNeighbors(x, y);
        RevealsOnlyTrans(old(visibleBoard), shown, visibleBoard, board, height, width);
        TracedStep(old(visibleBoard), shown, visibleBoard, board, height, width, order, reached);
        CascadeFromZero(old(visibleBoard), visibleBoard, board, height, width, x, y);
        order := order + reached;
      }
      CheckWinCondition();
      result := Safe;
    }

    /** The flood fill of `reveal`: every neighbour of the 0 cell (x, y) that
        is still 'U' when the loop reaches it is revealed. The ghost `order`
        lists the cells changed, each reached from (x, y) along shown zeros. */
    method RevealNeighbors(x: int, y: int) returns (ghost order: seq<Coord>)
      requires Valid() && InGrid(height, width, x, y)
      requires board[x][y] == 0 && visibleBoard[x][y] == Num(0)
      modifies this`visibleBoard, this`gameOver, this`win
      decreases CountGrid(visibleBoard, IsHidden) + 1, 0
      ensures Valid()
      ensures RevealsOnly(old(visibleBoard), visibleBoard, board, height, width)
      ensures CascadeClosed(old(visibleBoard), visibleBoard, height, width)
      ensures NoHiddenAround(visibleBoard, height, width, x, y)
      ensures Traced(old(visibleBoard), visibleBoard, height, width, order)
      ensures Chain(visibleBoard, height, width, [(x, y)] + order)
      ensures (gameOver == old(gameOver) && win == old(win)) ||
              (gameOver && win && CountGrid(visibleBoard, IsRevealed) >= Target())
    {
      ZeroCellHasSafeNeighbors(board, height, width, x, y);
      var neighbors := GetNeighbors(x, y);
      order := [];
      FloodStart(visibleBoard, board, height, width, x, y, neighbors);
      for k := 0 to |neighbors|
        invariant Valid()
        invariant Flooded(old(visibleBoard), visibleBoard, board, height, width, x, y, neighbors, k, order)
        invariant (gameOver == old(gameOver) && win == old(win)) ||
                  (gameOver && win && CountGrid(visibleBoard, IsRevealed) >= Target())
      {
        var nx, ny := neighbors[k].0, neighbors[k].1;
        assert neighbors[k] in neighbors;
        if visibleBoard[nx][ny] == U {
          RevealsOnlyCounts(old(visibleBoard), visibleBoard, board, height, width);
          ghost var before := visibleBoard;
          var r;
          ghost var reached;
          r, reached := Reveal(nx, ny);
          assert r == Safe;
          FloodStep(old(visibleBoard), before, visibleBoard, board, height, width, x, y, neighbors, k, order, reached);
          order := order + reached;
        } else {
          FloodSkip(old(visibleBoard), visibleBoard, board, height, width, x, y, neighbors, k, order);
        }
      }
      FloodDone(old(visibleBoard), visibleBoard, board, height, width, x, y, order);
    }

    /** `toggle_flag`: 'U' becomes 'F', 'F' becomes 'U', any other state stays. */
    method ToggleFlag(x: int, y: int)
      requires Valid() && InGrid(height, width, x, y)
      modifies this`visibleBoard
      ensures Valid()
      ensures visibleBoard == Updated(old(visibleBoard), x, y, Toggled(old(visibleBoard)[x][y]))
      ensures old(visibleBoard)[x][y] == U ==> visibleBoard[x][y] == F
      ensures old(visibleBoard)[x][y] == F ==> visibleBoard[x][y] == U
      ensures old(visibleBoard)[x][y] != U && old(visibleBoard)[x][y] != F ==> visibleBoard == old(visibleBoard)
    {
      if visibleBoard[x][y] == U {
        visibleBoard := Updated(visibleBoard, x, y, F);
      } else if visibleBoard[x][y] == F {
        visibleBoard := Updated(visibleBoard, x, y, U);
      } else {
        assert visibleBoard[x][y := visibleBoard[x][y]] == visibleBoard[x];
        assert Updated(visibleBoard, x, y, visibleBoard[x][y]) == visibleBoard;
      }
    }

    /** `_check_win_condition`: count the cells that are neither 'U' nor 'F';
        when the count is width * height - numMines the game is won. */
    method CheckWinCondition()
      requires Shaped()
      modifies this`gameOver, this`win
      ensures CountGrid(visibleBoard, IsRevealed) == Target() ==> gameOver && win
      ensures CountGrid(visibleBoard, IsRevealed) != Target() ==> gameOver == old(gameOver) && win == old(win)
    {
      var revealedCount := 0;
      for x := 0 to height
        invariant revealedCount == CountGrid(visibleBoard[..x], IsRevealed)
      {
        assert visibleBoard[..x + 1][..x] == visibleBoard[..x];
        for y := 0 to width
          invariant revealedCount == CountGrid(visibleBoard[..x], IsRevealed) + CountRow(visibleBoard[x][..y], IsRevealed)
        {
          assert visibleBoard[x][..y + 1][..y] == visibleBoard[x][..y];
          if visibleBoard[x][y] != U && visibleBoard[x][y] != F {
            revealedCount := revealedCount + 1;
          }
        }
        assert visibleBoard[x][..width] == visibleBoard[x];
      }
      assert visibleBoard[..height] == visibleBoard;
      if revealedCount == width * height - numMines {
        gameOver := true;
        win := true;
      }
    }

    /** The guard of the presentation layer's left click
        (`MinesweeperApp.on_left_click`): once the game is over a click does
        nothing, otherwise it is a `reveal`. The engine's `reveal` itself has
        no such guard. Guarded play keeps the status consistent. */
    method GuardedReveal(x: int, y: int) returns (result: RevealResult, ghost order: seq<Coord>)
      requires Valid() && StatusConsistent() && InGrid(height, width, x, y)
      modifies this`visibleBoard, this`gameOver, this`win
      ensures Valid() && StatusConsistent()
      ensures old(gameOver) ==>
        result == NotApplicable && visibleBoard == old(visibleBoard) && gameOver && win == old(win)
      ensures !old(gameOver) ==> (result == NotApplicable <==> old(visibleBoard)[x][y] != U)
      ensures result == Mine <==> !old(gameOver) && old(visibleBoard)[x][y] == U && board[x][y] == MineMark
      ensures result == NotApplicable ==>
        visibleBoard == old(visibleBoard) && gameOver == old(gameOver) && win == old(win)
      ensures result == Mine ==> visibleBoard == Updated(old(visibleBoard), x, y, Star) && gameOver && !win
      ensures result == Safe ==> !old(gameOver) && visibleBoard[x][y] == Num(board[x][y])
      ensures result == Safe ==> RevealsOnly(old(visibleBoard), visibleBoard, board, height, width)
      ensures result == Safe ==> CascadeClosed(old(visibleBoard), visibleBoard, height, width)
      ensures result == Safe && board[x][y] == 0 ==> NoHiddenAround(visibleBoard, height, width, x, y)
      ensures result == Safe && board[x][y] != 0 ==> ShowsOnly(old(visibleBoard), visibleBoard, x, y, Num(board[x][y]))
      ensures result == Safe ==>
        Traced(old(visibleBoard), visibleBoard, height, width, order) && Chain(visibleBoard, height, width, order) &&
        |order| > 0 && order[0] == (x, y)
      ensures result == Safe ==> (gameOver <==> CountGrid(visibleBoard, IsRevealed) == Target()) && win == gameOver
    {
      if gameOver {
        return NotApplicable, [];
      }
      result, order := Reveal(x, y);
      if result == Mine {
        assert visibleBoard[x][y] == Star;
        assert HasStar(visibleBoard);
      } else if result == Safe {
        RevealsOnlyCounts(old(visibleBoard), visibleBoard, board, height, width);
        RevealedAtMostSafe(visibleBoard, board, height, width);
      }
    }

    /** The guard of the presentation layer's right click
        (`MinesweeperApp.on_right_click`): once the game is over a click does
        nothing, otherwise it is a `toggle_flag`. */
    method GuardedToggleFlag(x: int, y: int)
      requires Valid() && StatusConsistent() && InGrid(height, width, x, y)
      modifies this`visibleBoard
      ensures Valid() && StatusConsistent()
      ensures old(gameOver) ==> visibleBoard == old(visibleBoard)
      ensures !old(gameOver) ==> visibleBoard == Updated(old(visibleBoard), x, y, Toggled(old(visibleBoard)[x][y]))
    {
      if gameOver {
        return;
      }
      ghost var c := visibleBoard[x][y];
      ToggledInvolution(c);
      CountGridUpdate(visibleBoard, IsRevealed, x, y, Toggled(c));
      ToggleFlag(x, y);
    }
  }
}
