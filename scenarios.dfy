/** Short sequences of engine calls, as a client of the class would make
    them, with what the engine promises about their outcome. */
module Scenarios {
  import opened Board
  import opened Minesweeper

  /** A second reveal of the same cell is refused, whatever the first did. */
  method RevealTwice(g: MinesweeperGame, x: int, y: int) returns (first: RevealResult, second: RevealResult)
    requires g.Valid() && InGrid(g.height, g.width, x, y)
    modifies g`visibleBoard, g`gameOver, g`win
    ensures g.Valid() && second == NotApplicable
  {
    ghost var o1, o2;
    first, o1 := g.Reveal(x, y);
    second, o2 := g.Reveal(x, y);
  }

  /** Toggling a flag twice gives back the visible grid. */
  method ToggleTwice(g: MinesweeperGame, x: int, y: int)
    requires g.Valid() && InGrid(g.height, g.width, x, y)
    modifies g`visibleBoard
    ensures g.Valid() && g.visibleBoard == old(g.visibleBoard)
  {
    ToggleTwiceRestores(g.visibleBoard, x, y);
    g.ToggleFlag(x, y);
    g.ToggleFlag(x, y);
  }

  /** A one-row board of two cells whose single mine is drawn at (0, 0):
      revealing the other cell shows a digit, leaves the mine hidden and
      wins the game. */
  method TwoCellGame() returns (g: MinesweeperGame, r: RevealResult)
    ensures g.height == 1 && g.width == 2 && g.Valid()
    ensures r == Safe && g.gameOver && g.win
    ensures g.visibleBoard[0][0] == U && g.visibleBoard[0][1].Num?
  {
    g := new MinesweeperGame(2, 1, 1, [(0, 0)]);
    ghost var k :| 0 <= k <= 1 && MinesAt(g.board, 1, 2, [(0, 0)][..k]);
    assert k == 1 by {
      if k == 0 {
        CountGridNone(g.board, IsMineValue);
      }
    }
    assert g.board[0][0] == MineMark && g.board[0][1] != MineMark;
    ghost var v0 := g.visibleBoard;
    ghost var order;
    r, order := g.Reveal(0, 1);
    assert InGrid(1, 2, 0, 0);
    assert g.visibleBoard[0][0] == v0[0][0];
    assert r == Safe;
    assert |g.visibleBoard| == 1 && |g.visibleBoard[0]| == 2;
    assert g.visibleBoard[0] == [U, Num(g.board[0][1])];
    assert g.visibleBoard == [[U, Num(g.board[0][1])]];
    ghost var row := [U, Num(g.board[0][1])];
    ghost var empty: seq<seq<Cell>> := [];
    assert row[..1] == [U] && [U][..0] == [] && [row][..0] == empty;
    assert CountRow(row, IsRevealed) == 1;
    assert CountGrid([row], IsRevealed) == 1;
  }

  /** On a one-row board of three cells, the middle cell lists (0, 0) and
      (0, 2) as its neighbours, in that order, and the last cell lists only
      (0, 1). */
  lemma RowNeighbors(h: int, w: int)
    requires h == 1 && w == 3
    ensures Neighbors(h, w, 0, 1) == [(0, 0), (0, 2)]
    ensures Neighbors(h, w, 0, 2) == [(0, 1)]
  {
    assert Scan(h, w, 0, 1, 3) == [];
    assert Scan(h, w, 0, 1, 4) == [(0, 0)];
    assert Scan(h, w, 0, 1, 5) == [(0, 0)];
    assert Scan(h, w, 0, 1, 6) == [(0, 0), (0, 2)];
    assert Scan(h, w, 0, 1, 9) == [(0, 0), (0, 2)];
    assert Scan(h, w, 0, 2, 3) == [];
    assert Scan(h, w, 0, 2, 4) == [(0, 1)];
    assert Scan(h, w, 0, 2, 9) == [(0, 1)];
  }

  /** The middle cell has one neighbouring mine when (0, 0) is the only mine. */
  lemma MiddleCount(b: seq<seq<int>>, h: int, w: int)
    requires h == 1 && w == 3 && Shape(b, h, w) && b[0][0] == MineMark && b[0][2] != MineMark
    ensures AdjacentMines(b, h, w, 0, 1) == 1
  {
    RowNeighbors(h, w);
    var ns: seq<Coord> := [(0, 0), (0, 2)];
    var none: seq<Coord> := [];
    assert ns[..1] == [(0, 0)] && ns[..1][..0] == none;
  }

  /** The last cell has no neighbouring mine when (0, 1) is not a mine. */
  lemma EndCount(b: seq<seq<int>>, h: int, w: int)
    requires h == 1 && w == 3 && Shape(b, h, w) && b[0][1] != MineMark
    ensures AdjacentMines(b, h, w, 0, 2) == 0
  {
    RowNeighbors(h, w);
    var none: seq<Coord> := [];
    assert [(0, 1)][..0] == none;
  }

  /** On a well-formed one-row board of three cells whose one mine is at
      (0, 0), the other two cells hold 1 and 0. */
  lemma ThreeCellBoard(b: seq<seq<int>>, h: int, w: int)
    requires h == 1 && w == 3 && WellFormed(b, h, w)
    requires b[0][0] == MineMark && b[0][1] != MineMark && b[0][2] != MineMark
    ensures b[0][1] == 1 && b[0][2] == 0
  {
    MiddleCount(b, h, w);
    EndCount(b, h, w);
    WellFormedAt(b, h, w, 0, 1);
    WellFormedAt(b, h, w, 0, 2);
  }

  /** A fresh one-row board of three cells whose single mine is drawn at
      (0, 0): the mine is there, its neighbour (0, 1) holds 1 and (0, 2)
      holds 0. */
  method ThreeCellGame() returns (g: MinesweeperGame)
    ensures fresh(g) && g.height == 1 && g.width == 3 && g.numMines == 1 && g.Valid()
    ensures !g.gameOver && !g.win && g.visibleBoard == [[U, U, U]]
    ensures g.board[0][0] == MineMark && g.board[0][1] == 1 && g.board[0][2] == 0
  {
    g := new MinesweeperGame(3, 1, 1, [(0, 0)]);
    ghost var k :| 0 <= k <= 1 && MinesAt(g.board, 1, 3, [(0, 0)][..k]);
    assert k == 1 by {
      if k == 0 {
        CountGridNone(g.board, IsMineValue);
      }
    }
    assert [(0, 0)][..1] == [(0, 0)];
    assert InGrid(1, 3, 0, 0) && InGrid(1, 3, 0, 1) && InGrid(1, 3, 0, 2);
    ThreeCellBoard(g.board, 1, 3);
    assert g.visibleBoard[0] == [U, U, U];
  }

  /** On the board of ThreeCellGame, revealing the 0 at (0, 2) cascades to
      its neighbour (0, 1), which shows 1 and stops the fill; the mine stays
      hidden and the game is won. */
  method CascadeWin() returns (g: MinesweeperGame, r: RevealResult)
    ensures g.Valid() && r == Safe && g.gameOver && g.win
    ensures g.visibleBoard == [[U, Num(1), Num(0)]]
  {
    g := ThreeCellGame();
    ghost var v0 := g.visibleBoard;
    ghost var order;
    r, order := g.Reveal(0, 2);
    assert InGrid(1, 3, 0, 0) && InGrid(1, 3, 0, 1) && Adjacent(0, 2, 0, 1);
    assert g.visibleBoard[0][1] != U;
    assert g.visibleBoard[0][0] == v0[0][0];
    ghost var row := [U, Num(1), Num(0)];
    assert g.visibleBoard[0] == row;
    assert g.visibleBoard == [row];
    ghost var empty: seq<seq<Cell>> := [];
    assert row[..2] == [U, Num(1)] && row[..2][..1] == [U] && [U][..0] == [] && [row][..0] == empty;
    assert CountRow([U], IsRevealed) == 0;
    assert CountRow(row[..2], IsRevealed) == 1;
    assert CountRow(row, IsRevealed) == 2;
    assert CountGrid([row], IsRevealed) == 2;
  }

  /** Without the presentation layer's guard the engine keeps accepting
      reveals after a mine went off, and the win check, which counts the '*'
      cell among the revealed ones, then declares a win: on the board of
      ThreeCellGame, revealing the mine and then (0, 1) ends with both flags
      set while the safe cell (0, 2) is still unrevealed. */
  method WinAfterLoss() returns (g: MinesweeperGame, first: RevealResult, second: RevealResult)
    ensures g.height == 1 && g.width == 3 && g.Valid()
    ensures first == Mine && second == Safe
    ensures g.gameOver && g.win
    ensures g.visibleBoard == [[Star, Num(1), U]] && g.board[0][2] == 0
  {
    g := ThreeCellGame();
    ghost var v0 := g.visibleBoard;
    ghost var o1, o2;
    first, o1 := g.Reveal(0, 0);
    assert v0[0][0 := Star] == [Star, U, U];
    assert g.visibleBoard == [[Star, U, U]];
    second, o2 := g.Reveal(0, 1);
    ghost var row := [Star, Num(g.board[0][1]), U];
    assert g.visibleBoard[0] == row;
    ghost var empty: seq<seq<Cell>> := [];
    assert row[..2] == [Star, Num(g.board[0][1])] && row[..2][..1] == [Star] && [Star][..0] == [] && [row][..0] == empty;
    assert CountRow([Star], IsRevealed) == 1;
    assert CountRow(row[..2], IsRevealed) == 2;
    assert CountRow(row, IsRevealed) == 2;
    assert CountGrid([row], IsRevealed) == 2;
  }
}
