/** Values the Minesweeper engine works on: coordinates, what a player sees of
    a cell, the 8-neighbourhood of a cell, counts over grids, and the facts
    about them that the engine's operations rely on. */
module Board {

  /** A cell coordinate (row, column): the engine's (x, y) pairs, x < height, y < width. */
  type Coord = (int, int)

  /** What the player sees of a cell: 'U' (unrevealed), 'F' (flagged),
      '*' (exploded mine) or the digit string of its adjacency count. */
  datatype Cell = U | F | Star | Num(n: int)

  /** The value of a mine cell in the hidden board. */
  const MineMark: int := -1

  predicate IsMineValue(v: int) { v == MineMark }
  predicate IsSafeValue(v: int) { v != MineMark }
  predicate IsHidden(c: Cell) { c == U }
  /** The cells the win check counts: neither 'U' nor 'F'. */
  predicate IsRevealed(c: Cell) { c != U && c != F }

  predicate InGrid(h: int, w: int, x: int, y: int) { 0 <= x < h && 0 <= y < w }

  /** (nx, ny) is one of the eight cells around (x, y). */
  predicate Adjacent(x: int, y: int, nx: int, ny: int)
  {
    (nx, ny) != (x, y) && -1 <= nx - x <= 1 && -1 <= ny - y <= 1
  }

  /** A grid of h rows of w cells each. */
  predicate Shape<T>(g: seq<seq<T>>, h: int, w: int)
  {
    |g| == h && forall i :: 0 <= i < |g| ==> |g[i]| == w
  }

  /** An h by w grid with v in every cell. */
  function Filled<T>(h: nat, w: nat, v: T): (g: seq<seq<T>>)
    ensures Shape(g, h, w)
    ensures forall i, j :: 0 <= i < h && 0 <= j < w ==> g[i][j] == v
  {
    seq(h, _ => seq(w, _ => v))
  }

  /** g with cell (x, y) replaced by v. */
  function Updated<T>(g: seq<seq<T>>, x: int, y: int, v: T): (r: seq<seq<T>>)
    requires 0 <= x < |g| && 0 <= y < |g[x]|
  {
    g[x := g[x][y := v]]
  }

  // ---------------------------------------------------------------------
  // Neighbours

  /** The k-th offset of the source's nested loops `for dx in [-1, 0, 1]:
      for dy in [-1, 0, 1]`; k = 4 is the centre (0, 0). */
  function Delta(k: int): (d: Coord)
  {
    var dx := if k < 3 then -1 else if k < 6 then 0 else 1;
    (dx, k - 3 * (dx + 1) - 1)
  }

  /** The position of offset (dx, dy) in that loop order. */
  function DeltaIndex(dx: int, dy: int): (k: int) { 3 * (dx + 1) + (dy + 1) }

  /** Offset k passes the loop's two tests: not the centre, and in bounds. */
  predicate Admits(h: int, w: int, x: int, y: int, k: int)
  {
    k != 4 && InGrid(h, w, x + Delta(k).0, y + Delta(k).1)
  }

  /** Delta and DeltaIndex are inverse on the nine offsets. */
  lemma DeltaIndexRoundTrip(k: int, dx: int, dy: int)
    ensures 0 <= k < 9 ==>
      -1 <= Delta(k).0 <= 1 && -1 <= Delta(k).1 <= 1 && DeltaIndex(Delta(k).0, Delta(k).1) == k
    ensures -1 <= dx <= 1 && -1 <= dy <= 1 ==>
      0 <= DeltaIndex(dx, dy) < 9 && Delta(DeltaIndex(dx, dy)) == (dx, dy)
  {
    if 0 <= k < 9 {
      assert k == 0 || k == 1 || k == 2 || k == 3 || k == 4 || k == 5 || k == 6 || k == 7 || k == 8;
    }
    if -1 <= dx <= 1 && -1 <= dy <= 1 {
      assert dx == -1 || dx == 0 || dx == 1;
      assert dy == -1 || dy == 0 || dy == 1;
    }
  }

  /** The neighbours the loops have appended after visiting the first k offsets. */
  function Scan(h: int, w: int, x: int, y: int, k: nat): (r: seq<Coord>)
    requires k <= 9
    ensures |r| <= if k <= 4 then k else k - 1
  {
    if k == 0 then []
    else
      var d := Delta(k - 1);
      Scan(h, w, x, y, k - 1) + if Admits(h, w, x, y, k - 1) then [(x + d.0, y + d.1)] else []
  }

  /** One turn of the inner loop: visiting offset (dx, dy) appends the cell
      when it is not the centre and lies inside the grid. */
  lemma ScanStep(h: int, w: int, x: int, y: int, dx: int, dy: int)
    requires -1 <= dx <= 1 && -1 <= dy <= 1
    ensures 0 <= DeltaIndex(dx, dy) < 9
    ensures Scan(h, w, x, y, DeltaIndex(dx, dy) + 1) ==
      Scan(h, w, x, y, DeltaIndex(dx, dy)) +
      if !(dx == 0 && dy == 0) && InGrid(h, w, x + dx, y + dy) then [(x + dx, y + dy)] else []
  {
    DeltaIndexRoundTrip(0, dx, dy);
  }

  /** Every cell in Scan(k) is an in-grid neighbour whose offset comes before k. */
  lemma {:induction false} ScanSound(h: int, w: int, x: int, y: int, k: nat)
    requires k <= 9
    ensures forall c :: c in Scan(h, w, x, y, k) ==>
      InGrid(h, w, c.0, c.1) && Adjacent(x, y, c.0, c.1) && DeltaIndex(c.0 - x, c.1 - y) < k
  {
    if k > 0 {
      ScanSound(h, w, x, y, k - 1);
      DeltaIndexRoundTrip(k - 1, 0, 0);
      var d := Delta(k - 1);
      var prev := Scan(h, w, x, y, k - 1);
      var tail: seq<Coord> := if Admits(h, w, x, y, k - 1) then [(x + d.0, y + d.1)] else [];
      assert Scan(h, w, x, y, k) == prev + tail;
      forall c: Coord | c in prev + tail
        ensures InGrid(h, w, c.0, c.1) && Adjacent(x, y, c.0, c.1) && DeltaIndex(c.0 - x, c.1 - y) < k
      {
        assert c in prev || c in tail;
      }
    }
  }

  /** Every in-grid neighbour whose offset comes before k is in Scan(k). */
  lemma {:induction false} ScanComplete(h: int, w: int, x: int, y: int, k: nat)
    requires k <= 9
    ensures forall nx, ny ::
      InGrid(h, w, nx, ny) && Adjacent(x, y, nx, ny) && DeltaIndex(nx - x, ny - y) < k ==>
        (nx, ny) in Scan(h, w, x, y, k)
  {
    if k > 0 {
      ScanComplete(h, w, x, y, k - 1);
      var prev := Scan(h, w, x, y, k - 1);
      forall nx, ny | InGrid(h, w, nx, ny) && Adjacent(x, y, nx, ny) && DeltaIndex(nx - x, ny - y) < k
        ensures (nx, ny) in Scan(h, w, x, y, k)
      {
        DeltaIndexRoundTrip(0, nx - x, ny - y);
        if DeltaIndex(nx - x, ny - y) == k - 1 {
          assert Admits(h, w, x, y, k - 1);
        } else {
          assert (nx, ny) in prev;
        }
      }
    }
  }

  /** No cell appears twice in Scan(k). */
  lemma {:induction false} ScanDistinct(h: int, w: int, x: int, y: int, k: nat)
    requires k <= 9
    ensures forall i, j :: 0 <= i < j < |Scan(h, w, x, y, k)| ==> Scan(h, w, x, y, k)[i] != Scan(h, w, x, y, k)[j]
  {
    if k > 0 {
      ScanDistinct(h, w, x, y, k - 1);
      ScanSound(h, w, x, y, k - 1);
      DeltaIndexRoundTrip(k - 1, 0, 0);
      var d := Delta(k - 1);
      var prev := Scan(h, w, x, y, k - 1);
      var tail: seq<Coord> := if Admits(h, w, x, y, k - 1) then [(x + d.0, y + d.1)] else [];
      var r := prev + tail;
      assert Scan(h, w, x, y, k) == r;
      forall i, j | 0 <= i < j < |r|
        ensures r[i] != r[j]
      {
        if j < |prev| {
          assert r[i] == prev[i] && r[j] == prev[j];
        } else {
          assert r[i] == prev[i] && r[i] in prev;
          assert r[j] == tail[0];
        }
      }
    }
  }

  /** The in-bounds 8-neighbourhood of (x, y), in the order the source lists it. */
  function Neighbors(h: int, w: int, x: int, y: int): (r: seq<Coord>)
    ensures |r| <= 8
    ensures forall c :: c in r ==> InGrid(h, w, c.0, c.1) && Adjacent(x, y, c.0, c.1)
    ensures forall nx, ny :: InGrid(h, w, nx, ny) && Adjacent(x, y, nx, ny) ==> (nx, ny) in r
    ensures forall i, j :: 0 <= i < j < |r| ==> r[i] != r[j]
  {
    ScanSound(h, w, x, y, 9);
    ScanComplete(h, w, x, y, 9);
    ScanDistinct(h, w, x, y, 9);
    Scan(h, w, x, y, 9)
  }

  // ---------------------------------------------------------------------
  // Mines and adjacency counts

  /** c is inside the board and holds the mine mark. */
  predicate IsMineAt(board: seq<seq<int>>, c: Coord)
  {
    0 <= c.0 < |board| && 0 <= c.1 < |board[c.0]| && board[c.0][c.1] == MineMark
  }

  /** The number of mines among the coordinates cs. */
  function CountMinesIn(board: seq<seq<int>>, cs: seq<Coord>): (r: nat)
    ensures r <= |cs|
    ensures r == 0 <==> forall k :: 0 <= k < |cs| ==> !IsMineAt(board, cs[k])
  {
    if cs == [] then 0
    else CountMinesIn(board, cs[..|cs| - 1]) + if IsMineAt(board, cs[|cs| - 1]) then 1 else 0
  }

  /** The number of mines around (x, y): what the engine writes into a safe cell. */
  function AdjacentMines(board: seq<seq<int>>, h: int, w: int, x: int, y: int): (r: nat)
    ensures r <= 8
    ensures r == 0 <==> forall nx, ny :: InGrid(h, w, nx, ny) && Adjacent(x, y, nx, ny) ==> !IsMineAt(board, (nx, ny))
  {
    var ns := Neighbors(h, w, x, y);
    assert forall nx, ny :: InGrid(h, w, nx, ny) && Adjacent(x, y, nx, ny) ==>
      exists k :: 0 <= k < |ns| && ns[k] == (nx, ny);
    CountMinesIn(board, ns)
  }

  /** Two boards with mines in the same places. */
  ghost predicate SameMines(b1: seq<seq<int>>, b2: seq<seq<int>>)
  {
    forall c :: IsMineAt(b1, c) <==> IsMineAt(b2, c)
  }

  lemma {:induction false} CountMinesInSameMines(b1: seq<seq<int>>, b2: seq<seq<int>>, cs: seq<Coord>)
    requires SameMines(b1, b2)
    ensures CountMinesIn(b1, cs) == CountMinesIn(b2, cs)
  {
    if cs != [] {
      CountMinesInSameMines(b1, b2, cs[..|cs| - 1]);
      assert IsMineAt(b1, cs[|cs| - 1]) == IsMineAt(b2, cs[|cs| - 1]);
    }
  }

  /** Writing a non-mine value into a safe cell leaves the mines where they are. */
  lemma UpdatedSameMines(b1: seq<seq<int>>, b2: seq<seq<int>>, x: int, y: int, v: int)
    requires SameMines(b1, b2) && 0 <= x < |b1| && 0 <= y < |b1[x]|
    requires b1[x][y] != MineMark && v != MineMark
    ensures SameMines(Updated(b1, x, y, v), b2)
  {
    var b := Updated(b1, x, y, v);
    forall c ensures IsMineAt(b, c) <==> IsMineAt(b1, c) {
      if c == (x, y) {
      } else if 0 <= c.0 < |b1| {
        assert |b[c.0]| == |b1[c.0]|;
        assert 0 <= c.1 < |b1[c.0]| ==> b[c.0][c.1] == b1[c.0][c.1];
      }
    }
  }

  /** Boards with mines in the same places have the same number of mines. */
  lemma SameMinesCount(b1: seq<seq<int>>, b2: seq<seq<int>>, h: int, w: int)
    requires Shape(b1, h, w) && Shape(b2, h, w) && SameMines(b1, b2)
    ensures CountGrid(b1, IsMineValue) == CountGrid(b2, IsMineValue)
  {
    forall i, j | 0 <= i < |b1| && 0 <= j < |b1[i]|
      ensures IsMineValue(b1[i][j]) == IsMineValue(b2[i][j])
    {
      assert IsMineAt(b1, (i, j)) <==> IsMineAt(b2, (i, j));
    }
    CountGridMono(b1, IsMineValue, b2, IsMineValue);
    CountGridMono(b2, IsMineValue, b1, IsMineValue);
  }

  /** Every safe cell of the board holds the number of mines around it. */
  ghost predicate WellFormed(board: seq<seq<int>>, h: int, w: int)
  {
    Shape(board, h, w) &&
    forall i, j {:trigger AdjacentMines(board, h, w, i, j)} :: InGrid(h, w, i, j) && board[i][j] != MineMark ==>
      board[i][j] == AdjacentMines(board, h, w, i, j)
  }

  /** The non-mine cells before (x, y) in row-major order hold their number
      of neighbouring mines on the board b0. */
  /** A safe cell of a well-formed board holds its number of neighbouring mines. */
  lemma WellFormedAt(board: seq<seq<int>>, h: int, w: int, i: int, j: int)
    requires WellFormed(board, h, w) && InGrid(h, w, i, j) && board[i][j] != MineMark
    ensures board[i][j] == AdjacentMines(board, h, w, i, j)
  {
  }

  ghost predicate NumberedBefore(b: seq<seq<int>>, b0: seq<seq<int>>, h: int, w: int, x: int, y: int)
    requires Shape(b, h, w)
  {
    forall i, j :: InGrid(h, w, i, j) && (i < x || (i == x && j < y)) && b[i][j] != MineMark ==>
      b[i][j] == AdjacentMines(b0, h, w, i, j)
  }

  /** One turn of the numbering loops on a non-mine cell: writing its count
      keeps the mines and extends the numbered prefix by one cell. */
  lemma NumberCell(b: seq<seq<int>>, b0: seq<seq<int>>, h: int, w: int, x: int, y: int, v: nat)
    requires Shape(b, h, w) && InGrid(h, w, x, y) && b[x][y] != MineMark
    requires SameMines(b, b0) && NumberedBefore(b, b0, h, w, x, y) && v == AdjacentMines(b0, h, w, x, y)
    ensures Shape(Updated(b, x, y, v), h, w) && SameMines(Updated(b, x, y, v), b0)
    ensures NumberedBefore(Updated(b, x, y, v), b0, h, w, x, y + 1)
  {
    UpdatedSameMines(b, b0, x, y, v);
    var b1 := Updated(b, x, y, v);
    forall i, j | InGrid(h, w, i, j) && (i < x || (i == x && j < y + 1)) && b1[i][j] != MineMark
      ensures b1[i][j] == AdjacentMines(b0, h, w, i, j)
    {
      if (i, j) != (x, y) {
        assert b1[i][j] == b[i][j];
      }
    }
  }

  /** A mine cell is skipped: the numbered prefix grows past it unchanged. */
  lemma SkipMine(b: seq<seq<int>>, b0: seq<seq<int>>, h: int, w: int, x: int, y: int)
    requires Shape(b, h, w) && InGrid(h, w, x, y) && b[x][y] == MineMark
    requires NumberedBefore(b, b0, h, w, x, y)
    ensures NumberedBefore(b, b0, h, w, x, y + 1)
  {
    forall i, j | InGrid(h, w, i, j) && (i < x || (i == x && j < y + 1)) && b[i][j] != MineMark
      ensures b[i][j] == AdjacentMines(b0, h, w, i, j)
    {
      assert (i, j) != (x, y);
    }
  }

  /** The end of a row is the start of the next. */
  lemma NextRow(b: seq<seq<int>>, b0: seq<seq<int>>, h: int, w: int, x: int)
    requires Shape(b, h, w) && NumberedBefore(b, b0, h, w, x, w)
    ensures NumberedBefore(b, b0, h, w, x + 1, 0)
  {
  }

  /** Numbering every cell against a board with the same mines gives a well-formed board. */
  lemma NumberedWellFormed(b: seq<seq<int>>, b0: seq<seq<int>>, h: int, w: int)
    requires Shape(b, h, w) && SameMines(b, b0) && NumberedBefore(b, b0, h, w, h, 0)
    ensures forall i, j :: InGrid(h, w, i, j) && b[i][j] != MineMark ==> b[i][j] == AdjacentMines(b0, h, w, i, j)
    ensures WellFormed(b, h, w)
  {
    forall i, j | InGrid(h, w, i, j) && b[i][j] != MineMark
      ensures b[i][j] == AdjacentMines(b, h, w, i, j)
    {
      CountMinesInSameMines(b, b0, Neighbors(h, w, i, j));
    }
  }

  /** On a well-formed board every value is the mine mark or in [0, 8], and a
      cell holding 0 has no mine around it: the cascade never meets a mine. */
  lemma ZeroCellHasSafeNeighbors(board: seq<seq<int>>, h: int, w: int, x: int, y: int)
    requires WellFormed(board, h, w) && InGrid(h, w, x, y)
    ensures board[x][y] == MineMark || 0 <= board[x][y] <= 8
    ensures board[x][y] == 0 ==>
      forall nx, ny :: InGrid(h, w, nx, ny) && Adjacent(x, y, nx, ny) ==> board[nx][ny] != MineMark
  {
    var count := AdjacentMines(board, h, w, x, y);
    if board[x][y] == 0 {
      forall nx, ny | InGrid(h, w, nx, ny) && Adjacent(x, y, nx, ny)
        ensures board[nx][ny] != MineMark
      {
        assert !IsMineAt(board, (nx, ny));
      }
    }
  }

  // ---------------------------------------------------------------------
  // The random draws of the mine placement

  /** The number of distinct coordinates in the draws s. */
  function DistinctCount(s: seq<Coord>): (r: nat)
    ensures r <= |s|
    ensures s != [] ==> r >= 1
  {
    if s == [] then 0
    else DistinctCount(s[..|s| - 1]) + if s[|s| - 1] in s[..|s| - 1] then 0 else 1
  }

  /** While fewer distinct cells have been drawn than the draws hold, a draw remains. */
  lemma DrawRemains(draws: seq<Coord>, drawn: nat)
    requires drawn <= |draws| && DistinctCount(draws[..drawn]) < DistinctCount(draws)
    ensures drawn < |draws|
  {
    var all := draws[..|draws|];
    assert all == draws;
  }

  /** The mines of the board are exactly the cells listed in s. */
  ghost predicate MinesAt(board: seq<seq<int>>, h: int, w: int, s: seq<Coord>)
    requires Shape(board, h, w)
  {
    forall i, j :: InGrid(h, w, i, j) ==> (board[i][j] == MineMark <==> (i, j) in s)
  }

  /** Every non-mine cell of b1 holds what it held in b0. */
  ghost predicate SafeCellsKept(b1: seq<seq<int>>, b0: seq<seq<int>>, h: int, w: int)
    requires Shape(b1, h, w) && Shape(b0, h, w)
  {
    forall i, j :: InGrid(h, w, i, j) && b1[i][j] != MineMark ==> b1[i][j] == b0[i][j]
  }

  /** A draw (x, y) that hits no mine marks one: afterwards the mines are the
      cells drawn so far, one more of them, and all other cells keep their values. */
  lemma DrawFresh(b: seq<seq<int>>, b0: seq<seq<int>>, h: int, w: int, prefix: seq<Coord>, x: int, y: int)
    requires Shape(b, h, w) && Shape(b0, h, w) && InGrid(h, w, x, y) && b[x][y] != MineMark
    requires MinesAt(b, h, w, prefix) && SafeCellsKept(b, b0, h, w)
    ensures Shape(Updated(b, x, y, MineMark), h, w)
    ensures MinesAt(Updated(b, x, y, MineMark), h, w, prefix + [(x, y)])
    ensures SafeCellsKept(Updated(b, x, y, MineMark), b0, h, w)
    ensures CountGrid(Updated(b, x, y, MineMark), IsMineValue) == CountGrid(b, IsMineValue) + 1
    ensures DistinctCount(prefix + [(x, y)]) == DistinctCount(prefix) + 1
  {
    assert (prefix + [(x, y)])[..|prefix|] == prefix;
    CountGridUpdate(b, IsMineValue, x, y, MineMark);
    var b1 := Updated(b, x, y, MineMark);
    forall i, j | InGrid(h, w, i, j)
      ensures (b1[i][j] == MineMark <==> (i, j) in prefix + [(x, y)])
      ensures b1[i][j] != MineMark ==> b1[i][j] == b0[i][j]
    {
      if (i, j) != (x, y) {
        assert b1[i][j] == b[i][j];
      }
    }
  }

  /** A draw (x, y) that hits a mine already placed changes nothing, and adds
      no distinct cell to the draws. */
  lemma DrawRepeat(b: seq<seq<int>>, h: int, w: int, prefix: seq<Coord>, x: int, y: int)
    requires Shape(b, h, w) && InGrid(h, w, x, y) && b[x][y] == MineMark
    requires MinesAt(b, h, w, prefix)
    ensures MinesAt(b, h, w, prefix + [(x, y)])
    ensures DistinctCount(prefix + [(x, y)]) == DistinctCount(prefix)
  {
    assert (prefix + [(x, y)])[..|prefix|] == prefix;
    forall i, j | InGrid(h, w, i, j)
      ensures b[i][j] == MineMark <==> (i, j) in prefix + [(x, y)]
    {
    }
  }

  lemma SameMinesAt(b1: seq<seq<int>>, b2: seq<seq<int>>, h: int, w: int, s: seq<Coord>)
    requires Shape(b1, h, w) && Shape(b2, h, w) && SameMines(b1, b2) && MinesAt(b2, h, w, s)
    ensures MinesAt(b1, h, w, s)
  {
    forall i, j | InGrid(h, w, i, j)
      ensures b1[i][j] == MineMark <==> (i, j) in s
    {
      assert IsMineAt(b1, (i, j)) <==> IsMineAt(b2, (i, j));
    }
  }

  // ---------------------------------------------------------------------
  // Counts over grids

  function CountRow<T>(row: seq<T>, P: T -> bool): (r: nat)
    ensures r <= |row|
  {
    if row == [] then 0
    else CountRow(row[..|row| - 1], P) + if P(row[|row| - 1]) then 1 else 0
  }

  /** The number of cells of g that satisfy P. */
  function CountGrid<T>(g: seq<seq<T>>, P: T -> bool): (r: nat)
  {
    if g == [] then 0 else CountGrid(g[..|g| - 1], P) + CountRow(g[|g| - 1], P)
  }

  lemma {:induction false} CountRowUpdate<T>(row: seq<T>, P: T -> bool, j: int, v: T)
    requires 0 <= j < |row|
    ensures CountRow(row[j := v], P) ==
      CountRow(row, P) - (if P(row[j]) then 1 else 0) + (if P(v) then 1 else 0)
  {
    var n := |row|;
    if j == n - 1 {
      assert row[j := v][..n - 1] == row[..n - 1];
    } else {
      assert row[j := v][..n - 1] == row[..n - 1][j := v];
      CountRowUpdate(row[..n - 1], P, j, v);
    }
  }

  /** Replacing one cell changes the count by what the old and the new value contribute. */
  lemma {:induction false} CountGridUpdate<T>(g: seq<seq<T>>, P: T -> bool, x: int, y: int, v: T)
    requires 0 <= x < |g| && 0 <= y < |g[x]|
    ensures CountGrid(Updated(g, x, y, v), P) ==
      CountGrid(g, P) - (if P(g[x][y]) then 1 else 0) + (if P(v) then 1 else 0)
  {
    var n := |g|;
    var g' := Updated(g, x, y, v);
    if x == n - 1 {
      assert g'[..n - 1] == g[..n - 1];
      CountRowUpdate(g[x], P, y, v);
    } else {
      assert g'[..n - 1] == Updated(g[..n - 1], x, y, v);
      CountGridUpdate(g[..n - 1], P, x, y, v);
    }
  }

  lemma {:induction false} CountRowMono<A, B>(r1: seq<A>, P: A -> bool, r2: seq<B>, Q: B -> bool)
    requires |r1| == |r2|
    requires forall j :: 0 <= j < |r1| ==> P(r1[j]) ==> Q(r2[j])
    ensures CountRow(r1, P) <= CountRow(r2, Q)
    ensures CountRow(r1, P) == CountRow(r2, Q) ==> forall j :: 0 <= j < |r1| ==> Q(r2[j]) ==> P(r1[j])
  {
    var n := |r1|;
    if n > 0 {
      CountRowMono(r1[..n - 1], P, r2[..n - 1], Q);
      assert forall j :: 0 <= j < n - 1 ==> r1[..n - 1][j] == r1[j] && r2[..n - 1][j] == r2[j];
    }
  }

  /** Pointwise implication between two grids of one shape bounds their
      counts, and equal counts give the converse implication in every cell. */
  lemma {:induction false} CountGridMono<A, B>(g1: seq<seq<A>>, P: A -> bool, g2: seq<seq<B>>, Q: B -> bool)
    requires |g1| == |g2| && forall i :: 0 <= i < |g1| ==> |g1[i]| == |g2[i]|
    requires forall i, j :: 0 <= i < |g1| && 0 <= j < |g1[i]| ==> P(g1[i][j]) ==> Q(g2[i][j])
    ensures CountGrid(g1, P) <= CountGrid(g2, Q)
    ensures CountGrid(g1, P) == CountGrid(g2, Q) ==>
      forall i, j :: 0 <= i < |g1| && 0 <= j < |g1[i]| ==> Q(g2[i][j]) ==> P(g1[i][j])
  {
    var n := |g1|;
    if n > 0 {
      CountGridMono(g1[..n - 1], P, g2[..n - 1], Q);
      CountRowMono(g1[n - 1], P, g2[n - 1], Q);
      assert forall i :: 0 <= i < n - 1 ==> g1[..n - 1][i] == g1[i] && g2[..n - 1][i] == g2[i];
    }
  }

  /** The counts of a predicate and of its negation add up to the number of cells. */
  lemma {:induction false} CountGridComplement<T>(g: seq<seq<T>>, P: T -> bool, Q: T -> bool, h: nat, w: nat)
    requires Shape(g, h, w)
    requires forall v :: Q(v) == !P(v)
    ensures CountGrid(g, P) + CountGrid(g, Q) == w * h
  {
    if h > 0 {
      assert Shape(g[..h - 1], h - 1, w);
      CountGridComplement(g[..h - 1], P, Q, h - 1, w);
      CountRowComplement(g[h - 1], P, Q);
      assert w * (h - 1) + w == w * h;
    }
  }

  lemma {:induction false} CountRowComplement<T>(row: seq<T>, P: T -> bool, Q: T -> bool)
    requires forall v :: Q(v) == !P(v)
    ensures CountRow(row, P) + CountRow(row, Q) == |row|
  {
    if row != [] {
      CountRowComplement(row[..|row| - 1], P, Q);
    }
  }

  /** A grid with no cell satisfying P counts zero. */
  lemma {:induction false} CountGridNone<T>(g: seq<seq<T>>, P: T -> bool)
    requires forall i, j :: 0 <= i < |g| && 0 <= j < |g[i]| ==> !P(g[i][j])
    ensures CountGrid(g, P) == 0
  {
    if g != [] {
      var n := |g|;
      assert forall i :: 0 <= i < n - 1 ==> g[..n - 1][i] == g[i];
      CountGridNone(g[..n - 1], P);
      CountRowNone(g[n - 1], P);
    }
  }

  lemma {:induction false} CountRowNone<T>(row: seq<T>, P: T -> bool)
    requires forall j :: 0 <= j < |row| ==> !P(row[j])
    ensures CountRow(row, P) == 0
  {
    if row != [] {
      var n := |row|;
      assert forall j :: 0 <= j < n - 1 ==> row[..n - 1][j] == row[j];
      CountRowNone(row[..n - 1], P);
    }
  }

  // ---------------------------------------------------------------------
  // What the player sees, against the hidden board

  /** Every digit shown is the value of a safe cell, and '*' appears only on mines. */
  ghost predicate Consistent(vis: seq<seq<Cell>>, board: seq<seq<int>>, h: int, w: int)
  {
    Shape(vis, h, w) && Shape(board, h, w) &&
    forall i, j :: InGrid(h, w, i, j) ==>
      (vis[i][j].Num? ==> board[i][j] != MineMark && vis[i][j].n == board[i][j]) &&
      (vis[i][j] == Star ==> board[i][j] == MineMark)
  }

  ghost predicate HasStar(vis: seq<seq<Cell>>)
  {
    exists i, j :: 0 <= i < |vis| && 0 <= j < |vis[i]| && vis[i][j] == Star
  }

  /** Every safe cell shows its number. */
  ghost predicate AllSafeRevealed(vis: seq<seq<Cell>>, board: seq<seq<int>>, h: int, w: int)
    requires Shape(vis, h, w) && Shape(board, h, w)
  {
    forall i, j :: InGrid(h, w, i, j) && board[i][j] != MineMark ==> vis[i][j].Num?
  }

  /** The number of safe cells: width * height minus the mines. */
  lemma SafeCount(board: seq<seq<int>>, h: nat, w: nat)
    requires Shape(board, h, w)
    ensures CountGrid(board, IsSafeValue) == w * h - CountGrid(board, IsMineValue)
  {
    CountGridComplement(board, IsMineValue, IsSafeValue, h, w);
  }

  /** With no '*' shown, the win check's count is at most the number of safe
      cells, and reaches it exactly when every safe cell shows its number. */
  lemma {:induction false} RevealedAtMostSafe(vis: seq<seq<Cell>>, board: seq<seq<int>>, h: nat, w: nat)
    requires Consistent(vis, board, h, w) && !HasStar(vis)
    ensures CountGrid(vis, IsRevealed) <= w * h - CountGrid(board, IsMineValue)
    ensures CountGrid(vis, IsRevealed) == w * h - CountGrid(board, IsMineValue) ==> AllSafeRevealed(vis, board, h, w)
  {
    SafeCount(board, h, w);
    forall i, j | 0 <= i < |vis| && 0 <= j < |vis[i]|
      ensures IsRevealed(vis[i][j]) ==> IsSafeValue(board[i][j])
    {
      assert vis[i][j] != Star;
    }
    CountGridMono(vis, IsRevealed, board, IsSafeValue);
    if CountGrid(vis, IsRevealed) == w * h - CountGrid(board, IsMineValue) {
      forall i, j | InGrid(h, w, i, j) && board[i][j] != MineMark
        ensures vis[i][j].Num?
      {
        assert IsSafeValue(board[i][j]);
        assert vis[i][j] != Star;
      }
    }
  }

  /** When every safe cell shows its number, the win check's count reaches the number of safe cells. */
  lemma {:induction false} AllSafeRevealedCount(vis: seq<seq<Cell>>, board: seq<seq<int>>, h: nat, w: nat)
    requires Consistent(vis, board, h, w) && AllSafeRevealed(vis, board, h, w)
    ensures CountGrid(vis, IsRevealed) >= w * h - CountGrid(board, IsMineValue)
  {
    SafeCount(board, h, w);
    forall i, j | 0 <= i < |board| && 0 <= j < |board[i]|
      ensures IsSafeValue(board[i][j]) ==> IsRevealed(vis[i][j])
    {
    }
    CountGridMono(board, IsSafeValue, vis, IsRevealed);
  }

  // ---------------------------------------------------------------------
  // Game status

  /** The status flags agree with the grid: a game is lost exactly when a
      '*' shows, a won game shows every safe cell, and a game still running
      has not reached the win count. Guarded play keeps this true. */
  ghost predicate StatusOk(vis: seq<seq<Cell>>, board: seq<seq<int>>, h: nat, w: nat, numMines: int,
                           gameOver: bool, win: bool)
    requires Shape(vis, h, w) && Shape(board, h, w)
  {
    && (HasStar(vis) <==> gameOver && !win)
    && (win ==> gameOver && AllSafeRevealed(vis, board, h, w))
    && (!gameOver ==> w * h - numMines == 0 || CountGrid(vis, IsRevealed) < w * h - numMines)
  }

  /** A new game, with nothing revealed, has a consistent status. */
  lemma InitialStatusOk(vis: seq<seq<Cell>>, board: seq<seq<int>>, h: nat, w: nat, numMines: int)
    requires Shape(vis, h, w) && Shape(board, h, w) && CountGrid(board, IsMineValue) == numMines
    requires forall i, j :: InGrid(h, w, i, j) ==> vis[i][j] == U
    ensures Consistent(vis, board, h, w)
    ensures StatusOk(vis, board, h, w, numMines, false, false)
  {
    SafeCount(board, h, w);
    CountGridNone(vis, IsRevealed);
  }

  /** On a board with at least one safe cell, a consistent status is won
      exactly when every safe cell shows its number and no '*' shows. */
  lemma WonIffAllSafeRevealed(vis: seq<seq<Cell>>, board: seq<seq<int>>, h: nat, w: nat, numMines: int,
                              gameOver: bool, win: bool)
    requires Consistent(vis, board, h, w) && CountGrid(board, IsMineValue) == numMines
    requires StatusOk(vis, board, h, w, numMines, gameOver, win)
    requires w * h - numMines > 0
    ensures win <==> AllSafeRevealed(vis, board, h, w) && !HasStar(vis)
  {
    if AllSafeRevealed(vis, board, h, w) && !HasStar(vis) {
      AllSafeRevealedCount(vis, board, h, w);
    }
  }

  // ---------------------------------------------------------------------
  // What a reveal may change

  /** From v0 to v1 only unrevealed safe cells changed, each to its number. */
  ghost predicate RevealsOnly(v0: seq<seq<Cell>>, v1: seq<seq<Cell>>, board: seq<seq<int>>, h: int, w: int)
  {
    Shape(v0, h, w) && Shape(v1, h, w) && Shape(board, h, w) &&
    forall i, j :: InGrid(h, w, i, j) && v1[i][j] != v0[i][j] ==>
      v0[i][j] == U && board[i][j] != MineMark && v1[i][j] == Num(board[i][j])
  }

  /** v1 is v0 with cell (x, y) set to c and no other change. */
  ghost predicate ShowsOnly(v0: seq<seq<Cell>>, v1: seq<seq<Cell>>, x: int, y: int, c: Cell)
  {
    0 <= x < |v0| && 0 <= y < |v0[x]| && v1 == Updated(v0, x, y, c)
  }

  /** No cell around (x, y) is still unrevealed. */
  ghost predicate NoHiddenAround(v: seq<seq<Cell>>, h: int, w: int, x: int, y: int)
  {
    Shape(v, h, w) &&
    forall nx, ny :: InGrid(h, w, nx, ny) && Adjacent(x, y, nx, ny) ==> v[nx][ny] != U
  }

  /** Every cell that changed from 'U' to '0' between v0 and v1 has no unrevealed neighbour in v1. */
  ghost predicate CascadeClosed(v0: seq<seq<Cell>>, v1: seq<seq<Cell>>, h: int, w: int)
  {
    Shape(v0, h, w) && Shape(v1, h, w) &&
    forall i, j :: InGrid(h, w, i, j) && v0[i][j] == U && v1[i][j] == Num(0) ==> NoHiddenAround(v1, h, w, i, j)
  }

  /** A reveal keeps what the player sees consistent with the board. */
  lemma RevealsOnlyConsistent(v0: seq<seq<Cell>>, v1: seq<seq<Cell>>, board: seq<seq<int>>, h: int, w: int)
    requires Consistent(v0, board, h, w) && RevealsOnly(v0, v1, board, h, w)
    ensures Consistent(v1, board, h, w)
  {
    forall i, j | InGrid(h, w, i, j)
      ensures (v1[i][j].Num? ==> board[i][j] != MineMark && v1[i][j].n == board[i][j]) &&
              (v1[i][j] == Star ==> board[i][j] == MineMark)
    {
      if v1[i][j] != v0[i][j] {
      }
    }
  }

  /** Reveals compose. */
  lemma RevealsOnlyTrans(v0: seq<seq<Cell>>, v1: seq<seq<Cell>>, v2: seq<seq<Cell>>, board: seq<seq<int>>, h: int, w: int)
    requires RevealsOnly(v0, v1, board, h, w) && RevealsOnly(v1, v2, board, h, w)
    ensures RevealsOnly(v0, v2, board, h, w)
  {
  }

  /** A reveal never adds '*' and never lowers the win check's count. */
  lemma RevealsOnlyCounts(v0: seq<seq<Cell>>, v1: seq<seq<Cell>>, board: seq<seq<int>>, h: int, w: int)
    requires RevealsOnly(v0, v1, board, h, w)
    ensures HasStar(v1) ==> HasStar(v0)
    ensures CountGrid(v0, IsRevealed) <= CountGrid(v1, IsRevealed)
    ensures CountGrid(v1, IsHidden) <= CountGrid(v0, IsHidden)
  {
    if HasStar(v1) {
      var i, j :| 0 <= i < |v1| && 0 <= j < |v1[i]| && v1[i][j] == Star;
      assert v0[i][j] == Star;
    }
    CountGridMono(v0, IsRevealed, v1, IsRevealed);
    CountGridMono(v1, IsHidden, v0, IsHidden);
  }

  /** A reveal that changed cell (x, y) lowers the number of unrevealed cells. */
  lemma RevealsOnlyHiddenDecreases(v0: seq<seq<Cell>>, v1: seq<seq<Cell>>, board: seq<seq<int>>, h: int, w: int,
                                   x: int, y: int)
    requires RevealsOnly(v0, v1, board, h, w) && InGrid(h, w, x, y) && v0[x][y] == U && v1[x][y] != U
    ensures CountGrid(v1, IsHidden) < CountGrid(v0, IsHidden)
  {
    CountGridMono(v1, IsHidden, v0, IsHidden);
  }

  /** A further reveal from v1 to v2 keeps the zero cells closed that were
      closed in v1, since no cell becomes unrevealed again. */
  lemma CascadeClosedStep(v0: seq<seq<Cell>>, v1: seq<seq<Cell>>, v2: seq<seq<Cell>>, board: seq<seq<int>>,
                          h: int, w: int)
    requires RevealsOnly(v0, v1, board, h, w) && RevealsOnly(v1, v2, board, h, w)
    requires CascadeClosed(v0, v1, h, w) && CascadeClosed(v1, v2, h, w)
    ensures CascadeClosed(v0, v2, h, w)
  {
    forall i, j | InGrid(h, w, i, j) && v0[i][j] == U && v2[i][j] == Num(0)
      ensures NoHiddenAround(v2, h, w, i, j)
    {
      if v1[i][j] != U {
        assert v1[i][j] == Num(0);
        assert NoHiddenAround(v1, h, w, i, j);
        forall nx, ny | InGrid(h, w, nx, ny) && Adjacent(i, j, nx, ny)
          ensures v2[nx][ny] != U
        {
          assert v1[nx][ny] != U;
        }
      }
    }
  }

  /** Showing the number of one unrevealed safe cell is a reveal; it leaves the
      cascade closed unless that number is 0, and lowers the number of 'U' cells. */
  lemma RevealOneCell(v0: seq<seq<Cell>>, board: seq<seq<int>>, h: int, w: int, x: int, y: int)
    requires Consistent(v0, board, h, w) && InGrid(h, w, x, y)
    requires v0[x][y] == U && board[x][y] != MineMark
    ensures RevealsOnly(v0, Updated(v0, x, y, Num(board[x][y])), board, h, w)
    ensures Consistent(Updated(v0, x, y, Num(board[x][y])), board, h, w)
    ensures board[x][y] != 0 ==> CascadeClosed(v0, Updated(v0, x, y, Num(board[x][y])), h, w)
    ensures CountGrid(Updated(v0, x, y, Num(board[x][y])), IsHidden) < CountGrid(v0, IsHidden)
  {
    var v1 := Updated(v0, x, y, Num(board[x][y]));
    assert RevealsOnly(v0, v1, board, h, w);
    RevealsOnlyConsistent(v0, v1, board, h, w);
    RevealsOnlyHiddenDecreases(v0, v1, board, h, w, x, y);
  }

  /** The first k listed cells lie in the grid and none of them is 'U' in v. */
  ghost predicate ShownUpTo(v: seq<seq<Cell>>, h: int, w: int, cs: seq<Coord>, k: int)
  {
    Shape(v, h, w) && 0 <= k <= |cs| &&
    forall m :: 0 <= m < k ==> InGrid(h, w, cs[m].0, cs[m].1) && v[cs[m].0][cs[m].1] != U
  }

  /** A reveal step never hides a cell again. */
  lemma RevealsOnlyKeepsShown(v0: seq<seq<Cell>>, v1: seq<seq<Cell>>, board: seq<seq<int>>, h: int, w: int,
                              cs: seq<Coord>, k: int)
    requires RevealsOnly(v0, v1, board, h, w) && ShownUpTo(v0, h, w, cs, k)
    ensures ShownUpTo(v1, h, w, cs, k)
  {
    forall m | 0 <= m < k
      ensures v1[cs[m].0][cs[m].1] != U
    {
      assert v0[cs[m].0][cs[m].1] != U;
    }
  }

  /** Once every listed neighbour of (x, y) is revealed, no cell around it is 'U'. */
  lemma ShownAround(v: seq<seq<Cell>>, h: int, w: int, x: int, y: int)
    requires ShownUpTo(v, h, w, Neighbors(h, w, x, y), |Neighbors(h, w, x, y)|)
    ensures NoHiddenAround(v, h, w, x, y)
  {
    var cs := Neighbors(h, w, x, y);
    forall nx, ny | InGrid(h, w, nx, ny) && Adjacent(x, y, nx, ny)
      ensures v[nx][ny] != U
    {
      assert (nx, ny) in cs;
      var m :| 0 <= m < |cs| && cs[m] == (nx, ny);
      assert v[cs[m].0][cs[m].1] != U;
    }
  }

  /** The cascade from a 0 cell (x, y) is closed once the cells revealed
      after it are closed and no neighbour of (x, y) is left unrevealed. */
  lemma CascadeFromZero(v0: seq<seq<Cell>>, v2: seq<seq<Cell>>, board: seq<seq<int>>, h: int, w: int, x: int, y: int)
    requires Shape(v0, h, w) && InGrid(h, w, x, y) && v0[x][y] == U
    requires CascadeClosed(Updated(v0, x, y, Num(0)), v2, h, w) && NoHiddenAround(v2, h, w, x, y)
    ensures CascadeClosed(v0, v2, h, w)
  {
    var v1 := Updated(v0, x, y, Num(0));
    forall i, j | InGrid(h, w, i, j) && v0[i][j] == U && v2[i][j] == Num(0)
      ensures NoHiddenAround(v2, h, w, i, j)
    {
      if (i, j) != (x, y) {
        assert v1[i][j] == U;
      }
    }
  }

  // ---------------------------------------------------------------------
  // Which cells a reveal shows

  /** c lies in the grid and v shows a 0 there. */
  ghost predicate ShowsZero(v: seq<seq<Cell>>, h: int, w: int, c: Coord)
  {
    Shape(v, h, w) && InGrid(h, w, c.0, c.1) && v[c.0][c.1] == Num(0)
  }

  /** The cells that changed from v0 to v1 are exactly the listed ones. */
  ghost predicate Traced(v0: seq<seq<Cell>>, v1: seq<seq<Cell>>, h: int, w: int, order: seq<Coord>)
  {
    Shape(v0, h, w) && Shape(v1, h, w) &&
    (forall m :: 0 <= m < |order| ==>
       InGrid(h, w, order[m].0, order[m].1) && v1[order[m].0][order[m].1] != v0[order[m].0][order[m].1]) &&
    (forall i, j :: InGrid(h, w, i, j) && v1[i][j] != v0[i][j] ==> (i, j) in order)
  }

  /** Every listed cell after the first is next to a cell listed before it
      that v shows as 0: the list is the order in which a flood fill started
      at the first cell reached its cells. */
  ghost predicate Chain(v: seq<seq<Cell>>, h: int, w: int, order: seq<Coord>)
  {
    forall m :: 0 < m < |order| ==> ZeroBefore(v, h, w, order, m)
  }

  /** Some cell listed before position m is a 0 in v next to the m-th cell. */
  ghost predicate ZeroBefore(v: seq<seq<Cell>>, h: int, w: int, order: seq<Coord>, m: int)
    requires 0 <= m < |order|
  {
    exists p :: 0 <= p < m && ShowsZero(v, h, w, order[p]) &&
      Adjacent(order[p].0, order[p].1, order[m].0, order[m].1)
  }

  /** Showing one 'U' cell changes exactly that cell. */
  lemma TracedOne(v0: seq<seq<Cell>>, h: int, w: int, x: int, y: int, c: Cell)
    requires Shape(v0, h, w) && InGrid(h, w, x, y) && v0[x][y] == U && c != U
    ensures Traced(v0, Updated(v0, x, y, c), h, w, [(x, y)])
  {
  }

  /** The cells changed by two reveals in a row are those of the first
      followed by those of the second. */
  lemma TracedStep(v0: seq<seq<Cell>>, v1: seq<seq<Cell>>, v2: seq<seq<Cell>>, board: seq<seq<int>>,
                   h: int, w: int, o1: seq<Coord>, o2: seq<Coord>)
    requires RevealsOnly(v0, v1, board, h, w) && RevealsOnly(v1, v2, board, h, w)
    requires Traced(v0, v1, h, w, o1) && Traced(v1, v2, h, w, o2)
    ensures Traced(v0, v2, h, w, o1 + o2)
  {
    var o := o1 + o2;
    forall m | 0 <= m < |o|
      ensures InGrid(h, w, o[m].0, o[m].1) && v2[o[m].0][o[m].1] != v0[o[m].0][o[m].1]
    {
      if m < |o1| {
        assert o[m] == o1[m];
      } else {
        assert o[m] == o2[m - |o1|];
      }
    }
    forall i, j | InGrid(h, w, i, j) && v2[i][j] != v0[i][j]
      ensures (i, j) in o
    {
      if v1[i][j] != v0[i][j] {
        assert (i, j) in o1;
      } else {
        assert (i, j) in o2;
      }
    }
  }

  /** One turn of the flood-fill loop around the 0 at (x, y): appending the
      cells that the reveal of a neighbour of (x, y) reached keeps the chain. */
  lemma ChainStep(v1: seq<seq<Cell>>, v2: seq<seq<Cell>>, board: seq<seq<int>>, h: int, w: int,
                  x: int, y: int, o: seq<Coord>, ro: seq<Coord>)
    requires RevealsOnly(v1, v2, board, h, w) && ShowsZero(v1, h, w, (x, y))
    requires Chain(v1, h, w, [(x, y)] + o) && Chain(v2, h, w, ro)
    requires |ro| > 0 && Adjacent(x, y, ro[0].0, ro[0].1)
    ensures Chain(v2, h, w, [(x, y)] + o + ro)
  {
    var a := [(x, y)] + o;
    var s := a + ro;
    forall m | 0 < m < |s|
      ensures ZeroBefore(v2, h, w, s, m)
    {
      if m < |a| {
        assert ZeroBefore(v1, h, w, a, m);
        var p :| 0 <= p < m && ShowsZero(v1, h, w, a[p]) && Adjacent(a[p].0, a[p].1, a[m].0, a[m].1);
        assert s[p] == a[p] && s[m] == a[m];
        assert v2[a[p].0][a[p].1] == v1[a[p].0][a[p].1];
        assert ShowsZero(v2, h, w, s[p]);
      } else if m == |a| {
        assert s[0] == (x, y) && s[m] == ro[0];
        assert v2[x][y] == v1[x][y];
        assert ShowsZero(v2, h, w, s[0]);
      } else {
        var q := m - |a|;
        assert ZeroBefore(v2, h, w, ro, q);
        var p :| 0 <= p < q && ShowsZero(v2, h, w, ro[p]) && Adjacent(ro[p].0, ro[p].1, ro[q].0, ro[q].1);
        assert s[|a| + p] == ro[p] && s[m] == ro[q];
        assert ShowsZero(v2, h, w, s[|a| + p]) && Adjacent(s[|a| + p].0, s[|a| + p].1, s[m].0, s[m].1);
      }
    }
    assert Chain(v2, h, w, s);
  }

  /** A cell that one reveal reached along its chain is also changed by any
      other reveal from the same grid that changed the chain's first cell and
      is closed around its zeros. */
  lemma {:induction false} ChainReached(v0: seq<seq<Cell>>, v1: seq<seq<Cell>>, v2: seq<seq<Cell>>,
                                        board: seq<seq<int>>, h: int, w: int, o1: seq<Coord>, m: int)
    requires RevealsOnly(v0, v1, board, h, w) && Traced(v0, v1, h, w, o1) && Chain(v1, h, w, o1)
    requires RevealsOnly(v0, v2, board, h, w) && CascadeClosed(v0, v2, h, w)
    requires 0 <= m < |o1| && v2[o1[0].0][o1[0].1] != v0[o1[0].0][o1[0].1]
    ensures v2[o1[m].0][o1[m].1] != v0[o1[m].0][o1[m].1]
    decreases m
  {
    if m > 0 {
      assert ZeroBefore(v1, h, w, o1, m);
      var p :| 0 <= p < m && ShowsZero(v1, h, w, o1[p]) && Adjacent(o1[p].0, o1[p].1, o1[m].0, o1[m].1);
      ChainReached(v0, v1, v2, board, h, w, o1, p);
      var a, b := o1[p].0, o1[p].1;
      assert v1[a][b] != v0[a][b] && v2[a][b] != v0[a][b];
      assert v0[a][b] == U && v2[a][b] == Num(0);
      assert NoHiddenAround(v2, h, w, a, b);
      assert InGrid(h, w, o1[m].0, o1[m].1);
    }
  }

  /** The cells a safe reveal shows do not depend on the order of the flood
      fill: two outcomes of revealing (x, y) on the same grid that each change
      only 'U' safe cells to their numbers, leave every new 0 without a 'U'
      neighbour and reach each changed cell along a chain of zeros from
      (x, y) are the same grid. */
  lemma RevealOutcomeUnique(v0: seq<seq<Cell>>, v1: seq<seq<Cell>>, v2: seq<seq<Cell>>, board: seq<seq<int>>,
                            h: int, w: int, x: int, y: int, o1: seq<Coord>, o2: seq<Coord>)
    requires RevealsOnly(v0, v1, board, h, w) && CascadeClosed(v0, v1, h, w)
    requires Traced(v0, v1, h, w, o1) && Chain(v1, h, w, o1) && |o1| > 0 && o1[0] == (x, y)
    requires RevealsOnly(v0, v2, board, h, w) && CascadeClosed(v0, v2, h, w)
    requires Traced(v0, v2, h, w, o2) && Chain(v2, h, w, o2) && |o2| > 0 && o2[0] == (x, y)
    ensures v1 == v2
  {
    forall i, j | InGrid(h, w, i, j)
      ensures v1[i][j] == v2[i][j]
    {
      if v1[i][j] != v0[i][j] {
        var m :| 0 <= m < |o1| && o1[m] == (i, j);
        ChainReached(v0, v1, v2, board, h, w, o1, m);
      } else if v2[i][j] != v0[i][j] {
        var m :| 0 <= m < |o2| && o2[m] == (i, j);
        ChainReached(v0, v2, v1, board, h, w, o2, m);
      }
    }
    forall i | 0 <= i < h
      ensures v1[i] == v2[i]
    {
      assert forall j :: 0 <= j < w ==> v1[i][j] == v2[i][j];
    }
  }

  // ---------------------------------------------------------------------
  // The flood-fill loop around a 0

  /** The state of the flood-fill loop around the 0 at (x, y) after the first
      k listed neighbours: from v0 to v only 'U' safe cells became their
      numbers, every new 0 has no 'U' neighbour, the first k neighbours are
      not 'U', (x, y) still shows 0, and `order` lists the changed cells,
      each reached from (x, y) along shown zeros. */
  ghost predicate Flooded(v0: seq<seq<Cell>>, v: seq<seq<Cell>>, board: seq<seq<int>>, h: int, w: int,
                          x: int, y: int, cs: seq<Coord>, k: int, order: seq<Coord>)
  {
    RevealsOnly(v0, v, board, h, w) && CascadeClosed(v0, v, h, w) && ShownUpTo(v, h, w, cs, k) &&
    ShowsZero(v, h, w, (x, y)) && Traced(v0, v, h, w, order) && Chain(v, h, w, [(x, y)] + order)
  }

  /** Before the first turn nothing has changed. */
  lemma FloodStart(v: seq<seq<Cell>>, board: seq<seq<int>>, h: int, w: int, x: int, y: int, cs: seq<Coord>)
    requires Shape(v, h, w) && Shape(board, h, w) && ShowsZero(v, h, w, (x, y))
    ensures Flooded(v, v, board, h, w, x, y, cs, 0, [])
  {
  }

  /** A turn that finds the k-th neighbour already shown or flagged changes nothing. */
  lemma FloodSkip(v0: seq<seq<Cell>>, v: seq<seq<Cell>>, board: seq<seq<int>>, h: int, w: int,
                  x: int, y: int, cs: seq<Coord>, k: int, order: seq<Coord>)
    requires Flooded(v0, v, board, h, w, x, y, cs, k, order)
    requires k < |cs| && InGrid(h, w, cs[k].0, cs[k].1) && v[cs[k].0][cs[k].1] != U
    ensures Flooded(v0, v, board, h, w, x, y, cs, k + 1, order)
  {
  }

  /** A turn that reveals the k-th neighbour, a cell next to (x, y): the
      reveal from v1 to v2 extends the one from v0, keeps it closed around
      its zeros, leaves the first k + 1 neighbours revealed, appends the
      cells it reached to the order, and never lowers the revealed count. */
  lemma FloodStep(v0: seq<seq<Cell>>, v1: seq<seq<Cell>>, v2: seq<seq<Cell>>, board: seq<seq<int>>,
                  h: int, w: int, x: int, y: int, cs: seq<Coord>, k: int, order: seq<Coord>, reached: seq<Coord>)
    requires Flooded(v0, v1, board, h, w, x, y, cs, k, order)
    requires RevealsOnly(v1, v2, board, h, w) && CascadeClosed(v1, v2, h, w)
    requires Traced(v1, v2, h, w, reached) && Chain(v2, h, w, reached)
    requires k < |cs| && |reached| > 0 && reached[0] == cs[k] && Adjacent(x, y, cs[k].0, cs[k].1)
    ensures Flooded(v0, v2, board, h, w, x, y, cs, k + 1, order + reached)
    ensures CountGrid(v1, IsRevealed) <= CountGrid(v2, IsRevealed)
  {
    FloodStepShown(v0, v1, v2, board, h, w, x, y, cs, k, order, reached);
    FloodStepTrace(v0, v1, v2, board, h, w, x, y, order, reached);
    RevealsOnlyCounts(v1, v2, board, h, w);
  }

  /** The part of FloodStep about what is shown. */
  lemma FloodStepShown(v0: seq<seq<Cell>>, v1: seq<seq<Cell>>, v2: seq<seq<Cell>>, board: seq<seq<int>>,
                       h: int, w: int, x: int, y: int, cs: seq<Coord>, k: int, order: seq<Coord>, reached: seq<Coord>)
    requires Flooded(v0, v1, board, h, w, x, y, cs, k, order)
    requires RevealsOnly(v1, v2, board, h, w) && CascadeClosed(v1, v2, h, w)
    requires Traced(v1, v2, h, w, reached) && k < |cs| && |reached| > 0 && reached[0] == cs[k]
    ensures RevealsOnly(v0, v2, board, h, w) && CascadeClosed(v0, v2, h, w)
    ensures ShownUpTo(v2, h, w, cs, k + 1) && ShowsZero(v2, h, w, (x, y))
  {
    RevealsOnlyTrans(v0, v1, v2, board, h, w);
    CascadeClosedStep(v0, v1, v2, board, h, w);
    RevealsOnlyKeepsShown(v1, v2, board, h, w, cs, k);
    assert v2[x][y] == v1[x][y];
    assert v2[cs[k].0][cs[k].1] != v1[cs[k].0][cs[k].1];
  }

  /** The part of FloodStep about the order of the changed cells. */
  lemma FloodStepTrace(v0: seq<seq<Cell>>, v1: seq<seq<Cell>>, v2: seq<seq<Cell>>, board: seq<seq<int>>,
                       h: int, w: int, x: int, y: int, order: seq<Coord>, reached: seq<Coord>)
    requires RevealsOnly(v0, v1, board, h, w) && ShowsZero(v1, h, w, (x, y))
    requires Traced(v0, v1, h, w, order) && Chain(v1, h, w, [(x, y)] + order)
    requires RevealsOnly(v1, v2, board, h, w) && Traced(v1, v2, h, w, reached) && Chain(v2, h, w, reached)
    requires |reached| > 0 && Adjacent(x, y, reached[0].0, reached[0].1)
    ensures Traced(v0, v2, h, w, order + reached) && Chain(v2, h, w, [(x, y)] + (order + reached))
  {
    TracedStep(v0, v1, v2, board, h, w, order, reached);
    ChainStep(v1, v2, board, h, w, x, y, order, reached);
    assert [(x, y)] + (order + reached) == [(x, y)] + order + reached;
  }

  /** A loop that ran to the end leaves no 'U' cell around (x, y). */
  lemma FloodDone(v0: seq<seq<Cell>>, v: seq<seq<Cell>>, board: seq<seq<int>>, h: int, w: int,
                  x: int, y: int, order: seq<Coord>)
    requires Flooded(v0, v, board, h, w, x, y, Neighbors(h, w, x, y), |Neighbors(h, w, x, y)|, order)
    ensures RevealsOnly(v0, v, board, h, w) && CascadeClosed(v0, v, h, w) && NoHiddenAround(v, h, w, x, y)
    ensures Traced(v0, v, h, w, order) && Chain(v, h, w, [(x, y)] + order)
  {
    ShownAround(v, h, w, x, y);
  }
}
