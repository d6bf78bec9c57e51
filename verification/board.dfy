/**
  The game state of tic-tac-toe: a 3x3 grid of cells, the eight winning lines,
  winner and draw detection, and the single-cell write that every move and every
  speculative search step performs.
 */
module Board {
  import opened Wrappers

  /** One square: blank (" " in the program), or a player's mark ("X" or "O"). */
  datatype Cell = Blank | X | O

  /** A player's mark: a cell value other than blank. */
  type Mark = c: Cell | c != Blank witness X

  /** The human player always plays X and moves first; the computer opponent plays O. */
  const PlayerSymbol: Mark := X
  const NpcSymbol: Mark := O

  /** The board: a list of three rows, each a list of three cells. */
  type Grid = g: seq<seq<Cell>> | |g| == 3 && |g[0]| == 3 && |g[1]| == 3 && |g[2]| == 3
    witness [[Blank, Blank, Blank], [Blank, Blank, Blank], [Blank, Blank, Blank]]

  const EmptyGrid: Grid := [[Blank, Blank, Blank], [Blank, Blank, Blank], [Blank, Blank, Blank]]

  /** A (row, column) pair, 0-based. */
  datatype Pos = Pos(row: nat, col: nat)

  predicate InBounds(p: Pos) {
    p.row < 3 && p.col < 3
  }

  /** Position of a cell in row-major order, the order every scan of the program uses. */
  function Index(p: Pos): nat {
    3 * p.row + p.col
  }

  predicate IsBlank(g: Grid, p: Pos) {
    InBounds(p) && g[p.row][p.col] == Blank
  }

  /** The nine cells in row-major order. */
  function AllCells(): (cells: seq<Pos>)
    ensures forall p :: p in cells <==> InBounds(p)
  {
    [Pos(0, 0), Pos(0, 1), Pos(0, 2),
     Pos(1, 0), Pos(1, 1), Pos(1, 2),
     Pos(2, 0), Pos(2, 1), Pos(2, 2)]
  }

  /** The blank cells among `cands`, in the order of `cands` (a filtering comprehension). */
  function BlankCells(g: Grid, cands: seq<Pos>): (r: seq<Pos>)
    ensures forall p :: p in r <==> p in cands && IsBlank(g, p)
    ensures |r| <= |cands|
  {
    if cands == [] then []
    else
      var rest := BlankCells(g, cands[1..]);
      assert forall p :: p in cands <==> p == cands[0] || p in cands[1..];
      if IsBlank(g, cands[0]) then [cands[0]] + rest else rest
  }

  /** The cells of the board in row-major order. */
  function Cells(g: Grid): (cells: seq<Cell>)
    ensures |cells| == 9
  {
    g[0] + g[1] + g[2]
  }

  /** The cell at (row, col) sits at row-major index 3 * row + col of Cells(g). */
  lemma CellAt(g: Grid, row: nat, col: nat)
    requires row < 3 && col < 3
    ensures Cells(g)[3 * row + col] == g[row][col]
  {
    if row == 0 {
      assert Cells(g)[col] == g[0][col];
    } else if row == 1 {
      assert Cells(g)[3 + col] == g[1][col];
    } else {
      assert Cells(g)[6 + col] == g[2][col];
    }
  }

  /** How many entries of `s` hold `c`; over the board's cells, how many blanks, X's or O's it has. */
  function CountIn(s: seq<Cell>, c: Cell): (n: nat)
    ensures n <= |s|
    ensures n == 0 <==> c !in s
  {
    if s == [] then 0 else (if s[0] == c then 1 else 0) + CountIn(s[1..], c)
  }

  /** Writing `v` at position k changes the count of `c` by the cell gained and the cell lost. */
  lemma {:induction false} CountInUpdate(s: seq<Cell>, k: nat, v: Cell, c: Cell)
    requires k < |s|
    ensures CountIn(s[k := v], c) == CountIn(s, c) + (if v == c then 1 else 0) - (if s[k] == c then 1 else 0)
  {
    if k > 0 {
      CountInUpdate(s[1..], k - 1, v, c);
      assert s[k := v][1..] == s[1..][k - 1 := v];
    }
  }

  /** Every cell is blank, X or O, so the three counts add up to the number of cells. */
  lemma {:induction false} CountsCoverCells(s: seq<Cell>)
    ensures CountIn(s, Blank) + CountIn(s, X) + CountIn(s, O) == |s|
  {
    if s != [] {
      CountsCoverCells(s[1..]);
    }
  }

  /** How many cells of the board hold `c`. */
  function Count(g: Grid, c: Cell): (n: nat)
    ensures n <= 9
  {
    CountIn(Cells(g), c)
  }

  /** Blank cells and marked cells together are the nine cells of the board. */
  lemma CountsCoverBoard(g: Grid)
    ensures Count(g, Blank) + Count(g, X) + Count(g, O) == 9
  {
    CountsCoverCells(Cells(g));
  }

  /**
    The board with cell (row, col) set to `s` and every other cell as before:
    `board[row][col] = s`. Writing a mark over a blank removes one blank.
   */
  function Place(g: Grid, row: nat, col: nat, s: Cell): (r: Grid)
    requires row < 3 && col < 3
    ensures r[row][col] == s
    ensures forall i, j | 0 <= i < 3 && 0 <= j < 3 && (i != row || j != col) :: r[i][j] == g[i][j]
    ensures forall c :: Count(r, c) == Count(g, c) + (if c == s then 1 else 0) - (if c == g[row][col] then 1 else 0)
  {
    var r := g[row := g[row][col := s]];
    assert Cells(r) == Cells(g)[3 * row + col := s];
    forall c
      ensures Count(r, c) == Count(g, c) + (if c == s then 1 else 0) - (if c == g[row][col] then 1 else 0)
    {
      CountInUpdate(Cells(g), 3 * row + col, s, c);
    }
    r
  }

  /** Writing back the old content of a cell undoes a placement exactly. */
  lemma PlaceUndo(g: Grid, row: nat, col: nat, s: Cell)
    requires row < 3 && col < 3
    ensures Place(Place(g, row, col, s), row, col, g[row][col]) == g
  {
    var r := Place(Place(g, row, col, s), row, col, g[row][col]);
    forall i | 0 <= i < 3
      ensures r[i] == g[i]
    {
      assert |r[i]| == |g[i]| == 3;
      forall j | 0 <= j < 3
        ensures r[i][j] == g[i][j]
      {
      }
    }
  }

  /** The opposite mark: `switch_player` maps the player's X to O and anything else to X. */
  function Other(m: Mark): (r: Mark)
    ensures r != m
  {
    if m == PlayerSymbol then NpcSymbol else PlayerSymbol
  }

  /** Switching the turn twice restores it. */
  lemma OtherInvolution(m: Mark)
    ensures Other(Other(m)) == m
  {
  }

  /** The eight lines in the program's scan order: three rows, three columns, then the two diagonals. */
  function Lines(g: Grid): (ls: seq<seq<Cell>>)
    ensures |ls| == 8 && forall k | 0 <= k < 8 :: |ls[k]| == 3
    ensures forall i | 0 <= i < 3 :: ls[i] == g[i] && ls[3 + i] == [g[0][i], g[1][i], g[2][i]]
    ensures ls[6] == [g[0][0], g[1][1], g[2][2]] && ls[7] == [g[0][2], g[1][1], g[2][0]]
  {
    [g[0], g[1], g[2],
     [g[0][0], g[1][0], g[2][0]], [g[0][1], g[1][1], g[2][1]], [g[0][2], g[1][2], g[2][2]],
     [g[0][0], g[1][1], g[2][2]], [g[0][2], g[1][1], g[2][0]]]
  }

  /** A line is won when its first cell is a mark and the line holds three of it. */
  predicate Complete(line: seq<Cell>)
    requires |line| == 3
    ensures Complete(line) <==> CountIn(line, line[0]) == 3 && line[0] != Blank
  {
    line[0] != Blank && line[1] == line[0] && line[2] == line[0]
  }

  predicate WellFormedLines(ls: seq<seq<Cell>>) {
    forall k | 0 <= k < |ls| :: |ls[k]| == 3
  }

  /** The scan `for line in lines`, from line `i` on: the mark of the first complete line, if any. */
  function WinnerFrom(ls: seq<seq<Cell>>, i: nat): (w: Option<Cell>)
    requires WellFormedLines(ls) && i <= |ls|
    ensures w.Some? ==> w.value != Blank
    decreases |ls| - i
  {
    if i == |ls| then None
    else if Complete(ls[i]) then Some(ls[i][0])
    else WinnerFrom(ls, i + 1)
  }

  /**
    The scan reports a mark exactly when some line from `i` on is complete, and
    then it reports the mark of the first such line.
   */
  lemma {:induction false} WinnerFromIsFirstComplete(ls: seq<seq<Cell>>, i: nat)
    requires WellFormedLines(ls) && i <= |ls|
    ensures WinnerFrom(ls, i).Some? ==> exists k | i <= k < |ls| ::
              && Complete(ls[k]) && ls[k][0] == WinnerFrom(ls, i).value
              && forall j | i <= j < k :: !Complete(ls[j])
    ensures WinnerFrom(ls, i).None? <==> forall k | i <= k < |ls| :: !Complete(ls[k])
    decreases |ls| - i
  {
    if i < |ls| && !Complete(ls[i]) {
      WinnerFromIsFirstComplete(ls, i + 1);
    }
  }

  /** `check_winner`: the mark of the first complete line, scanning rows, columns, then diagonals. */
  function Winner(g: Grid): (w: Option<Cell>)
    ensures w.Some? ==> w.value != Blank
  {
    WinnerFrom(Lines(g), 0)
  }

  /**
    `check_winner` reports a mark exactly when some line is complete, and then the
    mark of the first complete line in row, column, diagonal order.
   */
  lemma WinnerIsFirstCompleteLine(g: Grid)
    ensures Winner(g).Some? ==> exists k | 0 <= k < 8 ::
              && Complete(Lines(g)[k]) && Lines(g)[k][0] == Winner(g).value
              && forall j | 0 <= j < k :: !Complete(Lines(g)[j])
    ensures Winner(g).None? <==> forall k | 0 <= k < 8 :: !Complete(Lines(g)[k])
  {
    WinnerFromIsFirstComplete(Lines(g), 0);
  }

  /** `is_full`: no cell of the board, read row by row, is blank. */
  function IsFull(g: Grid): (full: bool)
    ensures full <==> Count(g, Blank) == 0
  {
    Blank !in Cells(g)
  }

  /** A board is full exactly when no position holds a blank. */
  lemma FullIffNoBlank(g: Grid)
    ensures IsFull(g) <==> forall p :: !IsBlank(g, p)
  {
    if IsFull(g) {
      forall p | InBounds(p)
        ensures !IsBlank(g, p)
      {
        CellAt(g, p.row, p.col);
      }
    } else {
      var k :| 0 <= k < 9 && Cells(g)[k] == Blank;
      var p := if k < 3 then Pos(0, k) else if k < 6 then Pos(1, k - 3) else Pos(2, k - 6);
      CellAt(g, p.row, p.col);
      assert IsBlank(g, p);
    }
  }
}
