/**
  What the computer opponent's strategies promise, stated over board values:
  the one-move win test behind the medium strategy's win and block rules, the
  medium strategy's priority list, and plain (unpruned) depth-scored minimax,
  against which the program's alpha-beta search and hard strategy are proved.
 */
module Strategy {
  import opened Wrappers
  import opened Board

  /** `sys.maxsize` of a 64-bit interpreter: the program's stand-in for infinity. */
  const MaxSize: int := 0x7FFF_FFFF_FFFF_FFFF

  function Max(a: int, b: int): (m: int)
    ensures m >= a && m >= b && (m == a || m == b)
  {
    if a >= b then a else b
  }

  function Min(a: int, b: int): (m: int)
    ensures m <= a && m <= b && (m == a || m == b)
  {
    if a <= b then a else b
  }

  // ---------------------------------------------------------------------------
  // One-move wins (find_best_move) and the medium strategy

  /** Playing `s` on the blank cell `p` makes `check_winner` report `s`. */
  predicate Wins(g: Grid, p: Pos, s: Mark) {
    IsBlank(g, p) && Winner(Place(g, p.row, p.col, s)) == Some(s)
  }

  /** `p` is the first winning cell for `s` in row-major order. */
  ghost predicate FirstWin(g: Grid, p: Pos, s: Mark) {
    Wins(g, p, s) && forall q :: Wins(g, q, s) ==> Index(p) <= Index(q)
  }

  ghost predicate NoWin(g: Grid, s: Mark) {
    forall q :: !Wins(g, q, s)
  }

  /** At most one cell is the first winning cell. */
  lemma FirstWinUnique(g: Grid, p: Pos, q: Pos, s: Mark)
    requires FirstWin(g, p, s) && FirstWin(g, q, s)
    ensures p == q
  {
    assert Index(p) == Index(q);
  }

  const Corners: seq<Pos> := [Pos(0, 0), Pos(0, 2), Pos(2, 0), Pos(2, 2)]
  const Sides: seq<Pos> := [Pos(0, 1), Pos(1, 0), Pos(1, 2), Pos(2, 1)]

  /**
    The cells the medium strategy may return, by its priority list: the first
    winning cell for O; else the first cell where X would win (a block); else the
    centre; else any blank corner; else any blank side; else any blank cell.
   */
  ghost predicate MediumChoice(g: Grid, p: Pos) {
    if !NoWin(g, NpcSymbol) then FirstWin(g, p, NpcSymbol)
    else if !NoWin(g, PlayerSymbol) then FirstWin(g, p, PlayerSymbol)
    else if g[1][1] == Blank then p == Pos(1, 1)
    else if exists c :: c in Corners && IsBlank(g, c) then p in Corners && IsBlank(g, p)
    else if exists c :: c in Sides && IsBlank(g, c) then p in Sides && IsBlank(g, p)
    else IsBlank(g, p)
  }

  /** Every cell the medium strategy may return is blank. */
  lemma MediumChoiceIsBlank(g: Grid, p: Pos)
    requires MediumChoice(g, p)
    ensures IsBlank(g, p)
  {
  }

  /**
    Centre, corners and sides cover the board, so on a board with a blank cell the
    medium strategy never reaches its random fallback.
   */
  lemma MediumFallbackUnreachable(g: Grid)
    requires exists p :: IsBlank(g, p)
    requires g[1][1] != Blank
    requires forall c :: c in Corners ==> !IsBlank(g, c)
    ensures exists c :: c in Sides && IsBlank(g, c)
  {
    var p :| IsBlank(g, p);
    assert p !in Corners && p != Pos(1, 1);
    assert p in Sides;
  }

  /** O O _ / X X _ / _ _ _: O can win at (0, 2), and X could also win at (1, 2). */
  const WinOrBlockBoard: Grid := [[O, O, Blank], [X, X, Blank], [Blank, Blank, Blank]]
  /** X X _ / O _ _ / _ _ _: O cannot win at once, X threatens (0, 2). */
  const BlockBoard: Grid := [[X, X, Blank], [O, Blank, Blank], [Blank, Blank, Blank]]

  /** With a win available, the medium strategy takes it rather than blocking. */
  lemma MediumWinsBeforeBlocking(p: Pos)
    requires MediumChoice(WinOrBlockBoard, p)
    ensures p == Pos(0, 2)
  {
    var g := WinOrBlockBoard;
    assert Wins(g, Pos(0, 2), NpcSymbol);
    forall q | Wins(g, q, NpcSymbol) ensures 2 <= Index(q) {
      assert IsBlank(g, q);
    }
    FirstWinUnique(g, p, Pos(0, 2), NpcSymbol);
  }

  /** No O move on BlockBoard completes a line. */
  lemma BlockBoardNoOWin(row: nat, col: nat)
    requires row < 3 && col < 3 && BlockBoard[row][col] == Blank
    ensures Winner(Place(BlockBoard, row, col, NpcSymbol)) == None
  {
    var r := Place(BlockBoard, row, col, NpcSymbol);
    WinnerIsFirstCompleteLine(r);
    assert r[0][0] == X && r[1][0] == O;
    assert forall k | 0 <= k < 8 :: !Complete(Lines(r)[k]);
  }

  /** With no win available, the medium strategy blocks X's winning cell. */
  lemma MediumBlocks(p: Pos)
    requires MediumChoice(BlockBoard, p)
    ensures p == Pos(0, 2)
  {
    var g := BlockBoard;
    forall q ensures !Wins(g, q, NpcSymbol) {
      if IsBlank(g, q) {
        BlockBoardNoOWin(q.row, q.col);
      }
    }
    assert Wins(g, Pos(0, 2), PlayerSymbol);
    forall q | Wins(g, q, PlayerSymbol) ensures 2 <= Index(q) {
      assert IsBlank(g, q);
    }
    FirstWinUnique(g, p, Pos(0, 2), PlayerSymbol);
  }

  // ---------------------------------------------------------------------------
  // Plain minimax: the reference for the alpha-beta search

  /** O, the computer, is the maximizing side; X the minimizing side. */
  function Mover(maximizing: bool): Mark {
    if maximizing then NpcSymbol else PlayerSymbol
  }

  /** The starting accumulator of a layer: -maxsize for a maximum, maxsize for a minimum. */
  function Initial(maximizing: bool): int {
    if maximizing then -MaxSize else MaxSize
  }

  function Combine(maximizing: bool, acc: int, v: int): int {
    if maximizing then Max(acc, v) else Min(acc, v)
  }

  /** The points the row-major scan passes through: (row, col) with col <= 3, ending at (3, 0). */
  predicate ScanPoint(row: nat, col: nat) {
    (row < 3 && col <= 3) || (row == 3 && col == 0)
  }

  /**
    The minimax value of `g` at `depth`: 10 - depth when O has won, depth - 10 when
    X has won, 0 on a full board, and otherwise the best value over every blank
    cell, scanned in row-major order without pruning.
   */
  function MinimaxValue(g: Grid, depth: nat, maximizing: bool): int
    decreases Count(g, Blank), 1
  {
    var w := Winner(g);
    if w == Some(NpcSymbol) then 10 - depth
    else if w == Some(PlayerSymbol) then depth - 10
    else if IsFull(g) then 0
    else BestBefore(g, depth, maximizing, 3, 0)
  }

  /** The best child value over the blank cells strictly before (row, col) in row-major order. */
  function BestBefore(g: Grid, depth: nat, maximizing: bool, row: nat, col: nat): int
    requires ScanPoint(row, col)
    decreases Count(g, Blank), 0, row, col
  {
    if col > 0 then
      var acc := BestBefore(g, depth, maximizing, row, col - 1);
      if g[row][col - 1] == Blank
      then Combine(maximizing, acc, MinimaxValue(Place(g, row, col - 1, Mover(maximizing)), depth + 1, !maximizing))
      else acc
    else if row > 0 then BestBefore(g, depth, maximizing, row - 1, 3)
    else Initial(maximizing)
  }

  /** Some cell strictly before (row, col) in row-major order is blank. */
  predicate BlankBefore(g: Grid, row: nat, col: nat)
    requires ScanPoint(row, col)
    decreases row, col
  {
    if col > 0 then g[row][col - 1] == Blank || BlankBefore(g, row, col - 1)
    else if row > 0 then BlankBefore(g, row - 1, 3)
    else false
  }

  lemma {:induction false} BlankBeforeIff(g: Grid, row: nat, col: nat)
    requires ScanPoint(row, col)
    ensures BlankBefore(g, row, col) <==> exists p :: IsBlank(g, p) && Index(p) < 3 * row + col
    decreases row, col
  {
    if col > 0 {
      BlankBeforeIff(g, row, col - 1);
      if g[row][col - 1] == Blank {
        assert IsBlank(g, Pos(row, col - 1));
      }
    } else if row > 0 {
      BlankBeforeIff(g, row - 1, 3);
    }
  }

  /** The scan over the whole board meets a blank cell exactly when the board is not full. */
  lemma BlankBeforeEnd(g: Grid)
    ensures BlankBefore(g, 3, 0) <==> !IsFull(g)
  {
    BlankBeforeIff(g, 3, 0);
    FullIffNoBlank(g);
  }

  /**
    With at most 10 - depth plies left, the value stays within
    [-(10 - depth), 10 - depth], and within [-(9 - depth), 9 - depth] when the game
    is not over: every win is scored at a depth no smaller than the current one.
   */
  lemma {:induction false} ValueBounds(g: Grid, depth: nat, maximizing: bool)
    requires depth + Count(g, Blank) <= 10
    ensures -(10 - depth) <= MinimaxValue(g, depth, maximizing) <= 10 - depth
    ensures Winner(g).None? && !IsFull(g) ==>
              -(9 - depth) <= MinimaxValue(g, depth, maximizing) <= 9 - depth
    decreases Count(g, Blank), 1
  {
    if Winner(g).None? && !IsFull(g) {
      BestBounds(g, depth, maximizing, 3, 0);
      BlankBeforeEnd(g);
    }
  }

  lemma {:induction false} BestBounds(g: Grid, depth: nat, maximizing: bool, row: nat, col: nat)
    requires ScanPoint(row, col)
    requires depth + Count(g, Blank) <= 10
    ensures BlankBefore(g, row, col) ==>
              -(9 - depth) <= BestBefore(g, depth, maximizing, row, col) <= 9 - depth
    ensures !BlankBefore(g, row, col) ==> BestBefore(g, depth, maximizing, row, col) == Initial(maximizing)
    decreases Count(g, Blank), 0, row, col
  {
    if col > 0 {
      BestBounds(g, depth, maximizing, row, col - 1);
      if g[row][col - 1] == Blank {
        ValueBounds(Place(g, row, col - 1, Mover(maximizing)), depth + 1, !maximizing);
      }
    } else if row > 0 {
      BestBounds(g, depth, maximizing, row - 1, 3);
    }
  }

  /** A maximum only grows, and a minimum only shrinks, as the scan proceeds to the next row. */
  lemma {:induction false} BestMonotone(g: Grid, depth: nat, maximizing: bool, row: nat, col: nat)
    requires row < 3 && col <= 3
    ensures maximizing ==> BestBefore(g, depth, maximizing, row, col) <= BestBefore(g, depth, maximizing, row + 1, 0)
    ensures !maximizing ==> BestBefore(g, depth, maximizing, row + 1, 0) <= BestBefore(g, depth, maximizing, row, col)
    decreases 3 - col
  {
    if col < 3 {
      BestMonotone(g, depth, maximizing, row, col + 1);
    }
  }

  // ---------------------------------------------------------------------------
  // Alpha-beta windows

  /**
    What an alpha-beta search with window (alpha, beta) promises about its result
    `score` relative to the true minimax `value`: a score at or below alpha shows
    the value is at or below alpha, a score at or above beta shows the value is at
    or above beta, and a score strictly inside the window is the value.
   */
  predicate Within(score: int, value: int, alpha: int, beta: int) {
    && (score <= alpha ==> value <= alpha)
    && (beta <= score ==> beta <= value)
    && (alpha < score < beta ==> score == value)
  }

  /**
    The invariant of a maximizing layer: `best` is the unpruned maximum so far,
    `a` the running alpha. While a < beta, `best` is at most `a` and equal to it
    once it exceeds the caller's alpha; after a cut-off (beta <= a) `best` is at
    least beta.
   */
  predicate MaxWindow(best: int, a: int, alpha: int, beta: int) {
    alpha < beta ==>
      && (a < beta ==> best <= a && (alpha < a ==> best == a))
      && (beta <= a ==> beta <= best)
  }

  /** The mirror image of MaxWindow for a minimizing layer with running beta `b`. */
  predicate MinWindow(best: int, b: int, alpha: int, beta: int) {
    alpha < beta ==>
      && (alpha < b ==> b <= best && (b < beta ==> best == b))
      && (b <= alpha ==> best <= alpha)
  }

  /**
    One child of a maximizing layer keeps MaxWindow: the child was searched with
    window (a, beta) and its score `eval` relates to its value as Within says.
   */
  lemma MaxStep(best: int, value: int, a: int, alpha: int, beta: int, eval: int)
    requires MaxWindow(best, a, alpha, beta)
    requires alpha <= a
    requires a < beta ==> Within(eval, value, a, beta)
    ensures MaxWindow(Max(best, value), Max(a, eval), alpha, beta)
  {
  }

  lemma MinStep(best: int, value: int, b: int, alpha: int, beta: int, eval: int)
    requires MinWindow(best, b, alpha, beta)
    requires b <= beta
    requires alpha < b ==> Within(eval, value, alpha, b)
    ensures MinWindow(Min(best, value), Min(b, eval), alpha, beta)
  {
  }

  /**
    Searching the blank cell (row, col) in a maximizing layer keeps MaxWindow for
    the scan up to the next cell and, after a cut-off, for the scan up to the next
    row, which is what the inner loop's `break` skips to.
   */
  lemma MaxCell(g: Grid, depth: nat, row: nat, col: nat, alpha: int, beta: int, a: int, eval: int)
    requires row < 3 && col < 3 && g[row][col] == Blank
    requires alpha <= a
    requires MaxWindow(BestBefore(g, depth, true, row, col), a, alpha, beta)
    requires a < beta ==> Within(eval, MinimaxValue(Place(g, row, col, NpcSymbol), depth + 1, false), a, beta)
    ensures MaxWindow(BestBefore(g, depth, true, row, col + 1), Max(a, eval), alpha, beta)
    ensures beta <= Max(a, eval) ==> MaxWindow(BestBefore(g, depth, true, row + 1, 0), Max(a, eval), alpha, beta)
  {
    var best := BestBefore(g, depth, true, row, col);
    var value := MinimaxValue(Place(g, row, col, NpcSymbol), depth + 1, false);
    assert BestBefore(g, depth, true, row, col + 1) == Max(best, value);
    MaxStep(best, value, a, alpha, beta, eval);
    BestMonotone(g, depth, true, row, col + 1);
  }

  /** The mirror image of MaxCell for a minimizing layer with running beta `b`. */
  lemma MinCell(g: Grid, depth: nat, row: nat, col: nat, alpha: int, beta: int, b: int, eval: int)
    requires row < 3 && col < 3 && g[row][col] == Blank
    requires b <= beta
    requires MinWindow(BestBefore(g, depth, false, row, col), b, alpha, beta)
    requires alpha < b ==> Within(eval, MinimaxValue(Place(g, row, col, PlayerSymbol), depth + 1, true), alpha, b)
    ensures MinWindow(BestBefore(g, depth, false, row, col + 1), Min(b, eval), alpha, beta)
    ensures Min(b, eval) <= alpha ==> MinWindow(BestBefore(g, depth, false, row + 1, 0), Min(b, eval), alpha, beta)
  {
    var best := BestBefore(g, depth, false, row, col);
    var value := MinimaxValue(Place(g, row, col, PlayerSymbol), depth + 1, true);
    assert BestBefore(g, depth, false, row, col + 1) == Min(best, value);
    MinStep(best, value, b, alpha, beta, eval);
    BestMonotone(g, depth, false, row, col + 1);
  }

  /** At the end of a maximizing layer, its result is within the window of the unpruned maximum. */
  lemma MaxResult(best: int, a: int, alpha: int, beta: int, maxEval: int)
    requires MaxWindow(best, a, alpha, beta)
    requires a == Max(alpha, maxEval)
    ensures alpha < beta ==> Within(maxEval, best, alpha, beta)
  {
  }

  lemma MinResult(best: int, b: int, alpha: int, beta: int, minEval: int)
    requires MinWindow(best, b, alpha, beta)
    requires b == Min(beta, minEval)
    ensures alpha < beta ==> Within(minEval, best, alpha, beta)
  {
  }

  // ---------------------------------------------------------------------------
  // The hard strategy

  /** The score `hard_move` gives cell `p`: O plays there, then X searches at depth 0. */
  function Score(g: Grid, p: Pos): int
    requires InBounds(p)
  {
    MinimaxValue(Place(g, p.row, p.col, NpcSymbol), 0, false)
  }

  /** `p` is the first blank cell in row-major order whose score is strictly greatest. */
  ghost predicate HardChoice(g: Grid, p: Pos) {
    && IsBlank(g, p)
    && forall q :: IsBlank(g, q) ==>
         Score(g, q) <= Score(g, p) && (Index(q) < Index(p) ==> Score(g, q) < Score(g, p))
  }

  /**
    The state of the hard strategy's scan after the cells before row-major index
    k: with no blank cell seen, no move and the initial -maxsize; otherwise the
    first seen blank cell with the strictly greatest score, and that score.
   */
  ghost predicate HardSoFar(g: Grid, k: nat, bestScore: int, bestMove: Option<Pos>) {
    && (bestMove.None? ==> bestScore == -MaxSize && forall q :: IsBlank(g, q) ==> k <= Index(q))
    && (bestMove.Some? ==>
          && IsBlank(g, bestMove.value) && Index(bestMove.value) < k
          && bestScore == Score(g, bestMove.value)
          && forall q :: IsBlank(g, q) && Index(q) < k ==>
               Score(g, q) <= bestScore && (Index(q) < Index(bestMove.value) ==> Score(g, q) < bestScore))
  }

  /** Passing over an occupied cell keeps the scan's state. */
  lemma HardScanSkip(g: Grid, row: nat, col: nat, bestScore: int, bestMove: Option<Pos>)
    requires row < 3 && col < 3 && g[row][col] != Blank
    requires HardSoFar(g, 3 * row + col, bestScore, bestMove)
    ensures HardSoFar(g, 3 * row + col + 1, bestScore, bestMove)
  {
    forall q | IsBlank(g, q) && Index(q) <= 3 * row + col
      ensures Index(q) < 3 * row + col
    {
    }
  }

  /** Scoring a blank cell: it becomes the best cell exactly when its score is strictly greater. */
  lemma HardScanTry(g: Grid, row: nat, col: nat, bestScore: int, bestMove: Option<Pos>, score: int)
    requires row < 3 && col < 3 && g[row][col] == Blank
    requires HardSoFar(g, 3 * row + col, bestScore, bestMove)
    requires score == Score(g, Pos(row, col)) && -MaxSize < score
    ensures score > bestScore ==> HardSoFar(g, 3 * row + col + 1, score, Some(Pos(row, col)))
    ensures score <= bestScore ==> HardSoFar(g, 3 * row + col + 1, bestScore, bestMove)
  {
    forall q | IsBlank(g, q) && Index(q) == 3 * row + col
      ensures q == Pos(row, col)
    {
      assert q.row == row && q.col == col;
    }
  }

  /** The scan over all nine cells ends at the hard strategy's choice, or at None on a full board. */
  lemma HardScanEnd(g: Grid, bestScore: int, bestMove: Option<Pos>)
    requires HardSoFar(g, 9, bestScore, bestMove)
    ensures bestMove.None? <==> IsFull(g)
    ensures bestMove.Some? ==> HardChoice(g, bestMove.value)
  {
    FullIffNoBlank(g);
  }

  /** At most one cell is the hard strategy's choice: the choice is deterministic. */
  lemma HardChoiceUnique(g: Grid, p: Pos, q: Pos)
    requires HardChoice(g, p) && HardChoice(g, q)
    ensures p == q
  {
    assert Index(p) == Index(q);
  }

  /** A cell's score is 10 exactly when O wins at once by playing there, and at most 10. */
  lemma ScoreFacts(g: Grid, p: Pos)
    requires IsBlank(g, p)
    ensures -10 <= Score(g, p) <= 10
    ensures Score(g, p) == 10 <==> Wins(g, p, NpcSymbol)
  {
    ValueBounds(Place(g, p.row, p.col, NpcSymbol), 0, false);
  }

  /** The hard strategy never misses an immediate win: it takes the first winning cell. */
  lemma HardTakesImmediateWin(g: Grid, p: Pos)
    requires HardChoice(g, p)
    requires !NoWin(g, NpcSymbol)
    ensures FirstWin(g, p, NpcSymbol)
  {
    var w :| Wins(g, w, NpcSymbol);
    ScoreFacts(g, w);
    ScoreFacts(g, p);
    forall q | Wins(g, q, NpcSymbol)
      ensures Index(p) <= Index(q)
    {
      ScoreFacts(g, q);
    }
  }
}
