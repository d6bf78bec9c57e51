/**
  The game engine: a `TicTacToe` object owning the board and the turn marker,
  with the move and turn operations and the computer opponent's three
  strategies. The search methods try moves on the shared board and undo them,
  and each is proved to leave the board exactly as it found it.
 */
module Game {
  import opened Wrappers
  import opened Board
  import opened Strategy

  /** The message an `InvalidMoveError` carries when it is raised without one. */
  const DefaultInvalidMoveMessage: string := "Move is not valid"

  /** `InvalidMoveError`, with the message of each of the two places that raise it. */
  datatype InvalidMoveError = OutOfBounds | SpotTaken {
    /** Both raising sites pass their own message, so the default never shows. */
    function Message(): (m: string)
      ensures m != DefaultInvalidMoveMessage
    {
      match this
      case OutOfBounds => "Row or column is out of bounds"
      case SpotTaken => "Spot is already taken"
    }
  }

  /** The printed message tells the two errors apart. */
  lemma MessageIdentifiesError(e: InvalidMoveError, f: InvalidMoveError)
    ensures e.Message() == f.Message() ==> e == f
  {
    assert OutOfBounds.Message()[0] != SpotTaken.Message()[0];
  }

  /** What the turn loop does after an accepted move: announce a winner, announce a tie, or go on. */
  datatype TurnOutcome = Won(winner: Cell) | Tie | Continue

  /** Lower-casing of the difficulty setting (ASCII letters only). */
  function LowerChar(c: char): char {
    if 'A' <= c <= 'Z' then (c as int + 32) as char else c
  }

  function Lower(s: string): (r: string)
    ensures |r| == |s|
    ensures forall i | 0 <= i < |s| :: r[i] == LowerChar(s[i])
  {
    if s == [] then [] else [LowerChar(s[0])] + Lower(s[1..])
  }

  /**
    Moves alternate starting with X, so either the counts of X and O are equal and
    X is to move, or X has one more and O is to move.
   */
  predicate TurnBalanced(g: Grid, current: Mark) {
    || (current == X && Count(g, X) == Count(g, O))
    || (current == O && Count(g, X) == Count(g, O) + 1)
  }

  /** A move by the player to move, followed by switching the turn, keeps the balance. */
  lemma MoveKeepsTurnBalance(g: Grid, p: Pos, current: Mark)
    requires TurnBalanced(g, current) && IsBlank(g, p)
    ensures TurnBalanced(Place(g, p.row, p.col, current), Other(current))
  {
    var r := Place(g, p.row, p.col, current);
    assert Count(r, X) == Count(g, X) + (if current == X then 1 else 0);
    assert Count(r, O) == Count(g, O) + (if current == O then 1 else 0);
  }

  /** `TicTacToe()` with both arguments left out: a two-player game at difficulty "easy". */
  method NewDefaultGame() returns (game: TicTacToe)
    ensures !game.playWithNpc && game.difficulty == "easy"
    ensures game.board == EmptyGrid && game.currentPlayer == PlayerSymbol
  {
    game := new TicTacToe();
  }

  class TicTacToe {
    var board: Grid
    var currentPlayer: Mark
    const playWithNpc: bool
    const difficulty: string

    /**
      A new game: an empty board, X to move, and the lower-cased difficulty. By
      default there is no computer opponent and the difficulty is "easy".
     */
    constructor (playWithNpc: bool := false, difficulty: string := "easy")
      ensures board == EmptyGrid && currentPlayer == PlayerSymbol
      ensures TurnBalanced(board, currentPlayer)
      ensures this.playWithNpc == playWithNpc && this.difficulty == Lower(difficulty)
    {
      board := EmptyGrid;
      currentPlayer := PlayerSymbol;
      this.playWithNpc := playWithNpc;
      this.difficulty := Lower(difficulty);
    }

    /**
      `make_move`: reject a cell out of bounds or already taken, leaving the board
      as it is; otherwise write the current player's mark into exactly that cell.
     */
    method MakeMove(row: int, col: int) returns (r: Result<bool, InvalidMoveError>)
      modifies this`board
      ensures !(0 <= row < 3 && 0 <= col < 3) ==> r == Err(OutOfBounds)
      ensures 0 <= row < 3 && 0 <= col < 3 && old(board)[row][col] != Blank ==> r == Err(SpotTaken)
      ensures 0 <= row < 3 && 0 <= col < 3 && old(board)[row][col] == Blank ==> r == Ok(true)
      ensures r.Err? ==> board == old(board)
      ensures r.Ok? ==> board == Place(old(board), row, col, currentPlayer)
    {
      if !(0 <= row < 3 && 0 <= col < 3) {
        return Err(OutOfBounds);
      }
      if board[row][col] != Blank {
        return Err(SpotTaken);
      }
      board := Place(board, row, col, currentPlayer);
      return Ok(true);
    }

    /** `switch_player`: hand the turn to the other mark. */
    method SwitchPlayer()
      modifies this`currentPlayer
      ensures currentPlayer == Other(old(currentPlayer))
    {
      currentPlayer := if currentPlayer == PlayerSymbol then NpcSymbol else PlayerSymbol;
    }

    /**
      One pass of the turn loop after a move has been read: apply it, then stop on
      a winner or a full board, and otherwise switch the turn. A rejected move
      changes nothing and the same player is asked again.
     */
    method PlayTurn(row: int, col: int) returns (r: Result<TurnOutcome, InvalidMoveError>)
      modifies this`board, this`currentPlayer
      ensures r.Err? <==> !(0 <= row < 3 && 0 <= col < 3) || old(board)[row][col] != Blank
      ensures r.Err? ==> board == old(board) && currentPlayer == old(currentPlayer)
      ensures r.Err? ==> r.error == (if !(0 <= row < 3 && 0 <= col < 3) then OutOfBounds else SpotTaken)
      ensures r.Ok? ==> board == Place(old(board), row, col, old(currentPlayer))
      ensures r.Ok? ==> r.value == (if Winner(board).Some? then Won(Winner(board).value)
                                    else if IsFull(board) then Tie else Continue)
      ensures r == Ok(Continue) ==> currentPlayer == Other(old(currentPlayer))
      ensures r.Ok? && r.value != Continue ==> currentPlayer == old(currentPlayer)
      ensures old(TurnBalanced(board, currentPlayer)) && r == Ok(Continue) ==> TurnBalanced(board, currentPlayer)
    {
      var moved := MakeMove(row, col);
      if moved.Err? {
        return Err(moved.error);
      }
      if old(TurnBalanced(board, currentPlayer)) {
        MoveKeepsTurnBalance(old(board), Pos(row, col), currentPlayer);
      }
      var winner := Winner(board);
      if winner.Some? {
        return Ok(Won(winner.value));
      } else if IsFull(board) {
        return Ok(Tie);
      }
      SwitchPlayer();
      return Ok(Continue);
    }

    /**
      `npc_move`: dispatch on the difficulty; an unrecognised difficulty plays like
      "easy". Whatever the difficulty, the board is left unchanged and the move is
      a blank cell; there is none exactly when the board is full.
     */
    method NpcMove() returns (move: Option<Pos>)
      modifies this`board
      ensures board == old(board)
      ensures move.None? <==> IsFull(board)
      ensures move.Some? ==> IsBlank(board, move.value)
      ensures difficulty == "medium" && move.Some? ==> MediumChoice(board, move.value)
      ensures difficulty == "hard" && move.Some? ==> HardChoice(board, move.value)
    {
      if difficulty == "easy" {
        move := RandomMove();
      } else if difficulty == "medium" {
        move := MediumMove();
        if move.Some? {
          MediumChoiceIsBlank(board, move.value);
        }
      } else if difficulty == "hard" {
        move := HardMove();
      } else {
        move := RandomMove();
      }
    }

    /**
      `random_move`: any blank cell. `random.choice` on an empty list raises; the
      model returns None for that case.
     */
    method RandomMove() returns (move: Option<Pos>)
      ensures move.None? <==> IsFull(board)
      ensures move.Some? ==> IsBlank(board, move.value)
    {
      FullIffNoBlank(board);
      var availableMoves := BlankCells(board, AllCells());
      if availableMoves == [] {
        return None;
      }
      assert availableMoves[0] in availableMoves;
      var m :| m in availableMoves;
      return Some(m);
    }

    /**
      `medium_move`: win if possible, else block, else the centre, else a random
      blank corner, else a random blank side, else a random blank cell.
     */
    method MediumMove() returns (move: Option<Pos>)
      modifies this`board
      ensures board == old(board)
      ensures move.None? <==> IsFull(board)
      ensures move.Some? ==> MediumChoice(board, move.value)
    {
      move := FindBestMove(NpcSymbol);
      if move.Some? {
        return;
      }
      move := FindBestMove(PlayerSymbol);
      if move.Some? {
        return;
      }
      if board[1][1] == Blank {
        return Some(Pos(1, 1));
      }
      var availableCorners := BlankCells(board, Corners);
      if availableCorners != [] {
        assert availableCorners[0] in availableCorners;
        var corner :| corner in availableCorners;
        return Some(corner);
      }
      var availableSides := BlankCells(board, Sides);
      if availableSides != [] {
        assert availableSides[0] in availableSides;
        var side :| side in availableSides;
        return Some(side);
      }
      move := RandomMove();
    }

    /**
      `find_best_move`: try `symbol` on each blank cell in row-major order, undoing
      each trial, and return the first cell where it wins.
     */
    method FindBestMove(symbol: Mark) returns (move: Option<Pos>)
      modifies this`board
      ensures board == old(board)
      ensures move.Some? ==> FirstWin(board, move.value, symbol)
      ensures move.None? ==> NoWin(board, symbol)
    {
      ghost var g := board;
      for row := 0 to 3
        invariant board == g
        invariant forall q :: Wins(g, q, symbol) ==> 3 * row <= Index(q)
      {
        for col := 0 to 3
          invariant board == g
          invariant forall q :: Wins(g, q, symbol) ==> 3 * row + col <= Index(q)
        {
          if board[row][col] == Blank {
            board := Place(board, row, col, symbol);
            if Winner(board) == Some(symbol) {
              board := Place(board, row, col, Blank);
              PlaceUndo(g, row, col, symbol);
              assert Wins(g, Pos(row, col), symbol);
              return Some(Pos(row, col));
            }
            board := Place(board, row, col, Blank);
            PlaceUndo(g, row, col, symbol);
          }
          assert !Wins(g, Pos(row, col), symbol);
        }
      }
      return None;
    }

    /**
      `hard_move`: score every blank cell by playing O there and searching with
      the widest window, undoing each trial, and keep the first cell with the
      strictly greatest score; None when no cell is blank.
     */
    method HardMove() returns (move: Option<Pos>)
      modifies this`board
      ensures board == old(board)
      ensures move.None? <==> IsFull(board)
      ensures move.Some? ==> HardChoice(board, move.value)
    {
      ghost var g := board;
      var bestScore := -MaxSize;
      var bestMove: Option<Pos> := None;
      for row := 0 to 3
        invariant board == g
        invariant HardSoFar(g, 3 * row, bestScore, bestMove)
      {
        for col := 0 to 3
          invariant board == g
          invariant HardSoFar(g, 3 * row + col, bestScore, bestMove)
        {
          if board[row][col] == Blank {
            board := Place(board, row, col, NpcSymbol);
            var score := Minimax(0, false, -MaxSize, MaxSize);
            board := Place(board, row, col, Blank);
            PlaceUndo(g, row, col, NpcSymbol);
            HardScanTry(g, row, col, bestScore, bestMove, score);
            if score > bestScore {
              bestScore := score;
              bestMove := Some(Pos(row, col));
            }
          } else {
            HardScanSkip(g, row, col, bestScore, bestMove);
          }
        }
      }
      HardScanEnd(g, bestScore, bestMove);
      return bestMove;
    }

    /**
      `minimax`: depth-scored minimax with alpha-beta pruning. Terminal boards
      score 10 - depth (O won), depth - 10 (X won) or 0 (full); otherwise the
      maximizing or minimizing layer searches the blank cells. For a proper window
      the result agrees with plain minimax as Within says, and it stays within
      [-(10 - depth), 10 - depth] whenever at most 10 - depth plies remain, so with
      the widest window (-maxsize, maxsize) it is exactly the plain minimax value.
      The board is left as it was.
     */
    method Minimax(depth: nat, isMaximizing: bool, alpha: int, beta: int) returns (score: int)
      requires -MaxSize <= alpha && beta <= MaxSize
      modifies this`board
      decreases Count(board, Blank), 1
      ensures board == old(board)
      ensures Winner(board) == Some(NpcSymbol) ==> score == 10 - depth
      ensures Winner(board) == Some(PlayerSymbol) ==> score == depth - 10
      ensures Winner(board).None? && IsFull(board) ==> score == 0
      ensures alpha < beta ==> Within(score, MinimaxValue(board, depth, isMaximizing), alpha, beta)
      ensures depth + Count(board, Blank) <= 10 ==> -(10 - depth) <= score <= 10 - depth
      ensures alpha == -MaxSize && beta == MaxSize && depth + Count(board, Blank) <= 10 ==>
                score == MinimaxValue(board, depth, isMaximizing)
    {
      var winner := Winner(board);
      if winner == Some(NpcSymbol) {
        return 10 - depth;
      } else if winner == Some(PlayerSymbol) {
        return depth - 10;
      } else if IsFull(board) {
        return 0;
      }
      if isMaximizing {
        score := MaximizingLayer(depth, alpha, beta);
      } else {
        score := MinimizingLayer(depth, alpha, beta);
      }
    }

    /**
      The `is_maximizing` branch of `minimax`: O tries each blank cell in row-major
      order; alpha rises with each result, and once beta <= alpha the rest of the
      current row is skipped (the `break` leaves only the inner loop).
     */
    method MaximizingLayer(depth: nat, alpha: int, beta: int) returns (maxEval: int)
      requires -MaxSize <= alpha && beta <= MaxSize
      requires !IsFull(board)
      modifies this`board
      decreases Count(board, Blank), 0
      ensures board == old(board)
      ensures alpha < beta ==> Within(maxEval, BestBefore(board, depth, true, 3, 0), alpha, beta)
      ensures depth + Count(board, Blank) <= 10 ==> -(9 - depth) <= maxEval <= 9 - depth
    {
      ghost var g := board;
      ghost var bounded := depth + Count(g, Blank) <= 10;
      BlankBeforeEnd(g);
      maxEval := -MaxSize;
      var a := alpha;
      for row := 0 to 3
        invariant board == g
        invariant a == Max(alpha, maxEval)
        invariant MaxWindow(BestBefore(g, depth, true, row, 0), a, alpha, beta)
        invariant bounded ==> maxEval <= 9 - depth && (BlankBefore(g, row, 0) ==> -(9 - depth) <= maxEval)
      {
        for col := 0 to 3
          invariant board == g
          invariant a == Max(alpha, maxEval)
          invariant MaxWindow(BestBefore(g, depth, true, row, col), a, alpha, beta)
          invariant bounded ==> maxEval <= 9 - depth && (BlankBefore(g, row, col) ==> -(9 - depth) <= maxEval)
        {
          if board[row][col] == Blank {
            board := Place(board, row, col, NpcSymbol);
            var eval := Minimax(depth + 1, false, a, beta);
            board := Place(board, row, col, Blank);
            PlaceUndo(g, row, col, NpcSymbol);
            MaxCell(g, depth, row, col, alpha, beta, a, eval);
            maxEval := Max(maxEval, eval);
            a := Max(a, eval);
            if beta <= a {
              break;
            }
          }
        }
      }
      MaxResult(BestBefore(g, depth, true, 3, 0), a, alpha, beta, maxEval);
    }

    /**
      The other branch of `minimax`: X tries each blank cell in row-major order;
      beta falls with each result, and once beta <= alpha the rest of the current
      row is skipped.
     */
    method MinimizingLayer(depth: nat, alpha: int, beta: int) returns (minEval: int)
      requires -MaxSize <= alpha && beta <= MaxSize
      requires !IsFull(board)
      modifies this`board
      decreases Count(board, Blank), 0
      ensures board == old(board)
      ensures alpha < beta ==> Within(minEval, BestBefore(board, depth, false, 3, 0), alpha, beta)
      ensures depth + Count(board, Blank) <= 10 ==> -(9 - depth) <= minEval <= 9 - depth
    {
      ghost var g := board;
      ghost var bounded := depth + Count(g, Blank) <= 10;
      BlankBeforeEnd(g);
      minEval := MaxSize;
      var b := beta;
      for row := 0 to 3
        invariant board == g
        invariant b == Min(beta, minEval)
        invariant MinWindow(BestBefore(g, depth, false, row, 0), b, alpha, beta)
        invariant bounded ==> -(9 - depth) <= minEval && (BlankBefore(g, row, 0) ==> minEval <= 9 - depth)
      {
        for col := 0 to 3
          invariant board == g
          invariant b == Min(beta, minEval)
          invariant MinWindow(BestBefore(g, depth, false, row, col), b, alpha, beta)
          invariant bounded ==> -(9 - depth) <= minEval && (BlankBefore(g, row, col) ==> minEval <= 9 - depth)
        {
          if board[row][col] == Blank {
            board := Place(board, row, col, PlayerSymbol);
            var eval := Minimax(depth + 1, true, alpha, b);
            board := Place(board, row, col, Blank);
            PlaceUndo(g, row, col, PlayerSymbol);
            MinCell(g, depth, row, col, alpha, beta, b, eval);
            minEval := Min(minEval, eval);
            b := Min(b, eval);
            if b <= alpha {
              break;
            }
          }
        }
      }
      MinResult(BestBefore(g, depth, false, 3, 0), b, alpha, beta, minEval);
    }
  }
}
