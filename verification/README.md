# Tic-tac-toe engine in Dafny

This project models the game engine of a console tic-tac-toe program: the
`TicTacToe` class in `tic_tac_toe.py`. The model covers five things:

- the board, a 3x3 grid of blank, `X` and `O` cells;
- the turn marker;
- move validation;
- win and draw detection;
- the computer opponent, which plays `O` with one of three strategies:
  - "easy": a random blank cell;
  - "medium": win, else block, else centre, else a corner, else a side, else random;
  - "hard": depth-scored minimax with alpha-beta pruning.

The model is split into four modules:

- `Board` (board.dfy) holds the grid as a value:
  - the single-cell write `Place`;
  - the eight lines in the program's scan order;
  - `Winner` (`check_winner`) and `IsFull` (`is_full`);
  - cell counts.
- `Strategy` (strategy.dfy) holds what the strategies promise, stated as functions on grids:
  - the one-move win test;
  - the medium strategy's priority list;
  - plain unpruned minimax (`MinimaxValue`), scanned in the program's row-major order;
  - the windows an alpha-beta search keeps;
  - the hard strategy's choice.
- `Game` (game.dfy) holds the class `TicTacToe`:
  - the fields `board` and `currentPlayer`, which its methods update in place;
  - the program's loops, which place a trial mark on the shared board, test or recurse, and put the blank back.

  Every search method is proved to leave the board exactly as it found it, and
  each method is proved against the matching function in `Strategy`.
- `Wrappers` (wrappers.dfy) holds `Option` and `Result`.

`minimax` leaves a pruned row with `break`, which exits only the inner column
loop. In each row after a cut-off, the first blank cell is still searched, with a
window whose lower end is at or above its upper end; the running alpha (beta)
stays past the other bound, so the `break` fires again after that cell. The model
keeps that loop structure.
`Within` states what an alpha-beta search guarantees relative to plain minimax:

- a score at or below alpha bounds the true value from above;
- a score at or above beta bounds it from below;
- a score strictly inside the window is the true value.

Every call with a proper window is proved to keep this guarantee. Scores lie in
[-10, 10], so the hard strategy's root call with the window
(-`sys.maxsize`, `sys.maxsize`) returns exactly the plain minimax value.

## Model

| member | source | states |
|---|---|---|
| Game.TicTacToe.constructor | tic_tac_toe.py:23-30 | A new game has an empty board with X to move (a turn-balanced state), keeps the NPC flag and stores the lower-cased difficulty; the arguments default to no NPC and "easy". |
| Game.NewDefaultGame | tic_tac_toe.py:23-30 | A game created with both arguments left out has no NPC, difficulty "easy", an empty board and X to move. |
| Game.Lower | tic_tac_toe.py:28 | Lower-casing keeps the length and maps each character through LowerChar. |
| Game.InvalidMoveError.Message | tic_tac_toe.py:17-44 | Each error carries the message of the place that raises it, never the class's default "Move is not valid". |
| Game.MessageIdentifiesError | tic_tac_toe.py:41-44 | Equal messages mean the same error: the out-of-bounds and taken-cell messages differ. |
| Game.TicTacToe.MakeMove | tic_tac_toe.py:39-46 | Out-of-bounds row or column gives Err(OutOfBounds); a taken cell gives Err(SpotTaken); both leave the board unchanged. A blank in-bounds cell gives Ok(true) and the board with exactly that cell set to the current player. |
| Board.Place | tic_tac_toe.py:45 | The written cell holds the new mark, every other cell is unchanged, and each symbol's count changes by the cell gained and the cell lost. |
| Board.PlaceUndo | tic_tac_toe.py:113-117 | Writing back a cell's old content after a trial placement restores the board exactly. |
| Game.TicTacToe.SwitchPlayer | tic_tac_toe.py:48-49 | The turn marker becomes the other mark. |
| Board.Other | tic_tac_toe.py:49 | The other mark always differs from the given one. |
| Board.OtherInvolution | tic_tac_toe.py:48-49 | Switching the turn twice restores it. |
| Board.Lines | tic_tac_toe.py:52-60 | The eight lines, each of three cells: rows 0-2 first, then columns 0-2, then the main diagonal and the anti-diagonal. |
| Board.Complete | tic_tac_toe.py:62 | A line is complete iff its first cell occurs three times in it and is not blank (the `count` test). |
| Board.WinnerFrom | tic_tac_toe.py:61-64 | The `for line in lines` scan from line i never reports the blank; its first-complete-line characterisation is WinnerFromIsFirstComplete. |
| Board.WinnerFromIsFirstComplete | tic_tac_toe.py:61-64 | Scanning lines from position i reports a mark exactly when some later line is complete, and then it reports the mark of the first complete line. |
| Board.WinnerIsFirstCompleteLine | tic_tac_toe.py:51-64 | `check_winner` returns a mark iff some line is complete, and then the mark of the first complete line in row, column, diagonal order; None iff no line is complete. |
| Board.Winner | tic_tac_toe.py:51-64 | A reported winner is never the blank. |
| Board.IsFull | tic_tac_toe.py:66-67 | The board is full iff it holds no blank cell, counted over all nine cells. |
| Board.FullIffNoBlank | tic_tac_toe.py:66-67 | The board is full iff no position is blank. |
| Board.Cells | tic_tac_toe.py:67 | The row-by-row walk over the board yields nine cells. |
| Board.CellAt | tic_tac_toe.py:67 | In that walk, cell (row, col) comes at position 3 * row + col. |
| Board.CountsCoverBoard | tic_tac_toe.py:24 | Blank, X and O counts add up to the nine cells. |
| Board.BlankCells | tic_tac_toe.py:81 | The candidate-list comprehension keeps exactly the candidates that are blank. |
| Board.AllCells | tic_tac_toe.py:81 | The scanned positions are exactly the nine in-bounds cells. |
| Game.MoveKeepsTurnBalance | tic_tac_toe.py:186-202 | From a turn-balanced position, a move by the player to move followed by switching the turn is again turn-balanced (X moves when the counts are equal, O when X has one more). |
| Game.TicTacToe.PlayTurn | tic_tac_toe.py:186-202 | One step of the turn loop. A rejected move changes nothing and reports OutOfBounds or SpotTaken as MakeMove does. An accepted move writes the cell and then reports the winner, else a tie on a full board, else switches the turn. Continuing keeps the turn balance. |
| Game.TicTacToe.NpcMove | tic_tac_toe.py:69-78 | The board is unchanged. The move is a blank cell, and there is none (None) exactly when the board is full. "medium" moves follow the medium priority list, "hard" moves are the hard choice, and any other difficulty plays random. |
| Game.TicTacToe.RandomMove | tic_tac_toe.py:80-82 | Returns some blank cell, and None exactly when the board is full. |
| Game.TicTacToe.FindBestMove | tic_tac_toe.py:109-118 | The board is unchanged. A returned cell is the first blank cell in row-major order where placing `symbol` makes `check_winner` report `symbol`. None means no blank cell has that effect. |
| Strategy.FirstWinUnique | tic_tac_toe.py:109-118 | The first winning cell is unique. |
| Game.TicTacToe.MediumMove | tic_tac_toe.py:84-107 | The board is unchanged, None exactly on a full board, and the move obeys MediumChoice: O's first winning cell, else X's first winning cell, else the centre, else a blank corner, else a blank side, else any blank cell. |
| Strategy.MediumChoiceIsBlank | tic_tac_toe.py:84-107 | Every cell the medium strategy may return is blank. |
| Strategy.MediumFallbackUnreachable | tic_tac_toe.py:93-107 | With a blank cell on the board, an occupied centre and no blank corner, some side is blank, so the random fallback is never reached. |
| Strategy.MediumWinsBeforeBlocking | tic_tac_toe.py:85-92 | On `O O _ / X X _ / _ _ _` the medium strategy must play (0, 2), winning rather than blocking X at (1, 2). |
| Strategy.BlockBoardNoOWin | tic_tac_toe.py:51-64 | On `X X _ / O _ _ / _ _ _` no O move completes a line. |
| Strategy.MediumBlocks | tic_tac_toe.py:89-92 | On `X X _ / O _ _ / _ _ _` the medium strategy must block at (0, 2). |
| Game.TicTacToe.Minimax | tic_tac_toe.py:134-168 | The board is unchanged. A won board scores 10 - depth (O) or depth - 10 (X) and a full board scores 0. With a proper window the score is Within the plain minimax value. With at most 10 - depth plies left the score lies in [-(10 - depth), 10 - depth], and with the widest window it equals the plain minimax value. |
| Game.TicTacToe.MaximizingLayer | tic_tac_toe.py:143-155 | The maximizing loop with alpha updates and the inner-loop break leaves the board unchanged. Its result is Within the unpruned maximum over all blank cells, and it lies in [-(9 - depth), 9 - depth] when bounded. |
| Game.TicTacToe.MinimizingLayer | tic_tac_toe.py:156-168 | The mirror image for beta and the minimum. |
| Strategy.MaxStep | tic_tac_toe.py:149-154 | One searched child keeps the maximizing layer's window invariant. |
| Strategy.MinStep | tic_tac_toe.py:162-167 | One searched child keeps the minimizing layer's window invariant. |
| Strategy.MaxCell | tic_tac_toe.py:147-154 | Searching a blank cell keeps the window invariant for the rest of the row and, after a cut-off, for the next row where the break resumes. |
| Strategy.MinCell | tic_tac_toe.py:160-167 | The same for a minimizing layer. |
| Strategy.MaxResult | tic_tac_toe.py:155 | At the end of a maximizing layer, its result is Within the unpruned maximum. |
| Strategy.MinResult | tic_tac_toe.py:168 | At the end of a minimizing layer, its result is Within the unpruned minimum. |
| Strategy.BestMonotone | tic_tac_toe.py:153-154 | The unpruned maximum only grows, and the minimum only shrinks, over the cells the break skips. |
| Strategy.ValueBounds | tic_tac_toe.py:134-168 | With at most 10 - depth plies left, the plain minimax value lies in [-(10 - depth), 10 - depth], and in [-(9 - depth), 9 - depth] when the game is not over. |
| Strategy.BestBounds | tic_tac_toe.py:143-168 | The best child value over a scanned prefix is within [-(9 - depth), 9 - depth] once a blank cell has been seen, and is the initial plus or minus sys.maxsize before that. |
| Strategy.BlankBeforeIff | tic_tac_toe.py:145-147 | The scan has met a blank cell before (row, col) iff some blank cell precedes it in row-major order. |
| Strategy.BlankBeforeEnd | tic_tac_toe.py:140-147 | The full scan meets a blank cell iff the board is not full. |
| Game.TicTacToe.HardMove | tic_tac_toe.py:120-132 | The board is unchanged. The move is None exactly on a full board, and otherwise it is the first blank cell in row-major order with the strictly greatest minimax score. |
| Strategy.HardScanSkip | tic_tac_toe.py:123-125 | Passing an occupied cell keeps the root scan's state. |
| Strategy.HardScanTry | tic_tac_toe.py:125-131 | A scored blank cell replaces the best move exactly when its score is strictly greater. |
| Strategy.HardScanEnd | tic_tac_toe.py:132 | The completed scan yields the hard choice, or None on a full board. |
| Strategy.HardChoiceUnique | tic_tac_toe.py:120-132 | The hard strategy's choice is deterministic: at most one cell qualifies. |
| Strategy.ScoreFacts | tic_tac_toe.py:127-141 | A cell's score lies in [-10, 10] and is 10 exactly when O wins at once there. |
| Strategy.HardTakesImmediateWin | tic_tac_toe.py:120-137 | When O can win in one move, the hard strategy plays O's first winning cell. |
| Strategy.Max | tic_tac_toe.py:151-152 | `max` returns one of its arguments and is at least both. |
| Strategy.Min | tic_tac_toe.py:164-165 | `min` returns one of its arguments and is at most both. |

## Left out

- `draw_board` and all printing: console output only.
- `play_game`'s input loop is not modelled. That covers reading and parsing
  "row col", the conversion from 1-based to 0-based indices, the ValueError
  path and logging. PlayTurn models one pass of the loop after a move has been
  chosen: make the move, check for a winner or a tie, switch the turn.
- The `__main__` prompts and the logging setup: I/O.
- The `threading.Lock`: it has no effect in a single-threaded model.
- The `TicTacToeError` class hierarchy. InvalidMoveError is a datatype with its two kinds and their messages.
- The distribution of `random.choice`. A random pick is an arbitrary member of the candidate list, and only membership is stated.
- RandomMove returns None on a full board. The program would raise IndexError
  from `random.choice` on an empty list. The game loop never calls it on a full board.
- MediumMove inherits RandomMove's None: on a full board the program's fallback
  (tic_tac_toe.py:107) raises IndexError, where the model returns None.
- NpcMove inherits the same None for "easy", "medium" and any unrecognised
  difficulty (tic_tac_toe.py:71, 73, 78), where the program raises IndexError on a
  full board. Only "hard" returns None in the program itself (tic_tac_toe.py:122, 132).
- HardMove returns None on a full board, as the program does, even though the program's annotation promises a tuple.
- Lower: only ASCII letters are lower-cased; Python's full Unicode case mapping is not modelled.
- `sys.maxsize` is the 64-bit value 2^63 - 1. No arithmetic in the model comes near it.
- Minimax: the two branches of `minimax` are the separate methods
  MaximizingLayer and MinimizingLayer, and Minimax dispatches to them.
- Minimax: game-theoretic optimality (for example, that the hard strategy never
  loses) is not proved. The proved facts are the relation to plain minimax,
  the score bounds and the exact root value.
- Minimax: the number of nodes pruned is not modelled.
