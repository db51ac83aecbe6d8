/** The board and turn bookkeeping of the source's `TicTacToeApp`, with the
    widgets and message boxes stripped away: a small state machine over the
    board and the `player_turn` flag. The message a step would show is
    returned as an `Outcome`. */
module Game {
  import opened Board
  import opened Search
  import opened Wrappers

  /** `self.board` and `self.player_turn` (true while the human may move). */
  datatype Game = Game(board: Board, playerTurn: bool)

  /** How a step ends: the click was ignored, play continues, or one of the
      three game-over messages is shown before the reset. */
  datatype Outcome = Ignored | Continue | HumanWins | AiWins | Tie

  /** The state `__init__` creates and `reset_game` returns to. */
  const Initial: Game := Game(EmptyBoard, true)

  /** The source's `reset_game`: clear all nine cells, row by row, and give
      the turn back to the human. */
  method ResetGame(g: Game) returns (r: Game)
    ensures forall q :: Valid(q) ==> At(r.board, q) == Empty
    ensures r.playerTurn
    ensures r == Initial
  {
    var board := g.board;
    for i := 0 to 3
      invariant forall q :: Valid(q) && q.row < i ==> At(board, q) == Empty
    {
      for j := 0 to 3
        invariant forall q :: Valid(q) && (q.row < i || (q.row == i && q.col < j)) ==> At(board, q) == Empty
      {
        board := Place(board, Pos(i, j), Empty);
      }
    }
    Extensionality(board, EmptyBoard);
    r := Game(board, true);
  }

  /** The source's `ai_move`: play `'X'` where the move selector says, pass
      the turn, and reset after a computer win or a tie. The source unpacks
      the selector's answer as a pair, so it needs an empty cell. */
  method AiMove(g: Game) returns (r: Game, outcome: Outcome, played: Pos)
    requires !IsBoardFull(g.board)
    ensures Valid(played) && At(g.board, played) == Empty
    ensures forall q :: Valid(q) && At(g.board, q) == Empty ==>
      MoveScore(g.board, q, true) <= MoveScore(g.board, played, true)
    ensures forall q :: Valid(q) && At(g.board, q) == Empty && Index(q) < Index(played) ==>
      MoveScore(g.board, q, true) < MoveScore(g.board, played, true)
    ensures var after := Place(g.board, played, X);
      && (outcome == AiWins <==> IsWinner(after, X))
      && (outcome == Tie <==> !IsWinner(after, X) && IsBoardFull(after))
      && (outcome == Continue <==> !IsWinner(after, X) && !IsBoardFull(after))
      && (outcome == Continue ==> r == Game(after, !g.playerTurn))
      && (outcome != Continue ==> r == Initial)
  {
    var move, board := GetBestMove(g.board);
    played := move.value;
    board := Place(board, played, X);
    var turn := !g.playerTurn;
    if IsWinner(board, X) {
      r := ResetGame(Game(board, turn));
      outcome := AiWins;
    } else if IsBoardFull(board) {
      r := ResetGame(Game(board, turn));
      outcome := Tie;
    } else {
      r := Game(board, turn);
      outcome := Continue;
    }
  }

  /** A round of play, `'O'` at `p` and then `'X'` at `q`, adds one mark of
      each kind, keeps the human's mark at `p`, and cannot give `'O'` a line
      the human's move did not. */
  lemma RoundCounts(b: Board, p: Pos, q: Pos)
    requires Valid(p) && At(b, p) == Empty
    requires Valid(q) && At(Place(b, p, O), q) == Empty
    ensures var h := Place(b, p, O);
      var after := Place(h, q, X);
      && At(after, p) == O
      && Count(after, O) == Count(b, O) + 1
      && Count(after, X) == Count(b, X) + 1
      && Count(after, Empty) + 2 == Count(b, Empty)
      && (!IsWinner(h, O) ==> !IsWinner(after, O))
  {
    var h := Place(b, p, O);
    PlaceCount(b, p, O, O);
    PlaceCount(b, p, O, X);
    PlaceCount(b, p, O, Empty);
    PlaceCount(h, q, X, O);
    PlaceCount(h, q, X, X);
    PlaceCount(h, q, X, Empty);
    if !IsWinner(h, O) {
      PlaceKeepsNoWin(h, q, X, O);
    }
  }

  /** The source's `make_move`: a click on an empty cell during the human's
      turn places `'O'`, then either ends the game (human win or tie) or lets
      the computer reply, and `reply` is the cell the computer played. Any
      other click changes nothing. A click that is taken always leaves the
      turn with the human. */
  method MakeMove(g: Game, row: int, col: int) returns (r: Game, outcome: Outcome, reply: Option<Pos>)
    requires 0 <= row < 3 && 0 <= col < 3
    ensures !(At(g.board, Pos(row, col)) == Empty && g.playerTurn) ==>
      r == g && outcome == Ignored && reply.None?
    ensures At(g.board, Pos(row, col)) == Empty && g.playerTurn ==>
      var h := Place(g.board, Pos(row, col), O);
      && outcome != Ignored
      && r.playerTurn
      && (outcome == HumanWins <==> IsWinner(h, O))
      && (reply.None? <==> IsWinner(h, O) || IsBoardFull(h))
      && (reply.None? ==> r == Initial)
      && (!IsWinner(h, O) && IsBoardFull(h) ==> outcome == Tie)
    ensures At(g.board, Pos(row, col)) == Empty && g.playerTurn && reply.Some? ==>
      var h := Place(g.board, Pos(row, col), O);
      var q := reply.value;
      && Valid(q) && At(h, q) == Empty
      && (forall c :: Valid(c) && At(h, c) == Empty ==> MoveScore(h, c, true) <= MoveScore(h, q, true))
      && (forall c :: Valid(c) && At(h, c) == Empty && Index(c) < Index(q) ==>
            MoveScore(h, c, true) < MoveScore(h, q, true))
      && var after := Place(h, q, X);
         && (outcome == AiWins <==> IsWinner(after, X))
         && (outcome == Tie <==> !IsWinner(after, X) && IsBoardFull(after))
         && (outcome == Continue <==> !IsWinner(after, X) && !IsBoardFull(after))
         && (outcome == Continue ==> r == Game(after, true))
         && (outcome != Continue ==> r == Initial)
    ensures At(g.board, Pos(row, col)) == Empty && g.playerTurn && outcome == Continue ==>
      && At(r.board, Pos(row, col)) == O
      && Count(r.board, O) == Count(g.board, O) + 1
      && Count(r.board, X) == Count(g.board, X) + 1
      && Count(r.board, Empty) + 2 == Count(g.board, Empty)
    ensures Settled(g) ==> Settled(r)
  {
    var p := Pos(row, col);
    reply := None;
    if At(g.board, p) == Empty && g.playerTurn {
      var board := Place(g.board, p, O);
      var turn := !g.playerTurn;
      if IsWinner(board, O) {
        r := ResetGame(Game(board, turn));
        outcome := HumanWins;
        InitialSettled();
      } else if IsBoardFull(board) {
        r := ResetGame(Game(board, turn));
        outcome := Tie;
        InitialSettled();
      } else {
        var played;
        r, outcome, played := AiMove(Game(board, turn));
        reply := Some(played);
        RoundCounts(g.board, p, played);
        if outcome != Continue {
          InitialSettled();
        }
      }
    } else {
      r := g;
      outcome := Ignored;
    }
  }

  /** The states a game can be in when the human is asked to move: the
      human's turn, as many `'O'` as `'X'` on the board, and no line for
      either side. */
  predicate Settled(g: Game) {
    && g.playerTurn
    && Count(g.board, O) == Count(g.board, X)
    && !IsWinner(g.board, O)
    && !IsWinner(g.board, X)
  }

  /** The initial state is settled. The calls in the body only keep the
      proof fast. */
  lemma InitialSettled()
    ensures Settled(Initial)
  {
    EmptyBoardHasNoMark(O);
    EmptyBoardHasNoMark(X);
    EmptyBoardHasNoLine(O);
    EmptyBoardHasNoLine(X);
  }

  /** A settled board has an odd number of empty cells, so it is never full
      and the human always has a cell to click. */
  lemma SettledHasEmptyCell(g: Game)
    requires Settled(g)
    ensures Count(g.board, Empty) % 2 == 1
    ensures !IsBoardFull(g.board)
  {
    CountsSumToNine(g.board);
    EmptyCellsCount(g.board);
    FullIffNoEmptyCells(g.board);
  }
}
