/** The computer's decision procedure: exhaustive minimax over the game tree
    and the move selector built on it. The source mutates one board in place
    and undoes every hypothetical mark; here the board is threaded through
    each call, and every contract states that the board handed back is the
    board that came in. */
module Search {
  import opened Board
  import opened Wrappers

  /** The running best of the source's loops: the float sentinels `-inf` and
      `+inf`, or a finite score. */
  datatype Bound = NegInf | Finite(v: int) | PosInf

  /** A minimax score: `-1` when the human (`'O'`) wins, `1` when the
      computer (`'X'`) wins, `0` for a tie. */
  predicate IsScore(s: int) {
    -1 <= s <= 1
  }

  /** The mark placed by the side to move: the maximizing side is the
      computer with `'X'`, the minimizing side the human with `'O'`. */
  function Mover(maximizing: bool): Cell {
    if maximizing then X else O
  }

  /** The sentinel a loop starts from: `-inf` when maximizing, `+inf` when minimizing. */
  function Start(maximizing: bool): Bound {
    if maximizing then NegInf else PosInf
  }

  /** `max(acc, s)` when maximizing and `min(acc, s)` when minimizing. */
  function Improve(maximizing: bool, acc: Bound, s: int): Bound {
    match acc
    case NegInf => if maximizing then Finite(s) else NegInf
    case PosInf => if maximizing then PosInf else Finite(s)
    case Finite(v) => Finite(if maximizing then (if s > v then s else v) else (if s < v then s else v))
  }

  /** `x` is at least as good as `y` for the side to move. */
  predicate Prefers(maximizing: bool, x: int, y: int) {
    if maximizing then x >= y else x <= y
  }
  /** `Improve` is Python's `max`/`min` against a float sentinel: from the
      starting sentinel it yields the score itself, and from a score it
      yields one of the two, no worse than either for the side to move. */
  lemma ImproveIsMaxMin(maximizing: bool, acc: Bound, s: int)
    ensures acc == Start(maximizing) ==> Improve(maximizing, acc, s) == Finite(s)
    ensures acc.Finite? ==>
      var r := Improve(maximizing, acc, s);
      && r.Finite?
      && Prefers(maximizing, r.v, s)
      && Prefers(maximizing, r.v, acc.v)
      && (r.v == s || r.v == acc.v)
  {
  }


  /** What the source's loop bound holds between iterations: the sentinel it
      started from, or a score. */
  predicate SweepBound(maximizing: bool, acc: Bound) {
    acc == Start(maximizing) || (acc.Finite? && IsScore(acc.v))
  }

  /** A call's score together with the board as the call leaves it. */
  datatype Eval = Eval(score: int, board: Board)

  /** A loop's running best together with the board as the loop leaves it. */
  datatype Sweep = Sweep(best: Bound, board: Board)

  /** The source's `minimax(board, depth, maximizing_player)`. An `'O'` line
      scores -1 and is checked first, then an `'X'` line scores 1, then a
      full board scores 0; otherwise the side to move tries every empty cell.
      The result is always a score, never a sentinel, and the board comes back
      unchanged. */
  function Minimax(b: Board, maximizing: bool): (r: Eval)
    ensures r.board == b
    ensures IsScore(r.score)
    ensures IsWinner(b, O) ==> r.score == -1
    ensures !IsWinner(b, O) && IsWinner(b, X) ==> r.score == 1
    ensures !IsWinner(b, O) && !IsWinner(b, X) && IsBoardFull(b) ==> r.score == 0
    decreases Count(b, Empty), 1
  {
    if IsWinner(b, O) then Eval(-1, b)
    else if IsWinner(b, X) then Eval(1, b)
    else if IsBoardFull(b) then Eval(0, b)
    else
      FullIffNoEmptyCells(b);
      var s := Explore(b, EmptyCells(b), maximizing, Start(maximizing));
      Eval(s.best.v, s.board)
  }

  /** The loop of `minimax` over `cells`: place the mover's mark, recurse
      for the other side, undo the mark, and fold the score into `acc`.
      A non-empty loop always ends on a score. */
  function Explore(b: Board, cells: seq<Pos>, maximizing: bool, acc: Bound): (r: Sweep)
    requires forall q :: q in cells ==> Valid(q) && At(b, q) == Empty
    requires SweepBound(maximizing, acc)
    ensures r.board == b
    ensures SweepBound(maximizing, r.best)
    ensures cells != [] || acc.Finite? ==> r.best.Finite?
    decreases Count(b, Empty), 0, |cells|
  {
    if cells == [] then Sweep(acc, b)
    else
      var p := cells[0];
      var placed := Place(b, p, Mover(maximizing));
      PlaceCount(b, p, Mover(maximizing), Empty);
      var e := Minimax(placed, !maximizing);
      var undone := Place(e.board, p, Empty);
      PlaceThenClear(b, p, Mover(maximizing));
      Explore(undone, cells[1..], maximizing, Improve(maximizing, acc, e.score))
  }

  /** The score the search gives to the side to move placing its mark at `p`. */
  function MoveScore(b: Board, p: Pos, maximizing: bool): int
    requires Valid(p) && At(b, p) == Empty
  {
    Minimax(Place(b, p, Mover(maximizing)), !maximizing).score
  }

  /** The loop's result is at least as good as every move it tried and as
      its starting value, and it is either that starting value or the score
      of one of the moves. */
  lemma {:induction false} ExploreIsBest(b: Board, cells: seq<Pos>, maximizing: bool, acc: Bound)
    requires forall q :: q in cells ==> Valid(q) && At(b, q) == Empty
    requires SweepBound(maximizing, acc)
    ensures var r := Explore(b, cells, maximizing, acc).best;
      && (forall q :: q in cells ==> r.Finite? && Prefers(maximizing, r.v, MoveScore(b, q, maximizing)))
      && (acc.Finite? ==> r.Finite? && Prefers(maximizing, r.v, acc.v))
      && (r == acc || exists q :: q in cells && r == Finite(MoveScore(b, q, maximizing)))
    decreases |cells|
  {
    if cells != [] {
      var p := cells[0];
      var acc' := Improve(maximizing, acc, MoveScore(b, p, maximizing));
      PlaceThenClear(b, p, Mover(maximizing));
      assert Explore(b, cells, maximizing, acc) == Explore(b, cells[1..], maximizing, acc');
      ExploreIsBest(b, cells[1..], maximizing, acc');
    }
  }

  /** On a board that is not over, the minimax value of the side to move is
      the best score among its moves: no move beats it and some move reaches it. */
  lemma MinimaxIsBestMove(b: Board, maximizing: bool)
    requires !IsWinner(b, O) && !IsWinner(b, X) && !IsBoardFull(b)
    ensures forall p :: Valid(p) && At(b, p) == Empty ==>
      Prefers(maximizing, Minimax(b, maximizing).score, MoveScore(b, p, maximizing))
    ensures exists p :: Valid(p) && At(b, p) == Empty && Minimax(b, maximizing).score == MoveScore(b, p, maximizing)
  {
    FullIffNoEmptyCells(b);
    ExploreIsBest(b, EmptyCells(b), maximizing, Start(maximizing));
  }

  /** The source's strict `move_val > best_val` against the running best. */
  predicate Beats(s: int, best: Bound) {
    match best
    case NegInf => true
    case Finite(v) => s > v
    case PosInf => false
  }

  /** One iteration of the selector's loop: place `'X'` at `p`, score the
      board with the human to move, and clear `p` again. */
  method TryMove(b: Board, p: Pos) returns (score: int, after: Board)
    requires Valid(p) && At(b, p) == Empty
    ensures score == MoveScore(b, p, true) && IsScore(score)
    ensures after == b
  {
    var board := Place(b, p, X);
    var e := Minimax(board, false);
    board := Place(e.board, p, Empty);
    PlaceThenClear(b, p, X);
    score, after := e.score, board;
  }

  /** `s[bi]` is the first occurrence of the maximum of `s`: everything
      before it is strictly smaller and nothing after it is larger. */
  predicate FirstMax(s: seq<int>, bi: int) {
    && 0 <= bi < |s|
    && (forall j :: 0 <= j < bi ==> s[j] < s[bi])
    && (forall j :: bi <= j < |s| ==> s[j] <= s[bi])
  }

  /** Appending a value keeps the first maximum unless the value beats it
      strictly, in which case the new value becomes the first maximum.
      Dafny proves it unaided; calling it from the selector's loop keeps
      that loop's proof small. */
  lemma FirstMaxExtend(s: seq<int>, bi: int, v: int)
    requires FirstMax(s, bi)
    ensures v > s[bi] ==> FirstMax(s + [v], |s|)
    ensures v <= s[bi] ==> FirstMax(s + [v], bi)
  {
  }

  /** `score` applied to each of `cells`, in order. */
  function Scores(score: Pos -> int, cells: seq<Pos>): (r: seq<int>)
    ensures |r| == |cells|
  {
    if cells == [] then []
    else Scores(score, cells[..|cells| - 1]) + [score(cells[|cells| - 1])]
  }

  /** Entry `j` of `Scores` is the score of the `j`-th cell. */
  lemma {:induction false} ScoresAt(score: Pos -> int, cells: seq<Pos>, j: int)
    requires 0 <= j < |cells|
    ensures Scores(score, cells)[j] == score(cells[j])
  {
    var k := |cells| - 1;
    if j < k {
      ScoresAt(score, cells[..k], j);
    }
  }

  /** The score the selector gives to placing `'X'` at a cell: the search's
      value with the human to move next where the move is legal, and 0 where
      it is not (the selector is only given legal cells). */
  function XScore(b: Board): Pos -> int {
    p => if Valid(p) && At(b, p) == Empty then MoveScore(b, p, true) else 0
  }

  /** The loop of `get_best_move` over a list of empty cells: try `'X'` in
      each, score it with the human to move next, undo it, and keep the first
      cell whose score is strictly higher than every score before it. The
      result is `None` only for an empty list; otherwise it is the cell at
      some index `bi` that no cell of the list outscores and that every
      earlier cell scores strictly below. */
  method SelectFirstBest(b: Board, cells: seq<Pos>) returns (move: Option<Pos>, ghost bi: int, after: Board)
    requires forall q :: q in cells ==> Valid(q) && At(b, q) == Empty
    ensures after == b
    ensures move.None? <==> cells == []
    ensures move.Some? ==> 0 <= bi < |cells| && move.value == cells[bi] && FirstMax(Scores(XScore(b), cells), bi)
  {
    var board := b;
    var bestVal := NegInf;
    move := None;
    ghost var scores: seq<int> := [];
    bi := 0;
    for k := 0 to |cells|
      invariant board == b
      invariant scores == Scores(XScore(b), cells[..k])
      invariant move.None? <==> k == 0
      invariant k == 0 ==> bestVal == NegInf
      invariant k > 0 ==> FirstMax(scores, bi) && move == Some(cells[bi]) && bestVal == Finite(scores[bi])
    {
      var p := cells[k];
      assert p in cells;
      var moveVal;
      moveVal, board := TryMove(board, p);
      if k > 0 {
        FirstMaxExtend(scores, bi, moveVal);
      }
      assert cells[..k + 1][..k] == cells[..k];
      scores := scores + [moveVal];
      if Beats(moveVal, bestVal) {
        move := Some(p);
        bestVal := Finite(moveVal);
        bi := k;
      }
    }
    assert cells[..|cells|] == cells;
    after := board;
  }

  /** The source's `get_best_move`: the loop above over the empty cells in
      row-major order. `None` exactly when the board is full; otherwise an
      empty cell that no empty cell outscores and that every empty cell
      earlier in row-major order scores strictly below. The board comes back
      unchanged. */
  method GetBestMove(b: Board) returns (move: Option<Pos>, after: Board)
    ensures after == b
    ensures move.None? <==> IsBoardFull(b)
    ensures move.Some? ==> Valid(move.value) && At(b, move.value) == Empty
    ensures move.Some? ==> forall q :: Valid(q) && At(b, q) == Empty ==>
      MoveScore(b, q, true) <= MoveScore(b, move.value, true)
    ensures move.Some? ==> forall q :: Valid(q) && At(b, q) == Empty && Index(q) < Index(move.value) ==>
      MoveScore(b, q, true) < MoveScore(b, move.value, true)
  {
    var cells := EmptyCells(b);
    ghost var bi;
    move, bi, after := SelectFirstBest(b, cells);
    FullIffNoEmptyCells(b);
    if move.Some? {
      assert cells[bi] in cells;
      FirstBestOfAll(b, cells, bi);
    }
  }

  /** A cell of the enumeration that no cell outscores and that every earlier
      cell scores strictly below is best among all empty cells and first in
      row-major order among the best. */
  lemma FirstBestOfAll(b: Board, cells: seq<Pos>, bi: int)
    requires cells == EmptyCells(b) && FirstMax(Scores(XScore(b), cells), bi)
    ensures forall q :: Valid(q) && At(b, q) == Empty ==>
      MoveScore(b, q, true) <= MoveScore(b, cells[bi], true)
    ensures forall q :: Valid(q) && At(b, q) == Empty && Index(q) < Index(cells[bi]) ==>
      MoveScore(b, q, true) < MoveScore(b, cells[bi], true)
  {
    forall q | Valid(q) && At(b, q) == Empty
      ensures MoveScore(b, q, true) <= MoveScore(b, cells[bi], true)
      ensures Index(q) < Index(cells[bi]) ==> MoveScore(b, q, true) < MoveScore(b, cells[bi], true)
    {
      FirstBestAt(b, cells, bi, q);
    }
  }

  /** A first maximum of the scores bounds every cell's score, strictly for
      the cells before it. */
  lemma FirstMaxAt(score: Pos -> int, cells: seq<Pos>, bi: int, j: int)
    requires FirstMax(Scores(score, cells), bi) && 0 <= j < |cells|
    ensures score(cells[j]) <= score(cells[bi])
    ensures j < bi ==> score(cells[j]) < score(cells[bi])
  {
    ScoresAt(score, cells, bi);
    ScoresAt(score, cells, j);
  }

  /** One empty cell compared with the first maximum of the enumeration. */
  lemma FirstBestAt(b: Board, cells: seq<Pos>, bi: int, q: Pos)
    requires cells == EmptyCells(b) && FirstMax(Scores(XScore(b), cells), bi)
    requires Valid(q) && At(b, q) == Empty
    ensures MoveScore(b, q, true) <= MoveScore(b, cells[bi], true)
    ensures Index(q) < Index(cells[bi]) ==> MoveScore(b, q, true) < MoveScore(b, cells[bi], true)
  {
    var j := EmptyCellPosition(b, q, bi);
    FirstMaxAt(XScore(b), cells, bi, j);
  }


  /** A cell that completes a line of `'X'`, on a board where `'O'` has no
      line, scores the maximum 1, so the selector's choice scores 1 as well. */
  lemma ImmediateWinScoresOne(b: Board, p: Pos)
    requires Valid(p) && At(b, p) == Empty
    requires !IsWinner(b, O) && IsWinner(Place(b, p, X), X)
    ensures MoveScore(b, p, true) == 1
  {
    PlaceKeepsNoWin(b, p, X, O);
  }

  /** Once `'O'` has a line, every move scores -1: the selector then keeps
      the first empty cell. */
  lemma LostBoardScoresMinusOne(b: Board, p: Pos)
    requires Valid(p) && At(b, p) == Empty
    requires IsWinner(b, O)
    ensures MoveScore(b, p, true) == -1
  {
    var b' := Place(b, p, X);
    WinnerIffOwnsLine(b, O);
    WinnerIffOwnsLine(b', O);
    var k :| 0 <= k < |Lines| && Owns(b, Lines[k], O);
    assert Owns(b', Lines[k], O);
  }
}
