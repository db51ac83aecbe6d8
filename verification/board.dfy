/** The 3x3 board and its pure queries: the win check, the full check and the
    row-major enumeration of empty cells, plus the single-cell update the
    search and the game use to place and remove marks. */
module Board {

  /** A cell holds nothing (`' '` in the source), the human's mark `'O'` or
      the computer's mark `'X'`. */
  datatype Cell = Empty | O | X

  /** A board is three rows of three cells. */
  type Board = b: seq<seq<Cell>> | |b| == 3 && forall i :: 0 <= i < 3 ==> |b[i]| == 3
    witness [[Empty, Empty, Empty], [Empty, Empty, Empty], [Empty, Empty, Empty]]

  const EmptyBoard: Board := [[Empty, Empty, Empty], [Empty, Empty, Empty], [Empty, Empty, Empty]]

  /** A (row, col) position; only positions with both coordinates in 0..2 are on the board. */
  datatype Pos = Pos(row: int, col: int)

  predicate Valid(p: Pos) {
    0 <= p.row < 3 && 0 <= p.col < 3
  }

  function At(b: Board, p: Pos): Cell
    requires Valid(p)
  {
    b[p.row][p.col]
  }

  /** Position of `p` in row-major order: (0,0) is 0, (0,2) is 2, (1,0) is 3, ... */
  function Index(p: Pos): int {
    3 * p.row + p.col
  }

  /** Writes `c` into the cell at `p`; every other cell keeps its content. */
  function Place(b: Board, p: Pos, c: Cell): (r: Board)
    requires Valid(p)
    ensures At(r, p) == c
    ensures forall q :: Valid(q) && q != p ==> At(r, q) == At(b, q)
  {
    b[p.row := b[p.row][p.col := c]]
  }

  /** Two boards that agree on every position are the same board. */
  lemma Extensionality(a: Board, b: Board)
    requires forall q :: Valid(q) ==> At(a, q) == At(b, q)
    ensures a == b
  {
    forall i | 0 <= i < 3
      ensures a[i] == b[i]
    {
      forall j | 0 <= j < 3
        ensures a[i][j] == b[i][j]
      {
        assert At(a, Pos(i, j)) == At(b, Pos(i, j));
      }
    }
  }

  /** Placing a mark on an empty cell and then clearing that cell gives back
      the board it started from: the undo step of the search. */
  lemma PlaceThenClear(b: Board, p: Pos, c: Cell)
    requires Valid(p) && At(b, p) == Empty
    ensures Place(Place(b, p, c), p, Empty) == b
  {
    Extensionality(Place(Place(b, p, c), p, Empty), b);
  }

  // ---------------------------------------------------------------------------
  // Winning lines

  predicate RowAll(b: Board, i: int, p: Cell)
    requires 0 <= i < 3
  {
    forall j :: 0 <= j < 3 ==> b[i][j] == p
  }

  predicate ColAll(b: Board, i: int, p: Cell)
    requires 0 <= i < 3
  {
    forall j :: 0 <= j < 3 ==> b[j][i] == p
  }

  predicate DiagAll(b: Board, p: Cell) {
    forall i :: 0 <= i < 3 ==> b[i][i] == p
  }

  predicate AntiDiagAll(b: Board, p: Cell) {
    forall i :: 0 <= i < 3 ==> b[i][2 - i] == p
  }

  /** The eight lines of the board, each as its three positions. */
  const Lines: seq<seq<Pos>> := [
    [Pos(0, 0), Pos(0, 1), Pos(0, 2)],
    [Pos(1, 0), Pos(1, 1), Pos(1, 2)],
    [Pos(2, 0), Pos(2, 1), Pos(2, 2)],
    [Pos(0, 0), Pos(1, 0), Pos(2, 0)],
    [Pos(0, 1), Pos(1, 1), Pos(2, 1)],
    [Pos(0, 2), Pos(1, 2), Pos(2, 2)],
    [Pos(0, 0), Pos(1, 1), Pos(2, 2)],
    [Pos(0, 2), Pos(1, 1), Pos(2, 0)]
  ]

  /** `line` is three board positions all holding `p`. */
  predicate Owns(b: Board, line: seq<Pos>, p: Cell) {
    && |line| == 3
    && Valid(line[0]) && Valid(line[1]) && Valid(line[2])
    && At(b, line[0]) == p && At(b, line[1]) == p && At(b, line[2]) == p
  }

  /** The source's `is_winner`: the loop over `i` tests row `i` and column
      `i`, then the two diagonals are tested. */
  predicate IsWinner(b: Board, p: Cell) {
    || (exists i :: 0 <= i < 3 && (RowAll(b, i, p) || ColAll(b, i, p)))
    || DiagAll(b, p)
    || AntiDiagAll(b, p)
  }

  /** Row `i` is line `i`, column `i` is line `3 + i`. The asserts in the
      body are not needed for soundness; they keep the proof fast. */
  lemma RowAndColumnLines(b: Board, p: Cell, i: int)
    requires 0 <= i < 3
    ensures RowAll(b, i, p) <==> Owns(b, Lines[i], p)
    ensures ColAll(b, i, p) <==> Owns(b, Lines[3 + i], p)
  {
    assert Lines[i] == [Pos(i, 0), Pos(i, 1), Pos(i, 2)];
    assert Lines[3 + i] == [Pos(0, i), Pos(1, i), Pos(2, i)];
  }

  /** `IsWinner(b, p)` holds exactly when one of the eight lines consists
      entirely of `p`. */
  lemma WinnerIffOwnsLine(b: Board, p: Cell)
    ensures IsWinner(b, p) <==> exists k :: 0 <= k < |Lines| && Owns(b, Lines[k], p)
  {
    forall i | 0 <= i < 3 {
      RowAndColumnLines(b, p, i);
    }
    assert DiagAll(b, p) <==> Owns(b, Lines[6], p) by {
      assert Lines[6] == [Pos(0, 0), Pos(1, 1), Pos(2, 2)];
    }
    assert AntiDiagAll(b, p) <==> Owns(b, Lines[7], p) by {
      assert Lines[7] == [Pos(0, 2), Pos(1, 1), Pos(2, 0)];
    }
    if IsWinner(b, p) {
      if exists i :: 0 <= i < 3 && (RowAll(b, i, p) || ColAll(b, i, p)) {
        var i :| 0 <= i < 3 && (RowAll(b, i, p) || ColAll(b, i, p));
        if RowAll(b, i, p) {
          assert 0 <= i < |Lines|;
        } else {
          assert 0 <= 3 + i < |Lines|;
        }
      } else if DiagAll(b, p) {
        assert Owns(b, Lines[6], p);
      } else {
        assert Owns(b, Lines[7], p);
      }
    } else {
      forall k | 0 <= k < |Lines|
        ensures !Owns(b, Lines[k], p)
      {
        if k < 3 {
          assert !RowAll(b, k, p);
        } else if k < 6 {
          assert !ColAll(b, k - 3, p);
        }
      }
    }
  }

  /** Writing a mark other than `c` into an empty cell cannot complete a
      line of `c`: a move never hands the win to the other player. */
  lemma PlaceKeepsNoWin(b: Board, p: Pos, m: Cell, c: Cell)
    requires Valid(p) && At(b, p) == Empty && m != c
    requires !IsWinner(b, c)
    ensures !IsWinner(Place(b, p, m), c)
  {
    var b' := Place(b, p, m);
    WinnerIffOwnsLine(b, c);
    WinnerIffOwnsLine(b', c);
    forall k | 0 <= k < |Lines|
      ensures !Owns(b', Lines[k], c)
    {
      assert !Owns(b, Lines[k], c);
    }
  }

  // ---------------------------------------------------------------------------
  // Empty cells

  /** No cell holds `' '`. */
  predicate IsBoardFull(b: Board) {
    forall i, j :: 0 <= i < 3 && 0 <= j < 3 ==> b[i][j] != Empty
  }

  /** Positions listed in strictly increasing row-major order (hence each once). */
  predicate RowMajor(ps: seq<Pos>) {
    forall i, j :: 0 <= i < j < |ps| ==> Index(ps[i]) < Index(ps[j])
  }

  predicate AllValid(ps: seq<Pos>) {
    forall k :: 0 <= k < |ps| ==> Valid(ps[k])
  }

  /** The nine positions in the order of the source's nested loops over `i`
      and then `j`. */
  const AllPositions: seq<Pos> := [
    Pos(0, 0), Pos(0, 1), Pos(0, 2),
    Pos(1, 0), Pos(1, 1), Pos(1, 2),
    Pos(2, 0), Pos(2, 1), Pos(2, 2)
  ]

  /** The `k`-th entry of `AllPositions`, by block of three. The case split
      only keeps the proof fast. */
  lemma AllPositionsIndexed(k: int)
    requires 0 <= k < 9
    ensures Valid(AllPositions[k]) && Index(AllPositions[k]) == k
  {
    if k < 3 {
      assert AllPositions[k] == Pos(0, k);
    } else if k < 6 {
      assert AllPositions[k] == Pos(1, k - 3);
    } else {
      assert AllPositions[k] == Pos(2, k - 6);
    }
  }

  /** `AllPositions` lists the nine valid positions in row-major order. The
      body only keeps the proof fast. */
  lemma AllPositionsInOrder()
    ensures AllValid(AllPositions) && RowMajor(AllPositions)
    ensures forall q :: Valid(q) <==> q in AllPositions
  {
    forall k | 0 <= k < 9
      ensures Valid(AllPositions[k]) && Index(AllPositions[k]) == k
    {
      AllPositionsIndexed(k);
    }
    forall q | Valid(q)
      ensures q in AllPositions
    {
      AllPositionsIndexed(Index(q));
      assert AllPositions[Index(q)] == q;
    }
  }

  /** The positions of `ps` whose cell is empty, in the order of `ps`. */
  function EmptyAmong(b: Board, ps: seq<Pos>): (r: seq<Pos>)
    requires AllValid(ps)
    ensures forall q :: q in r <==> q in ps && At(b, q) == Empty
    ensures RowMajor(ps) ==> RowMajor(r)
  {
    if ps == [] then []
    else
      var rest := EmptyAmong(b, ps[1..]);
      if At(b, ps[0]) == Empty then
        assert RowMajor(ps) ==> forall k :: 0 <= k < |rest| ==> Index(ps[0]) < Index(rest[k]) by {
          if RowMajor(ps) {
            forall k | 0 <= k < |rest|
              ensures Index(ps[0]) < Index(rest[k])
            {
              assert rest[k] in ps[1..];
              var j :| 0 <= j < |ps[1..]| && ps[1..][j] == rest[k];
              assert ps[j + 1] == rest[k];
            }
          }
        }
        [ps[0]] + rest
      else rest
  }

  /** The source's `get_empty_cells`: exactly the empty positions, each once,
      in row-major order. */
  function EmptyCells(b: Board): (r: seq<Pos>)
    ensures forall q :: q in r <==> Valid(q) && At(b, q) == Empty
    ensures RowMajor(r)
  {
    AllPositionsInOrder();
    EmptyAmong(b, AllPositions)
  }

  /** The full check and the enumeration agree: a board is full exactly when
      it has no empty cell to list. */
  lemma FullIffNoEmptyCells(b: Board)
    ensures IsBoardFull(b) <==> EmptyCells(b) == []
  {
    if EmptyCells(b) != [] {
      var q := EmptyCells(b)[0];
      assert q in EmptyCells(b);
      assert Valid(q) && b[q.row][q.col] == Empty;
    }
    if !IsBoardFull(b) {
      var i, j :| 0 <= i < 3 && 0 <= j < 3 && b[i][j] == Empty;
      assert At(b, Pos(i, j)) == Empty;
      assert Pos(i, j) in EmptyCells(b);
    }
  }
  /** Where an empty cell sits in the enumeration: at an index below `k`
      whenever it comes before the `k`-th entry in row-major order. */
  lemma EmptyCellPosition(b: Board, q: Pos, k: int) returns (j: int)
    requires Valid(q) && At(b, q) == Empty && 0 <= k < |EmptyCells(b)|
    ensures 0 <= j < |EmptyCells(b)| && EmptyCells(b)[j] == q
    ensures Index(q) < Index(EmptyCells(b)[k]) ==> j < k
  {
    var cells := EmptyCells(b);
    assert q in cells;
    j :| 0 <= j < |cells| && cells[j] == q;
  }


  // ---------------------------------------------------------------------------
  // Counting marks

  /** How many positions of `ps` hold `c`. */
  function CountAmong(b: Board, c: Cell, ps: seq<Pos>): (n: nat)
    requires AllValid(ps)
    ensures n <= |ps|
  {
    if ps == [] then 0
    else (if At(b, ps[0]) == c then 1 else 0) + CountAmong(b, c, ps[1..])
  }

  /** How many cells of the board hold `c`. */
  function Count(b: Board, c: Cell): nat {
    AllPositionsInOrder();
    CountAmong(b, c, AllPositions)
  }

  lemma {:induction false} EmptyAmongCount(b: Board, ps: seq<Pos>)
    requires AllValid(ps)
    ensures |EmptyAmong(b, ps)| == CountAmong(b, Empty, ps)
  {
    if ps != [] {
      EmptyAmongCount(b, ps[1..]);
    }
  }

  /** The number of empty cells is the length of the enumeration. */
  lemma EmptyCellsCount(b: Board)
    ensures |EmptyCells(b)| == Count(b, Empty)
  {
    AllPositionsInOrder();
    EmptyAmongCount(b, AllPositions);
  }

  lemma {:induction false} CountAmongSum(b: Board, ps: seq<Pos>)
    requires AllValid(ps)
    ensures CountAmong(b, Empty, ps) + CountAmong(b, O, ps) + CountAmong(b, X, ps) == |ps|
  {
    if ps != [] {
      CountAmongSum(b, ps[1..]);
    }
  }

  /** Every one of the nine cells is empty, `'O'` or `'X'`. */
  lemma CountsSumToNine(b: Board)
    ensures Count(b, Empty) + Count(b, O) + Count(b, X) == 9
  {
    AllPositionsInOrder();
    CountAmongSum(b, AllPositions);
  }

  lemma {:induction false} CountAmongAbsent(b: Board, c: Cell, ps: seq<Pos>)
    requires AllValid(ps)
    requires forall k :: 0 <= k < |ps| ==> At(b, ps[k]) != c
    ensures CountAmong(b, c, ps) == 0
  {
    if ps != [] {
      CountAmongAbsent(b, c, ps[1..]);
    }
  }

  /** The empty board holds no mark. The body only keeps the proof fast. */
  lemma EmptyBoardHasNoMark(c: Cell)
    requires c != Empty
    ensures Count(EmptyBoard, c) == 0
  {
    AllPositionsInOrder();
    CountAmongAbsent(EmptyBoard, c, AllPositions);
  }

  /** The empty board holds no line. */
  lemma EmptyBoardHasNoLine(c: Cell)
    requires c != Empty
    ensures !IsWinner(EmptyBoard, c)
  {
    forall i | 0 <= i < 3
      ensures !RowAll(EmptyBoard, i, c) && !ColAll(EmptyBoard, i, c)
    {
      assert EmptyBoard[i][0] == Empty && EmptyBoard[0][i] == Empty;
    }
    assert EmptyBoard[0][0] == Empty && EmptyBoard[0][2] == Empty;
  }

  lemma {:induction false} PlaceCountAmong(b: Board, p: Pos, m: Cell, c: Cell, ps: seq<Pos>)
    requires Valid(p) && AllValid(ps) && RowMajor(ps)
    ensures CountAmong(Place(b, p, m), c, ps) + (if p in ps && At(b, p) == c then 1 else 0)
         == CountAmong(b, c, ps) + (if p in ps && m == c then 1 else 0)
  {
    if ps != [] {
      PlaceCountAmong(b, p, m, c, ps[1..]);
    }
  }

  /** Writing `m` over a cell moves one unit of count from the cell's old
      content to `m` and leaves every other count alone. */
  lemma PlaceCount(b: Board, p: Pos, m: Cell, c: Cell)
    requires Valid(p)
    ensures Count(Place(b, p, m), c) + (if At(b, p) == c then 1 else 0)
         == Count(b, c) + (if m == c then 1 else 0)
  {
    AllPositionsInOrder();
    PlaceCountAmong(b, p, m, c, AllPositions);
  }
}
