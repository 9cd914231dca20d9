/** The 3x3 tic-tac-toe board of the engine: its cells, the eight winning
    lines, the draw and game-over tests, legal-move generation and the
    guarded move / unconditional undo pair (the Python `Game` class,
    with the board as an immutable value instead of a mutable list). */
module Board {

  /** A cell is empty (' '), holds the AI's mark ('X') or the human's ('O'). */
  datatype Cell = Empty | AI | Human

  /** A cell index in row-major order:  0 1 2 / 3 4 5 / 6 7 8. */
  type Pos = i: nat | i < 9

  /** A board always has exactly nine cells. */
  type Board = b: seq<Cell> | |b| == 9
    witness [Empty, Empty, Empty, Empty, Empty, Empty, Empty, Empty, Empty]

  /** The board a new game starts from. */
  const EmptyBoard: Board := [Empty, Empty, Empty, Empty, Empty, Empty, Empty, Empty, Empty]

  /** Three cell indices that win when one player holds all of them. */
  datatype Line = Line(a: Pos, b: Pos, c: Pos)

  /** The eight winning lines, in the order of `is_winner`'s table. */
  const WinLines: seq<Line> := [
    Line(0, 1, 2), Line(3, 4, 5), Line(6, 7, 8),  // rows
    Line(0, 3, 6), Line(1, 4, 7), Line(2, 5, 8),  // columns
    Line(0, 4, 8), Line(2, 4, 6)                  // diagonals
  ]

  /** Player `p` holds all three cells of `line`. */
  predicate Completes(b: Board, line: Line, p: Cell) {
    b[line.a] == p && b[line.b] == p && b[line.c] == p
  }

  /** `is_winner`: some winning line is held entirely by `p`. */
  predicate IsWinner(b: Board, p: Cell) {
    exists k :: 0 <= k < |WinLines| && Completes(b, WinLines[k], p)
  }

  /** `is_draw`: no cell is empty and neither side has won. */
  predicate IsDraw(b: Board) {
    Empty !in b && !IsWinner(b, AI) && !IsWinner(b, Human)
  }

  /** `game_over`: the AI has won, the human has won, or it is a draw. */
  predicate GameOver(b: Board) {
    IsWinner(b, AI) || IsWinner(b, Human) || IsDraw(b)
  }

  /** The number of empty cells; every move lowers it by one, so it bounds the search. */
  function EmptyCount(b: Board): nat {
    multiset(b)[Empty]
  }

  /** `get_moves`: the indices of the empty cells, ascending. */
  function GetMoves(b: Board): (ms: seq<Pos>)
    ensures forall i, j :: 0 <= i < j < |ms| ==> ms[i] < ms[j]
    ensures forall p: Pos :: p in ms <==> b[p] == Empty
    ensures |ms| == EmptyCount(b)
  {
    assert b[..9] == b;
    MovesBelow(b, 9)
  }

  /** The empty-cell indices below `k`, ascending: the list `get_moves` has
      built after scanning the first `k` cells. */
  function MovesBelow(b: Board, k: nat): (ms: seq<Pos>)
    requires k <= 9
    ensures forall i, j :: 0 <= i < j < |ms| ==> ms[i] < ms[j]
    ensures forall i :: 0 <= i < |ms| ==> ms[i] < k
    ensures forall p: Pos :: p in ms <==> p < k && b[p] == Empty
    ensures |ms| == multiset(b[..k])[Empty]
  {
    if k == 0 then []
    else
      var prev := MovesBelow(b, k - 1);
      assert b[..k] == b[..k - 1] + [b[k - 1]];
      if b[k - 1] == Empty then prev + [(k - 1) as Pos]
      else prev
  }

  /** The outcome of `make_move`: the board afterwards and whether the move was accepted. */
  datatype MoveResult = MoveResult(board: Board, ok: bool)

  /** `make_move`: places `player` on `pos` when that cell is empty, otherwise
      refuses and leaves the board as it was. */
  function MakeMove(b: Board, pos: Pos, player: Cell): (r: MoveResult)
    ensures r.ok <==> b[pos] == Empty
    ensures r.ok ==> r.board[pos] == player
    ensures forall i: Pos :: i != pos ==> r.board[i] == b[i]
    ensures !r.ok ==> r.board == b
    ensures r.ok && player != Empty ==> EmptyCount(r.board) == EmptyCount(b) - 1
  {
    if b[pos] == Empty then MoveResult(b[pos := player], true)
    else MoveResult(b, false)
  }

  /** `undo_move`: empties `pos` whatever it held. */
  function UndoMove(b: Board, pos: Pos): (r: Board)
    ensures r[pos] == Empty
    ensures forall i: Pos :: i != pos ==> r[i] == b[i]
  {
    b[pos := Empty]
  }

  /** Undoing an accepted move restores the board exactly. */
  lemma UndoAfterMake(b: Board, pos: Pos, player: Cell)
    requires MakeMove(b, pos, player).ok
    ensures UndoMove(MakeMove(b, pos, player).board, pos) == b
  {
    var r := UndoMove(MakeMove(b, pos, player).board, pos);
    assert forall i: Pos :: r[i] == b[i];
  }

  /** A legal move can always be applied, and undoing it gives back the board. */
  lemma LegalMoveRoundTrip(b: Board, m: Pos, player: Cell)
    requires m in GetMoves(b)
    ensures MakeMove(b, m, player).ok
    ensures UndoMove(MakeMove(b, m, player).board, m) == b
  {
    UndoAfterMake(b, m, player);
  }

  /** A board that is not over always offers at least one legal move, and
      game_over holds exactly when someone has won or no move is left. */
  lemma GameOverIff(b: Board)
    ensures GameOver(b) <==> IsWinner(b, AI) || IsWinner(b, Human) || GetMoves(b) == []
    ensures !GameOver(b) ==> |GetMoves(b)| > 0
  {
    var ms := GetMoves(b);
    if Empty in b {
      var i :| 0 <= i < |b| && b[i] == Empty;
      assert (i as Pos) in ms;
    } else {
      assert forall p: Pos :: p !in ms;
    }
  }

  /** The cell at `row`, `col` of the 3x3 grid. */
  function At(b: Board, row: nat, col: nat): Cell
    requires row < 3 && col < 3
  {
    b[3 * row + col]
  }

  /** Every cell of grid row `row` holds `p`. */
  ghost predicate RowFull(b: Board, p: Cell, row: nat)
    requires row < 3
  {
    forall col: nat :: col < 3 ==> At(b, row, col) == p
  }

  /** Every cell of grid column `col` holds `p`. */
  ghost predicate ColFull(b: Board, p: Cell, col: nat)
    requires col < 3
  {
    forall row: nat :: row < 3 ==> At(b, row, col) == p
  }

  /** The `i`-th cell of the anti-diagonal, top-right to bottom-left. */
  function AntiDiagonal(b: Board, i: nat): Cell
    requires i < 3
  {
    At(b, i, 2 - i)
  }

  /** A geometric reading of a win, independent of the index table: a full
      row, a full column or a full diagonal of the grid. */
  ghost predicate ThreeInARow(b: Board, p: Cell) {
    || (exists row: nat :: row < 3 && RowFull(b, p, row))
    || (exists col: nat :: col < 3 && ColFull(b, p, col))
    || (forall i: nat :: i < 3 ==> At(b, i, i) == p)
    || (forall i: nat :: i < 3 ==> AntiDiagonal(b, i) == p)
  }

  /** The eight index triples are exactly the rows, columns and diagonals. */
  lemma IsWinnerIffThreeInARow(b: Board, p: Cell)
    ensures IsWinner(b, p) <==> ThreeInARow(b, p)
  {
    if IsWinner(b, p) {
      var k :| 0 <= k < |WinLines| && Completes(b, WinLines[k], p);
      if k < 3 {
        assert RowFull(b, p, k);
      } else if k < 6 {
        assert ColFull(b, p, k - 3);
      } else if k == 6 {
        assert forall i: nat :: i < 3 ==> At(b, i, i) == p;
      } else {
        assert forall i: nat :: i < 3 ==> AntiDiagonal(b, i) == p;
      }
    }
    if ThreeInARow(b, p) {
      if exists row: nat :: row < 3 && RowFull(b, p, row) {
        var row: nat :| row < 3 && RowFull(b, p, row);
        assert At(b, row, 0) == p && At(b, row, 1) == p && At(b, row, 2) == p;
        assert Completes(b, WinLines[row], p);
      } else if exists col: nat :: col < 3 && ColFull(b, p, col) {
        var col: nat :| col < 3 && ColFull(b, p, col);
        assert At(b, 0, col) == p && At(b, 1, col) == p && At(b, 2, col) == p;
        assert Completes(b, WinLines[3 + col], p);
      } else if forall i: nat :: i < 3 ==> At(b, i, i) == p {
        assert At(b, 0, 0) == p && At(b, 1, 1) == p && At(b, 2, 2) == p;
        assert Completes(b, WinLines[6], p);
      } else {
        assert AntiDiagonal(b, 0) == p && AntiDiagonal(b, 1) == p && AntiDiagonal(b, 2) == p;
        assert Completes(b, WinLines[7], p);
      }
    }
  }
}
