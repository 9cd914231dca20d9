/** The engine as `minimax`, `alphabeta` and `get_best_move` run it: one
    mutable nine-cell board shared by the whole search, each move applied in
    place, searched below, then undone. Each search method (`MinimaxInPlace`,
    `AlphaBetaInPlace`, their four loops, `ScoreMoveInPlace`,
    `GetBestMoveInPlace`) is proved to return the pure model's value and to
    leave the cells as it found them; `Game.MakeMove` and `Game.UndoMove`
    agree with the pure `make_move` and `undo_move`. */
module InPlace {
  import opened Wrappers
  import opened Rules = Board
  import opened Search
  import opened MoveSelect

  /** The `Game` object: a board of nine cells updated in place. */
  class Game {
    const board: array<Cell>

    ghost predicate Valid()
      reads this
    {
      board.Length == 9
    }

    /** The cells as a board value. */
    function Cells(): Rules.Board
      reads this, board
      requires Valid()
    {
      board[..]
    }

    /** A new game starts with every cell empty. */
    constructor ()
      ensures Valid() && fresh(board)
      ensures Cells() == EmptyBoard
    {
      board := new Cell[9](_ => Empty);
      new;
      assert board[..] == EmptyBoard;
    }

    /** `get_moves`, scanning the cells in ascending order. */
    method GetMoves() returns (ms: seq<Pos>)
      requires Valid()
      ensures ms == Rules.GetMoves(Cells())
    {
      ghost var b := Cells();
      ms := [];
      var i := 0;
      while i < 9
        invariant 0 <= i <= 9
        invariant ms == MovesBelow(b, i)
      {
        if board[i] == Empty {
          ms := ms + [i];
        }
        i := i + 1;
      }
      assert b[..9] == b;
    }

    /** `make_move`: writes the cell only when it is empty. */
    method MakeMove(pos: Pos, player: Cell) returns (ok: bool)
      requires Valid()
      modifies board
      ensures ok == Rules.MakeMove(old(Cells()), pos, player).ok
      ensures Cells() == Rules.MakeMove(old(Cells()), pos, player).board
    {
      if board[pos] == Empty {
        board[pos] := player;
        return true;
      }
      return false;
    }

    /** `undo_move`: empties the cell unconditionally. */
    method UndoMove(pos: Pos)
      requires Valid()
      modifies board
      ensures Cells() == Rules.UndoMove(old(Cells()), pos)
    {
      board[pos] := Empty;
    }
  }

  /** `minimax` on the shared board: the pure model's score, and the board
      is left as it was. */
  method MinimaxInPlace(g: Game, depth: int, isMax: bool) returns (score: int)
    requires g.Valid()
    modifies g.board
    ensures g.Cells() == old(g.Cells())
    ensures score == Minimax(old(g.Cells()), depth, isMax)
    decreases EmptyCount(g.Cells()), 1
  {
    var b := g.Cells();
    var terminal := Evaluate(b, depth);
    if terminal.Some? {
      return terminal.value;
    }
    var moves := g.GetMoves();
    GetMovesAllEmpty(b);
    if isMax {
      score := MaxLoopInPlace(g, depth, moves);
    } else {
      score := MinLoopInPlace(g, depth, moves);
    }
  }

  /** The maximising loop of `minimax`: each move is made for the AI,
      searched one ply deeper and undone. */
  method MaxLoopInPlace(g: Game, depth: int, moves: seq<Pos>) returns (maxScore: int)
    requires g.Valid() && AllEmpty(g.Cells(), moves)
    modifies g.board
    ensures g.Cells() == old(g.Cells())
    ensures maxScore == MaxScan(old(g.Cells()), depth, moves, NegInf)
    decreases EmptyCount(g.Cells()), 0
  {
    var b := g.Cells();
    maxScore := NegInf;
    var i := 0;
    while i < |moves|
      invariant 0 <= i <= |moves|
      invariant g.Cells() == b
      invariant MaxScan(b, depth, moves[i..], maxScore) == MaxScan(b, depth, moves, NegInf)
    {
      var move := moves[i];
      MaxScanStep(b, depth, moves, i, maxScore);
      var _ := g.MakeMove(move, AI);
      var score := MinimaxInPlace(g, depth + 1, false);
      g.UndoMove(move);
      UndoAfterMake(b, move, AI);
      maxScore := Max(score, maxScore);
      i := i + 1;
    }
  }

  /** The minimising loop of `minimax`: each move is made for the human,
      searched one ply deeper and undone. */
  method MinLoopInPlace(g: Game, depth: int, moves: seq<Pos>) returns (minScore: int)
    requires g.Valid() && AllEmpty(g.Cells(), moves)
    modifies g.board
    ensures g.Cells() == old(g.Cells())
    ensures minScore == MinScan(old(g.Cells()), depth, moves, PosInf)
    decreases EmptyCount(g.Cells()), 0
  {
    var b := g.Cells();
    minScore := PosInf;
    var i := 0;
    while i < |moves|
      invariant 0 <= i <= |moves|
      invariant g.Cells() == b
      invariant MinScan(b, depth, moves[i..], minScore) == MinScan(b, depth, moves, PosInf)
    {
      var move := moves[i];
      MinScanStep(b, depth, moves, i, minScore);
      var _ := g.MakeMove(move, Human);
      var score := MinimaxInPlace(g, depth + 1, true);
      g.UndoMove(move);
      UndoAfterMake(b, move, Human);
      minScore := Min(score, minScore);
      i := i + 1;
    }
  }

  /** `alphabeta` on the shared board: the pure model's score, and the board
      is left as it was, even when a loop stops early. */
  method AlphaBetaInPlace(g: Game, depth: int, alpha: int, beta: int, isMax: bool) returns (score: int)
    requires g.Valid()
    modifies g.board
    ensures g.Cells() == old(g.Cells())
    ensures score == AlphaBeta(old(g.Cells()), depth, alpha, beta, isMax)
    decreases EmptyCount(g.Cells()), 1
  {
    var b := g.Cells();
    var terminal := Evaluate(b, depth);
    if terminal.Some? {
      return terminal.value;
    }
    var moves := g.GetMoves();
    GetMovesAllEmpty(b);
    if isMax {
      score := AbMaxLoopInPlace(g, depth, moves, alpha, beta);
    } else {
      score := AbMinLoopInPlace(g, depth, moves, alpha, beta);
    }
  }

  /** The maximising loop of `alphabeta`, which raises `alpha` and breaks
      out as soon as `beta <= alpha`. */
  method AbMaxLoopInPlace(g: Game, depth: int, moves: seq<Pos>, alpha: int, beta: int) returns (maxEval: int)
    requires g.Valid() && AllEmpty(g.Cells(), moves)
    modifies g.board
    ensures g.Cells() == old(g.Cells())
    ensures maxEval == AbMaxScan(old(g.Cells()), depth, moves, NegInf, alpha, beta)
    decreases EmptyCount(g.Cells()), 0
  {
    var b := g.Cells();
    maxEval := NegInf;
    var alpha' := alpha;
    var i := 0;
    while i < |moves|
      invariant 0 <= i <= |moves|
      invariant g.Cells() == b
      invariant AbMaxScan(b, depth, moves[i..], maxEval, alpha', beta) == AbMaxScan(b, depth, moves, NegInf, alpha, beta)
    {
      var move := moves[i];
      AbMaxScanStep(b, depth, moves, i, maxEval, alpha', beta);
      var _ := g.MakeMove(move, AI);
      var e := AlphaBetaInPlace(g, depth + 1, alpha', beta, false);
      g.UndoMove(move);
      UndoAfterMake(b, move, AI);
      maxEval := Max(maxEval, e);
      alpha' := Max(alpha', e);
      if beta <= alpha' {
        break;
      }
      i := i + 1;
    }
  }

  /** The minimising loop of `alphabeta`, which lowers `beta` and breaks
      out as soon as `beta <= alpha`. */
  method AbMinLoopInPlace(g: Game, depth: int, moves: seq<Pos>, alpha: int, beta: int) returns (minEval: int)
    requires g.Valid() && AllEmpty(g.Cells(), moves)
    modifies g.board
    ensures g.Cells() == old(g.Cells())
    ensures minEval == AbMinScan(old(g.Cells()), depth, moves, PosInf, alpha, beta)
    decreases EmptyCount(g.Cells()), 0
  {
    var b := g.Cells();
    minEval := PosInf;
    var beta' := beta;
    var i := 0;
    while i < |moves|
      invariant 0 <= i <= |moves|
      invariant g.Cells() == b
      invariant AbMinScan(b, depth, moves[i..], minEval, alpha, beta') == AbMinScan(b, depth, moves, PosInf, alpha, beta)
    {
      var move := moves[i];
      AbMinScanStep(b, depth, moves, i, minEval, alpha, beta');
      var _ := g.MakeMove(move, Human);
      var e := AlphaBetaInPlace(g, depth + 1, alpha, beta', true);
      g.UndoMove(move);
      UndoAfterMake(b, move, Human);
      minEval := Min(minEval, e);
      beta' := Min(beta', e);
      if beta' <= alpha {
        break;
      }
      i := i + 1;
    }
  }

  /** `get_best_move` on the shared board: the pure model's choice, for
      either search, and the board is left as it was. */
  method GetBestMoveInPlace(g: Game, useAlphaBeta: bool) returns (bestMove: Option<Pos>)
    requires g.Valid()
    modifies g.board
    ensures g.Cells() == old(g.Cells())
    ensures bestMove == GetBestMove(old(g.Cells()), useAlphaBeta)
  {
    ghost var b := g.Cells();
    ghost var value := MoveValues(b, useAlphaBeta);
    var bestVal := NegInf;
    bestMove := None;
    var moves := g.GetMoves();
    GetMovesAllEmpty(b);
    var i := 0;
    while i < |moves|
      invariant 0 <= i <= |moves|
      invariant g.Cells() == b
      invariant BestScan(moves[i..], value, Best(bestVal, bestMove))
             == BestScan(moves, value, Best(NegInf, None))
    {
      var move := moves[i];
      BestScanStep(moves, value, i, Best(bestVal, bestMove));
      var moveVal := ScoreMoveInPlace(g, move, useAlphaBeta);
      if moveVal > bestVal {
        bestVal := moveVal;
        bestMove := Some(move);
      }
      i := i + 1;
    }
  }

  /** The body of `get_best_move`'s loop for one move: play it for the AI,
      search the human's reply from depth 0, and take it back. */
  method ScoreMoveInPlace(g: Game, move: Pos, useAlphaBeta: bool) returns (moveVal: int)
    requires g.Valid() && g.Cells()[move] == Empty
    modifies g.board
    ensures g.Cells() == old(g.Cells())
    ensures moveVal == MoveValues(old(g.Cells()), useAlphaBeta)(move)
  {
    ghost var b := g.Cells();
    var _ := g.MakeMove(move, AI);
    if useAlphaBeta {
      moveVal := AlphaBetaInPlace(g, 0, NegInf, PosInf, false);
    } else {
      moveVal := MinimaxInPlace(g, 0, false);
    }
    g.UndoMove(move);
    UndoAfterMake(b, move, AI);
  }
}
