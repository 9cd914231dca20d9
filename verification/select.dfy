/** `get_best_move`: one full ply of search for the AI over the legal moves
    in ascending order, keeping a move only when its score is strictly
    greater than the best so far. */
module MoveSelect {
  import opened Wrappers
  import opened Board
  import opened Search

  /** The score `get_best_move` gives the AI's move on the empty cell `m`:
      the human replies next, searched from depth 0, with the full window for
      alpha-beta. */
  function MoveValue(b: Board, m: Pos, useAlphaBeta: bool): int
    requires b[m] == Empty
  {
    if useAlphaBeta then AlphaBetaChild(b, 0, m, NegInf, PosInf, true)
    else MinimaxChild(b, 0, m, true)
  }

  /** `MoveValue` for a fixed board and flag, as the selection loop consumes
      it. The loop only visits legal moves, so an occupied cell is given the
      -inf sentinel, which no selection can pick. */
  function MoveValues(b: Board, useAlphaBeta: bool): Pos -> int {
    (m: Pos) => if b[m] == Empty then MoveValue(b, m, useAlphaBeta) else NegInf
  }

  /** The running best score and move of the selection loop. */
  datatype Best = Best(score: int, move: Option<Pos>)

  /** The selection loop over the moves `ms` still to try, each scored by
      `value`: the result's score bounds every move tried and, unless nothing
      beat `best`, the result is the first move of `ms` reaching that score. */
  function BestScan(ms: seq<Pos>, value: Pos -> int, best: Best): (r: Best)
    ensures best.score <= r.score
    ensures forall i :: 0 <= i < |ms| ==> value(ms[i]) <= r.score
    ensures || r == best
            || exists i :: 0 <= i < |ms| && FirstBest(ms, value, i, best.score, r)
  {
    if ms == [] then best
    else
      var v := value(ms[0]);
      var best' := if v > best.score then Best(v, Some(ms[0])) else best;
      var r := BestScan(ms[1..], value, best');
      assert r == best' ==> r == best || FirstBest(ms, value, 0, best.score, r);
      assert forall i :: 0 <= i < |ms[1..]| && FirstBest(ms[1..], value, i, best'.score, r) ==>
        FirstBest(ms, value, i + 1, best.score, r);
      r
  }

  /** `r` records `ms[i]` with its score, which beats `floor` and every move
      before position `i`. */
  predicate FirstBest(ms: seq<Pos>, value: Pos -> int, i: int, floor: int, r: Best)
    requires 0 <= i < |ms|
  {
    && r.move == Some(ms[i])
    && r.score == value(ms[i])
    && floor < r.score
    && forall j :: 0 <= j < i ==> value(ms[j]) < r.score
  }

  /** Scanning a non-empty ascending move list from the -inf sentinel, with
      every score above the sentinel, picks a listed move whose score is
      maximal and beats every move listed before it. */
  lemma {:induction false} ScanPicksFirstMaximum(ms: seq<Pos>, value: Pos -> int)
    requires |ms| > 0
    requires forall i, j :: 0 <= i < j < |ms| ==> ms[i] < ms[j]
    requires forall i :: 0 <= i < |ms| ==> NegInf < value(ms[i])
    ensures var r := BestScan(ms, value, Best(NegInf, None));
      && r.move.Some? && r.move.value in ms
      && (forall i :: 0 <= i < |ms| ==> value(ms[i]) <= value(r.move.value))
      && (forall i :: 0 <= i < |ms| && ms[i] < r.move.value ==> value(ms[i]) < value(r.move.value))
  {
    var r := BestScan(ms, value, Best(NegInf, None));
    assert value(ms[0]) <= r.score;
    var k :| 0 <= k < |ms| && FirstBest(ms, value, k, NegInf, r);
    assert forall i :: k <= i < |ms| ==> ms[k] <= ms[i];
  }

  /** Every legal move scores within [-10, 10] under both searches, and the
      two searches give it the same score. */
  lemma MoveValueBounds(b: Board, m: Pos)
    requires b[m] == Empty
    ensures -10 <= MoveValue(b, m, false) <= 10
    ensures MoveValue(b, m, true) == MoveValue(b, m, false)
  {
    var c := Child(b, m, AI);
    assert EmptyCount(c) == EmptyCount(b) - 1 by { assert MakeMove(b, m, AI).ok; }
    ScoreBounds(c, 0, false);
    AlphaBetaEqualsMinimax(c, 0, false);
    assert MoveValue(b, m, false) == Minimax(c, 0, false);
    assert MoveValue(b, m, true) == AlphaBeta(c, 0, NegInf, PosInf, false);
  }

  /** `get_best_move(game, use_alpha_beta)`: no move exactly when no cell is
      empty; otherwise an empty cell whose score is maximal, and the lowest
      such index, since only a strictly greater score replaces the best. */
  function GetBestMove(b: Board, useAlphaBeta: bool): (r: Option<Pos>)
    ensures r.None? <==> GetMoves(b) == []
    ensures r.Some? ==> b[r.value] == Empty
    ensures r.Some? ==> forall m: Pos :: b[m] == Empty ==>
      MoveValue(b, m, useAlphaBeta) <= MoveValue(b, r.value, useAlphaBeta)
    ensures r.Some? ==> forall m: Pos :: b[m] == Empty && m < r.value ==>
      MoveValue(b, m, useAlphaBeta) < MoveValue(b, r.value, useAlphaBeta)
  {
    var r := BestScan(GetMoves(b), MoveValues(b, useAlphaBeta), Best(NegInf, None)).move;
    SelectionProperties(b, useAlphaBeta, r);
    r
  }

  /** The selection loop, run from the -inf sentinel over the legal moves,
      yields a maximal legal move of lowest index, or nothing when there is
      no legal move. */
  lemma SelectionProperties(b: Board, useAlphaBeta: bool, r: Option<Pos>)
    requires r == BestScan(GetMoves(b), MoveValues(b, useAlphaBeta), Best(NegInf, None)).move
    ensures r.None? <==> GetMoves(b) == []
    ensures r.Some? ==> b[r.value] == Empty
    ensures r.Some? ==> forall m: Pos :: b[m] == Empty ==>
      MoveValue(b, m, useAlphaBeta) <= MoveValue(b, r.value, useAlphaBeta)
    ensures r.Some? ==> forall m: Pos :: b[m] == Empty && m < r.value ==>
      MoveValue(b, m, useAlphaBeta) < MoveValue(b, r.value, useAlphaBeta)
  {
    var ms := GetMoves(b);
    var value := MoveValues(b, useAlphaBeta);
    if ms != [] {
      forall i | 0 <= i < |ms| ensures NegInf < value(ms[i]) {
        assert b[ms[i]] == Empty by { assert ms[i] in ms; }
        MoveValueBounds(b, ms[i]);
      }
      ScanPicksFirstMaximum(ms, value);
      var w := r.value;
      forall m: Pos | b[m] == Empty
        ensures value(m) <= value(w)
        ensures m < w ==> value(m) < value(w)
      {
        assert m in ms;
        var j :| 0 <= j < |ms| && ms[j] == m;
      }
    }
  }

  /** Both values of the `use_alpha_beta` flag select the same move. */
  lemma GetBestMoveSameEitherWay(b: Board)
    ensures GetBestMove(b, true) == GetBestMove(b, false)
  {
    forall m: Pos | b[m] == Empty
      ensures MoveValue(b, m, true) == MoveValue(b, m, false)
    {
      MoveValueBounds(b, m);
    }
  }

  /** After the AI's move on the empty cell `m`, the AI holds a line. */
  predicate WinsAtOnce(b: Board, m: Pos) {
    b[m] == Empty && IsWinner(Child(b, m, AI), AI)
  }

  /** A legal move after which the AI holds a line scores 10; any other
      legal move scores at most 9. */
  lemma MoveValueOfWin(b: Board, m: Pos)
    requires b[m] == Empty
    ensures WinsAtOnce(b, m) <==> MoveValue(b, m, false) == 10
    ensures !WinsAtOnce(b, m) ==> MoveValue(b, m, false) <= 9
  {
    var c := Child(b, m, AI);
    assert EmptyCount(c) == EmptyCount(b) - 1 by { assert MakeMove(b, m, AI).ok; }
    assert MoveValue(b, m, false) == Minimax(c, 0, false);
    if GameOver(c) {
      TerminalScoring(c, 0);
      assert Minimax(c, 0, false) == Evaluate(c, 0).value;
    } else {
      NonTerminalBounds(c, 0, false);
    }
  }

  /** When some legal move leaves the AI holding a line, the selector returns
      such a cell, the lowest one, with the top score 10. */
  lemma ImmediateWinChosen(b: Board, useAlphaBeta: bool)
    requires exists m: Pos :: WinsAtOnce(b, m)
    ensures GetBestMove(b, useAlphaBeta).Some?
    ensures WinsAtOnce(b, GetBestMove(b, useAlphaBeta).value)
    ensures MoveValue(b, GetBestMove(b, useAlphaBeta).value, useAlphaBeta) == 10
    ensures forall m: Pos :: m < GetBestMove(b, useAlphaBeta).value ==> !WinsAtOnce(b, m)
  {
    GetBestMoveSameEitherWay(b);
    var m: Pos :| WinsAtOnce(b, m);
    assert m in GetMoves(b);
    var w := GetBestMove(b, false).value;
    MoveValueOfWin(b, m);
    MoveValueOfWin(b, w);
    MoveValueBounds(b, w);
    forall m': Pos | m' < w
      ensures !WinsAtOnce(b, m')
    {
      if b[m'] == Empty {
        MoveValueOfWin(b, m');
      }
    }
  }

  /** On a drawn (full, unwon) board there is no move to select. */
  lemma DrawHasNoMove(b: Board, useAlphaBeta: bool)
    requires IsDraw(b)
    ensures GetMoves(b) == [] && GetBestMove(b, useAlphaBeta).None?
  {
    GameOverIff(b);
  }

  /** One iteration of the selection loop, read at position `i`. */
  lemma BestScanStep(ms: seq<Pos>, value: Pos -> int, i: int, best: Best)
    requires 0 <= i < |ms|
    ensures BestScan(ms[i..], value, best)
         == BestScan(ms[i + 1..], value,
                     if value(ms[i]) > best.score then Best(value(ms[i]), Some(ms[i])) else best)
  {
    assert ms[i..][0] == ms[i];
    assert ms[i..][1..] == ms[i + 1..];
  }
}
