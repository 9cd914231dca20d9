/** The game-tree search: the terminal scoring policy, plain minimax and
    fail-soft alpha-beta, each a pure function of the board value. The `for`
    loops of `minimax` and the `for ... break` loops of `alphabeta` become the
    scan functions below, which walk the remaining move list carrying the
    running best score (and, for alpha-beta, the running window). */
module Search {
  import opened Wrappers
  import opened Board

  /** Integer stand-ins for the float `-math.inf` / `math.inf` sentinels; every
      score the search produces from depth 0 lies in [-10, 10]. */
  const NegInf: int := -1000
  const PosInf: int := 1000

  function Max(x: int, y: int): int { if x >= y then x else y }

  function Min(x: int, y: int): int { if x <= y then x else y }

  /** The terminal scoring policy both searches check first: an AI win scores
      10 - depth, otherwise a human win scores depth - 10, otherwise a draw
      scores 0; a board that is not over has no terminal score. */
  function Evaluate(b: Board, depth: int): Option<int> {
    if IsWinner(b, AI) then Some(10 - depth)
    else if IsWinner(b, Human) then Some(depth - 10)
    else if IsDraw(b) then Some(0)
    else None
  }

  /** A board has a terminal score exactly when the game is over, and the
      checks run in `minimax`'s order: AI win, then human win, then draw. */
  lemma TerminalScoring(b: Board, depth: int)
    ensures Evaluate(b, depth).Some? <==> GameOver(b)
    ensures IsWinner(b, AI) ==> Evaluate(b, depth) == Some(10 - depth)
    ensures !IsWinner(b, AI) && IsWinner(b, Human) ==> Evaluate(b, depth) == Some(depth - 10)
    ensures !IsWinner(b, AI) && !IsWinner(b, Human) && GameOver(b) ==> Evaluate(b, depth) == Some(0)
  {
  }

  /** Every index in `ms` names an empty cell of `b`. */
  predicate AllEmpty(b: Board, ms: seq<Pos>) {
    forall i :: 0 <= i < |ms| ==> b[ms[i]] == Empty
  }

  lemma GetMovesAllEmpty(b: Board)
    ensures AllEmpty(b, GetMoves(b))
  {
    var ms := GetMoves(b);
    forall i | 0 <= i < |ms| ensures b[ms[i]] == Empty {
      assert ms[i] in ms;
    }
  }

  /** The player who moves at a node: the AI when maximising. */
  function Mover(isMax: bool): Cell {
    if isMax then AI else Human
  }

  /** The board after `p` plays on `m`. */
  function Child(b: Board, m: Pos, p: Cell): Board {
    MakeMove(b, m, p).board
  }

  /** `minimax(game, depth, is_max)`. */
  function Minimax(b: Board, depth: int, isMax: bool): int
    decreases EmptyCount(b), 2
  {
    match Evaluate(b, depth)
    case Some(score) => score
    case None =>
      GetMovesAllEmpty(b);
      if isMax then MaxScan(b, depth, GetMoves(b), NegInf)
      else MinScan(b, depth, GetMoves(b), PosInf)
  }

  /** The minimax score, searched at `depth`, of the board after the side to
      move (the maximiser when `isMax`) plays the empty cell `m`: the other
      side moves next. */
  function MinimaxChild(b: Board, depth: int, m: Pos, isMax: bool): int
    requires b[m] == Empty
    decreases EmptyCount(b), 0
  {
    Minimax(Child(b, m, Mover(isMax)), depth, !isMax)
  }

  /** The maximising loop of `minimax` over the moves `ms` still to try, with
      `acc` the best score so far: the result bounds `acc` and every child's
      score (`MaxScanAttained` shows it is one of them). */
  function MaxScan(b: Board, depth: int, ms: seq<Pos>, acc: int): (r: int)
    requires AllEmpty(b, ms)
    ensures acc <= r
    ensures forall i {:trigger MinimaxChild(b, depth + 1, ms[i], true)} :: 0 <= i < |ms| ==> MinimaxChild(b, depth + 1, ms[i], true) <= r
    decreases EmptyCount(b), 1, |ms|
  {
    if ms == [] then acc
    else
      var score := MinimaxChild(b, depth + 1, ms[0], true);
      MaxScan(b, depth, ms[1..], Max(score, acc))
  }

  /** The minimising loop of `minimax`: the result is at most `acc` and every
      child's score (`MinScanAttained` shows it is one of them). */
  function MinScan(b: Board, depth: int, ms: seq<Pos>, acc: int): (r: int)
    requires AllEmpty(b, ms)
    ensures r <= acc
    ensures forall i {:trigger MinimaxChild(b, depth + 1, ms[i], false)} :: 0 <= i < |ms| ==> r <= MinimaxChild(b, depth + 1, ms[i], false)
    decreases EmptyCount(b), 1, |ms|
  {
    if ms == [] then acc
    else
      var score := MinimaxChild(b, depth + 1, ms[0], false);
      MinScan(b, depth, ms[1..], Min(score, acc))
  }

  /** The maximising loop returns its start value or the score of one of the
      moves it tried, never anything else. */
  lemma {:induction false} MaxScanAttained(b: Board, depth: int, ms: seq<Pos>, acc: int)
    requires AllEmpty(b, ms)
    ensures var r := MaxScan(b, depth, ms, acc);
      r == acc || exists i :: 0 <= i < |ms| && r == MinimaxChild(b, depth + 1, ms[i], true)
    decreases |ms|
  {
    if ms != [] {
      var score := MinimaxChild(b, depth + 1, ms[0], true);
      MaxScanAttained(b, depth, ms[1..], Max(score, acc));
      var r := MaxScan(b, depth, ms, acc);
      if r != acc && r != score {
        var i :| 0 <= i < |ms[1..]| && r == MinimaxChild(b, depth + 1, ms[1..][i], true);
        assert ms[1..][i] == ms[i + 1];
      }
    }
  }

  /** The minimising loop returns its start value or the score of one of the
      moves it tried. */
  lemma {:induction false} MinScanAttained(b: Board, depth: int, ms: seq<Pos>, acc: int)
    requires AllEmpty(b, ms)
    ensures var r := MinScan(b, depth, ms, acc);
      r == acc || exists i :: 0 <= i < |ms| && r == MinimaxChild(b, depth + 1, ms[i], false)
    decreases |ms|
  {
    if ms != [] {
      var score := MinimaxChild(b, depth + 1, ms[0], false);
      MinScanAttained(b, depth, ms[1..], Min(score, acc));
      var r := MinScan(b, depth, ms, acc);
      if r != acc && r != score {
        var i :| 0 <= i < |ms[1..]| && r == MinimaxChild(b, depth + 1, ms[1..][i], false);
        assert ms[1..][i] == ms[i + 1];
      }
    }
  }

  /** `alphabeta(game, depth, alpha, beta, is_max)`. */
  function AlphaBeta(b: Board, depth: int, alpha: int, beta: int, isMax: bool): int
    decreases EmptyCount(b), 2
  {
    match Evaluate(b, depth)
    case Some(score) => score
    case None =>
      GetMovesAllEmpty(b);
      if isMax then AbMaxScan(b, depth, GetMoves(b), NegInf, alpha, beta)
      else AbMinScan(b, depth, GetMoves(b), PosInf, alpha, beta)
  }

  /** The alpha-beta score, searched at `depth` with the window (`alpha`,
      `beta`), of the board after the side to move plays the empty cell `m`. */
  function AlphaBetaChild(b: Board, depth: int, m: Pos, alpha: int, beta: int, isMax: bool): int
    requires b[m] == Empty
    decreases EmptyCount(b), 0
  {
    AlphaBeta(Child(b, m, Mover(isMax)), depth, alpha, beta, !isMax)
  }

  /** The maximising loop of `alphabeta`: fold the child score into `acc`
      and `alpha`, and stop as soon as `beta <= alpha`. */
  function AbMaxScan(b: Board, depth: int, ms: seq<Pos>, acc: int, alpha: int, beta: int): int
    requires AllEmpty(b, ms)
    decreases EmptyCount(b), 1, |ms|
  {
    if ms == [] then acc
    else
      var e := AlphaBetaChild(b, depth + 1, ms[0], alpha, beta, true);
      var acc', alpha' := Max(acc, e), Max(alpha, e);
      if beta <= alpha' then acc'
      else AbMaxScan(b, depth, ms[1..], acc', alpha', beta)
  }

  /** The minimising loop of `alphabeta`: fold the child score into `acc`
      and `beta`, and stop as soon as `beta <= alpha`. */
  function AbMinScan(b: Board, depth: int, ms: seq<Pos>, acc: int, alpha: int, beta: int): int
    requires AllEmpty(b, ms)
    decreases EmptyCount(b), 1, |ms|
  {
    if ms == [] then acc
    else
      var e := AlphaBetaChild(b, depth + 1, ms[0], alpha, beta, false);
      var acc', beta' := Min(acc, e), Min(beta, e);
      if beta' <= alpha then acc'
      else AbMinScan(b, depth, ms[1..], acc', alpha, beta')
  }

  /** One iteration of `minimax`'s maximising loop, read at position `i` of
      the move list; the in-place search methods advance their loops with
      this lemma and the three below. */
  lemma MaxScanStep(b: Board, depth: int, ms: seq<Pos>, i: int, acc: int)
    requires AllEmpty(b, ms) && 0 <= i < |ms|
    ensures AllEmpty(b, ms[i..]) && AllEmpty(b, ms[i + 1..])
    ensures MaxScan(b, depth, ms[i..], acc)
         == MaxScan(b, depth, ms[i + 1..], Max(MinimaxChild(b, depth + 1, ms[i], true), acc))
  {
    assert ms[i..][0] == ms[i];
    assert ms[i..][1..] == ms[i + 1..];
  }

  /** One iteration of `minimax`'s minimising loop. */
  lemma MinScanStep(b: Board, depth: int, ms: seq<Pos>, i: int, acc: int)
    requires AllEmpty(b, ms) && 0 <= i < |ms|
    ensures AllEmpty(b, ms[i..]) && AllEmpty(b, ms[i + 1..])
    ensures MinScan(b, depth, ms[i..], acc)
         == MinScan(b, depth, ms[i + 1..], Min(MinimaxChild(b, depth + 1, ms[i], false), acc))
  {
    assert ms[i..][0] == ms[i];
    assert ms[i..][1..] == ms[i + 1..];
  }

  /** One iteration of `alphabeta`'s maximising loop: the cut when
      `beta <= alpha`, otherwise the next iteration with the raised alpha. */
  lemma AbMaxScanStep(b: Board, depth: int, ms: seq<Pos>, i: int, acc: int, alpha: int, beta: int)
    requires AllEmpty(b, ms) && 0 <= i < |ms|
    ensures AllEmpty(b, ms[i..]) && AllEmpty(b, ms[i + 1..])
    ensures var e := AlphaBetaChild(b, depth + 1, ms[i], alpha, beta, true);
      AbMaxScan(b, depth, ms[i..], acc, alpha, beta)
      == if beta <= Max(alpha, e) then Max(acc, e)
         else AbMaxScan(b, depth, ms[i + 1..], Max(acc, e), Max(alpha, e), beta)
  {
    assert ms[i..][0] == ms[i];
    assert ms[i..][1..] == ms[i + 1..];
  }

  /** One iteration of `alphabeta`'s minimising loop: the cut when
      `beta <= alpha`, otherwise the next iteration with the lowered beta. */
  lemma AbMinScanStep(b: Board, depth: int, ms: seq<Pos>, i: int, acc: int, alpha: int, beta: int)
    requires AllEmpty(b, ms) && 0 <= i < |ms|
    ensures AllEmpty(b, ms[i..]) && AllEmpty(b, ms[i + 1..])
    ensures var e := AlphaBetaChild(b, depth + 1, ms[i], alpha, beta, false);
      AbMinScan(b, depth, ms[i..], acc, alpha, beta)
      == if Min(beta, e) <= alpha then Min(acc, e)
         else AbMinScan(b, depth, ms[i + 1..], Min(acc, e), alpha, Min(beta, e))
  {
    assert ms[i..][0] == ms[i];
    assert ms[i..][1..] == ms[i + 1..];
  }

  /** The fail-soft alpha-beta relation between a search result `r` and the
      true value `v` for the window (`alpha`, `beta`): inside the window they
      agree; a result at or below alpha is an upper bound of `v`, one at or
      above beta a lower bound. */
  predicate FailSoft(r: int, v: int, alpha: int, beta: int) {
    && (r <= alpha ==> v <= r)
    && (beta <= r ==> r <= v)
    && (alpha < r < beta ==> r == v)
  }

  /** Alpha-beta meets the fail-soft relation with minimax for every window
      inside the sentinels. */
  lemma {:induction false} AlphaBetaFailSoft(b: Board, depth: int, alpha: int, beta: int, isMax: bool)
    requires NegInf <= alpha < beta <= PosInf
    ensures FailSoft(AlphaBeta(b, depth, alpha, beta, isMax), Minimax(b, depth, isMax), alpha, beta)
    decreases EmptyCount(b), 2
  {
    match Evaluate(b, depth)
    case Some(_) =>
    case None =>
      GetMovesAllEmpty(b);
      if isMax {
        AbMaxScanFailSoft(b, depth, GetMoves(b), NegInf, NegInf, alpha, alpha, beta);
      } else {
        AbMinScanFailSoft(b, depth, GetMoves(b), PosInf, PosInf, beta, alpha, beta);
      }
  }

  /** The fail-soft relation one ply down. */
  lemma ChildFailSoft(b: Board, depth: int, m: Pos, alpha: int, beta: int, isMax: bool)
    requires b[m] == Empty && NegInf <= alpha < beta <= PosInf
    ensures FailSoft(AlphaBetaChild(b, depth + 1, m, alpha, beta, isMax), MinimaxChild(b, depth + 1, m, isMax), alpha, beta)
    decreases EmptyCount(b), 0
  {
    AlphaBetaFailSoft(Child(b, m, Mover(isMax)), depth + 1, alpha, beta, !isMax);
  }

  /** The maximising loop keeps the fail-soft relation. `s` is the true
      maximum of the children seen so far, `alpha0` the window's lower end on
      entry: the running `acc` bounds `s` from above and equals it once it
      has risen above `alpha0`. */
  lemma {:induction false} AbMaxScanFailSoft(b: Board, depth: int, ms: seq<Pos>, acc: int, s: int,
                                             alpha0: int, alpha: int, beta: int)
    requires AllEmpty(b, ms)
    requires NegInf <= alpha0 && alpha == Max(alpha0, acc) && alpha < beta <= PosInf
    requires s <= acc && (alpha0 < acc ==> acc == s)
    ensures FailSoft(AbMaxScan(b, depth, ms, acc, alpha, beta), MaxScan(b, depth, ms, s), alpha0, beta)
    decreases EmptyCount(b), 1, |ms|
  {
    if ms != [] {
      var e := AlphaBetaChild(b, depth + 1, ms[0], alpha, beta, true);
      var v := MinimaxChild(b, depth + 1, ms[0], true);
      ChildFailSoft(b, depth, ms[0], alpha, beta, true);
      var rest := MaxScan(b, depth, ms[1..], Max(v, s));
      assert MaxScan(b, depth, ms, s) == rest;
      if beta <= Max(alpha, e) {
        assert AbMaxScan(b, depth, ms, acc, alpha, beta) == Max(acc, e);
        MaxCutStep(acc, s, alpha0, alpha, beta, e, v, rest);
      } else {
        assert AbMaxScan(b, depth, ms, acc, alpha, beta)
            == AbMaxScan(b, depth, ms[1..], Max(acc, e), Max(alpha, e), beta);
        MaxContinueStep(acc, s, alpha0, alpha, beta, e, v);
        AbMaxScanFailSoft(b, depth, ms[1..], Max(acc, e), Max(v, s), alpha0, Max(alpha, e), beta);
      }
    }
  }

  /** One cut step of the maximising loop: the child failed high, so its true
      value, and with it the node's, is at least the returned score. */
  lemma MaxCutStep(acc: int, s: int, alpha0: int, alpha: int, beta: int, e: int, v: int, rest: int)
    requires alpha == Max(alpha0, acc) && alpha < beta && s <= acc
    requires FailSoft(e, v, alpha, beta) && beta <= Max(alpha, e) && Max(v, s) <= rest
    ensures FailSoft(Max(acc, e), rest, alpha0, beta)
  {
  }

  /** One uncut step of the maximising loop preserves the loop's relation
      between `acc`, `alpha` and the true maximum so far. */
  lemma MaxContinueStep(acc: int, s: int, alpha0: int, alpha: int, beta: int, e: int, v: int)
    requires alpha == Max(alpha0, acc) && alpha < beta
    requires s <= acc && (alpha0 < acc ==> acc == s)
    requires FailSoft(e, v, alpha, beta) && Max(alpha, e) < beta
    ensures Max(alpha, e) == Max(alpha0, Max(acc, e))
    ensures Max(v, s) <= Max(acc, e)
    ensures alpha0 < Max(acc, e) ==> Max(acc, e) == Max(v, s)
  {
  }

  /** The minimising loop keeps the fail-soft relation; the mirror image of
      `AbMaxScanFailSoft` with `beta0` the window's upper end on entry. */
  lemma {:induction false} AbMinScanFailSoft(b: Board, depth: int, ms: seq<Pos>, acc: int, s: int,
                                             beta0: int, alpha: int, beta: int)
    requires AllEmpty(b, ms)
    requires beta0 <= PosInf && beta == Min(beta0, acc) && NegInf <= alpha < beta
    requires acc <= s && (acc < beta0 ==> acc == s)
    ensures FailSoft(AbMinScan(b, depth, ms, acc, alpha, beta), MinScan(b, depth, ms, s), alpha, beta0)
    decreases EmptyCount(b), 1, |ms|
  {
    if ms != [] {
      var e := AlphaBetaChild(b, depth + 1, ms[0], alpha, beta, false);
      var v := MinimaxChild(b, depth + 1, ms[0], false);
      ChildFailSoft(b, depth, ms[0], alpha, beta, false);
      var rest := MinScan(b, depth, ms[1..], Min(v, s));
      assert MinScan(b, depth, ms, s) == rest;
      if Min(beta, e) <= alpha {
        assert AbMinScan(b, depth, ms, acc, alpha, beta) == Min(acc, e);
        MinCutStep(acc, s, beta0, alpha, beta, e, v, rest);
      } else {
        assert AbMinScan(b, depth, ms, acc, alpha, beta)
            == AbMinScan(b, depth, ms[1..], Min(acc, e), alpha, Min(beta, e));
        MinContinueStep(acc, s, beta0, alpha, beta, e, v);
        AbMinScanFailSoft(b, depth, ms[1..], Min(acc, e), Min(v, s), beta0, alpha, Min(beta, e));
      }
    }
  }

  /** One cut step of the minimising loop: the child failed low. */
  lemma MinCutStep(acc: int, s: int, beta0: int, alpha: int, beta: int, e: int, v: int, rest: int)
    requires beta == Min(beta0, acc) && alpha < beta && acc <= s
    requires FailSoft(e, v, alpha, beta) && Min(beta, e) <= alpha && rest <= Min(v, s)
    ensures FailSoft(Min(acc, e), rest, alpha, beta0)
  {
  }

  /** One uncut step of the minimising loop preserves the loop's relation. */
  lemma MinContinueStep(acc: int, s: int, beta0: int, alpha: int, beta: int, e: int, v: int)
    requires beta == Min(beta0, acc) && alpha < beta
    requires acc <= s && (acc < beta0 ==> acc == s)
    requires FailSoft(e, v, alpha, beta) && alpha < Min(beta, e)
    ensures Min(beta, e) == Min(beta0, Min(acc, e))
    ensures Min(acc, e) <= Min(v, s)
    ensures Min(acc, e) < beta0 ==> Min(acc, e) == Min(v, s)
  {
  }

  /** Scores are shaped by depth: with at most 10 - depth plies left, every
      score lies in [depth - 10, 10 - depth]. From depth 0 (how the move
      selector calls the search) every score is in [-10, 10], so the
      sentinels are never returned. */
  lemma {:induction false} ScoreBounds(b: Board, depth: int, isMax: bool)
    requires 0 <= depth && depth + EmptyCount(b) <= 10
    ensures depth - 10 <= Minimax(b, depth, isMax) <= 10 - depth
    decreases EmptyCount(b), 2
  {
    if GameOver(b) {
      TerminalScoring(b, depth);
      assert Minimax(b, depth, isMax) == Evaluate(b, depth).value;
    } else {
      ChildrenWithinBounds(b, depth, isMax);
    }
  }

  /** A board that is not over scores strictly inside the depth bounds, since
      its outcome lies at least one ply away: a score of 10 or -10 arises only
      from a board already over at depth 0. */
  lemma NonTerminalBounds(b: Board, depth: int, isMax: bool)
    requires !GameOver(b) && 0 <= depth && depth + EmptyCount(b) <= 10
    ensures depth - 9 <= Minimax(b, depth, isMax) <= 9 - depth
  {
    ChildrenWithinBounds(b, depth, isMax);
  }

  /** The inductive step shared by the two bounds lemmas. */
  lemma {:induction false} ChildrenWithinBounds(b: Board, depth: int, isMax: bool)
    requires !GameOver(b) && 0 <= depth && depth + EmptyCount(b) <= 10
    ensures depth - 9 <= Minimax(b, depth, isMax) <= 9 - depth
    decreases EmptyCount(b), 1
  {
    GameOverIff(b);
    GetMovesAllEmpty(b);
    var ms := GetMoves(b);
    forall i | 0 <= i < |ms|
      ensures depth - 9 <= MinimaxChild(b, depth + 1, ms[i], isMax) <= 9 - depth
    {
      ChildWithinBounds(b, depth, isMax, ms[i]);
    }
    ScanWithinBounds(b, depth, ms, isMax, depth - 9, 9 - depth);
    assert Evaluate(b, depth).None? by { TerminalScoring(b, depth); }
  }

  /** A legal child of a node scores within the node's bounds narrowed by one ply. */
  lemma {:induction false} ChildWithinBounds(b: Board, depth: int, isMax: bool, m: Pos)
    requires b[m] == Empty && 0 <= depth && depth + EmptyCount(b) <= 10
    ensures depth - 9 <= MinimaxChild(b, depth + 1, m, isMax) <= 9 - depth
    decreases EmptyCount(b), 0
  {
    var c := Child(b, m, Mover(isMax));
    assert EmptyCount(c) == EmptyCount(b) - 1 by {
      assert MakeMove(b, m, Mover(isMax)).ok;
    }
    ScoreBounds(c, depth + 1, !isMax);
    assert MinimaxChild(b, depth + 1, m, isMax) == Minimax(c, depth + 1, !isMax);
  }

  /** When every move in a non-empty list leads to a child scoring within
      [lo, hi] (with lo above the -inf sentinel and hi below +inf), the
      loop of the side to move, started from its sentinel, ends within
      [lo, hi] too. */
  lemma ScanWithinBounds(b: Board, depth: int, ms: seq<Pos>, isMax: bool, lo: int, hi: int)
    requires AllEmpty(b, ms) && |ms| > 0 && NegInf < lo && hi < PosInf
    requires forall i :: 0 <= i < |ms| ==> lo <= MinimaxChild(b, depth + 1, ms[i], isMax) <= hi
    ensures isMax ==> lo <= MaxScan(b, depth, ms, NegInf) <= hi
    ensures !isMax ==> lo <= MinScan(b, depth, ms, PosInf) <= hi
  {
    if isMax {
      assert lo <= MinimaxChild(b, depth + 1, ms[0], true);
      MaxScanAttained(b, depth, ms, NegInf);
    } else {
      assert MinimaxChild(b, depth + 1, ms[0], false) <= hi;
      MinScanAttained(b, depth, ms, PosInf);
    }
  }

  /** At a node that is not over, minimax is the best child score for the
      side to move: the maximum over the legal moves when maximising, the
      minimum when minimising, and it is attained by some legal move. */
  lemma MinimaxIsBestChild(b: Board, depth: int, isMax: bool)
    requires !GameOver(b) && 0 <= depth && depth + EmptyCount(b) <= 10
    ensures isMax ==> forall m :: m in GetMoves(b) ==>
      MinimaxChild(b, depth + 1, m, true) <= Minimax(b, depth, isMax)
    ensures !isMax ==> forall m :: m in GetMoves(b) ==>
      Minimax(b, depth, isMax) <= MinimaxChild(b, depth + 1, m, false)
    ensures exists m :: m in GetMoves(b) && Minimax(b, depth, isMax) == MinimaxChild(b, depth + 1, m, isMax)
  {
    NonTerminalBounds(b, depth, isMax);
    assert Evaluate(b, depth).None? by { TerminalScoring(b, depth); }
    GetMovesAllEmpty(b);
    var ms := GetMoves(b);
    var v := Minimax(b, depth, isMax);
    assert NegInf < v < PosInf;
    if isMax {
      assert v == MaxScan(b, depth, ms, NegInf);
      MaxScanAttained(b, depth, ms, NegInf);
    } else {
      assert v == MinScan(b, depth, ms, PosInf);
      MinScanAttained(b, depth, ms, PosInf);
    }
    assert exists i :: 0 <= i < |ms| && v == MinimaxChild(b, depth + 1, ms[i], isMax);
    forall m | m in ms
      ensures isMax ==> MinimaxChild(b, depth + 1, m, true) <= v
      ensures !isMax ==> v <= MinimaxChild(b, depth + 1, m, false)
    {
      var i :| 0 <= i < |ms| && ms[i] == m;
    }
    var i :| 0 <= i < |ms| && v == MinimaxChild(b, depth + 1, ms[i], isMax);
    assert ms[i] in ms;
  }

  /** The window property of alpha-beta: when the minimax value lies strictly
      inside (alpha, beta) the result is exactly that value; otherwise the
      result lies on the same side of the window as the value. */
  lemma AlphaBetaWindow(b: Board, depth: int, alpha: int, beta: int, isMax: bool)
    requires NegInf <= alpha < beta <= PosInf
    ensures alpha < Minimax(b, depth, isMax) < beta ==>
      AlphaBeta(b, depth, alpha, beta, isMax) == Minimax(b, depth, isMax)
    ensures Minimax(b, depth, isMax) <= alpha ==> AlphaBeta(b, depth, alpha, beta, isMax) <= alpha
    ensures beta <= Minimax(b, depth, isMax) ==> beta <= AlphaBeta(b, depth, alpha, beta, isMax)
  {
    AlphaBetaFailSoft(b, depth, alpha, beta, isMax);
  }

  /** Started from the open window (-inf, +inf), alpha-beta returns exactly
      the minimax value, for every call the move selector can make. */
  lemma AlphaBetaEqualsMinimax(b: Board, depth: int, isMax: bool)
    requires 0 <= depth && depth + EmptyCount(b) <= 10
    ensures AlphaBeta(b, depth, NegInf, PosInf, isMax) == Minimax(b, depth, isMax)
  {
    ScoreBounds(b, depth, isMax);
    AlphaBetaWindow(b, depth, NegInf, PosInf, isMax);
  }
}
