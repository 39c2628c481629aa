/** The search half of `adversarial_search/breakthrough_alpha.py`: the
    fail-soft alpha-beta search nested in `alpha_beta_decision`, cut off at
    depth 4 and scored by `utility_of` for the deciding player, and the
    depth-limited minimax values it computes. `max_value` moves the
    player's pawns and `min_value` the opponent's.

    The values and the two searches are stated for any successor function
    `moves` that, like `successors_of`, maps a board to a list of boards;
    `alpha_beta_decision` runs them on `NextBoards`, which is
    `successors_of` itself. */
module BreakthroughSearch {
  import opened Wrappers
  import opened Minimax
  import opened BreakthroughRules

  /** `depth == 4`: where both functions stop searching and score. */
  const MaxDepth: int := 4

  predicate AllBoards(ms: seq<Board>)
  {
    forall k :: 0 <= k < |ms| ==> IsBoard(ms[k])
  }

  /** A successor function of the shape of `successors_of`: from a board,
      for either player, a list of boards. */
  type MoveFn = (Board, Cell) -> seq<Board>

  ghost predicate Closed(moves: MoveFn)
  {
    forall t, q :: IsBoard(t) ==> AllBoards(moves(t, q))
  }

  /** `successors_of(board, player)`, for the boards the game is played on. */
  function NextBoards(b: Board, q: Cell): seq<Board>
  {
    if IsBoard(b) then Successors(b, q) else []
  }

  lemma NextBoardsClosed()
    ensures Closed(NextBoards)
  {
    forall t, q | IsBoard(t) ensures AllBoards(NextBoards(t, q)) {
      SuccessorsAreBoards(t, q);
    }
  }

  // ---------------------------------------------------------------------
  // Depth-limited minimax values

  /** The value `max_value` is after: the player `p` to move at depth `d`. */
  function MaxV(b: Board, p: Cell, d: int, moves: MoveFn): int
    requires IsBoard(b) && 0 <= d <= MaxDepth && Closed(moves)
    decreases MaxDepth - d, 1
  {
    if IsTerminal(b, p) || d == MaxDepth then UtilityOf(b, p)
    else MaxOf(MinVals(moves(b, p), p, d + 1, moves))
  }

  /** The value `min_value` is after: the opponent of `p` to move at depth `d`. */
  function MinV(b: Board, p: Cell, d: int, moves: MoveFn): int
    requires IsBoard(b) && 0 <= d <= MaxDepth && Closed(moves)
    decreases MaxDepth - d, 1
  {
    if IsTerminal(b, Opponent(p)) || d == MaxDepth then UtilityOf(b, p)
    else MinOf(MaxVals(moves(b, Opponent(p)), p, d + 1, moves))
  }

  /** `MinV` at depth `d` of each board, in order. */
  function MinVals(ms: seq<Board>, p: Cell, d: int, moves: MoveFn): (r: seq<int>)
    requires AllBoards(ms) && 0 <= d <= MaxDepth && Closed(moves)
    ensures |r| == |ms|
    decreases MaxDepth - d, 2, |ms|
  {
    if ms == [] then [] else MinVals(ms[..|ms| - 1], p, d, moves) + [MinV(ms[|ms| - 1], p, d, moves)]
  }

  /** `MaxV` at depth `d` of each board, in order. */
  function MaxVals(ms: seq<Board>, p: Cell, d: int, moves: MoveFn): (r: seq<int>)
    requires AllBoards(ms) && 0 <= d <= MaxDepth && Closed(moves)
    ensures |r| == |ms|
    decreases MaxDepth - d, 2, |ms|
  {
    if ms == [] then [] else MaxVals(ms[..|ms| - 1], p, d, moves) + [MaxV(ms[|ms| - 1], p, d, moves)]
  }

  lemma {:induction false} MinValsAt(ms: seq<Board>, p: Cell, d: int, moves: MoveFn, j: int)
    requires AllBoards(ms) && 0 <= d <= MaxDepth && Closed(moves) && 0 <= j < |ms|
    ensures MinVals(ms, p, d, moves)[j] == MinV(ms[j], p, d, moves)
    decreases |ms|
  {
    if j < |ms| - 1 {
      MinValsAt(ms[..|ms| - 1], p, d, moves, j);
    }
  }

  lemma {:induction false} MaxValsAt(ms: seq<Board>, p: Cell, d: int, moves: MoveFn, j: int)
    requires AllBoards(ms) && 0 <= d <= MaxDepth && Closed(moves) && 0 <= j < |ms|
    ensures MaxVals(ms, p, d, moves)[j] == MaxV(ms[j], p, d, moves)
    decreases |ms|
  {
    if j < |ms| - 1 {
      MaxValsAt(ms[..|ms| - 1], p, d, moves, j);
    }
  }

  /** One more board appends its value. */
  lemma MinValsStep(ms: seq<Board>, p: Cell, d: int, moves: MoveFn, i: int)
    requires AllBoards(ms) && 0 <= d <= MaxDepth && Closed(moves) && 0 <= i < |ms|
    ensures MinVals(ms[..i + 1], p, d, moves) == MinVals(ms[..i], p, d, moves) + [MinV(ms[i], p, d, moves)]
  {
    assert ms[..i + 1][..i] == ms[..i];
  }

  /** Every value lies between the sentinels: a utility, or `-inf` for a
      player without a move in `max_value` and `inf` in `min_value`. */
  lemma {:induction false} ValueRange(b: Board, p: Cell, d: int, moves: MoveFn)
    requires IsBoard(b) && 0 <= d <= MaxDepth && Closed(moves)
    ensures NEG <= MaxV(b, p, d, moves) <= POS && NEG <= MinV(b, p, d, moves) <= POS
    decreases MaxDepth - d, 1
  {
    if d < MaxDepth {
      ValuesRange(moves(b, p), p, d + 1, moves);
      MaxOfIsMaximum(MinVals(moves(b, p), p, d + 1, moves));
      ValuesRange(moves(b, Opponent(p)), p, d + 1, moves);
      MinOfIsMinimum(MaxVals(moves(b, Opponent(p)), p, d + 1, moves));
    }
  }

  lemma ValuesRange(ms: seq<Board>, p: Cell, d: int, moves: MoveFn)
    requires AllBoards(ms) && 0 <= d <= MaxDepth && Closed(moves)
    ensures InRange(MinVals(ms, p, d, moves)) && InRange(MaxVals(ms, p, d, moves))
    decreases MaxDepth - d, 2
  {
    forall j | 0 <= j < |ms|
      ensures NEG <= MinVals(ms, p, d, moves)[j] <= POS && NEG <= MaxVals(ms, p, d, moves)[j] <= POS
    {
      MinValsAt(ms, p, d, moves, j);
      MaxValsAt(ms, p, d, moves, j);
      ValueRange(ms[j], p, d, moves);
    }
  }

  // ---------------------------------------------------------------------
  // The alpha-beta search

  /** `max_value(state, alpha, beta, depth)`: the fail-soft result meets
      the window contract against the depth-limited minimax value. */
  method MaxValue(b: Board, p: Cell, alpha: int, beta: int, d: int, moves: MoveFn) returns (v: int)
    requires IsBoard(b) && 0 <= d <= MaxDepth && Closed(moves) && NEG <= alpha < beta <= POS
    ensures NEG <= v <= POS
    ensures Window(v, MaxV(b, p, d, moves), alpha, beta)
    decreases MaxDepth - d, 2
  {
    if IsTerminal(b, p) || d == MaxDepth {
      return UtilityOf(b, p);
    }
    var successors := moves(b, p);
    v := MaxOverMoves(successors, p, alpha, beta, d + 1, moves);
  }

  /** `min_value(state, alpha, beta, depth)`, the mirror image over the
      opponent's moves. */
  method MinValue(b: Board, p: Cell, alpha: int, beta: int, d: int, moves: MoveFn) returns (v: int)
    requires IsBoard(b) && 0 <= d <= MaxDepth && Closed(moves) && NEG <= alpha < beta <= POS
    ensures NEG <= v <= POS
    ensures Window(v, MinV(b, p, d, moves), alpha, beta)
    decreases MaxDepth - d, 2
  {
    if IsTerminal(b, Opponent(p)) || d == MaxDepth {
      return UtilityOf(b, p);
    }
    var successors := moves(b, Opponent(p));
    v := MinOverMoves(successors, p, alpha, beta, d + 1, moves);
  }

  /** The loop of `max_value` over the successors `ms`, one level down:
      `v` starts at `-inf`, each successor is searched with the window
      `(max(alpha, v), beta)`, and the loop stops as soon as `v >= beta`. */
  method MaxOverMoves(ms: seq<Board>, p: Cell, alpha: int, beta: int, d: int, moves: MoveFn) returns (v: int)
    requires AllBoards(ms) && 0 < d <= MaxDepth && Closed(moves) && NEG <= alpha < beta <= POS
    ensures NEG <= v <= POS
    ensures Window(v, MaxOf(MinVals(ms, p, d, moves)), alpha, beta)
    decreases MaxDepth - d + 1, 1
  {
    v := NEG;
    var a := alpha;
    ghost var values := MinVals(ms, p, d, moves);
    for i := 0 to |ms|
      invariant a == Max(alpha, v) && NEG <= v < beta
      invariant MaxLoop(v, MaxOf(values[..i]), alpha)
    {
      var r := MinValueOf(ms, i, p, a, beta, d, moves);
      MaxStep(v, MaxOf(values[..i]), alpha, beta, r, values[i]);
      MaxOfStep(values, i);
      v := Max(v, r);
      if v >= beta {
        MaxOfPrefix(values, i + 1);
        return;
      }
      a := Max(a, v);
    }
    assert values[..|ms|] == values;
    MaxDone(v, MaxOf(values), alpha, beta);
  }

  /** The loop of `min_value` over the opponent's successors `ms`. */
  method MinOverMoves(ms: seq<Board>, p: Cell, alpha: int, beta: int, d: int, moves: MoveFn) returns (v: int)
    requires AllBoards(ms) && 0 < d <= MaxDepth && Closed(moves) && NEG <= alpha < beta <= POS
    ensures NEG <= v <= POS
    ensures Window(v, MinOf(MaxVals(ms, p, d, moves)), alpha, beta)
    decreases MaxDepth - d + 1, 1
  {
    v := POS;
    var bt := beta;
    ghost var values := MaxVals(ms, p, d, moves);
    for i := 0 to |ms|
      invariant bt == Min(beta, v) && alpha < v <= POS
      invariant MinLoop(v, MinOf(values[..i]), beta)
    {
      var r := MaxValueOf(ms, i, p, alpha, bt, d, moves);
      MinStep(v, MinOf(values[..i]), alpha, beta, r, values[i]);
      MinOfStep(values, i);
      v := Min(v, r);
      if v <= alpha {
        MinOfPrefix(values, i + 1);
        return;
      }
      bt := Min(bt, v);
    }
    assert values[..|ms|] == values;
    MinDone(v, MinOf(values), alpha, beta);
  }

  /** The search of the `i`-th successor in `max_value`'s loop. */
  method MinValueOf(ms: seq<Board>, i: int, p: Cell, alpha: int, beta: int, d: int, moves: MoveFn) returns (r: int)
    requires AllBoards(ms) && 0 <= i < |ms| && 0 < d <= MaxDepth && Closed(moves) && NEG <= alpha < beta <= POS
    ensures NEG <= r <= POS
    ensures Window(r, MinVals(ms, p, d, moves)[i], alpha, beta)
    decreases MaxDepth - d + 1, 0
  {
    r := MinValue(ms[i], p, alpha, beta, d, moves);
    MinValsAt(ms, p, d, moves, i);
  }

  /** The search of the `i`-th successor in `min_value`'s loop. */
  method MaxValueOf(ms: seq<Board>, i: int, p: Cell, alpha: int, beta: int, d: int, moves: MoveFn) returns (r: int)
    requires AllBoards(ms) && 0 <= i < |ms| && 0 < d <= MaxDepth && Closed(moves) && NEG <= alpha < beta <= POS
    ensures NEG <= r <= POS
    ensures Window(r, MaxVals(ms, p, d, moves)[i], alpha, beta)
    decreases MaxDepth - d + 1, 0
  {
    r := MaxValue(ms[i], p, alpha, beta, d, moves);
    MaxValsAt(ms, p, d, moves, i);
  }

  /** `min_value(s, float('-inf'), float('inf'), depth)`: with the full
      window the search returns the depth-limited minimax value. */
  method MinValueFull(b: Board, p: Cell, d: int, moves: MoveFn) returns (v: int)
    requires IsBoard(b) && 0 <= d <= MaxDepth && Closed(moves)
    ensures v == MinV(b, p, d, moves)
  {
    v := MinValue(b, p, NEG, POS, d, moves);
    ValueRange(b, p, d, moves);
    FullWindow(v, MinV(b, p, d, moves));
  }

  // ---------------------------------------------------------------------
  // alpha_beta_decision

  /** The key `alpha_beta_decision` ranks the player's successors by. */
  function Keys(b: Board, p: Cell): (keys: seq<int>)
    requires IsBoard(b)
    ensures |keys| == |Successors(b, p)|
  {
    SuccessorsAreBoards(b, p);
    NextBoardsClosed();
    MinVals(Successors(b, p), p, 0, NextBoards)
  }

  /** `alpha_beta_decision(board, player)`: the first successor of greatest
      `min_value` from depth 0, and nothing when the player has no move,
      where Python's `max` of an empty list raises. */
  method AlphaBetaDecision(b: Board, p: Cell) returns (best: Option<Board>)
    requires IsBoard(b)
    ensures best.None? <==> Successors(b, p) == []
    ensures best.Some? ==> exists k :: FirstMax(Keys(b, p), k) && best.value == Successors(b, p)[k]
  {
    var successors := SuccessorsOf(b, p);
    if successors == [] {
      return None;
    }
    SuccessorsAreBoards(b, p);
    NextBoardsClosed();
    var bi := BestIndex(successors, p, NextBoards);
    return Some(successors[bi]);
  }

  /** `max(ms, key=lambda s: min_value(s, float('-inf'), float('inf'), 0))`
      as an index: the first position of greatest key. */
  method BestIndex(ms: seq<Board>, p: Cell, moves: MoveFn) returns (bi: int)
    requires AllBoards(ms) && ms != [] && Closed(moves)
    ensures FirstMax(MinVals(ms, p, 0, moves), bi)
  {
    ghost var keys := MinVals(ms, p, 0, moves);
    bi := 0;
    var bestKey := MinValueFull(ms[0], p, 0, moves);
    MinValsAt(ms, p, 0, moves, 0);
    for i := 1 to |ms|
      invariant bi < i && FirstMax(keys[..i], bi) && bestKey == keys[bi]
    {
      var key := MinValueFull(ms[i], p, 0, moves);
      MinValsAt(ms, p, 0, moves, i);
      KeyStep(keys, i, bi);
      if key > bestKey {
        bi, bestKey := i, key;
      }
    }
    assert keys[..|ms|] == keys;
  }

  /** One more key keeps the first maximum of the keys seen so far. */
  lemma KeyStep(keys: seq<int>, i: int, bi: int)
    requires 1 <= i < |keys| && FirstMax(keys[..i], bi)
    ensures keys[i] > keys[bi] ==> FirstMax(keys[..i + 1], i)
    ensures keys[i] <= keys[bi] ==> FirstMax(keys[..i + 1], bi)
  {
  }

  // ---------------------------------------------------------------------
  // What the values mean

  /** The player `p` stands on column `j` of its goal row. */
  predicate OnGoalRow(t: Board, p: Cell, j: int)
    requires IsBoard(t)
  {
    0 <= j < |t| && t[GoalRow(p, |t|)][j] == p
  }

  /** The opponent's moves never touch the player's goal row while the
      player holds a cell there: they start on other rows' pawns and land
      one row towards the opponent's own goal. */
  lemma GoalRowKept(t: Board, p: Cell, r: int, c: int, dc: int, j: int)
    requires IsBoard(t) && IsPlayer(p) && Legal(t, Opponent(p), r, c, dc)
    requires OnGoalRow(t, p, j)
    ensures IsBoard(Moved(t, Opponent(p), r, c, dc)) && OnGoalRow(Moved(t, Opponent(p), r, c, dc), p, j)
  {
    OpponentInvolution(p);
    MovedIsBoard(t, Opponent(p), r, c, dc);
    MoveCells(t, Opponent(p), r, c, dc);
  }

  /** After any reply of the opponent to such a board the game is over in
      the player's favour. */
  lemma ReplyWins(t: Board, p: Cell, j: int, u: Board)
    requires IsBoard(t) && IsPlayer(p) && OnGoalRow(t, p, j)
    requires u in Successors(t, Opponent(p))
    ensures IsBoard(u) && IsTerminal(u, p)
  {
    var q := Opponent(p);
    SuccessorsMember(t, q, u);
    var r, c, dc :| Legal(t, q, r, c, dc) && u == Moved(t, q, r, c, dc);
    GoalRowKept(t, p, r, c, dc, j);
    TerminalByCount(u, p);
  }

  /** So every reply is worth a win to `max_value`. */
  lemma RepliesValue(t: Board, p: Cell, d: int, j: int)
    requires IsBoard(t) && IsPlayer(p) && 0 <= d <= MaxDepth && OnGoalRow(t, p, j)
    ensures Closed(NextBoards) && AllBoards(NextBoards(t, Opponent(p)))
    ensures AllWins(MaxVals(NextBoards(t, Opponent(p)), p, d, NextBoards))
  {
    NextBoardsClosed();
    var ms := NextBoards(t, Opponent(p));
    var vals := MaxVals(ms, p, d, NextBoards);
    forall k | 0 <= k < |vals| ensures vals[k] == 1 {
      MaxValsAt(ms, p, d, NextBoards, k);
      ReplyWins(t, p, j, ms[k]);
    }
  }

  predicate AllWins(xs: seq<int>)
  {
    forall k :: 0 <= k < |xs| ==> xs[k] == 1
  }

  /** The minimum of wins, or `inf` over nothing, is at least a win. */
  lemma {:induction false} AllWinsMin(xs: seq<int>)
    requires AllWins(xs)
    ensures MinOf(xs) >= 1
    decreases |xs|
  {
    if xs != [] {
      AllWinsMin(xs[..|xs| - 1]);
    }
  }

  /** A board where the player already stands on its goal row is worth at
      least a win to `min_value`: every reply leaves that pawn in place. */
  lemma ReachedGoalValue(t: Board, p: Cell, d: int, j: int)
    requires IsBoard(t) && IsPlayer(p) && 0 <= d <= MaxDepth && OnGoalRow(t, p, j)
    ensures Closed(NextBoards) && MinV(t, p, d, NextBoards) >= 1
  {
    NextBoardsClosed();
    TerminalByCount(t, p);
    if d < MaxDepth && !IsTerminal(t, Opponent(p)) {
      RepliesValue(t, p, d + 1, j);
      AllWinsMin(MaxVals(NextBoards(t, Opponent(p)), p, d + 1, NextBoards));
    }
  }

  /** When a move onto the goal row is available, the key of the decision
      is at least a win: the first maximum is never below that move's key. */
  lemma WinningMoveKey(b: Board, p: Cell, w: int, j: int, k: int)
    requires IsBoard(b) && IsPlayer(p) && 0 <= w < |Successors(b, p)|
    requires IsBoard(Successors(b, p)[w]) && OnGoalRow(Successors(b, p)[w], p, j)
    requires FirstMax(Keys(b, p), k)
    ensures Keys(b, p)[k] >= 1
  {
    var ms := Successors(b, p);
    SuccessorsAreBoards(b, p);
    NextBoardsClosed();
    MinValsAt(ms, p, 0, NextBoards, w);
    ReachedGoalValue(ms[w], p, 0, j);
  }
}
