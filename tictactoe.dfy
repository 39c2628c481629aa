/** `adversarial_search/tictactoe_minmax.py`: tic-tac-toe on a list of nine
    cells, its win lines and move generation, and plain minimax with X as
    MAX. */
module TicTacToe {
  import opened Wrappers
  import opened Minimax

  /** `Symbols`: a mark of either player, or `UNPLACED` for an empty cell. */
  datatype Symbol = X | O | Unplaced

  type Board = seq<Symbol>

  /** A board of nine cells, read row by row. */
  predicate IsBoard(s: Board)
  {
    |s| == 9
  }

  // ---------------------------------------------------------------------
  // utility_of and is_terminal

  /** The eight lines in the order `utility_of` checks them: rows, columns,
      diagonals. */
  const Lines: seq<(int, int, int)> :=
    [(0, 1, 2), (3, 4, 5), (6, 7, 8), (0, 3, 6), (1, 4, 7), (2, 5, 8), (0, 4, 8), (2, 4, 6)]

  /** Line `k` holds three equal marks. */
  predicate FullLine(s: Board, k: int)
    requires IsBoard(s) && 0 <= k < |Lines|
  {
    var (a, b, c) := Lines[k];
    s[a] == s[b] == s[c] != Unplaced
  }

  /** Line `k` is full and no line before it is. */
  predicate FirstFull(s: Board, k: int)
    requires IsBoard(s)
  {
    0 <= k < |Lines| && FullLine(s, k) && forall j :: 0 <= j < k ==> !FullLine(s, j)
  }

  /** The loop over `wins` from line `k` on. */
  function UtilityFrom(s: Board, k: int): int
    requires IsBoard(s) && 0 <= k <= |Lines|
    decreases |Lines| - k
  {
    if k == |Lines| then 0
    else if FullLine(s, k) then (if s[Lines[k].0] == X then 1 else -1)
    else UtilityFrom(s, k + 1)
  }

  /** `utility_of`. */
  function UtilityOf(s: Board): int
    requires IsBoard(s)
  {
    UtilityFrom(s, 0)
  }

  /** The utility is 1 or -1 as the first full line holds X or O, and 0
      exactly when no line is full. */
  lemma UtilitySpec(s: Board)
    requires IsBoard(s)
    ensures UtilityOf(s) in {-1, 0, 1}
    ensures UtilityOf(s) == 0 <==> forall k :: 0 <= k < |Lines| ==> !FullLine(s, k)
    ensures forall k :: FirstFull(s, k) ==> UtilityOf(s) == (if s[Lines[k].0] == X then 1 else -1)
  {
    UtilityFromSpec(s, 0);
  }

  lemma {:induction false} UtilityFromSpec(s: Board, k: int)
    requires IsBoard(s) && 0 <= k <= |Lines|
    ensures UtilityFrom(s, k) in {-1, 0, 1}
    ensures UtilityFrom(s, k) == 0 <==> forall j :: k <= j < |Lines| ==> !FullLine(s, j)
    ensures forall j :: k <= j < |Lines| && FullLine(s, j) && (forall i :: k <= i < j ==> !FullLine(s, i)) ==>
      UtilityFrom(s, k) == (if s[Lines[j].0] == X then 1 else -1)
    decreases |Lines| - k
  {
    if k < |Lines| {
      UtilityFromSpec(s, k + 1);
    }
  }

  /** `is_terminal`: somebody has a line, or no cell is empty. */
  predicate IsTerminal(s: Board)
    requires IsBoard(s)
  {
    UtilityOf(s) != 0 || forall i :: 0 <= i < |s| ==> s[i] != Unplaced
  }

  // ---------------------------------------------------------------------
  // Counting marks

  /** `state.count(sym)`. */
  function Count(s: Board, sym: Symbol): nat
    decreases |s|
  {
    if s == [] then 0 else (if s[|s| - 1] == sym then 1 else 0) + Count(s[..|s| - 1], sym)
  }

  /** Writing `v` into cell `i` moves one cell from the count of the old
      mark to that of `v`. */
  lemma {:induction false} CountUpdate(s: Board, i: int, v: Symbol, sym: Symbol)
    requires 0 <= i < |s|
    ensures Count(s[i := v], sym) == Count(s, sym) - (if s[i] == sym then 1 else 0) + (if v == sym then 1 else 0)
    decreases |s|
  {
    var t := s[i := v];
    assert t[..|t| - 1] == if i == |s| - 1 then s[..|s| - 1] else s[..|s| - 1][i := v];
    if i < |s| - 1 {
      CountUpdate(s[..|s| - 1], i, v, sym);
    }
  }

  /** No empty cell exactly when the count of `UNPLACED` is zero. */
  lemma {:induction false} CountZero(s: Board, sym: Symbol)
    ensures Count(s, sym) == 0 <==> forall i :: 0 <= i < |s| ==> s[i] != sym
    decreases |s|
  {
    if s != [] {
      CountZero(s[..|s| - 1], sym);
      assert forall i :: 0 <= i < |s| - 1 ==> s[..|s| - 1][i] == s[i];
    }
  }

  // ---------------------------------------------------------------------
  // successors_of

  /** `current_player`: X when both have placed as many marks, else O. */
  function Mover(s: Board): Symbol
  {
    if Count(s, X) == Count(s, O) then X else O
  }

  /** The moves the loop has collected after cells `0 .. n - 1`. */
  function MovesUpTo(s: Board, n: int): seq<(int, Board)>
    requires 0 <= n <= |s|
    decreases n
  {
    if n == 0 then []
    else MovesUpTo(s, n - 1) + (if s[n - 1] == Unplaced then [(n - 1, s[n - 1 := Mover(s)])] else [])
  }

  /** What `successors_of(state)` returns. */
  function Successors(s: Board): seq<(int, Board)>
    requires IsBoard(s)
  {
    MovesUpTo(s, |s|)
  }

  /** `successors_of`: one move per empty cell, setting a copy of the
      board at that cell to the mover's mark. */
  method SuccessorsOf(state: Board) returns (moves: seq<(int, Board)>)
    requires IsBoard(state)
    ensures moves == Successors(state)
  {
    var currentPlayer := if Count(state, X) == Count(state, O) then X else O;
    moves := [];
    for i := 0 to 9
      invariant moves == MovesUpTo(state, i)
    {
      if state[i] == Unplaced {
        var newState := state[i := currentPlayer];
        moves := moves + [(i, newState)];
      }
    }
  }

  /** Each move is to an empty cell, sets only that cell and sets it to the
      mover; the cells are in ascending order; every empty cell has its move. */
  lemma {:induction false} MovesUpToSpec(s: Board, n: int)
    requires 0 <= n <= |s|
    ensures forall k :: 0 <= k < |MovesUpTo(s, n)| ==>
      && 0 <= MovesUpTo(s, n)[k].0 < n && s[MovesUpTo(s, n)[k].0] == Unplaced
      && MovesUpTo(s, n)[k].1 == s[MovesUpTo(s, n)[k].0 := Mover(s)]
    ensures forall j, k :: 0 <= j < k < |MovesUpTo(s, n)| ==> MovesUpTo(s, n)[j].0 < MovesUpTo(s, n)[k].0
    ensures forall i :: 0 <= i < n && s[i] == Unplaced ==> exists k :: 0 <= k < |MovesUpTo(s, n)| && MovesUpTo(s, n)[k].0 == i
    ensures |MovesUpTo(s, n)| == Count(s[..n], Unplaced)
    decreases n
  {
    if n > 0 {
      MovesUpToSpec(s, n - 1);
      assert s[..n][..n - 1] == s[..n - 1];
      var prev := MovesUpTo(s, n - 1);
      var moves := MovesUpTo(s, n);
      assert forall k :: 0 <= k < |prev| ==> moves[k] == prev[k];
      if s[n - 1] == Unplaced {
        assert moves[|prev|] == (n - 1, s[n - 1 := Mover(s)]);
      }
    }
  }

  /** The successor list, in the terms of `MovesUpToSpec`, over the whole board. */
  lemma SuccessorsSpec(s: Board)
    requires IsBoard(s)
    ensures forall k :: 0 <= k < |Successors(s)| ==>
      && 0 <= Successors(s)[k].0 < 9 && s[Successors(s)[k].0] == Unplaced
      && Successors(s)[k].1 == s[Successors(s)[k].0 := Mover(s)]
    ensures forall j, k :: 0 <= j < k < |Successors(s)| ==> Successors(s)[j].0 < Successors(s)[k].0
    ensures forall i :: 0 <= i < 9 && s[i] == Unplaced ==> exists k :: 0 <= k < |Successors(s)| && Successors(s)[k].0 == i
    ensures |Successors(s)| == Count(s, Unplaced)
  {
    MovesUpToSpec(s, |s|);
    assert s[..|s|] == s;
    var ms := Successors(s);
    assert ms == MovesUpTo(s, |s|);
    forall i | 0 <= i < 9 && s[i] == Unplaced ensures exists k :: 0 <= k < |ms| && ms[k].0 == i {
      var k :| 0 <= k < |MovesUpTo(s, |s|)| && MovesUpTo(s, |s|)[k].0 == i;
      assert ms[k].0 == i;
    }
  }

  /** `X - O` is 0 or 1 on every board reached from the empty one. */
  predicate Balanced(s: Board)
  {
    Count(s, X) == Count(s, O) || Count(s, X) == Count(s, O) + 1
  }

  /** A move keeps the board balanced and uses up one empty cell. */
  lemma MoveShape(s: Board, k: int)
    requires IsBoard(s) && 0 <= k < |Successors(s)|
    ensures IsBoard(Successors(s)[k].1)
    ensures Count(Successors(s)[k].1, Unplaced) == Count(s, Unplaced) - 1
    ensures Balanced(s) ==> Balanced(Successors(s)[k].1)
  {
    SuccessorsSpec(s);
    var (i, t) := Successors(s)[k];
    CountUpdate(s, i, Mover(s), Unplaced);
    CountUpdate(s, i, Mover(s), X);
    CountUpdate(s, i, Mover(s), O);
  }

  /** A board with an empty cell has a move. */
  lemma EmptyCellMove(s: Board)
    requires IsBoard(s)
    ensures Successors(s) == [] <==> forall i :: 0 <= i < 9 ==> s[i] != Unplaced
  {
    SuccessorsSpec(s);
    CountZero(s, Unplaced);
  }

  // ---------------------------------------------------------------------
  // minmax_decision

  /** Every move of the list leads to a board with fewer than `c` empty cells. */
  predicate Below(ms: seq<(int, Board)>, c: nat)
  {
    forall k :: 0 <= k < |ms| ==> IsBoard(ms[k].1) && Count(ms[k].1, Unplaced) < c
  }

  /** The moves from `s` all fill a cell. */
  lemma SuccessorsBelow(s: Board)
    requires IsBoard(s)
    ensures Below(Successors(s), Count(s, Unplaced))
  {
    forall k | 0 <= k < |Successors(s)|
      ensures IsBoard(Successors(s)[k].1) && Count(Successors(s)[k].1, Unplaced) < Count(s, Unplaced)
    {
      MoveShape(s, k);
    }
  }

  /** `max_value`: X to move. */
  function MaxV(s: Board): int
    requires IsBoard(s)
    decreases Count(s, Unplaced), 1
  {
    if IsTerminal(s) then UtilityOf(s)
    else
      SuccessorsBelow(s);
      MaxOf(MinVals(Successors(s), Count(s, Unplaced)))
  }

  /** `min_value`: O to move. */
  function MinV(s: Board): int
    requires IsBoard(s)
    decreases Count(s, Unplaced), 1
  {
    if IsTerminal(s) then UtilityOf(s)
    else
      SuccessorsBelow(s);
      MinOf(MaxVals(Successors(s), Count(s, Unplaced)))
  }

  /** `min_value` of each board the moves lead to, in order. */
  function MinVals(ms: seq<(int, Board)>, c: nat): (r: seq<int>)
    requires Below(ms, c)
    ensures |r| == |ms|
    decreases c, 0, |ms|
  {
    if ms == [] then [] else MinVals(ms[..|ms| - 1], c) + [MinV(ms[|ms| - 1].1)]
  }

  /** `max_value` of each board the moves lead to, in order. */
  function MaxVals(ms: seq<(int, Board)>, c: nat): (r: seq<int>)
    requires Below(ms, c)
    ensures |r| == |ms|
    decreases c, 0, |ms|
  {
    if ms == [] then [] else MaxVals(ms[..|ms| - 1], c) + [MaxV(ms[|ms| - 1].1)]
  }

  lemma {:induction false} MinValsAt(ms: seq<(int, Board)>, c: nat, j: int)
    requires Below(ms, c) && 0 <= j < |ms|
    ensures MinVals(ms, c)[j] == MinV(ms[j].1)
    decreases |ms|
  {
    if j < |ms| - 1 {
      var init := ms[..|ms| - 1];
      MinValsAt(init, c, j);
    }
  }

  lemma {:induction false} MaxValsAt(ms: seq<(int, Board)>, c: nat, j: int)
    requires Below(ms, c) && 0 <= j < |ms|
    ensures MaxVals(ms, c)[j] == MaxV(ms[j].1)
    decreases |ms|
  {
    if j < |ms| - 1 {
      var init := ms[..|ms| - 1];
      MaxValsAt(init, c, j);
    }
  }

  /** Every minimax value is a utility: -1, 0 or 1. */
  lemma {:induction false} ValueRange(s: Board)
    requires IsBoard(s)
    ensures -1 <= MaxV(s) <= 1 && -1 <= MinV(s) <= 1
    decreases Count(s, Unplaced), 1
  {
    UtilitySpec(s);
    if !IsTerminal(s) {
      EmptyCellMove(s);
      SuccessorsBelow(s);
      var ms := Successors(s);
      var c := Count(s, Unplaced);
      ValuesRange(ms, c);
      MaxOfIsMaximum(MinVals(ms, c));
      MinOfIsMinimum(MaxVals(ms, c));
    }
  }

  lemma ValuesRange(ms: seq<(int, Board)>, c: nat)
    requires Below(ms, c)
    ensures forall j :: 0 <= j < |ms| ==> -1 <= MinVals(ms, c)[j] <= 1 && -1 <= MaxVals(ms, c)[j] <= 1
    decreases c, 0
  {
    forall j | 0 <= j < |ms| ensures -1 <= MinVals(ms, c)[j] <= 1 && -1 <= MaxVals(ms, c)[j] <= 1 {
      MinValsAt(ms, c, j);
      MaxValsAt(ms, c, j);
      ValueRange(ms[j].1);
    }
  }

  /** `minmax_decision`: the cell of the first successor whose `min_value`
      is greatest; nothing when no cell is empty, where `max` of an empty
      list raises. */
  function MinmaxDecision(s: Board): Option<int>
    requires IsBoard(s)
  {
    var moves := Successors(s);
    if moves == [] then None
    else
      SuccessorsBelow(s);
      Some(moves[ArgMaxFirst(MinVals(moves, Count(s, Unplaced)))].0)
  }

  /** The decision exists exactly when there is an empty cell. It is the
      cell of the first move of greatest `min_value`: the key of every move
      before it is smaller. Away from terminal boards that key is the
      minimax value of the board. */
  lemma DecisionSpec(s: Board)
    requires IsBoard(s)
    ensures Below(Successors(s), Count(s, Unplaced))
    ensures MinmaxDecision(s).None? <==> forall i :: 0 <= i < 9 ==> s[i] != Unplaced
    ensures MinmaxDecision(s).Some? ==>
      var ms := Successors(s);
      var keys := MinVals(ms, Count(s, Unplaced));
      exists k :: 0 <= k < |ms| && ms[k].0 == MinmaxDecision(s).value && FirstMax(keys, k)
        && (!IsTerminal(s) ==> keys[k] == MaxV(s))
  {
    EmptyCellMove(s);
    SuccessorsBelow(s);
    if Successors(s) != [] {
      DecisionKey(s);
    }
  }

  /** The decided move is the first greatest key, and that key is the value. */
  lemma DecisionKey(s: Board)
    requires IsBoard(s) && Successors(s) != []
    ensures Below(Successors(s), Count(s, Unplaced))
    ensures MinmaxDecision(s).Some?
    ensures var ms := Successors(s);
      var keys := MinVals(ms, Count(s, Unplaced));
      var k := ArgMaxFirst(keys);
      ms[k].0 == MinmaxDecision(s).value && FirstMax(keys, k)
        && (!IsTerminal(s) ==> keys[k] == MaxV(s))
  {
    SuccessorsBelow(s);
    var moves := Successors(s);
    var c := Count(s, Unplaced);
    var keys := MinVals(moves, c);
    var k := ArgMaxFirst(keys);
    ValuesRange(moves, c);
    FirstMaxIsMaxOf(keys, k);
  }
}
