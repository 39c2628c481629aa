/** The alpha-beta search that `adversarial_search/nim_alphabeta.py` and
    `adversarial_search/nim_min_alpha.py` both nest inside their decision
    functions: fail-soft `max_value` and `min_value` over the Nim successors,
    and the plain minimax values they compute. The two programs differ only
    in the number `utility_of` returns at a terminal state, so that number is
    a parameter here, one for a terminal state reached on MAX's turn and one
    for MIN's. */
module NimSearch {
  import opened Wrappers
  import opened Minimax
  import opened NimRules

  /** What a terminal state is worth when MAX or MIN is to move there. */
  datatype Scores = Scores(atMax: int, atMin: int)

  predicate ScoresOk(sc: Scores)
  {
    -1 <= sc.atMax <= 1 && -1 <= sc.atMin <= 1
  }

  // ---------------------------------------------------------------------
  // Minimax values

  /** The minimax value of `s` with MAX to move. */
  function MaxV(s: Piles, sc: Scores): int
    decreases Excess(s), 1
  {
    if IsTerminal(s) then sc.atMax else MaxOf(MinVals(s, sc, |Successors(s)|))
  }

  /** The minimax value of `s` with MIN to move. */
  function MinV(s: Piles, sc: Scores): int
    decreases Excess(s), 1
  {
    if IsTerminal(s) then sc.atMin else MinOf(MaxVals(s, sc, |Successors(s)|))
  }

  /** The MIN-to-move values of the first `k` successors of `s`. */
  function MinVals(s: Piles, sc: Scores, k: int): seq<int>
    requires 0 <= k <= |Successors(s)|
    decreases Excess(s), 0, k
  {
    if k == 0 then []
    else
      var t := Successors(s)[k - 1];
      ExcessDrops(s, t);
      MinVals(s, sc, k - 1) + [MinV(t, sc)]
  }

  /** The MAX-to-move values of the first `k` successors of `s`. */
  function MaxVals(s: Piles, sc: Scores, k: int): seq<int>
    requires 0 <= k <= |Successors(s)|
    decreases Excess(s), 0, k
  {
    if k == 0 then []
    else
      var t := Successors(s)[k - 1];
      ExcessDrops(s, t);
      MaxVals(s, sc, k - 1) + [MaxV(t, sc)]
  }

  /** The list of successor values holds one value per successor, in order. */
  lemma {:induction false} MinValsAt(s: Piles, sc: Scores, k: int, j: int)
    requires 0 <= j < k <= |Successors(s)|
    ensures |MinVals(s, sc, k)| == k && MinVals(s, sc, k)[j] == MinV(Successors(s)[j], sc)
    decreases k
  {
    if j < k - 1 {
      MinValsAt(s, sc, k - 1, j);
    }
    MinValsLength(s, sc, k - 1);
  }

  lemma {:induction false} MaxValsAt(s: Piles, sc: Scores, k: int, j: int)
    requires 0 <= j < k <= |Successors(s)|
    ensures |MaxVals(s, sc, k)| == k && MaxVals(s, sc, k)[j] == MaxV(Successors(s)[j], sc)
    decreases k
  {
    if j < k - 1 {
      MaxValsAt(s, sc, k - 1, j);
    }
    MaxValsLength(s, sc, k - 1);
  }

  lemma {:induction false} MinValsLength(s: Piles, sc: Scores, k: int)
    requires 0 <= k <= |Successors(s)|
    ensures |MinVals(s, sc, k)| == k
    decreases k
  {
    if k > 0 {
      MinValsLength(s, sc, k - 1);
    }
  }

  lemma {:induction false} MaxValsLength(s: Piles, sc: Scores, k: int)
    requires 0 <= k <= |Successors(s)|
    ensures |MaxVals(s, sc, k)| == k
    decreases k
  {
    if k > 0 {
      MaxValsLength(s, sc, k - 1);
    }
  }

  /** The values for the first `k` successors are a prefix of those for all. */
  lemma MinValsPrefix(s: Piles, sc: Scores, k: int)
    requires 0 <= k <= |Successors(s)|
    ensures MaxOf(MinVals(s, sc, k)) <= MaxOf(MinVals(s, sc, |Successors(s)|))
  {
    var all := MinVals(s, sc, |Successors(s)|);
    MinValsLength(s, sc, |Successors(s)|);
    MinValsLength(s, sc, k);
    forall j | 0 <= j < k ensures all[..k][j] == MinVals(s, sc, k)[j] {
      MinValsAt(s, sc, k, j);
      MinValsAt(s, sc, |Successors(s)|, j);
    }
    assert all[..k] == MinVals(s, sc, k);
    MaxOfPrefix(all, k);
  }

  lemma MaxValsPrefix(s: Piles, sc: Scores, k: int)
    requires 0 <= k <= |Successors(s)|
    ensures MinOf(MaxVals(s, sc, |Successors(s)|)) <= MinOf(MaxVals(s, sc, k))
  {
    var all := MaxVals(s, sc, |Successors(s)|);
    MaxValsLength(s, sc, |Successors(s)|);
    MaxValsLength(s, sc, k);
    forall j | 0 <= j < k ensures all[..k][j] == MaxVals(s, sc, k)[j] {
      MaxValsAt(s, sc, k, j);
      MaxValsAt(s, sc, |Successors(s)|, j);
    }
    assert all[..k] == MaxVals(s, sc, k);
    MinOfPrefix(all, k);
  }

  /** One more successor: the running maximum takes in its value. */
  lemma MinValsStep(s: Piles, sc: Scores, k: int)
    requires 0 <= k < |Successors(s)|
    ensures MaxOf(MinVals(s, sc, k + 1)) == Max(MaxOf(MinVals(s, sc, k)), MinV(Successors(s)[k], sc))
  {
    var xs := MinVals(s, sc, k + 1);
    MinValsLength(s, sc, k + 1);
    assert xs[..|xs| - 1] == MinVals(s, sc, k);
  }

  lemma MaxValsStep(s: Piles, sc: Scores, k: int)
    requires 0 <= k < |Successors(s)|
    ensures MinOf(MaxVals(s, sc, k + 1)) == Min(MinOf(MaxVals(s, sc, k)), MaxV(Successors(s)[k], sc))
  {
    var xs := MaxVals(s, sc, k + 1);
    MaxValsLength(s, sc, k + 1);
    assert xs[..|xs| - 1] == MaxVals(s, sc, k);
  }

  /** With terminal scores between -1 and 1 every value is between -1 and 1. */
  lemma {:induction false} ValueRange(s: Piles, sc: Scores)
    requires ScoresOk(sc)
    ensures -1 <= MaxV(s, sc) <= 1 && -1 <= MinV(s, sc) <= 1
    decreases Excess(s)
  {
    if !IsTerminal(s) {
      var n := |Successors(s)|;
      NoSuccessorsIffTerminal(s);
      var mins := MinVals(s, sc, n);
      var maxs := MaxVals(s, sc, n);
      MinValsLength(s, sc, n);
      MaxValsLength(s, sc, n);
      forall j | 0 <= j < n ensures -1 <= mins[j] <= 1 && -1 <= maxs[j] <= 1 {
        MinValsAt(s, sc, n, j);
        MaxValsAt(s, sc, n, j);
        ExcessDrops(s, Successors(s)[j]);
        ValueRange(Successors(s)[j], sc);
      }
      MaxOfIsMaximum(mins);
      MinOfIsMinimum(maxs);
    }
  }

  // ---------------------------------------------------------------------
  // The alpha-beta search

  /** `max_value(state, alpha, beta)`: the fail-soft result meets the window
      contract against the minimax value. */
  method MaxValue(s: Piles, alpha: int, beta: int, sc: Scores) returns (v: int)
    requires ScoresOk(sc) && NEG <= alpha < beta <= POS
    ensures NEG <= v <= POS
    ensures Window(v, MaxV(s, sc), alpha, beta)
    decreases Excess(s)
  {
    if IsTerminal(s) {
      return sc.atMax;
    }
    var successors := SuccessorsOf(s);
    v := NEG;
    var a := alpha;
    for i := 0 to |successors|
      invariant a == Max(alpha, v) && NEG <= v < beta
      invariant MaxLoop(v, MaxOf(MinVals(s, sc, i)), alpha)
    {
      var t := successors[i];
      ExcessDrops(s, t);
      var r := MinValue(t, a, beta, sc);
      MaxIteration(s, sc, i, alpha, beta, v, r);
      v := Max(v, r);
      if v >= beta {
        return;
      }
      a := Max(a, v);
    }
    MaxDone(v, MaxOf(MinVals(s, sc, |successors|)), alpha, beta);
    NoSuccessorsIffTerminal(s);
  }

  /** `min_value(state, alpha, beta)`, the mirror image. */
  method MinValue(s: Piles, alpha: int, beta: int, sc: Scores) returns (v: int)
    requires ScoresOk(sc) && NEG <= alpha < beta <= POS
    ensures NEG <= v <= POS
    ensures Window(v, MinV(s, sc), alpha, beta)
    decreases Excess(s)
  {
    if IsTerminal(s) {
      return sc.atMin;
    }
    var successors := SuccessorsOf(s);
    v := POS;
    var b := beta;
    for i := 0 to |successors|
      invariant b == Min(beta, v) && alpha < v <= POS
      invariant MinLoop(v, MinOf(MaxVals(s, sc, i)), beta)
    {
      var t := successors[i];
      ExcessDrops(s, t);
      var r := MaxValue(t, alpha, b, sc);
      MinIteration(s, sc, i, alpha, beta, v, r);
      v := Min(v, r);
      if v <= alpha {
        return;
      }
      b := Min(b, v);
    }
    MinDone(v, MinOf(MaxVals(s, sc, |successors|)), alpha, beta);
    NoSuccessorsIffTerminal(s);
  }

  /** One pass of the `max_value` loop, searched with the window
      `(max(alpha, v), beta)`: a cutoff result meets the window contract,
      and otherwise the loop facts carry over to the next successor. */
  lemma MaxIteration(s: Piles, sc: Scores, i: int, alpha: int, beta: int, v: int, r: int)
    requires 0 <= i < |Successors(s)| && alpha < beta && v < beta
    requires MaxLoop(v, MaxOf(MinVals(s, sc, i)), alpha)
    requires Window(r, MinV(Successors(s)[i], sc), Max(alpha, v), beta)
    ensures Max(v, r) >= beta ==> Window(Max(v, r), MaxV(s, sc), alpha, beta)
    ensures Max(v, r) < beta ==> MaxLoop(Max(v, r), MaxOf(MinVals(s, sc, i + 1)), alpha)
  {
    NoSuccessorsIffTerminal(s);
    MaxStep(v, MaxOf(MinVals(s, sc, i)), alpha, beta, r, MinV(Successors(s)[i], sc));
    MinValsStep(s, sc, i);
    MinValsPrefix(s, sc, i + 1);
  }

  /** One pass of the `min_value` loop, searched with `(alpha, min(beta, v))`. */
  lemma MinIteration(s: Piles, sc: Scores, i: int, alpha: int, beta: int, v: int, r: int)
    requires 0 <= i < |Successors(s)| && alpha < beta && v > alpha
    requires MinLoop(v, MinOf(MaxVals(s, sc, i)), beta)
    requires Window(r, MaxV(Successors(s)[i], sc), alpha, Min(beta, v))
    ensures Min(v, r) <= alpha ==> Window(Min(v, r), MinV(s, sc), alpha, beta)
    ensures Min(v, r) > alpha ==> MinLoop(Min(v, r), MinOf(MaxVals(s, sc, i + 1)), beta)
  {
    NoSuccessorsIffTerminal(s);
    MinStep(v, MinOf(MaxVals(s, sc, i)), alpha, beta, r, MaxV(Successors(s)[i], sc));
    MaxValsStep(s, sc, i);
    MaxValsPrefix(s, sc, i + 1);
  }

  /** Searched with the full window, both functions return the minimax value. */
  method MinValueFull(s: Piles, sc: Scores) returns (v: int)
    requires ScoresOk(sc)
    ensures v == MinV(s, sc)
  {
    v := MinValue(s, NEG, POS, sc);
    ValueRange(s, sc);
    FullWindow(v, MinV(s, sc));
  }

  method MaxValueFull(s: Piles, sc: Scores) returns (v: int)
    requires ScoresOk(sc)
    ensures v == MaxV(s, sc)
  {
    v := MaxValue(s, NEG, POS, sc);
    ValueRange(s, sc);
    FullWindow(v, MaxV(s, sc));
  }

  // ---------------------------------------------------------------------
  // The decisions

  /** `max(successors_of(state), key=lambda s: min_value(s, -inf, inf))`:
      the first successor of greatest MIN-to-move value, and nothing for a
      terminal state, where Python's `max` of an empty list raises. */
  method MaxDecision(s: Piles, sc: Scores) returns (best: Option<Piles>)
    requires ScoresOk(sc)
    ensures best.None? <==> IsTerminal(s)
    ensures best.Some? ==> exists k :: 0 <= k < |Successors(s)| && FirstMax(MinVals(s, sc, |Successors(s)|), k) && best.value == Successors(s)[k]
  {
    var successors := SuccessorsOf(s);
    NoSuccessorsIffTerminal(s);
    if successors == [] {
      return None;
    }
    var bi := 0;
    var bestKey := MinValueFull(successors[0], sc);
    MinValsAt(s, sc, 1, 0);
    for i := 1 to |successors|
      invariant bi < i && FirstMax(MinVals(s, sc, i), bi) && bestKey == MinVals(s, sc, i)[bi]
    {
      var key := MinValueFull(successors[i], sc);
      KeyStep(s, sc, i, bi);
      if key > bestKey {
        bi, bestKey := i, key;
      }
    }
    return Some(successors[bi]);
  }

  /** One more key keeps the first maximum up to date. */
  lemma KeyStep(s: Piles, sc: Scores, i: int, bi: int)
    requires 1 <= i < |Successors(s)| && FirstMax(MinVals(s, sc, i), bi)
    ensures var keys := MinVals(s, sc, i + 1); var key := MinV(Successors(s)[i], sc);
      && |keys| == i + 1 && keys[..i] == MinVals(s, sc, i) && keys[i] == key
      && (key > keys[bi] ==> FirstMax(keys, i))
      && (key <= keys[bi] ==> FirstMax(keys, bi))
  {
    MinValsLength(s, sc, i);
    assert MinVals(s, sc, i + 1)[..i] == MinVals(s, sc, i);
  }

  /** `min(successors_of(state), key=lambda s: max_value(s, -inf, inf))`:
      the first successor of least MAX-to-move value. */
  method MinDecision(s: Piles, sc: Scores) returns (best: Option<Piles>)
    requires ScoresOk(sc)
    ensures best.None? <==> IsTerminal(s)
    ensures best.Some? ==> exists k :: 0 <= k < |Successors(s)| && FirstMin(MaxVals(s, sc, |Successors(s)|), k) && best.value == Successors(s)[k]
  {
    var successors := SuccessorsOf(s);
    NoSuccessorsIffTerminal(s);
    if successors == [] {
      return None;
    }
    var bi := 0;
    var bestKey := MaxValueFull(successors[0], sc);
    MaxValsAt(s, sc, 1, 0);
    for i := 1 to |successors|
      invariant bi < i && FirstMin(MaxVals(s, sc, i), bi) && bestKey == MaxVals(s, sc, i)[bi]
    {
      var key := MaxValueFull(successors[i], sc);
      MinKeyStep(s, sc, i, bi);
      if key < bestKey {
        bi, bestKey := i, key;
      }
    }
    return Some(successors[bi]);
  }

  lemma MinKeyStep(s: Piles, sc: Scores, i: int, bi: int)
    requires 1 <= i < |Successors(s)| && FirstMin(MaxVals(s, sc, i), bi)
    ensures var keys := MaxVals(s, sc, i + 1); var key := MaxV(Successors(s)[i], sc);
      && |keys| == i + 1 && keys[..i] == MaxVals(s, sc, i) && keys[i] == key
      && (key < keys[bi] ==> FirstMin(keys, i))
      && (key >= keys[bi] ==> FirstMin(keys, bi))
  {
    MaxValsLength(s, sc, i);
    assert MaxVals(s, sc, i + 1)[..i] == MaxVals(s, sc, i);
  }

  // ---------------------------------------------------------------------
  // What the values mean

  /** A player left without a move loses: -1 for MAX, +1 for MIN. */
  const StuckLoses := Scores(-1, 1)

  /** With `StuckLoses` the values say who can force a win: +1 with MAX
      to move exactly when the mover wins, -1 with MIN to move exactly
      when the mover wins. */
  lemma {:induction false} StuckLosesValues(s: Piles)
    ensures MaxV(s, StuckLoses) == (if MoverWins(s) then 1 else -1)
    ensures MinV(s, StuckLoses) == (if MoverWins(s) then -1 else 1)
    decreases Excess(s), 1
  {
    NoSuccessorsIffTerminal(s);
    if !IsTerminal(s) {
      var n := |Successors(s)|;
      var mins := MinVals(s, StuckLoses, n);
      var maxs := MaxVals(s, StuckLoses, n);
      MinValsLength(s, StuckLoses, n);
      MaxValsLength(s, StuckLoses, n);
      forall j | 0 <= j < n
        ensures mins[j] == (if WinningMove(s, j) then 1 else -1)
        ensures maxs[j] == (if WinningMove(s, j) then -1 else 1)
      {
        StuckLosesChild(s, j);
      }
      MaxOfSigns(mins);
      MinOfSigns(maxs);
      if MoverWins(s) {
        var j := WinningMoveOf(s);
        assert mins[j] == 1 && maxs[j] == -1;
      } else {
        forall j | 0 <= j < n ensures mins[j] == -1 && maxs[j] == 1 {
          assert !WinningMove(s, j);
        }
      }
    }
  }

  /** The value of move `j`, from the values of the position it leads to. */
  lemma StuckLosesChild(s: Piles, j: int)
    requires 0 <= j < |Successors(s)|
    ensures |MinVals(s, StuckLoses, |Successors(s)|)| == |Successors(s)|
    ensures |MaxVals(s, StuckLoses, |Successors(s)|)| == |Successors(s)|
    ensures MinVals(s, StuckLoses, |Successors(s)|)[j] == (if WinningMove(s, j) then 1 else -1)
    ensures MaxVals(s, StuckLoses, |Successors(s)|)[j] == (if WinningMove(s, j) then -1 else 1)
    decreases Excess(s), 0
  {
    MinValsAt(s, StuckLoses, |Successors(s)|, j);
    MaxValsAt(s, StuckLoses, |Successors(s)|, j);
    ExcessDrops(s, Successors(s)[j]);
    StuckLosesValues(Successors(s)[j]);
  }

  /** When every terminal state scores the same `u`, so does every state. */
  lemma {:induction false} ConstantValues(s: Piles, u: int)
    requires -1 <= u <= 1
    ensures MaxV(s, Scores(u, u)) == u && MinV(s, Scores(u, u)) == u
    decreases Excess(s)
  {
    NoSuccessorsIffTerminal(s);
    if !IsTerminal(s) {
      var n := |Successors(s)|;
      var sc := Scores(u, u);
      var mins := MinVals(s, sc, n);
      var maxs := MaxVals(s, sc, n);
      MinValsLength(s, sc, n);
      MaxValsLength(s, sc, n);
      forall j | 0 <= j < n ensures mins[j] == u && maxs[j] == u {
        MinValsAt(s, sc, n, j);
        MaxValsAt(s, sc, n, j);
        ExcessDrops(s, Successors(s)[j]);
        ConstantValues(Successors(s)[j], u);
      }
      MaxOfIsMaximum(mins);
      MinOfIsMinimum(maxs);
    }
  }

  /** Among equal keys the first maximum and the first minimum are the first key. */
  lemma FirstOfConstant(keys: seq<int>, u: int, k: int)
    requires forall j :: 0 <= j < |keys| ==> keys[j] == u
    requires FirstMax(keys, k) || FirstMin(keys, k)
    ensures k == 0
  {
    var first := keys[0];
    assert first == u == keys[k];
  }

  /** With constant scores `max_value` keys are all equal, so the MAX decision is the first successor. */
  lemma ConstantMaxDecision(s: Piles, u: int, k: int)
    requires -1 <= u <= 1 && 0 <= k < |Successors(s)|
    requires FirstMax(MinVals(s, Scores(u, u), |Successors(s)|), k)
    ensures k == 0
  {
    var n := |Successors(s)|;
    var keys := MinVals(s, Scores(u, u), n);
    MinValsLength(s, Scores(u, u), n);
    forall j | 0 <= j < |keys| ensures keys[j] == u {
      MinValsAt(s, Scores(u, u), n, j);
      ConstantValues(Successors(s)[j], u);
    }
    FirstOfConstant(keys, u, k);
  }

  lemma ConstantMinDecision(s: Piles, u: int, k: int)
    requires -1 <= u <= 1 && 0 <= k < |Successors(s)|
    requires FirstMin(MaxVals(s, Scores(u, u), |Successors(s)|), k)
    ensures k == 0
  {
    var n := |Successors(s)|;
    var keys := MaxVals(s, Scores(u, u), n);
    MaxValsLength(s, Scores(u, u), n);
    forall j | 0 <= j < |keys| ensures keys[j] == u {
      MaxValsAt(s, Scores(u, u), n, j);
      ConstantValues(Successors(s)[j], u);
    }
    FirstOfConstant(keys, u, k);
  }

  /** With `StuckLoses` the MAX decision picks a winning move whenever there is one. */
  lemma StuckLosesMaxDecision(s: Piles, k: int)
    requires 0 <= k < |Successors(s)|
    requires FirstMax(MinVals(s, StuckLoses, |Successors(s)|), k)
    ensures MoverWins(s) <==> WinningMove(s, k)
  {
    var n := |Successors(s)|;
    var keys := MinVals(s, StuckLoses, n);
    MinValsLength(s, StuckLoses, n);
    forall j | 0 <= j < n ensures keys[j] == (if WinningMove(s, j) then 1 else -1) {
      StuckLosesChild(s, j);
    }
    if MoverWins(s) {
      var j := WinningMoveOf(s);
      assert keys[j] <= keys[k];
    }
  }

  /** With `StuckLoses` the MIN decision picks a winning move whenever there is one. */
  lemma StuckLosesMinDecision(s: Piles, k: int)
    requires 0 <= k < |Successors(s)|
    requires FirstMin(MaxVals(s, StuckLoses, |Successors(s)|), k)
    ensures MoverWins(s) <==> WinningMove(s, k)
  {
    var n := |Successors(s)|;
    var keys := MaxVals(s, StuckLoses, n);
    MaxValsLength(s, StuckLoses, n);
    forall j | 0 <= j < n ensures keys[j] == (if WinningMove(s, j) then -1 else 1) {
      StuckLosesChild(s, j);
    }
    if MoverWins(s) {
      var j := WinningMoveOf(s);
      assert keys[k] <= keys[j];
    }
  }
}

