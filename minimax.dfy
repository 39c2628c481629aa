/** The integer side of minimax and alpha-beta search shared by the game
    models: the sentinels that stand for `float('-inf')` and `float('inf')`,
    the maximum and minimum of a list of values, and the window facts that
    make a fail-soft alpha-beta loop agree with plain minimax. */
module Minimax {

  /** `float('-inf')` and `float('inf')`: any integers outside the
      utilities -1, 0 and 1 order the same way. */
  const NEG: int := -2
  const POS: int := 2

  function Max(a: int, b: int): int
  {
    if a >= b then a else b
  }

  function Min(a: int, b: int): int
  {
    if a <= b then a else b
  }

  /** `max(v, ...)` folded over `xs` from `v = float('-inf')`. */
  function MaxOf(xs: seq<int>): int
    decreases |xs|
  {
    if xs == [] then NEG else Max(MaxOf(xs[..|xs| - 1]), xs[|xs| - 1])
  }

  /** `min(v, ...)` folded over `xs` from `v = float('inf')`. */
  function MinOf(xs: seq<int>): int
    decreases |xs|
  {
    if xs == [] then POS else Min(MinOf(xs[..|xs| - 1]), xs[|xs| - 1])
  }

  /** Every value lies in the closed range of the sentinels. */
  predicate InRange(xs: seq<int>)
  {
    forall i :: 0 <= i < |xs| ==> NEG <= xs[i] <= POS
  }

  /** `MaxOf` bounds every element from above, is one of them when there
      is one, and stays in range. */
  lemma {:induction false} MaxOfIsMaximum(xs: seq<int>)
    requires InRange(xs)
    ensures NEG <= MaxOf(xs) <= POS
    ensures forall i :: 0 <= i < |xs| ==> xs[i] <= MaxOf(xs)
    ensures xs != [] ==> exists i :: 0 <= i < |xs| && xs[i] == MaxOf(xs)
    decreases |xs|
  {
    if xs != [] {
      var init := xs[..|xs| - 1];
      MaxOfIsMaximum(init);
      assert forall i :: 0 <= i < |init| ==> init[i] == xs[i];
      if init != [] && MaxOf(init) >= xs[|xs| - 1] {
        var i :| 0 <= i < |init| && init[i] == MaxOf(init);
        assert xs[i] == MaxOf(xs);
      }
    }
  }

  /** `MinOf` bounds every element from below, is one of them when there
      is one, and stays in range. */
  lemma {:induction false} MinOfIsMinimum(xs: seq<int>)
    requires InRange(xs)
    ensures NEG <= MinOf(xs) <= POS
    ensures forall i :: 0 <= i < |xs| ==> MinOf(xs) <= xs[i]
    ensures xs != [] ==> exists i :: 0 <= i < |xs| && xs[i] == MinOf(xs)
    decreases |xs|
  {
    if xs != [] {
      var init := xs[..|xs| - 1];
      MinOfIsMinimum(init);
      assert forall i :: 0 <= i < |init| ==> init[i] == xs[i];
      if init != [] && MinOf(init) <= xs[|xs| - 1] {
        var i :| 0 <= i < |init| && init[i] == MinOf(init);
        assert xs[i] == MinOf(xs);
      }
    }
  }

  /** Adding elements never lowers the maximum. */
  lemma {:induction false} MaxOfPrefix(xs: seq<int>, k: int)
    requires 0 <= k <= |xs|
    ensures MaxOf(xs[..k]) <= MaxOf(xs)
    decreases |xs| - k
  {
    if k < |xs| {
      MaxOfPrefix(xs, k + 1);
      assert xs[..k + 1][..k] == xs[..k];
    } else {
      assert xs[..k] == xs;
    }
  }

  /** Adding elements never raises the minimum. */
  lemma {:induction false} MinOfPrefix(xs: seq<int>, k: int)
    requires 0 <= k <= |xs|
    ensures MinOf(xs) <= MinOf(xs[..k])
    decreases |xs| - k
  {
    if k < |xs| {
      MinOfPrefix(xs, k + 1);
      assert xs[..k + 1][..k] == xs[..k];
    } else {
      assert xs[..k] == xs;
    }
  }

  lemma MaxOfStep(xs: seq<int>, k: int)
    requires 0 <= k < |xs|
    ensures MaxOf(xs[..k + 1]) == Max(MaxOf(xs[..k]), xs[k])
  {
    assert xs[..k + 1][..k] == xs[..k];
  }

  lemma MinOfStep(xs: seq<int>, k: int)
    requires 0 <= k < |xs|
    ensures MinOf(xs[..k + 1]) == Min(MinOf(xs[..k]), xs[k])
  {
    assert xs[..k + 1][..k] == xs[..k];
  }

  /** The fail-soft alpha-beta contract: a result at or below `alpha` is an
      upper bound of the true value `m`, one at or above `beta` a lower
      bound, and one strictly inside the window is `m` itself. */
  predicate Window(r: int, m: int, alpha: int, beta: int)
  {
    && (r <= alpha ==> m <= r)
    && (r >= beta ==> r <= m)
    && (alpha < r < beta ==> r == m)
  }

  /** With the full window a fail-soft result is the true value. */
  lemma FullWindow(r: int, m: int)
    requires NEG <= m <= POS && NEG <= r <= POS
    requires Window(r, m, NEG, POS)
    ensures r == m
  {
  }

  /** What a `max_value` loop knows after some successors: `v` is the
      running maximum of the results, `mx` that of the true values. */
  predicate MaxLoop(v: int, mx: int, alpha: int)
  {
    mx <= v && (v > alpha ==> v <= mx)
  }

  /** What a `min_value` loop knows after some successors. */
  predicate MinLoop(v: int, mn: int, beta: int)
  {
    v <= mn && (v < beta ==> mn <= v)
  }

  /** One pass of the `max_value` loop: the child was searched with the
      window `(max(alpha, v), beta)`. */
  lemma MaxStep(v: int, mx: int, alpha: int, beta: int, r: int, m: int)
    requires alpha < beta && v < beta && MaxLoop(v, mx, alpha)
    requires Window(r, m, Max(alpha, v), beta)
    ensures Max(v, r) >= beta ==> Max(v, r) <= Max(mx, m)
    ensures Max(v, r) < beta ==> MaxLoop(Max(v, r), Max(mx, m), alpha)
  {
  }

  /** One pass of the `min_value` loop: the child was searched with the
      window `(alpha, min(beta, v))`. */
  lemma MinStep(v: int, mn: int, alpha: int, beta: int, r: int, m: int)
    requires alpha < beta && v > alpha && MinLoop(v, mn, beta)
    requires Window(r, m, alpha, Min(beta, v))
    ensures Min(v, r) <= alpha ==> Min(mn, m) <= Min(v, r)
    ensures Min(v, r) > alpha ==> MinLoop(Min(v, r), Min(mn, m), beta)
  {
  }

  /** A `max_value` loop that ran to the end meets the window contract. */
  lemma MaxDone(v: int, mx: int, alpha: int, beta: int)
    requires v < beta && MaxLoop(v, mx, alpha)
    ensures Window(v, mx, alpha, beta)
  {
  }

  /** A `min_value` loop that ran to the end meets the window contract. */
  lemma MinDone(v: int, mn: int, alpha: int, beta: int)
    requires v > alpha && MinLoop(v, mn, beta)
    ensures Window(v, mn, alpha, beta)
  {
  }

  /** The index `max(range(len(keys)), key=...)` picks: the first maximum. */
  predicate FirstMax(keys: seq<int>, k: int)
  {
    && 0 <= k < |keys|
    && (forall j :: 0 <= j < |keys| ==> keys[j] <= keys[k])
    && (forall j :: 0 <= j < k ==> keys[j] < keys[k])
  }

  /** The index `min(range(len(keys)), key=...)` picks: the first minimum. */
  predicate FirstMin(keys: seq<int>, k: int)
  {
    && 0 <= k < |keys|
    && (forall j :: 0 <= j < |keys| ==> keys[k] <= keys[j])
    && (forall j :: 0 <= j < k ==> keys[k] < keys[j])
  }

  /** The first maximum attains `MaxOf`. */
  lemma FirstMaxIsMaxOf(keys: seq<int>, k: int)
    requires InRange(keys) && FirstMax(keys, k)
    ensures keys[k] == MaxOf(keys)
  {
    MaxOfIsMaximum(keys);
  }

  /** The first minimum attains `MinOf`. */
  lemma FirstMinIsMinOf(keys: seq<int>, k: int)
    requires InRange(keys) && FirstMin(keys, k)
    ensures keys[k] == MinOf(keys)
  {
    MinOfIsMinimum(keys);
  }

  /** Over values that are each -1 or +1, the maximum is +1 exactly when
      some value is +1, and -1 otherwise. */
  lemma MaxOfSigns(xs: seq<int>)
    requires xs != [] && forall i :: 0 <= i < |xs| ==> xs[i] == 1 || xs[i] == -1
    ensures MaxOf(xs) == 1 || MaxOf(xs) == -1
    ensures MaxOf(xs) == 1 <==> exists i :: 0 <= i < |xs| && xs[i] == 1
  {
    MaxOfIsMaximum(xs);
  }

  /** Over values that are each -1 or +1, the minimum is -1 exactly when
      some value is -1, and +1 otherwise. */
  lemma MinOfSigns(xs: seq<int>)
    requires xs != [] && forall i :: 0 <= i < |xs| ==> xs[i] == 1 || xs[i] == -1
    ensures MinOf(xs) == 1 || MinOf(xs) == -1
    ensures MinOf(xs) == -1 <==> exists i :: 0 <= i < |xs| && xs[i] == -1
  {
    MinOfIsMinimum(xs);
  }

  /** The index `max(range(len(keys)), key=...)` returns, computed. */
  function ArgMaxFirst(keys: seq<int>): (k: int)
    requires keys != []
    ensures FirstMax(keys, k)
    decreases |keys|
  {
    if |keys| == 1 then 0
    else
      var k := ArgMaxFirst(keys[..|keys| - 1]);
      if keys[|keys| - 1] > keys[k] then |keys| - 1 else k
  }

  /** The index `min(range(len(keys)), key=...)` returns, computed. */
  function ArgMinFirst(keys: seq<int>): (k: int)
    requires keys != []
    ensures FirstMin(keys, k)
    decreases |keys|
  {
    if |keys| == 1 then 0
    else
      var k := ArgMinFirst(keys[..|keys| - 1]);
      if keys[|keys| - 1] < keys[k] then |keys| - 1 else k
  }
}

