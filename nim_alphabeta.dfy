/** `adversarial_search/nim_alphabeta.py`: the computer plays MAX and picks
    the successor whose `min_value` is greatest. */
module NimAlphaBeta {
  import opened Wrappers
  import opened Minimax
  import opened NimRules
  import opened NimSearch

  /** `utility_of`: -1 at a terminal state, 0 elsewhere. */
  function UtilityOf(s: Piles): int
  {
    if IsTerminal(s) then -1 else 0
  }

  /** The scores `max_value` and `min_value` return at a terminal state:
      both are `utility_of(state)`, whoever is to move. */
  const AsWritten := Scores(-1, -1)

  lemma AsWrittenIsUtility(s: Piles)
    requires IsTerminal(s)
    ensures UtilityOf(s) == AsWritten.atMax && UtilityOf(s) == AsWritten.atMin
  {
  }

  /** `alpha_beta_decision` as written: every search value is -1, so the
      `max` keeps the first successor; nothing for a terminal state, where
      `max` of an empty list raises. */
  method AlphaBetaDecision(s: Piles) returns (best: Option<Piles>)
    ensures best.None? <==> IsTerminal(s)
    ensures best.Some? ==> Successors(s) != [] && best.value == Successors(s)[0]
  {
    best := MaxDecision(s, AsWritten);
    if best.Some? {
      var k :| 0 <= k < |Successors(s)| && FirstMax(MinVals(s, AsWritten, |Successors(s)|), k) && best.value == Successors(s)[k];
      ConstantMaxDecision(s, -1, k);
    }
  }

  /** From `[6]` the as-written choice, the first successor `[5, 1]`,
      leaves the opponent a forced win, although `[6]` is a win for the
      computer. */
  lemma AsWrittenLosesFromSix()
    ensures MoverWins([6]) && Successors([6]) != []
    ensures forall k :: 0 <= k < |Successors([6])| && FirstMax(MinVals([6], AsWritten, |Successors([6])|), k) ==>
      MoverWins(Successors([6])[k])
  {
    FromSix();
    forall k | 0 <= k < |Successors([6])| && FirstMax(MinVals([6], AsWritten, |Successors([6])|), k)
      ensures MoverWins(Successors([6])[k])
    {
      ConstantMaxDecision([6], -1, k);
    }
  }

  /** The decision with the terminal score depending on who is stuck: -1
      when MAX has no move, +1 when MIN has none. The computer then moves
      to a position the opponent cannot win whenever it can. */
  method CorrectedDecision(s: Piles) returns (best: Option<Piles>)
    ensures best.None? <==> IsTerminal(s)
    ensures best.Some? ==> best.value in Successors(s)
    ensures best.Some? ==> (MoverWins(s) <==> !MoverWins(best.value))
  {
    best := MaxDecision(s, StuckLoses);
    if best.Some? {
      var k :| 0 <= k < |Successors(s)| && FirstMax(MinVals(s, StuckLoses, |Successors(s)|), k) && best.value == Successors(s)[k];
      StuckLosesMaxDecision(s, k);
    }
  }

  /** With the corrected scores the choice from `[6]` wins. */
  lemma CorrectedWinsFromSix()
    ensures forall k :: 0 <= k < |Successors([6])| && FirstMax(MinVals([6], StuckLoses, |Successors([6])|), k) ==>
      !MoverWins(Successors([6])[k])
  {
    FromSix();
    forall k | 0 <= k < |Successors([6])| && FirstMax(MinVals([6], StuckLoses, |Successors([6])|), k)
      ensures !MoverWins(Successors([6])[k])
    {
      StuckLosesMaxDecision([6], k);
    }
  }
}
