/** `constraint_satisfaction_problems/csp_sa.py`: the same backtracking
    search with no propagation, always over the problem's own domains. */
module CspPlain {
  import opened Wrappers
  import opened CspModel
  import CspArc

  /** `order_domain_values`: a copy of the variable's domain in the problem. */
  function OrderDomainValues<V(==,!new), D(==,!new)>(csp: Csp<V, D>, v: V): seq<D>
    requires v in csp.domains
  {
    csp.domains[v][..]
  }

  /** What `recursive_backtracking(assignment)` returns for an assignment given as a value. */
  function PlainSearch<V(==,!new), D(==,!new)>(csp: Csp<V, D>, asg: map<V, D>): Option<map<V, D>>
    requires csp.Valid() && asg.Keys <= csp.VarSet()
    decreases csp.VarSet() - asg.Keys, 1, 0
  {
    if IsComplete(csp, asg) then Some(asg)
    else
      SelectWhenIncomplete(csp, asg);
      var v := SelectUnassigned(csp, asg).value;
      TryPlain(csp, asg, v, OrderDomainValues(csp, v))
  }

  /** The `for value in ...` loop over the values `vals` still to try for `v`. */
  function TryPlain<V(==,!new), D(==,!new)>(csp: Csp<V, D>, asg: map<V, D>, v: V, vals: seq<D>): Option<map<V, D>>
    requires csp.Valid() && asg.Keys <= csp.VarSet()
    requires v in csp.VarSet() - asg.Keys
    decreases csp.VarSet() - asg.Keys, 0, |vals|
  {
    if vals == [] then None
    else
      var x := vals[0];
      if !IsConsistent(csp, v, x, asg) then TryPlain(csp, asg, v, vals[1..])
      else
        var r := PlainSearch(csp, asg[v := x]);
        if r.Some? then r else TryPlain(csp, asg, v, vals[1..])
  }

  /** The plain search is the propagating search of `csp_sa_arc.py` with
      forward checking off, run over the problem's own domains. */
  lemma {:induction false} PlainIsArcSearch<V(!new), D(!new)>(csp: Csp<V, D>, asg: map<V, D>)
    requires csp.Valid() && asg.Keys <= csp.VarSet()
    ensures CspArc.Covers(csp, csp.domains)
    ensures PlainSearch(csp, asg) == CspArc.Search(csp, asg, csp.domains, false)
    decreases csp.VarSet() - asg.Keys, 1, 0
  {
    if !IsComplete(csp, asg) {
      SelectWhenIncomplete(csp, asg);
      var v := SelectUnassigned(csp, asg).value;
      TryPlainIsTryValues(csp, asg, v, OrderDomainValues(csp, v));
    }
  }

  lemma {:induction false} TryPlainIsTryValues<V(!new), D(!new)>(csp: Csp<V, D>, asg: map<V, D>, v: V, vals: seq<D>)
    requires csp.Valid() && asg.Keys <= csp.VarSet()
    requires v in csp.VarSet() - asg.Keys
    ensures CspArc.Covers(csp, csp.domains)
    ensures TryPlain(csp, asg, v, vals) == CspArc.TryValues(csp, asg, csp.domains, false, v, vals)
    decreases csp.VarSet() - asg.Keys, 0, |vals|
  {
    if vals != [] {
      var x := vals[0];
      TryPlainIsTryValues(csp, asg, v, vals[1..]);
      if IsConsistent(csp, v, x, asg) {
        PlainIsArcSearch(csp, asg[v := x]);
      }
    }
  }

  /** The search is sound and exhaustive: for a symmetric problem it finds
      an assignment exactly when the domains admit a solution, and every
      assignment it finds is one. */
  lemma PlainSearchCorrect<V(!new), D(!new)>(csp: Csp<V, D>)
    requires csp.Valid()
    ensures PlainSearch(csp, map[]).Some? ==>
      PlainSearch(csp, map[]).value.Keys == csp.VarSet() &&
      DrawnFrom(PlainSearch(csp, map[]).value, map[], csp.domains)
    ensures PlainSearch(csp, map[]).Some? && csp.Symmetric() ==>
      IsSolution(csp, PlainSearch(csp, map[]).value)
    ensures PlainSearch(csp, map[]).None? ==> forall s :: !CspArc.Admits(csp, csp.domains, s)
  {
    PlainIsArcSearch(csp, map[]);
    CspArc.SearchSound(csp, map[], csp.domains, false);
    forall s | CspArc.Admits(csp, csp.domains, s) ensures PlainSearch(csp, map[]).Some? {
      CspArc.SearchExhaustive(csp, map[], csp.domains, false, s);
    }
  }

  /** `recursive_backtracking`: on failure the assignment is left as it was
      on entry; on success the same dict is returned, completed. */
  method RecursiveBacktracking<V(==,!new), D(==,!new)>(csp: Csp<V, D>, asg: Assignment<V, D>)
    returns (r: Assignment?<V, D>)
    requires csp.Valid() && asg.values.Keys <= csp.VarSet()
    modifies asg
    ensures r == null ==> asg.values == old(asg.values)
    ensures r != null ==> r == asg && |asg.values| == |csp.variables|
    ensures PlainSearch(csp, old(asg.values)) == if r == null then None else Some(asg.values)
    decreases csp.VarSet() - asg.values.Keys
  {
    if IsComplete(csp, asg.values) {
      return asg;
    }
    SelectWhenIncomplete(csp, asg.values);
    var v := SelectUnassigned(csp, asg.values).value;
    var vals := OrderDomainValues(csp, v);
    ghost var a0 := asg.values;
    for i := 0 to |vals|
      invariant asg.values == a0
      invariant TryPlain(csp, a0, v, vals[i..]) == PlainSearch(csp, a0)
    {
      var x := vals[i];
      assert vals[i..][1..] == vals[i + 1..];
      if IsConsistent(csp, v, x, asg.values) {
        CspArc.UndoAssign(a0, v, x);
        asg.values := asg.values[v := x];
        var result := RecursiveBacktracking(csp, asg);
        if result != null {
          return result;
        }
        asg.values := asg.values - {v};
      }
    }
    return null;
  }

  /** `backtracking_search`: the search from the empty assignment. */
  method BacktrackingSearch<V(==,!new), D(==,!new)>(csp: Csp<V, D>) returns (r: Assignment?<V, D>)
    requires csp.Valid()
    ensures r != null ==> r.values.Keys == csp.VarSet() && DrawnFrom(r.values, map[], csp.domains)
    ensures r != null && csp.Symmetric() ==> IsSolution(csp, r.values)
    ensures r == null ==> forall s :: !CspArc.Admits(csp, csp.domains, s)
    ensures PlainSearch(csp, map[]) == if r == null then None else Some(r.values)
  {
    var assignment := new Assignment();
    r := RecursiveBacktracking(csp, assignment);
    PlainSearchCorrect(csp);
  }
}
