/** `constraint_satisfaction_problems/csp_sa_arc.py`: backtracking search with
    optional forward checking and an optional AC-3 pass before the search. */
module CspArc {
  import opened Wrappers
  import opened SeqUtil
  import opened CspModel

  /** The domains dict: `forward_check`, `revise` and `ac3` write into it in
      place, and every tried value gets its own deep copy. */
  class DomainStore<V(==), D> {
    var of: map<V, seq<D>>

    /** `copy.deepcopy(domains)`: a fresh store with the same contents. */
    constructor (d: map<V, seq<D>>)
      ensures of == d
    {
      of := d;
    }
  }

  /** Every variable of the problem has an entry in `dom`. */
  predicate Covers<V(==,!new), D(==,!new)>(csp: Csp<V, D>, dom: map<V, seq<D>>)
  {
    forall v :: v in csp.variables ==> v in dom
  }

  /** `order_domain_values`: a copy of the variable's current domain. */
  function OrderDomainValues<V(==), D>(dom: map<V, seq<D>>, v: V): seq<D>
    requires v in dom
  {
    dom[v][..]
  }

  // ---------------------------------------------------------------------
  // Forward checking, as a specification on values

  /** The list comprehension of `forward_check`: the values of `n`'s domain
      compatible with `(v, x)` under `v`'s constraint, in order. */
  function Compatible<V(==,!new), D(==,!new)>(csp: Csp<V, D>, v: V, x: D, n: V, vals: seq<D>): seq<D>
    requires v in csp.constraints
  {
    Filter(vals, (y: D) => csp.constraints[v](v, x, n, y))
  }

  lemma CompatibleMember<V(!new), D(!new)>(csp: Csp<V, D>, v: V, x: D, n: V, vals: seq<D>, y: D)
    requires v in csp.constraints
    ensures y in Compatible(csp, v, x, n, vals) <==> y in vals && csp.constraints[v](v, x, n, y)
  {
    FilterMember(vals, (z: D) => csp.constraints[v](v, x, n, z), y);
  }

  lemma CompatibleIdempotent<V(!new), D(!new)>(csp: Csp<V, D>, v: V, x: D, n: V, vals: seq<D>)
    requires v in csp.constraints
    ensures Compatible(csp, v, x, n, Compatible(csp, v, x, n, vals)) == Compatible(csp, v, x, n, vals)
  {
    FilterIdempotent(vals, (y: D) => csp.constraints[v](v, x, n, y));
  }

  /** The domains after a successful `forward_check`: each unassigned
      neighbour of `v` filtered, everything else as it was. */
  function Pruned<V(==,!new), D(==,!new)>(csp: Csp<V, D>, v: V, x: D, asg: map<V, D>, dom: map<V, seq<D>>): map<V, seq<D>>
    requires v in csp.constraints && v in csp.neighbours
  {
    map n | n in dom :: if n in csp.neighbours[v] && n !in asg then Compatible(csp, v, x, n, dom[n]) else dom[n]
  }

  /** `forward_check` fails: some unassigned neighbour has no compatible value left. */
  predicate WipedOut<V(==,!new), D(==,!new)>(csp: Csp<V, D>, v: V, x: D, asg: map<V, D>, dom: map<V, seq<D>>)
    requires v in csp.constraints && v in csp.neighbours
  {
    exists n :: n in csp.neighbours[v] && n !in asg && n in dom && Compatible(csp, v, x, n, dom[n]) == []
  }

  // ---------------------------------------------------------------------
  // The search, as a specification on values

  /** What `recursive_backtracking(assignment, domains, use_forward_checking)`
      returns for an assignment and domains given as values. */
  function Search<V(==,!new), D(==,!new)>(csp: Csp<V, D>, asg: map<V, D>, dom: map<V, seq<D>>, fc: bool): Option<map<V, D>>
    requires csp.Valid() && asg.Keys <= csp.VarSet() && Covers(csp, dom)
    decreases csp.VarSet() - asg.Keys, 1, 0
  {
    if IsComplete(csp, asg) then Some(asg)
    else
      SelectWhenIncomplete(csp, asg);
      var v := SelectUnassigned(csp, asg).value;
      TryValues(csp, asg, dom, fc, v, OrderDomainValues(dom, v))
  }

  /** The `for value in ...` loop of `recursive_backtracking` over the values
      `vals` still to try for the selected variable `v`. */
  function TryValues<V(==,!new), D(==,!new)>(csp: Csp<V, D>, asg: map<V, D>, dom: map<V, seq<D>>, fc: bool, v: V, vals: seq<D>): Option<map<V, D>>
    requires csp.Valid() && asg.Keys <= csp.VarSet() && Covers(csp, dom)
    requires v in csp.VarSet() - asg.Keys
    decreases csp.VarSet() - asg.Keys, 0, |vals|
  {
    if vals == [] then None
    else
      var x := vals[0];
      if !IsConsistent(csp, v, x, asg) then TryValues(csp, asg, dom, fc, v, vals[1..])
      else
        var asg' := asg[v := x];
        if fc && WipedOut(csp, v, x, asg', dom) then TryValues(csp, asg, dom, fc, v, vals[1..])
        else
          var dom' := if fc then Pruned(csp, v, x, asg', dom) else dom;
          var r := Search(csp, asg', dom', fc);
          if r.Some? then r else TryValues(csp, asg, dom, fc, v, vals[1..])
  }

  /** Pruned domains are filtered versions of the originals. */
  lemma PrunedShrinks<V(!new), D(!new)>(csp: Csp<V, D>, v: V, x: D, asg: map<V, D>, dom: map<V, seq<D>>, n: V, y: D)
    requires v in csp.constraints && v in csp.neighbours
    requires n in dom && y in Pruned(csp, v, x, asg, dom)[n]
    ensures y in dom[n]
  {
    if n in csp.neighbours[v] && n !in asg {
      FilterSubseq(dom[n], (z: D) => csp.constraints[v](v, x, n, z));
      SubseqMembers(Compatible(csp, v, x, n, dom[n]), dom[n]);
    }
  }

  /** `r` is an acceptable answer for a search started from `asg` over the
      domains `dom`: it assigns every variable, agrees with `asg`, takes
      every new value from `dom`, and for a symmetric problem is pairwise
      consistent whenever `asg` was. */
  ghost predicate SoundFrom<V(!new), D(!new)>(csp: Csp<V, D>, asg: map<V, D>, dom: map<V, seq<D>>, r: map<V, D>)
    requires csp.Valid()
  {
    && r.Keys == csp.VarSet() && Extends(r, asg) && DrawnFrom(r, asg, dom)
    && (csp.Symmetric() && PairwiseConsistent(csp, asg) ==> PairwiseConsistent(csp, r))
  }

  /** Every answer the search gives is sound. */
  lemma {:induction false} SearchSound<V(!new), D(!new)>(csp: Csp<V, D>, asg: map<V, D>, dom: map<V, seq<D>>, fc: bool)
    requires csp.Valid() && asg.Keys <= csp.VarSet() && Covers(csp, dom)
    ensures Search(csp, asg, dom, fc).Some? ==> SoundFrom(csp, asg, dom, Search(csp, asg, dom, fc).value)
    decreases csp.VarSet() - asg.Keys, 1, 0
  {
    if IsComplete(csp, asg) {
      CompleteIff(csp, asg);
    } else {
      SelectWhenIncomplete(csp, asg);
      var v := SelectUnassigned(csp, asg).value;
      TrySound(csp, asg, dom, fc, v, OrderDomainValues(dom, v));
    }
  }

  lemma {:induction false} TrySound<V(!new), D(!new)>(csp: Csp<V, D>, asg: map<V, D>, dom: map<V, seq<D>>, fc: bool, v: V, vals: seq<D>)
    requires csp.Valid() && asg.Keys <= csp.VarSet() && Covers(csp, dom)
    requires v in csp.VarSet() - asg.Keys
    requires forall i :: 0 <= i < |vals| ==> vals[i] in dom[v]
    ensures TryValues(csp, asg, dom, fc, v, vals).Some? ==>
      SoundFrom(csp, asg, dom, TryValues(csp, asg, dom, fc, v, vals).value)
    decreases csp.VarSet() - asg.Keys, 0, |vals|
  {
    if vals == [] {
      return;
    }
    var x := vals[0];
    var asg' := asg[v := x];
    if !IsConsistent(csp, v, x, asg) || (fc && WipedOut(csp, v, x, asg', dom)) {
      TrySound(csp, asg, dom, fc, v, vals[1..]);
    } else {
      var dom' := if fc then Pruned(csp, v, x, asg', dom) else dom;
      var r := Search(csp, asg', dom', fc);
      if r.Some? {
        SearchSound(csp, asg', dom', fc);
        StepSound(csp, asg, dom, fc, v, x, r.value);
      } else {
        TrySound(csp, asg, dom, fc, v, vals[1..]);
      }
    }
  }

  /** A sound answer after assigning a consistent value from the domain of
      `v` (and pruning, with forward checking) is sound for the caller. */
  lemma StepSound<V(!new), D(!new)>(csp: Csp<V, D>, asg: map<V, D>, dom: map<V, seq<D>>, fc: bool, v: V, x: D, s: map<V, D>)
    requires csp.Valid() && asg.Keys <= csp.VarSet() && Covers(csp, dom)
    requires v in csp.VarSet() - asg.Keys && x in dom[v] && IsConsistent(csp, v, x, asg)
    requires SoundFrom(csp, asg[v := x], if fc then Pruned(csp, v, x, asg[v := x], dom) else dom, s)
    ensures SoundFrom(csp, asg, dom, s)
  {
    StepDrawn(csp, asg, dom, fc, v, x, s);
    if csp.Symmetric() && PairwiseConsistent(csp, asg) {
      ConsistentExtension(csp, asg, v, x);
    }
  }

  lemma StepDrawn<V(!new), D(!new)>(csp: Csp<V, D>, asg: map<V, D>, dom: map<V, seq<D>>, fc: bool, v: V, x: D, s: map<V, D>)
    requires csp.Valid() && Covers(csp, dom) && v in csp.variables && x in dom[v]
    requires v in s && s[v] == x
    requires DrawnFrom(s, asg[v := x], if fc then Pruned(csp, v, x, asg[v := x], dom) else dom)
    ensures DrawnFrom(s, asg, dom)
  {
    var asg' := asg[v := x];
    forall u | u in s && u !in asg ensures u in dom && s[u] in dom[u] {
      if u != v && fc {
        PrunedShrinks(csp, v, x, asg', dom, u, s[u]);
      }
    }
  }

  /** Forward checking keeps every value that a solution extending the new
      assignment uses, so it cannot wipe out a domain such a solution draws from. */
  lemma PruneKeepsSolution<V(!new), D(!new)>(csp: Csp<V, D>, s: map<V, D>, asg': map<V, D>, v: V, dom: map<V, seq<D>>)
    requires csp.Valid() && IsSolution(csp, s) && Covers(csp, dom)
    requires v in asg' && Extends(s, asg') && v in csp.VarSet() && DrawnFrom(s, asg', dom)
    ensures !WipedOut(csp, v, s[v], asg', dom)
    ensures DrawnFrom(s, asg', Pruned(csp, v, s[v], asg', dom))
  {
    var x := s[v];
    forall n | n in csp.neighbours[v] && n !in asg' && n in dom
      ensures s[n] in Compatible(csp, v, x, n, dom[n])
    {
      assert n in s && s[n] in dom[n];
      assert csp.constraints[v](v, s[v], n, s[n]);
      CompatibleMember(csp, v, x, n, dom[n], s[n]);
    }
  }

  /** The search is exhaustive: if some solution extends the assignment and
      draws its new values from the current domains, the search finds one. */
  lemma {:induction false} SearchExhaustive<V(!new), D(!new)>(csp: Csp<V, D>, asg: map<V, D>, dom: map<V, seq<D>>, fc: bool, s: map<V, D>)
    requires csp.Valid() && asg.Keys <= csp.VarSet() && Covers(csp, dom)
    requires IsSolution(csp, s) && Extends(s, asg) && DrawnFrom(s, asg, dom)
    ensures Search(csp, asg, dom, fc).Some?
    decreases csp.VarSet() - asg.Keys, 1, 0
  {
    if !IsComplete(csp, asg) {
      SelectWhenIncomplete(csp, asg);
      var v := SelectUnassigned(csp, asg).value;
      var vals := OrderDomainValues(dom, v);
      var k :| 0 <= k < |vals| && vals[k] == s[v];
      TryExhaustive(csp, asg, dom, fc, v, vals, s);
    }
  }

  lemma {:induction false} TryExhaustive<V(!new), D(!new)>(csp: Csp<V, D>, asg: map<V, D>, dom: map<V, seq<D>>, fc: bool, v: V, vals: seq<D>, s: map<V, D>)
    requires csp.Valid() && asg.Keys <= csp.VarSet() && Covers(csp, dom)
    requires v in csp.VarSet() - asg.Keys
    requires IsSolution(csp, s) && Extends(s, asg) && DrawnFrom(s, asg, dom)
    requires s[v] in vals
    ensures TryValues(csp, asg, dom, fc, v, vals).Some?
    decreases csp.VarSet() - asg.Keys, 0, |vals|
  {
    var x := vals[0];
    var asg' := asg[v := x];
    if x != s[v] {
      assert s[v] in vals[1..];
      TryExhaustive(csp, asg, dom, fc, v, vals[1..], s);
    } else {
      SolutionIsConsistent(csp, s, asg, v);
      assert Extends(s, asg');
      assert DrawnFrom(s, asg', dom);
      if fc {
        PruneKeepsSolution(csp, s, asg', v, dom);
      }
      var dom' := if fc then Pruned(csp, v, x, asg', dom) else dom;
      SearchExhaustive(csp, asg', dom', fc, s);
    }
  }

  /** For a symmetric problem and a pairwise-consistent start, the search
      succeeds exactly when some solution extends the start and takes its
      new values from the current domains. */
  lemma SearchSucceedsIff<V(!new), D(!new)>(csp: Csp<V, D>, asg: map<V, D>, dom: map<V, seq<D>>, fc: bool)
    requires csp.Valid() && asg.Keys <= csp.VarSet() && Covers(csp, dom)
    requires csp.Symmetric() && PairwiseConsistent(csp, asg)
    ensures Search(csp, asg, dom, fc).Some? <==>
      exists s :: IsSolution(csp, s) && Extends(s, asg) && DrawnFrom(s, asg, dom)
  {
    SearchSound(csp, asg, dom, fc);
    if exists s :: IsSolution(csp, s) && Extends(s, asg) && DrawnFrom(s, asg, dom) {
      var s :| IsSolution(csp, s) && Extends(s, asg) && DrawnFrom(s, asg, dom);
      SearchExhaustive(csp, asg, dom, fc, s);
    }
  }

  /** With or without forward checking the search gives the same verdict. */
  lemma ForwardCheckingSameVerdict<V(!new), D(!new)>(csp: Csp<V, D>, asg: map<V, D>, dom: map<V, seq<D>>)
    requires csp.Valid() && asg.Keys <= csp.VarSet() && Covers(csp, dom)
    requires csp.Symmetric() && PairwiseConsistent(csp, asg)
    ensures Search(csp, asg, dom, true).Some? == Search(csp, asg, dom, false).Some?
  {
    SearchSucceedsIff(csp, asg, dom, true);
    SearchSucceedsIff(csp, asg, dom, false);
  }

  // ---------------------------------------------------------------------
  // Forward checking, in place

  /** `forward_check`: prunes the domains of `v`'s unassigned neighbours in
      `dom` and reports whether none of them became empty. On failure the
      store is left partly pruned; the caller then discards it. */
  method ForwardCheck<V(==,!new), D(==,!new)>(csp: Csp<V, D>, v: V, x: D, asg: Assignment<V, D>, dom: DomainStore<V, D>)
    returns (ok: bool)
    requires csp.Valid() && v in csp.variables && Covers(csp, dom.of)
    modifies dom
    ensures ok == !WipedOut(csp, v, x, asg.values, old(dom.of))
    ensures ok ==> dom.of == Pruned(csp, v, x, asg.values, old(dom.of))
  {
    ghost var d0 := dom.of;
    var ns := csp.neighbours[v];
    ghost var done: set<V> := {};
    PrunedByStart(csp, v, x, asg.values, d0);
    for i := 0 to |ns|
      invariant dom.of == PrunedBy(csp, v, x, asg.values, d0, done)
      invariant !WipedOutAmong(csp, v, x, asg.values, d0, done)
      invariant forall j :: 0 <= j < i ==> ns[j] in done
      invariant forall m :: m in done ==> m in ns
    {
      var n := ns[i];
      if n in asg.values {
        PrunedBySkip(csp, v, x, asg.values, d0, done, n);
      } else {
        PrunedByAdd(csp, v, x, asg.values, d0, done, n);
        var revised := Compatible(csp, v, x, n, dom.of[n]);
        if revised == [] {
          WipedOutAt(csp, v, x, asg.values, d0, n);
          return false;
        }
        dom.of := dom.of[n := revised];
      }
      assert !WipedOutAmong(csp, v, x, asg.values, d0, done + {n});
      done := done + {n};
    }
    PrunedByEnds(csp, v, x, asg.values, d0, done);
    return true;
  }

  lemma WipedOutAt<V(!new), D(!new)>(csp: Csp<V, D>, v: V, x: D, asg: map<V, D>, d0: map<V, seq<D>>, n: V)
    requires v in csp.constraints && v in csp.neighbours
    requires n in csp.neighbours[v] && n !in asg && n in d0 && Compatible(csp, v, x, n, d0[n]) == []
    ensures WipedOut(csp, v, x, asg, d0)
  {
  }

  /** The domains after forward checking has processed the neighbours in `done`. */
  function PrunedBy<V(==,!new), D(==,!new)>(csp: Csp<V, D>, v: V, x: D, asg: map<V, D>, d0: map<V, seq<D>>, done: set<V>): map<V, seq<D>>
    requires v in csp.constraints
  {
    map n | n in d0 :: if n in done && n !in asg then Compatible(csp, v, x, n, d0[n]) else d0[n]
  }

  /** Some unassigned neighbour in `done` has no compatible value left in `d0`. */
  predicate WipedOutAmong<V(==,!new), D(==,!new)>(csp: Csp<V, D>, v: V, x: D, asg: map<V, D>, d0: map<V, seq<D>>, done: set<V>)
    requires v in csp.constraints
  {
    exists n :: n in done && n !in asg && n in d0 && Compatible(csp, v, x, n, d0[n]) == []
  }

  lemma PrunedByStart<V(!new), D(!new)>(csp: Csp<V, D>, v: V, x: D, asg: map<V, D>, d0: map<V, seq<D>>)
    requires v in csp.constraints
    ensures PrunedBy(csp, v, x, asg, d0, {}) == d0
    ensures !WipedOutAmong(csp, v, x, asg, d0, {})
  {
  }

  /** Once every neighbour is processed, the loop's state is the specification's. */
  lemma PrunedByEnds<V(!new), D(!new)>(csp: Csp<V, D>, v: V, x: D, asg: map<V, D>, d0: map<V, seq<D>>, done: set<V>)
    requires v in csp.constraints && v in csp.neighbours
    requires forall j :: 0 <= j < |csp.neighbours[v]| ==> csp.neighbours[v][j] in done
    requires forall m :: m in done ==> m in csp.neighbours[v]
    ensures WipedOutAmong(csp, v, x, asg, d0, done) == WipedOut(csp, v, x, asg, d0)
    ensures PrunedBy(csp, v, x, asg, d0, done) == Pruned(csp, v, x, asg, d0)
  {
    assert forall m :: m in done <==> m in csp.neighbours[v];
  }

  /** An assigned neighbour is skipped. */
  lemma PrunedBySkip<V(!new), D(!new)>(csp: Csp<V, D>, v: V, x: D, asg: map<V, D>, d0: map<V, seq<D>>, done: set<V>, n: V)
    requires v in csp.constraints && n in asg
    ensures PrunedBy(csp, v, x, asg, d0, done + {n}) == PrunedBy(csp, v, x, asg, d0, done)
    ensures WipedOutAmong(csp, v, x, asg, d0, done + {n}) == WipedOutAmong(csp, v, x, asg, d0, done)
  {
  }

  /** An unassigned neighbour is filtered; filtering it a second time changes nothing. */
  lemma PrunedByAdd<V(!new), D(!new)>(csp: Csp<V, D>, v: V, x: D, asg: map<V, D>, d0: map<V, seq<D>>, done: set<V>, n: V)
    requires v in csp.constraints && n in d0 && n !in asg
    ensures Compatible(csp, v, x, n, PrunedBy(csp, v, x, asg, d0, done)[n]) == Compatible(csp, v, x, n, d0[n])
    ensures PrunedBy(csp, v, x, asg, d0, done + {n}) ==
      PrunedBy(csp, v, x, asg, d0, done)[n := Compatible(csp, v, x, n, d0[n])]
    ensures WipedOutAmong(csp, v, x, asg, d0, done + {n}) ==
      (WipedOutAmong(csp, v, x, asg, d0, done) || Compatible(csp, v, x, n, d0[n]) == [])
  {
    if n in done {
      CompatibleIdempotent(csp, v, x, n, d0[n]);
    }
  }

  // ---------------------------------------------------------------------
  // Arc consistency

  /** The `any(...)` of `revise`: some value of `ys` is compatible with `(xi, x)`. */
  predicate HasSupport<V(==,!new), D(==,!new)>(csp: Csp<V, D>, xi: V, x: D, xj: V, ys: seq<D>)
    requires xi in csp.constraints
  {
    exists y :: y in ys && csp.constraints[xi](xi, x, xj, y)
  }

  /** The values of `vals` that keep a support in `ys`, in order. */
  function Supported<V(==,!new), D(==,!new)>(csp: Csp<V, D>, xi: V, vals: seq<D>, xj: V, ys: seq<D>): seq<D>
    requires xi in csp.constraints
  {
    Filter(vals, (x: D) => HasSupport(csp, xi, x, xj, ys))
  }

  /** The arc `(xi, xj)` is consistent in `dom`: every value of `xi` has a support in `xj`. */
  predicate ArcOK<V(==,!new), D(==,!new)>(csp: Csp<V, D>, dom: map<V, seq<D>>, xi: V, xj: V)
    requires xi in dom && xj in dom && xi in csp.constraints
  {
    forall x :: x in dom[xi] ==> HasSupport(csp, xi, x, xj, dom[xj])
  }

  /** Every arc of the constraint graph is consistent in `dom`. */
  predicate ArcConsistent<V(==,!new), D(==,!new)>(csp: Csp<V, D>, dom: map<V, seq<D>>)
    requires csp.Valid() && Covers(csp, dom)
  {
    forall xi, xj :: xi in csp.variables && xj in csp.neighbours[xi] ==> ArcOK(csp, dom, xi, xj)
  }

  /** `s` is a solution whose every value lies in the domains `dom`. */
  predicate Admits<V(==,!new), D(==,!new)>(csp: Csp<V, D>, dom: map<V, seq<D>>, s: map<V, D>)
  {
    IsSolution(csp, s) && DrawnFrom(s, map[], dom)
  }

  /** `revise`: removes, with `list.remove`, each value of `xi` that has no
      support among the values of `xj`, iterating over a copy of the list,
      and reports whether anything was removed. */
  method Revise<V(==,!new), D(==,!new)>(csp: Csp<V, D>, dom: DomainStore<V, D>, xi: V, xj: V)
    returns (revised: bool)
    requires xi in dom.of && xj in dom.of && xi != xj && xi in csp.constraints
    modifies dom
    ensures dom.of == old(dom.of)[xi := Supported(csp, xi, old(dom.of)[xi], xj, old(dom.of)[xj])]
    ensures revised <==> |dom.of[xi]| < |old(dom.of)[xi]|
    ensures !revised ==> dom.of == old(dom.of)
  {
    ghost var d0 := dom.of;
    var copy := dom.of[xi][..];
    var ys := dom.of[xj];
    revised := false;
    ReviseStart(csp, xi, xj, ys, copy);
    for k := 0 to |copy|
      invariant xi in dom.of && dom.of == d0[xi := dom.of[xi]]
      invariant dom.of[xi] == Progress(csp, xi, xj, ys, copy, k)
      invariant revised <==> |Supported(csp, xi, copy[..k], xj, ys)| < k
    {
      var x := copy[k];
      ReviseStep(csp, xi, xj, ys, copy, k);
      if !HasSupport(csp, xi, x, xj, ys) {
        dom.of := dom.of[xi := RemoveFirst(dom.of[xi], x)];
        revised := true;
      }
    }
    ReviseEnd(csp, xi, xj, ys, copy, d0);
  }

  lemma ReviseEnd<V(!new), D(!new)>(csp: Csp<V, D>, xi: V, xj: V, ys: seq<D>, copy: seq<D>, d0: map<V, seq<D>>)
    requires xi in csp.constraints && xi in d0 && d0[xi] == copy
    ensures Progress(csp, xi, xj, ys, copy, |copy|) == Supported(csp, xi, copy, xj, ys)
    ensures |Supported(csp, xi, copy, xj, ys)| >= |copy| ==> d0[xi := Supported(csp, xi, copy, xj, ys)] == d0
  {
    assert copy[..|copy|] == copy && copy[|copy|..] == [];
    SupportedAll(csp, xi, copy, xj, ys);
  }

  /** One iteration of `revise`'s loop over the copy: a supported value
      stays where it is, an unsupported one is the first of its kind left
      in the list, so `list.remove` deletes exactly that occurrence. */
  lemma ReviseStep<V(!new), D(!new)>(csp: Csp<V, D>, xi: V, xj: V, ys: seq<D>, copy: seq<D>, k: nat)
    requires xi in csp.constraints && k < |copy|
    ensures HasSupport(csp, xi, copy[k], xj, ys) ==>
      && Progress(csp, xi, xj, ys, copy, k + 1) == Progress(csp, xi, xj, ys, copy, k)
      && |Supported(csp, xi, copy[..k + 1], xj, ys)| == |Supported(csp, xi, copy[..k], xj, ys)| + 1
    ensures !HasSupport(csp, xi, copy[k], xj, ys) ==>
      && copy[k] in Progress(csp, xi, xj, ys, copy, k)
      && RemoveFirst(Progress(csp, xi, xj, ys, copy, k), copy[k]) == Progress(csp, xi, xj, ys, copy, k + 1)
      && |Supported(csp, xi, copy[..k + 1], xj, ys)| == |Supported(csp, xi, copy[..k], xj, ys)|
  {
    var x := copy[k];
    assert copy[..k + 1] == copy[..k] + [x];
    assert copy[k..] == [x] + copy[k + 1..];
    SupportedAppend(csp, xi, copy[..k], x, xj, ys);
    var kept := Supported(csp, xi, copy[..k], xj, ys);
    assert kept + copy[k..] == kept + [x] + copy[k + 1..];
    if !HasSupport(csp, xi, x, xj, ys) {
      RemoveFirstAfter(kept, x, copy[k + 1..]);
    }
  }

  /** The list `revise` is editing after `k` iterations over the copy. */
  function Progress<V(==,!new), D(==,!new)>(csp: Csp<V, D>, xi: V, xj: V, ys: seq<D>, copy: seq<D>, k: nat): seq<D>
    requires xi in csp.constraints && k <= |copy|
  {
    Supported(csp, xi, copy[..k], xj, ys) + copy[k..]
  }

  lemma ReviseStart<V(!new), D(!new)>(csp: Csp<V, D>, xi: V, xj: V, ys: seq<D>, copy: seq<D>)
    requires xi in csp.constraints
    ensures Progress(csp, xi, xj, ys, copy, 0) == copy
    ensures |Supported(csp, xi, copy[..0], xj, ys)| == 0
  {
    assert copy[..0] == [] && copy[0..] == copy;
  }

  lemma SupportedMember<V(!new), D(!new)>(csp: Csp<V, D>, xi: V, vals: seq<D>, xj: V, ys: seq<D>, x: D)
    requires xi in csp.constraints
    ensures x in Supported(csp, xi, vals, xj, ys) <==> x in vals && HasSupport(csp, xi, x, xj, ys)
  {
    FilterMember(vals, (z: D) => HasSupport(csp, xi, z, xj, ys), x);
  }

  lemma SupportedAppend<V(!new), D(!new)>(csp: Csp<V, D>, xi: V, vals: seq<D>, x: D, xj: V, ys: seq<D>)
    requires xi in csp.constraints
    ensures Supported(csp, xi, vals + [x], xj, ys) ==
      Supported(csp, xi, vals, xj, ys) + (if HasSupport(csp, xi, x, xj, ys) then [x] else [])
    ensures !HasSupport(csp, xi, x, xj, ys) ==> x !in Supported(csp, xi, vals, xj, ys)
  {
    FilterAppend(vals, x, (z: D) => HasSupport(csp, xi, z, xj, ys));
    SupportedMember(csp, xi, vals, xj, ys, x);
  }

  /** `revise` removes nothing exactly when every value has a support. */
  lemma SupportedAll<V(!new), D(!new)>(csp: Csp<V, D>, xi: V, vals: seq<D>, xj: V, ys: seq<D>)
    requires xi in csp.constraints
    ensures |Supported(csp, xi, vals, xj, ys)| == |vals| <==> Supported(csp, xi, vals, xj, ys) == vals
    ensures Supported(csp, xi, vals, xj, ys) == vals <==> forall x :: x in vals ==> HasSupport(csp, xi, x, xj, ys)
  {
    var p := (z: D) => HasSupport(csp, xi, z, xj, ys);
    FilterShrinks(vals, p);
    if forall x :: x in vals ==> HasSupport(csp, xi, x, xj, ys) {
      FilterAllKept(vals, p);
    }
  }

  /** After revising `(xi, xj)` the arc is consistent. */
  lemma ReviseMakesArcOK<V(!new), D(!new)>(csp: Csp<V, D>, d: map<V, seq<D>>, xi: V, xj: V)
    requires xi in d && xj in d && xi != xj && xi in csp.constraints
    ensures ArcOK(csp, d[xi := Supported(csp, xi, d[xi], xj, d[xj])], xi, xj)
  {
    forall x | x in Supported(csp, xi, d[xi], xj, d[xj]) ensures HasSupport(csp, xi, x, xj, d[xj]) {
      SupportedMember(csp, xi, d[xi], xj, d[xj], x);
    }
  }

  /** Revising `(xi, xj)` keeps every consistent arc that does not point at `xi`. */
  lemma ReviseKeepsArc<V(!new), D(!new)>(csp: Csp<V, D>, d: map<V, seq<D>>, xi: V, xj: V, a: V, b: V)
    requires xi in d && xj in d && xi != xj && xi in csp.constraints
    requires a in d && b in d && a in csp.constraints && b != xi && ArcOK(csp, d, a, b)
    ensures ArcOK(csp, d[xi := Supported(csp, xi, d[xi], xj, d[xj])], a, b)
  {
    if a == xi {
      forall x | x in Supported(csp, xi, d[xi], xj, d[xj]) ensures HasSupport(csp, a, x, b, d[b]) {
        SupportedMember(csp, xi, d[xi], xj, d[xj], x);
      }
    }
  }

  /** For a symmetric problem, revising `(xi, xj)` keeps the reverse arc
      `(xj, xi)` consistent: a removed value supported nothing in `xj`. */
  lemma ReviseKeepsReverseArc<V(!new), D(!new)>(csp: Csp<V, D>, d: map<V, seq<D>>, xi: V, xj: V)
    requires csp.Valid() && csp.Symmetric() && Covers(csp, d)
    requires xi in csp.variables && xj in csp.neighbours[xi]
    requires ArcOK(csp, d, xj, xi)
    ensures ArcOK(csp, d[xi := Supported(csp, xi, d[xi], xj, d[xj])], xj, xi)
  {
    var d' := d[xi := Supported(csp, xi, d[xi], xj, d[xj])];
    forall x | x in d'[xj] ensures HasSupport(csp, xj, x, xi, d'[xi]) {
      var y :| y in d[xi] && csp.constraints[xj](xj, x, xi, y);
      assert csp.constraints[xi](xi, y, xj, x) == csp.constraints[xj](xj, x, xi, y);
      assert HasSupport(csp, xi, y, xj, d[xj]);
      SupportedMember(csp, xi, d[xi], xj, d[xj], y);
    }
  }

  /** Revising an arc along an edge of the graph never removes a value that
      a solution uses. */
  lemma ReviseKeepsSolutions<V(!new), D(!new)>(csp: Csp<V, D>, d: map<V, seq<D>>, xi: V, xj: V, s: map<V, D>)
    requires csp.Valid() && Covers(csp, d)
    requires xi in csp.variables && xj in csp.neighbours[xi]
    requires Admits(csp, d, s)
    ensures Admits(csp, d[xi := Supported(csp, xi, d[xi], xj, d[xj])], s)
  {
    assert xi in s && xj in s;
    assert csp.constraints[xi](xi, s[xi], xj, s[xj]);
    assert HasSupport(csp, xi, s[xi], xj, d[xj]);
    SupportedMember(csp, xi, d[xi], xj, d[xj], s[xi]);
  }

  /** A consistent arc is left as it is by `revise`. */
  lemma ArcOKUnrevised<V(!new), D(!new)>(csp: Csp<V, D>, d: map<V, seq<D>>, xi: V, xj: V)
    requires xi in d && xj in d && xi in csp.constraints && ArcOK(csp, d, xi, xj)
    ensures Supported(csp, xi, d[xi], xj, d[xj]) == d[xi]
  {
    SupportedAll(csp, xi, d[xi], xj, d[xj]);
  }

  /** The domains removed from by `revise` are subsequences of the originals. */
  lemma ReviseShrinks<V(!new), D(!new)>(csp: Csp<V, D>, d: map<V, seq<D>>, d0: map<V, seq<D>>, xi: V, xj: V)
    requires Covers(csp, d) && Covers(csp, d0) && xi in d && xj in d && xi in csp.constraints
    requires forall v :: v in csp.variables ==> IsSubseq(d[v], d0[v])
    ensures forall v :: v in csp.variables ==>
      IsSubseq(d[xi := Supported(csp, xi, d[xi], xj, d[xj])][v], d0[v])
  {
    FilterSubseq(d[xi], (x: D) => HasSupport(csp, xi, x, xj, d[xj]));
    forall v | v in csp.variables && v == xi
      ensures IsSubseq(Supported(csp, xi, d[xi], xj, d[xj]), d0[v])
    {
      SubseqTrans(Supported(csp, xi, d[xi], xj, d[xj]), d[xi], d0[xi]);
    }
  }

  /** The total number of values over the domains of `vs`. */
  function SizeSum<V(==), D>(vs: seq<V>, d: map<V, seq<D>>): nat
    requires forall v :: v in vs ==> v in d
  {
    if vs == [] then 0 else |d[vs[0]]| + SizeSum(vs[1..], d)
  }

  /** Shrinking one domain never increases the total, and decreases it when
      the variable is among `vs`. */
  lemma {:induction false} SizeSumShrink<V, D>(vs: seq<V>, d: map<V, seq<D>>, k: V, t: seq<D>)
    requires forall v :: v in vs ==> v in d
    requires k in d && |t| < |d[k]|
    ensures SizeSum(vs, d[k := t]) <= SizeSum(vs, d)
    ensures k in vs ==> SizeSum(vs, d[k := t]) < SizeSum(vs, d)
  {
    if vs != [] {
      SizeSumShrink(vs[1..], d, k, t);
      assert k in vs ==> k == vs[0] || k in vs[1..];
    }
  }

  /** The initial queue of `ac3`: every `(xi, xj)` with `xj` a neighbour of
      `xi`, in variable order and then neighbour order. */
  function Arcs<V(==,!new)>(vs: seq<V>, nb: map<V, seq<V>>): (q: seq<(V, V)>)
    requires forall v :: v in vs ==> v in nb
    ensures forall a, b :: (a, b) in q <==> a in vs && b in nb[a]
  {
    if vs == [] then []
    else
      assert forall a :: a in vs <==> a == vs[0] || a in vs[1..];
      Pairs(vs[0], nb[vs[0]]) + Arcs(vs[1..], nb)
  }

  /** The arcs from `a` to each of `ns`, in order. */
  function Pairs<V(==,!new)>(a: V, ns: seq<V>): (q: seq<(V, V)>)
    ensures forall x, y :: (x, y) in q <==> x == a && y in ns
  {
    if ns == [] then []
    else
      assert forall y :: y in ns <==> y == ns[0] || y in ns[1..];
      [(a, ns[0])] + Pairs(a, ns[1..])
  }

  /** `ac3`: runs `revise` over a FIFO queue of arcs, re-queueing the arcs
      into `xi` (except from `xj`) whenever `xi` shrinks, and fails as soon
      as a domain becomes empty. */
  method AC3<V(==,!new), D(==,!new)>(csp: Csp<V, D>, dom: DomainStore<V, D>) returns (ok: bool)
    requires csp.Valid() && Covers(csp, dom.of)
    modifies dom
    ensures Covers(csp, dom.of) && dom.of.Keys == old(dom.of).Keys
    ensures forall v :: v in csp.variables ==> IsSubseq(dom.of[v], old(dom.of)[v])
    ensures !ok ==> exists v :: v in csp.variables && dom.of[v] == []
    ensures csp.SymmetricNeighbours() ==>
      forall s :: Admits(csp, old(dom.of), s) ==> ok && Admits(csp, dom.of, s)
    ensures ok && csp.Symmetric() ==> ArcConsistent(csp, dom.of)
    ensures ArcConsistent(csp, old(dom.of)) ==> ok && dom.of == old(dom.of)
  {
    ghost var d0 := dom.of;
    var queue := Arcs(csp.variables, csp.neighbours);
    AC3Start(csp, d0, queue);
    while queue != []
      invariant DomInv(csp, d0, dom.of)
      invariant QueueInv(csp, d0, dom.of, queue)
      decreases SizeSum(csp.variables, dom.of), |queue|
    {
      var (xi, xj) := queue[0];
      PopFront(queue);
      queue := queue[1..];
      ghost var before := dom.of;
      var revised := Revise(csp, dom, xi, xj);
      ReviseInv(csp, d0, before, xi, xj, dom.of);
      if !revised {
        UnrevisedInv(csp, d0, before, xi, xj, queue);
        continue;
      }
      SizeSumShrink(csp.variables, before, xi, dom.of[xi]);
      assert dom.of[xi] != before[xi];
      if dom.of[xi] == [] {
        EmptyDomainAdmitsNothing(csp, dom.of, xi);
        return false;
      }
      ghost var q1 := queue;
      queue := EnqueueArcsInto(queue, csp.neighbours[xi], xi, xj);
      RequeueInv(csp, d0, before, xi, xj, q1, dom.of);
    }
    return true;
  }

  /** The `for xk in self.neighbours[xi]` loop of `ac3`: appends `(xk, xi)`
      for every neighbour `xk` of `xi` other than `xj`. */
  method EnqueueArcsInto<V(==)>(queue: seq<(V, V)>, ns: seq<V>, xi: V, xj: V) returns (q: seq<(V, V)>)
    ensures q == queue + Requeue(ns, |ns|, xi, xj)
  {
    q := queue;
    RequeueStep(queue, ns, 0, xi, xj);
    for m := 0 to |ns|
      invariant q == queue + Requeue(ns, m, xi, xj)
    {
      RequeueStep(queue, ns, m, xi, xj);
      if ns[m] != xj {
        q := q + [(ns[m], xi)];
      }
    }
  }

  /** The arcs the `for xk in ...` loop of `ac3` appends after the first
      `m` neighbours of `xi`. */
  function Requeue<V(==)>(ns: seq<V>, m: nat, xi: V, xj: V): seq<(V, V)>
    requires m <= |ns|
  {
    if m == 0 then [] else Requeue(ns, m - 1, xi, xj) + (if ns[m - 1] != xj then [(ns[m - 1], xi)] else [])
  }

  lemma PopFront<T>(q: seq<T>)
    requires q != []
    ensures q == [q[0]] + q[1..]
  {
  }

  lemma RequeueStep<V>(q1: seq<(V, V)>, ns: seq<V>, m: nat, xi: V, xj: V)
    requires m <= |ns|
    ensures m == 0 ==> q1 + Requeue(ns, 0, xi, xj) == q1
    ensures m < |ns| && ns[m] != xj ==>
      q1 + Requeue(ns, m + 1, xi, xj) == (q1 + Requeue(ns, m, xi, xj)) + [(ns[m], xi)]
    ensures m < |ns| && ns[m] == xj ==> q1 + Requeue(ns, m + 1, xi, xj) == q1 + Requeue(ns, m, xi, xj)
  {
  }

  lemma {:induction false} RequeueMembers<V>(ns: seq<V>, m: nat, xi: V, xj: V)
    requires m <= |ns|
    ensures forall a, b :: (a, b) in Requeue(ns, m, xi, xj) <==> b == xi && a != xj && a in ns[..m]
  {
    if m > 0 {
      RequeueMembers(ns, m - 1, xi, xj);
      assert ns[..m] == ns[..m - 1] + [ns[m - 1]];
    }
  }

  /** Every queued pair is two distinct variables. */
  predicate QueueOK<V(==,!new), D(==,!new)>(csp: Csp<V, D>, q: seq<(V, V)>)
  {
    forall i :: 0 <= i < |q| ==> q[i].0 in csp.variables && q[i].1 in csp.variables && q[i].0 != q[i].1
  }

  /** Every queued pair is an arc of the constraint graph. */
  predicate QueueArcs<V(==,!new), D(==,!new)>(csp: Csp<V, D>, q: seq<(V, V)>)
    requires csp.Valid() && QueueOK(csp, q)
  {
    forall i :: 0 <= i < |q| ==> q[i].1 in csp.neighbours[q[i].0]
  }

  /** Every arc that is not waiting in the queue is consistent. */
  predicate OutsideOK<V(==,!new), D(==,!new)>(csp: Csp<V, D>, d: map<V, seq<D>>, q: seq<(V, V)>)
    requires csp.Valid() && Covers(csp, d)
  {
    forall a, b :: a in csp.variables && b in csp.neighbours[a] && (a, b) !in q ==> ArcOK(csp, d, a, b)
  }

  /** What `ac3` keeps true of the domains: it only deletes values, never
      one a solution uses (for a symmetric neighbour relation), and never
      anything from arc-consistent domains. */
  ghost predicate DomInv<V(!new), D(!new)>(csp: Csp<V, D>, d0: map<V, seq<D>>, d: map<V, seq<D>>)
    requires csp.Valid() && Covers(csp, d0)
  {
    && Covers(csp, d) && d.Keys == d0.Keys
    && (forall v :: v in csp.variables ==> IsSubseq(d[v], d0[v]))
    && (csp.SymmetricNeighbours() ==> forall s :: Admits(csp, d0, s) ==> Admits(csp, d, s))
    && (ArcConsistent(csp, d0) ==> d == d0)
  }

  /** What `ac3` keeps true of its queue: arcs between distinct variables,
      and (for a symmetric problem) every arc outside it consistent. */
  ghost predicate QueueInv<V(!new), D(!new)>(csp: Csp<V, D>, d0: map<V, seq<D>>, d: map<V, seq<D>>, q: seq<(V, V)>)
    requires csp.Valid() && Covers(csp, d0) && Covers(csp, d)
  {
    && QueueOK(csp, q)
    && (csp.SymmetricNeighbours() || ArcConsistent(csp, d0) ==> QueueArcs(csp, q))
    && (csp.Symmetric() ==> OutsideOK(csp, d, q))
  }

  lemma AC3Start<V(!new), D(!new)>(csp: Csp<V, D>, d0: map<V, seq<D>>, q: seq<(V, V)>)
    requires csp.Valid() && Covers(csp, d0) && q == Arcs(csp.variables, csp.neighbours)
    ensures DomInv(csp, d0, d0) && QueueInv(csp, d0, d0, q)
  {
    forall v | v in csp.variables ensures IsSubseq(d0[v], d0[v]) {
      SubseqRefl(d0[v]);
    }
    forall i | 0 <= i < |q| ensures q[i].0 in csp.variables && q[i].1 in csp.neighbours[q[i].0] {
      assert (q[i].0, q[i].1) in q;
    }
  }

  /** Revising the arc at the head of the queue keeps the domain invariant,
      and changes nothing when the domains were arc-consistent to begin with. */
  lemma ReviseInv<V(!new), D(!new)>(csp: Csp<V, D>, d0: map<V, seq<D>>, d: map<V, seq<D>>, xi: V, xj: V, d': map<V, seq<D>>)
    requires csp.Valid() && Covers(csp, d0) && DomInv(csp, d0, d)
    requires xi in csp.variables && xj in csp.variables && xi != xj
    requires csp.SymmetricNeighbours() || ArcConsistent(csp, d0) ==> xj in csp.neighbours[xi]
    requires d' == d[xi := Supported(csp, xi, d[xi], xj, d[xj])]
    ensures DomInv(csp, d0, d')
    ensures ArcConsistent(csp, d0) ==> d' == d
  {
    ReviseShrinks(csp, d, d0, xi, xj);
    if csp.SymmetricNeighbours() {
      forall s | Admits(csp, d0, s) ensures Admits(csp, d', s) {
        ReviseKeepsSolutions(csp, d, xi, xj, s);
      }
    }
    if ArcConsistent(csp, d0) {
      ArcOKUnrevised(csp, d0, xi, xj);
    }
  }

  /** A revise that removed nothing leaves the arc it checked consistent. */
  lemma UnrevisedInv<V(!new), D(!new)>(csp: Csp<V, D>, d0: map<V, seq<D>>, d: map<V, seq<D>>, xi: V, xj: V, q: seq<(V, V)>)
    requires csp.Valid() && Covers(csp, d0) && Covers(csp, d)
    requires xi in csp.variables && xj in csp.variables && xi != xj
    requires QueueInv(csp, d0, d, [(xi, xj)] + q)
    requires d[xi := Supported(csp, xi, d[xi], xj, d[xj])] == d
    ensures QueueInv(csp, d0, d, q)
  {
    ReviseMakesArcOK(csp, d, xi, xj);
    assert forall i :: 0 <= i < |q| ==> q[i] == ([(xi, xj)] + q)[i + 1];
    if csp.Symmetric() {
      forall a, b | a in csp.variables && b in csp.neighbours[a] && (a, b) !in q
        ensures ArcOK(csp, d, a, b)
      {
        if (a, b) != (xi, xj) {
          assert (a, b) !in [(xi, xj)] + q;
        }
      }
    }
  }

  /** After a revise that removed something and the re-queueing loop, the
      queue invariant holds again. */
  lemma RequeueInv<V(!new), D(!new)>(csp: Csp<V, D>, d0: map<V, seq<D>>, d: map<V, seq<D>>, xi: V, xj: V, q1: seq<(V, V)>, d': map<V, seq<D>>)
    requires csp.Valid() && Covers(csp, d0) && Covers(csp, d)
    requires xi in csp.variables && xj in csp.variables && xi != xj
    requires QueueInv(csp, d0, d, [(xi, xj)] + q1)
    requires d' == d[xi := Supported(csp, xi, d[xi], xj, d[xj])]
    requires d' != d && (ArcConsistent(csp, d0) ==> d' == d)
    ensures Covers(csp, d')
    ensures QueueInv(csp, d0, d', q1 + Requeue(csp.neighbours[xi], |csp.neighbours[xi]|, xi, xj))
  {
    var ns := csp.neighbours[xi];
    var r := Requeue(ns, |ns|, xi, xj);
    var q := q1 + r;
    RequeueMembers(ns, |ns|, xi, xj);
    assert ns[..|ns|] == ns;
    assert forall i :: 0 <= i < |q1| ==> q1[i] == ([(xi, xj)] + q1)[i + 1];
    forall i | 0 <= i < |q| ensures q[i].0 in csp.variables && q[i].1 in csp.variables && q[i].0 != q[i].1 {
      if i >= |q1| {
        assert q[i] == r[i - |q1|] && q[i] in r;
      }
    }
    if csp.SymmetricNeighbours() {
      forall i | 0 <= i < |q| ensures q[i].1 in csp.neighbours[q[i].0] {
        if i >= |q1| {
          assert q[i] == r[i - |q1|] && q[i] in r;
        }
      }
    }
    if csp.Symmetric() {
      ReviseMakesArcOK(csp, d, xi, xj);
      forall a, b | a in csp.variables && b in csp.neighbours[a] && (a, b) !in q
        ensures ArcOK(csp, d', a, b)
      {
        if (a, b) != (xi, xj) {
          assert (a, b) !in q1;
          assert (a, b) !in [(xi, xj)] + q1;
          if b != xi {
            ReviseKeepsArc(csp, d, xi, xj, a, b);
          } else {
            assert a in ns && (a, b) !in r;
            assert a == xj;
            ReviseKeepsReverseArc(csp, d, xi, xj);
          }
        }
      }
    }
  }

  /** An empty domain rules out every solution. */
  lemma EmptyDomainAdmitsNothing<V(!new), D(!new)>(csp: Csp<V, D>, d: map<V, seq<D>>, v: V)
    requires v in csp.variables && v in d && d[v] == []
    ensures forall s :: !Admits(csp, d, s)
  {
  }

  // ---------------------------------------------------------------------
  // The solver, in place

  /** `recursive_backtracking`: extends `asg` in place. On success it returns
      `asg` itself, holding the solution; on failure every key it added has
      been deleted again. Either way the outcome is the one `Search` describes. */
  method RecursiveBacktracking<V(==,!new), D(==,!new)>(csp: Csp<V, D>, asg: Assignment<V, D>, dom: DomainStore<V, D>, fc: bool)
    returns (r: Assignment?<V, D>)
    requires csp.Valid() && asg.values.Keys <= csp.VarSet() && Covers(csp, dom.of)
    modifies asg
    ensures r == null ==> asg.values == old(asg.values)
    ensures r != null ==> r == asg
    ensures Search(csp, old(asg.values), dom.of, fc) == if r == null then None else Some(asg.values)
    decreases csp.VarSet() - asg.values.Keys
  {
    if IsComplete(csp, asg.values) {
      return asg;
    }
    SelectWhenIncomplete(csp, asg.values);
    var v := SelectUnassigned(csp, asg.values).value;
    var vals := OrderDomainValues(dom.of, v);
    ghost var a0 := asg.values;
    for i := 0 to |vals|
      invariant asg.values == a0
      invariant TryValues(csp, a0, dom.of, fc, v, vals[i..]) == Search(csp, a0, dom.of, fc)
    {
      var x := vals[i];
      assert vals[i..][1..] == vals[i + 1..];
      if !IsConsistent(csp, v, x, asg.values) {
        continue;
      }
      UndoAssign(a0, v, x);
      asg.values := asg.values[v := x];
      var localDomains := new DomainStore(dom.of);
      if fc {
        var ok := ForwardCheck(csp, v, x, asg, localDomains);
        if !ok {
          asg.values := asg.values - {v};
          continue;
        }
      }
      var result := RecursiveBacktracking(csp, asg, localDomains, fc);
      if result != null {
        return result;
      }
      asg.values := asg.values - {v};
    }
    return null;
  }

  /** `del assignment[var]` undoes `assignment[var] = value` for an unassigned `var`. */
  lemma UndoAssign<V, D>(a: map<V, D>, v: V, x: D)
    requires v !in a
    ensures a[v := x] - {v} == a
  {
  }

  /** `backtracking_search`: copies the problem's domains, optionally runs
      AC-3 on the copy (giving up if it fails), then searches from the empty
      assignment. A returned assignment is complete, draws every value from
      the problem's domains and, for a symmetric problem, is a solution;
      `null` means no such solution exists, with AC-3 provided the neighbour
      relation is symmetric. Without AC-3 the result is exactly `Search`'s. */
  method BacktrackingSearch<V(==,!new), D(==,!new)>(csp: Csp<V, D>, useForwardChecking: bool, useAc3: bool)
    returns (r: Assignment?<V, D>)
    requires csp.Valid()
    ensures r != null ==> r.values.Keys == csp.VarSet() && DrawnFrom(r.values, map[], csp.domains)
    ensures r != null && csp.Symmetric() ==> IsSolution(csp, r.values)
    ensures r == null && (!useAc3 || csp.SymmetricNeighbours()) ==>
      forall s :: !Admits(csp, csp.domains, s)
    ensures !useAc3 ==>
      Search(csp, map[], csp.domains, useForwardChecking) == if r == null then None else Some(r.values)
  {
    var domains := new DomainStore(csp.domains);
    if useAc3 {
      var ok := AC3(csp, domains);
      if !ok {
        return null;
      }
    }
    var assignment := new Assignment();
    r := RecursiveBacktracking(csp, assignment, domains, useForwardChecking);
    if r != null {
      SearchSound(csp, map[], domains.of, useForwardChecking);
      forall v | v in r.values ensures v in csp.domains && r.values[v] in csp.domains[v] {
        if useAc3 {
          assert v in domains.of && r.values[v] in domains.of[v];
          SubseqMembers(domains.of[v], csp.domains[v]);
        }
      }
    } else {
      forall s | Admits(csp, domains.of, s) ensures false {
        SearchExhaustive(csp, map[], domains.of, useForwardChecking, s);
      }
    }
  }
}
