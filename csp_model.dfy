/** The problem model and the read-only queries shared by the two CSP solvers
    (`constraint_satisfaction_problems/csp_sa_arc.py` and `csp_sa.py` define
    identical `constraint_function`, `is_complete`, `select_unassigned_variable`
    and `is_consistent`). */
module CspModel {
  import opened Wrappers
  import opened SeqUtil

  /** A binary constraint: is `(var1, val1)` compatible with `(var2, val2)`? */
  type Constraint<!V, !D> = (V, D, V, D) -> bool

  /** `constraint_function`: compatible unless two distinct variables share a value. */
  function ColouringConstraint<V(==), D(==)>(var1: V, val1: D, var2: V, val2: D): bool
  {
    val1 != val2 || var1 == var2
  }

  /** The `CSP` object. Its four fields are set by the constructor and never
      reassigned, so it is a value. */
  datatype Csp<!V(==,!new), !D(==,!new)> = Csp(
    variables: seq<V>,
    domains: map<V, seq<D>>,
    neighbours: map<V, seq<V>>,
    constraints: map<V, Constraint<V, D>>)
  {
    /** A well-formed problem: distinct variables, each with a domain, a
        neighbour list and a constraint; neighbours are variables other than
        the variable itself. A missing entry is a `KeyError` in the source,
        so every operation below demands this. */
    predicate Valid()
    {
      && (forall i, j :: 0 <= i < j < |variables| ==> variables[i] != variables[j])
      && (forall v :: v in variables ==>
            v in domains && v in neighbours && v in constraints)
      && (forall v, n :: v in variables && v in neighbours && n in neighbours[v] ==>
            n in variables && n != v)
    }

    function VarSet(): set<V>
    {
      set v | v in variables
    }

    /** Whenever `b` is listed as a neighbour of `a`, `a` is listed as a neighbour of `b`. */
    predicate SymmetricNeighbours()
      requires Valid()
    {
      forall a, b :: a in variables && b in neighbours[a] ==> a in neighbours[b]
    }

    /** The neighbour relation and the constraints are symmetric. */
    ghost predicate Symmetric()
      requires Valid()
    {
      && SymmetricNeighbours()
      && (forall a, b, x, y :: a in variables && b in neighbours[a] ==>
            constraints[a](a, x, b, y) == constraints[b](b, y, a, x))
    }
  }

  /** The assignment dict: `recursive_backtracking` adds and deletes keys in place. */
  class Assignment<V(==), D> {
    var values: map<V, D>

    constructor ()
      ensures values == map[]
    {
      values := map[];
    }
  }

  /** Every constrained pair of assigned neighbours satisfies the constraint
      of the first variable. */
  predicate PairwiseConsistent<V(==,!new), D(==,!new)>(csp: Csp<V, D>, s: map<V, D>)
  {
    forall a, b :: a in s && b in s && a in csp.neighbours && a in csp.constraints && b in csp.neighbours[a] ==>
      csp.constraints[a](a, s[a], b, s[b])
  }

  /** A solution: every variable assigned, every neighbour pair consistent. */
  predicate IsSolution<V(==,!new), D(==,!new)>(csp: Csp<V, D>, s: map<V, D>)
  {
    s.Keys == csp.VarSet() && PairwiseConsistent(csp, s)
  }

  /** `s` agrees with the partial assignment `asg` wherever `asg` is defined. */
  predicate Extends<V(==), D(==)>(s: map<V, D>, asg: map<V, D>)
  {
    forall k :: k in asg ==> k in s && s[k] == asg[k]
  }

  /** Every variable that `s` assigns beyond `asg` takes a value of its domain in `dom`. */
  predicate DrawnFrom<V(==), D(==)>(s: map<V, D>, asg: map<V, D>, dom: map<V, seq<D>>)
  {
    forall v :: v in s && v !in asg ==> v in dom && s[v] in dom[v]
  }

  /** `is_complete`: compares the number of assigned variables with the number of variables. */
  function IsComplete<V(==,!new), D(==,!new)>(csp: Csp<V, D>, asg: map<V, D>): bool
  {
    |asg| == |csp.variables|
  }

  lemma {:induction false} DistinctCard<V>(vs: seq<V>)
    requires forall i, j :: 0 <= i < j < |vs| ==> vs[i] != vs[j]
    ensures |set v | v in vs| == |vs|
  {
    if vs != [] {
      DistinctCard(vs[1..]);
      var rest := set v | v in vs[1..];
      assert (set v | v in vs) == rest + {vs[0]};
      assert vs[0] !in rest by {
        forall k | 0 <= k < |vs[1..]| ensures vs[1..][k] != vs[0] {
          assert vs[1..][k] == vs[k + 1];
        }
      }
    }
  }

  /** On assignments over the problem's variables, the length test of
      `is_complete` means exactly that every variable is assigned. */
  lemma CompleteIff<V(!new), D(!new)>(csp: Csp<V, D>, asg: map<V, D>)
    requires csp.Valid() && asg.Keys <= csp.VarSet()
    ensures IsComplete(csp, asg) <==> asg.Keys == csp.VarSet()
  {
    DistinctCard(csp.variables);
    if IsComplete(csp, asg) {
      SubsetSameCard(asg.Keys, csp.VarSet());
    }
  }

  lemma SubsetSameCard<T>(a: set<T>, b: set<T>)
    requires a <= b && |a| == |b|
    ensures a == b
  {
    assert b == a + (b - a) && a * (b - a) == {};
    assert b - a == {};
    forall x | x in b ensures x in a {
      assert x !in b - a;
    }
  }

  /** The loop of `select_unassigned_variable` over a list of variables:
      the first one that is not a key of `asg`, or `None` (the implicit
      Python return) when all are assigned. */
  function FirstUnassigned<V(==), D>(vs: seq<V>, asg: map<V, D>): (r: Option<V>)
    ensures r.None? <==> forall i :: 0 <= i < |vs| ==> vs[i] in asg
    ensures r.Some? ==> exists i :: 0 <= i < |vs| && vs[i] == r.value && r.value !in asg &&
                           forall j :: 0 <= j < i ==> vs[j] in asg
  {
    if vs == [] then None
    else if vs[0] !in asg then Some(vs[0])
    else
      var r := FirstUnassigned(vs[1..], asg);
      assert r.Some? ==> exists i :: 0 <= i < |vs[1..]| && vs[1..][i] == r.value && r.value !in asg &&
                           forall j :: 0 <= j < i ==> vs[1..][j] in asg;
      assert r.Some? ==> exists i :: 1 <= i < |vs| && vs[i] == r.value && r.value !in asg &&
                           forall j :: 1 <= j < i ==> vs[j] in asg;
      r
  }

  /** `select_unassigned_variable`: the first variable, in declaration order,
      not yet assigned. */
  function SelectUnassigned<V(==,!new), D(==,!new)>(csp: Csp<V, D>, asg: map<V, D>): (r: Option<V>)
  {
    FirstUnassigned(csp.variables, asg)
  }

  /** When the assignment is not complete there is a variable to select,
      and it is an unassigned variable of the problem. */
  lemma SelectWhenIncomplete<V(!new), D(!new)>(csp: Csp<V, D>, asg: map<V, D>)
    requires csp.Valid() && asg.Keys <= csp.VarSet()
    ensures SelectUnassigned(csp, asg).Some? <==> !IsComplete(csp, asg)
    ensures SelectUnassigned(csp, asg).Some? ==>
              SelectUnassigned(csp, asg).value in csp.VarSet() - asg.Keys
  {
    CompleteIff(csp, asg);
    var r := SelectUnassigned(csp, asg);
    if r.None? {
      assert csp.VarSet() <= asg.Keys;
    } else {
      var i :| 0 <= i < |csp.variables| && csp.variables[i] == r.value && r.value !in asg;
    }
  }

  /** The loop of `is_consistent` over the neighbour list (early `return False`). */
  function NeighboursAgree<V(==), D(==)>(c: Constraint<V, D>, v: V, x: D, ns: seq<V>, asg: map<V, D>): (r: bool)
    ensures r <==> forall i :: 0 <= i < |ns| && ns[i] in asg ==> c(v, x, ns[i], asg[ns[i]])
  {
    if ns == [] then true
    else if ns[0] in asg && !c(v, x, ns[0], asg[ns[0]]) then false
    else
      assert forall i :: 1 <= i < |ns| ==> ns[i] == ns[1..][i - 1];
      NeighboursAgree(c, v, x, ns[1..], asg)
  }

  /** `is_consistent`: true on an empty assignment without looking at the
      neighbours or the constraint; otherwise true iff every assigned
      neighbour passes `variable`'s constraint. */
  function IsConsistent<V(==,!new), D(==,!new)>(csp: Csp<V, D>, v: V, x: D, asg: map<V, D>): (r: bool)
    requires asg != map[] ==> v in csp.constraints && v in csp.neighbours
    ensures r <==> (asg == map[] ||
                    forall n :: n in csp.neighbours[v] && n in asg ==> csp.constraints[v](v, x, n, asg[n]))
  {
    if asg == map[] then true
    else NeighboursAgree(csp.constraints[v], v, x, csp.neighbours[v], asg)
  }

  /** Adding a value that passes `is_consistent` to a pairwise-consistent
      assignment keeps it pairwise consistent, when the problem is symmetric. */
  lemma ConsistentExtension<V(!new), D(!new)>(csp: Csp<V, D>, asg: map<V, D>, v: V, x: D)
    requires csp.Valid() && csp.Symmetric() && asg.Keys <= csp.VarSet()
    requires v in csp.VarSet() && v !in asg
    requires PairwiseConsistent(csp, asg) && IsConsistent(csp, v, x, asg)
    ensures PairwiseConsistent(csp, asg[v := x])
  {
    var s := asg[v := x];
    forall a, b | a in s && b in s && a in csp.neighbours && a in csp.constraints && b in csp.neighbours[a]
      ensures csp.constraints[a](a, s[a], b, s[b])
    {
      if a == v {
        assert b != v && b in asg;
      } else if b == v {
        assert a in asg && a in csp.neighbours[v];
        assert csp.constraints[v](v, x, a, asg[a]);
        assert csp.constraints[a](a, asg[a], v, x) == csp.constraints[v](v, x, a, asg[a]);
      }
    }
  }

  /** A solution never disagrees with `is_consistent`: every value it uses
      passes the check against any part of that solution. */
  lemma SolutionIsConsistent<V(!new), D(!new)>(csp: Csp<V, D>, s: map<V, D>, asg: map<V, D>, v: V)
    requires csp.Valid() && IsSolution(csp, s) && Extends(s, asg)
    requires v in csp.VarSet() && v !in asg
    ensures IsConsistent(csp, v, s[v], asg)
  {
    forall n | n in csp.neighbours[v] && n in asg
      ensures csp.constraints[v](v, s[v], n, asg[n])
    {
      assert n in s && s[n] == asg[n];
    }
  }

  /** With the colouring constraint everywhere and a symmetric neighbour
      relation, the problem is symmetric and a solution gives neighbours
      different values. */
  lemma ColouringSymmetric<V(!new), D(!new)>(csp: Csp<V, D>)
    requires csp.Valid()
    requires forall v :: v in csp.variables ==> csp.constraints[v] == ColouringConstraint
    requires forall a, b :: a in csp.variables && b in csp.neighbours[a] ==> a in csp.neighbours[b]
    ensures csp.Symmetric()
    ensures forall s, a, b :: IsSolution(csp, s) && a in csp.variables && b in csp.neighbours[a] ==> s[a] != s[b]
  {
    forall s, a, b | IsSolution(csp, s) && a in csp.variables && b in csp.neighbours[a]
      ensures s[a] != s[b]
    {
      assert a in s && b in s;
      assert csp.constraints[a](a, s[a], b, s[b]);
    }
  }
}
