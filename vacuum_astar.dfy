/** `informed_search/vacuum_astar.py`: the two-square vacuum world as a
    successor dictionary, its unit step cost and dirt-count heuristic, and
    the A* run from both squares dirty to both clean. */
module VacuumAStar {
  import Wrappers
  import GraphSearch

  datatype Loc = A | B
  datatype Status = Clean | Dirty

  /** `(loc, a_stat, b_stat)`. */
  datatype VState = VState(loc: Loc, a: Status, b: Status)

  const Locations: seq<Loc> := [A, B]
  const DirtStatus: seq<Status> := [Clean, Dirty]

  /** The eight combinations of a location and two dirt statuses. */
  function AllStates(): set<VState>
  {
    {VState(A, Clean, Clean), VState(A, Clean, Dirty), VState(A, Dirty, Clean), VState(A, Dirty, Dirty),
     VState(B, Clean, Clean), VState(B, Clean, Dirty), VState(B, Dirty, Clean), VState(B, Dirty, Dirty)}
  }

  lemma AllStatesComplete()
    ensures forall s: VState :: s in AllStates()
    ensures |AllStates()| == 8
  {
    forall s: VState ensures s in AllStates() {
      assert s.loc == A || s.loc == B;
      assert s.a == Clean || s.a == Dirty;
      assert s.b == Clean || s.b == Dirty;
    }
    var atA := {VState(A, Clean, Clean), VState(A, Clean, Dirty), VState(A, Dirty, Clean), VState(A, Dirty, Dirty)};
    var atB := {VState(B, Clean, Clean), VState(B, Clean, Dirty), VState(B, Dirty, Clean), VState(B, Dirty, Dirty)};
    assert |atA| == 4 && |atB| == 4;
    assert atA * atB == {};
    assert AllStates() == atA + atB;
  }

  /** The successor list the loop body builds for `s`: sucking the current
      square when it is dirty, then moving to the other square. */
  function SuccessorsOf(s: VState): seq<VState>
  {
    (if s.loc == A && s.a == Dirty then [VState(A, Clean, s.b)]
     else if s.loc == B && s.b == Dirty then [VState(B, s.a, Clean)]
     else [])
    + (if s.loc == A then [VState(B, s.a, s.b)] else [VState(A, s.a, s.b)])
  }

  function LocIndex(l: Loc): int
  {
    if l == A then 0 else 1
  }

  function StatusIndex(d: Status): int
  {
    if d == Clean then 0 else 1
  }

  /** The position of `s` in the order the loops below visit the states. */
  function Rank(s: VState): int
  {
    4 * LocIndex(s.loc) + 2 * StatusIndex(s.a) + StatusIndex(s.b)
  }

  /** `generate_vacuum_state_space`: three nested loops fill the dictionary,
      one entry per combination. */
  method GenerateVacuumStateSpace() returns (space: map<VState, seq<VState>>)
    ensures space.Keys == AllStates()
    ensures forall s :: s in space ==> space[s] == SuccessorsOf(s)
  {
    space := map[];
    for i := 0 to |Locations|
      invariant forall s :: s in space <==> Rank(s) < 4 * i
      invariant forall s :: s in space ==> space[s] == SuccessorsOf(s)
    {
      var loc := Locations[i];
      for j := 0 to |DirtStatus|
        invariant forall s :: s in space <==> Rank(s) < 4 * i + 2 * j
        invariant forall s :: s in space ==> space[s] == SuccessorsOf(s)
      {
        var aStat := DirtStatus[j];
        for k := 0 to |DirtStatus|
          invariant forall s :: s in space <==> Rank(s) < 4 * i + 2 * j + k
          invariant forall s :: s in space ==> space[s] == SuccessorsOf(s)
        {
          var bStat := DirtStatus[k];
          var state := VState(loc, aStat, bStat);
          assert Rank(state) == 4 * i + 2 * j + k;
          var successors := Successors(state);
          space := space[state := successors];
        }
      }
    }
    AllStatesComplete();
  }

  /** The body of the innermost loop: the successor list of one state. */
  method Successors(state: VState) returns (successors: seq<VState>)
    ensures successors == SuccessorsOf(state)
  {
    successors := [];
    var (loc, aStat, bStat) := (state.loc, state.a, state.b);
    if loc == A && aStat == Dirty {
      successors := successors + [VState(A, Clean, bStat)];
    } else if loc == B && bStat == Dirty {
      successors := successors + [VState(B, aStat, Clean)];
    }
    if loc == A {
      successors := successors + [VState(B, aStat, bStat)];
    } else {
      successors := successors + [VState(A, aStat, bStat)];
    }
  }

  /** Whether the square the agent stands on is dirty. */
  predicate HereDirty(s: VState)
  {
    if s.loc == A then s.a == Dirty else s.b == Dirty
  }

  /** `s` with the current square cleaned. */
  function Sucked(s: VState): VState
  {
    if s.loc == A then VState(A, Clean, s.b) else VState(B, s.a, Clean)
  }

  function Other(l: Loc): Loc
  {
    if l == A then B else A
  }

  /** There are two successors when the current square is dirty and one
      otherwise; the first then cleans that square only, and the last moves
      to the other square with the dirt unchanged. */
  lemma SuccessorShape(s: VState)
    ensures |SuccessorsOf(s)| == (if HereDirty(s) then 2 else 1)
    ensures HereDirty(s) ==> SuccessorsOf(s)[0] == Sucked(s) && Sucked(s).loc == s.loc
    ensures !HereDirty(Sucked(s)) && (s.loc == A ==> Sucked(s).b == s.b) && (s.loc == B ==> Sucked(s).a == s.a)
    ensures SuccessorsOf(s)[|SuccessorsOf(s)| - 1] == VState(Other(s.loc), s.a, s.b)
  {
  }

  /** No successor turns a clean square dirty. */
  lemma NeverDirties(s: VState, t: VState)
    requires t in SuccessorsOf(s)
    ensures s.a == Clean ==> t.a == Clean
    ensures s.b == Clean ==> t.b == Clean
  {
  }

  /** `cost_fn`: every move costs 1. */
  function CostFn(a: VState, b: VState): int
  {
    1
  }

  /** `heuristic_fn`: the number of dirty squares. */
  function HeuristicFn(s: VState): (h: int)
  {
    (if s.a == Dirty then 1 else 0) + (if s.b == Dirty then 1 else 0)
  }

  /** The heuristic is between 0 and 2, zero exactly when both squares are
      clean, never rises along an edge and falls by at most the step cost:
      it is consistent. */
  lemma HeuristicConsistent(s: VState, t: VState)
    requires t in SuccessorsOf(s)
    ensures 0 <= HeuristicFn(s) <= 2
    ensures HeuristicFn(s) == 0 <==> s.a == Clean && s.b == Clean
    ensures HeuristicFn(t) <= HeuristicFn(s) <= HeuristicFn(t) + CostFn(s, t)
  {
  }

  /** With unit costs a path's cost is the number of its steps. */
  lemma {:induction false} UnitStepCosts(p: seq<GraphSearch.Node<VState>>)
    requires p != []
    ensures GraphSearch.StepCosts(p, CostFn) == |p| - 1
    decreases |p|
  {
    if |p| > 1 {
      UnitStepCosts(p[..|p| - 1]);
    }
  }

  /** The `__main__` block: A* from both squares dirty at A to both clean
      at A, with a bound on the number of expansions. The goal is reachable
      and every state has an entry, so the search neither exhausts its
      frontier nor raises a `KeyError`: it finds a path unless the bound
      runs out. */
  method CleanBothSquares(fuel: nat) returns (result: GraphSearch.Outcome<VState>)
    ensures result.Found? ==>
      && GraphSearch.WalksFrom(result.path, VState(A, Dirty, Dirty), VState(A, Clean, Clean), SpaceOf())
      && result.path[|result.path| - 1].g == |result.path| - 1
    ensures !result.Exhausted? && !result.MissingState?
  {
    var space := GenerateVacuumStateSpace();
    SpaceIsSpaceOf(space);
    result := GraphSearch.AStarSearch(VState(A, Dirty, Dirty), VState(A, Clean, Clean), space, CostFn, HeuristicFn, fuel);
    if result.Found? {
      UnitStepCosts(result.path);
    }
    CleaningRoute();
    AllStatesComplete();
  }

  /** Suck at A, move right, suck at B, move left: a walk from both squares
      dirty at A to both clean at A. */
  function Route(): (p: seq<GraphSearch.Node<VState>>)
    ensures |p| == 5
  {
    [Stop(VState(A, Dirty, Dirty)), Stop(VState(A, Clean, Dirty)), Stop(VState(B, Clean, Dirty)),
     Stop(VState(B, Clean, Clean)), Stop(VState(A, Clean, Clean))]
  }

  /** A node for one stop of the route; only its state matters to a walk. */
  function Stop(s: VState): GraphSearch.Node<VState>
  {
    GraphSearch.MakeNode(s, Wrappers.None, 0, 0)
  }

  lemma CleaningRoute()
    ensures GraphSearch.WalksFrom(Route(), VState(A, Dirty, Dirty), VState(A, Clean, Clean), SpaceOf())
  {
    var p := Route();
    AllStatesComplete();
    assert p[0].state == VState(A, Dirty, Dirty) && p[4].state == VState(A, Clean, Clean);
    forall i, j | 0 <= i && j == i + 1 && j < |p|
      ensures GraphSearch.Edge(p[i], p[j], SpaceOf())
    {
      assert p[j].state in SuccessorsOf(p[i].state);
    }
  }

  /** The dictionary `generate_vacuum_state_space` returns, as a value. */
  function SpaceOf(): map<VState, seq<VState>>
  {
    map s | s in AllStates() :: SuccessorsOf(s)
  }

  lemma SpaceIsSpaceOf(space: map<VState, seq<VState>>)
    requires space.Keys == AllStates()
    requires forall s :: s in space ==> space[s] == SuccessorsOf(s)
    ensures space == SpaceOf()
  {
  }
}
