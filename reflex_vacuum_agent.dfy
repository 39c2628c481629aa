/** The simple reflex vacuum agent in the two-square world: it decides on
    the current percept alone, with no memory. */
module ReflexVacuumAgent {
  import opened Wrappers
  import opened Enums

  /** The square other than `l`. */
  function Other(l: Location): Location
  {
    if l == A then B else A
  }

  /** The square a move action leads to; every other action stays put. */
  function Target(a: Action, from: Location): Location
  {
    match a
    case Right => B
    case Left => A
    case _ => from
  }

  /** `choose_action`: suck a dirty square, otherwise head for the other
      square. */
  function ChooseAction(p: Percept): (a: Action)
    ensures a == Suck <==> p.1 == Dirty
    ensures a != Suck ==> (a == Right || a == Left) && Target(a, p.0) == Other(p.0)
    ensures a != NoOp
  {
    if p.1 == Dirty then Suck
    else if p.0 == A then Right
    else Left
  }

  /** `sensor`: the current square and its status, or `None` when the
      environment has no entry for that square (a `KeyError`). */
  function Sense(location: Location, states: LocationMap): (p: Option<Percept>)
    ensures p.Some? <==> location in states
    ensures p.Some? ==> p.value == (location, states[location])
  {
    if location in states then Some((location, states[location])) else None
  }

  /** The environment after `actuator(action)`. Sucking is always possible;
      a move happens only when `allowed` lists it for the current square. */
  function Actuate(action: Action, location: Location, states: LocationMap,
                   allowed: Location -> set<Action>): (r: (Location, LocationMap))
    ensures action == Suck ==> r == (location, states[location := Clean])
    ensures (action == Right || action == Left) && action in allowed(location) ==>
      r == (Target(action, location), states)
    ensures action != Suck && (action !in allowed(location) || action == NoOp) ==>
      r == (location, states)
    // no square ever gets dirtier, and only the current one may change
    ensures forall l :: l in states && states[l] == Clean ==> l in r.1 && r.1[l] == Clean
    ensures forall l :: l != location ==> (l in r.1 <==> l in states)
    ensures forall l :: l != location && l in states ==> r.1[l] == states[l]
  {
    if action == Suck then (location, states[location := Clean])
    else if action == Right && action in allowed(location) then (B, states)
    else if action == Left && action in allowed(location) then (A, states)
    else (location, states)
  }

  /** The environment as a value. */
  datatype World = World(location: Location, states: LocationMap)

  /** One `evaluate`: sense, choose, actuate; `None` when sensing fails, in
      which case nothing has changed. */
  function Step(w: World, allowed: Location -> set<Action>): Option<(World, Action)>
  {
    match Sense(w.location, w.states)
    case None => None
    case Some(p) =>
      var a := ChooseAction(p);
      var env := Actuate(a, w.location, w.states, allowed);
      Some((World(env.0, env.1), a))
  }

  class Environment {
    var location: Location
    var states: LocationMap

    constructor (location: Location, states: LocationMap)
      ensures this.location == location && this.states == states
    {
      this.location := location;
      this.states := states;
    }
  }

  class Agent {
    const environment: Environment

    constructor (environment: Environment)
      ensures this.environment == environment
    {
      this.environment := environment;
    }

    function Snapshot(): World
      reads environment
    {
      World(environment.location, environment.states)
    }

    /** `sensor`. */
    function Sensor(): (p: Option<Percept>)
      reads environment
      ensures p == Sense(environment.location, environment.states)
    {
      var loc := environment.location;
      if loc in environment.states then Some((loc, environment.states[loc])) else None
    }

    /** `actuator`: apply `action` to the environment. */
    method Actuator(action: Action, allowed: Location -> set<Action>)
      modifies environment
      ensures (environment.location, environment.states) ==
        Actuate(action, old(environment.location), old(environment.states), allowed)
    {
      var loc := environment.location;
      if action == Suck {
        environment.states := environment.states[loc := Clean];
      } else if action == Right && action in allowed(loc) {
        environment.location := B;
      } else if action == Left && action in allowed(loc) {
        environment.location := A;
      }
    }

    /** `evaluate`: the action chosen on the percept taken before acting,
        after it has been applied. */
    method Evaluate(allowed: Location -> set<Action>) returns (a: Option<Action>)
      modifies environment
      ensures a.None? ==> Snapshot() == old(Snapshot())
      ensures Step(old(Snapshot()), allowed) ==
        (if a.None? then None else Some((Snapshot(), a.value)))
    {
      var percept := Sensor();
      if percept.None? {
        return None;
      }
      var action := ChooseAction(percept.value);
      Actuator(action, allowed);
      return Some(action);
    }
  }

  /** No square that was clean before a step is dirty after it. */
  lemma StepNeverDirties(w: World, allowed: Location -> set<Action>)
    requires Step(w, allowed).Some?
    ensures forall l :: l in w.states && w.states[l] == Clean ==>
      l in Step(w, allowed).value.0.states && Step(w, allowed).value.0.states[l] == Clean
  {
    var p := Sense(w.location, w.states).value;
    var env := Actuate(ChooseAction(p), w.location, w.states, allowed);
    assert Step(w, allowed).value.0.states == env.1;
  }

  /** A step at a dirty square cleans it and stays there. */
  lemma DirtyGetsSucked(w: World, allowed: Location -> set<Action>)
    requires w.location in w.states && w.states[w.location] == Dirty
    ensures Step(w, allowed) == Some((World(w.location, w.states[w.location := Clean]), Suck))
  {
  }

  /** A step at a clean square moves to the other square when that move is
      allowed, and otherwise changes nothing. */
  lemma CleanMovesOn(w: World, allowed: Location -> set<Action>)
    requires w.location in w.states && w.states[w.location] == Clean
    ensures var a := if w.location == A then Right else Left;
      Step(w, allowed) ==
        Some((World(if a in allowed(w.location) then Other(w.location) else w.location, w.states), a))
  {
  }

  /** Both squares, each with the given status. */
  function Squares(a: Status, b: Status): LocationMap
  {
    map[A := a, B := b]
  }

  /** The demo's start: at A, both squares dirty. */
  const BaseWorld := World(A, Squares(Dirty, Dirty))

  lemma SquaresSet(a: Status, b: Status, s: Status)
    ensures Squares(a, b)[A := s] == Squares(s, b)
    ensures Squares(a, b)[B := s] == Squares(a, s)
  {
    assert Squares(a, b)[A := s].Keys == Squares(s, b).Keys;
    assert Squares(a, b)[B := s].Keys == Squares(a, s).Keys;
  }

  /** From the demo's start, with moving right allowed at A, three steps
      (suck, right, suck) clean both squares; after that the agent walks
      back and forth and never sucks again. */
  lemma CleansBaseWorld(allowed: Location -> set<Action>)
    requires Right in allowed(A)
    ensures Step(BaseWorld, allowed) == Some((World(A, Squares(Clean, Dirty)), Suck))
    ensures Step(World(A, Squares(Clean, Dirty)), allowed) == Some((World(B, Squares(Clean, Dirty)), Right))
    ensures Step(World(B, Squares(Clean, Dirty)), allowed) == Some((World(B, Squares(Clean, Clean)), Suck))
  {
    SquaresSet(Dirty, Dirty, Clean);
    SquaresSet(Clean, Dirty, Clean);
    DirtyGetsSucked(BaseWorld, allowed);
    CleanMovesOn(World(A, Squares(Clean, Dirty)), allowed);
    DirtyGetsSucked(World(B, Squares(Clean, Dirty)), allowed);
  }

  /** In a clean world the agent only ever moves: every step keeps both
      squares clean and takes it to the other square or leaves it put. */
  lemma CleanWorldStaysClean(w: World, allowed: Location -> set<Action>)
    requires w.states == Squares(Clean, Clean)
    ensures Step(w, allowed).Some?
    ensures Step(w, allowed).value.0.states == Squares(Clean, Clean)
    ensures Step(w, allowed).value.1 != Suck
  {
    var m := Squares(Clean, Clean);
    assert m[A] == Clean && m[B] == Clean;
    assert w.location == A || w.location == B;
    CleanMovesOn(w, allowed);
  }
}
