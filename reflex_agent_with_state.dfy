/** The model-based reflex vacuum agent in a four-square world A, B, C, D.
    The agent keeps a model of what it has seen at every square and the last
    percept; each `Act` senses, records, picks an action by the fixed rule
    and applies it to the environment. */
module ReflexAgentWithState {
  import opened Wrappers

  datatype Location = A | B | C | D | Unknown
  datatype Status = Clean | Dirty | Unknown
  datatype Action = Suck | Right | Down | Left | Up | NoOp

  type Percept = (Location, Status)
  type LocationMap = map<Location, Status>

  /** The squares of the world, in the order the agent tours them. */
  function Next(l: Location): Location
  {
    match l
    case A => B
    case B => C
    case C => D
    case D => A
    case Unknown => Location.Unknown
  }

  /** The square a move action leads to; every other action stays put. */
  function Target(a: Action, from: Location): Location
  {
    match a
    case Right => B
    case Down => C
    case Left => D
    case Up => A
    case _ => from
  }

  predicate IsMove(a: Action)
  {
    a == Right || a == Down || a == Left || a == Up
  }

  /** Every square the model knows about was last seen clean. */
  predicate AllClean(model: LocationMap)
  {
    forall l :: l in model ==> model[l] == Clean
  }

  /** The agent's starting model: nothing is known about any square. */
  const InitialModel: LocationMap :=
    map[A := Status.Unknown, B := Status.Unknown, C := Status.Unknown, D := Status.Unknown]

  const InitialState: Percept := (Location.Unknown, Status.Unknown)

  /** The environment the demo starts in: at A, every square dirty. */
  const BaseStates: LocationMap := map[A := Dirty, B := Dirty, C := Dirty, D := Dirty]

  /** The condition-action rule. A dirty percept is sucked; with every known
      square clean, or at an unknown square, the agent waits; otherwise it
      moves on to the next square of the tour. */
  function MatchRule(state: Percept, model: LocationMap): (a: Action)
    ensures a == Suck <==> state.1 == Dirty
    ensures a == NoOp <==> state.1 != Dirty && (AllClean(model) || state.0 == Location.Unknown)
    ensures a != Suck && a != NoOp ==> IsMove(a) && Target(a, state.0) == Next(state.0)
  {
    var (loc, status) := state;
    if status == Dirty then Suck
    else if AllClean(model) then NoOp
    else match loc
      case A => Right
      case B => Down
      case C => Left
      case D => Up
      case Unknown => NoOp
  }

  /** What the sensors read: the current square and its status, or `None`
      when the environment has no entry for that square (a `KeyError`). */
  function Sense(location: Location, states: LocationMap): (p: Option<Percept>)
    ensures p.Some? <==> location in states
    ensures p.Some? ==> p.value.0 == location && p.value.1 == states[location]
  {
    if location in states then Some((location, states[location])) else None
  }

  /** The environment after the actuators apply `action` at `location`,
      given the actions `allowed` names for each square. */
  function Actuate(action: Action, location: Location, states: LocationMap,
                   allowed: Location -> set<Action>): (r: (Location, LocationMap))
    // a disallowed action changes nothing
    ensures action !in allowed(location) ==> r == (location, states)
    // a move goes where `Target` says and leaves the dirt alone
    ensures action in allowed(location) && IsMove(action) ==>
      r == (Target(action, location), states)
    // suck cleans the current square and nothing else
    ensures action == Suck && action in allowed(location) ==>
      r.0 == location && r.1 == states[location := Clean]
    // no square ever gets dirtier
    ensures forall l :: l in states && states[l] == Clean ==> l in r.1 && r.1[l] == Clean
    ensures forall l :: l != location ==> (l in r.1 <==> l in states)
    ensures forall l :: l != location && l in states ==> r.1[l] == states[l]
  {
    if action !in allowed(location) then (location, states)
    else if action == Suck then (location, states[location := Clean])
    else (Target(action, location), states)
  }

  /** The agent's model together with the environment it acts on. */
  datatype World = World(model: LocationMap, state: Percept, location: Location, states: LocationMap)

  /** One `act`: sense, remember the percept, choose by the rule, actuate.
      `None` when sensing fails, in which case nothing has changed. */
  function Step(w: World, allowed: Location -> set<Action>): Option<(World, Action)>
  {
    match Sense(w.location, w.states)
    case None => None
    case Some(p) =>
      var model := w.model[p.0 := p.1];
      var a := MatchRule(p, model);
      var env := Actuate(a, w.location, w.states, allowed);
      Some((World(model, p, env.0, env.1), a))
  }

  class Environment {
    var location: Location
    var states: LocationMap

    constructor (location: Location, states: LocationMap)
      ensures this.location == location && this.states == states
    {
      this.location := location;
      this.states := states;
    }
  }

  class StatefulReflexAgent {
    var model: LocationMap
    var state: Percept

    constructor ()
      ensures model == InitialModel && state == InitialState
    {
      model := InitialModel;
      state := InitialState;
    }

    /** The agent and the environment as one value. */
    function Snapshot(env: Environment): World
      reads this, env
    {
      World(model, state, env.location, env.states)
    }

    /** `update_state`: record the perceived status of the perceived square. */
    method UpdateState(percept: Percept)
      modifies this
      ensures model == old(model)[percept.0 := percept.1]
      ensures state == old(state)
    {
      model := model[percept.0 := percept.1];
    }

    /** `actuators`: apply `action` to `env`. */
    method Actuators(action: Action, env: Environment, allowed: Location -> set<Action>)
      modifies env
      ensures (env.location, env.states) == Actuate(action, old(env.location), old(env.states), allowed)
    {
      var loc := env.location;
      if action !in allowed(loc) {
        return;
      }
      if action == Suck {
        env.states := env.states[loc := Clean];
      } else if action == Right {
        env.location := B;
      } else if action == Down {
        env.location := C;
      } else if action == Left {
        env.location := D;
      } else if action == Up {
        env.location := A;
      }
    }

    /** `act`: one full perceive-decide-act cycle, as `Step` describes it. */
    method Act(env: Environment, allowed: Location -> set<Action>) returns (a: Option<Action>)
      modifies this, env
      ensures a.None? ==> Snapshot(env) == old(Snapshot(env))
      ensures Step(old(Snapshot(env)), allowed) ==
        (if a.None? then None else Some((Snapshot(env), a.value)))
    {
      var percept := Sense(env.location, env.states);
      if percept.None? {
        return None;
      }
      state := percept.value;
      UpdateState(percept.value);
      var action := MatchRule(state, model);
      Actuators(action, env, allowed);
      return Some(action);
    }
  }

  /** Squares the model has seen clean really are clean. */
  predicate Sound(w: World)
  {
    forall l :: l in w.model && w.model[l] == Clean ==> l in w.states && w.states[l] == Clean
  }

  lemma InitialSound(location: Location, states: LocationMap)
    ensures Sound(World(InitialModel, InitialState, location, states))
  {
  }

  /** No square that was clean before a step is dirty after it. */
  lemma StepNeverDirties(w: World, allowed: Location -> set<Action>)
    requires Step(w, allowed).Some?
    ensures forall l :: l in w.states && w.states[l] == Clean ==>
      l in Step(w, allowed).value.0.states && Step(w, allowed).value.0.states[l] == Clean
  {
    var p := Sense(w.location, w.states).value;
    var a := MatchRule(p, w.model[p.0 := p.1]);
    var env := Actuate(a, w.location, w.states, allowed);
    assert Step(w, allowed).value.0.states == env.1;
  }

  /** The model never claims a square is clean when it is not. */
  lemma StepKeepsSound(w: World, allowed: Location -> set<Action>)
    requires Sound(w) && Step(w, allowed).Some?
    ensures Sound(Step(w, allowed).value.0)
  {
    var p := Sense(w.location, w.states).value;
    var model := w.model[p.0 := p.1];
    var a := MatchRule(p, model);
    var env := Actuate(a, w.location, w.states, allowed);
    var w' := Step(w, allowed).value.0;
    assert w' == World(model, p, env.0, env.1);
    forall l | l in model && model[l] == Clean
      ensures l in env.1 && env.1[l] == Clean
    {
      if l == p.0 {
        assert w.states[l] == Clean;
      } else {
        assert w.model[l] == Clean;
      }
    }
  }

  /** A step only ever adds squares to the model. */
  lemma StepKeepsKnown(w: World, allowed: Location -> set<Action>)
    requires Step(w, allowed).Some?
    ensures w.model.Keys <= Step(w, allowed).value.0.model.Keys
  {
  }

  /** When a sound agent that knows all four squares waits at a real square,
      the whole world really is clean. */
  lemma NoOpMeansClean(w: World, allowed: Location -> set<Action>)
    requires Sound(w) && Step(w, allowed).Some?
    requires {A, B, C, D} <= w.model.Keys
    requires Step(w, allowed).value.1 == NoOp && w.location != Location.Unknown
    ensures var s := Step(w, allowed).value.0.states;
      forall l :: l in {A, B, C, D} ==> l in s && s[l] == Clean
  {
    StepKeepsSound(w, allowed);
    var w' := Step(w, allowed).value.0;
    assert w'.state.0 == w.location;
    assert AllClean(w'.model);
  }

  /** The actions each square allows include sucking and the tour's move. */
  predicate TourAllowed(allowed: Location -> set<Action>)
  {
    && Suck in allowed(A) && Right in allowed(A)
    && Suck in allowed(B) && Down in allowed(B)
    && Suck in allowed(C) && Left in allowed(C)
    && Suck in allowed(D) && Up in allowed(D)
  }

  /** The move the rule picks at each square of the tour. */
  function TourMove(l: Location): Action
  {
    match l
    case A => Right
    case B => Down
    case C => Left
    case D => Up
    case Unknown => NoOp
  }

  /** A step at a dirty square sucks it. */
  lemma SuckStep(w: World, allowed: Location -> set<Action>)
    requires w.location in w.states && w.states[w.location] == Dirty
    requires Suck in allowed(w.location)
    ensures Step(w, allowed) == Some((World(w.model[w.location := Dirty], (w.location, Dirty),
                                            w.location, w.states[w.location := Clean]), Suck))
  {
  }

  /** A step at a clean square of the tour, with some known square not yet
      seen clean, moves on to the next square. */
  lemma MoveStep(w: World, allowed: Location -> set<Action>)
    requires w.location != Location.Unknown && w.location in w.states && w.states[w.location] == Clean
    requires !AllClean(w.model[w.location := Clean])
    requires TourMove(w.location) in allowed(w.location)
    ensures Step(w, allowed) == Some((World(w.model[w.location := Clean], (w.location, Clean),
                                            Next(w.location), w.states), TourMove(w.location)))
  {
    var a := MatchRule((w.location, Clean), w.model[w.location := Clean]);
    assert a == TourMove(w.location);
  }

  /** A step at a clean square with every known square seen clean waits. */
  lemma WaitStep(w: World, allowed: Location -> set<Action>)
    requires w.location in w.states && w.states[w.location] == Clean
    requires AllClean(w.model[w.location := Clean])
    ensures Step(w, allowed) == Some((World(w.model[w.location := Clean], (w.location, Clean),
                                            w.location, w.states), NoOp))
  {
  }

  /** The four squares with the given statuses. */
  function Squares(a: Status, b: Status, c: Status, d: Status): LocationMap
  {
    map[A := a, B := b, C := c, D := d]
  }

  /** Changing one square of `Squares` gives `Squares` with that status. */
  lemma SquaresUpdate(a: Status, b: Status, c: Status, d: Status, s: Status)
    ensures Squares(a, b, c, d)[A := s] == Squares(s, b, c, d)
    ensures Squares(a, b, c, d)[B := s] == Squares(a, s, c, d)
    ensures Squares(a, b, c, d)[C := s] == Squares(a, b, s, d)
    ensures Squares(a, b, c, d)[D := s] == Squares(a, b, c, s)
  {
    SquaresSetA(a, b, c, d, s);
    SquaresSetB(a, b, c, d, s);
    SquaresSetC(a, b, c, d, s);
    SquaresSetD(a, b, c, d, s);
  }

  lemma SquaresSetA(a: Status, b: Status, c: Status, d: Status, s: Status)
    ensures Squares(a, b, c, d)[A := s] == Squares(s, b, c, d)
  {
    SquaresSame(Squares(a, b, c, d)[A := s], Squares(s, b, c, d));
  }

  lemma SquaresSetB(a: Status, b: Status, c: Status, d: Status, s: Status)
    ensures Squares(a, b, c, d)[B := s] == Squares(a, s, c, d)
  {
    SquaresSame(Squares(a, b, c, d)[B := s], Squares(a, s, c, d));
  }

  lemma SquaresSetC(a: Status, b: Status, c: Status, d: Status, s: Status)
    ensures Squares(a, b, c, d)[C := s] == Squares(a, b, s, d)
  {
    SquaresSame(Squares(a, b, c, d)[C := s], Squares(a, b, s, d));
  }

  lemma SquaresSetD(a: Status, b: Status, c: Status, d: Status, s: Status)
    ensures Squares(a, b, c, d)[D := s] == Squares(a, b, c, s)
  {
    SquaresSame(Squares(a, b, c, d)[D := s], Squares(a, b, c, s));
  }

  /** Two maps over exactly the four squares that agree on each are equal. */
  lemma SquaresSame(m: LocationMap, n: LocationMap)
    requires m.Keys == {A, B, C, D} == n.Keys
    requires m[A] == n[A] && m[B] == n[B] && m[C] == n[C] && m[D] == n[D]
    ensures m == n
  {
    forall l | l in m ensures m[l] == n[l] {
      assert l == A || l == B || l == C || l == D;
    }
  }

  lemma SquaresAllClean(a: Status, b: Status, c: Status, d: Status)
    ensures AllClean(Squares(a, b, c, d)) <==> a == Clean && b == Clean && c == Clean && d == Clean
  {
    var m := Squares(a, b, c, d);
    assert m[A] == a && m[B] == b && m[C] == c && m[D] == d;
  }

  const Cleaned: LocationMap := Squares(Clean, Clean, Clean, Clean)

  /** The worlds the demo passes through, two per square. */
  const W0 := World(Squares(Status.Unknown, Status.Unknown, Status.Unknown, Status.Unknown), InitialState, A,
                    Squares(Dirty, Dirty, Dirty, Dirty))
  const W1 := World(Squares(Dirty, Status.Unknown, Status.Unknown, Status.Unknown), (A, Dirty), A,
                    Squares(Clean, Dirty, Dirty, Dirty))
  const W2 := World(Squares(Clean, Status.Unknown, Status.Unknown, Status.Unknown), (A, Clean), B,
                    Squares(Clean, Dirty, Dirty, Dirty))
  const W3 := World(Squares(Clean, Dirty, Status.Unknown, Status.Unknown), (B, Dirty), B,
                    Squares(Clean, Clean, Dirty, Dirty))
  const W4 := World(Squares(Clean, Clean, Status.Unknown, Status.Unknown), (B, Clean), C,
                    Squares(Clean, Clean, Dirty, Dirty))
  const W5 := World(Squares(Clean, Clean, Dirty, Status.Unknown), (C, Dirty), C,
                    Squares(Clean, Clean, Clean, Dirty))
  const W6 := World(Squares(Clean, Clean, Clean, Status.Unknown), (C, Clean), D,
                    Squares(Clean, Clean, Clean, Dirty))
  const W7 := World(Squares(Clean, Clean, Clean, Dirty), (D, Dirty), D, Cleaned)
  const W8 := World(Cleaned, (D, Clean), D, Cleaned)

  lemma Tour0(allowed: Location -> set<Action>)
    requires TourAllowed(allowed)
    ensures Step(W0, allowed) == Some((W1, Suck))
  {
    SquaresUpdate(Status.Unknown, Status.Unknown, Status.Unknown, Status.Unknown, Dirty);
    SquaresUpdate(Dirty, Dirty, Dirty, Dirty, Clean);
    SuckStep(W0, allowed);
  }

  lemma Tour1(allowed: Location -> set<Action>)
    requires TourAllowed(allowed)
    ensures Step(W1, allowed) == Some((W2, Right))
  {
    SquaresUpdate(Dirty, Status.Unknown, Status.Unknown, Status.Unknown, Clean);
    SquaresAllClean(Clean, Status.Unknown, Status.Unknown, Status.Unknown);
    MoveStep(W1, allowed);
  }

  lemma Tour2(allowed: Location -> set<Action>)
    requires TourAllowed(allowed)
    ensures Step(W2, allowed) == Some((W3, Suck))
  {
    SquaresUpdate(Clean, Status.Unknown, Status.Unknown, Status.Unknown, Dirty);
    SquaresUpdate(Clean, Dirty, Dirty, Dirty, Clean);
    SuckStep(W2, allowed);
  }

  lemma Tour3(allowed: Location -> set<Action>)
    requires TourAllowed(allowed)
    ensures Step(W3, allowed) == Some((W4, Down))
  {
    SquaresUpdate(Clean, Dirty, Status.Unknown, Status.Unknown, Clean);
    SquaresAllClean(Clean, Clean, Status.Unknown, Status.Unknown);
    MoveStep(W3, allowed);
  }

  lemma Tour4(allowed: Location -> set<Action>)
    requires TourAllowed(allowed)
    ensures Step(W4, allowed) == Some((W5, Suck))
  {
    SquaresUpdate(Clean, Clean, Status.Unknown, Status.Unknown, Dirty);
    SquaresUpdate(Clean, Clean, Dirty, Dirty, Clean);
    SuckStep(W4, allowed);
  }

  lemma Tour5(allowed: Location -> set<Action>)
    requires TourAllowed(allowed)
    ensures Step(W5, allowed) == Some((W6, Left))
  {
    SquaresUpdate(Clean, Clean, Dirty, Status.Unknown, Clean);
    SquaresAllClean(Clean, Clean, Clean, Status.Unknown);
    MoveStep(W5, allowed);
  }

  lemma Tour6(allowed: Location -> set<Action>)
    requires TourAllowed(allowed)
    ensures Step(W6, allowed) == Some((W7, Suck))
  {
    SquaresUpdate(Clean, Clean, Clean, Status.Unknown, Dirty);
    SquaresUpdate(Clean, Clean, Clean, Dirty, Clean);
    SuckStep(W6, allowed);
  }

  lemma Tour7(allowed: Location -> set<Action>)
    requires TourAllowed(allowed)
    ensures Step(W7, allowed) == Some((W8, NoOp))
  {
    SquaresUpdate(Clean, Clean, Clean, Dirty, Clean);
    SquaresAllClean(Clean, Clean, Clean, Clean);
    WaitStep(W7, allowed);
  }

  /** The first world of the tour is the demo's start. */
  lemma TourStart()
    ensures W0 == World(InitialModel, InitialState, A, BaseStates)
  {
    SquaresSame(InitialModel, W0.model);
    SquaresSame(BaseStates, W0.states);
  }

  /** From the demo's start (`TourStart`), eight `act` calls clean all four squares:
      suck and move right at A, suck and move down at B, suck and move left
      at C, suck at D; then, the model being all clean, the agent waits. */
  lemma CleansBaseWorld(allowed: Location -> set<Action>)
    requires TourAllowed(allowed)
    ensures Step(W0, allowed) == Some((W1, Suck)) && Step(W1, allowed) == Some((W2, Right))
    ensures Step(W2, allowed) == Some((W3, Suck)) && Step(W3, allowed) == Some((W4, Down))
    ensures Step(W4, allowed) == Some((W5, Suck)) && Step(W5, allowed) == Some((W6, Left))
    ensures Step(W6, allowed) == Some((W7, Suck)) && Step(W7, allowed) == Some((W8, NoOp))
    ensures W8.states == Cleaned
  {
    Tour0(allowed);
    Tour1(allowed);
    Tour2(allowed);
    Tour3(allowed);
    Tour4(allowed);
    Tour5(allowed);
    Tour6(allowed);
    Tour7(allowed);
  }
}
