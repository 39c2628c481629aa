/** The map-colouring problem both CSP scripts build and solve in `main`:
    the twelve states of South America (`states.py`), four colours, the
    colouring constraint on every state. */
module SouthAmerica {
  import opened CspModel
  import opened CspArc
  import CspPlain

  /** `SAStates`: an enumeration whose members carry the values 1 to 12. */
  newtype SAState = x: int | 1 <= x <= 12 witness 1

  const ARG: SAState := 1
  const BOL: SAState := 2
  const BRA: SAState := 3
  const CHI: SAState := 4
  const COL: SAState := 5
  const ECU: SAState := 6
  const GUY: SAState := 7
  const PAR: SAState := 8
  const PER: SAState := 9
  const SUR: SAState := 10
  const URU: SAState := 11
  const VEN: SAState := 12

  datatype Colour = Red | Green | Blue | Yellow

  /** `list(SAStates)`: the states in declaration order. */
  const States: seq<SAState> := [ARG, BOL, BRA, CHI, COL, ECU, GUY, PAR, PER, SUR, URU, VEN]

  /** The four colours every state may take. */
  const Palette: seq<Colour> := [Red, Green, Blue, Yellow]

  /** The neighbour list of each state in the fixture. */
  function BordersOf(v: SAState): seq<SAState>
  {
    if v == ARG then [BOL, BRA, CHI, PAR, URU]
    else if v == BOL then [ARG, BRA, CHI, PAR, PER]
    else if v == BRA then [ARG, BOL, COL, GUY, PAR, PER, SUR, URU, VEN]
    else if v == CHI then [ARG, BOL, PER]
    else if v == COL then [BRA, ECU, PER, VEN]
    else if v == ECU then [COL, PER]
    else if v == GUY then [BRA, SUR, VEN]
    else if v == PAR then [ARG, BOL, BRA]
    else if v == PER then [BOL, BRA, CHI, COL, ECU]
    else if v == SUR then [BRA, GUY]
    else if v == URU then [ARG, BRA]
    else [BRA, COL, GUY]
  }

  /** `create_south_america_csp`. */
  function Problem(): Csp<SAState, Colour>
  {
    Csp(States,
        map v | v in States :: Palette,
        map v | v in States :: BordersOf(v),
        map v | v in States :: ColouringConstraint)
  }

  /** `list(SAStates)` lists the members by value. */
  lemma StatesInOrder()
    ensures |States| == 12
    ensures forall i :: 0 <= i < |States| ==> States[i] as int == i + 1
  {
  }

  /** Every state is listed. */
  lemma Listed(v: SAState)
    ensures v in States
  {
    StatesInOrder();
    assert States[v as int - 1] == v;
  }

  /** No state borders itself, every border is listed from both sides, and
      `ColourOf` gives bordering states different colours. Checked two
      states at a time. */
  lemma BorderFacts(a: SAState, b: SAState)
    requires b in BordersOf(a)
    ensures a != b && a in BordersOf(b) && ColourOf(a) != ColourOf(b)
  {
    if a <= BOL {
      BorderFactsArgBol(a, b);
    } else if a <= CHI {
      BorderFactsBraChi(a, b);
    } else if a <= ECU {
      BorderFactsColEcu(a, b);
    } else if a <= PAR {
      BorderFactsGuyPar(a, b);
    } else if a <= SUR {
      BorderFactsPerSur(a, b);
    } else {
      BorderFactsUruVen(a, b);
    }
  }

  lemma BorderFactsArgBol(a: SAState, b: SAState)
    requires a <= BOL && b in BordersOf(a)
    ensures a != b && a in BordersOf(b) && ColourOf(a) != ColourOf(b)
  {
  }

  lemma BorderFactsBraChi(a: SAState, b: SAState)
    requires BOL < a && a <= CHI && b in BordersOf(a)
    ensures a != b && a in BordersOf(b) && ColourOf(a) != ColourOf(b)
  {
  }

  lemma BorderFactsColEcu(a: SAState, b: SAState)
    requires CHI < a && a <= ECU && b in BordersOf(a)
    ensures a != b && a in BordersOf(b) && ColourOf(a) != ColourOf(b)
  {
  }

  lemma BorderFactsGuyPar(a: SAState, b: SAState)
    requires ECU < a && a <= PAR && b in BordersOf(a)
    ensures a != b && a in BordersOf(b) && ColourOf(a) != ColourOf(b)
  {
  }

  lemma BorderFactsPerSur(a: SAState, b: SAState)
    requires PAR < a && a <= SUR && b in BordersOf(a)
    ensures a != b && a in BordersOf(b) && ColourOf(a) != ColourOf(b)
  {
  }

  lemma BorderFactsUruVen(a: SAState, b: SAState)
    requires SUR < a && a <= VEN && b in BordersOf(a)
    ensures a != b && a in BordersOf(b) && ColourOf(a) != ColourOf(b)
  {
  }

  /** The fixture is a well-formed problem. */
  lemma ProblemValid()
    ensures Problem().Valid()
  {
    var p := Problem();
    StatesInOrder();
    forall v, n | v in States && n in p.neighbours[v] ensures n in States && n != v {
      Listed(n);
      BorderFacts(v, n);
    }
  }

  /** Its border relation is symmetric, hence so is the whole problem. */
  lemma ProblemSymmetric()
    ensures Problem().Valid() && Problem().SymmetricNeighbours() && Problem().Symmetric()
  {
    ProblemValid();
    var p := Problem();
    forall a, b | a in States && b in p.neighbours[a] ensures a in p.neighbours[b] {
      Listed(b);
      BorderFacts(a, b);
    }
    ColouringSymmetric(p);
  }

  /** A colour for each state. */
  function ColourOf(v: SAState): Colour
  {
    if v == ARG then Red
    else if v == BOL then Green
    else if v == BRA then Blue
    else if v == CHI then Blue
    else if v == COL then Red
    else if v == ECU then Green
    else if v == GUY then Red
    else if v == PAR then Yellow
    else if v == PER then Yellow
    else Green
  }

  /** A colouring in which no two bordering states share a colour. */
  function Witness(): map<SAState, Colour>
  {
    map v | v in States :: ColourOf(v)
  }

  /** No two bordering states share a colour, and every state is coloured. */
  lemma WitnessColours()
    ensures IsSolution(Problem(), Witness())
  {
    var p := Problem();
    var s := Witness();
    forall a, b | a in s && b in s && a in p.neighbours && a in p.constraints && b in p.neighbours[a]
      ensures p.constraints[a](a, s[a], b, s[b])
    {
      BorderFacts(a, b);
    }
    assert s.Keys == p.VarSet();
  }

  /** Every colour is taken from the state's domain. */
  lemma WitnessDrawn()
    ensures DrawnFrom(Witness(), map[], Problem().domains)
  {
    var p := Problem();
    var s := Witness();
    forall v | v in s ensures v in p.domains && s[v] in p.domains[v] {
      assert s[v] == ColourOf(v);
    }
  }

  lemma WitnessAdmitted()
    ensures Problem().Valid()
    ensures Admits(Problem(), Problem().domains, Witness())
  {
    ProblemValid();
    WitnessColours();
    WitnessDrawn();
  }

  /** The plain search that `csp_sa.py` runs from `main` finds a colouring,
      with or without forward checking. */
  lemma SearchColours(fc: bool)
    ensures Problem().Valid() && Covers(Problem(), Problem().domains)
    ensures Search(Problem(), map[], Problem().domains, fc).Some?
  {
    WitnessAdmitted();
    SearchExhaustive(Problem(), map[], Problem().domains, fc, Witness());
  }

  /** `main` of `csp_sa_arc.py`: AC-3 and forward checking together return
      a solution, so the script prints a colouring and never
      "No solution found.". */
  method SolveWithAc3AndForwardChecking() returns (coloured: map<SAState, Colour>)
    ensures IsSolution(Problem(), coloured)
    ensures forall a, b :: a in coloured && b in BordersOf(a) ==> b in coloured && coloured[a] != coloured[b]
    ensures forall v :: v in coloured ==> coloured[v] in Palette
  {
    WitnessAdmitted();
    ProblemSymmetric();
    var p := Problem();
    var r := BacktrackingSearch(p, true, true);
    ColouringSymmetric(p);
    coloured := r.values;
  }

  /** `main` of `csp_sa.py`: the plain search returns a colouring. */
  method SolvePlain() returns (coloured: map<SAState, Colour>)
    ensures IsSolution(Problem(), coloured)
    ensures DrawnFrom(coloured, map[], Problem().domains)
  {
    WitnessAdmitted();
    ProblemSymmetric();
    var r := CspPlain.BacktrackingSearch(Problem());
    coloured := r.values;
  }
}
