/** Two small colouring problems that show how the solvers behave: a
    triangle with two colours, on which AC-3 removes nothing and only the
    search detects that there is no solution, and two unrelated variables,
    on which the deterministic value order picks the first colour twice. */
module CspScenarios {
  import opened Wrappers
  import opened CspModel
  import opened CspArc
  import CspPlain
  import opened SouthAmerica

  /** Three mutually adjacent variables, each with the domain [Red, Green]. */
  function Triangle(): Csp<int, Colour>
  {
    Csp([0, 1, 2],
        map[0 := [Red, Green], 1 := [Red, Green], 2 := [Red, Green]],
        map[0 := [1, 2], 1 := [0, 2], 2 := [0, 1]],
        map[0 := ColouringConstraint, 1 := ColouringConstraint, 2 := ColouringConstraint])
  }

  lemma TriangleSymmetric()
    ensures Triangle().Valid() && Triangle().SymmetricNeighbours() && Triangle().Symmetric()
  {
    TriangleValid();
    TriangleNeighbours();
    ColouringSymmetric(Triangle());
  }

  lemma TriangleValid()
    ensures Triangle().Valid()
  {
    var t := Triangle();
    forall v, n | v in t.variables && v in t.neighbours && n in t.neighbours[v]
      ensures n in t.variables && n != v
    {
      assert v == 0 || v == 1 || v == 2;
    }
  }

  lemma TriangleNeighbours()
    requires Triangle().Valid()
    ensures Triangle().SymmetricNeighbours()
    ensures forall v :: v in Triangle().variables ==> Triangle().constraints[v] == ColouringConstraint
  {
    var t := Triangle();
    var nb := t.neighbours;
    assert nb == map[0 := [1, 2], 1 := [0, 2], 2 := [0, 1]];
    forall a, b | a in t.variables && b in nb[a] ensures a in nb[b] {
      if a == 0 {
        assert b == 1 || b == 2;
      } else if a == 1 {
        assert b == 0 || b == 2;
      } else {
        assert b == 0 || b == 1;
      }
    }
  }

  /** Every arc of the triangle is consistent: each colour of one end has
      the other colour as support at the other end. */
  lemma TriangleArcConsistent()
    ensures Triangle().Valid() && Covers(Triangle(), Triangle().domains)
    ensures ArcConsistent(Triangle(), Triangle().domains)
  {
    var t := Triangle();
    TriangleSymmetric();
    forall xi, xj | xi in t.variables && xj in t.neighbours[xi]
      ensures ArcOK(t, t.domains, xi, xj)
    {
      TriangleArc(xi, xj);
    }
  }

  lemma TriangleArc(xi: int, xj: int)
    requires 0 <= xi < 3 && 0 <= xj < 3
    ensures ArcOK(Triangle(), Triangle().domains, xi, xj)
  {
    var t := Triangle();
    assert t.domains[xi] == [Red, Green] && t.domains[xj] == [Red, Green];
    assert t.constraints[xi] == ColouringConstraint;
    OtherColourSupports(t, xi, xj, [Red, Green]);
  }

  /** Under the colouring constraint, each of two colours is supported by the other. */
  lemma OtherColourSupports(csp: Csp<int, Colour>, xi: int, xj: int, ys: seq<Colour>)
    requires xi in csp.constraints && csp.constraints[xi] == ColouringConstraint
    requires ys == [Red, Green]
    ensures forall x :: x in ys ==> HasSupport(csp, xi, x, xj, ys)
  {
    assert ColouringConstraint(xi, Red, xj, Green) && ColouringConstraint(xi, Green, xj, Red);
    assert csp.constraints[xi](xi, Red, xj, Green) && Green in ys;
    assert csp.constraints[xi](xi, Green, xj, Red) && Red in ys;
  }

  /** Of three values from [Red, Green] two are equal. */
  lemma TwoOfThree(a: Colour, b: Colour, c: Colour)
    requires a in [Red, Green] && b in [Red, Green] && c in [Red, Green]
    ensures a == b || a == c || b == c
  {
  }

  /** Two colours cannot colour a triangle. */
  lemma TriangleUncolourable()
    ensures forall s :: !Admits(Triangle(), Triangle().domains, s)
  {
    var t := Triangle();
    forall s ensures !Admits(t, t.domains, s) {
      if 0 in s && 1 in s && 2 in s && s[0] in t.domains[0] && s[1] in t.domains[1] && s[2] in t.domains[2] {
        TwoOfThree(s[0], s[1], s[2]);
        assert !(t.constraints[0](0, s[0], 1, s[1]) && t.constraints[0](0, s[0], 2, s[2])
                 && t.constraints[1](1, s[1], 2, s[2]));
      }
    }
  }

  /** On the triangle AC-3 reports success and leaves the domains alone;
      the search that follows finds nothing, with or without forward checking. */
  method TriangleScenario(useForwardChecking: bool) returns (ac3Ok: bool, found: bool)
    ensures ac3Ok && !found
  {
    TriangleArcConsistent();
    TriangleSymmetric();
    TriangleUncolourable();
    var t := Triangle();
    var d := new DomainStore(t.domains);
    ac3Ok := AC3(t, d);
    var r := BacktrackingSearch(t, useForwardChecking, true);
    found := r != null;
    ghost var got := if found then r.values else map[];
    assert !Admits(t, t.domains, got);
  }

  /** Two variables with the domain [Red, Green] and no neighbours. */
  function Unrelated(): Csp<int, Colour>
  {
    Csp([0, 1],
        map[0 := [Red, Green], 1 := [Red, Green]],
        map[0 := [], 1 := []],
        map[0 := ColouringConstraint, 1 := ColouringConstraint])
  }

  /** Values are tried in domain order, so both variables get Red. */
  lemma UnrelatedBothRed()
    ensures Unrelated().Valid()
    ensures CspPlain.PlainSearch(Unrelated(), map[]) == Some(map[0 := Red, 1 := Red])
  {
    var u := Unrelated();
    assert u.Valid();
    var a1 := map[0 := Red];
    var a2 := map[0 := Red, 1 := Red];
    assert u.VarSet() == {0, 1};
    assert CspPlain.PlainSearch(u, a2) == Some(a2) by {
      assert |a2| == 2;
    }
    assert CspPlain.TryPlain(u, a1, 1, [Red, Green]) == Some(a2) by {
      assert IsConsistent(u, 1, Red, a1);
      assert a1[1 := Red] == a2;
    }
    assert CspPlain.PlainSearch(u, a1) == Some(a2) by {
      assert |a1| == 1;
      assert SelectUnassigned(u, a1) == Some(1);
    }
    assert CspPlain.TryPlain(u, map[], 0, [Red, Green]) == Some(a2) by {
      assert map[][0 := Red] == a1;
    }
    assert SelectUnassigned(u, map[]) == Some(0);
  }
}
