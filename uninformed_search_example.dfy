/** The ten-state tree of `uninformed_search/search.py`'s `__main__`
    block, searched breadth-first from 'A' for 'J'. */
module UninformedSearchExample {
  import opened Wrappers
  import opened SeqUtil
  import opened UninformedSearch

  function Tree(): Space<char>
  {
    map['A' := ['B', 'C'], 'B' := ['D', 'E'], 'C' := ['F', 'G'], 'D' := [], 'E' := [],
        'F' := [], 'G' := ['H', 'I', 'J'], 'H' := [], 'I' := [], 'J' := []]
  }

  const A: Node<char> := Node('A', None, 0)
  const B: Node<char> := Node('B', Some(A), 1)
  const C: Node<char> := Node('C', Some(A), 1)
  const D: Node<char> := Node('D', Some(B), 2)
  const E: Node<char> := Node('E', Some(B), 2)
  const F: Node<char> := Node('F', Some(C), 2)
  const G: Node<char> := Node('G', Some(C), 2)
  const H: Node<char> := Node('H', Some(G), 3)
  const I: Node<char> := Node('I', Some(G), 3)
  const J: Node<char> := Node('J', Some(G), 3)

  /** One pass of the breadth-first loop: pop the head, which is not the
      goal, and append its children in `expand`'s order. */
  lemma BreadthFirstStep(fringe: seq<Node<char>>, kids: seq<Node<char>>, next: seq<Node<char>>, fuel: nat)
    requires fringe != [] && fuel > 0 && fringe[0].state != 'J' && fringe[0].state in Tree()
    requires kids == Reversed(Children(fringe[0], Tree()[fringe[0].state]))
    requires next == fringe[1..] + kids
    ensures Run(Tree(), 'J', false, fringe, fuel) == Run(Tree(), 'J', false, next, fuel - 1)
  {
  }

  lemma BreadthFirstStep1()
    ensures Run(Tree(), 'J', false, [A], 8) == Run(Tree(), 'J', false, [C, B], 7)
  {
    assert Reversed(Children(A, Tree()['A'])) == [C, B];
    BreadthFirstStep([A], [C, B], [C, B], 8);
  }

  lemma BreadthFirstStep2()
    ensures Run(Tree(), 'J', false, [C, B], 7) == Run(Tree(), 'J', false, [B, G, F], 6)
  {
    assert Reversed(Children(C, Tree()['C'])) == [G, F];
    BreadthFirstStep([C, B], [G, F], [B, G, F], 7);
  }

  lemma BreadthFirstStep3()
    ensures Run(Tree(), 'J', false, [B, G, F], 6) == Run(Tree(), 'J', false, [G, F, E, D], 5)
  {
    assert Reversed(Children(B, Tree()['B'])) == [E, D];
    BreadthFirstStep([B, G, F], [E, D], [G, F, E, D], 6);
  }

  lemma BreadthFirstStep4()
    ensures Run(Tree(), 'J', false, [G, F, E, D], 5) == Run(Tree(), 'J', false, [F, E, D, J, I, H], 4)
  {
    assert Reversed(Children(G, Tree()['G'])) == [J, I, H];
    BreadthFirstStep([G, F, E, D], [J, I, H], [F, E, D, J, I, H], 5);
  }

  lemma BreadthFirstStep5()
    ensures Run(Tree(), 'J', false, [F, E, D, J, I, H], 4) == Run(Tree(), 'J', false, [E, D, J, I, H], 3)
  {
    assert Reversed(Children(F, Tree()['F'])) == [];
    BreadthFirstStep([F, E, D, J, I, H], [], [E, D, J, I, H], 4);
  }

  lemma BreadthFirstStep6()
    ensures Run(Tree(), 'J', false, [E, D, J, I, H], 3) == Run(Tree(), 'J', false, [D, J, I, H], 2)
  {
    assert Reversed(Children(E, Tree()['E'])) == [];
    BreadthFirstStep([E, D, J, I, H], [], [D, J, I, H], 3);
  }

  lemma BreadthFirstStep7()
    ensures Run(Tree(), 'J', false, [D, J, I, H], 2) == Run(Tree(), 'J', false, [J, I, H], 1)
  {
    assert Reversed(Children(D, Tree()['D'])) == [];
    BreadthFirstStep([D, J, I, H], [], [J, I, H], 2);
  }

  /** `expand` lists children in reverse, so breadth-first search visits
      A, C, B, G, F, E, D and then pops J after seven expansions; the
      reported path runs J, G, C, A. */
  lemma BreadthFirstFindsJ()
    ensures Run(Tree(), 'J', false, [A], 8) == Found([J, G, C, A])
  {
    BreadthFirstStep1();
    BreadthFirstStep2();
    BreadthFirstStep3();
    BreadthFirstStep4();
    BreadthFirstStep5();
    BreadthFirstStep6();
    BreadthFirstStep7();
    assert PathOf(J) == [J, G, C, A];
  }

  /** One pass of the depth-first loop: pop the head, which is not the
      goal, and put its children in front, undoing `expand`'s reversal. */
  lemma DepthFirstStep(fringe: seq<Node<char>>, kids: seq<Node<char>>, next: seq<Node<char>>, fuel: nat)
    requires fringe != [] && fuel > 0 && fringe[0].state != 'J' && fringe[0].state in Tree()
    requires kids == Reversed(Children(fringe[0], Tree()[fringe[0].state]))
    requires next == Reversed(kids) + fringe[1..]
    ensures Run(Tree(), 'J', true, fringe, fuel) == Run(Tree(), 'J', true, next, fuel - 1)
  {
  }

  lemma DepthFirstStep1()
    ensures Run(Tree(), 'J', true, [A], 10) == Run(Tree(), 'J', true, [B, C], 9)
  {
    assert Reversed(Children(A, Tree()['A'])) == [C, B];
    assert Reversed([C, B]) == [B, C];
    DepthFirstStep([A], [C, B], [B, C], 10);
  }

  lemma DepthFirstStep2()
    ensures Run(Tree(), 'J', true, [B, C], 9) == Run(Tree(), 'J', true, [D, E, C], 8)
  {
    assert Reversed(Children(B, Tree()['B'])) == [E, D];
    assert Reversed([E, D]) == [D, E];
    DepthFirstStep([B, C], [E, D], [D, E, C], 9);
  }

  lemma DepthFirstStep3()
    ensures Run(Tree(), 'J', true, [D, E, C], 8) == Run(Tree(), 'J', true, [E, C], 7)
  {
    assert Reversed(Children(D, Tree()['D'])) == [];
    DepthFirstStep([D, E, C], [], [E, C], 8);
  }

  lemma DepthFirstStep4()
    ensures Run(Tree(), 'J', true, [E, C], 7) == Run(Tree(), 'J', true, [C], 6)
  {
    assert Reversed(Children(E, Tree()['E'])) == [];
    DepthFirstStep([E, C], [], [C], 7);
  }

  lemma DepthFirstStep5()
    ensures Run(Tree(), 'J', true, [C], 6) == Run(Tree(), 'J', true, [F, G], 5)
  {
    assert Reversed(Children(C, Tree()['C'])) == [G, F];
    assert Reversed([G, F]) == [F, G];
    DepthFirstStep([C], [G, F], [F, G], 6);
  }

  lemma DepthFirstStep6()
    ensures Run(Tree(), 'J', true, [F, G], 5) == Run(Tree(), 'J', true, [G], 4)
  {
    assert Reversed(Children(F, Tree()['F'])) == [];
    DepthFirstStep([F, G], [], [G], 5);
  }

  lemma DepthFirstStep7()
    ensures Run(Tree(), 'J', true, [G], 4) == Run(Tree(), 'J', true, [H, I, J], 3)
  {
    assert Reversed(Children(G, Tree()['G'])) == [J, I, H];
    assert Reversed([J, I, H]) == [H, I, J];
    DepthFirstStep([G], [J, I, H], [H, I, J], 4);
  }

  lemma DepthFirstStep8()
    ensures Run(Tree(), 'J', true, [H, I, J], 3) == Run(Tree(), 'J', true, [I, J], 2)
  {
    assert Reversed(Children(H, Tree()['H'])) == [];
    DepthFirstStep([H, I, J], [], [I, J], 3);
  }

  lemma DepthFirstStep9()
    ensures Run(Tree(), 'J', true, [I, J], 2) == Run(Tree(), 'J', true, [J], 1)
  {
    assert Reversed(Children(I, Tree()['I'])) == [];
    DepthFirstStep([I, J], [], [J], 2);
  }

  /** Depth-first search from A visits A, B, D, E, C, F, G, H, I and pops J
      after 9 expansions, reporting the same path. */
  lemma DepthFirstFindsJ()
    ensures Run(Tree(), 'J', true, [A], 10) == Found([J, G, C, A])
  {
    DepthFirstStep1();
    DepthFirstStep2();
    DepthFirstStep3();
    DepthFirstStep4();
    DepthFirstStep5();
    DepthFirstStep6();
    DepthFirstStep7();
    DepthFirstStep8();
    DepthFirstStep9();
    assert PathOf(J) == [J, G, C, A];
  }

  /** `searcher.run` in both modes reports the path J, G, C, A. */
  method SearchBothWays() returns (dfs: Outcome<char>, bfs: Outcome<char>)
    ensures dfs == Found([J, G, C, A]) && bfs == Found([J, G, C, A])
  {
    DepthFirstFindsJ();
    BreadthFirstFindsJ();
    var searcher := Searcher('A', 'J', Tree());
    dfs := TreeSearch(searcher, true, 10);
    bfs := TreeSearch(searcher, false, 8);
  }
}
