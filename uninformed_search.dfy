/** `uninformed_search/search.py`: tree search (depth-first or
    breadth-first) over a state space given as a successor dictionary,
    using list-based fringe primitives. */
module UninformedSearch {
  import opened Wrappers
  import opened SeqUtil

  /** A search node. Its fields are set by the constructor and never
      reassigned, so it is a value; the parent link makes it a chain back
      to the root. */
  datatype Node<S> = Node(state: S, parent: Option<Node<S>>, depth: int)

  /** The `StateSpace` dictionary: each state's successor list. */
  type Space<S(==)> = map<S, seq<S>>

  /** A `Searcher`: its three fields are never reassigned. */
  datatype Searcher<S(==)> = Searcher(initial: S, goal: S, space: Space<S>)

  // ---------------------------------------------------------------------
  // insert, insert_all, remove_first

  /** `insert`: a new list with `n` at the front (depth-first) or at the back
      (breadth-first); the input list is not changed. */
  function Insert<S>(n: Node<S>, q: seq<Node<S>>, first: bool): (r: seq<Node<S>>)
    ensures |r| == |q| + 1
    ensures first ==> r[0] == n && r[1..] == q
    ensures !first ==> r[..|q|] == q && r[|q|] == n
    ensures multiset(r) == multiset(q) + multiset{n}
  {
    if first then [n] + q else q + [n]
  }

  /** What `insert_all` returns: inserting one node after the other at the
      front reverses them. */
  function InsertAllSpec<S>(nodes: seq<Node<S>>, q: seq<Node<S>>, first: bool): seq<Node<S>>
  {
    if first then Reversed(nodes) + q else q + nodes
  }

  /** `insert_all`: repeated `insert`. */
  method InsertAll<S>(nodes: seq<Node<S>>, queue: seq<Node<S>>, first: bool) returns (r: seq<Node<S>>)
    ensures r == InsertAllSpec(nodes, queue, first)
    ensures |r| == |nodes| + |queue|
  {
    r := queue;
    for i := 0 to |nodes|
      invariant r == InsertAllSpec(nodes[..i], queue, first)
    {
      InsertAllStep(nodes, queue, first, i);
      r := Insert(nodes[i], r, first);
    }
    assert nodes[..|nodes|] == nodes;
  }

  lemma InsertAllStep<S>(nodes: seq<Node<S>>, queue: seq<Node<S>>, first: bool, i: int)
    requires 0 <= i < |nodes|
    ensures InsertAllSpec(nodes[..i + 1], queue, first) == Insert(nodes[i], InsertAllSpec(nodes[..i], queue, first), first)
  {
    assert nodes[..i + 1] == nodes[..i] + [nodes[i]];
    if first {
      assert Reversed(nodes[..i + 1]) == [nodes[i]] + Reversed(nodes[..i]);
    }
  }

  /** The fringe list that `remove_first` pops in place. */
  class Fringe<S> {
    var items: seq<Node<S>>

    constructor ()
      ensures items == []
    {
      items := [];
    }

    /** `remove_first`: `pop(0)`, the head is returned and the tail stays in order. */
    method RemoveFirst() returns (n: Node<S>)
      requires items != []
      modifies this
      ensures n == old(items[0]) && items == old(items[1..])
      ensures |items| == |old(items)| - 1
    {
      n := items[0];
      items := items[1..];
    }
  }

  // ---------------------------------------------------------------------
  // Node.path and Node.expand

  /** The list `Node.path` builds: this node first, then each parent up to
      the root (the opposite of its docstring's root-first wording). It is
      the same walk up the parent links as `GraphSearch.Chain`, over this
      file's own node type, which also records the action and the depth. */
  function PathOf<S>(n: Node<S>): (p: seq<Node<S>>)
    ensures p != [] && p[0] == n
    decreases n
  {
    [n] + (if n.parent.Some? then PathOf(n.parent.value) else [])
  }

  /** `Node.path`: a loop following the parent links. */
  method Path<S>(n: Node<S>) returns (p: seq<Node<S>>)
    ensures p == PathOf(n)
  {
    var current := n;
    p := [n];
    while current.parent.Some?
      invariant p != [] && p + PathOf(current)[1..] == PathOf(n)
      decreases current
    {
      PathStep(p, current);
      current := current.parent.value;
      p := p + [current];
    }
  }

  lemma PathStep<S>(p: seq<Node<S>>, c: Node<S>)
    requires c.parent.Some?
    ensures p + PathOf(c)[1..] == (p + [c.parent.value]) + PathOf(c.parent.value)[1..]
  {
    assert PathOf(c)[1..] == PathOf(c.parent.value);
    assert PathOf(c.parent.value) == [c.parent.value] + PathOf(c.parent.value)[1..];
  }

  /** `n` hangs from the root node of state `init` through edges of `space`,
      each child one deeper than its parent: what `expand` builds. */
  predicate Rooted<S(==)>(n: Node<S>, space: Space<S>, init: S)
    decreases n
  {
    match n.parent
    case None => n == Node(init, None, 0)
    case Some(p) => p.state in space && n.state in space[p.state] && n.depth == p.depth + 1 && Rooted(p, space, init)
  }

  /** `p` runs from a node back to the root along parent links and state-space edges. */
  ghost predicate ParentChain<S>(p: seq<Node<S>>, space: map<S, seq<S>>)
  {
    forall i, j :: 0 <= i && j == i + 1 && j < |p| ==> Link(p[i], p[j], space)
  }

  /** `child` was created by expanding `parent`. */
  predicate Link<S(==)>(child: Node<S>, parent: Node<S>, space: Space<S>)
  {
    child.parent == Some(parent) && parent.state in space && child.state in space[parent.state]
  }

  /** For a rooted node the path has `depth + 1` entries, ends at the root
      and follows parent links and edges throughout. */
  lemma {:induction false} PathOfRooted<S>(n: Node<S>, space: Space<S>, init: S)
    requires Rooted(n, space, init)
    ensures |PathOf(n)| == n.depth + 1
    ensures PathOf(n)[|PathOf(n)| - 1] == Node(init, None, 0)
    ensures ParentChain(PathOf(n), space)
    decreases n
  {
    if n.parent.Some? {
      var q := n.parent.value;
      PathOfRooted(q, space, init);
      var p := PathOf(n);
      assert p == [n] + PathOf(q);
      forall i, j | 0 <= i && j == i + 1 && j < |p| ensures Link(p[i], p[j], space) {
        if i > 0 {
          assert p[i] == PathOf(q)[i - 1] && p[j] == PathOf(q)[j - 1];
        } else {
          assert p[0] == n && p[1] == q;
        }
      }
    }
  }

  /** The child nodes `expand` creates, in successor order. */
  function Children<S>(n: Node<S>, states: seq<S>): (cs: seq<Node<S>>)
    ensures |cs| == |states|
  {
    seq(|states|, i requires 0 <= i < |states| => Node(states[i], Some(n), n.depth + 1))
  }

  /** `expand`: one child per successor, each inserted at the front, so the
      list comes out in reverse successor order. A state without an entry is
      a `KeyError` in the source; callers check for it. */
  method Expand<S(==)>(n: Node<S>, space: Space<S>) returns (succ: seq<Node<S>>)
    requires n.state in space
    ensures succ == Reversed(Children(n, space[n.state]))
    ensures |succ| == |space[n.state]|
    ensures forall i :: 0 <= i < |succ| ==>
      succ[i] == Node(space[n.state][|succ| - 1 - i], Some(n), n.depth + 1)
  {
    var children := space[n.state];
    succ := [];
    for i := 0 to |children|
      invariant succ == Reversed(Children(n, children[..i]))
    {
      ExpandStep(n, children, i);
      succ := Insert(Node(children[i], Some(n), n.depth + 1), succ, true);
    }
    assert children[..|children|] == children;
  }

  lemma ExpandStep<S>(n: Node<S>, children: seq<S>, i: int)
    requires 0 <= i < |children|
    ensures Reversed(Children(n, children[..i + 1])) ==
      [Node(children[i], Some(n), n.depth + 1)] + Reversed(Children(n, children[..i]))
  {
    assert Children(n, children[..i + 1]) == Children(n, children[..i]) + [Node(children[i], Some(n), n.depth + 1)];
  }

  /** Children of a rooted node are rooted. */
  lemma ChildrenRooted<S>(n: Node<S>, space: Space<S>, init: S)
    requires Rooted(n, space, init) && n.state in space
    ensures forall c :: c in Reversed(Children(n, space[n.state])) ==> Rooted(c, space, init)
  {
    var cs := Children(n, space[n.state]);
    forall c | c in Reversed(cs) ensures Rooted(c, space, init) {
      var k :| 0 <= k < |cs| && Reversed(cs)[k] == c;
      assert c == cs[|cs| - 1 - k];
    }
  }

  // ---------------------------------------------------------------------
  // tree_search

  datatype Outcome<S> =
    | Found(path: seq<Node<S>>)  // `node.path()` of the first goal node popped
    | Exhausted                  // the fringe ran empty: the implicit `None`
    | MissingState(state: S)     // `expand` on a state with no entry: a `KeyError`
    | OutOfFuel                  // the step bound ran out first

  /** The `while fringe` loop of `tree_search` on a fringe given as a value,
      allowed at most `fuel` more pops. */
  function Run<S(==)>(space: Space<S>, goal: S, first: bool, fringe: seq<Node<S>>, fuel: nat): Outcome<S>
    decreases fuel
  {
    if fringe == [] then Exhausted
    else if fuel == 0 then OutOfFuel
    else
      var node := fringe[0];
      if node.state == goal then Found(PathOf(node))
      else if node.state !in space then MissingState(node.state)
      else Run(space, goal, first, InsertAllSpec(Reversed(Children(node, space[node.state])), fringe[1..], first), fuel - 1)
  }

  /** A path the search reports starts at a goal node, ends at the initial
      node and follows parent links and state-space edges, one node per level. */
  lemma {:induction false} RunFound<S>(space: Space<S>, goal: S, init: S, first: bool, fringe: seq<Node<S>>, fuel: nat)
    requires forall i :: 0 <= i < |fringe| ==> Rooted(fringe[i], space, init)
    requires Run(space, goal, first, fringe, fuel).Found?
    ensures var p := Run(space, goal, first, fringe, fuel).path;
      && p != [] && p[0].state == goal
      && p[|p| - 1] == Node(init, None, 0)
      && |p| == p[0].depth + 1
      && ParentChain(p, space)
    decreases fuel
  {
    var node := fringe[0];
    if node.state == goal {
      PathOfRooted(node, space, init);
    } else {
      NextRooted(space, init, first, fringe);
      RunFound(space, goal, init, first, InsertAllSpec(Reversed(Children(node, space[node.state])), fringe[1..], first), fuel - 1);
    }
  }

  /** Expanding the head of a rooted fringe gives a rooted fringe. */
  lemma NextRooted<S>(space: Space<S>, init: S, first: bool, fringe: seq<Node<S>>)
    requires fringe != [] && fringe[0].state in space
    requires forall i :: 0 <= i < |fringe| ==> Rooted(fringe[i], space, init)
    ensures var next := InsertAllSpec(Reversed(Children(fringe[0], space[fringe[0].state])), fringe[1..], first);
      forall i :: 0 <= i < |next| ==> Rooted(next[i], space, init)
  {
    var node := fringe[0];
    var kids := Reversed(Children(node, space[node.state]));
    ChildrenRooted(node, space, init);
    var next := InsertAllSpec(kids, fringe[1..], first);
    forall i | 0 <= i < |next| ensures Rooted(next[i], space, init) {
      FringeMember(kids, fringe, first, i);
    }
  }

  lemma FringeMember<S>(kids: seq<Node<S>>, fringe: seq<Node<S>>, first: bool, i: int)
    requires fringe != []
    requires 0 <= i < |InsertAllSpec(kids, fringe[1..], first)|
    ensures var x := InsertAllSpec(kids, fringe[1..], first)[i];
      x in kids || exists j :: 1 <= j < |fringe| && x == fringe[j]
  {
    var next := InsertAllSpec(kids, fringe[1..], first);
    if first {
      if i < |kids| {
        assert next[i] == Reversed(kids)[i] == kids[|kids| - 1 - i];
      } else {
        assert next[i] == fringe[1..][i - |kids|];
      }
    } else if i >= |fringe| - 1 {
      assert next[i] == kids[i - (|fringe| - 1)];
    } else {
      assert next[i] == fringe[1..][i];
    }
  }

  /** `tree_search`, with at most `fuel` iterations of its loop. */
  method TreeSearch<S(==)>(searcher: Searcher<S>, first: bool, fuel: nat) returns (result: Outcome<S>)
    ensures result == Run(searcher.space, searcher.goal, first, [Node(searcher.initial, None, 0)], fuel)
  {
    var fringe := new Fringe();
    var initialNode := Node(searcher.initial, None, 0);
    fringe.items := Insert(initialNode, fringe.items, first);
    ghost var start := fringe.items;
    assert start == [initialNode];
    var steps := fuel;
    while fringe.items != []
      invariant Run(searcher.space, searcher.goal, first, fringe.items, steps) ==
                Run(searcher.space, searcher.goal, first, start, fuel)
      decreases steps
    {
      if steps == 0 {
        return OutOfFuel;
      }
      ghost var before := fringe.items;
      var node := fringe.RemoveFirst();
      if node.state == searcher.goal {
        var p := Path(node);
        return Found(p);
      }
      if node.state !in searcher.space {
        return MissingState(node.state);
      }
      var children := Expand(node, searcher.space);
      fringe.items := InsertAll(children, fringe.items, first);
      RunStep(searcher.space, searcher.goal, first, before, steps);
      steps := steps - 1;
    }
    return Exhausted;
  }

  /** One pass of the loop: the head is neither a goal nor missing, so the
      run goes on from the expanded fringe with one pop fewer. */
  lemma RunStep<S>(space: Space<S>, goal: S, first: bool, fringe: seq<Node<S>>, fuel: nat)
    requires fringe != [] && fuel > 0 && fringe[0].state != goal && fringe[0].state in space
    ensures Run(space, goal, first, fringe, fuel) ==
      Run(space, goal, first, InsertAllSpec(Reversed(Children(fringe[0], space[fringe[0].state])), fringe[1..], first), fuel - 1)
  {
  }

  /** Whatever `tree_search` returns is either "nothing found" or a path from
      a goal node back to the initial node. */
  lemma TreeSearchFound<S>(searcher: Searcher<S>, first: bool, fuel: nat)
    requires Run(searcher.space, searcher.goal, first, [Node(searcher.initial, None, 0)], fuel).Found?
    ensures var p := Run(searcher.space, searcher.goal, first, [Node(searcher.initial, None, 0)], fuel).path;
      && p != [] && p[0].state == searcher.goal
      && p[|p| - 1].state == searcher.initial
      && |p| == p[0].depth + 1
      && ParentChain(p, searcher.space)
  {
    RunFound(searcher.space, searcher.goal, searcher.initial, first, [Node(searcher.initial, None, 0)], fuel);
  }
}
