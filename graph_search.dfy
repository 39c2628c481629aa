/** `informed_search/graph_search.py`: greedy best-first search and A*
    search over a successor dictionary, with a min-f priority queue. */
module GraphSearch {
  import opened Wrappers
  import opened SeqUtil

  /** A search node. Its fields are set once by the constructor, so it is a
      value; `f` is stored, as in the source. */
  datatype Node<S> = Node(state: S, parent: Option<Node<S>>, g: int, h: int, f: int)

  /** `Node(state, parent, g, h)`: the constructor fills in `f = g + h`. */
  function MakeNode<S>(state: S, parent: Option<Node<S>>, g: int, h: int): (n: Node<S>)
  {
    Node(state, parent, g, h, g + h)
  }

  /** `__lt__`: nodes are ordered by `f` alone. */
  predicate Less<S>(a: Node<S>, b: Node<S>)
  {
    a.f < b.f
  }

  // ---------------------------------------------------------------------
  // Node.path

  /** The node and its ancestors, this node first. */
  function Chain<S>(n: Node<S>): (c: seq<Node<S>>)
    ensures c != [] && c[0] == n
    decreases n
  {
    [n] + (if n.parent.Some? then Chain(n.parent.value) else [])
  }

  /** `Node.path`: collect the ancestors in a loop, then reverse, giving the
      path from the root to this node. */
  method Path<S>(n: Node<S>) returns (p: seq<Node<S>>)
    ensures p == Reversed(Chain(n))
  {
    var node := n;
    var result := [n];
    while node.parent.Some?
      invariant result != [] && result + Chain(node)[1..] == Chain(n)
      decreases node
    {
      ChainStep(result, node);
      node := node.parent.value;
      result := result + [node];
    }
    assert Chain(node) == [node];
    assert result == Chain(n);
    p := Reversed(result);
  }

  lemma ChainStep<S>(r: seq<Node<S>>, c: Node<S>)
    requires c.parent.Some?
    ensures r + Chain(c)[1..] == (r + [c.parent.value]) + Chain(c.parent.value)[1..]
  {
    assert Chain(c)[1..] == Chain(c.parent.value);
    assert Chain(c.parent.value) == [c.parent.value] + Chain(c.parent.value)[1..];
  }

  /** The path of a node with a parent is the parent's path followed by the node. */
  lemma PathSnoc<S>(n: Node<S>)
    requires n.parent.Some?
    ensures Reversed(Chain(n)) == Reversed(Chain(n.parent.value)) + [n]
  {
    var c := Chain(n.parent.value);
    assert Chain(n) == [n] + c;
    ReversedCons(n, c);
  }

  /** The root-first path starts at a parentless node, ends at `n`, and each
      entry is the parent of the next. */
  lemma {:induction false} PathShape<S>(n: Node<S>)
    ensures var p := Reversed(Chain(n));
      && p != [] && p[|p| - 1] == n && p[0].parent.None?
      && forall i :: 0 < i < |p| ==> p[i].parent == Some(p[i - 1])
    decreases n
  {
    if n.parent.Some? {
      PathShape(n.parent.value);
      PathSnoc(n);
    }
  }

  // ---------------------------------------------------------------------
  // The priority queue

  /** `PriorityQueue`: the heap list is abstracted to a multiset of nodes. */
  class PriorityQueue<S(==)> {
    var elements: multiset<Node<S>>

    constructor ()
      ensures elements == multiset{}
    {
      elements := multiset{};
    }

    /** `push`: `heappush`. */
    method Push(item: Node<S>)
      modifies this
      ensures elements == old(elements) + multiset{item}
    {
      elements := elements + multiset{item};
    }

    /** `pop`: `heappop` removes a node of least `f`; which one among equals
        is not specified. */
    method Pop() returns (item: Node<S>)
      requires elements != multiset{}
      modifies this
      ensures item in old(elements) && forall n :: n in old(elements) ==> item.f <= n.f
      ensures elements == old(elements) - multiset{item}
    {
      LeastExists(elements);
      item :| item in elements && forall n | n in elements :: item.f <= n.f;
      elements := elements - multiset{item};
    }

    /** `empty`. */
    predicate Empty()
      reads this
    {
      elements == multiset{}
    }
  }

  /** `x` is a node of least `f` in `m`. */
  ghost predicate IsLeast<S>(x: Node<S>, m: multiset<Node<S>>)
  {
    x in m && forall n :: n in m ==> x.f <= n.f
  }

  /** A non-empty multiset of nodes has one of least `f`. */
  lemma {:induction false} LeastExists<S>(m: multiset<Node<S>>)
    requires m != multiset{}
    ensures exists x :: IsLeast(x, m)
    decreases |m|
  {
    var z :| z in m;
    var rest := m - multiset{z};
    assert m == rest + multiset{z};
    if rest == multiset{} {
      LeastOfOne(z);
      assert m == multiset{z};
      assert IsLeast(z, m);
    } else {
      LeastExists(rest);
      var y :| IsLeast(y, rest);
      LeastOfAdd(y, z, rest);
      assert IsLeast(if z.f <= y.f then z else y, m);
    }
  }

  lemma LeastOfOne<S>(z: Node<S>)
    ensures IsLeast(z, multiset{z})
  {
    forall n | n in multiset{z} ensures z.f <= n.f {
      assert n == z;
    }
  }

  /** Adding `z` keeps the lesser of `z` and the old least node least. */
  lemma LeastOfAdd<S>(y: Node<S>, z: Node<S>, rest: multiset<Node<S>>)
    requires IsLeast(y, rest)
    ensures IsLeast(if z.f <= y.f then z else y, rest + multiset{z})
  {
    var x := if z.f <= y.f then z else y;
    forall n | n in rest + multiset{z} ensures x.f <= n.f {
      if n != z {
        assert n in rest;
      }
    }
  }

  // ---------------------------------------------------------------------
  // Outcomes and paths

  datatype Outcome<S> =
    | Found(path: seq<Node<S>>)  // `current.path()` for the first goal node popped
    | Exhausted                  // the frontier ran empty: the implicit `None`
    | MissingState(state: S)     // `state_space[current.state]` with no entry: a `KeyError`
    | OutOfFuel                  // the step bound ran out first

  /** `p` runs from `start` to `goal`, each step an edge of `space`. */
  ghost predicate WalksFrom<S>(p: seq<Node<S>>, start: S, goal: S, space: map<S, seq<S>>)
  {
    && p != [] && p[0].state == start && p[|p| - 1].state == goal
    && forall i, j :: 0 <= i && j == i + 1 && j < |p| ==> Edge(p[i], p[j], space)
  }

  /** `b`'s state is a successor of `a`'s. */
  ghost predicate Edge<S>(a: Node<S>, b: Node<S>, space: map<S, seq<S>>)
  {
    a.state in space && b.state in space[a.state]
  }

  /** A walk extended by an edge out of its last state is a walk. */
  lemma WalksSnoc<S>(p: seq<Node<S>>, x: Node<S>, start: S, space: map<S, seq<S>>)
    requires p != [] && WalksFrom(p, start, p[|p| - 1].state, space)
    requires p[|p| - 1].state in space && x.state in space[p[|p| - 1].state]
    ensures WalksFrom(p + [x], start, x.state, space)
  {
    var w := p + [x];
    assert w[0] == p[0] && w[|w| - 1] == x;
    forall i, j | 0 <= i && j == i + 1 && j < |w|
      ensures Edge(w[i], w[j], space)
    {
      if j < |p| {
        assert w[i] == p[i] && w[j] == p[j];
      }
    }
  }

  /** The sum of the step costs along `p`. */
  function StepCosts<S>(p: seq<Node<S>>, cost: (S, S) -> int): int
    decreases |p|
  {
    if |p| <= 1 then 0 else StepCosts(p[..|p| - 1], cost) + cost(p[|p| - 2].state, p[|p| - 1].state)
  }

  // ---------------------------------------------------------------------
  // Running out of frontier

  /** The states of the nodes in a frontier. */
  ghost function States<S>(m: multiset<Node<S>>): set<S>
  {
    set n | n in m :: n.state
  }

  /** `s` is the start or some listed successor: a state a search can
      reach without a `KeyError` first. */
  ghost predicate Listed<S>(s: S, start: S, space: map<S, seq<S>>)
  {
    s == start || exists r :: r in space && s in space[r]
  }

  /** What both searches keep while the frontier is not empty: the start is
      visited or queued, every visited state has successors, every successor
      of a visited state is visited or queued, and the goal is not visited. */
  ghost predicate Explored<S>(start: S, goal: S, visited: set<S>, m: multiset<Node<S>>, space: map<S, seq<S>>)
  {
    && (start in visited || start in States(m))
    && (forall s :: s in visited ==> s in space && forall t :: t in space[s] ==> t in visited || t in States(m))
    && goal !in visited
  }

  /** Popping a non-goal node, visiting its state and pushing `kids` keeps
      `Explored`, when every successor still unvisited gets a child. */
  lemma ExploredStep<S>(start: S, goal: S, visited: set<S>, m: multiset<Node<S>>, space: map<S, seq<S>>,
                        current: Node<S>, kids: seq<Node<S>>)
    requires Explored(start, goal, visited, m, space)
    requires current in m && current.state != goal && current.state in space
    requires forall t :: t in space[current.state] && t !in visited + {current.state} ==> t in States(multiset(kids))
    ensures Explored(start, goal, visited + {current.state}, m - multiset{current} + multiset(kids), space)
  {
    var v := visited + {current.state};
    var m' := m - multiset{current} + multiset(kids);
    forall t | t in States(m) ensures t in v || t in States(m') {
      var n :| n in m && n.state == t;
      if n != current {
        assert n in m';
      }
    }
    forall t | t in States(multiset(kids)) ensures t in States(m') {
      var n :| n in multiset(kids) && n.state == t;
      assert n in m';
    }
  }

  /** With the frontier empty, every walk from the start stays among the
      visited states. */
  lemma {:induction false} WalkStaysVisited<S>(p: seq<Node<S>>, k: nat, start: S, goal: S, visited: set<S>,
                                               space: map<S, seq<S>>)
    requires Explored(start, goal, visited, multiset{}, space)
    requires p != [] && WalksFrom(p, start, p[|p| - 1].state, space) && k < |p|
    ensures p[k].state in visited
    decreases k
  {
    if k == 0 {
      assert States<S>(multiset{}) == {};
    } else {
      WalkStaysVisited(p, k - 1, start, goal, visited, space);
      assert Edge(p[k - 1], p[k], space);
      assert States<S>(multiset{}) == {};
    }
  }

  /** `return None`: once the frontier is empty, no walk from the start
      reaches the goal. */
  lemma ExhaustedUnreachable<S>(start: S, goal: S, visited: set<S>, space: map<S, seq<S>>)
    requires Explored(start, goal, visited, multiset{}, space)
    ensures forall p :: !WalksFrom(p, start, goal, space)
  {
    forall p: seq<Node<S>> | p != [] && WalksFrom(p, start, p[|p| - 1].state, space)
      ensures p[|p| - 1].state != goal
    {
      WalkStaysVisited(p, |p| - 1, start, goal, visited, space);
    }
  }

  // ---------------------------------------------------------------------
  // Greedy best-first search

  /** Every node greedy search creates: `g = 0`, `h` from the heuristic,
      `f = g + h`, and a parent chain along edges back to the start node. */
  ghost predicate GreedyNode<S>(n: Node<S>, start: S, space: map<S, seq<S>>, hf: S -> int)
    decreases n
  {
    && n.g == 0 && n.h == hf(n.state) && n.f == n.g + n.h
    && match n.parent
       case None => n.state == start
       case Some(p) => p.state in space && n.state in space[p.state] && GreedyNode(p, start, space, hf)
  }

  /** The nodes the inner loop of greedy search pushes: one per neighbour
      not yet visited, in neighbour order. */
  function GreedyChildren<S(==)>(current: Node<S>, ns: seq<S>, visited: set<S>, hf: S -> int): seq<Node<S>>
    decreases |ns|
  {
    if ns == [] then []
    else GreedyChild(current, ns[0], visited, hf) + GreedyChildren(current, ns[1..], visited, hf)
  }

  /** The node greedy search pushes for one neighbour `x` of `current`, if any. */
  function GreedyChild<S(==)>(current: Node<S>, x: S, visited: set<S>, hf: S -> int): seq<Node<S>>
  {
    if x !in visited then [MakeNode(x, Some(current), 0, hf(x))] else []
  }

  lemma {:induction false} GreedyChildrenAppend<S>(current: Node<S>, ns: seq<S>, x: S, visited: set<S>, hf: S -> int)
    ensures GreedyChildren(current, ns + [x], visited, hf) ==
      GreedyChildren(current, ns, visited, hf) + GreedyChild(current, x, visited, hf)
    decreases |ns|
  {
    if ns == [] {
      assert ([x])[1..] == [];
    } else {
      assert (ns + [x])[1..] == ns[1..] + [x];
      GreedyChildrenAppend(current, ns[1..], x, visited, hf);
    }
  }

  lemma GreedyChildrenPrefix<S>(current: Node<S>, ns: seq<S>, i: int, visited: set<S>, hf: S -> int)
    requires 0 <= i < |ns|
    ensures GreedyChildren(current, ns[..i + 1], visited, hf) ==
      GreedyChildren(current, ns[..i], visited, hf) + GreedyChild(current, ns[i], visited, hf)
  {
    assert ns[..i + 1] == ns[..i] + [ns[i]];
    GreedyChildrenAppend(current, ns[..i], ns[i], visited, hf);
  }

  /** The `for neighbor in state_space[current.state]` loop of greedy search. */
  method PushUnvisited<S(==)>(frontier: PriorityQueue<S>, current: Node<S>, ns: seq<S>, visited: set<S>, hf: S -> int)
    modifies frontier
    ensures frontier.elements == old(frontier.elements) + multiset(GreedyChildren(current, ns, visited, hf))
  {
    for i := 0 to |ns|
      invariant frontier.elements == old(frontier.elements) + multiset(GreedyChildren(current, ns[..i], visited, hf))
    {
      GreedyChildrenPrefix(current, ns, i, visited, hf);
      PushIfUnvisited(frontier, current, ns[i], visited, hf);
    }
    assert ns[..|ns|] == ns;
  }

  /** One pass of that loop: push the neighbour when it is not visited. */
  method PushIfUnvisited<S(==)>(frontier: PriorityQueue<S>, current: Node<S>, x: S, visited: set<S>, hf: S -> int)
    modifies frontier
    ensures frontier.elements == old(frontier.elements) + multiset(GreedyChild(current, x, visited, hf))
  {
    if x !in visited {
      var h := hf(x);
      frontier.Push(MakeNode(x, Some(current), 0, h));
    }
  }

  /** The pushed nodes are greedy nodes whose states are not visited: greedy
      search never pushes a node for a visited state. */
  lemma {:induction false} GreedyChildrenGood<S>(current: Node<S>, ns: seq<S>, visited: set<S>, hf: S -> int,
                                                 start: S, space: map<S, seq<S>>)
    requires GreedyNode(current, start, space, hf) && current.state in space
    requires forall i :: 0 <= i < |ns| ==> ns[i] in space[current.state]
    ensures forall c :: c in GreedyChildren(current, ns, visited, hf) ==>
      GreedyNode(c, start, space, hf) && c.state !in visited && c.parent == Some(current)
    decreases |ns|
  {
    if ns != [] {
      GreedyChildrenGood(current, ns[1..], visited, hf, start, space);
    }
  }

  /** Every neighbour not yet visited gets a child. */
  lemma {:induction false} GreedyChildrenCover<S>(current: Node<S>, ns: seq<S>, visited: set<S>, hf: S -> int)
    ensures forall t :: t in ns && t !in visited ==> t in States(multiset(GreedyChildren(current, ns, visited, hf)))
    decreases |ns|
  {
    if ns != [] {
      GreedyChildrenCover(current, ns[1..], visited, hf);
      var first := GreedyChild(current, ns[0], visited, hf);
      var rest := GreedyChildren(current, ns[1..], visited, hf);
      forall t | t in ns && t !in visited ensures t in States(multiset(first + rest)) {
        if t == ns[0] {
          assert first[0] in multiset(first + rest);
        } else {
          assert t in ns[1..];
          var n: Node<S> :| n in multiset(rest) && n.state == t;
          assert n in multiset(first + rest);
        }
      }
    }
  }

  /** `greedy_best_first_search`, with at most `fuel` expansions. A path it
      returns runs from `start` to `goal` along edges, every node with `g = 0`. */
  method GreedyBestFirstSearch<S(==)>(start: S, goal: S, space: map<S, seq<S>>, hf: S -> int, fuel: nat)
    returns (result: Outcome<S>)
    ensures result.Found? ==> WalksFrom(result.path, start, goal, space)
    ensures result.Found? ==> forall i :: 0 <= i < |result.path| ==> result.path[i].g == 0
    ensures result.Exhausted? ==> forall p :: !WalksFrom(p, start, goal, space)
    ensures result.MissingState? ==> result.state !in space && Listed(result.state, start, space)
  {
    var frontier := new PriorityQueue();
    var node := MakeNode(start, None, 0, hf(start));
    frontier.Push(node);
    var visited: set<S> := {};
    var steps := fuel;
    while !frontier.Empty()
      invariant forall n :: n in frontier.elements ==> GreedyNode(n, start, space, hf)
      invariant Explored(start, goal, visited, frontier.elements, space)
      decreases steps
    {
      if steps == 0 {
        return OutOfFuel;
      }
      ghost var queued := frontier.elements;
      ghost var seen := visited;
      var current := frontier.Pop();
      if current.state == goal {
        var p := Path(current);
        GreedyPath(current, start, space, hf);
        return Found(p);
      }
      visited := visited + {current.state};
      if current.state !in space {
        GreedyListed(current, start, space, hf);
        return MissingState(current.state);
      }
      GreedyChildrenGood(current, space[current.state], visited, hf, start, space);
      PushUnvisited(frontier, current, space[current.state], visited, hf);
      GreedyChildrenCover(current, space[current.state], visited, hf);
      ExploredStep(start, goal, seen, queued, space, current, GreedyChildren(current, space[current.state], visited, hf));
      steps := steps - 1;
    }
    ExhaustedUnreachable(start, goal, visited, space);
    return Exhausted;
  }

  /** A greedy node's state is the start or a listed successor. */
  lemma GreedyListed<S>(n: Node<S>, start: S, space: map<S, seq<S>>, hf: S -> int)
    requires GreedyNode(n, start, space, hf)
    ensures Listed(n.state, start, space)
  {
    if n.parent.Some? {
      assert n.parent.value.state in space;
    }
  }

  /** The path of a greedy node walks from the start along edges with `g = 0`. */
  lemma {:induction false} GreedyPath<S>(n: Node<S>, start: S, space: map<S, seq<S>>, hf: S -> int)
    requires GreedyNode(n, start, space, hf)
    ensures WalksFrom(Reversed(Chain(n)), start, n.state, space)
    ensures forall i :: 0 <= i < |Reversed(Chain(n))| ==> Reversed(Chain(n))[i].g == 0
    decreases n
  {
    PathShape(n);
    if n.parent.Some? {
      var q := n.parent.value;
      GreedyPath(q, start, space, hf);
      PathShape(q);
      PathSnoc(n);
      WalksSnoc(Reversed(Chain(q)), n, start, space);
    }
  }

  // ---------------------------------------------------------------------
  // A* search

  /** Every node A* creates: `h` from the heuristic, `f = g + h`, and `g`
      the parent's `g` plus the step cost, from `g = 0` at the start node. */
  ghost predicate AStarNode<S>(n: Node<S>, start: S, space: map<S, seq<S>>, cost: (S, S) -> int, hf: S -> int)
    decreases n
  {
    && n.h == hf(n.state) && n.f == n.g + n.h
    && match n.parent
       case None => n.state == start && n.g == 0
       case Some(p) =>
         && p.state in space && n.state in space[p.state]
         && n.g == p.g + cost(p.state, n.state)
         && AStarNode(p, start, space, cost, hf)
  }

  /** Whether A* pushes a node for `s` reached with cost `g`. */
  predicate Improves<S(==)>(visited: map<S, int>, s: S, g: int)
  {
    s !in visited || g < visited[s]
  }

  /** The nodes the inner loop of A* pushes, in neighbour order. */
  function AStarChildren<S(==)>(current: Node<S>, ns: seq<S>, visited: map<S, int>, cost: (S, S) -> int, hf: S -> int): seq<Node<S>>
    decreases |ns|
  {
    if ns == [] then []
    else AStarChild(current, ns[0], visited, cost, hf) + AStarChildren(current, ns[1..], visited, cost, hf)
  }

  /** The node A* pushes for one neighbour `x` of `current`, if any. */
  function AStarChild<S(==)>(current: Node<S>, x: S, visited: map<S, int>, cost: (S, S) -> int, hf: S -> int): seq<Node<S>>
  {
    var g := current.g + cost(current.state, x);
    if Improves(visited, x, g) then [MakeNode(x, Some(current), g, hf(x))] else []
  }

  lemma {:induction false} AStarChildrenAppend<S>(current: Node<S>, ns: seq<S>, x: S, visited: map<S, int>, cost: (S, S) -> int, hf: S -> int)
    ensures AStarChildren(current, ns + [x], visited, cost, hf) ==
      AStarChildren(current, ns, visited, cost, hf) + AStarChild(current, x, visited, cost, hf)
    decreases |ns|
  {
    if ns == [] {
      assert ([x])[1..] == [];
    } else {
      assert (ns + [x])[1..] == ns[1..] + [x];
      AStarChildrenAppend(current, ns[1..], x, visited, cost, hf);
    }
  }

  lemma AStarChildrenPrefix<S>(current: Node<S>, ns: seq<S>, i: int, visited: map<S, int>, cost: (S, S) -> int, hf: S -> int)
    requires 0 <= i < |ns|
    ensures AStarChildren(current, ns[..i + 1], visited, cost, hf) ==
      AStarChildren(current, ns[..i], visited, cost, hf) + AStarChild(current, ns[i], visited, cost, hf)
  {
    assert ns[..i + 1] == ns[..i] + [ns[i]];
    AStarChildrenAppend(current, ns[..i], ns[i], visited, cost, hf);
  }

  /** The `for neighbor in state_space[current.state]` loop of A*. */
  method PushImproving<S(==)>(frontier: PriorityQueue<S>, current: Node<S>, ns: seq<S>, visited: map<S, int>,
                              cost: (S, S) -> int, hf: S -> int)
    modifies frontier
    ensures frontier.elements == old(frontier.elements) + multiset(AStarChildren(current, ns, visited, cost, hf))
  {
    for i := 0 to |ns|
      invariant frontier.elements == old(frontier.elements) + multiset(AStarChildren(current, ns[..i], visited, cost, hf))
    {
      AStarChildrenPrefix(current, ns, i, visited, cost, hf);
      PushIfImproving(frontier, current, ns[i], visited, cost, hf);
    }
    assert ns[..|ns|] == ns;
  }

  /** One pass of that loop: push the neighbour when it is new or reached more cheaply. */
  method PushIfImproving<S(==)>(frontier: PriorityQueue<S>, current: Node<S>, x: S, visited: map<S, int>,
                                cost: (S, S) -> int, hf: S -> int)
    modifies frontier
    ensures frontier.elements == old(frontier.elements) + multiset(AStarChild(current, x, visited, cost, hf))
  {
    var g := current.g + cost(current.state, x);
    if x !in visited || g < visited[x] {
      var h := hf(x);
      frontier.Push(MakeNode(x, Some(current), g, h));
    }
  }

  /** Each pushed node has the parent's `g` plus the step cost, and improves
      on the cost recorded for its state. */
  lemma {:induction false} AStarChildrenGood<S>(current: Node<S>, ns: seq<S>, visited: map<S, int>, cost: (S, S) -> int,
                                                hf: S -> int, start: S, space: map<S, seq<S>>)
    requires AStarNode(current, start, space, cost, hf) && current.state in space
    requires forall i :: 0 <= i < |ns| ==> ns[i] in space[current.state]
    ensures forall c :: c in AStarChildren(current, ns, visited, cost, hf) ==>
      && AStarNode(c, start, space, cost, hf) && c.parent == Some(current)
      && c.g == current.g + cost(current.state, c.state) && Improves(visited, c.state, c.g)
    decreases |ns|
  {
    if ns != [] {
      AStarChildrenGood(current, ns[1..], visited, cost, hf, start, space);
    }
  }

  /** Every neighbour without a recorded cost gets a child. */
  lemma {:induction false} AStarChildrenCover<S>(current: Node<S>, ns: seq<S>, visited: map<S, int>,
                                                 cost: (S, S) -> int, hf: S -> int)
    ensures forall t :: t in ns && t !in visited ==> t in States(multiset(AStarChildren(current, ns, visited, cost, hf)))
    decreases |ns|
  {
    if ns != [] {
      AStarChildrenCover(current, ns[1..], visited, cost, hf);
      var first := AStarChild(current, ns[0], visited, cost, hf);
      var rest := AStarChildren(current, ns[1..], visited, cost, hf);
      forall t | t in ns && t !in visited ensures t in States(multiset(first + rest)) {
        if t == ns[0] {
          assert first[0] in multiset(first + rest);
        } else {
          assert t in ns[1..];
          var n: Node<S> :| n in multiset(rest) && n.state == t;
          assert n in multiset(first + rest);
        }
      }
    }
  }

  /** `a_star_search`, with at most `fuel` expansions. A path it returns
      runs from `start` to `goal` along edges, and its last `g` is the sum
      of its step costs. */
  method AStarSearch<S(==)>(start: S, goal: S, space: map<S, seq<S>>, cost: (S, S) -> int, hf: S -> int, fuel: nat)
    returns (result: Outcome<S>)
    ensures result.Found? ==> WalksFrom(result.path, start, goal, space)
    ensures result.Found? ==> result.path[|result.path| - 1].g == StepCosts(result.path, cost)
    ensures result.Exhausted? ==> forall p :: !WalksFrom(p, start, goal, space)
    ensures result.MissingState? ==> result.state !in space && Listed(result.state, start, space)
  {
    var frontier := new PriorityQueue();
    var node := MakeNode(start, None, 0, hf(start));
    frontier.Push(node);
    var visited: map<S, int> := map[];
    var steps := fuel;
    while !frontier.Empty()
      invariant forall n :: n in frontier.elements ==> AStarNode(n, start, space, cost, hf)
      invariant Explored(start, goal, visited.Keys, frontier.elements, space)
      decreases steps
    {
      if steps == 0 {
        return OutOfFuel;
      }
      ghost var queued := frontier.elements;
      ghost var seen := visited.Keys;
      var current := frontier.Pop();
      if current.state == goal {
        var p := Path(current);
        AStarPath(current, start, space, cost, hf);
        return Found(p);
      }
      visited := visited[current.state := current.g];
      if current.state !in space {
        AStarListed(current, start, space, cost, hf);
        return MissingState(current.state);
      }
      AStarChildrenGood(current, space[current.state], visited, cost, hf, start, space);
      PushImproving(frontier, current, space[current.state], visited, cost, hf);
      AStarChildrenCover(current, space[current.state], visited, cost, hf);
      assert visited.Keys == seen + {current.state};
      ExploredStep(start, goal, seen, queued, space, current, AStarChildren(current, space[current.state], visited, cost, hf));
      steps := steps - 1;
    }
    ExhaustedUnreachable(start, goal, visited.Keys, space);
    return Exhausted;
  }

  /** An A* node's state is the start or a listed successor. */
  lemma AStarListed<S>(n: Node<S>, start: S, space: map<S, seq<S>>, cost: (S, S) -> int, hf: S -> int)
    requires AStarNode(n, start, space, cost, hf)
    ensures Listed(n.state, start, space)
  {
    if n.parent.Some? {
      assert n.parent.value.state in space;
    }
  }

  /** The path of an A* node walks from the start along edges, and its
      last `g` is the sum of the step costs. */
  lemma {:induction false} AStarPath<S>(n: Node<S>, start: S, space: map<S, seq<S>>, cost: (S, S) -> int, hf: S -> int)
    requires AStarNode(n, start, space, cost, hf)
    ensures WalksFrom(Reversed(Chain(n)), start, n.state, space)
    ensures n.g == StepCosts(Reversed(Chain(n)), cost)
    decreases n
  {
    PathShape(n);
    if n.parent.Some? {
      var q := n.parent.value;
      AStarPath(q, start, space, cost, hf);
      PathShape(q);
      PathSnoc(n);
      WalksSnoc(Reversed(Chain(q)), n, start, space);
      var p := Reversed(Chain(n));
      assert p[..|p| - 1] == Reversed(Chain(q));
    }
  }
}
