/** The n-queens individual of the genetic-algorithm demo: a gene gives
    the row of the queen in each column; mutation swaps two columns,
    crossover cuts at a single point, and a random board is a shuffled
    `0 .. n-1`. */
module QueenGa {
  import opened SeqUtil

  type Gene = seq<int>

  /** The board size of the demo. */
  const N: nat := 8

  /** `list(range(k))`. */
  function Iota(k: nat): (r: Gene)
    ensures |r| == k && forall i :: 0 <= i < k ==> r[i] == i
  {
    seq(k, i => i)
  }

  /** `g` holds every value of `0 .. n-1` exactly once. */
  predicate IsPermutation(g: Gene, n: nat)
  {
    multiset(g) == multiset(Iota(n))
  }

  /** A permutation of `0 .. n-1` has length `n` and only values in range. */
  lemma PermutationShape(g: Gene, n: nat)
    requires IsPermutation(g, n)
    ensures |g| == n
    ensures forall i :: 0 <= i < |g| ==> 0 <= g[i] < n
  {
    assert |multiset(g)| == |multiset(Iota(n))|;
    forall i | 0 <= i < |g| ensures 0 <= g[i] < n {
      assert g[i] in multiset(g);
      assert g[i] in Iota(n);
    }
  }

  /** `g[i], g[j] = g[j], g[i]`. */
  function Swap(g: Gene, i: int, j: int): (r: Gene)
    requires 0 <= i < |g| && 0 <= j < |g|
    ensures |r| == |g| && r[i] == g[j] && r[j] == g[i]
    ensures forall k :: 0 <= k < |g| && k != i && k != j ==> r[k] == g[k]
    ensures multiset(r) == multiset(g)
  {
    var r := g[i := g[j]][j := g[i]];
    assert multiset(r) == multiset(g) by {
      if i != j {
        assert multiset(g[i := g[j]]) == multiset(g) - multiset{g[i]} + multiset{g[j]};
      }
    }
    r
  }

  /** `mutate` with the two distinct columns `random.sample(range(n), 2)`
      drew. */
  function Mutate(g: Gene, i: int, j: int): (r: Gene)
    requires 0 <= i < N && 0 <= j < N && i != j && |g| >= N
    ensures |r| == |g| && r[i] == g[j] && r[j] == g[i]
    ensures forall k :: 0 <= k < |g| && k != i && k != j ==> r[k] == g[k]
  {
    Swap(g, i, j)
  }

  /** A board that is a permutation stays one after mutation. */
  lemma MutateKeepsPermutation(g: Gene, i: int, j: int)
    requires |g| == N && IsPermutation(g, N) && 0 <= i < N && 0 <= j < N && i != j
    ensures IsPermutation(Mutate(g, i, j), N)
  {
    PermutationShape(g, N);
  }

  /** Mutating the same two columns again gives the board back. */
  lemma MutateTwice(g: Gene, i: int, j: int)
    requires 0 <= i < N && 0 <= j < N && i != j && |g| >= N
    ensures Mutate(Mutate(g, i, j), i, j) == g
  {
  }

  /** `reproduce` with the point `random.randint(1, n - 2)` drew. */
  function Reproduce(self: Gene, other: Gene, point: int): (child: Gene)
    requires 1 <= point <= N - 2
    ensures |self| == N && |other| == N ==>
      && |child| == N
      && (forall k :: 0 <= k < point ==> child[k] == self[k])
      && (forall k :: point <= k < N ==> child[k] == other[k])
  {
    TakeUpTo(self, point) + DropUpTo(other, point)
  }

  /** Crossover does not keep permutations: crossing `0 .. 7` with its
      mutation that swaps the first and last columns, cut after the first
      column, puts a queen in row 0 twice and none in row 7. */
  lemma ReproduceMayRepeat()
    ensures IsPermutation(Iota(N), N) && IsPermutation(Mutate(Iota(N), 0, N - 1), N)
    ensures var child := Reproduce(Iota(N), Mutate(Iota(N), 0, N - 1), 1);
      child[0] == 0 && child[N - 1] == 0 && !IsPermutation(child, N)
  {
    var up := Iota(N);
    MutateKeepsPermutation(up, 0, N - 1);
    var m := Mutate(up, 0, N - 1);
    var child := Reproduce(up, m, 1);
    forall k | 0 <= k < |child| ensures child[k] != N - 1 {
      if k == 0 {
      } else if k < N - 1 {
        assert child[k] == m[k] == up[k];
      } else {
        assert child[k] == m[N - 1] == up[0];
      }
    }
    MissingValue(child, N, N - 1);
  }

  /** A gene missing a value of `0 .. n-1` is no permutation. */
  lemma MissingValue(g: Gene, n: nat, v: int)
    requires 0 <= v < n && v !in g
    ensures !IsPermutation(g, n)
  {
    assert Iota(n)[v] == v;
    assert v in multiset(Iota(n));
  }

  /** The draws `random.shuffle` makes on a list of length `len`: one for
      each `i` from the last index down to 1, a `j` in `0 .. i`.
      `draws[k]` is the draw for `i = len - 1 - k`. */
  predicate ValidDraws(draws: seq<int>, len: nat)
  {
    |draws| + 1 == len && forall k :: 0 <= k < |draws| ==> 0 <= draws[k] <= len - 1 - k
  }

  /** `random.shuffle` from the `k`-th swap on: position `i` is swapped
      with the drawn `j`. */
  function Shuffle(g: Gene, draws: seq<int>, k: nat): (r: Gene)
    requires ValidDraws(draws, |g|) && k <= |draws|
    ensures |r| == |g| && multiset(r) == multiset(g)
    decreases |draws| - k
  {
    if k == |draws| then g else Shuffle(Swap(g, |g| - 1 - k, draws[k]), draws, k + 1)
  }

  /** `create_random`: `0 .. n-1` shuffled with the given draws. */
  function CreateRandom(draws: seq<int>): (g: Gene)
    requires ValidDraws(draws, N)
    ensures IsPermutation(g, N)
    ensures |g| == N && forall i :: 0 <= i < N ==> 0 <= g[i] < N
  {
    var g := Shuffle(Iota(N), draws, 0);
    PermutationShape(g, N);
    g
  }

  /** A board. `Board` defines a hash but no equality, so two boards are
      the same member of a set only when they are the same object. */
  class Board {
    const gene: Gene

    constructor (gene: Gene)
      ensures this.gene == gene
    {
      this.gene := gene;
    }
  }

  /** `get_initial_population`: keep adding new random boards until the
      set holds `count` of them. Every new board is a new object, so each
      pass adds one. `draws[k]` are the shuffle draws of the `k`-th board. */
  method GetInitialPopulation(count: int, draws: seq<seq<int>>) returns (population: set<Board>)
    requires count <= |draws|
    requires forall k :: 0 <= k < |draws| ==> ValidDraws(draws[k], N)
    ensures |population| == if count < 0 then 0 else count
    ensures forall b :: b in population ==> IsPermutation(b.gene, N)
  {
    population := {};
    while |population| < count
      invariant forall b :: b in population ==> allocated(b)
      invariant |population| <= |draws|
      invariant count >= 0 ==> |population| <= count
      invariant count < 0 ==> population == {}
      invariant forall b :: b in population ==> IsPermutation(b.gene, N)
      decreases count - |population|
    {
      var board := new Board(CreateRandom(draws[|population|]));
      assert board !in population;
      population := population + {board};
    }
  }
}
