/** The number individual of the genetic-algorithm demo: a gene of bits
    read as a big-endian binary number, mutated by flipping one bit and
    crossed over at a single point. */
module NumberGa {
  import opened SeqUtil

  type Gene = seq<int>

  function Pow2(i: nat): nat
  {
    if i == 0 then 1 else 2 * Pow2(i - 1)
  }

  /** `sum(bit * 2 ** i for i, bit in enumerate(bits))`, with `from` the
      index of the first element of `bits`. */
  function WeightedSum(bits: Gene, from: nat): int
    decreases |bits|
  {
    if bits == [] then 0 else bits[0] * Pow2(from) + WeightedSum(bits[1..], from + 1)
  }

  /** `get_fitness`: the weighted sum over the reversed gene. */
  function Fitness(g: Gene): int
  {
    WeightedSum(Reversed(g), 0)
  }

  /** The big-endian value of a gene, read left to right (Horner's rule). */
  function BigEndian(g: Gene): int
    decreases |g|
  {
    if g == [] then 0 else 2 * BigEndian(g[..|g| - 1]) + g[|g| - 1]
  }

  predicate IsBits(g: Gene)
  {
    forall i :: 0 <= i < |g| ==> g[i] == 0 || g[i] == 1
  }

  lemma {:induction false} WeightedSumShift(bits: Gene, from: nat)
    ensures WeightedSum(bits, from + 1) == 2 * WeightedSum(bits, from)
    decreases |bits|
  {
    if bits != [] {
      WeightedSumShift(bits[1..], from + 1);
    }
  }

  /** The source's sum over the reversed gene is the gene's big-endian
      binary value. */
  lemma {:induction false} FitnessIsBigEndian(g: Gene)
    ensures Fitness(g) == BigEndian(g)
    decreases |g|
  {
    if g != [] {
      var init := g[..|g| - 1];
      FitnessIsBigEndian(init);
      var r := Reversed(g);
      assert r[0] == g[|g| - 1];
      assert r[1..] == Reversed(init);
      WeightedSumShift(Reversed(init), 0);
    }
  }

  /** A bit gene of length `k` has a value in `0 .. 2^k - 1`. */
  lemma {:induction false} BigEndianBounds(g: Gene)
    requires IsBits(g)
    ensures 0 <= BigEndian(g) < Pow2(|g|)
    decreases |g|
  {
    if g != [] {
      BigEndianBounds(g[..|g| - 1]);
    }
  }

  /** On three bits the fitness lies in 0..7, and the demo's target 7 is
      reached by the all-ones gene only. */
  lemma ThreeBitFitness(g: Gene)
    requires |g| == 3 && IsBits(g)
    ensures 0 <= Fitness(g) <= 7
    ensures Fitness(g) == 4 * g[0] + 2 * g[1] + g[2]
    ensures Fitness(g) == 7 <==> g == [1, 1, 1]
  {
    FitnessIsBigEndian(g);
    BigEndianBounds(g);
    var first2 := g[..2];
    assert first2[..1] == [g[0]];
    assert BigEndian([g[0]]) == g[0] by { assert [g[0]][..0] == []; }
    assert BigEndian(first2) == 2 * g[0] + g[1];
    assert BigEndian(g) == 2 * BigEndian(first2) + g[2];
    if Fitness(g) == 7 {
      assert g[0] == 1 && g[1] == 1 && g[2] == 1;
      assert g == [1, 1, 1];
    }
  }

  /** The demo's starting genes have the fitnesses 4, 2, 1 and 0. */
  lemma StartingFitness()
    ensures Fitness([1, 0, 0]) == 4 && Fitness([0, 1, 0]) == 2
    ensures Fitness([0, 0, 1]) == 1 && Fitness([0, 0, 0]) == 0
  {
    ThreeBitFitness([1, 0, 0]);
    ThreeBitFitness([0, 1, 0]);
    ThreeBitFitness([0, 0, 1]);
    ThreeBitFitness([0, 0, 0]);
  }

  /** Python's `x ^ 1` on integers of either sign: the lowest bit flips. */
  function XorOne(x: int): int
  {
    if x % 2 == 0 then x + 1 else x - 1
  }

  /** `mutate` with the index `random.randint(0, 2)` drew. */
  function Mutate(g: Gene, index: int): (r: Gene)
    requires 0 <= index < |g|
    ensures |r| == |g|
    ensures r[index] == XorOne(g[index])
    ensures forall i :: 0 <= i < |g| && i != index ==> r[i] == g[i]
    ensures IsBits(g) ==> IsBits(r) && r[index] == 1 - g[index]
  {
    g[index := XorOne(g[index])]
  }

  /** Flipping the same bit twice gives the gene back. */
  lemma MutateTwice(g: Gene, index: int)
    requires 0 <= index < |g|
    ensures Mutate(Mutate(g, index), index) == g
  {
    var once := Mutate(g, index);
    assert XorOne(once[index]) == g[index];
  }

  /** Flipping bit `index` of a bit gene moves its fitness by the weight of
      that bit, up when the bit was 0 and down when it was 1. */
  lemma MutateFitness(g: Gene, index: int)
    requires 0 <= index < |g| && IsBits(g)
    ensures Fitness(Mutate(g, index)) ==
      Fitness(g) + (if g[index] == 0 then 1 else -1) * Pow2(|g| - 1 - index)
  {
    var h := Mutate(g, index);
    FitnessIsBigEndian(g);
    FitnessIsBigEndian(h);
    BigEndianChange(g, h, index);
    var d := h[index] - g[index];
    assert d == (if g[index] == 0 then 1 else -1);
  }

  lemma {:induction false} BigEndianChange(g: Gene, h: Gene, index: int)
    requires |h| == |g| && 0 <= index < |g|
    requires forall i :: 0 <= i < |g| && i != index ==> h[i] == g[i]
    ensures BigEndian(h) == BigEndian(g) + (h[index] - g[index]) * Pow2(|g| - 1 - index)
    decreases |g|
  {
    var n := |g|;
    if index == n - 1 {
      assert g[..n - 1] == h[..n - 1];
    } else {
      BigEndianChange(g[..n - 1], h[..n - 1], index);
      assert Pow2(n - 1 - index) == 2 * Pow2(n - 2 - index);
    }
  }

  /** `reproduce` with the point `random.randint(1, 2)` drew. */
  function Reproduce(self: Gene, other: Gene, point: int): (child: Gene)
    requires 1 <= point <= 2
    ensures point <= |self| && point <= |other| ==>
      && |child| == |other|
      && (forall i :: 0 <= i < point ==> child[i] == self[i])
      && (forall i :: point <= i < |other| ==> child[i] == other[i])
  {
    TakeUpTo(self, point) + DropUpTo(other, point)
  }

  /** Crossing two three-bit genes gives a three-bit gene. */
  lemma ReproduceBits(self: Gene, other: Gene, point: int)
    requires 1 <= point <= 2 && |self| == 3 && |other| == 3 && IsBits(self) && IsBits(other)
    ensures |Reproduce(self, other, point)| == 3 && IsBits(Reproduce(self, other, point))
  {
  }

  /** Crossing a gene with itself gives it back. */
  lemma ReproduceSelf(g: Gene, point: int)
    requires 1 <= point <= 2
    ensures Reproduce(g, g, point) == g
  {
    if point <= |g| {
      assert g[..point] + g[point..] == g;
    }
  }
}
