/** `uninformed_search/farmer_search.py`: the farmer, wolf, goat and cabbage
    river crossing as a successor dictionary over the valid states. */
module Farmer {
  import opened SeqUtil

  datatype Side = W | E

  /** `(f, w, g, c)`: the banks of the farmer, wolf, goat and cabbage. */
  datatype FState = FState(f: Side, w: Side, g: Side, c: Side)

  function Opposite(s: Side): Side
  {
    if s == W then E else W
  }

  /** `is_valid`: the goat is not left without the farmer beside the wolf
      or the cabbage. */
  predicate IsValid(s: FState)
  {
    !(s.f != s.g && (s.g == s.w || s.g == s.c))
  }

  /** On `bank`, without the farmer, the goat is together with the wolf or the cabbage. */
  predicate Unsafe(bank: Side, s: FState)
  {
    bank != s.f && s.g == bank && (s.w == bank || s.c == bank)
  }

  /** The same condition, stated bank by bank: a state is valid exactly
      when neither bank is unsafe. */
  lemma ValidMeansNothingEaten(s: FState)
    ensures IsValid(s) <==> !Unsafe(W, s) && !Unsafe(E, s)
  {
  }

  /** The farmer crossing alone, and with the wolf, the goat or the cabbage. */
  function Alone(s: FState): FState { FState(Opposite(s.f), s.w, s.g, s.c) }
  function WithWolf(s: FState): FState { FState(Opposite(s.f), Opposite(s.f), s.g, s.c) }
  function WithGoat(s: FState): FState { FState(Opposite(s.f), s.w, Opposite(s.f), s.c) }
  function WithCabbage(s: FState): FState { FState(Opposite(s.f), s.w, s.g, Opposite(s.f)) }

  /** `generate_successors`: the valid crossings, an item taken along only
      when it is on the farmer's bank. */
  function GenerateSuccessors(s: FState): seq<FState>
  {
    var nb := Opposite(s.f);
    (if IsValid(FState(nb, s.w, s.g, s.c)) then [FState(nb, s.w, s.g, s.c)] else [])
    + (if s.f == s.w && IsValid(FState(nb, nb, s.g, s.c)) then [FState(nb, nb, s.g, s.c)] else [])
    + (if s.f == s.g && IsValid(FState(nb, s.w, nb, s.c)) then [FState(nb, s.w, nb, s.c)] else [])
    + (if s.f == s.c && IsValid(FState(nb, s.w, s.g, nb)) then [FState(nb, s.w, s.g, nb)] else [])
  }

  /** Every successor is valid, has the farmer on the other bank, and has
      taken along at most one item, one that was on the farmer's bank. */
  lemma SuccessorIsCrossing(s: FState, t: FState)
    requires t in GenerateSuccessors(s)
    ensures IsValid(t) && t.f == Opposite(s.f)
    ensures t.w != s.w ==> s.w == s.f && t.w == t.f
    ensures t.g != s.g ==> s.g == s.f && t.g == t.f
    ensures t.c != s.c ==> s.c == s.f && t.c == t.f
    ensures (if t.w != s.w then 1 else 0) + (if t.g != s.g then 1 else 0) + (if t.c != s.c then 1 else 0) <= 1
  {
  }

  /** At most four successors, in the order alone, wolf, goat, cabbage. */
  lemma SuccessorOrder(s: FState)
    ensures |GenerateSuccessors(s)| <= 4
    ensures IsSubseq(GenerateSuccessors(s), [Alone(s), WithWolf(s), WithGoat(s), WithCabbage(s)])
  {
    var nb := Opposite(s.f);
    var o1 := if IsValid(Alone(s)) then [Alone(s)] else [];
    var o2 := if s.f == s.w && IsValid(WithWolf(s)) then [WithWolf(s)] else [];
    var o3 := if s.f == s.g && IsValid(WithGoat(s)) then [WithGoat(s)] else [];
    var o4 := if s.f == s.c && IsValid(WithCabbage(s)) then [WithCabbage(s)] else [];
    assert GenerateSuccessors(s) == o1 + (o2 + (o3 + o4));
    SubseqRefl<FState>([]);
    PickSubseq(WithCabbage(s), o4, [], []);
    PickSubseq(WithGoat(s), o3, o4, [WithCabbage(s)]);
    PickSubseq(WithWolf(s), o2, o3 + o4, [WithGoat(s), WithCabbage(s)]);
    PickSubseq(Alone(s), o1, o2 + (o3 + o4), [WithWolf(s), WithGoat(s), WithCabbage(s)]);
  }

  /** Keeping or dropping a head element keeps a subsequence a subsequence. */
  lemma PickSubseq<T>(x: T, o: seq<T>, rest: seq<T>, full: seq<T>)
    requires o == [] || o == [x]
    requires IsSubseq(rest, full)
    ensures IsSubseq(o + rest, [x] + full)
  {
    var whole := [x] + full;
    assert whole[1..] == full;
    if o == [x] {
      assert (o + rest)[0] == x && (o + rest)[1..] == rest;
    } else {
      assert o + rest == rest;
      if rest != [] {
        assert IsSubseq(rest, whole[1..]);
      }
    }
  }

  /** Crossings can be undone: if `t` follows the valid state `s`, then `s` follows `t`. */
  lemma SuccessorSymmetric(s: FState, t: FState)
    requires IsValid(s) && t in GenerateSuccessors(s)
    ensures s in GenerateSuccessors(t)
  {
    SuccessorIsCrossing(s, t);
  }

  /** `product(sides, repeat=4)`: all sixteen states. */
  function AllStates(): set<FState>
  {
    set f <- {W, E}, w <- {W, E}, g <- {W, E}, c <- {W, E} :: FState(f, w, g, c)
  }

  /** The `state_space` comprehension: the valid states and their successors. */
  function StateSpace(): map<FState, seq<FState>>
  {
    map s | s in AllStates() && IsValid(s) :: GenerateSuccessors(s)
  }

  /** The ten valid states. */
  function ValidStates(): set<FState>
  {
    {FState(W, W, W, W), FState(W, W, W, E), FState(W, E, W, W), FState(W, E, W, E), FState(W, W, E, W),
     FState(E, E, E, E), FState(E, E, E, W), FState(E, W, E, E), FState(E, W, E, W), FState(E, E, W, E)}
  }

  /** `state_space` has exactly the ten valid states of the sixteen as keys. */
  lemma StateSpaceKeys()
    ensures StateSpace().Keys == ValidStates()
    ensures forall s :: s in StateSpace() <==> IsValid(s)
    ensures |StateSpace().Keys| == 10
  {
    forall s: FState ensures s in AllStates() {
      Enumerated(s);
    }
    forall s: FState ensures s in ValidStates() <==> IsValid(s) {
      ValidListed(s);
    }
    TenValid();
  }

  lemma Enumerated(s: FState)
    ensures s in AllStates()
  {
    assert s.f in {W, E} by { assert s.f == W || s.f == E; }
    assert s.w in {W, E} by { assert s.w == W || s.w == E; }
    assert s.g in {W, E} by { assert s.g == W || s.g == E; }
    assert s.c in {W, E} by { assert s.c == W || s.c == E; }
    assert s == FState(s.f, s.w, s.g, s.c);
  }

  lemma ValidListed(s: FState)
    ensures s in ValidStates() <==> IsValid(s)
  {
    if s.f == W {
      ValidListedWest(s);
    } else {
      ValidListedEast(s);
    }
  }

  lemma ValidListedWest(s: FState)
    requires s.f == W
    ensures s in ValidStates() <==> IsValid(s)
  {
    assert s.w == W || s.w == E;
    assert s.g == W || s.g == E;
    assert s.c == W || s.c == E;
  }

  lemma ValidListedEast(s: FState)
    requires s.f == E
    ensures s in ValidStates() <==> IsValid(s)
  {
    assert s.w == W || s.w == E;
    assert s.g == W || s.g == E;
    assert s.c == W || s.c == E;
  }

  lemma TenValid()
    ensures |ValidStates()| == 10
  {
    var west := {FState(W, W, W, W), FState(W, W, W, E), FState(W, E, W, W), FState(W, E, W, E), FState(W, W, E, W)};
    var east := {FState(E, E, E, E), FState(E, E, E, W), FState(E, W, E, E), FState(E, W, E, W), FState(E, E, W, E)};
    assert |west| == 5 && |east| == 5;
    assert west * east == {};
    assert ValidStates() == west + east;
  }

  /** Every successor listed in `state_space` is itself a key. */
  lemma StateSpaceClosed(s: FState, t: FState)
    requires s in StateSpace() && t in StateSpace()[s]
    ensures t in StateSpace()
  {
    StateSpaceKeys();
    SuccessorIsCrossing(s, t);
  }

  const Initial := FState(W, W, W, W)
  const Goal := FState(E, E, E, E)

  /** `b` is listed as a successor of `a` in `state_space`. */
  predicate Edge(a: FState, b: FState)
  {
    a in StateSpace() && b in StateSpace()[a]
  }

  /** The classic seven crossings lead from `initial` to `goal` through `state_space`. */
  lemma SevenCrossings()
    ensures var p := [Initial, FState(E, W, E, W), FState(W, W, E, W), FState(E, E, E, W),
                      FState(W, E, W, W), FState(E, E, W, E), FState(W, E, W, E), Goal];
      forall i :: 0 <= i < |p| - 1 ==> Edge(p[i], p[i + 1])
  {
    Crossing(Initial, FState(E, W, E, W));
    Crossing(FState(E, W, E, W), FState(W, W, E, W));
    Crossing(FState(W, W, E, W), FState(E, E, E, W));
    Crossing(FState(E, E, E, W), FState(W, E, W, W));
    Crossing(FState(W, E, W, W), FState(E, E, W, E));
    Crossing(FState(E, E, W, E), FState(W, E, W, E));
    Crossing(FState(W, E, W, E), Goal);
  }

  /** A crossing from a valid state is an edge of `state_space`. */
  lemma Crossing(a: FState, b: FState)
    requires IsValid(a) && b in GenerateSuccessors(a)
    ensures Edge(a, b)
  {
    Enumerated(a);
  }
}
