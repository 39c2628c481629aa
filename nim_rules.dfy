/** The pile-splitting game shared by `adversarial_search/nim_alphabeta.py`
    and `adversarial_search/nim_min_alpha.py`: a move splits one pile of
    more than two into two unequal parts, and the piles are kept sorted
    in non-increasing order. */
module NimRules {
  import opened SeqUtil

  type Piles = seq<int>

  // ---------------------------------------------------------------------
  // split_pile_options

  /** `split_pile_options(pile)`: the pairs `(a, pile - a)` for `a` from 1 to
      `pile - 1`, leaving out the even split. */
  function SplitPileOptions(pile: int): seq<(int, int)>
  {
    SplitsFrom(pile, 1)
  }

  /** The pairs for `a` from `lo` up. */
  function SplitsFrom(pile: int, lo: int): seq<(int, int)>
    decreases pile - lo
  {
    if lo >= pile then []
    else (if lo != pile - lo then [(lo, pile - lo)] else []) + SplitsFrom(pile, lo + 1)
  }

  /** The pair `(a, pile - a)`. */
  function Split(pile: int, a: int): (int, int)
  {
    (a, pile - a)
  }

  /** Two unequal parts of at least one that add up to `pile`. */
  predicate ValidSplit(pile: int, pr: (int, int))
  {
    pr.0 + pr.1 == pile && 1 <= pr.0 && 1 <= pr.1 && pr.0 != pr.1
  }

  /** Each listed pair is a split with first part at least `lo`, every such
      split is listed, and the first parts ascend. */
  lemma {:induction false} SplitsFromSpec(pile: int, lo: int)
    requires 1 <= lo
    ensures forall k :: 0 <= k < |SplitsFrom(pile, lo)| ==>
      ValidSplit(pile, SplitsFrom(pile, lo)[k]) && lo <= SplitsFrom(pile, lo)[k].0
    ensures forall a :: lo <= a < pile && a != pile - a ==> Split(pile, a) in SplitsFrom(pile, lo)
    ensures forall k, l :: 0 <= k < l < |SplitsFrom(pile, lo)| ==> SplitsFrom(pile, lo)[k].0 < SplitsFrom(pile, lo)[l].0
    decreases pile - lo
  {
    if lo < pile {
      SplitsFromSpec(pile, lo + 1);
      var rest := SplitsFrom(pile, lo + 1);
      var whole := SplitsFrom(pile, lo);
      if lo != pile - lo {
        assert whole == [Split(pile, lo)] + rest;
        forall k | 0 < k < |whole| ensures whole[k] == rest[k - 1] {
        }
      } else {
        assert whole == rest;
      }
    }
  }

  /** The listed splits of `pile`: exactly the valid ones, in ascending
      order of the first part, and at least one when `pile > 2`. */
  lemma SplitPileOptionsSpec(pile: int)
    ensures forall k :: 0 <= k < |SplitPileOptions(pile)| ==> ValidSplit(pile, SplitPileOptions(pile)[k])
    ensures forall a :: 1 <= a < pile && a != pile - a ==> Split(pile, a) in SplitPileOptions(pile)
    ensures forall k, l :: 0 <= k < l < |SplitPileOptions(pile)| ==> SplitPileOptions(pile)[k].0 < SplitPileOptions(pile)[l].0
    ensures pile > 2 ==> SplitPileOptions(pile) != []
  {
    SplitsFromSpec(pile, 1);
    if pile > 2 {
      assert Split(pile, 1) in SplitPileOptions(pile);
    }
  }

  // ---------------------------------------------------------------------
  // Sums and sorting

  function Sum(s: seq<int>): int
    decreases |s|
  {
    if s == [] then 0 else s[0] + Sum(s[1..])
  }

  lemma {:induction false} SumAppend(a: seq<int>, b: seq<int>)
    ensures Sum(a + b) == Sum(a) + Sum(b)
    decreases |a|
  {
    if a == [] {
      assert a + b == b;
    } else {
      assert (a + b)[0] == a[0];
      assert (a + b)[1..] == a[1..] + b;
      SumAppend(a[1..], b);
    }
  }

  /** Taking out the element at `j` takes its value off the sum. */
  lemma SumRemove(b: seq<int>, j: int)
    requires 0 <= j < |b|
    ensures Sum(b) == b[j] + Sum(b[..j] + b[j + 1..])
  {
    var tail := b[j..];
    assert b == b[..j] + tail;
    assert tail[1..] == b[j + 1..];
    assert Sum(tail) == b[j] + Sum(b[j + 1..]);
    SumAppend(b[..j], tail);
    SumAppend(b[..j], b[j + 1..]);
  }

  /** The sum depends only on the multiset of piles. */
  lemma {:induction false} SumPermutation(a: seq<int>, b: seq<int>)
    requires multiset(a) == multiset(b)
    ensures Sum(a) == Sum(b)
    decreases |a|
  {
    if a != [] {
      var j := IndexOf(b, a[0]);
      MatchRemove(a, b, j);
      SumPermutation(a[1..], b[..j] + b[j + 1..]);
      SumRemove(b, j);
    }
  }

  /** Non-increasing order. */
  predicate SortedDesc(s: seq<int>)
  {
    forall i, j :: 0 <= i < j < |s| ==> s[i] >= s[j]
  }

  /** Insert `x` in front of the first element not greater than it. */
  function InsertDesc(x: int, s: seq<int>): seq<int>
    decreases |s|
  {
    if s == [] || x >= s[0] then [x] + s else [s[0]] + InsertDesc(x, s[1..])
  }

  lemma InsertDescSpec(x: int, s: seq<int>)
    ensures multiset(InsertDesc(x, s)) == multiset(s) + multiset{x} && |InsertDesc(x, s)| == |s| + 1
    ensures SortedDesc(s) ==> SortedDesc(InsertDesc(x, s))
  {
    InsertDescMultiset(x, s);
    if SortedDesc(s) {
      InsertDescSorted(x, s);
    }
  }

  lemma {:induction false} InsertDescMultiset(x: int, s: seq<int>)
    ensures multiset(InsertDesc(x, s)) == multiset(s) + multiset{x} && |InsertDesc(x, s)| == |s| + 1
    decreases |s|
  {
    if s != [] && x < s[0] {
      InsertDescMultiset(x, s[1..]);
      assert s == [s[0]] + s[1..];
    }
  }

  lemma {:induction false} InsertDescSorted(x: int, s: seq<int>)
    requires SortedDesc(s)
    ensures SortedDesc(InsertDesc(x, s))
    decreases |s|
  {
    if s != [] && x < s[0] {
      InsertDescSorted(x, s[1..]);
      InsertDescMultiset(x, s[1..]);
      assert s == [s[0]] + s[1..];
      var tail := InsertDesc(x, s[1..]);
      forall k | 0 <= k < |tail| ensures tail[k] <= s[0] {
        assert tail[k] in multiset(tail);
        if tail[k] != x {
          assert tail[k] in multiset(s[1..]);
        }
      }
    }
  }

  /** `sorted(s, reverse=True)`. */
  function SortDesc(s: seq<int>): seq<int>
    decreases |s|
  {
    if s == [] then [] else InsertDesc(s[0], SortDesc(s[1..]))
  }

  /** The sort is in non-increasing order and a permutation. */
  lemma {:induction false} SortDescSpec(s: seq<int>)
    ensures SortedDesc(SortDesc(s)) && multiset(SortDesc(s)) == multiset(s) && |SortDesc(s)| == |s|
    decreases |s|
  {
    if s != [] {
      SortDescSpec(s[1..]);
      InsertDescSpec(s[0], SortDesc(s[1..]));
      assert s == [s[0]] + s[1..];
    }
  }

  /** Inserting `x` into `p + q` puts it after the larger elements `p`
      and in front of `q`. */
  lemma {:induction false} InsertAfter(x: int, p: seq<int>, q: seq<int>)
    requires forall i :: 0 <= i < |p| ==> p[i] > x
    requires q == [] || x >= q[0]
    ensures InsertDesc(x, p + q) == p + [x] + q
    decreases |p|
  {
    if p == [] {
      assert p + q == q;
    } else {
      assert (p + q)[1..] == p[1..] + q;
      InsertAfter(x, p[1..], q);
    }
  }

  /** A list already in non-increasing order sorts to itself. */
  lemma {:induction false} SortedFixed(s: seq<int>)
    requires SortedDesc(s)
    ensures SortDesc(s) == s
    decreases |s|
  {
    if s != [] {
      SortedFixed(s[1..]);
      assert s == [s[0]] + s[1..];
    }
  }

  /** Sorting `[x] + t` for a sorted `t` places `x` between `p` and `q`. */
  lemma SortFront(x: int, t: seq<int>, p: seq<int>, q: seq<int>)
    requires SortedDesc(t) && t == p + q
    requires forall i :: 0 <= i < |p| ==> p[i] > x
    requires q == [] || x >= q[0]
    ensures SortDesc([x] + t) == p + [x] + q
  {
    assert ([x] + t)[1..] == t;
    SortedFixed(t);
    InsertAfter(x, p, q);
  }

  // ---------------------------------------------------------------------
  // is_terminal and successors_of

  /** `is_terminal`: every pile has at most two objects. */
  predicate IsTerminal(s: Piles)
  {
    forall i :: 0 <= i < |s| ==> s[i] <= 2
  }

  /** `state[:i] + [a, b] + state[i+1:]`. */
  function Replace(s: Piles, i: int, a: int, b: int): Piles
    requires 0 <= i < |s|
  {
    s[..i] + [a, b] + s[i + 1..]
  }

  /** The successors the inner loop adds for pile `i`. */
  function PileSuccessors(s: Piles, i: int): seq<Piles>
    requires 0 <= i < |s|
  {
    if s[i] > 2 then
      var sp := SplitPileOptions(s[i]);
      seq(|sp|, k requires 0 <= k < |sp| => SortDesc(Replace(s, i, sp[k].0, sp[k].1)))
    else []
  }

  /** The successors contributed by each pile, in pile order. */
  function Blocks(s: Piles): seq<seq<Piles>>
  {
    seq(|s|, i requires 0 <= i < |s| => PileSuccessors(s, i))
  }

  /** What `successors_of(state)` returns. */
  function Successors(s: Piles): seq<Piles>
  {
    Concat(Blocks(s))
  }

  /** `successors_of`: for each pile of more than two, each split, sorted. */
  method SuccessorsOf(s: Piles) returns (successors: seq<Piles>)
    ensures successors == Successors(s)
  {
    successors := [];
    for i := 0 to |s|
      invariant successors == Concat(Blocks(s)[..i])
    {
      ConcatStep(Blocks(s), i);
      var pile := s[i];
      if pile > 2 {
        var splits := SplitPileOptions(pile);
        ghost var before := successors;
        for k := 0 to |splits|
          invariant successors == before + PileSuccessors(s, i)[..k]
        {
          var (a, b) := splits[k];
          var newState := s[..i] + [a, b] + s[i + 1..];
          PileStep(s, i, k);
          successors := successors + [SortDesc(newState)];
        }
        assert PileSuccessors(s, i)[..|splits|] == PileSuccessors(s, i);
      }
    }
    assert Blocks(s)[..|s|] == Blocks(s);
  }

  lemma PileStep(s: Piles, i: int, k: int)
    requires 0 <= i < |s| && s[i] > 2 && 0 <= k < |SplitPileOptions(s[i])|
    ensures PileSuccessors(s, i)[..k + 1] ==
      PileSuccessors(s, i)[..k] + [SortDesc(Replace(s, i, SplitPileOptions(s[i])[k].0, SplitPileOptions(s[i])[k].1))]
  {
    var ps := PileSuccessors(s, i);
    assert ps[..k + 1] == ps[..k] + [ps[k]];
  }

  /** A successor replaces one pile of more than two by a listed split and sorts. */
  predicate IsSplitOf(s: Piles, t: Piles, i: int, a: int)
  {
    && 0 <= i < |s| && s[i] > 2
    && 1 <= a < s[i] && a != s[i] - a
    && t == SortDesc(Replace(s, i, a, s[i] - a))
  }

  /** The successors from pile `i` are its listed splits. */
  lemma PileMember(s: Piles, t: Piles, i: int)
    requires 0 <= i < |s| && t in PileSuccessors(s, i)
    ensures exists a :: IsSplitOf(s, t, i, a)
  {
    var ps := PileSuccessors(s, i);
    var k :| 0 <= k < |ps| && ps[k] == t;
    PileAt(s, i, k);
  }

  /** Successor `k` of pile `i` comes from the `k`-th listed split. */
  lemma PileAt(s: Piles, i: int, k: int)
    requires 0 <= i < |s| && 0 <= k < |PileSuccessors(s, i)|
    ensures s[i] > 2 && k < |SplitPileOptions(s[i])|
    ensures IsSplitOf(s, PileSuccessors(s, i)[k], i, SplitPileOptions(s[i])[k].0)
  {
    ListedSplitValid(s[i], k);
  }

  lemma ListedSplitValid(pile: int, k: int)
    requires 0 <= k < |SplitPileOptions(pile)|
    ensures ValidSplit(pile, SplitPileOptions(pile)[k])
  {
    SplitPileOptionsSpec(pile);
  }

  /** Every successor comes from splitting one pile of more than two. */
  lemma SuccessorIsSplit(s: Piles, t: Piles)
    requires t in Successors(s)
    ensures exists i, a :: IsSplitOf(s, t, i, a)
  {
    ConcatMember(Blocks(s), t);
    var i :| 0 <= i < |s| && t in Blocks(s)[i];
    PileMember(s, t, i);
  }

  /** Every split of a pile of more than two is a successor. */
  lemma SplitIsSuccessor(s: Piles, t: Piles, i: int, a: int)
    requires IsSplitOf(s, t, i, a)
    ensures t in Successors(s)
  {
    SplitPileOptionsSpec(s[i]);
    var sp := SplitPileOptions(s[i]);
    assert Split(s[i], a) in sp;
    var k :| 0 <= k < |sp| && sp[k] == Split(s[i], a);
    assert PileSuccessors(s, i)[k] == t;
    assert t in Blocks(s)[i];
    ConcatMember(Blocks(s), t);
  }

  /** A split successor holds the piles of `s` with `s[i]` traded for its two parts. */
  lemma SplitMultiset(s: Piles, t: Piles, i: int, a: int)
    requires IsSplitOf(s, t, i, a)
    ensures multiset(t) == multiset(s) - multiset{s[i]} + multiset{a, s[i] - a}
  {
    ReplaceMultiset(s, i, a, s[i] - a);
    SortDescSpec(Replace(s, i, a, s[i] - a));
  }

  /** A split successor keeps the total number of objects. */
  lemma SplitSum(s: Piles, t: Piles, i: int, a: int)
    requires IsSplitOf(s, t, i, a)
    ensures Sum(t) == Sum(s)
  {
    SortedShape(Replace(s, i, a, s[i] - a), t);
    ReplaceSum(s, i, a, s[i] - a);
  }

  /** A split successor has one more pile and is in non-increasing order. */
  lemma SplitSorted(s: Piles, t: Piles, i: int, a: int)
    requires IsSplitOf(s, t, i, a)
    ensures |t| == |s| + 1 && SortedDesc(t)
  {
    ReplaceMultiset(s, i, a, s[i] - a);
    SortDescSpec(Replace(s, i, a, s[i] - a));
  }

  /** Sorting keeps the length, the multiset and the sum. */
  lemma SortedShape(r: seq<int>, t: seq<int>)
    requires t == SortDesc(r)
    ensures |t| == |r| && multiset(t) == multiset(r) && SortedDesc(t)
    ensures Sum(t) == Sum(r) && Excess(t) == Excess(r)
  {
    SortDescSpec(r);
    SumPermutation(t, r);
    ExcessPermutation(t, r);
  }

  /** Trading `s[i]` for `a` and `b` adds one pile and trades the multiset accordingly. */
  lemma ReplaceMultiset(s: Piles, i: int, a: int, b: int)
    requires 0 <= i < |s|
    ensures |Replace(s, i, a, b)| == |s| + 1
    ensures multiset(Replace(s, i, a, b)) == multiset(s) - multiset{s[i]} + multiset{a, b}
  {
    MultisetRemove(s, i);
    assert Replace(s, i, a, b) == s[..i] + [a, b] + s[i + 1..];
  }

  /** Trading `s[i]` for `a` and `b` changes the sum accordingly. */
  lemma ReplaceSum(s: Piles, i: int, a: int, b: int)
    requires 0 <= i < |s|
    ensures Sum(Replace(s, i, a, b)) == Sum(s) - s[i] + a + b
  {
    var pre, post := s[..i], s[i + 1..];
    var mid := [a, b] + post;
    assert Replace(s, i, a, b) == pre + mid;
    assert mid[1..] == [b] + post && ([b] + post)[1..] == post;
    assert Sum(mid) == a + b + Sum(post);
    SumAppend(pre, mid);
    SumAppend(pre, post);
    SumRemove(s, i);
  }

  /** Trading `s[i]` for `a` and `b` changes the weight accordingly. */
  lemma ReplaceExcess(s: Piles, i: int, a: int, b: int)
    requires 0 <= i < |s|
    ensures Excess(Replace(s, i, a, b)) == Excess(s) - Weight(s[i]) + Weight(a) + Weight(b)
  {
    var pre, post := s[..i], s[i + 1..];
    var mid := [a, b] + post;
    assert Replace(s, i, a, b) == pre + mid;
    assert mid[1..] == [b] + post && ([b] + post)[1..] == post;
    assert Excess(mid) == Weight(a) + Weight(b) + Excess(post);
    ExcessAppend(pre, mid);
    ExcessAppend(pre, post);
    ExcessRemove(s, i);
  }

  /** Along a move the sum stays and the length grows by one, so
      `sum(state) - len(state)` drops by exactly one. */
  lemma MeasureDrops(s: Piles, t: Piles)
    requires t in Successors(s)
    ensures Sum(t) == Sum(s) && |t| == |s| + 1 && SortedDesc(t)
    ensures Sum(t) - |t| == Sum(s) - |s| - 1
  {
    SuccessorIsSplit(s, t);
    var i, a :| IsSplitOf(s, t, i, a);
    SplitSum(s, t, i, a);
    SplitSorted(s, t, i, a);
  }

  /** There is no move exactly when the state is terminal. */
  lemma NoSuccessorsIffTerminal(s: Piles)
    ensures Successors(s) == [] <==> IsTerminal(s)
  {
    if !IsTerminal(s) {
      var i :| 0 <= i < |s| && s[i] > 2;
      SplitPileOptionsSpec(s[i]);
      SplitIsSuccessor(s, SortDesc(Replace(s, i, 1, s[i] - 1)), i, 1);
    } else if Successors(s) != [] {
      SuccessorIsSplit(s, Successors(s)[0]);
    }
  }

  // ---------------------------------------------------------------------
  // A termination measure

  /** The objects of a pile beyond its first; nothing for an empty pile. */
  function Weight(p: int): nat
  {
    if p >= 1 then p - 1 else 0
  }

  /** The total weight: an upper bound on the number of moves left. */
  function Excess(s: Piles): nat
    decreases |s|
  {
    if s == [] then 0 else Weight(s[0]) + Excess(s[1..])
  }

  lemma {:induction false} ExcessAppend(a: Piles, b: Piles)
    ensures Excess(a + b) == Excess(a) + Excess(b)
    decreases |a|
  {
    if a == [] {
      assert a + b == b;
    } else {
      assert (a + b)[0] == a[0];
      assert (a + b)[1..] == a[1..] + b;
      ExcessAppend(a[1..], b);
    }
  }

  lemma ExcessRemove(b: Piles, j: int)
    requires 0 <= j < |b|
    ensures Excess(b) == Weight(b[j]) + Excess(b[..j] + b[j + 1..])
  {
    var tail := b[j..];
    assert b == b[..j] + tail;
    assert tail[1..] == b[j + 1..];
    assert Excess(tail) == Weight(b[j]) + Excess(b[j + 1..]);
    ExcessAppend(b[..j], tail);
    ExcessAppend(b[..j], b[j + 1..]);
  }

  /** The weight depends only on the multiset of piles. */
  lemma {:induction false} ExcessPermutation(a: Piles, b: Piles)
    requires multiset(a) == multiset(b)
    ensures Excess(a) == Excess(b)
    decreases |a|
  {
    if a != [] {
      var j := IndexOf(b, a[0]);
      MatchRemove(a, b, j);
      ExcessPermutation(a[1..], b[..j] + b[j + 1..]);
      ExcessRemove(b, j);
    }
  }

  /** Every move lowers the weight, so play always ends. */
  lemma ExcessDrops(s: Piles, t: Piles)
    requires t in Successors(s)
    ensures Excess(t) < Excess(s)
  {
    SuccessorIsSplit(s, t);
    var i, a :| IsSplitOf(s, t, i, a);
    SplitExcess(s, t, i, a);
  }

  /** A split successor trades the weight of `s[i]` for that of its parts. */
  lemma SplitExcess(s: Piles, t: Piles, i: int, a: int)
    requires IsSplitOf(s, t, i, a)
    ensures Excess(t) == Excess(s) - Weight(s[i]) + Weight(a) + Weight(s[i] - a)
  {
    SortedShape(Replace(s, i, a, s[i] - a), t);
    ReplaceExcess(s, i, a, s[i] - a);
  }

  // ---------------------------------------------------------------------
  // Piles of at least one object

  /** Every pile holds at least one object, as in every state reached from `[7]`. */
  predicate Positive(s: Piles)
  {
    forall i :: 0 <= i < |s| ==> s[i] >= 1
  }

  /** Moves keep every pile non-empty. */
  lemma MovesKeepPositive(s: Piles, t: Piles)
    requires Positive(s) && t in Successors(s)
    ensures Positive(t)
  {
    SuccessorIsSplit(s, t);
    var i, a :| IsSplitOf(s, t, i, a);
    SplitMultiset(s, t, i, a);
    forall j | 0 <= j < |t| ensures t[j] >= 1 {
      assert t[j] in multiset(t);
      if t[j] != a && t[j] != s[i] - a {
        assert t[j] in multiset(s);
        var k :| 0 <= k < |s| && s[k] == t[j];
      }
    }
  }

  // ---------------------------------------------------------------------
  // Who wins

  /** The player to move can force a win: some move leaves the opponent
      in a position they cannot win. A player left without a move loses. */
  predicate MoverWins(s: Piles)
    decreases Excess(s), 1
  {
    exists j :: 0 <= j < |Successors(s)| && WinningMove(s, j)
  }

  /** Move `j` from `s` wins: it leaves the opponent unable to force a win. */
  predicate WinningMove(s: Piles, j: int)
    requires 0 <= j < |Successors(s)|
    decreases Excess(s), 0
  {
    ExcessDrops(s, Successors(s)[j]);
    !MoverWins(Successors(s)[j])
  }

  /** A winning position has a winning move. */
  lemma WinningMoveOf(s: Piles) returns (j: int)
    requires MoverWins(s)
    ensures 0 <= j < |Successors(s)| && WinningMove(s, j)
  {
    j :| 0 <= j < |Successors(s)| && WinningMove(s, j);
  }

  /** A player without a move loses. */
  lemma TerminalLoses(s: Piles)
    requires IsTerminal(s)
    ensures !MoverWins(s)
  {
    NoSuccessorsIffTerminal(s);
  }

  /** A move to a position the opponent cannot win wins. */
  lemma WinBy(s: Piles, t: Piles)
    requires t in Successors(s) && !MoverWins(t)
    ensures MoverWins(s)
  {
    var j :| 0 <= j < |Successors(s)| && Successors(s)[j] == t;
    assert WinningMove(s, j);
  }

  /** When every move hands the opponent a win, the mover loses. */
  lemma LoseIfAll(s: Piles)
    requires forall t :: t in Successors(s) ==> MoverWins(t)
    ensures !MoverWins(s)
  {
    forall j | 0 <= j < |Successors(s)| ensures !WinningMove(s, j) {
      assert Successors(s)[j] in Successors(s);
    }
  }

  // ---------------------------------------------------------------------
  // The game from [6]

  /** From `[6]` the first move listed is to `[5, 1]`, a position the
      opponent wins, while `[4, 2]` is also listed and the opponent loses
      there: `[6]` is a win for the player to move, but not by the first
      move. */
  lemma FromSix()
    ensures Successors([6]) != [] && Successors([6])[0] == [5, 1] && MoverWins([5, 1])
    ensures [4, 2] in Successors([6]) && !MoverWins([4, 2]) && MoverWins([6])
  {
    FirstOfSix();
    FiveOneWins();
    FourTwoLoses();
    assert Replace([6], 0, 2, 4) == [2] + [4];
    SortFront(2, [4], [4], []);
    SplitIsSuccessor([6], [4, 2], 0, 2);
    WinBy([6], [4, 2]);
  }

  lemma FirstOfSix()
    ensures Successors([6]) != [] && Successors([6])[0] == [5, 1]
  {
    var s: Piles := [6];
    assert SplitPileOptions(6)[0] == (1, 5);
    assert Replace(s, 0, 1, 5) == [1, 5];
    assert SortDesc([1, 5]) == [5, 1];
    assert Blocks(s) == [PileSuccessors(s, 0)];
    assert Concat(Blocks(s)) == Concat(Blocks(s)[..0]) + PileSuccessors(s, 0);
  }

  lemma FiveOneWins()
    ensures MoverWins([5, 1])
  {
    var s: Piles := [5, 1];
    SplitOfFiveOne();
    SplitIsSuccessor(s, [4, 1, 1], 0, 1);
    FourOneOneLoses();
    WinBy(s, [4, 1, 1]);
  }

  lemma SplitOfFiveOne()
    ensures SortDesc(Replace([5, 1], 0, 1, 4)) == [4, 1, 1]
  {
    assert Replace([5, 1], 0, 1, 4) == [1] + [4, 1];
    SortFront(1, [4, 1], [4], [1]);
  }

  lemma FourOneOneLoses()
    ensures !MoverWins([4, 1, 1])
  {
    var s: Piles := [4, 1, 1];
    SplitsOfFourOneOne();
    forall t | t in Successors(s) ensures MoverWins(t) {
      SuccessorIsSplit(s, t);
      var i, a :| IsSplitOf(s, t, i, a);
      assert i == 0 && (a == 1 || a == 3);
      ThreeOnesWins();
    }
    LoseIfAll(s);
  }

  lemma SplitsOfFourOneOne()
    ensures SortDesc(Replace([4, 1, 1], 0, 1, 3)) == [3, 1, 1, 1]
    ensures SortDesc(Replace([4, 1, 1], 0, 3, 1)) == [3, 1, 1, 1]
  {
    FourOneOneByOne();
    assert Replace([4, 1, 1], 0, 3, 1) == [3, 1, 1, 1];
    SortedFixed([3, 1, 1, 1]);
  }

  lemma FourOneOneByOne()
    ensures SortDesc(Replace([4, 1, 1], 0, 1, 3)) == [3, 1, 1, 1]
  {
    assert Replace([4, 1, 1], 0, 1, 3) == [1] + [3, 1, 1];
    SortFront(1, [3, 1, 1], [3], [1, 1]);
  }

  lemma ThreeOnesWins()
    ensures MoverWins([3, 1, 1, 1])
  {
    var s: Piles := [3, 1, 1, 1];
    SplitOfThreeOnes();
    SplitIsSuccessor(s, [2, 1, 1, 1, 1], 0, 1);
    TerminalLoses([2, 1, 1, 1, 1]);
    WinBy(s, [2, 1, 1, 1, 1]);
  }

  lemma SplitOfThreeOnes()
    ensures SortDesc(Replace([3, 1, 1, 1], 0, 1, 2)) == [2, 1, 1, 1, 1]
  {
    assert Replace([3, 1, 1, 1], 0, 1, 2) == [1] + [2, 1, 1, 1];
    SortFront(1, [2, 1, 1, 1], [2], [1, 1, 1]);
  }

  lemma FourTwoLoses()
    ensures !MoverWins([4, 2])
  {
    var s: Piles := [4, 2];
    SplitsOfFourTwo();
    forall t | t in Successors(s) ensures MoverWins(t) {
      SuccessorIsSplit(s, t);
      var i, a :| IsSplitOf(s, t, i, a);
      assert i == 0 && (a == 1 || a == 3);
      ThreeTwoOneWins();
    }
    LoseIfAll(s);
  }

  lemma SplitsOfFourTwo()
    ensures SortDesc(Replace([4, 2], 0, 1, 3)) == [3, 2, 1]
    ensures SortDesc(Replace([4, 2], 0, 3, 1)) == [3, 2, 1]
  {
    FourTwoByOne();
    FourTwoByThree();
  }

  lemma FourTwoByOne()
    ensures SortDesc(Replace([4, 2], 0, 1, 3)) == [3, 2, 1]
  {
    assert Replace([4, 2], 0, 1, 3) == [1] + [3, 2];
    SortFront(1, [3, 2], [3, 2], []);
  }

  lemma FourTwoByThree()
    ensures SortDesc(Replace([4, 2], 0, 3, 1)) == [3, 2, 1]
  {
    assert Replace([4, 2], 0, 3, 1) == [3] + [1, 2];
    assert [1, 2] == [1] + [2];
    SortFront(1, [2], [2], []);
    SortFront(3, [2, 1], [], [2, 1]);
    assert SortDesc([3] + [1, 2]) == InsertDesc(3, SortDesc([1, 2]));
  }

  lemma ThreeTwoOneWins()
    ensures MoverWins([3, 2, 1])
  {
    var s: Piles := [3, 2, 1];
    SplitOfThreeTwoOne();
    SplitIsSuccessor(s, [2, 2, 1, 1], 0, 1);
    TerminalLoses([2, 2, 1, 1]);
    WinBy(s, [2, 2, 1, 1]);
  }

  lemma SplitOfThreeTwoOne()
    ensures SortDesc(Replace([3, 2, 1], 0, 1, 2)) == [2, 2, 1, 1]
  {
    assert Replace([3, 2, 1], 0, 1, 2) == [1] + [2, 2, 1];
    SortFront(1, [2, 2, 1], [2, 2], [1]);
  }
}
