/** The table-driven vacuum agent: it remembers every percept it has had
    and looks the whole history up in a fixed table. */
module TableDrivenAgent {
  import opened Enums

  type LookupTable = map<seq<Percept>, Action>

  const CleanA: Percept := (A, Clean)
  const DirtyA: Percept := (A, Dirty)
  const CleanB: Percept := (B, Clean)
  const DirtyB: Percept := (B, Dirty)

  /** The table the agent runs on: every one-percept history, and a few
      histories of length two and three. */
  const TableDefinition: LookupTable := map[
    [CleanA] := Right,
    [DirtyA] := Suck,
    [CleanB] := Left,
    [DirtyB] := Suck,
    [CleanA, CleanA] := Right,
    [CleanA, DirtyA] := Suck,
    [CleanA, CleanA, CleanA] := Right,
    [CleanA, CleanA, DirtyA] := Suck,
    [CleanA, DirtyA, CleanB] := Left
  ]

  /** `LOOKUP`: the table's action for exactly this history, or `NoOp` when
      the table has no entry for it. */
  function Lookup(percepts: seq<Percept>, table: LookupTable): (a: Action)
    ensures percepts in table ==> a == table[percepts]
    ensures percepts !in table ==> a == NoOp
  {
    if percepts in table then table[percepts] else NoOp
  }

  /** The agent with its percept history, which `TABLE_DRIVEN_AGENT` keeps
      in a module-level list. */
  class Agent {
    var percepts: seq<Percept>
    const table: LookupTable

    constructor (table: LookupTable)
      ensures percepts == [] && this.table == table
    {
      percepts := [];
      this.table := table;
    }

    /** `TABLE_DRIVEN_AGENT`: append the percept, then look up the whole
        history. */
    method Perceive(percept: Percept) returns (a: Action)
      modifies this
      ensures percepts == old(percepts) + [percept]
      ensures a == Lookup(percepts, table)
    {
      percepts := percepts + [percept];
      a := Lookup(percepts, table);
    }
  }

  /** The actions an agent starting with no history takes on the percepts
      `ps`, one per percept: each is the lookup of the history so far. */
  function Responses(ps: seq<Percept>, table: LookupTable): (acts: seq<Action>)
    ensures |acts| == |ps|
    decreases |ps|
  {
    if ps == [] then [] else Responses(ps[..|ps| - 1], table) + [Lookup(ps, table)]
  }

  /** The `i`-th response is the lookup of the first `i + 1` percepts. */
  lemma {:induction false} ResponsesAt(ps: seq<Percept>, table: LookupTable, i: int)
    requires 0 <= i < |ps|
    ensures Responses(ps, table)[i] == Lookup(ps[..i + 1], table)
    decreases |ps|
  {
    if i < |ps| - 1 {
      var init := ps[..|ps| - 1];
      ResponsesAt(init, table, i);
      assert init[..i + 1] == ps[..i + 1];
    } else {
      assert ps[..i + 1] == ps;
    }
  }

  /** Every history the table knows has one to three percepts. */
  lemma TableHistoriesShort()
    ensures forall h :: h in TableDefinition ==> 1 <= |h| <= 3
  {
  }

  /** Once the history is longer than three percepts the agent can only
      wait, whatever it perceives. */
  lemma LongHistoryWaits(percepts: seq<Percept>)
    requires |percepts| > 3
    ensures Lookup(percepts, TableDefinition) == NoOp
  {
    TableHistoriesShort();
  }

  /** The table covers every single percept, so the first action is never
      `NoOp`: the agent sucks a dirty square and otherwise moves to the
      other square. */
  lemma FirstPerceptCovered(p: Percept)
    ensures [p] in TableDefinition
    ensures Lookup([p], TableDefinition) == (if p.1 == Dirty then Suck else if p.0 == A then Right else Left)
  {
    var (l, st) := p;
    if l == A {
      if st == Clean { assert p == CleanA; } else { assert p == DirtyA; }
    } else {
      if st == Clean { assert p == CleanB; } else { assert p == DirtyB; }
    }
  }

  /** The demo: perceiving clean A, dirty A, clean B and dirty B in turn
      gives right, suck, left, and then -- this four-percept history not
      being in the table -- no-op. */
  lemma DemoRun()
    ensures Responses([CleanA, DirtyA, CleanB, DirtyB], TableDefinition) == [Right, Suck, Left, NoOp]
  {
    var ps := [CleanA, DirtyA, CleanB, DirtyB];
    var acts := Responses(ps, TableDefinition);
    ResponsesAt(ps, TableDefinition, 0);
    assert ps[..1] == [CleanA];
    ResponsesAt(ps, TableDefinition, 1);
    assert ps[..2] == [CleanA, DirtyA];
    ResponsesAt(ps, TableDefinition, 2);
    assert ps[..3] == [CleanA, DirtyA, CleanB];
    ResponsesAt(ps, TableDefinition, 3);
    assert ps[..4] == ps;
    LongHistoryWaits(ps);
  }

  /** Perceiving one more percept after a history `h` gives the next
      element of `Responses`. */
  lemma ResponsesAppend(h: seq<Percept>, p: Percept, table: LookupTable)
    ensures Responses(h + [p], table) == Responses(h, table) + [Lookup(h + [p], table)]
  {
    var ps := h + [p];
    assert ps[..|ps| - 1] == h;
  }
}
