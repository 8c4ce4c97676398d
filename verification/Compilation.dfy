/** What the compiled module means for its table: cell by cell, and folded over any input
    sequence; and what the pairwise check of src/sandbox.rs establishes about any module. */
module Compilation {
  import opened Basics
  import opened Model
  import opened Evaluation
  import opened WebAssembly
  import opened Sandbox

  /** A candidate as the checker accepts it: valid grammar and symbols, one transition a cell. */
  ghost predicate Sound(c: Candidate) {
    && c.grammar.Valid()
    && (forall k :: 0 <= k < |c.transitions| ==> c.transitions[k].Valid(c.grammar))
    && DistinctCells(c.transitions)
  }

  ghost predicate Total(c: Candidate) {
    forall s, i :: s in c.grammar.states && i in c.grammar.inputs ==> (s, i) in TableOf(c.transitions)
  }

  function IndexIn(values: seq<Text>, value: Text): nat
    requires value in values
  {
    Position(values, value)
  }

  /** The packed answer a table prescribes for one cell. */
  function Prescribed(g: Grammar, table: Table, s: Text, i: Text): nat {
    if (s, i) !in table then MINUS_ONE
    else
      var (next, output) := table[(s, i)];
      if next in g.states && output in g.outputs
      then Pack(IndexIn(g.states, next), IndexIn(g.outputs, output)) else MINUS_ONE
  }

  /** The module answers every known cell as the table prescribes. */
  ghost predicate Agrees(code: seq<Instr>, c: Candidate) {
    forall s, i :: s in c.grammar.states && i in c.grammar.inputs ==>
      Invoke(code, IndexIn(c.grammar.states, s), IndexIn(c.grammar.inputs, i))
      == Some(Prescribed(c.grammar, TableOf(c.transitions), s, i))
  }

  lemma LowersTo(g: Grammar, t: Transition)
    requires g.Valid() && t.Valid(g)
    ensures Lower(g, t) == Ok(Row(IndexIn(g.states, t.state), IndexIn(g.inputs, t.input),
                                  IndexIn(g.states, t.nextState), IndexIn(g.outputs, t.output)))
  {
  }

  lemma SoundLowers(c: Candidate)
    requires Sound(c)
    ensures LowerAll(c.grammar, c.transitions).Ok?
  {
    forall k | 0 <= k < |c.transitions|
      ensures Lower(c.grammar, c.transitions[k]).Ok?
    {
      LowersTo(c.grammar, c.transitions[k]);
    }
    LowerAllRefuses(c.grammar, c.transitions);
  }

  lemma RowOf(c: Candidate, rows: seq<Row>, k: nat)
    requires Sound(c) && LowerAll(c.grammar, c.transitions) == Ok(rows) && k < |rows|
    ensures |rows| == |c.transitions|
    ensures rows[k].state == IndexIn(c.grammar.states, c.transitions[k].state)
    ensures rows[k].input == IndexIn(c.grammar.inputs, c.transitions[k].input)
    ensures rows[k].next == IndexIn(c.grammar.states, c.transitions[k].nextState)
    ensures rows[k].output == IndexIn(c.grammar.outputs, c.transitions[k].output)
  {
    LowerAllRows(c.grammar, c.transitions, k);
    LowersTo(c.grammar, c.transitions[k]);
  }

  /** A row answers a pair of indices exactly when its transition is about that cell. */
  lemma RowMatches(c: Candidate, rows: seq<Row>, k: nat, s: Text, i: Text)
    requires Sound(c) && LowerAll(c.grammar, c.transitions) == Ok(rows) && k < |rows|
    requires s in c.grammar.states && i in c.grammar.inputs
    ensures |rows| == |c.transitions|
    ensures rows[k].state == IndexIn(c.grammar.states, s) && rows[k].input == IndexIn(c.grammar.inputs, i)
            <==> c.transitions[k].Cell() == (s, i)
  {
    RowOf(c, rows, k);
  }

  /** The dispatch of one known cell finds exactly that cell's row. */
  lemma CellDispatch(c: Candidate, rows: seq<Row>, s: Text, i: Text)
    requires Sound(c) && LowerAll(c.grammar, c.transitions) == Ok(rows)
    requires s in c.grammar.states && i in c.grammar.inputs
    ensures Dispatch(rows, IndexIn(c.grammar.states, s), IndexIn(c.grammar.inputs, i))
            == Prescribed(c.grammar, TableOf(c.transitions), s, i)
  {
    hide LowerAll, Lower, IndexIn, Position, Pack, TableOf, Grammar.Valid;
    TableOfDistinct(c.transitions);
    forall n: nat | n < |rows| {
      RowMatches(c, rows, n, s, i);
    }
    var k := Hit(rows, IndexIn(c.grammar.states, s), IndexIn(c.grammar.inputs, i));
    if k < |rows| {
      RowOf(c, rows, k);
      assert c.transitions[k].Valid(c.grammar);
    }
  }

  /** Compilation preserves meaning cell by cell. */
  lemma CompiledAgrees(c: Candidate)
    requires Sound(c)
    ensures LowerAll(c.grammar, c.transitions).Ok?
    ensures Agrees(Code(LowerAll(c.grammar, c.transitions).value), c)
  {
    SoundLowers(c);
    var rows := LowerAll(c.grammar, c.transitions).value;
    forall s, i | s in c.grammar.states && i in c.grammar.inputs
      ensures Invoke(Code(rows), IndexIn(c.grammar.states, s), IndexIn(c.grammar.inputs, i))
              == Some(Prescribed(c.grammar, TableOf(c.transitions), s, i))
    {
      ModuleMeaning(rows, IndexIn(c.grammar.states, s), IndexIn(c.grammar.inputs, i));
      CellDispatch(c, rows, s, i);
    }
  }

  /** Outside the listed cells, whatever the two integers are, the module answers -1. */
  lemma CompiledElsewhere(c: Candidate, x: nat, y: nat)
    requires Sound(c)
    requires forall t :: t in c.transitions ==> IndexOf(c.grammar.states, t.state) != Ok(x)
                                                || IndexOf(c.grammar.inputs, t.input) != Ok(y)
    ensures LowerAll(c.grammar, c.transitions).Ok?
    ensures Invoke(Code(LowerAll(c.grammar, c.transitions).value), x, y) == Some(MINUS_ONE)
  {
    SoundLowers(c);
    var rows := LowerAll(c.grammar, c.transitions).value;
    ModuleMeaning(rows, x, y);
    forall n: nat | n < |rows|
      ensures rows[n].state != x || rows[n].input != y
    {
      assert c.transitions[n] in c.transitions;
      LowerAllRows(c.grammar, c.transitions, n);
      assert Lower(c.grammar, c.transitions[n]) == Ok(rows[n]);
    }
  }

  // ----- Folding `step` over an input sequence -----

  /** A host that feeds the module its own state index back and spells out its outputs. */
  function Fold(code: seq<Instr>, g: Grammar, x: nat, inputs: seq<Text>): Result<seq<Text>, Error>
    decreases |inputs|
  {
    if inputs == [] then Ok([])
    else
      match IndexOf(g.inputs, inputs[0])
      case Err(e) => Err(e)
      case Ok(y) =>
        match Invoke(code, x, y)
        case None => Err(CheckerRejected)
        case Some(v) =>
          if v == MINUS_ONE || v % U32_LIMIT >= |g.outputs| then Err(InvalidEvidence)
          else
            match Fold(code, g, v / U32_LIMIT, inputs[1..])
            case Err(e) => Err(e)
            case Ok(rest) => Ok([g.outputs[v % U32_LIMIT]] + rest)
  }

  lemma PrescribedDecodes(c: Candidate, s: Text, i: Text)
    requires Sound(c) && s in c.grammar.states && i in c.grammar.inputs
    ensures var v := Prescribed(c.grammar, TableOf(c.transitions), s, i);
            if (s, i) !in TableOf(c.transitions) then v == MINUS_ONE
            else
              var (next, output) := TableOf(c.transitions)[(s, i)];
              && v != MINUS_ONE && next in c.grammar.states && output in c.grammar.outputs
              && v / U32_LIMIT == IndexIn(c.grammar.states, next)
              && v % U32_LIMIT == IndexIn(c.grammar.outputs, output)
  {
    TableOfDistinct(c.transitions);
    if (s, i) in TableOf(c.transitions) {
      var j :| 0 <= j < |c.transitions| && c.transitions[j].Cell() == (s, i);
      var (next, output) := TableOf(c.transitions)[(s, i)];
      assert c.transitions[j].Valid(c.grammar) && c.transitions[j].Choice() == (next, output);
      PackRoundTrip(IndexIn(c.grammar.states, next), IndexIn(c.grammar.outputs, output));
    }
  }

  lemma UnknownInput(c: Candidate, s: Text, i: Text)
    requires Sound(c) && i !in c.grammar.inputs
    ensures (s, i) !in TableOf(c.transitions)
  {
    TableOfDistinct(c.transitions);
  }

  lemma {:induction false} FoldFollowsTable(code: seq<Instr>, c: Candidate, s: Text, inputs: seq<Text>)
    requires Sound(c) && Agrees(code, c) && s in c.grammar.states
    ensures Fold(code, c.grammar, IndexIn(c.grammar.states, s), inputs) == Run(TableOf(c.transitions), s, inputs)
    decreases |inputs|
  {
    if inputs != [] {
      var i := inputs[0];
      if i in c.grammar.inputs {
        PrescribedDecodes(c, s, i);
        if (s, i) in TableOf(c.transitions) {
          FoldFollowsTable(code, c, TableOf(c.transitions)[(s, i)].0, inputs[1..]);
        }
      } else {
        UnknownInput(c, s, i);
      }
    }
  }

  /** Compilation preserves meaning on every input sequence, unknown symbols included. */
  lemma CompilationPreservesTraces(c: Candidate, s: Text, inputs: seq<Text>)
    requires Sound(c) && s in c.grammar.states
    ensures LowerAll(c.grammar, c.transitions).Ok?
    ensures Fold(Code(LowerAll(c.grammar, c.transitions).value), c.grammar, IndexIn(c.grammar.states, s), inputs)
            == Run(TableOf(c.transitions), s, inputs)
  {
    CompiledAgrees(c);
    FoldFollowsTable(Code(LowerAll(c.grammar, c.transitions).value), c, s, inputs);
  }

  // ----- The pairwise check of a module against its candidate -----

  ghost predicate PassesPairwise(c: Candidate, code: seq<Instr>) {
    forall k :: 0 <= k < |c.transitions| ==>
      && Lower(c.grammar, c.transitions[k]).Ok?
      && var row := Lower(c.grammar, c.transitions[k]).value;
         Invoke(code, row.state, row.input) == Some(Pack(row.next, row.output))
  }

  method Verify(c: Candidate, code: seq<Instr>) returns (r: Result<nat, Error>)
    ensures r.Ok? <==> PassesPairwise(c, code)
    ensures r.Ok? ==> r.value == |c.transitions|
  {
    for k := 0 to |c.transitions|
      invariant forall j :: 0 <= j < k ==>
        && Lower(c.grammar, c.transitions[j]).Ok?
        && var row := Lower(c.grammar, c.transitions[j]).value;
           Invoke(code, row.state, row.input) == Some(Pack(row.next, row.output))
    {
      var row := Lower(c.grammar, c.transitions[k]);
      if row.Err? {
        return Err(row.error);
      }
      var observed := Invoke(code, row.value.state, row.value.input);
      if observed != Some(Pack(row.value.next, row.value.output)) {
        return Err(CheckerRejected);
      }
    }
    return Ok(|c.transitions|);
  }

  /** For a total table the pairwise check is enough: any module that passes it, compiled
      here or not, behaves as the table. */
  lemma PassingModuleAgrees(c: Candidate, code: seq<Instr>)
    requires Sound(c) && Total(c) && PassesPairwise(c, code)
    ensures Agrees(code, c)
  {
    TableOfDistinct(c.transitions);
    forall s, i | s in c.grammar.states && i in c.grammar.inputs
      ensures Invoke(code, IndexIn(c.grammar.states, s), IndexIn(c.grammar.inputs, i))
              == Some(Prescribed(c.grammar, TableOf(c.transitions), s, i))
    {
      assert (s, i) in TableOf(c.transitions);
      var j :| 0 <= j < |c.transitions| && c.transitions[j].Cell() == (s, i);
      LowersTo(c.grammar, c.transitions[j]);
    }
  }

  /** The compiler's own output always passes. */
  lemma CompiledPasses(c: Candidate)
    requires Sound(c)
    ensures LowerAll(c.grammar, c.transitions).Ok?
    ensures PassesPairwise(c, Code(LowerAll(c.grammar, c.transitions).value))
  {
    CompiledAgrees(c);
    TableOfDistinct(c.transitions);
    var code := Code(LowerAll(c.grammar, c.transitions).value);
    forall k | 0 <= k < |c.transitions|
      ensures Lower(c.grammar, c.transitions[k]).Ok?
      ensures var row := Lower(c.grammar, c.transitions[k]).value;
              Invoke(code, row.state, row.input) == Some(Pack(row.next, row.output))
    {
      AgreementAt(c, code, k);
    }
  }

  lemma AgreementAt(c: Candidate, code: seq<Instr>, k: nat)
    requires Sound(c) && Agrees(code, c) && k < |c.transitions|
    ensures Lower(c.grammar, c.transitions[k]).Ok?
    ensures var row := Lower(c.grammar, c.transitions[k]).value;
            Invoke(code, row.state, row.input) == Some(Pack(row.next, row.output))
  {
    var t := c.transitions[k];
    LowersTo(c.grammar, t);
    TableOfDistinct(c.transitions);
    assert Invoke(code, IndexIn(c.grammar.states, t.state), IndexIn(c.grammar.inputs, t.input))
           == Some(Prescribed(c.grammar, TableOf(c.transitions), t.state, t.input));
  }
}
