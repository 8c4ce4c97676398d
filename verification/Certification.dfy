/** Certification of a decoded candidate (`certify` in src/checker.rs) and its consequences. */
module Certification {
  import opened Basics
  import opened Model
  import opened Evaluation
  import opened Wire
  import opened Checker
  import Compilation
  import DirectBuilder
  import Search
  import WireIo

  datatype Coverage = Coverage(
    mandatory: nat,
    passed: nat,
    heldOut: nat,
    passedHeldOut: nat,
    negative: nat,
    metamorphic: nat,
    uncovered: nat
  )

  // ----- The obligations one fragment puts on the table -----

  function HeldOutPasses(n: Nested, initialState: Text, inputs: seq<Text>, outputs: seq<Text>): bool {
    |inputs| == |outputs| && initialState in n && NestedRun(n, initialState, inputs) == Ok(outputs)
  }

  function Passes(n: Nested, g: Grammar, content: FragmentContent): bool {
    match content
    case Rule(state, input, nextState, output) =>
      content.Demand().Valid(g) && Lookup(n, state, input) == Some((nextState, output))
    case Trace(HeldOut, initialState, inputs, outputs) => HeldOutPasses(n, initialState, inputs, outputs)
    case Trace(Training, _, _, _) => true
    case NegativeCase(initialState, inputs, forbidden) =>
      var r := NestedRun(n, initialState, inputs);
      r.Ok? && r.value != forbidden
    case MetamorphicProperty(initialState, input, repetitions) =>
      repetitions >= 2 && NestedIdempotent(n, initialState, input, repetitions) == Ok(true)
    case StatePolicy(states, initialState) => states == g.states && initialState == g.initialState
  }

  datatype Kind = ARule | AHeldOut | APolicy | ANegative | AMetamorphic | ATraining

  function KindOf(content: FragmentContent): Kind {
    match content
    case Rule(_, _, _, _) => ARule
    case Trace(HeldOut, _, _, _) => AHeldOut
    case Trace(Training, _, _, _) => ATraining
    case NegativeCase(_, _, _) => ANegative
    case MetamorphicProperty(_, _, _) => AMetamorphic
    case StatePolicy(_, _) => APolicy
  }

  function Count(contents: seq<FragmentContent>, kind: Kind): nat {
    if contents == [] then 0
    else Count(contents[..|contents| - 1], kind)
         + if KindOf(contents[|contents| - 1]) == kind then 1 else 0
  }

  /** The structural part: a valid grammar, and exactly one valid transition per cell. */
  ghost predicate WellBuilt(c: Candidate) {
    && Compilation.Sound(c)
    && |c.transitions| == |c.grammar.states| * |c.grammar.inputs|
  }

  ghost predicate AllPass(n: Nested, g: Grammar, contents: seq<FragmentContent>) {
    forall k :: 0 <= k < |contents| ==> Passes(n, g, contents[k])
  }

  ghost predicate CertifiesCandidate(c: Candidate, component: Text, interfaceVersion: Text,
                                     contents: seq<FragmentContent>) {
    && WellBuilt(c)
    && c.component == component && c.interfaceVersion == interfaceVersion
    && AllPass(NestedOf(c.grammar, c.transitions), c.grammar, contents)
    && Count(contents, ARule) == |c.grammar.states| * |c.grammar.inputs|
    && Count(contents, AHeldOut) > 0
    && Count(contents, APolicy) == 1
  }

  ghost predicate Certifies(wire: seq<Byte>, component: Text, interfaceVersion: Text,
                            contents: seq<FragmentContent>) {
    var c := Decode(wire);
    c.Some? && CertifiesCandidate(c.value, component, interfaceVersion, contents)
  }

  // ----- Building the nested table -----

  function SumSizes(n: Nested, states: seq<Text>): nat
    requires forall s :: s in states ==> s in n
  {
    if states == [] then 0 else |n[states[0]]| + SumSizes(n, states[1..])
  }

  lemma {:induction false} SumUnchanged(n: Nested, m: Nested, states: seq<Text>)
    requires forall s :: s in states ==> s in n && s in m && m[s] == n[s]
    ensures SumSizes(m, states) == SumSizes(n, states)
  {
    if states != [] {
      SumUnchanged(n, m, states[1..]);
    }
  }

  lemma {:induction false} SumGrows(n: Nested, s: Text, inner: map<Text, (Text, Text)>, states: seq<Text>)
    requires NoDuplicates(states) && s in states && forall t :: t in states ==> t in n
    requires |inner| == |n[s]| + 1
    ensures SumSizes(n[s := inner], states) == SumSizes(n, states) + 1
  {
    if states[0] == s {
      assert s !in states[1..];
      SumUnchanged(n, n[s := inner], states[1..]);
    } else {
      assert s in states[1..];
      assert NoDuplicates(states[1..]);
      SumGrows(n, s, inner, states[1..]);
    }
  }

  lemma {:induction false} SumEmpty(n: Nested, states: seq<Text>)
    requires forall s :: s in states ==> s in n && n[s] == map[]
    ensures SumSizes(n, states) == 0
  {
    if states != [] {
      SumEmpty(n, states[1..]);
    }
  }

  method BuildTable(g: Grammar, ts: seq<Transition>) returns (r: Option<Nested>)
    requires g.Valid()
    ensures r.Some? <==> DistinctCells(ts) && forall k :: 0 <= k < |ts| ==> ts[k].Valid(g)
    ensures r.Some? ==> r.value == NestedOf(g, ts) && r.value.Keys == Elements(g.states)
    ensures r.Some? ==> (forall s :: s in g.states ==> s in r.value) && SumSizes(r.value, g.states) == |ts|
  {
    var n: Nested := map s | s in g.states :: map[];
    SumEmpty(n, g.states);
    GrammarTableShape(g);
    assert n == NestedOf(g, ts[..0]) && DistinctCells(ts[..0]);
    hide DistinctCells, NestedOf, SumSizes, TableOf, Grammar.Valid, ValidSymbols, NoDuplicates, Transition.Valid;
    for k := 0 to |ts|
      invariant n == NestedOf(g, ts[..k]) && n.Keys == Elements(g.states)
      invariant forall j :: 0 <= j < k ==> ts[j].Valid(g)
      invariant DistinctCells(ts[..k])
      invariant SumSizes(n, g.states) == k
    {
      var t := ts[k];
      if !t.Valid(g) {
        return None;
      }
      InsertFacts(g, ts, k);
      if t.input in n[t.state] {
        return None;
      }
      n := n[t.state := n[t.state][t.input := t.Choice()]];
    }
    assert ts[..|ts|] == ts;
    return Some(n);
  }

  /** What inserting transition `k` into the table of its predecessors does. */
  lemma InsertFacts(g: Grammar, ts: seq<Transition>, k: nat)
    requires k < |ts| && DistinctCells(ts[..k]) && NoDuplicates(g.states)
    requires forall j :: 0 <= j <= k ==> ts[j].Valid(g)
    ensures var n, t := NestedOf(g, ts[..k]), ts[k];
            && n.Keys == Elements(g.states) && t.state in n
            && NestedOf(g, ts[..k + 1]) == n[t.state := n[t.state][t.input := t.Choice()]]
            && (t.input in n[t.state] ==> !DistinctCells(ts))
            && (t.input !in n[t.state] ==>
                  && DistinctCells(ts[..k + 1])
                  && SumSizes(NestedOf(g, ts[..k + 1]), g.states) == SumSizes(n, g.states) + 1)
  {
    var n, t := NestedOf(g, ts[..k]), ts[k];
    assert ts[..k + 1][..k] == ts[..k];
    LookupsAgree(g, ts[..k], t.state, t.input);
    if t.input in n[t.state] {
      RepeatedCell(ts, k);
    } else {
      FreshCell(ts, k);
      SumGrows(n, t.state, n[t.state][t.input := t.Choice()], g.states);
    }
  }

  lemma RepeatedCell(ts: seq<Transition>, k: nat)
    requires k < |ts| && DistinctCells(ts[..k]) && ts[k].Cell() in TableOf(ts[..k])
    ensures !DistinctCells(ts)
  {
    TableOfDistinct(ts[..k]);
    var j :| 0 <= j < k && ts[..k][j].Cell() == ts[k].Cell();
    assert ts[j].Cell() == ts[k].Cell();
  }

  lemma FreshCell(ts: seq<Transition>, k: nat)
    requires k < |ts| && DistinctCells(ts[..k]) && ts[k].Cell() !in TableOf(ts[..k])
    ensures DistinctCells(ts[..k + 1])
  {
    TableOfDistinct(ts[..k]);
    assert forall j :: 0 <= j < k ==> ts[..k][j] == ts[j] && ts[..k + 1][j] == ts[j];
    assert ts[..k + 1][k] == ts[k];
  }

  // ----- Certification -----

  method CheckContent(n: Nested, g: Grammar, content: FragmentContent) returns (ok: bool)
    ensures ok == Passes(n, g, content)
  {
    match content {
      case Rule(state, input, nextState, output) =>
        return content.Demand().Valid(g) && Lookup(n, state, input) == Some((nextState, output));
      case Trace(HeldOut, initialState, inputs, outputs) =>
        if |inputs| != |outputs| || initialState !in n {
          return false;
        }
        var observed := RunTrace(n, initialState, inputs);
        return observed == Ok(outputs);
      case Trace(Training, _, _, _) =>
        return true;
      case NegativeCase(initialState, inputs, forbidden) =>
        var observed := RunTrace(n, initialState, inputs);
        return observed.Ok? && observed.value != forbidden;
      case MetamorphicProperty(initialState, input, repetitions) =>
        if repetitions < 2 {
          return false;
        }
        var stable := CheckIdempotent(n, initialState, input, repetitions);
        return stable == Ok(true);
      case StatePolicy(states, initialState) =>
        return states == g.states && initialState == g.initialState;
    }
  }

  /** Every refusal of the source is CheckerRejected, so the result is an option. */
  method Certify(wire: seq<Byte>, component: Text, interfaceVersion: Text, contents: seq<FragmentContent>)
    returns (r: Option<Coverage>)
    ensures r.Some? <==> Certifies(wire, component, interfaceVersion, contents)
    ensures r.Some? ==>
      var cells := |Decode(wire).value.grammar.states| * |Decode(wire).value.grammar.inputs|;
      r.value == Coverage(cells, cells, Count(contents, AHeldOut), Count(contents, AHeldOut),
                          Count(contents, ANegative), Count(contents, AMetamorphic), 0)
  {
    hide Decode;
    var decoded := WireIo.DecodeCandidate(wire);
    if decoded.None? {
      return None;
    }
    var c := decoded.value;
    if !c.grammar.Valid() || c.component != component || c.interfaceVersion != interfaceVersion {
      return None;
    }
    var table := BuildTable(c.grammar, c.transitions);
    if table.None? {
      return None;
    }
    var expected := |c.grammar.states| * |c.grammar.inputs|;
    var total := TotalSize(table.value, c.grammar.states);
    if total != expected {
      return None;
    }
    r := CheckAll(table.value, c.grammar, contents, expected);
  }

  method TotalSize(n: Nested, states: seq<Text>) returns (total: nat)
    requires forall s :: s in states ==> s in n
    ensures total == SumSizes(n, states)
  {
    total := 0;
    assert states[0..] == states;
    for k := 0 to |states|
      invariant SumSizes(n, states) == total + SumSizes(n, states[k..])
    {
      assert states[k..][1..] == states[k + 1..];
      total := total + |n[states[k]]|;
    }
  }

  method CheckAll(n: Nested, g: Grammar, contents: seq<FragmentContent>, expected: nat)
    returns (r: Option<Coverage>)
    ensures r.Some? <==> AllPass(n, g, contents) && Count(contents, ARule) == expected
                         && Count(contents, AHeldOut) > 0 && Count(contents, APolicy) == 1
    ensures r.Some? ==> r.value == Coverage(expected, expected, Count(contents, AHeldOut), Count(contents, AHeldOut),
                                            Count(contents, ANegative), Count(contents, AMetamorphic), 0)
  {
    hide Passes;
    var passed, traces, policies, negatives, metamorphics := 0, 0, 0, 0, 0;
    for k := 0 to |contents|
      invariant forall j :: 0 <= j < k ==> Passes(n, g, contents[j])
      invariant passed == Count(contents[..k], ARule) && traces == Count(contents[..k], AHeldOut)
      invariant policies == Count(contents[..k], APolicy)
      invariant negatives == Count(contents[..k], ANegative)
      invariant metamorphics == Count(contents[..k], AMetamorphic)
    {
      assert contents[..k + 1][..k] == contents[..k];
      var ok := CheckContent(n, g, contents[k]);
      if !ok {
        return None;
      }
      match contents[k] {
        case Rule(_, _, _, _) => passed := passed + 1;
        case Trace(HeldOut, _, _, _) => traces := traces + 1;
        case Trace(Training, _, _, _) =>
        case NegativeCase(_, _, _) => negatives := negatives + 1;
        case MetamorphicProperty(_, _, _) => metamorphics := metamorphics + 1;
        case StatePolicy(_, _) => policies := policies + 1;
      }
    }
    assert contents[..|contents|] == contents;
    if passed != expected || traces == 0 || policies != 1 {
      return None;
    }
    return Some(Coverage(expected, passed, traces, traces, negatives, metamorphics, 0));
  }

  // ----- What a certificate pins down -----

  /** The transitions the contract fragments demand, in order. */
  function Demands(contents: seq<FragmentContent>): seq<Transition> {
    if contents == [] then []
    else
      var last := contents[|contents| - 1];
      Demands(contents[..|contents| - 1]) + if last.Rule? then [last.Demand()] else []
  }

  lemma {:induction false} DemandsFacts(contents: seq<FragmentContent>)
    ensures |Demands(contents)| == Count(contents, ARule)
    ensures forall t :: t in Demands(contents) <==>
              exists k :: 0 <= k < |contents| && contents[k].Rule? && contents[k].Demand() == t
    ensures NoDuplicates(contents) ==> NoDuplicates(Demands(contents))
  {
    if contents != [] {
      var init, last := contents[..|contents| - 1], contents[|contents| - 1];
      assert contents == init + [last];
      DemandsFacts(init);
      forall t
        ensures t in Demands(contents) <==>
                  exists k :: 0 <= k < |contents| && contents[k].Rule? && contents[k].Demand() == t
      {
        if t in Demands(init) {
          var k :| 0 <= k < |init| && init[k].Rule? && init[k].Demand() == t;
          assert contents[k].Rule?;
        }
        if k :| 0 <= k < |contents| && contents[k].Rule? && contents[k].Demand() == t {
          assert k < |init| ==> init[k].Rule? && init[k].Demand() == t;
        }
      }
      if NoDuplicates(contents) && last.Rule? {
        assert NoDuplicates(init);
        forall k | 0 <= k < |init| && init[k].Rule?
          ensures init[k].Demand() != last.Demand()
        {
          assert contents[k] != contents[|contents| - 1];
        }
        assert last.Demand() !in Demands(init);
      }
    }
  }

  function CellsOf(ts: seq<Transition>): (r: seq<(Text, Text)>)
    ensures |r| == |ts| && forall k :: 0 <= k < |ts| ==> r[k] == ts[k].Cell()
  {
    seq(|ts|, k requires 0 <= k < |ts| => ts[k].Cell())
  }

  /** A passing contract fragment demands one of the candidate's own transitions. */
  lemma DemandsAreTransitions(c: Candidate, contents: seq<FragmentContent>)
    requires WellBuilt(c) && AllPass(NestedOf(c.grammar, c.transitions), c.grammar, contents)
    ensures forall t :: t in Demands(contents) ==> t in c.transitions
  {
    DemandsFacts(contents);
    TableOfDistinct(c.transitions);
    forall t | t in Demands(contents)
      ensures t in c.transitions
    {
      var k :| 0 <= k < |contents| && contents[k].Rule? && contents[k].Demand() == t;
      assert Passes(NestedOf(c.grammar, c.transitions), c.grammar, contents[k]);
      LookupsAgree(c.grammar, c.transitions, t.state, t.input);
      var j :| 0 <= j < |c.transitions| && c.transitions[j].Cell() == t.Cell();
      assert c.transitions[j] == t;
    }
  }

  /** Distinct transitions of one table are about distinct cells. */
  lemma DistinctDemandCells(ts: seq<Transition>, demands: seq<Transition>)
    requires DistinctCells(ts) && NoDuplicates(demands) && forall t :: t in demands ==> t in ts
    ensures NoDuplicates(CellsOf(demands))
  {
    forall i, j | 0 <= i < j < |demands|
      ensures demands[i].Cell() != demands[j].Cell()
    {
      assert demands[i] in ts && demands[j] in ts;
    }
  }

  /** The pigeonhole at the heart of certification: as many distinct demands as cells, each
      about a cell of its own, leave no cell out. */
  lemma CertifiedContractIsComplete(c: Candidate, contents: seq<FragmentContent>)
    requires WellBuilt(c) && AllPass(NestedOf(c.grammar, c.transitions), c.grammar, contents)
    requires Count(contents, ARule) == |c.grammar.states| * |c.grammar.inputs|
    requires NoDuplicates(contents)
    ensures forall cell :: cell in c.grammar.Cells() ==> DirectBuilder.Names(contents, cell)
    ensures forall i, j :: 0 <= i < j < |contents| && contents[i].Rule? && contents[j].Rule? ==>
              contents[i].Demand().Cell() != contents[j].Demand().Cell()
  {
    hide Grammar.Valid, ValidSymbols, Product, Count, NestedOf, Passes;
    var demands, cells := Demands(contents), c.grammar.Cells();
    DemandsFacts(contents);
    DemandsAreTransitions(c, contents);
    DistinctDemandCells(c.transitions, demands);
    GrammarTableShape(c.grammar);
    ProductFacts(c.grammar.states, c.grammar.inputs);
    DistinctCount(cells);
    forall cell | cell in CellsOf(demands)
      ensures cell in Elements(cells)
    {
      var k :| 0 <= k < |demands| && CellsOf(demands)[k] == cell;
      assert demands[k] in demands && demands[k] in c.transitions;
    }
    Pigeonhole(CellsOf(demands), Elements(cells));
    forall cell | cell in cells
      ensures DirectBuilder.Names(contents, cell)
    {
      assert cell in Elements(CellsOf(demands));
      var k :| 0 <= k < |demands| && CellsOf(demands)[k] == cell;
      assert demands[k] in demands;
    }
    DemandCellsDiffer(c, contents);
  }

  lemma DemandCellsDiffer(c: Candidate, contents: seq<FragmentContent>)
    requires DistinctCells(c.transitions) && NoDuplicates(contents)
    requires forall t :: t in Demands(contents) ==> t in c.transitions
    ensures forall i, j :: 0 <= i < j < |contents| && contents[i].Rule? && contents[j].Rule? ==>
              contents[i].Demand().Cell() != contents[j].Demand().Cell()
  {
    DemandsFacts(contents);
    forall i, j | 0 <= i < j < |contents| && contents[i].Rule? && contents[j].Rule?
      ensures contents[i].Demand().Cell() != contents[j].Demand().Cell()
    {
      assert contents[i].Demand() in c.transitions && contents[j].Demand() in c.transitions;
      assert contents[i] != contents[j];
    }
  }

  /** A table over the grammar's cells that does what every contract fragment says. */
  ghost predicate ObeysContract(t: Table, g: Grammar, contents: seq<FragmentContent>) {
    && (forall cell :: cell in t ==> cell in g.Cells())
    && forall k :: 0 <= k < |contents| && contents[k].Rule? ==> Meets(t, g, contents[k]) == Ok(true)
  }

  /** Certification pins behaviour: the certified table is the only one obeying the contract. */
  lemma CertificationPins(c: Candidate, component: Text, interfaceVersion: Text,
                          contents: seq<FragmentContent>, other: Table)
    requires NoDuplicates(contents)
    requires CertifiesCandidate(c, component, interfaceVersion, contents)
    ensures ObeysContract(other, c.grammar, contents) <==> other == TableOf(c.transitions)
    ensures Compilation.Total(c)
  {
    hide Grammar.Valid, ValidSymbols, Product, Count, NestedOf, Passes;
    var t := TableOf(c.transitions);
    CertifiedContractIsComplete(c, contents);
    DemandsAreTransitions(c, contents);
    ContractFixesCells(c, contents);
    KnownCells(c);
    OnlyOneObeys(c.grammar, contents, t, other);
    ProductFacts(c.grammar.states, c.grammar.inputs);
    forall s, i | s in c.grammar.states && i in c.grammar.inputs
      ensures (s, i) in t
    {
      assert (s, i) in c.grammar.Cells();
    }
  }

  lemma KnownCells(c: Candidate)
    requires Compilation.Sound(c)
    ensures forall cell :: cell in TableOf(c.transitions) ==> cell in c.grammar.Cells()
  {
    hide Grammar.Valid, ValidSymbols, Product, Count, NestedOf, Passes;
    TableOfDistinct(c.transitions);
    ProductFacts(c.grammar.states, c.grammar.inputs);
    forall cell | cell in TableOf(c.transitions)
      ensures cell in c.grammar.Cells()
    {
      var j :| 0 <= j < |c.transitions| && c.transitions[j].Cell() == cell;
      assert c.transitions[j].Valid(c.grammar);
    }
  }

  /** Two tables obeying a contract that names every cell are the same table. */
  lemma OnlyOneObeys(g: Grammar, contents: seq<FragmentContent>, t: Table, other: Table)
    requires ObeysContract(t, g, contents)
    requires forall cell :: cell in g.Cells() ==> DirectBuilder.Names(contents, cell)
    ensures ObeysContract(other, g, contents) <==> other == t
  {
    if ObeysContract(other, g, contents) {
      forall cell | cell in g.Cells()
        ensures cell in other && cell in t && other[cell] == t[cell]
      {
        var k :| 0 <= k < |contents| && contents[k].Rule? && contents[k].Demand().Cell() == cell;
        assert Meets(other, g, contents[k]) == Ok(true) && Meets(t, g, contents[k]) == Ok(true);
      }
      assert other.Keys == t.Keys;
    }
  }

  lemma ContractFixesCells(c: Candidate, contents: seq<FragmentContent>)
    requires DistinctCells(c.transitions)
    requires forall t :: t in Demands(contents) ==> t in c.transitions
    requires forall cell :: cell in c.grammar.Cells() ==> DirectBuilder.Names(contents, cell)
    ensures forall k :: 0 <= k < |contents| && contents[k].Rule? ==>
              Meets(TableOf(c.transitions), c.grammar, contents[k]) == Ok(true)
    ensures forall cell :: cell in c.grammar.Cells() ==> cell in TableOf(c.transitions)
  {
    DemandsFacts(contents);
    TableOfDistinct(c.transitions);
    forall k | 0 <= k < |contents| && contents[k].Rule?
      ensures Meets(TableOf(c.transitions), c.grammar, contents[k]) == Ok(true)
    {
      var t := contents[k].Demand();
      assert t in c.transitions;
      var j :| 0 <= j < |c.transitions| && c.transitions[j] == t;
    }
    forall cell | cell in c.grammar.Cells()
      ensures cell in TableOf(c.transitions)
    {
      var k :| 0 <= k < |contents| && contents[k].Rule? && contents[k].Demand().Cell() == cell;
      assert contents[k].Demand() in c.transitions;
    }
  }

  // ----- What can still refuse a synthesized candidate -----

  /** On a well-built table the checker passes everything the synthesizer accepted, but for
      held-out traces, which the synthesizer never looked at. */
  lemma MetMeansPassed(c: Candidate, content: FragmentContent)
    requires Compilation.Sound(c)
    requires Meets(TableOf(c.transitions), c.grammar, content) == Ok(true)
    requires !(content.Trace? && content.role.HeldOut?)
    ensures Passes(NestedOf(c.grammar, c.transitions), c.grammar, content)
  {
    var g, ts := c.grammar, c.transitions;
    assert StatesKnown(g, ts);
    match content {
      case Rule(state, input, nextState, output) =>
        LookupsAgree(g, ts, state, input);
        TableOfDistinct(ts);
        var j :| 0 <= j < |ts| && ts[j].Cell() == (state, input);
        assert ts[j].Valid(g) && ts[j].Choice() == (nextState, output);
      case NegativeCase(initialState, inputs, forbidden) =>
        TracesAgree(g, ts, initialState, inputs);
      case MetamorphicProperty(initialState, input, repetitions) =>
        RepetitionsAgree(g, ts, initialState, input, repetitions);
      case _ =>
    }
  }

  /** A held-out trace passes exactly when the flat table replays it from a declared state. */
  lemma HeldOutMeans(c: Candidate, content: FragmentContent)
    requires Compilation.Sound(c) && content.Trace? && content.role.HeldOut?
    ensures Passes(NestedOf(c.grammar, c.transitions), c.grammar, content) <==>
            content.initialState in c.grammar.states
            && Run(TableOf(c.transitions), content.initialState, content.inputs) == Ok(content.outputs)
  {
    hide Run, TableOf, NestedRun;
    assert StatesKnown(c.grammar, c.transitions);
    LookupsAgree(c.grammar, c.transitions, content.initialState, content.initialState);
    TracesAgree(c.grammar, c.transitions, content.initialState, content.inputs);
    RunErrors(TableOf(c.transitions), content.initialState, content.inputs);
  }

  /** A candidate found by the search, sent over the wire within its bounds and certified
      against the same evidence, is refused only for its identity, a held-out trace, or the
      number of contract, held-out and state-policy fragments. */
  lemma OnlyHeldOutOrCountsRefuse(g: Grammar, contents: seq<FragmentContent>, c: Candidate,
                                  component: Text, interfaceVersion: Text)
    requires g.Valid() && c.grammar == g
    requires Search.Problem(g, contents).Outcome().Ok?
    requires c.transitions == Search.Problem(g, contents).Outcome().value.0
    requires WritableCandidate(c) && WithinBounds(c)
    ensures Certifies(CandidateBytes(c), component, interfaceVersion, contents) <==>
            && c.component == component && c.interfaceVersion == interfaceVersion
            && (forall k :: 0 <= k < |contents| && contents[k].Trace? && contents[k].role.HeldOut? ==>
                  contents[k].initialState in g.states
                  && Run(TableOf(c.transitions), contents[k].initialState, contents[k].inputs) == Ok(contents[k].outputs))
            && Count(contents, ARule) == |g.states| * |g.inputs|
            && Count(contents, AHeldOut) > 0
            && Count(contents, APolicy) == 1
  {
    hide Decode, CandidateBytes, WithinBounds, WritableCandidate;
    var pb := Search.Problem(g, contents);
    var ts, n := c.transitions, NestedOf(g, c.transitions);
    RoundTrip(c);
    Search.SynthesisExact(pb);
    DirectBuilder.FoundTable(pb, ts);
    GrammarTableShape(g);
    MeetsAllEach(TableOf(ts), g, contents);
    assert WellBuilt(c);
    forall k | 0 <= k < |contents| && !(contents[k].Trace? && contents[k].role.HeldOut?)
      ensures Passes(n, g, contents[k])
    {
      MetMeansPassed(c, contents[k]);
    }
    forall k | 0 <= k < |contents| && contents[k].Trace? && contents[k].role.HeldOut?
      ensures Passes(n, g, contents[k]) <==>
              contents[k].initialState in g.states
              && Run(TableOf(ts), contents[k].initialState, contents[k].inputs) == Ok(contents[k].outputs)
    {
      HeldOutMeans(c, contents[k]);
    }
  }
}
