/** The recovery pipeline (`recover` in src/protocol.rs, from collected evidence on):
    synthesis, wire encoding, certification, compilation and the module check, and what
    they establish together. */
module Pipeline {
  import opened Basics
  import opened Bytes
  import opened Model
  import opened Evaluation
  import opened Certification
  import Compilation
  import DirectBuilder
  import Fragments
  import Sandbox
  import Search
  import Sorting
  import WebAssembly
  import Wire
  import WireIo

  const FSM_V0: Text := [0x66, 0x73, 0x6D, 0x2D, 0x76, 0x30]
  const FSM_V1: Text := [0x66, 0x73, 0x6D, 0x2D, 0x76, 0x31]

  datatype Mode = Full | TraceOnly | CentralizedContract

  /** The registry fields the pipeline reads. Forbidden artifacts are named by injective
      digests, so by the candidates themselves. */
  datatype Registry = Registry(component: Text, interfaceVersion: Text, grammar: Grammar, forbidden: set<Candidate>)

  datatype Recovery = Recovery(candidate: Candidate, code: seq<WebAssembly.Instr>, examined: nat)

  /** What the source's types promise of a registry: texts are UTF-8, the budget is a u64. */
  ghost predicate WellTyped(reg: Registry) {
    WireIo.AllUtf8(Candidate(reg.component, reg.interfaceVersion, reg.grammar, []))
  }

  /** The evidence a mode hands to synthesis. */
  function Selected(contents: seq<FragmentContent>, mode: Mode): seq<FragmentContent> {
    if contents == [] then []
    else
      var head := contents[0];
      (if (mode.TraceOnly? && head.Rule?) || (mode.CentralizedContract? && head.Trace?) then [] else [head])
      + Selected(contents[1..], mode)
  }

  function Schemas(contents: seq<FragmentContent>): seq<FragmentContent> {
    if contents == [] then []
    else (if contents[0].StatePolicy? then [contents[0]] else []) + Schemas(contents[1..])
  }

  /** `reconstruct`: the grammar version selects the builder. */
  function Reconstructed(g: Grammar, contents: seq<FragmentContent>): Result<(seq<Transition>, nat), Error> {
    if g.version == FSM_V0 then DirectBuilder.Outcome(g, contents)
    else if g.version == FSM_V1 then Search.Problem(g, contents).Outcome()
    else Err(InvalidRegistry)
  }

  method Reconstruct(g: Grammar, contents: seq<FragmentContent>)
    returns (r: Result<(seq<Transition>, nat), Error>)
    ensures r == Reconstructed(g, contents)
  {
    if g.version == FSM_V0 {
      r := DirectBuilder.ReconstructV0(g, contents);
    } else if g.version == FSM_V1 {
      r := Search.ReconstructV1(g, contents);
    } else {
      r := Err(InvalidRegistry);
    }
  }

  // ----- Both builders list one valid transition per cell, in cell order -----

  lemma {:induction false} AssembleFills(g: Grammar, cells: seq<(Text, Text)>, m: DirectBuilder.Obligations)
    requires NoDuplicates(g.Choices())
    requires forall c :: c in cells ==> c in m && m[c].Cell() == c && m[c].Choice() in g.Choices()
    ensures Search.Assigns(cells, g.Choices(), DirectBuilder.Assemble(cells, g.Choices(), m))
    ensures |DirectBuilder.Assemble(cells, g.Choices(), m)| == |cells|
  {
    hide Product, DirectBuilder.Picks;
    if cells != [] {
      var init, last := cells[..|cells| - 1], cells[|cells| - 1];
      AssembleFills(g, init, m);
      assert last in cells;
      DirectBuilder.PickOnce(g.Choices(), m[last]);
      assert DirectBuilder.Assemble(cells, g.Choices(), m) == DirectBuilder.Assemble(init, g.Choices(), m) + [m[last]];
    }
  }

  lemma {:induction false} CollectedAreValid(g: Grammar, contents: seq<FragmentContent>)
    ensures DirectBuilder.Collect(g, contents).Ok? ==>
              forall c :: c in DirectBuilder.Collect(g, contents).value ==>
                DirectBuilder.Collect(g, contents).value[c].Valid(g)
  {
    if contents != [] {
      CollectedAreValid(g, contents[..|contents| - 1]);
    }
  }

  lemma ReconstructedTable(g: Grammar, contents: seq<FragmentContent>)
    requires g.Valid() && Reconstructed(g, contents).Ok?
    ensures Search.Problem(g, contents).IsTable(Reconstructed(g, contents).value.0)
  {
    hide Search.Problem.Outcome, DirectBuilder.Collect, DirectBuilder.Assemble, DirectBuilder.Picks;
    hide Search.Problem.Verdict, Product;
    GrammarTableShape(g);
    if g.version == FSM_V1 {
      Search.SynthesisExact(Search.Problem(g, contents));
    } else {
      var m := DirectBuilder.Collect(g, contents).value;
      CollectedAreValid(g, contents);
      DirectBuilder.CollectCoversCells(g, contents);
      ProductFacts(g.states, g.outputs);
      AssembleFills(g, g.Cells(), m);
    }
  }

  lemma ReconstructedSound(c: Candidate, contents: seq<FragmentContent>)
    requires c.grammar.Valid() && Reconstructed(c.grammar, contents).Ok?
    requires c.transitions == Reconstructed(c.grammar, contents).value.0
    ensures Compilation.Sound(c)
    ensures Search.Problem(c.grammar, contents).IsTable(c.transitions)
  {
    ReconstructedTable(c.grammar, contents);
    DirectBuilder.FoundTable(Search.Problem(c.grammar, contents), c.transitions);
  }

  // ----- The pipeline -----

  /** Everything a successful recovery went through. */
  ghost predicate RecoveredAs(reg: Registry, contents: seq<FragmentContent>, mode: Mode, out: Recovery) {
    && reg.component != [] && reg.interfaceVersion != [] && reg.grammar.Valid()
    && Schemas(contents) == [StatePolicy(reg.grammar.states, reg.grammar.initialState)]
    && Reconstructed(reg.grammar, Selected(contents, mode)) == Ok((out.candidate.transitions, out.examined))
    && out.candidate == Candidate(reg.component, reg.interfaceVersion, reg.grammar, out.candidate.transitions)
    && WireIo.LengthsFit(out.candidate)
    && out.candidate !in reg.forbidden
    && Certifies(Wire.CandidateBytes(out.candidate), reg.component, reg.interfaceVersion, contents)
    && Sandbox.LowerAll(reg.grammar, out.candidate.transitions).Ok?
    && out.code == Sandbox.Code(Sandbox.LowerAll(reg.grammar, out.candidate.transitions).value)
  }

  /** The pipeline returns the recovery if there is one: after certification neither the
      compiler nor the module check can refuse it. */
  method Recover(reg: Registry, contents: seq<FragmentContent>, mode: Mode)
    returns (r: Result<Recovery, Error>)
    ensures r.Ok? ==> RecoveredAs(reg, contents, mode, r.value)
    ensures r.Err? ==> forall out :: !RecoveredAs(reg, contents, mode, out)
  {
    hide Reconstructed, Certifies, WireIo.LengthsFit, Wire.CandidateBytes, Sandbox.Code, Sandbox.LowerAll, Selected;
    if !reg.grammar.Valid() || reg.component == [] || reg.interfaceVersion == [] {
      return Err(InvalidRegistry);
    }
    if Schemas(contents) != [StatePolicy(reg.grammar.states, reg.grammar.initialState)] {
      return Err(InvalidEvidence);
    }
    var built := Reconstruct(reg.grammar, Selected(contents, mode));
    if built.Err? {
      return Err(built.error);
    }
    var (transitions, examined) := built.value;
    var c := Candidate(reg.component, reg.interfaceVersion, reg.grammar, transitions);
    var wire := WireIo.EncodeCandidate(c);
    if wire.None? || c in reg.forbidden {
      return Err(CheckerRejected);
    }
    var coverage := Certify(wire.value, reg.component, reg.interfaceVersion, contents);
    if coverage.None? {
      return Err(CheckerRejected);
    }
    ReconstructedSound(c, Selected(contents, mode));
    Compilation.CompiledPasses(c);
    var code := Sandbox.Compile(c);
    var checked := Compilation.Verify(c, code.value);
    return Ok(Recovery(c, code.value, examined));
  }

  lemma CandidateUtf8(reg: Registry, c: Candidate)
    requires WellTyped(reg) && Compilation.Sound(c)
    requires c == Candidate(reg.component, reg.interfaceVersion, reg.grammar, c.transitions)
    ensures WireIo.AllUtf8(c)
  {
    hide Utf8;
    forall t | t in c.transitions
      ensures Utf8(t.state) && Utf8(t.input) && Utf8(t.nextState) && Utf8(t.output)
    {
      assert t.Valid(reg.grammar);
    }
  }

  lemma RecoveredCertified(reg: Registry, contents: seq<FragmentContent>, mode: Mode, out: Recovery)
    requires WellTyped(reg) && RecoveredAs(reg, contents, mode, out)
    ensures CertifiesCandidate(out.candidate, reg.component, reg.interfaceVersion, contents)
    ensures Search.Problem(reg.grammar, contents).IsTable(out.candidate.transitions)
  {
    hide Utf8, Wire.Decode, Wire.CandidateBytes, Reconstructed, Wire.WithinBounds, Wire.WritableCandidate;
    hide WireIo.LengthsFit, Sandbox.LowerAll, Sandbox.Code, Schemas, Selected;
    var c := out.candidate;
    ReconstructedSound(c, Selected(contents, mode));
    CandidateUtf8(reg, c);
    GrammarTableShape(reg.grammar);
    WireIo.ValidCandidateBounds(c);
    Wire.RoundTrip(c);
  }

  /** Unique answer, certified answer, compiled answer: for evidence without duplicate
      content, whatever mode recovered it, the candidate's table is the only one obeying the
      contract, and the emitted module replays it on every input sequence from every state. */
  lemma RecoveryIsPinned(reg: Registry, contents: seq<FragmentContent>, mode: Mode, out: Recovery,
                         other: Table, s: Text, inputs: seq<Text>)
    requires WellTyped(reg) && NoDuplicates(contents)
    requires RecoveredAs(reg, contents, mode, out)
    requires s in reg.grammar.states
    ensures ObeysContract(other, reg.grammar, contents) <==> other == TableOf(out.candidate.transitions)
    ensures Compilation.Fold(out.code, reg.grammar, Compilation.IndexIn(reg.grammar.states, s), inputs)
            == Run(TableOf(out.candidate.transitions), s, inputs)
    ensures (forall i :: i in inputs ==> i in reg.grammar.inputs) ==>
              Run(TableOf(out.candidate.transitions), s, inputs).Ok?
  {
    hide Reconstructed, Certifies, Wire.CandidateBytes, Sandbox.Code, Sandbox.LowerAll;
    RecoveredCertified(reg, contents, mode, out);
    CertificationPins(out.candidate, reg.component, reg.interfaceVersion, contents, other);
    Compilation.CompilationPreservesTraces(out.candidate, s, inputs);
    if forall i :: i in inputs ==> i in reg.grammar.inputs {
      TotalRuns(out.candidate, s, inputs);
    }
  }

  lemma {:induction false} TotalRuns(c: Candidate, s: Text, inputs: seq<Text>)
    requires Compilation.Sound(c) && Compilation.Total(c) && s in c.grammar.states
    requires forall i :: i in inputs ==> i in c.grammar.inputs
    ensures Run(TableOf(c.transitions), s, inputs).Ok?
    decreases |inputs|
  {
    if inputs != [] {
      Compilation.PrescribedDecodes(c, s, inputs[0]);
      TotalRuns(c, TableOf(c.transitions)[(s, inputs[0])].0, inputs[1..]);
    }
  }

  /** In full mode under the exhaustive grammar the recovered table is also the only one
      of all (|S|*|O|)^(|S|*|I|) that satisfies the evidence. */
  lemma FullRecoveryIsUnique(reg: Registry, contents: seq<FragmentContent>, out: Recovery, ts: seq<Transition>)
    requires RecoveredAs(reg, contents, Full, out) && reg.grammar.version == FSM_V1
    ensures var pb := Search.Problem(reg.grammar, contents);
            pb.IsTable(ts) ==> pb.Verdict(ts) == Ok(ts == out.candidate.transitions)
  {
    hide Certifies, Wire.CandidateBytes, Search.Problem.Outcome, Search.Problem.Verdict, Search.Problem.IsTable;
    SelectedAll(contents);
    Search.SynthesisExact(Search.Problem(reg.grammar, contents));
  }

  lemma {:induction false} SelectedAll(contents: seq<FragmentContent>)
    ensures Selected(contents, Full) == contents
  {
    if contents != [] {
      SelectedAll(contents[1..]);
    }
  }

  /** The recovery does not depend on how it was found: over the same evidence, any two
      recoveries of the same symbols, in any modes, by either builder, whatever their budgets,
      return the same transitions in the same order and the same code. */
  lemma RecoveryIsModeIndependent(reg1: Registry, mode1: Mode, out1: Recovery,
                                  reg2: Registry, mode2: Mode, out2: Recovery,
                                  contents: seq<FragmentContent>)
    requires WellTyped(reg1) && WellTyped(reg2) && NoDuplicates(contents)
    requires reg1.grammar.states == reg2.grammar.states && reg1.grammar.inputs == reg2.grammar.inputs
    requires reg1.grammar.outputs == reg2.grammar.outputs
    requires RecoveredAs(reg1, contents, mode1, out1) && RecoveredAs(reg2, contents, mode2, out2)
    ensures out1.candidate.transitions == out2.candidate.transitions
    ensures out1.code == out2.code
  {
    hide Reconstructed, Certifies, Wire.CandidateBytes, Sandbox.Code, Selected, Schemas;
    var t1, t2 := out1.candidate.transitions, out2.candidate.transitions;
    RecoveredCertified(reg1, contents, mode1, out1);
    RecoveredCertified(reg2, contents, mode2, out2);
    CertificationPins(out1.candidate, reg1.component, reg1.interfaceVersion, contents, TableOf(t2));
    CertificationPins(out2.candidate, reg2.component, reg2.interfaceVersion, contents, TableOf(t2));
    SameContract(reg1.grammar, reg2.grammar, contents, TableOf(t2));
    SameOrder(t1, t2, reg1.grammar.Cells());
    LowerSame(reg1.grammar, reg2.grammar, t1);
  }

  lemma SameContract(g1: Grammar, g2: Grammar, contents: seq<FragmentContent>, t: Table)
    requires g1.states == g2.states && g1.inputs == g2.inputs
    ensures ObeysContract(t, g1, contents) <==> ObeysContract(t, g2, contents)
  {
    assert forall k :: 0 <= k < |contents| && contents[k].Rule? ==>
      Meets(t, g1, contents[k]) == Meets(t, g2, contents[k]);
  }

  /** Two listings of one map over the same cells in the same order are equal. */
  lemma SameOrder(t1: seq<Transition>, t2: seq<Transition>, cells: seq<(Text, Text)>)
    requires TableOf(t1) == TableOf(t2) && |t1| == |t2| == |cells|
    requires DistinctCells(t1) && DistinctCells(t2)
    requires forall k :: 0 <= k < |cells| ==> t1[k].Cell() == cells[k] && t2[k].Cell() == cells[k]
    ensures t1 == t2
  {
    TableOfDistinct(t1);
    TableOfDistinct(t2);
    forall k | 0 <= k < |cells|
      ensures t1[k] == t2[k]
    {
      assert t1[k].Cell() == t2[k].Cell() && t1[k].Choice() == t2[k].Choice();
    }
  }

  lemma {:induction false} LowerSame(g1: Grammar, g2: Grammar, ts: seq<Transition>)
    requires g1.states == g2.states && g1.inputs == g2.inputs && g1.outputs == g2.outputs
    ensures Sandbox.LowerAll(g1, ts) == Sandbox.LowerAll(g2, ts)
  {
    if ts != [] {
      LowerSame(g1, g2, ts[..|ts| - 1]);
    }
  }

  /** End to end: admitted fragments have distinct contents, so whatever is recovered from
      them is pinned without further assumption. */
  lemma AdmittedRecoveryIsPinned(envelopes: seq<Fragments.Envelope>, target: Fragments.Target, reg: Registry,
                                 mode: Mode, out: Recovery, other: Table, s: Text, inputs: seq<Text>)
    requires Fragments.WellFormed(envelopes, target) && WellTyped(reg) && s in reg.grammar.states
    requires RecoveredAs(reg, Fragments.Contents(Sorting.Sort(envelopes, Fragments.Before)), mode, out)
    ensures ObeysContract(other, reg.grammar, Fragments.Contents(Sorting.Sort(envelopes, Fragments.Before)))
            <==> other == TableOf(out.candidate.transitions)
    ensures Compilation.Fold(out.code, reg.grammar, Compilation.IndexIn(reg.grammar.states, s), inputs)
            == Run(TableOf(out.candidate.transitions), s, inputs)
  {
    hide RecoveredAs, ObeysContract, WellTyped, TableOf, Run, Compilation.Fold, Grammar.Valid;
    Fragments.CollectedContentsDistinct(envelopes, target);
    RecoveryIsPinned(reg, Fragments.Contents(Sorting.Sort(envelopes, Fragments.Before)), mode, out, other, s, inputs);
  }
}
