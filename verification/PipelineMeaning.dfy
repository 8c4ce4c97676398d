/** What a recovery of src/protocol.rs does with the evidence it was made from: which fragments
    reach the synthesis, which of them the emitted module is bound to replay, and which not. */
module PipelineMeaning {
  import opened Basics
  import opened Bytes
  import opened Model
  import opened Evaluation
  import opened Certification
  import opened CertificationMeaning
  import opened Pipeline
  import opened Trails
  import Compilation
  import DirectBuilder
  import Search
  import SearchMeaning
  import Sandbox
  import Wire
  import WireIo

  /** A mode withholds one kind of fragment from the synthesis. */
  predicate Withheld(content: FragmentContent, mode: Mode) {
    (mode.TraceOnly? && content.Rule?) || (mode.CentralizedContract? && content.Trace?)
  }

  lemma SelectedFirst(first: FragmentContent, rest: seq<FragmentContent>, mode: Mode)
    ensures Selected([first] + rest, mode) == (if Withheld(first, mode) then [] else [first]) + Selected(rest, mode)
  {
    assert ([first] + rest)[1..] == rest;
  }

  /** Synthesis is handed every other fragment as often as there is one, and no more. */
  lemma {:induction false} SelectedExactly(contents: seq<FragmentContent>, mode: Mode, content: FragmentContent)
    ensures multiset(Selected(contents, mode))[content] == if Withheld(content, mode) then 0 else multiset(contents)[content]
  {
    if contents != [] {
      hide Selected, Withheld;
      SelectedExactly(contents[1..], mode, content);
      SelectedFirst(contents[0], contents[1..], mode);
      assert contents == [contents[0]] + contents[1..];
    }
  }

  lemma Associates<T>(a: seq<T>, b: seq<T>, c: seq<T>)
    ensures (a + b) + c == a + (b + c)
  {
  }

  /** And in the order they were collected in. */
  lemma {:induction false} SelectedInOrder(before: seq<FragmentContent>, after: seq<FragmentContent>, mode: Mode)
    ensures Selected(before + after, mode) == Selected(before, mode) + Selected(after, mode)
  {
    if before == [] {
      assert before + after == after;
    } else {
      hide Selected, Withheld;
      var first, rest := before[0], before[1..];
      SelectedInOrder(rest, after, mode);
      SelectedFirst(first, rest, mode);
      SelectedFirst(first, rest + after, mode);
      var kept := if Withheld(first, mode) then [] else [first];
      Associates([first], rest, after);
      Associates(kept, Selected(rest, mode), Selected(after, mode));
      assert before == [first] + rest;
    }
  }

  lemma SelectedMembers(contents: seq<FragmentContent>, mode: Mode, content: FragmentContent)
    ensures content in Selected(contents, mode) <==> content in contents && !Withheld(content, mode)
  {
    SelectedExactly(contents, mode, content);
    assert content in contents <==> content in multiset(contents);
    assert content in Selected(contents, mode) <==> content in multiset(Selected(contents, mode));
  }

  /** The emitted module, started in a state and fed inputs. */
  function Replay(reg: Registry, out: Recovery, s: Text, inputs: seq<Text>): Result<seq<Text>, Error>
    requires s in reg.grammar.states
  {
    Compilation.Fold(out.code, reg.grammar, Compilation.IndexIn(reg.grammar.states, s), inputs)
  }

  lemma ReplayIsRun(reg: Registry, contents: seq<FragmentContent>, mode: Mode, out: Recovery, s: Text, inputs: seq<Text>)
    requires RecoveredAs(reg, contents, mode, out) && s in reg.grammar.states
    ensures Replay(reg, out, s, inputs) == Run(TableOf(out.candidate.transitions), s, inputs)
  {
    hide Reconstructed, Certifies, Wire.CandidateBytes, Sandbox.Code, Sandbox.LowerAll, Selected, Schemas;
    ReconstructedSound(out.candidate, Selected(contents, mode));
    Compilation.CompilationPreservesTraces(out.candidate, s, inputs);
  }

  /** The emitted module replays every held-out trace. */
  lemma HeldOutReplayed(reg: Registry, contents: seq<FragmentContent>, mode: Mode, out: Recovery, k: nat)
    requires WellTyped(reg) && RecoveredAs(reg, contents, mode, out)
    requires k < |contents| && contents[k].Trace? && contents[k].role.HeldOut?
    ensures contents[k].initialState in reg.grammar.states
    ensures Replay(reg, out, contents[k].initialState, contents[k].inputs) == Ok(contents[k].outputs)
  {
    hide RecoveredAs, Run, TableOf, Replay, WellTyped, CertifiesCandidate;
    CertifiedFacts(reg, contents, mode, out, k);
    ReplayIsRun(reg, contents, mode, out, contents[k].initialState, contents[k].inputs);
  }

  /** It gets through every negative case and does not put out the forbidden outputs. */
  lemma NegativesAvoided(reg: Registry, contents: seq<FragmentContent>, mode: Mode, out: Recovery, k: nat)
    requires WellTyped(reg) && RecoveredAs(reg, contents, mode, out)
    requires k < |contents| && contents[k].NegativeCase? && contents[k].initialState in reg.grammar.states
    ensures Replay(reg, out, contents[k].initialState, contents[k].inputs).Ok?
    ensures Replay(reg, out, contents[k].initialState, contents[k].inputs) != Ok(contents[k].forbiddenOutputs)
  {
    hide RecoveredAs, Run, TableOf, Replay, WellTyped, CertifiesCandidate;
    CertifiedFacts(reg, contents, mode, out, k);
    ReplayIsRun(reg, contents, mode, out, contents[k].initialState, contents[k].inputs);
  }

  /** Where a property asks for it, repeating an input repeats the output, however often. */
  lemma RepetitionsReplayed(reg: Registry, contents: seq<FragmentContent>, mode: Mode, out: Recovery, k: nat, m: nat)
    returns (output: Text)
    requires WellTyped(reg) && RecoveredAs(reg, contents, mode, out)
    requires k < |contents| && contents[k].MetamorphicProperty? && contents[k].initialState in reg.grammar.states
    ensures Replay(reg, out, contents[k].initialState, [contents[k].input]) == Ok([output])
    ensures Replay(reg, out, contents[k].initialState, Repeat(contents[k].input, m)) == Ok(Repeat(output, m))
  {
    hide RecoveredAs, Run, TableOf, Replay, WellTyped, CertifiesCandidate;
    var s, input := contents[k].initialState, contents[k].input;
    CertifiedFacts(reg, contents, mode, out, k);
    output :| Constant(TableOf(out.candidate.transitions), s, input, output);
    ReplayIsRun(reg, contents, mode, out, s, Repeat(input, m));
    ReplayIsRun(reg, contents, mode, out, s, Repeat(input, 1));
    assert Repeat(input, 1) == [input] && Repeat(output, 1) == [output];
  }

  /** It makes every demanded move: the output, and then what the next state answers. */
  lemma RulesReplayed(reg: Registry, contents: seq<FragmentContent>, mode: Mode, out: Recovery, k: nat, rest: seq<Text>)
    requires WellTyped(reg) && RecoveredAs(reg, contents, mode, out) && k < |contents| && contents[k].Rule?
    ensures contents[k].state in reg.grammar.states && contents[k].nextState in reg.grammar.states
    ensures Replay(reg, out, contents[k].state, [contents[k].input] + rest) ==
            match Replay(reg, out, contents[k].nextState, rest)
            case Err(e) => Err(e)
            case Ok(more) => Ok([contents[k].output] + more)
  {
    hide RecoveredAs, TableOf, Replay, WellTyped, Grammar.Valid, Transition.Valid, DistinctCells;
    var rule, t := contents[k], TableOf(out.candidate.transitions);
    CertifiedFacts(reg, contents, mode, out, k);
    Listed(out.candidate.transitions, rule.Demand());
    assert rule.state in reg.grammar.states && rule.nextState in reg.grammar.states by {
      RuleStates(reg, out, rule);
    }
    ReplayIsRun(reg, contents, mode, out, rule.state, [rule.input] + rest);
    ReplayIsRun(reg, contents, mode, out, rule.nextState, rest);
    assert ([rule.input] + rest)[1..] == rest;
  }

  lemma RuleStates(reg: Registry, out: Recovery, rule: FragmentContent)
    requires rule.Rule? && out.candidate.grammar == reg.grammar
    requires OneForEachCell(out.candidate) && rule.Demand() in out.candidate.transitions
    ensures rule.state in reg.grammar.states && rule.nextState in reg.grammar.states
  {
    assert rule.Demand().Valid(reg.grammar);
  }

  /** What the certificate says of one fragment. */
  lemma CertifiedFacts(reg: Registry, contents: seq<FragmentContent>, mode: Mode, out: Recovery, k: nat)
    requires WellTyped(reg) && RecoveredAs(reg, contents, mode, out) && k < |contents|
    ensures out.candidate.grammar == reg.grammar && OneForEachCell(out.candidate)
    ensures DistinctCells(out.candidate.transitions)
    ensures Demanded(out.candidate.transitions, reg.grammar, contents[k])
    ensures match contents[k]
      case Trace(HeldOut, s, inputs, outputs) =>
        s in reg.grammar.states && Run(TableOf(out.candidate.transitions), s, inputs) == Ok(outputs)
      case NegativeCase(s, inputs, forbidden) =>
        Run(TableOf(out.candidate.transitions), s, inputs).Ok? && Run(TableOf(out.candidate.transitions), s, inputs) != Ok(forbidden)
      case MetamorphicProperty(s, input, n) =>
        exists output :: Constant(TableOf(out.candidate.transitions), s, input, output)
      case _ => true
  {
    hide Run, TableOf, WellTyped, CertifiesCandidate, Constant, Reconstructed, Certifies, Wire.CandidateBytes, Sandbox.Code,
      Sandbox.LowerAll, Selected, Schemas, Count, Grammar.Valid, WireIo.LengthsFit;
    RecoveredCertified(reg, contents, mode, out);
    CertificateMeans(out.candidate, reg.component, reg.interfaceVersion, contents);
    CertifiedTraces(out.candidate, reg.component, reg.interfaceVersion, contents, k);
  }

  /** Training traces bind a recovery through the exhaustive search alone, and only if the mode
      hands them to it. */
  lemma TrainingReplayed(reg: Registry, contents: seq<FragmentContent>, mode: Mode, out: Recovery, k: nat)
    requires RecoveredAs(reg, contents, mode, out) && reg.grammar.version == FSM_V1 && !mode.CentralizedContract?
    requires k < |contents| && contents[k].Trace? && contents[k].role.Training?
    ensures Produces(out.candidate.transitions, contents[k].initialState, contents[k].inputs, contents[k].outputs)
    ensures contents[k].initialState in reg.grammar.states ==>
              Replay(reg, out, contents[k].initialState, contents[k].inputs) == Ok(contents[k].outputs)
  {
    hide Run, TableOf, Replay, Certifies, Wire.CandidateBytes, Sandbox.Code, Sandbox.LowerAll, Selected, Schemas,
      Grammar.Valid, WireIo.LengthsFit, Search.Problem.Outcome, Search.Problem.IsTable, Produces, DistinctCells;
    var selected, trace := Selected(contents, mode), contents[k];
    var pb := Search.Problem(reg.grammar, selected);
    SelectedMembers(contents, mode, trace);
    var i :| 0 <= i < |selected| && selected[i] == trace;
    SearchMeaning.FoundFollowsEvidence(pb, i);
    ReconstructedTable(reg.grammar, selected);
    DirectBuilder.FoundTable(pb, out.candidate.transitions);
    RunMeans(out.candidate.transitions, trace.initialState, trace.inputs);
    if trace.initialState in reg.grammar.states {
      ReplayIsRun(reg, contents, mode, out, trace.initialState, trace.inputs);
    }
  }

  /** A recovery is of the registry's component, interface and grammar, is no forbidden artifact,
      was found within the budget, and rests on one state policy, which is the grammar's. */
  lemma RecoveredIdentity(reg: Registry, contents: seq<FragmentContent>, mode: Mode, out: Recovery)
    requires WellTyped(reg) && RecoveredAs(reg, contents, mode, out)
    ensures out.candidate.component == reg.component && out.candidate.interfaceVersion == reg.interfaceVersion
    ensures out.candidate.grammar == reg.grammar && out.candidate !in reg.forbidden
    ensures out.examined <= reg.grammar.maxCandidates
    ensures |Positions(contents, APolicy)| == 1 && |Positions(contents, AHeldOut)| > 0
    ensures |Positions(contents, ARule)| == |reg.grammar.states| * |reg.grammar.inputs|
    ensures forall k :: 0 <= k < |contents| && contents[k].StatePolicy? ==>
              contents[k] == StatePolicy(reg.grammar.states, reg.grammar.initialState)
  {
    hide WellTyped, CertifiesCandidate, Certifies, Wire.CandidateBytes, Sandbox.Code, Sandbox.LowerAll, Selected, Schemas,
      Positions, Grammar.Valid, WireIo.LengthsFit, Search.Problem.Outcome, DirectBuilder.Collect;
    RecoveredCertified(reg, contents, mode, out);
    CertificateMeans(out.candidate, reg.component, reg.interfaceVersion, contents);
    if reg.grammar.version == FSM_V1 {
      Search.SynthesisExact(Search.Problem(reg.grammar, Selected(contents, mode)));
    }
    forall k | 0 <= k < |contents| && contents[k].StatePolicy?
      ensures contents[k] == StatePolicy(reg.grammar.states, reg.grammar.initialState)
    {
      assert Demanded(out.candidate.transitions, reg.grammar, contents[k]);
    }
  }

  // ----- Exactly which recoveries training traces bind -----

  /** The recovery leads along every training trace of its evidence. */
  ghost predicate FollowsTraining(contents: seq<FragmentContent>, out: Recovery) {
    forall k :: 0 <= k < |contents| && contents[k].Trace? && contents[k].role.Training? ==>
      Produces(out.candidate.transitions, contents[k].initialState, contents[k].inputs, contents[k].outputs)
  }

  /** Whatever is recovered under this grammar version in this mode follows its training traces. */
  ghost predicate TrainingBinds(version: Text, mode: Mode) {
    forall reg: Registry, contents, out :: reg.grammar.version == version && RecoveredAs(reg, contents, mode, out) ==>
      FollowsTraining(contents, out)
  }

  /** Without contract fragments the direct builder builds nothing. */
  lemma NothingDirect(reg: Registry, contents: seq<FragmentContent>, out: Recovery)
    requires reg.grammar.version == FSM_V0
    ensures !RecoveredAs(reg, contents, TraceOnly, out)
  {
    if RecoveredAs(reg, contents, TraceOnly, out) {
      var selected := Selected(contents, TraceOnly);
      forall content | content in selected
        ensures !content.Rule?
      {
        SelectedMembers(contents, TraceOnly, content);
      }
      NoObligations(reg.grammar, selected);
      GrammarTableShape(reg.grammar);
    }
  }

  lemma {:induction false} NoObligations(g: Grammar, contents: seq<FragmentContent>)
    requires forall content :: content in contents ==> !content.Rule?
    ensures DirectBuilder.Collect(g, contents) == Ok(map[])
  {
    if contents != [] {
      NoObligations(g, contents[..|contents| - 1]);
    }
  }

  /** One state, one input, two outputs. */
  function TinyGrammar(version: Text): Grammar {
    Grammar(version, [[1]], [[2], [3]], [[4]], [4], 4)
  }

  /** A contract, a held-out trace that follows it and a training trace that does not. */
  function TornEvidence(): seq<FragmentContent> {
    [StatePolicy([[4]], [4]), Rule([4], [1], [4], [2]), Trace(HeldOut, [4], [[1]], [[2]]), Trace(Training, [4], [[1]], [[3]])]
  }

  const MOVE := Transition([4], [1], [4], [2])

  lemma TinyShape(version: Text)
    requires version != []
    ensures var g := TinyGrammar(version);
            && g.Valid() && g.Cells() == [([4], [1])] && g.Choices() == [([4], [2]), ([4], [3])]
            && MOVE.Valid(g) && Search.TableCount(g) == 2
  {
    var g := TinyGrammar(version);
    assert Elements(g.inputs) == {[1]} && Elements(g.states) == {[4]} && Elements(g.outputs) == {[2], [3]};
    assert g.states[0] == [4] && g.outputs[0] == [2];
    assert g.states[1..] == [];
    assert Product(g.states[1..], g.inputs) == [] && Product(g.states[1..], g.outputs) == [];
    assert Pow(2, 1) == 2 * Pow(2, 0);
  }

  lemma TinyTable(version: Text, contents: seq<FragmentContent>)
    requires version != []
    ensures Search.Problem(TinyGrammar(version), contents).IsTable([MOVE])
    ensures DistinctCells([MOVE])
  {
    TinyShape(version);
    assert MOVE.Choice() in TinyGrammar(version).Choices();
  }

  lemma OneStep(s: Text, input: Text, outputs: seq<Text>)
    requires s == [4] && input == [1]
    ensures Produces([MOVE], s, [input], outputs) <==> outputs == [[2]]
  {
    if outputs == [[2]] {
      assert Trail([MOVE], [s, [4]], [input], outputs);
    }
    if trail :| Trail([MOVE], trail, [input], outputs) && trail[0] == s {
      assert Transition(trail[0], [input][0], trail[0 + 1], outputs[0]) in [MOVE];
    }
  }

  /** Both builders return the contract's table, the search when no trace is handed to it. */
  lemma TornReconstructed(version: Text, mode: Mode)
    requires version in {FSM_V0, FSM_V1} && !mode.TraceOnly? && (version == FSM_V1 ==> !mode.Full?)
    ensures Reconstructed(TinyGrammar(version), Selected(TornEvidence(), mode)).Ok?
    ensures Reconstructed(TinyGrammar(version), Selected(TornEvidence(), mode)).value.0 == [MOVE]
  {
    hide Selected, Search.Problem.Outcome, DirectBuilder.Outcome, TinyGrammar, TornEvidence;
    TornSelected(mode);
    if version == FSM_V0 {
      DirectFindsMove(Selected(TornEvidence(), mode), mode);
    } else {
      SearchFindsMove(version, Selected(TornEvidence(), mode));
    }
    assert TinyGrammar(version).version == version by {
      TinyVersion(version);
    }
  }

  lemma TinyVersion(version: Text)
    ensures TinyGrammar(version).version == version
  {
  }

  lemma DirectFindsMove(selected: seq<FragmentContent>, mode: Mode)
    requires selected == if mode.Full? then TornEvidence() else TornEvidence()[..2]
    ensures DirectBuilder.Outcome(TinyGrammar(FSM_V0), selected).Ok?
    ensures DirectBuilder.Outcome(TinyGrammar(FSM_V0), selected).value.0 == [MOVE]
  {
    hide DirectBuilder.Outcome, Grammar.Valid, Product, Search.Problem.IsTable;
    var g := TinyGrammar(FSM_V0);
    TinyShape(FSM_V0);
    TinyTable(FSM_V0, selected);
    assert selected[1] == Rule([4], [1], [4], [2]) && selected[1].Demand() == MOVE && MOVE in [MOVE];
    assert forall c :: c in g.Cells() ==> DirectBuilder.Names(selected, c);
    DirectBuilder.DirectRebuilds(g, selected, [MOVE]);
  }

  lemma TornSelected(mode: Mode)
    requires !mode.TraceOnly?
    ensures Selected(TornEvidence(), mode) == if mode.Full? then TornEvidence() else TornEvidence()[..2]
  {
    var all := TornEvidence();
    assert all[1..][1..][1..][1..] == [];
    assert Selected(all[1..][1..][1..], mode) == if mode.Full? then [all[3]] else [];
    assert Selected(all[1..][1..], mode) == if mode.Full? then [all[2], all[3]] else [];
    assert Selected(all[1..], mode) == if mode.Full? then [all[1], all[2], all[3]] else [all[1]];
  }

  lemma SearchFindsMove(version: Text, selected: seq<FragmentContent>)
    requires version != [] && selected == TornEvidence()[..2]
    ensures Search.Problem(TinyGrammar(version), selected).Outcome().Ok?
    ensures Search.Problem(TinyGrammar(version), selected).Outcome().value.0 == [MOVE]
  {
    hide Search.Problem.Outcome;
    var pb := Search.Problem(TinyGrammar(version), selected);
    TinyShape(version);
    TinyTable(version, selected);
    assert selected == [StatePolicy([[4]], [4]), Rule([4], [1], [4], [2])];
    assert SearchMeaning.Explanation(pb, [MOVE]) by {
      assert MOVE in [MOVE];
    }
    forall other | SearchMeaning.Explanation(pb, other)
      ensures other == [MOVE]
    {
      assert Explains(other, pb.g, selected[1]) && MOVE in other && |other| == 1;
    }
    SearchMeaning.SynthesisDecides(pb);
    SearchMeaning.SynthesisMeans(pb);
  }

  function TornRegistry(version: Text): Registry {
    Registry([5], [6], TinyGrammar(version), {})
  }

  function TornRecovery(version: Text, examined: nat): Recovery {
    var g := TinyGrammar(version);
    var lowered := Sandbox.LowerAll(g, [MOVE]);
    Recovery(Candidate([5], [6], g, [MOVE]), if lowered.Ok? then Sandbox.Code(lowered.value) else [], examined)
  }

  /** A recovery whose module contradicts a training trace it was admitted with. */
  lemma TrainingContradicted(version: Text, mode: Mode) returns (reg: Registry, contents: seq<FragmentContent>, out: Recovery)
    requires version in {FSM_V0, FSM_V1} && !mode.TraceOnly? && (version == FSM_V1 ==> !mode.Full?)
    ensures WellTyped(reg) && reg.grammar.version == version && RecoveredAs(reg, contents, mode, out)
    ensures !FollowsTraining(contents, out)
  {
    hide RecoveredAs, Reconstructed, WellTyped, TornRecovery, Selected, Produces;
    reg, contents := TornRegistry(version), TornEvidence();
    TornReconstructed(version, mode);
    var examined := Reconstructed(TinyGrammar(version), Selected(contents, mode)).value.1;
    out := TornRecovery(version, examined);
    TornCandidate(version, examined);
    TornRecovered(version, mode, out);
    OneStep([4], [1], [[3]]);
    assert contents[3].Trace? && !Produces([MOVE], contents[3].initialState, contents[3].inputs, contents[3].outputs);
  }

  lemma TornCandidate(version: Text, examined: nat)
    ensures TornRecovery(version, examined).candidate == Candidate([5], [6], TinyGrammar(version), [MOVE])
    ensures TornRecovery(version, examined).examined == examined
  {
  }

  lemma TornRecovered(version: Text, mode: Mode, out: Recovery)
    requires version in {FSM_V0, FSM_V1} && !mode.TraceOnly?
    requires Reconstructed(TinyGrammar(version), Selected(TornEvidence(), mode)) == Ok(([MOVE], out.examined))
    requires out == TornRecovery(version, out.examined)
    ensures WellTyped(TornRegistry(version)) && RecoveredAs(TornRegistry(version), TornEvidence(), mode, out)
  {
    hide Reconstructed, Wire.CandidateBytes, WireIo.LengthsFit, Sandbox.Code, Sandbox.LowerAll, Selected, Certifies,
      Grammar.Valid, TinyGrammar, TornEvidence, Schemas, Utf8;
    var c := Candidate([5], [6], TinyGrammar(version), [MOVE]);
    TinyShape(version);
    TinyCertified(c, version);
    Compilation.SoundLowers(c);
    TornSchemas();
    assert TinyGrammar(version).states == [[4]] && TinyGrammar(version).initialState == [4] by {
      TinyParts(version);
    }
  }

  lemma TinyParts(version: Text)
    ensures TinyGrammar(version).states == [[4]] && TinyGrammar(version).initialState == [4]
  {
  }

  lemma TornSchemas()
    ensures Schemas(TornEvidence()) == [StatePolicy([[4]], [4])]
  {
    var all := TornEvidence();
    assert all[1..][1..][1..][1..] == [];
    assert Schemas(all[1..][1..][1..]) == [];
    assert Schemas(all[1..][1..]) == [] && Schemas(all[1..]) == [];
  }

  lemma TinyCertified(c: Candidate, version: Text)
    requires version in {FSM_V0, FSM_V1} && c == Candidate([5], [6], TinyGrammar(version), [MOVE])
    ensures Compilation.Sound(c) && WireIo.AllUtf8(c) && WireIo.LengthsFit(c)
    ensures Certifies(Wire.CandidateBytes(c), [5], [6], TornEvidence())
  {
    hide Wire.Decode, Wire.CandidateBytes, Wire.WithinBounds, Wire.WritableCandidate, WireIo.LengthsFit, CertifiesCandidate,
      Grammar.Valid, Produces;
    TinyShape(version);
    TinyUtf8(c, version);
    WireIo.ValidCandidateBounds(c);
    Wire.RoundTrip(c);
    TornCounts();
    CountMeans(TornEvidence(), ARule);
    CountMeans(TornEvidence(), AHeldOut);
    CountMeans(TornEvidence(), APolicy);
    OneStep([4], [1], [[2]]);
    CertificateMeans(c, [5], [6], TornEvidence());
  }

  lemma TinyUtf8(c: Candidate, version: Text)
    requires version in {FSM_V0, FSM_V1} && c == Candidate([5], [6], TinyGrammar(version), [MOVE])
    ensures WireIo.AllUtf8(c)
  {
    AsciiIsUtf8(version);
    forall b | b in {1, 2, 3, 4, 5, 6} {
      AsciiIsUtf8([b]);
    }
  }

  lemma {:induction false} AsciiIsUtf8(s: Text)
    requires forall k :: 0 <= k < |s| ==> s[k] < 0x80
    ensures Utf8(s)
  {
    if s != [] {
      AsciiIsUtf8(s[1..]);
    }
  }

  lemma TornCounts()
    ensures Count(TornEvidence(), ARule) == 1 && Count(TornEvidence(), AHeldOut) == 1 && Count(TornEvidence(), APolicy) == 1
  {
    var all := TornEvidence();
    forall kind
      ensures Count(all[..3], kind) == if kind in {ARule, AHeldOut, APolicy} then 1 else 0
    {
      assert all[..3][..2] == all[..2] && all[..3][..2][..1] == all[..1] && all[..1][..0] == [];
      assert Count(all[..1], kind) == if kind == APolicy then 1 else 0;
      assert Count(all[..2], kind) == Count(all[..1], kind) + if kind == ARule then 1 else 0;
      assert Count(all[..3], kind) == Count(all[..2], kind) + if kind == AHeldOut then 1 else 0;
    }
    assert all[..|all| - 1] == all[..3];
  }

  /** Training traces bind exactly the recoveries of the exhaustive grammar in the modes that
      hand traces to the search; in trace-only mode the direct builder recovers nothing. */
  lemma TrainingBindsExactly(version: Text, mode: Mode)
    requires version in {FSM_V0, FSM_V1}
    ensures TrainingBinds(version, mode) <==> mode.TraceOnly? || (version == FSM_V1 && mode.Full?)
  {
    hide RecoveredAs, FollowsTraining;
    if mode.TraceOnly? || (version == FSM_V1 && mode.Full?) {
      forall reg: Registry, contents, out | reg.grammar.version == version && RecoveredAs(reg, contents, mode, out)
        ensures FollowsTraining(contents, out)
      {
        TrainingFollowed(reg, contents, mode, out);
      }
    } else {
      var reg, contents, out := TrainingContradicted(version, mode);
    }
  }

  lemma TrainingFollowed(reg: Registry, contents: seq<FragmentContent>, mode: Mode, out: Recovery)
    requires RecoveredAs(reg, contents, mode, out) && reg.grammar.version in {FSM_V0, FSM_V1}
    requires mode.TraceOnly? || (reg.grammar.version == FSM_V1 && mode.Full?)
    ensures FollowsTraining(contents, out)
  {
    hide RecoveredAs;
    if reg.grammar.version == FSM_V0 {
      NothingDirect(reg, contents, out);
    } else {
      forall k | 0 <= k < |contents| && contents[k].Trace? && contents[k].role.Training?
        ensures Produces(out.candidate.transitions, contents[k].initialState, contents[k].inputs, contents[k].outputs)
      {
        TrainingReplayed(reg, contents, mode, out, k);
      }
    }
  }
}
