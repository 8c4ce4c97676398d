/** The search of src/synthesizer.rs, judged by what the evidence says of transitions: no
    interpreter and no verdict of the model's own appears in these results. */
module SearchMeaning {
  import opened Basics
  import opened Model
  import opened Evaluation
  import opened Search
  import opened Trails
  import DirectBuilder

  /** The fragment is about symbols of the grammar, as far as its evaluation looks. */
  ghost predicate KnownSymbols(g: Grammar, content: FragmentContent) {
    match content
    case Trace(Training, s, inputs, _) => KnownPath(g, s, inputs)
    case NegativeCase(s, inputs, _) => KnownPath(g, s, inputs)
    case MetamorphicProperty(s, input, n) => n >= 2 ==> s in g.states && input in g.inputs
    case _ => true
  }

  ghost predicate KnownPath(g: Grammar, s: Text, inputs: seq<Text>) {
    (inputs == [] || s in g.states) && forall i :: i in inputs ==> i in g.inputs
  }

  /** The verdict on a table of the grammar is what the evidence says of its transitions. */
  lemma TableVerdict(pb: Problem, ts: seq<Transition>)
    requires pb.g.Valid() && pb.IsTable(ts)
    ensures pb.Verdict(ts) == Ok(true) <==> ExplainsAll(ts, pb.g, pb.contents)
    ensures pb.Verdict(ts).Err? <==> StuckFirst(ts, pb.g, pb.contents)
  {
    hide Problem.IsTable, Grammar.Valid, MeetsAll, ExplainsAll, StuckFirst, DistinctCells;
    DirectBuilder.FoundTable(pb, ts);
    VerdictMeans(ts, pb.g, pb.contents);
  }

  /** One valid transition for every cell. */
  lemma TableIsTotal(pb: Problem, ts: seq<Transition>, s: Text, i: Text)
    requires pb.g.Valid() && pb.IsTable(ts)
    ensures (s, i) in TableOf(ts) <==> s in pb.g.states && i in pb.g.inputs
    ensures (s, i) in TableOf(ts) ==> TableOf(ts)[(s, i)].0 in pb.g.states
  {
    hide Grammar.Valid, Product;
    var cells := pb.g.Cells();
    DirectBuilder.FoundTable(pb, ts);
    TableOfDistinct(ts);
    ProductFacts(pb.g.states, pb.g.inputs);
    if s in pb.g.states && i in pb.g.inputs {
      assert (s, i) in cells;
      var j :| 0 <= j < |cells| && cells[j] == (s, i);
      assert ts[j].Cell() == (s, i);
    }
    if (s, i) in TableOf(ts) {
      var j :| 0 <= j < |ts| && ts[j].Cell() == (s, i);
      assert ts[j].Valid(pb.g);
    }
  }

  lemma {:induction false} KnownPathRuns(pb: Problem, ts: seq<Transition>, s: Text, inputs: seq<Text>)
    requires pb.g.Valid() && pb.IsTable(ts)
    ensures Run(TableOf(ts), s, inputs).Ok? <==> KnownPath(pb.g, s, inputs)
    decreases |inputs|
  {
    hide Grammar.Valid, Problem.IsTable, TableOf;
    if inputs != [] {
      TableIsTotal(pb, ts, s, inputs[0]);
      assert inputs == [inputs[0]] + inputs[1..];
      if (s, inputs[0]) in TableOf(ts) {
        KnownPathRuns(pb, ts, TableOf(ts)[(s, inputs[0])].0, inputs[1..]);
      }
    }
  }

  /** Only an unknown symbol can stop an evaluation, and on every table it does. */
  lemma StuckIsUnknown(pb: Problem, ts: seq<Transition>, content: FragmentContent)
    requires pb.g.Valid() && pb.IsTable(ts)
    ensures Stuck(ts, content) <==> !KnownSymbols(pb.g, content)
  {
    hide Grammar.Valid, Problem.IsTable, TableOf, Run, Lost, DistinctCells, Transition.Valid;
    DirectBuilder.FoundTable(pb, ts);
    match content {
      case Trace(_, s, inputs, _) =>
        RunMeans(ts, s, inputs);
        KnownPathRuns(pb, ts, s, inputs);
      case NegativeCase(s, inputs, _) =>
        RunMeans(ts, s, inputs);
        KnownPathRuns(pb, ts, s, inputs);
      case MetamorphicProperty(s, input, _) =>
        RunMeans(ts, s, [input, input]);
        KnownPathRuns(pb, ts, s, [input, input]);
      case _ =>
    }
  }

  /** A table of the grammar that explains every fragment. */
  ghost predicate Explanation(pb: Problem, ts: seq<Transition>) {
    pb.IsTable(ts) && ExplainsAll(ts, pb.g, pb.contents)
  }

  ghost predicate OneExplanation(pb: Problem) {
    exists ts :: Explanation(pb, ts) && forall other :: Explanation(pb, other) ==> other == ts
  }

  ghost predicate NoExplanation(pb: Problem) {
    forall ts :: !Explanation(pb, ts)
  }

  ghost predicate TwoExplanations(pb: Problem) {
    exists a, b :: Explanation(pb, a) && Explanation(pb, b) && a != b
  }

  /** Synthesis is exact in the evidence's own terms: a returned table is the only one of the
      grammar that explains every fragment, and every refusal is as true. */
  lemma SynthesisMeans(pb: Problem)
    requires pb.g.Valid()
    ensures match pb.Outcome()
      case Ok((ts, examined)) => Explanation(pb, ts) && forall other :: Explanation(pb, other) ==> other == ts
      case Err(ContradictoryEvidence) => NoExplanation(pb)
      case Err(InsufficientEvidence) => TwoExplanations(pb)
      case Err(InvalidEvidence) => exists k :: 0 <= k < |pb.contents| && !KnownSymbols(pb.g, pb.contents[k])
      case Err(SearchExhausted) => TableCount(pb.g) > pb.g.maxCandidates
      case Err(_) => false
  {
    hide Problem.IsTable, Problem.Verdict, Problem.Outcome, ExplainsAll, KnownSymbols, TableCount, Grammar.Valid, Stuck;
    SynthesisExact(pb);
    forall ts | pb.IsTable(ts)
      ensures pb.Verdict(ts) == Ok(true) <==> Explanation(pb, ts)
      ensures pb.Verdict(ts).Err? ==> exists k :: 0 <= k < |pb.contents| && !KnownSymbols(pb.g, pb.contents[k])
    {
      TableVerdict(pb, ts);
      if StuckFirst(ts, pb.g, pb.contents) {
        var k :| 0 <= k < |pb.contents| && Stuck(ts, pb.contents[k]);
        StuckIsUnknown(pb, ts, pb.contents[k]);
      }
    }
  }

  /** Within the budget and over known symbols the search decides: one explanation is returned,
      none is a contradiction, and several are too little evidence, each exactly then. */
  lemma SynthesisDecides(pb: Problem)
    requires pb.g.Valid() && TableCount(pb.g) <= pb.g.maxCandidates
    requires forall k :: 0 <= k < |pb.contents| ==> KnownSymbols(pb.g, pb.contents[k])
    ensures pb.Outcome().Ok? <==> OneExplanation(pb)
    ensures pb.Outcome() == Err(ContradictoryEvidence) <==> NoExplanation(pb)
    ensures pb.Outcome() == Err(InsufficientEvidence) <==> TwoExplanations(pb)
  {
    hide Problem.Outcome, Explanation, KnownSymbols, TableCount, Grammar.Valid;
    SynthesisMeans(pb);
    if pb.Outcome().Ok? {
      assert Explanation(pb, pb.Outcome().value.0);
    }
  }

  /** The table a search returns contains every demanded transition, leads along every
      training trace to its outputs, and along no negative case to the forbidden ones. */
  lemma FoundFollowsEvidence(pb: Problem, k: nat)
    requires pb.g.Valid() && pb.Outcome().Ok? && k < |pb.contents|
    ensures var ts := pb.Outcome().value.0;
            match pb.contents[k]
            case Rule(state, input, nextState, output) => Transition(state, input, nextState, output) in ts
            case Trace(Training, s, inputs, outputs) => Produces(ts, s, inputs, outputs)
            case NegativeCase(s, inputs, forbidden) => !Produces(ts, s, inputs, forbidden) && !Lost(ts, s, inputs)
            case MetamorphicProperty(s, input, n) =>
              n >= 2 && exists next, output :: Settles(ts, s, input, n, next, output)
            case StatePolicy(states, initial) => states == pb.g.states && initial == pb.g.initialState
            case Trace(HeldOut, _, _, _) => true
  {
    hide Problem.IsTable, Problem.Outcome, Grammar.Valid, DistinctCells, Produces, Settles;
    SynthesisMeans(pb);
    var ts := pb.Outcome().value.0;
    DirectBuilder.FoundTable(pb, ts);
    assert Explains(ts, pb.g, pb.contents[k]);
    if pb.contents[k].NegativeCase? {
      RunMeans(ts, pb.contents[k].initialState, pb.contents[k].inputs);
    }
  }
}
