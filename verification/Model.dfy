/** The vocabulary of a recovery: grammars, transitions, candidates and evidence
    fragments, with the validation every stage performs on them. */
module Model {
  import opened Basics

  datatype Error =
    | InvalidRegistry
    | InvalidEvidence
    | InsufficientEvidence
    | ContradictoryEvidence
    | SearchExhausted
    | CheckerRejected

  datatype Grammar = Grammar(
    version: Text,
    inputs: seq<Text>,
    outputs: seq<Text>,
    states: seq<Text>,
    initialState: Text,
    maxCandidates: nat
  ) {
    /** Every refusal of the source is the same InvalidRegistry, so validation is a predicate. */
    predicate Valid() {
      && ValidSymbols(inputs)
      && ValidSymbols(outputs)
      && ValidSymbols(states)
      && |inputs| <= 64 && |outputs| <= 64 && |states| <= 64
      && |states| * |inputs| <= 256
      && version != []
      && initialState in states
      && 1 <= maxCandidates <= 1_000_000
    }

    /** The cells of the transition table, and what may fill one, in loop order. */
    function Cells(): seq<(Text, Text)> {
      Product(states, inputs)
    }

    function Choices(): seq<(Text, Text)> {
      Product(states, outputs)
    }
  }

  predicate ValidSymbols(values: seq<Text>) {
    && values != []
    && (forall v :: v in values ==> v != [])
    && |Elements(values)| == |values|
    && (forall v :: v in values ==> |v| <= 256)
  }

  datatype Transition = Transition(state: Text, input: Text, nextState: Text, output: Text) {
    predicate Valid(g: Grammar) {
      && state in g.states && nextState in g.states
      && input in g.inputs && output in g.outputs
    }

    function Cell(): (Text, Text) {
      (state, input)
    }

    function Choice(): (Text, Text) {
      (nextState, output)
    }
  }

  datatype Candidate = Candidate(
    component: Text,
    interfaceVersion: Text,
    grammar: Grammar,
    transitions: seq<Transition>
  )

  datatype TraceRole = Training | HeldOut

  datatype FragmentContent =
    | Rule(state: Text, input: Text, nextState: Text, output: Text)
    | StatePolicy(states: seq<Text>, initialState: Text)
    | Trace(role: TraceRole, initialState: Text, inputs: seq<Text>, outputs: seq<Text>)
    | NegativeCase(initialState: Text, inputs: seq<Text>, forbiddenOutputs: seq<Text>)
    | MetamorphicProperty(initialState: Text, input: Text, repetitions: nat)
  {
    /** The transition a contract fragment demands. */
    function Demand(): Transition
      requires Rule?
    {
      Transition(state, input, nextState, output)
    }
  }

  /** What a validated grammar's symbol counts give the table: repetition-free cells
      and choices, of the advertised sizes. */
  lemma GrammarTableShape(g: Grammar)
    requires g.Valid()
    ensures NoDuplicates(g.states) && NoDuplicates(g.inputs) && NoDuplicates(g.outputs)
    ensures NoDuplicates(g.Cells()) && NoDuplicates(g.Choices())
    ensures 1 <= |g.Cells()| == |g.states| * |g.inputs| <= 256
    ensures 1 <= |g.Choices()| == |g.states| * |g.outputs|
  {
    DistinctCount(g.states);
    DistinctCount(g.inputs);
    DistinctCount(g.outputs);
    ProductFacts(g.states, g.inputs);
    ProductFacts(g.states, g.outputs);
    MulMonotone(1, |g.states|, |g.inputs|);
    MulMonotone(1, |g.states|, |g.outputs|);
  }
}
