/** What a certificate of src/checker.rs says of a candidate's transitions, spelled out for
    every kind of fragment without the checker's own interpreter. */
module CertificationMeaning {
  import opened Basics
  import opened Model
  import opened Evaluation
  import opened Checker
  import opened Certification
  import opened Trails
  import Compilation

  /** What the checker takes a fragment to demand of a table. Training traces are not its
      business; a held-out trace starts from a declared state and is replayed exactly. */
  ghost predicate Demanded(ts: seq<Transition>, g: Grammar, content: FragmentContent) {
    match content
    case Trace(Training, _, _, _) => true
    case Trace(HeldOut, s, inputs, outputs) => s in g.states && Produces(ts, s, inputs, outputs)
    case Rule(_, _, _, _) => Explains(ts, g, content)
    case NegativeCase(_, _, _) => Explains(ts, g, content)
    case MetamorphicProperty(_, _, _) => Explains(ts, g, content)
    case StatePolicy(_, _) => Explains(ts, g, content)
  }

  lemma PassesMeans(c: Candidate, content: FragmentContent)
    requires Compilation.Sound(c)
    ensures Passes(NestedOf(c.grammar, c.transitions), c.grammar, content) <==>
            Demanded(c.transitions, c.grammar, content)
  {
    hide NestedOf, TableOf, Run, NestedRun, IsIdempotent, NestedIdempotent, Produces, Settles, Lost, Grammar.Valid;
    var g, ts := c.grammar, c.transitions;
    MeetsMeans(ts, g, content);
    match content {
      case Rule(state, input, nextState, output) => RulePasses(c, content);
      case Trace(HeldOut, s, inputs, outputs) =>
        HeldOutMeans(c, content);
        RunMeans(ts, s, inputs);
      case Trace(Training, _, _, _) =>
      case NegativeCase(s, inputs, forbidden) =>
        assert StatesKnown(g, ts);
        TracesAgree(g, ts, s, inputs);
      case MetamorphicProperty(s, input, n) =>
        assert StatesKnown(g, ts);
        RepetitionsAgree(g, ts, s, input, n);
      case StatePolicy(_, _) =>
    }
  }

  lemma RulePasses(c: Candidate, content: FragmentContent)
    requires Compilation.Sound(c) && content.Rule?
    ensures Passes(NestedOf(c.grammar, c.transitions), c.grammar, content) <==> content.Demand() in c.transitions
  {
    hide NestedOf, TableOf, Grammar.Valid;
    var t := content.Demand();
    assert StatesKnown(c.grammar, c.transitions);
    LookupsAgree(c.grammar, c.transitions, t.state, t.input);
    Listed(c.transitions, t);
  }

  /** One valid transition for every cell, none twice. */
  ghost predicate OneForEachCell(c: Candidate) {
    && c.grammar.Valid()
    && (forall t :: t in c.transitions ==> t.Valid(c.grammar))
    && (forall i, j :: 0 <= i < j < |c.transitions| ==> c.transitions[i].Cell() != c.transitions[j].Cell())
    && |c.transitions| == |c.grammar.states| * |c.grammar.inputs|
  }

  predicate OfKind(content: FragmentContent, kind: Kind) {
    match kind
    case ARule => content.Rule?
    case AHeldOut => content.Trace? && content.role.HeldOut?
    case APolicy => content.StatePolicy?
    case ANegative => content.NegativeCase?
    case AMetamorphic => content.MetamorphicProperty?
    case ATraining => content.Trace? && content.role.Training?
  }

  /** Where the fragments of one kind stand. */
  function Positions(contents: seq<FragmentContent>, kind: Kind): set<nat> {
    set k: nat | k < |contents| && OfKind(contents[k], kind)
  }

  lemma KindMeans(content: FragmentContent, kind: Kind)
    ensures OfKind(content, kind) <==> KindOf(content) == kind
  {
  }

  /** The counts of a certificate's coverage are the numbers of fragments of each kind. */
  lemma {:induction false} CountMeans(contents: seq<FragmentContent>, kind: Kind)
    ensures Count(contents, kind) == |Positions(contents, kind)|
  {
    if contents != [] {
      var n := |contents| - 1;
      CountMeans(contents[..n], kind);
      KindMeans(contents[n], kind);
      hide OfKind, KindOf;
      assert Positions(contents, kind) == Positions(contents[..n], kind) + if OfKind(contents[n], kind) then {n} else {};
    }
  }

  /** A certificate is issued exactly for a candidate of the right identity with one valid
      transition for each cell that does what every fragment demands, over evidence with as many
      contract fragments as cells, a held-out trace and one state policy. */
  lemma CertificateMeans(c: Candidate, component: Text, interfaceVersion: Text, contents: seq<FragmentContent>)
    ensures CertifiesCandidate(c, component, interfaceVersion, contents) <==>
            && OneForEachCell(c)
            && c.component == component && c.interfaceVersion == interfaceVersion
            && (forall k :: 0 <= k < |contents| ==> Demanded(c.transitions, c.grammar, contents[k]))
            && |Positions(contents, ARule)| == |c.grammar.states| * |c.grammar.inputs|
            && |Positions(contents, AHeldOut)| > 0
            && |Positions(contents, APolicy)| == 1
  {
    hide Passes, Demanded, Grammar.Valid, NestedOf, Count, Positions;
    CountMeans(contents, ARule);
    CountMeans(contents, AHeldOut);
    CountMeans(contents, APolicy);
    assert WellBuilt(c) <==> OneForEachCell(c) by {
      assert forall k :: 0 <= k < |c.transitions| ==> c.transitions[k] in c.transitions;
    }
    if WellBuilt(c) {
      forall k | 0 <= k < |contents|
        ensures Passes(NestedOf(c.grammar, c.transitions), c.grammar, contents[k]) <==>
                Demanded(c.transitions, c.grammar, contents[k])
      {
        PassesMeans(c, contents[k]);
      }
    }
  }

  /** However often one input is repeated, the output stays the same. */
  ghost predicate Constant(t: Table, s: Text, input: Text, output: Text) {
    forall m: nat :: Run(t, s, Repeat(input, m)) == Ok(Repeat(output, m))
  }

  /** Every held-out trace is replayed, and every negative case leads elsewhere, by any
      certified candidate. */
  lemma CertifiedTraces(c: Candidate, component: Text, interfaceVersion: Text, contents: seq<FragmentContent>, k: nat)
    requires CertifiesCandidate(c, component, interfaceVersion, contents) && k < |contents|
    ensures match contents[k]
      case Trace(HeldOut, s, inputs, outputs) => s in c.grammar.states && Run(TableOf(c.transitions), s, inputs) == Ok(outputs)
      case NegativeCase(s, inputs, forbidden) =>
        Run(TableOf(c.transitions), s, inputs).Ok? && Run(TableOf(c.transitions), s, inputs) != Ok(forbidden)
      case MetamorphicProperty(s, input, n) =>
        exists output :: Constant(TableOf(c.transitions), s, input, output)
      case _ => true
  {
    hide Passes, NestedOf, TableOf, Run, Produces, Settles, Grammar.Valid, Count;
    CertificateMeans(c, component, interfaceVersion, contents);
    PassesMeans(c, contents[k]);
    match contents[k] {
      case Trace(_, s, inputs, _) => RunMeans(c.transitions, s, inputs);
      case NegativeCase(s, inputs, _) => RunMeans(c.transitions, s, inputs);
      case MetamorphicProperty(s, input, n) =>
        RepetitionMeans(c.transitions, s, input, n);
        var t := TableOf(c.transitions);
        forall m: nat
          ensures Run(t, s, Repeat(input, m)) == Ok(Repeat(t[(s, input)].1, m))
        {
          RepetitionIsConstant(t, s, input, n, m);
        }
        assert Constant(t, s, input, t[(s, input)].1);
      case _ =>
    }
  }
}
