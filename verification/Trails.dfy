/** What a fragment says about a table, in terms of its transitions alone: trails of states,
    and no interpreter. The evaluation of src/synthesizer.rs decides exactly this. */
module Trails {
  import opened Basics
  import opened Model
  import opened Evaluation

  /** The table leads through these states on these inputs, putting out these outputs. */
  ghost predicate Trail(ts: seq<Transition>, trail: seq<Text>, inputs: seq<Text>, outputs: seq<Text>) {
    && |trail| == |inputs| + 1 && |outputs| == |inputs|
    && forall k :: 0 <= k < |inputs| ==> Transition(trail[k], inputs[k], trail[k + 1], outputs[k]) in ts
  }

  /** From state `s` the inputs lead along some trail, with these outputs. */
  ghost predicate Produces(ts: seq<Transition>, s: Text, inputs: seq<Text>, outputs: seq<Text>) {
    exists trail :: Trail(ts, trail, inputs, outputs) && trail[0] == s
  }

  /** From state `s` the inputs lead nowhere: some transition is missing on the way. */
  ghost predicate Lost(ts: seq<Transition>, s: Text, inputs: seq<Text>) {
    forall outputs :: !Produces(ts, s, inputs, outputs)
  }

  /** The first input leads to a state and an output, and so does every further one. */
  ghost predicate Settles(ts: seq<Transition>, s: Text, input: Text, n: nat, next: Text, output: Text) {
    Trail(ts, [s] + Repeat(next, n), Repeat(input, n), Repeat(output, n))
  }

  /** What the synthesizer takes a fragment to say of a table. */
  ghost predicate Explains(ts: seq<Transition>, g: Grammar, content: FragmentContent) {
    match content
    case Rule(state, input, nextState, output) => Transition(state, input, nextState, output) in ts
    case Trace(Training, s, inputs, outputs) => Produces(ts, s, inputs, outputs)
    case NegativeCase(s, inputs, forbidden) => exists outputs :: Produces(ts, s, inputs, outputs) && outputs != forbidden
    case MetamorphicProperty(s, input, n) => n >= 2 && exists next, output :: Settles(ts, s, input, n, next, output)
    case StatePolicy(states, initial) => states == g.states && initial == g.initialState
    case Trace(HeldOut, _, _, _) => true
  }

  /** The fragment asks for a transition the table does not have, so its evaluation fails. */
  ghost predicate Stuck(ts: seq<Transition>, content: FragmentContent) {
    match content
    case Trace(Training, s, inputs, _) => Lost(ts, s, inputs)
    case NegativeCase(s, inputs, _) => Lost(ts, s, inputs)
    case MetamorphicProperty(s, input, n) => n >= 2 && Lost(ts, s, [input, input])
    case _ => false
  }

  // ----- The interpreter follows trails -----

  /** A transition is listed exactly when the table's map has it. */
  lemma Listed(ts: seq<Transition>, t: Transition)
    requires DistinctCells(ts)
    ensures t in ts <==> t.Cell() in TableOf(ts) && TableOf(ts)[t.Cell()] == t.Choice()
  {
    TableOfDistinct(ts);
    if t.Cell() in TableOf(ts) && TableOf(ts)[t.Cell()] == t.Choice() {
      var j :| 0 <= j < |ts| && ts[j].Cell() == t.Cell();
      assert ts[j] == t;
    }
  }

  lemma {:induction false} RunFollows(ts: seq<Transition>, trail: seq<Text>, inputs: seq<Text>, outputs: seq<Text>)
    requires DistinctCells(ts) && Trail(ts, trail, inputs, outputs)
    ensures Run(TableOf(ts), trail[0], inputs) == Ok(outputs)
    decreases |inputs|
  {
    hide DistinctCells, TableOf;
    if inputs != [] {
      Listed(ts, Transition(trail[0], inputs[0], trail[1], outputs[0]));
      assert Trail(ts, trail[1..], inputs[1..], outputs[1..]);
      RunFollows(ts, trail[1..], inputs[1..], outputs[1..]);
      assert outputs == [outputs[0]] + outputs[1..];
    }
  }

  lemma {:induction false} TrailOf(ts: seq<Transition>, s: Text, inputs: seq<Text>) returns (trail: seq<Text>)
    requires DistinctCells(ts) && Run(TableOf(ts), s, inputs).Ok?
    ensures Trail(ts, trail, inputs, Run(TableOf(ts), s, inputs).value) && trail[0] == s
    decreases |inputs|
  {
    hide DistinctCells, TableOf;
    trail := [s];
    if inputs != [] {
      var (next, output) := TableOf(ts)[(s, inputs[0])];
      Listed(ts, Transition(s, inputs[0], next, output));
      var rest := TrailOf(ts, next, inputs[1..]);
      trail := [s] + rest;
      TrailGrows(ts, s, rest, inputs, output, Run(TableOf(ts), next, inputs[1..]).value);
    }
  }

  lemma TrailGrows(ts: seq<Transition>, s: Text, rest: seq<Text>, inputs: seq<Text>, output: Text, outputs: seq<Text>)
    requires inputs != [] && Trail(ts, rest, inputs[1..], outputs)
    requires Transition(s, inputs[0], rest[0], output) in ts
    ensures Trail(ts, [s] + rest, inputs, [output] + outputs)
  {
    var trail, all := [s] + rest, [output] + outputs;
    forall k | 0 <= k < |inputs|
      ensures Transition(trail[k], inputs[k], trail[k + 1], all[k]) in ts
    {
      if k > 0 {
        assert Transition(rest[k - 1], inputs[1..][k - 1], rest[k - 1 + 1], outputs[k - 1]) in ts;
      }
    }
  }

  /** A run returns exactly the outputs of the one trail there is, and fails if there is none. */
  lemma RunMeans(ts: seq<Transition>, s: Text, inputs: seq<Text>)
    requires DistinctCells(ts)
    ensures forall outputs :: Produces(ts, s, inputs, outputs) <==> Run(TableOf(ts), s, inputs) == Ok(outputs)
    ensures Lost(ts, s, inputs) <==> Run(TableOf(ts), s, inputs).Err?
  {
    hide Run, TableOf, DistinctCells;
    forall outputs
      ensures Produces(ts, s, inputs, outputs) <==> Run(TableOf(ts), s, inputs) == Ok(outputs)
    {
      if trail :| Trail(ts, trail, inputs, outputs) && trail[0] == s {
        RunFollows(ts, trail, inputs, outputs);
      }
      if Run(TableOf(ts), s, inputs) == Ok(outputs) {
        var trail := TrailOf(ts, s, inputs);
      }
    }
  }

  // ----- The evaluation decides the meaning -----

  /** Two repetitions tell whether a table settles, however many are asked for. */
  lemma SettlesMeans(ts: seq<Transition>, s: Text, input: Text, n: nat, next: Text, output: Text)
    requires n >= 2
    ensures Settles(ts, s, input, n, next, output) <==>
            Transition(s, input, next, output) in ts && Transition(next, input, next, output) in ts
  {
    var trail := [s] + Repeat(next, n);
    if Settles(ts, s, input, n, next, output) {
      assert Transition(trail[0], Repeat(input, n)[0], trail[0 + 1], Repeat(output, n)[0]) in ts;
      assert Transition(trail[1], Repeat(input, n)[1], trail[1 + 1], Repeat(output, n)[1]) in ts;
    }
  }

  lemma RepetitionMeans(ts: seq<Transition>, s: Text, input: Text, n: nat)
    requires DistinctCells(ts) && n >= 2
    ensures IsIdempotent(TableOf(ts), s, input, n) == Ok(true) <==>
            exists next, output :: Settles(ts, s, input, n, next, output)
    ensures IsIdempotent(TableOf(ts), s, input, n).Err? <==> Lost(ts, s, [input, input])
  {
    hide TableOf, DistinctCells, Settles, Lost;
    var t := TableOf(ts);
    RunMeans(ts, s, [input, input]);
    if (s, input) in t {
      var (next, output) := t[(s, input)];
      RunTwice(t, s, input);
      Listed(ts, Transition(s, input, next, output));
      Listed(ts, Transition(next, input, next, output));
      SettlesMeans(ts, s, input, n, next, output);
      if (next, input) in t && t[(next, input)] == (next, output) {
        StaysForever(t, input, (next, output), n - 1);
      }
    }
    forall next, output | Settles(ts, s, input, n, next, output)
      ensures (s, input) in t && t[(s, input)] == (next, output) && (next, input) in t && t[(next, input)] == (next, output)
    {
      SettlesMeans(ts, s, input, n, next, output);
      Listed(ts, Transition(s, input, next, output));
      Listed(ts, Transition(next, input, next, output));
    }
    if (s, input) !in t {
      assert Run(t, s, [input, input]).Err?;
    }
  }

  lemma RunTwice(t: Table, s: Text, input: Text)
    requires (s, input) in t
    ensures Run(t, s, [input, input]).Ok? <==> (t[(s, input)].0, input) in t
  {
    var next := t[(s, input)].0;
    assert [input, input][1..] == [input] && [input][1..] == [];
    assert Run(t, next, [input]).Ok? <==> (next, input) in t by {
      if (next, input) in t {
        assert Run(t, t[(next, input)].0, []) == Ok([]);
      }
    }
  }

  /** The evaluation of one fragment: it passes exactly on the tables that explain the
      fragment, and fails exactly where it gets stuck. */
  lemma MeetsMeans(ts: seq<Transition>, g: Grammar, content: FragmentContent)
    requires DistinctCells(ts)
    ensures Meets(TableOf(ts), g, content) == Ok(true) <==> Explains(ts, g, content)
    ensures Meets(TableOf(ts), g, content).Err? <==> Stuck(ts, content)
  {
    hide TableOf, DistinctCells, Run, IsIdempotent, Produces, Lost, Settles;
    match content {
      case Rule(state, input, nextState, output) => Listed(ts, Transition(state, input, nextState, output));
      case Trace(_, s, inputs, outputs) => RunMeans(ts, s, inputs);
      case NegativeCase(s, inputs, forbidden) => RunMeans(ts, s, inputs);
      case MetamorphicProperty(s, input, n) => if n >= 2 { RepetitionMeans(ts, s, input, n); }
      case StatePolicy(_, _) =>
    }
  }

  ghost predicate ExplainsAll(ts: seq<Transition>, g: Grammar, contents: seq<FragmentContent>) {
    forall k :: 0 <= k < |contents| ==> Explains(ts, g, contents[k])
  }

  /** The first fragment that is not explained is one to get stuck on. */
  ghost predicate StuckFirst(ts: seq<Transition>, g: Grammar, contents: seq<FragmentContent>) {
    exists k :: 0 <= k < |contents| && Stuck(ts, contents[k]) && ExplainsAll(ts, g, contents[..k])
  }

  /** The verdict on a list of fragments, spelled out on the transitions. */
  lemma {:induction false} VerdictMeans(ts: seq<Transition>, g: Grammar, contents: seq<FragmentContent>)
    requires DistinctCells(ts)
    ensures MeetsAll(TableOf(ts), g, contents) == Ok(true) <==> ExplainsAll(ts, g, contents)
    ensures MeetsAll(TableOf(ts), g, contents).Err? <==> StuckFirst(ts, g, contents)
  {
    hide TableOf, DistinctCells, Meets, Explains, Stuck;
    if contents != [] {
      var rest := contents[1..];
      MeetsMeans(ts, g, contents[0]);
      VerdictMeans(ts, g, rest);
      assert contents == [contents[0]] + rest;
      forall k | 0 < k < |contents|
        ensures ExplainsAll(ts, g, contents[..k]) <==> Explains(ts, g, contents[0]) && ExplainsAll(ts, g, rest[..k - 1])
      {
        assert contents[..k] == [contents[0]] + rest[..k - 1];
        ExplainsCons(ts, g, contents[0], rest[..k - 1]);
      }
      ExplainsCons(ts, g, contents[0], rest);
      NotStuckAndExplained(ts, g, contents[0]);
      StuckStep(ts, g, contents);
    }
  }

  lemma ExplainsCons(ts: seq<Transition>, g: Grammar, first: FragmentContent, rest: seq<FragmentContent>)
    ensures ExplainsAll(ts, g, [first] + rest) <==> Explains(ts, g, first) && ExplainsAll(ts, g, rest)
  {
    hide Explains;
    var all := [first] + rest;
    if ExplainsAll(ts, g, all) {
      assert Explains(ts, g, all[0]);
      assert forall k :: 0 <= k < |rest| ==> rest[k] == all[k + 1];
    }
  }

  lemma NotStuckAndExplained(ts: seq<Transition>, g: Grammar, content: FragmentContent)
    requires DistinctCells(ts)
    ensures !(Stuck(ts, content) && Explains(ts, g, content))
  {
    hide TableOf, DistinctCells, Meets, Explains, Stuck;
    MeetsMeans(ts, g, content);
  }

  lemma StuckStep(ts: seq<Transition>, g: Grammar, contents: seq<FragmentContent>)
    requires contents != []
    ensures StuckFirst(ts, g, contents) <==>
            Stuck(ts, contents[0]) || (Explains(ts, g, contents[0]) && StuckFirst(ts, g, contents[1..]))
  {
    hide Explains, Stuck;
    var rest := contents[1..];
    if k :| 0 <= k < |contents| && Stuck(ts, contents[k]) && ExplainsAll(ts, g, contents[..k]) {
      if k > 0 {
        assert contents[..k] == [contents[0]] + rest[..k - 1];
        ExplainsCons(ts, g, contents[0], rest[..k - 1]);
        assert Stuck(ts, rest[k - 1]);
      }
    }
    if Stuck(ts, contents[0]) {
      assert contents[..0] == [];
    }
    if Explains(ts, g, contents[0]) && StuckFirst(ts, g, rest) {
      var k :| 0 <= k < |rest| && Stuck(ts, rest[k]) && ExplainsAll(ts, g, rest[..k]);
      assert contents[..k + 1] == [contents[0]] + rest[..k];
      ExplainsCons(ts, g, contents[0], rest[..k]);
      assert Stuck(ts, contents[k + 1]);
    }
  }
}
