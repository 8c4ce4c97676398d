/** How the synthesizer evaluates one assignment (src/synthesizer.rs): the flat-map
    interpreter, the repetition check, and satisfaction of a list of fragments. */
module Evaluation {
  import opened Basics
  import opened Model

  /** The flat map both `satisfies` and `execute` work on: the last writer of a cell wins. */
  type Table = map<(Text, Text), (Text, Text)>

  function TableOf(ts: seq<Transition>): Table {
    if ts == [] then map[]
    else TableOf(ts[..|ts| - 1])[ts[|ts| - 1].Cell() := ts[|ts| - 1].Choice()]
  }

  ghost predicate DistinctCells(ts: seq<Transition>) {
    forall i, j :: 0 <= i < j < |ts| ==> ts[i].Cell() != ts[j].Cell()
  }

  /** With one transition per cell the map holds exactly the listed transitions. */
  lemma {:induction false} TableOfDistinct(ts: seq<Transition>)
    requires DistinctCells(ts)
    ensures forall j :: 0 <= j < |ts| ==> ts[j].Cell() in TableOf(ts) && TableOf(ts)[ts[j].Cell()] == ts[j].Choice()
    ensures forall cell :: cell in TableOf(ts) ==> exists j :: 0 <= j < |ts| && ts[j].Cell() == cell
  {
    if ts != [] {
      var init := ts[..|ts| - 1];
      TableOfDistinct(init);
      forall cell | cell in TableOf(ts)
        ensures exists j :: 0 <= j < |ts| && ts[j].Cell() == cell
      {
        if cell in TableOf(init) {
          var j :| 0 <= j < |init| && init[j].Cell() == cell;
          assert ts[j].Cell() == cell;
        }
      }
    }
  }

  // ----- The flat interpreter -----

  function Run(t: Table, state: Text, inputs: seq<Text>): Result<seq<Text>, Error>
    decreases |inputs|
  {
    if inputs == [] then Ok([])
    else if (state, inputs[0]) !in t then Err(InvalidEvidence)
    else
      var (next, output) := t[(state, inputs[0])];
      match Run(t, next, inputs[1..])
      case Err(e) => Err(e)
      case Ok(rest) => Ok([output] + rest)
  }

  method Execute(t: Table, initialState: Text, inputs: seq<Text>) returns (r: Result<seq<Text>, Error>)
    ensures r == Run(t, initialState, inputs)
  {
    var state, outputs := initialState, [];
    assert inputs[0..] == inputs && forall rest: seq<Text> :: outputs + rest == rest;
    for i := 0 to |inputs|
      invariant Run(t, initialState, inputs) ==
        match Run(t, state, inputs[i..]) { case Err(e) => Err(e) case Ok(rest) => Ok(outputs + rest) }
    {
      assert inputs[i..][1..] == inputs[i + 1..];
      if (state, inputs[i]) !in t {
        return Err(InvalidEvidence);
      }
      var (next, output) := t[(state, inputs[i])];
      assert forall rest: seq<Text> :: outputs + ([output] + rest) == (outputs + [output]) + rest;
      state, outputs := next, outputs + [output];
    }
    assert outputs + [] == outputs;
    return Ok(outputs);
  }

  /** `n` further repetitions of `input` from `state` all land on `stable`. */
  function Stays(t: Table, state: Text, input: Text, stable: (Text, Text), n: nat): Result<bool, Error>
    decreases n
  {
    if n == 0 then Ok(true)
    else if (state, input) !in t then Err(InvalidEvidence)
    else if t[(state, input)] != stable then Ok(false)
    else Stays(t, stable.0, input, stable, n - 1)
  }

  function IsIdempotent(t: Table, state: Text, input: Text, repetitions: nat): Result<bool, Error> {
    if (state, input) !in t then Err(InvalidEvidence)
    else
      var stable := t[(state, input)];
      Stays(t, stable.0, input, stable, if repetitions == 0 then 0 else repetitions - 1)
  }

  method Idempotent(t: Table, initialState: Text, input: Text, repetitions: nat)
    returns (r: Result<bool, Error>)
    ensures r == IsIdempotent(t, initialState, input, repetitions)
  {
    if (initialState, input) !in t {
      return Err(InvalidEvidence);
    }
    var stable := t[(initialState, input)];
    var state, k := stable.0, 1;
    while k < repetitions
      invariant 1 <= k && (repetitions >= 1 ==> k <= repetitions)
      invariant IsIdempotent(t, initialState, input, repetitions) ==
                Stays(t, state, input, stable, if repetitions <= k then 0 else repetitions - k)
    {
      if (state, input) !in t {
        return Err(InvalidEvidence);
      }
      if t[(state, input)] != stable {
        return Ok(false);
      }
      state := t[(state, input)].0;
      k := k + 1;
    }
    return Ok(true);
  }

  /** A transition that leads back to itself does so forever. */
  lemma {:induction false} StaysForever(t: Table, i: Text, stable: (Text, Text), m: nat)
    requires (stable.0, i) in t && t[(stable.0, i)] == stable
    ensures Stays(t, stable.0, i, stable, m) == Ok(true)
    ensures Run(t, stable.0, Repeat(i, m)) == Ok(Repeat(stable.1, m))
  {
    if m == 0 {
      assert Repeat(i, 0) == [] && Repeat(stable.1, 0) == [];
    } else {
      StaysForever(t, i, stable, m - 1);
      assert Repeat(i, m)[1..] == Repeat(i, m - 1);
      assert Repeat(stable.1, m) == [stable.1] + Repeat(stable.1, m - 1);
    }
  }

  // ----- What it means for a table to satisfy the evidence -----

  function Meets(t: Table, g: Grammar, content: FragmentContent): Result<bool, Error> {
    match content
    case Rule(state, input, nextState, output) =>
      Ok((state, input) in t && t[(state, input)] == (nextState, output))
    case Trace(Training, initialState, inputs, outputs) =>
      (match Run(t, initialState, inputs)
       case Err(e) => Err(e)
       case Ok(observed) => Ok(observed == outputs))
    case NegativeCase(initialState, inputs, forbidden) =>
      (match Run(t, initialState, inputs)
       case Err(e) => Err(e)
       case Ok(observed) => Ok(observed != forbidden))
    case MetamorphicProperty(initialState, input, repetitions) =>
      if repetitions < 2 then Ok(false) else IsIdempotent(t, initialState, input, repetitions)
    case StatePolicy(states, initialState) =>
      Ok(states == g.states && initialState == g.initialState)
    case Trace(HeldOut, _, _, _) => Ok(true)
  }

  function MeetsAll(t: Table, g: Grammar, contents: seq<FragmentContent>): Result<bool, Error> {
    if contents == [] then Ok(true)
    else
      match Meets(t, g, contents[0])
      case Ok(true) => MeetsAll(t, g, contents[1..])
      case verdict => verdict
  }

  method Satisfies(ts: seq<Transition>, g: Grammar, contents: seq<FragmentContent>)
    returns (r: Result<bool, Error>)
    ensures r == MeetsAll(TableOf(ts), g, contents)
  {
    var table: Table := map[];
    for i := 0 to |ts|
      invariant table == TableOf(ts[..i])
    {
      assert ts[..i + 1][..i] == ts[..i];
      table := table[ts[i].Cell() := ts[i].Choice()];
    }
    assert ts[..|ts|] == ts;
    for i := 0 to |contents|
      invariant MeetsAll(table, g, contents) == MeetsAll(table, g, contents[i..])
    {
      assert contents[i..][1..] == contents[i + 1..];
      match contents[i] {
        case Rule(state, input, nextState, output) =>
          if (state, input) !in table || table[(state, input)] != (nextState, output) {
            return Ok(false);
          }
        case Trace(Training, initialState, inputs, outputs) =>
          var observed := Execute(table, initialState, inputs);
          if observed.Err? {
            return Err(observed.error);
          }
          if observed.value != outputs {
            return Ok(false);
          }
        case NegativeCase(initialState, inputs, forbidden) =>
          var observed := Execute(table, initialState, inputs);
          if observed.Err? {
            return Err(observed.error);
          }
          if observed.value == forbidden {
            return Ok(false);
          }
        case MetamorphicProperty(initialState, input, repetitions) =>
          if repetitions < 2 {
            return Ok(false);
          }
          var stable := Idempotent(table, initialState, input, repetitions);
          if stable.Err? || !stable.value {
            return stable;
          }
        case StatePolicy(states, initialState) =>
          if states != g.states || initialState != g.initialState {
            return Ok(false);
          }
        case Trace(HeldOut, _, _, _) =>
      }
    }
    return Ok(true);
  }

  lemma {:induction false} MeetsAllEach(t: Table, g: Grammar, contents: seq<FragmentContent>)
    ensures MeetsAll(t, g, contents) == Ok(true) <==>
            forall k :: 0 <= k < |contents| ==> Meets(t, g, contents[k]) == Ok(true)
  {
    if contents != [] {
      MeetsAllEach(t, g, contents[1..]);
      assert contents == [contents[0]] + contents[1..];
      assert forall k :: 0 <= k < |contents| - 1 ==> contents[1..][k] == contents[k + 1];
      if MeetsAll(t, g, contents) == Ok(true) {
        forall k | 0 <= k < |contents|
          ensures Meets(t, g, contents[k]) == Ok(true)
        {
          if k > 0 {
            assert contents[k] == contents[1..][k - 1];
          }
        }
      }
    }
  }

  // ----- Unknown symbols are the only way an evaluation can fail -----

  lemma {:induction false} RunErrors(t: Table, state: Text, inputs: seq<Text>)
    ensures Run(t, state, inputs).Err? ==> Run(t, state, inputs).error == InvalidEvidence
    ensures Run(t, state, inputs).Ok? ==> |Run(t, state, inputs).value| == |inputs|
    decreases |inputs|
  {
    if inputs != [] && (state, inputs[0]) in t {
      RunErrors(t, t[(state, inputs[0])].0, inputs[1..]);
    }
  }

  lemma {:induction false} StaysErrors(t: Table, state: Text, input: Text, stable: (Text, Text), n: nat)
    ensures Stays(t, state, input, stable, n).Err? ==> Stays(t, state, input, stable, n).error == InvalidEvidence
    decreases n
  {
    if n > 0 && (state, input) in t {
      StaysErrors(t, stable.0, input, stable, n - 1);
    }
  }

  lemma {:induction false} MeetsAllErrors(t: Table, g: Grammar, contents: seq<FragmentContent>)
    ensures MeetsAll(t, g, contents).Err? ==> MeetsAll(t, g, contents).error == InvalidEvidence
    decreases |contents|
  {
    if contents != [] {
      match contents[0] {
        case Trace(_, initialState, inputs, _) => RunErrors(t, initialState, inputs);
        case NegativeCase(initialState, inputs, _) => RunErrors(t, initialState, inputs);
        case MetamorphicProperty(initialState, input, repetitions) =>
          if repetitions >= 2 && (initialState, input) in t {
            var stable := t[(initialState, input)];
            StaysErrors(t, stable.0, input, stable, repetitions - 1);
          }
        case _ =>
      }
      MeetsAllErrors(t, g, contents[1..]);
    }
  }
}
