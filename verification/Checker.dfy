/** The independent checker (src/checker.rs): its nested-map interpreter, the certification
    of a decoded candidate, and what a certificate pins down. */
module Checker {
  import opened Basics
  import opened Model
  import opened Evaluation

  type Nested = map<Text, map<Text, (Text, Text)>>

  function Lookup(n: Nested, s: Text, i: Text): Option<(Text, Text)> {
    if s in n && i in n[s] then Some(n[s][i]) else None
  }

  /** The nested table: one inner map per declared state, the last writer winning. */
  function NestedOf(g: Grammar, ts: seq<Transition>): Nested {
    if ts == [] then map s | s in g.states :: map[]
    else
      var n, t := NestedOf(g, ts[..|ts| - 1]), ts[|ts| - 1];
      if t.state in n then n[t.state := n[t.state][t.input := t.Choice()]] else n
  }

  // ----- The nested interpreter -----

  function NestedRun(n: Nested, state: Text, inputs: seq<Text>): Result<seq<Text>, Error>
    decreases |inputs|
  {
    if inputs == [] then Ok([])
    else
      match Lookup(n, state, inputs[0])
      case None => Err(CheckerRejected)
      case Some((next, output)) =>
        match NestedRun(n, next, inputs[1..])
        case Err(e) => Err(e)
        case Ok(rest) => Ok([output] + rest)
  }

  method RunTrace(n: Nested, initialState: Text, inputs: seq<Text>) returns (r: Result<seq<Text>, Error>)
    ensures r == NestedRun(n, initialState, inputs)
  {
    var state, outputs := initialState, [];
    assert inputs[0..] == inputs && forall rest: seq<Text> :: outputs + rest == rest;
    for k := 0 to |inputs|
      invariant NestedRun(n, initialState, inputs) ==
        match NestedRun(n, state, inputs[k..]) { case Err(e) => Err(e) case Ok(rest) => Ok(outputs + rest) }
    {
      assert inputs[k..][1..] == inputs[k + 1..];
      var cell := Lookup(n, state, inputs[k]);
      if cell.None? {
        return Err(CheckerRejected);
      }
      var (next, output) := cell.value;
      assert forall rest: seq<Text> :: outputs + ([output] + rest) == (outputs + [output]) + rest;
      state, outputs := next, outputs + [output];
    }
    assert outputs + [] == outputs;
    return Ok(outputs);
  }

  function NestedStays(n: Nested, state: Text, input: Text, stable: (Text, Text), k: nat): Result<bool, Error>
    decreases k
  {
    if k == 0 then Ok(true)
    else
      match Lookup(n, state, input)
      case None => Err(CheckerRejected)
      case Some(cell) => if cell != stable then Ok(false) else NestedStays(n, cell.0, input, stable, k - 1)
  }

  function NestedIdempotent(n: Nested, state: Text, input: Text, repetitions: nat): Result<bool, Error> {
    match Lookup(n, state, input)
    case None => Err(CheckerRejected)
    case Some(stable) => NestedStays(n, stable.0, input, stable, if repetitions == 0 then 0 else repetitions - 1)
  }

  method CheckIdempotent(n: Nested, initialState: Text, input: Text, repetitions: nat)
    returns (r: Result<bool, Error>)
    ensures r == NestedIdempotent(n, initialState, input, repetitions)
  {
    var stable := Lookup(n, initialState, input);
    if stable.None? {
      return Err(CheckerRejected);
    }
    var state, k := stable.value.0, 1;
    while k < repetitions
      invariant 1 <= k && (repetitions >= 1 ==> k <= repetitions)
      invariant NestedIdempotent(n, initialState, input, repetitions) ==
                NestedStays(n, state, input, stable.value, if repetitions <= k then 0 else repetitions - k)
    {
      var cell := Lookup(n, state, input);
      if cell.None? {
        return Err(CheckerRejected);
      }
      if cell != stable {
        return Ok(false);
      }
      state := cell.value.0;
      k := k + 1;
    }
    return Ok(true);
  }

  // ----- The two interpreters agree -----

  ghost predicate StatesKnown(g: Grammar, ts: seq<Transition>) {
    forall k :: 0 <= k < |ts| ==> ts[k].state in g.states
  }

  lemma {:induction false} LookupsAgree(g: Grammar, ts: seq<Transition>, s: Text, i: Text)
    requires StatesKnown(g, ts)
    ensures NestedOf(g, ts).Keys == Elements(g.states)
    ensures Lookup(NestedOf(g, ts), s, i) ==
            if (s, i) in TableOf(ts) then Some(TableOf(ts)[(s, i)]) else None
  {
    if ts != [] {
      LookupsAgree(g, ts[..|ts| - 1], s, i);
      assert ts[|ts| - 1].state in g.states;
    }
  }

  /** The same verdict, up to which error names an unknown symbol. */
  function AsChecker<T>(r: Result<T, Error>): Result<T, Error> {
    match r
    case Ok(v) => Ok(v)
    case Err(_) => Err(CheckerRejected)
  }

  lemma {:induction false} TracesAgree(g: Grammar, ts: seq<Transition>, s: Text, inputs: seq<Text>)
    requires StatesKnown(g, ts)
    ensures NestedRun(NestedOf(g, ts), s, inputs) == AsChecker(Run(TableOf(ts), s, inputs))
    decreases |inputs|
  {
    if inputs != [] {
      LookupsAgree(g, ts, s, inputs[0]);
      if (s, inputs[0]) in TableOf(ts) {
        TracesAgree(g, ts, TableOf(ts)[(s, inputs[0])].0, inputs[1..]);
      }
    }
  }

  lemma {:induction false} StaysAgree(g: Grammar, ts: seq<Transition>, s: Text, i: Text, stable: (Text, Text), k: nat)
    requires StatesKnown(g, ts)
    ensures NestedStays(NestedOf(g, ts), s, i, stable, k) == AsChecker(Stays(TableOf(ts), s, i, stable, k))
    decreases k
  {
    if k > 0 {
      LookupsAgree(g, ts, s, i);
      StaysAgree(g, ts, stable.0, i, stable, k - 1);
    }
  }

  lemma RepetitionsAgree(g: Grammar, ts: seq<Transition>, s: Text, i: Text, repetitions: nat)
    requires StatesKnown(g, ts)
    ensures NestedIdempotent(NestedOf(g, ts), s, i, repetitions)
            == AsChecker(IsIdempotent(TableOf(ts), s, i, repetitions))
  {
    LookupsAgree(g, ts, s, i);
    if (s, i) in TableOf(ts) {
      var stable := TableOf(ts)[(s, i)];
      StaysAgree(g, ts, stable.0, i, stable, if repetitions == 0 then 0 else repetitions - 1);
    }
  }

  /** One passing repetition check, of any count of at least two, is as good as all of them:
      the output and the reached state are constant for every number of repetitions. */
  lemma RepetitionIsConstant(t: Table, s: Text, i: Text, repetitions: nat, m: nat)
    requires repetitions >= 2 && IsIdempotent(t, s, i, repetitions) == Ok(true)
    ensures IsIdempotent(t, s, i, m) == Ok(true)
    ensures Run(t, s, Repeat(i, m)) == Ok(Repeat(t[(s, i)].1, m))
  {
    var stable := t[(s, i)];
    assert Stays(t, stable.0, i, stable, repetitions - 1) == Ok(true);
    assert (stable.0, i) in t && t[(stable.0, i)] == stable;
    StaysForever(t, i, stable, if m == 0 then 0 else m - 1);
    if m == 0 {
      assert Repeat(i, 0) == [] && Repeat(stable.1, 0) == [];
    } else {
      assert Repeat(i, m)[1..] == Repeat(i, m - 1);
      assert Repeat(stable.1, m) == [stable.1] + Repeat(stable.1, m - 1);
    }
  }
}
