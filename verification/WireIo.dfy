/** The wire format as the program runs it: a growing output vector on one side
    (src/checker_wire.rs), a reader with a moving offset on the other (src/checker.rs). */
module WireIo {
  import opened Basics
  import opened Bytes
  import opened Model
  import opened Wire

  predicate Fits(s: Text) {
    |s| < U32_LIMIT
  }

  predicate AllFit(v: seq<Text>) {
    forall k :: 0 <= k < |v| ==> Fits(v[k])
  }

  predicate VectorFits(v: seq<Text>) {
    |v| < U32_LIMIT && AllFit(v)
  }

  predicate TransitionFits(t: Transition) {
    Fits(t.state) && Fits(t.input) && Fits(t.nextState) && Fits(t.output)
  }

  /** Every length can be written in four bytes. */
  predicate LengthsFit(c: Candidate) {
    && Fits(c.component) && Fits(c.interfaceVersion) && Fits(c.grammar.version)
    && VectorFits(c.grammar.inputs) && VectorFits(c.grammar.outputs) && VectorFits(c.grammar.states)
    && Fits(c.grammar.initialState)
    && |c.transitions| < U32_LIMIT
    && forall k :: 0 <= k < |c.transitions| ==> TransitionFits(c.transitions[k])
  }

  lemma {:induction false} TextsSnoc(v: seq<Text>, s: Text)
    ensures TextsBytes(v + [s]) == TextsBytes(v) + TextBytes(s)
  {
    hide TextBytes;
    if v == [] {
      assert v + [s] == [s] && TextsBytes([s][1..]) == [];
    } else {
      TextsSnoc(v[1..], s);
      assert (v + [s])[1..] == v[1..] + [s];
    }
  }

  lemma {:induction false} FieldsSnoc(ts: seq<Transition>, t: Transition)
    ensures Fields(ts + [t]) == Fields(ts) + [t.state] + [t.input] + [t.nextState] + [t.output]
  {
    if ts == [] {
      assert ts + [t] == [t] && Fields([t][1..]) == [];
    } else {
      FieldsSnoc(ts[1..], t);
      assert (ts + [t])[1..] == ts[1..] + [t];
    }
  }

  class Writer {
    var output: seq<Byte>

    constructor ()
      ensures output == MAGIC
    {
      output := MAGIC;
    }

    method PushLen(n: nat) returns (ok: bool)
      modifies this
      ensures ok == (n < U32_LIMIT)
      ensures ok ==> output == old(output) + BigEndian(n, 4)
    {
      if n >= U32_LIMIT {
        return false;
      }
      output := output + BigEndian(n, 4);
      return true;
    }

    method PushText(s: Text) returns (ok: bool)
      modifies this
      ensures ok == Fits(s)
      ensures ok ==> output == old(output) + TextBytes(s)
    {
      ok := PushLen(|s|);
      if ok {
        output := output + s;
      }
    }

    method PushTexts(v: seq<Text>) returns (ok: bool)
      modifies this
      ensures ok == VectorFits(v)
      ensures ok ==> output == old(output) + VectorBytes(v)
    {
      ghost var before := output;
      ok := PushLen(|v|);
      if !ok {
        return;
      }
      ghost var start := output;
      assert TextsBytes(v[..0]) == [];
      assert VectorBytes(v) == BigEndian(|v|, 4) + TextsBytes(v);
      hide TextsBytes, TextBytes, VectorBytes, BigEndian;
      for k := 0 to |v|
        invariant output == start + TextsBytes(v[..k])
        invariant forall j :: 0 <= j < k ==> Fits(v[j])
      {
        ok := PushText(v[k]);
        if !ok {
          return;
        }
        NextText(start, v, k);
      }
      assert v[..|v|] == v;
      Reassociate(before, BigEndian(|v|, 4), TextsBytes(v));
      return true;
    }

    method PushTransition(t: Transition) returns (ok: bool)
      modifies this
      ensures ok == TransitionFits(t)
      ensures ok ==> output == old(output) + TransitionBytes(t)
    {
      hide TextBytes;
      Push4(output, TextBytes(t.state), TextBytes(t.input), TextBytes(t.nextState), TextBytes(t.output));
      ok := PushText(t.state);
      if !ok { return; }
      ok := PushText(t.input);
      if !ok { return; }
      ok := PushText(t.nextState);
      if !ok { return; }
      ok := PushText(t.output);
    }

    method PushTransitions(ts: seq<Transition>) returns (ok: bool)
      modifies this
      ensures ok == (|ts| < U32_LIMIT && forall k :: 0 <= k < |ts| ==> TransitionFits(ts[k]))
      ensures ok ==> output == old(output) + TransitionsBytes(ts)
    {
      ghost var before := output;
      ok := PushLen(|ts|);
      if !ok {
        return;
      }
      ghost var start := output;
      assert TextsBytes(Fields(ts[..0])) == [];
      assert TransitionsBytes(ts) == BigEndian(|ts|, 4) + TextsBytes(Fields(ts));
      hide TransitionsBytes, TextsBytes, TransitionBytes, Fields, TransitionFits, BigEndian;
      for k := 0 to |ts|
        invariant output == start + TextsBytes(Fields(ts[..k]))
        invariant forall j :: 0 <= j < k ==> TransitionFits(ts[j])
      {
        ok := PushTransition(ts[k]);
        if !ok {
          return;
        }
        NextTransition(start, ts, k);
      }
      assert ts[..|ts|] == ts;
      Reassociate(before, BigEndian(|ts|, 4), TextsBytes(Fields(ts)));
      return true;
    }
  }

  lemma Reassociate(a: seq<Byte>, b: seq<Byte>, c: seq<Byte>)
    ensures (a + b) + c == a + (b + c)
  {
  }

  lemma NextText(start: seq<Byte>, v: seq<Text>, k: nat)
    requires k < |v|
    ensures start + TextsBytes(v[..k]) + TextBytes(v[k]) == start + TextsBytes(v[..k + 1])
  {
    hide TextsBytes, TextBytes;
    TextsSnoc(v[..k], v[k]);
    Reassociate(start, TextsBytes(v[..k]), TextBytes(v[k]));
    assert v[..k + 1] == v[..k] + [v[k]];
  }

  lemma NextTransition(start: seq<Byte>, ts: seq<Transition>, k: nat)
    requires k < |ts|
    ensures start + TextsBytes(Fields(ts[..k])) + TransitionBytes(ts[k]) == start + TextsBytes(Fields(ts[..k + 1]))
  {
    hide TextsBytes, TransitionBytes, Fields;
    TransitionSnoc(ts[..k], ts[k]);
    Reassociate(start, TextsBytes(Fields(ts[..k])), TransitionBytes(ts[k]));
    assert ts[..k + 1] == ts[..k] + [ts[k]];
  }

  function TransitionBytes(t: Transition): seq<Byte> {
    TextBytes(t.state) + TextBytes(t.input) + TextBytes(t.nextState) + TextBytes(t.output)
  }

  lemma TransitionSnoc(ts: seq<Transition>, t: Transition)
    ensures TextsBytes(Fields(ts + [t])) == TextsBytes(Fields(ts)) + TransitionBytes(t)
  {
    hide TextsBytes, TextBytes, Fields;
    FieldsSnoc(ts, t);
    var v := Fields(ts);
    TextsSnoc(v, t.state);
    TextsSnoc(v + [t.state], t.input);
    TextsSnoc(v + [t.state] + [t.input], t.nextState);
    TextsSnoc(v + [t.state] + [t.input] + [t.nextState], t.output);
    Push4(TextsBytes(v), TextBytes(t.state), TextBytes(t.input), TextBytes(t.nextState), TextBytes(t.output));
  }

  lemma Push4(start: seq<Byte>, a: seq<Byte>, b: seq<Byte>, c: seq<Byte>, d: seq<Byte>)
    ensures start + a + b + c + d == start + (a + b + c + d)
  {
  }

  method EncodeCandidate(c: Candidate) returns (r: Option<seq<Byte>>)
    ensures r == if LengthsFit(c) then Some(CandidateBytes(c)) else None
  {
    hide TextBytes, VectorBytes, TransitionsBytes, TransitionFits, VectorFits, Fits;
    var w := new Writer();
    var ok := w.PushText(c.component);
    if !ok { return None; }
    ok := w.PushText(c.interfaceVersion);
    if !ok { return None; }
    ghost var head := w.output;
    ok := w.PushText(c.grammar.version);
    if !ok { return None; }
    ok := w.PushTexts(c.grammar.inputs);
    if !ok { return None; }
    ok := w.PushTexts(c.grammar.outputs);
    if !ok { return None; }
    ok := w.PushTexts(c.grammar.states);
    if !ok { return None; }
    ok := w.PushText(c.grammar.initialState);
    if !ok { return None; }
    w.output := w.output + BigEndian(c.grammar.maxCandidates, 8);
    assert w.output == head + GrammarBytes(c.grammar) by {
      GrammarRegroup(head, c.grammar);
    }
    ok := w.PushTransitions(c.transitions);
    if !ok { return None; }
    assert w.output == CandidateBytes(c) by {
      Regroup(MAGIC, TextBytes(c.component), TextBytes(c.interfaceVersion),
              GrammarBytes(c.grammar), TransitionsBytes(c.transitions));
    }
    return Some(w.output);
  }

  lemma Regroup(a: seq<Byte>, b: seq<Byte>, c: seq<Byte>, d: seq<Byte>, e: seq<Byte>)
    ensures a + b + c + d + e == a + (b + (c + (d + e)))
  {
  }

  lemma GrammarRegroup(head: seq<Byte>, g: Grammar)
    ensures head + TextBytes(g.version) + VectorBytes(g.inputs) + VectorBytes(g.outputs) + VectorBytes(g.states)
            + TextBytes(g.initialState) + BigEndian(g.maxCandidates, 8) == head + GrammarBytes(g)
  {
    hide TextBytes, VectorBytes, BigEndian;
    var v, i, o, s := TextBytes(g.version), VectorBytes(g.inputs), VectorBytes(g.outputs), VectorBytes(g.states);
    var t, m := TextBytes(g.initialState), BigEndian(g.maxCandidates, 8);
    Regroup(head + v, i, o, s, t + m);
    assert head + v + (i + (o + (s + (t + m)))) == head + (v + ((i + (o + s)) + (t + m)));
    assert head + v + i + o + s + t + m == head + v + i + o + s + (t + m);
  }

  class Reader {
    const input: seq<Byte>
    var offset: nat

    constructor (input: seq<Byte>)
      ensures this.input == input && offset == 0
      ensures Valid() && Rest() == input
    {
      this.input := input;
      offset := 0;
    }

    ghost predicate Valid()
      reads this
    {
      offset <= |input|
    }

    function Rest(): seq<Byte>
      reads this
      requires Valid()
    {
      input[offset..]
    }

    method AtEnd() returns (ended: bool)
      requires Valid()
      ensures ended <==> Rest() == []
    {
      ended := offset == |input|;
    }

    method Take(n: nat) returns (r: Option<seq<Byte>>)
      requires Valid()
      modifies this`offset
      ensures Valid()
      ensures r.Some? <==> n <= |old(Rest())|
      ensures r.Some? ==> r.value == old(Rest())[..n] && Rest() == old(Rest())[n..]
      ensures r.None? ==> offset == old(offset)
    {
      if offset + n > |input| {
        return None;
      }
      r := Some(input[offset..offset + n]);
      offset := offset + n;
    }

    method Length() returns (r: Option<nat>)
      requires Valid()
      modifies this`offset
      ensures Valid()
      ensures r.Some? <==> TakeLength(old(Rest())).Some?
      ensures r.Some? ==> TakeLength(old(Rest())) == Some((r.value, Rest()))
    {
      var bytes := Take(4);
      if bytes.None? {
        return None;
      }
      return Some(FromBigEndian(bytes.value));
    }

    method ReadText() returns (r: Option<Text>)
      requires Valid()
      modifies this`offset
      ensures Valid()
      ensures r.Some? <==> TakeText(old(Rest())).Some?
      ensures r.Some? ==> TakeText(old(Rest())) == Some((r.value, Rest()))
    {
      hide Utf8, FromBigEndian;
      var n := Length();
      if n.None? || n.value > MAX_TEXT {
        return None;
      }
      var bytes := Take(n.value);
      if bytes.None? || !Utf8(bytes.value) {
        return None;
      }
      return bytes;
    }

    /** The shared loop of the two vector readers. */
    method ReadCounted(n: nat) returns (r: Option<seq<Text>>)
      requires Valid()
      modifies this`offset
      ensures Valid()
      ensures r.Some? <==> TakeTexts(n, old(Rest())).Some?
      ensures r.Some? ==> TakeTexts(n, old(Rest())) == Some((r.value, Rest()))
    {
      hide TakeText;
      var v := [];
      assert forall w: seq<Text> :: v + w == w;
      for k := 0 to n
        invariant Valid()
        invariant TakeTexts(n, old(Rest())) == Prepend(v, TakeTexts(n - k, Rest()))
      {
        var s := ReadText();
        if s.None? {
          return None;
        }
        ghost var after := TakeTexts(n - k - 1, Rest());
        assert after.Some? ==> v + ([s.value] + after.value.0) == v + [s.value] + after.value.0;
        v := v + [s.value];
      }
      assert v + [] == v;
      return Some(v);
    }

    method Texts() returns (r: Option<seq<Text>>)
      requires Valid()
      modifies this`offset
      ensures Valid()
      ensures r.Some? <==> TakeVector(old(Rest())).Some?
      ensures r.Some? ==> TakeVector(old(Rest())) == Some((r.value, Rest()))
    {
      var n := Length();
      if n.None? || n.value > MAX_VECTOR {
        return None;
      }
      r := ReadCounted(n.value);
    }

    method ReadGrammar() returns (r: Option<Grammar>)
      requires Valid()
      modifies this`offset
      ensures Valid()
      ensures r.Some? <==> TakeGrammar(old(Rest())).Some?
      ensures r.Some? ==> TakeGrammar(old(Rest())) == Some((r.value, Rest()))
    {
      hide TakeText, TakeVector, FromBigEndian;
      var version := ReadText();
      if version.None? { return None; }
      var inputs := Texts();
      if inputs.None? { return None; }
      var outputs := Texts();
      if outputs.None? { return None; }
      var states := Texts();
      if states.None? { return None; }
      var initialState := ReadText();
      if initialState.None? { return None; }
      var budget := Take(8);
      if budget.None? { return None; }
      return Some(Grammar(version.value, inputs.value, outputs.value, states.value, initialState.value,
                          FromBigEndian(budget.value)));
    }

    method ReadTransitions() returns (r: Option<seq<Transition>>)
      requires Valid()
      modifies this`offset
      ensures Valid()
      ensures r.Some? <==> TakeTransitions(old(Rest())).Some?
      ensures r.Some? ==> TakeTransitions(old(Rest())) == Some((r.value, Rest()))
    {
      hide TakeLength, TakeTexts, Group;
      var count := Length();
      if count.None? || count.value > MAX_TRANSITIONS { return None; }
      var fields := ReadCounted(4 * count.value);
      if fields.None? { return None; }
      return Some(Group(fields.value));
    }
  }

  function Prepend(v: seq<Text>, r: Parse<seq<Text>>): Parse<seq<Text>> {
    match r
    case None => None
    case Some((w, rest)) => Some((v + w, rest))
  }

  method DecodeCandidate(input: seq<Byte>) returns (r: Option<Candidate>)
    ensures r == Decode(input)
  {
    hide TakeText, TakeGrammar, TakeTransitions, Reader.Rest, Reader.Valid;
    var reader := new Reader(input);
    var magic := reader.Take(8);
    if magic.None? || magic.value != MAGIC { return None; }
    var component := reader.ReadText();
    if component.None? { return None; }
    var interfaceVersion := reader.ReadText();
    if interfaceVersion.None? { return None; }
    var g := reader.ReadGrammar();
    if g.None? { return None; }
    var transitions := reader.ReadTransitions();
    if transitions.None? { return None; }
    var ended := reader.AtEnd();
    if !ended { return None; }
    return Some(Candidate(component.value, interfaceVersion.value, g.value, transitions.value));
  }

  /** Text obligations the type system of the source already discharges. */
  ghost predicate AllUtf8(c: Candidate) {
    && Utf8(c.component) && Utf8(c.interfaceVersion) && Utf8(c.grammar.version) && Utf8(c.grammar.initialState)
    && (forall s :: s in c.grammar.inputs ==> Utf8(s))
    && (forall s :: s in c.grammar.outputs ==> Utf8(s))
    && (forall s :: s in c.grammar.states ==> Utf8(s))
    && (forall t :: t in c.transitions ==> Utf8(t.state) && Utf8(t.input) && Utf8(t.nextState) && Utf8(t.output))
    && c.grammar.maxCandidates < U64_LIMIT
  }

  /** A validated grammar keeps its candidate inside the wire bounds but for three
      identifying texts, whose length nothing else limits. */
  lemma ValidCandidateBounds(c: Candidate)
    requires AllUtf8(c) && c.grammar.Valid() && |c.transitions| <= 256
    requires forall t :: t in c.transitions ==> t.Valid(c.grammar)
    ensures LengthsFit(c) && WithinBounds(c) <==>
            |c.component| <= MAX_TEXT && |c.interfaceVersion| <= MAX_TEXT && |c.grammar.version| <= MAX_TEXT
    ensures LengthsFit(c) ==> WritableCandidate(c)
  {
    hide AllUtf8, Utf8, WritableCandidate;
    var g := c.grammar;
    var texts := [c.component, c.interfaceVersion, g.version, g.initialState];
    assert Short(texts) <==> |texts[0]| <= MAX_TEXT && |texts[1]| <= MAX_TEXT
                             && |texts[2]| <= MAX_TEXT && |texts[3]| <= MAX_TEXT;
    forall k | 0 <= k < |c.transitions|
      ensures ShortTransition(c.transitions[k]) && TransitionFits(c.transitions[k])
    {
      assert c.transitions[k] in c.transitions;
    }
    ShortFields(c.transitions);
    hide Grammar.Valid, Transition.Valid, Fields;
    if LengthsFit(c) {
      FitsAndUtf8(c);
    }
  }

  lemma FitsAndUtf8(c: Candidate)
    requires AllUtf8(c) && LengthsFit(c)
    ensures WritableCandidate(c)
  {
    hide Utf8;
    forall k | 0 <= k < |c.transitions|
      ensures WritableTransition(c.transitions[k])
    {
      assert c.transitions[k] in c.transitions && TransitionFits(c.transitions[k]);
    }
  }

  predicate ShortTransition(t: Transition) {
    |t.state| <= MAX_TEXT && |t.input| <= MAX_TEXT && |t.nextState| <= MAX_TEXT && |t.output| <= MAX_TEXT
  }

  lemma {:induction false} ShortFields(ts: seq<Transition>)
    requires forall k :: 0 <= k < |ts| ==> ShortTransition(ts[k])
    ensures Short(Fields(ts))
  {
    if ts != [] {
      assert forall k :: 0 <= k < |ts[1..]| ==> ts[1..][k] == ts[k + 1];
      ShortFields(ts[1..]);
      assert ShortTransition(ts[0]);
    }
  }
}
