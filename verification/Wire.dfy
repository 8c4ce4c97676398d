/** The private binary format between synthesizer and checker: the encoder of
    src/checker_wire.rs and the reader of src/checker.rs. Every refusal on either side is
    the same CheckerRejected error, so results are options here. */
module Wire {
  import opened Basics
  import opened Bytes
  import opened Model

  const MAGIC: seq<Byte> := [0x41, 0x4E, 0x43, 0x4B, 0x4D, 0x31, 0x00, 0x00]
  const MAX_TEXT: nat := 65_536
  const MAX_VECTOR: nat := 65_536
  const MAX_TRANSITIONS: nat := 256

  // ----- The format -----

  function TextBytes(s: Text): seq<Byte> {
    BigEndian(|s|, 4) + s
  }

  function TextsBytes(v: seq<Text>): seq<Byte> {
    if v == [] then [] else TextBytes(v[0]) + TextsBytes(v[1..])
  }

  function VectorBytes(v: seq<Text>): seq<Byte> {
    BigEndian(|v|, 4) + TextsBytes(v)
  }

  /** A transition is four texts in a row. */
  function Fields(ts: seq<Transition>): (v: seq<Text>)
    ensures |v| == 4 * |ts|
  {
    if ts == [] then []
    else [ts[0].state, ts[0].input, ts[0].nextState, ts[0].output] + Fields(ts[1..])
  }

  function TransitionsBytes(ts: seq<Transition>): seq<Byte> {
    BigEndian(|ts|, 4) + TextsBytes(Fields(ts))
  }

  function SymbolsBytes(g: Grammar): seq<Byte> {
    VectorBytes(g.inputs) + (VectorBytes(g.outputs) + VectorBytes(g.states))
  }

  function GrammarBytes(g: Grammar): seq<Byte> {
    TextBytes(g.version) + (SymbolsBytes(g) + (TextBytes(g.initialState) + BigEndian(g.maxCandidates, 8)))
  }

  function CandidateBytes(c: Candidate): seq<Byte> {
    MAGIC + (TextBytes(c.component) + (TextBytes(c.interfaceVersion)
      + (GrammarBytes(c.grammar) + TransitionsBytes(c.transitions))))
  }

  // ----- What the encoder can write, and what the reader will take -----

  /** Texts as the source's strings always are, with lengths the encoder can write. */
  predicate Writable(s: Text) {
    Utf8(s) && |s| < U32_LIMIT
  }

  predicate AllWritable(v: seq<Text>) {
    |v| < U32_LIMIT && forall k :: 0 <= k < |v| ==> Writable(v[k])
  }

  predicate WritableCandidate(c: Candidate) {
    && Writable(c.component) && Writable(c.interfaceVersion)
    && Writable(c.grammar.version) && Writable(c.grammar.initialState)
    && AllWritable(c.grammar.inputs) && AllWritable(c.grammar.outputs) && AllWritable(c.grammar.states)
    && c.grammar.maxCandidates < U64_LIMIT
    && |c.transitions| < U32_LIMIT
    && forall k :: 0 <= k < |c.transitions| ==> WritableTransition(c.transitions[k])
  }

  predicate WritableTransition(t: Transition) {
    Writable(t.state) && Writable(t.input) && Writable(t.nextState) && Writable(t.output)
  }

  predicate Short(v: seq<Text>) {
    forall k :: 0 <= k < |v| ==> |v[k]| <= MAX_TEXT
  }

  /** The bounds the reader adds: a caller can check them by counting. */
  predicate WithinBounds(c: Candidate) {
    && Short([c.component, c.interfaceVersion, c.grammar.version, c.grammar.initialState])
    && VectorWithin(c.grammar.inputs) && VectorWithin(c.grammar.outputs) && VectorWithin(c.grammar.states)
    && |c.transitions| <= MAX_TRANSITIONS
    && Short(Fields(c.transitions))
  }

  predicate VectorWithin(v: seq<Text>) {
    |v| <= MAX_VECTOR && Short(v)
  }

  // ----- The reader, as functions of the bytes not yet read -----

  type Parse<T> = Option<(T, seq<Byte>)>

  function TakeLength(b: seq<Byte>): (r: Parse<nat>)
    ensures r.Some? ==> |r.value.1| < |b|
  {
    if |b| < 4 then None else Some((FromBigEndian(b[..4]), b[4..]))
  }

  function TakeText(b: seq<Byte>): (r: Parse<Text>)
    ensures r.Some? ==> |r.value.1| < |b|
  {
    match TakeLength(b)
    case None => None
    case Some((n, rest)) =>
      if n > MAX_TEXT || n > |rest| || !Utf8(rest[..n]) then None else Some((rest[..n], rest[n..]))
  }

  function TakeTexts(n: nat, b: seq<Byte>): (r: Parse<seq<Text>>)
    ensures r.Some? ==> |r.value.0| == n && |r.value.1| <= |b|
  {
    if n == 0 then Some(([], b))
    else
      match TakeText(b)
      case None => None
      case Some((s, rest)) =>
        match TakeTexts(n - 1, rest)
        case None => None
        case Some((v, end)) => Some(([s] + v, end))
  }

  function TakeVector(b: seq<Byte>): Parse<seq<Text>> {
    match TakeLength(b)
    case None => None
    case Some((n, rest)) => if n > MAX_VECTOR then None else TakeTexts(n, rest)
  }

  /** The inverse of `Fields`. */
  function Group(v: seq<Text>): (ts: seq<Transition>)
    requires |v| % 4 == 0
    ensures |ts| == |v| / 4
  {
    if v == [] then [] else [Transition(v[0], v[1], v[2], v[3])] + Group(v[4..])
  }

  function TakeTransitions(b: seq<Byte>): Parse<seq<Transition>> {
    match TakeLength(b)
    case None => None
    case Some((n, rest)) =>
      if n > MAX_TRANSITIONS then None
      else
        match TakeTexts(4 * n, rest)
        case None => None
        case Some((v, end)) => Some((Group(v), end))
  }

  datatype Symbols = Symbols(inputs: seq<Text>, outputs: seq<Text>, states: seq<Text>)

  function TakeSymbols(b: seq<Byte>): Parse<Symbols> {
    match TakeVector(b)
    case None => None
    case Some((inputs, b1)) =>
      match TakeVector(b1)
      case None => None
      case Some((outputs, b2)) =>
        match TakeVector(b2)
        case None => None
        case Some((states, b3)) => Some((Symbols(inputs, outputs, states), b3))
  }

  function TakeGrammar(b: seq<Byte>): Parse<Grammar> {
    match TakeText(b)
    case None => None
    case Some((version, b1)) =>
      match TakeSymbols(b1)
      case None => None
      case Some((sym, b2)) =>
        match TakeText(b2)
        case None => None
        case Some((initialState, b3)) =>
          if |b3| < 8 then None
          else Some((Grammar(version, sym.inputs, sym.outputs, sym.states, initialState,
                             FromBigEndian(b3[..8])), b3[8..]))
  }

  function TakeCandidate(b: seq<Byte>): Parse<Candidate> {
    if |b| < 8 || b[..8] != MAGIC then None
    else
      match TakeText(b[8..])
      case None => None
      case Some((component, b1)) =>
        match TakeText(b1)
        case None => None
        case Some((interfaceVersion, b2)) =>
          match TakeGrammar(b2)
          case None => None
          case Some((g, b3)) =>
            match TakeTransitions(b3)
            case None => None
            case Some((ts, rest)) => Some((Candidate(component, interfaceVersion, g, ts), rest))
  }

  function Decode(w: seq<Byte>): Option<Candidate> {
    match TakeCandidate(w)
    case None => None
    case Some((c, rest)) => if rest == [] then Some(c) else None
  }

  // ----- Reading back what was written: each part, followed by anything -----

  lemma LengthReads(n: nat, rest: seq<Byte>)
    requires n < U32_LIMIT
    ensures TakeLength(BigEndian(n, 4) + rest) == Some((n, rest))
  {
    Widths();
    BigEndianRoundTrip(n, 4);
    assert (BigEndian(n, 4) + rest)[..4] == BigEndian(n, 4);
    assert (BigEndian(n, 4) + rest)[4..] == rest;
  }

  lemma TextReads(s: Text, rest: seq<Byte>)
    requires Writable(s)
    ensures TakeText(TextBytes(s) + rest) == if |s| <= MAX_TEXT then Some((s, rest)) else None
  {
    LengthReads(|s|, s + rest);
    assert TextBytes(s) + rest == BigEndian(|s|, 4) + (s + rest);
    assert (s + rest)[..|s|] == s && (s + rest)[|s|..] == rest;
  }

  lemma {:induction false} TextsRead(v: seq<Text>, rest: seq<Byte>)
    requires forall k :: 0 <= k < |v| ==> Writable(v[k])
    ensures TakeTexts(|v|, TextsBytes(v) + rest) == if Short(v) then Some((v, rest)) else None
  {
    hide Utf8, TakeText, TextBytes;
    if v == [] {
      assert TextsBytes(v) + rest == rest;
    } else {
      TextReads(v[0], TextsBytes(v[1..]) + rest);
      TextsRead(v[1..], rest);
      assert TextsBytes(v) + rest == TextBytes(v[0]) + (TextsBytes(v[1..]) + rest);
      assert Short(v) <==> |v[0]| <= MAX_TEXT && Short(v[1..]) by {
        assert v == [v[0]] + v[1..];
      }
      assert [v[0]] + v[1..] == v;
    }
  }

  lemma VectorReads(v: seq<Text>, rest: seq<Byte>)
    requires AllWritable(v)
    ensures TakeVector(VectorBytes(v) + rest) == if VectorWithin(v) then Some((v, rest)) else None
  {
    hide Utf8;
    LengthReads(|v|, TextsBytes(v) + rest);
    TextsRead(v, rest);
    assert VectorBytes(v) + rest == BigEndian(|v|, 4) + (TextsBytes(v) + rest);
  }

  lemma {:induction false} GroupFields(ts: seq<Transition>)
    ensures Group(Fields(ts)) == ts
    ensures (forall k :: 0 <= k < |ts| ==> WritableTransition(ts[k])) <==>
            (forall k :: 0 <= k < |Fields(ts)| ==> Writable(Fields(ts)[k]))
  {
    hide Writable;
    if ts != [] {
      var head := [ts[0].state, ts[0].input, ts[0].nextState, ts[0].output];
      var v, tail := Fields(ts), Fields(ts[1..]);
      GroupFields(ts[1..]);
      assert v == head + tail && v[4..] == tail;
      assert v[0] == head[0] && v[1] == head[1] && v[2] == head[2] && v[3] == head[3];
      assert forall k :: 4 <= k < |v| ==> v[k] == tail[k - 4];
      assert forall k :: 0 <= k < |tail| ==> tail[k] == v[k + 4];
      assert forall k :: 1 <= k < |ts| ==> ts[k] == ts[1..][k - 1];
      assert forall k :: 0 <= k < |ts| - 1 ==> ts[1..][k] == ts[k + 1];
    }
  }

  lemma {:induction false} FieldsGroup(v: seq<Text>)
    requires |v| % 4 == 0
    ensures Fields(Group(v)) == v
  {
    if v != [] {
      FieldsGroup(v[4..]);
      assert v == [v[0], v[1], v[2], v[3]] + v[4..];
    }
  }

  lemma TransitionsRead(ts: seq<Transition>, rest: seq<Byte>)
    requires |ts| < U32_LIMIT && forall k :: 0 <= k < |ts| ==> WritableTransition(ts[k])
    ensures TakeTransitions(TransitionsBytes(ts) + rest) ==
            if |ts| <= MAX_TRANSITIONS && Short(Fields(ts)) then Some((ts, rest)) else None
  {
    hide Utf8, Writable, TextsBytes, TakeTexts, Fields, Group, BigEndian, FromBigEndian, TakeLength, Short;
    GroupFields(ts);
    LengthReads(|ts|, TextsBytes(Fields(ts)) + rest);
    TextsRead(Fields(ts), rest);
    assert TransitionsBytes(ts) + rest == BigEndian(|ts|, 4) + (TextsBytes(Fields(ts)) + rest);
  }

  lemma SymbolsRead(g: Grammar, rest: seq<Byte>)
    requires AllWritable(g.inputs) && AllWritable(g.outputs) && AllWritable(g.states)
    ensures TakeSymbols(SymbolsBytes(g) + rest) ==
            if VectorWithin(g.inputs) && VectorWithin(g.outputs) && VectorWithin(g.states)
            then Some((Symbols(g.inputs, g.outputs, g.states), rest)) else None
  {
    hide Utf8;
    var b2 := VectorBytes(g.states) + rest;
    var b1 := VectorBytes(g.outputs) + b2;
    assert SymbolsBytes(g) + rest == VectorBytes(g.inputs) + b1;
    VectorReads(g.inputs, b1);
    VectorReads(g.outputs, b2);
    VectorReads(g.states, rest);
  }

  predicate GrammarWithin(g: Grammar) {
    && |g.version| <= MAX_TEXT && |g.initialState| <= MAX_TEXT
    && VectorWithin(g.inputs) && VectorWithin(g.outputs) && VectorWithin(g.states)
  }

  lemma GrammarReads(g: Grammar, rest: seq<Byte>)
    requires Writable(g.version) && Writable(g.initialState) && g.maxCandidates < U64_LIMIT
    requires AllWritable(g.inputs) && AllWritable(g.outputs) && AllWritable(g.states)
    ensures TakeGrammar(GrammarBytes(g) + rest) == if GrammarWithin(g) then Some((g, rest)) else None
  {
    hide Utf8;
    var b3 := BigEndian(g.maxCandidates, 8) + rest;
    var b2 := TextBytes(g.initialState) + b3;
    var b1 := SymbolsBytes(g) + b2;
    assert GrammarBytes(g) + rest == TextBytes(g.version) + b1;
    TextReads(g.version, b1);
    SymbolsRead(g, b2);
    TextReads(g.initialState, b3);
    Widths();
    BigEndianRoundTrip(g.maxCandidates, 8);
    assert b3[..8] == BigEndian(g.maxCandidates, 8) && b3[8..] == rest;
  }

  /** What the encoder wrote is read back exactly when it is within the reader's bounds,
      and refused otherwise, whatever follows it. */
  lemma CandidateReads(c: Candidate, rest: seq<Byte>)
    requires WritableCandidate(c)
    ensures TakeCandidate(CandidateBytes(c) + rest) == if WithinBounds(c) then Some((c, rest)) else None
  {
    hide Utf8, Writable, AllWritable, VectorWithin, BigEndian, TextBytes, GrammarBytes, TransitionsBytes, TakeText, TakeGrammar, TakeTransitions, Fields, WritableTransition;
    var b3 := TransitionsBytes(c.transitions) + rest;
    var b2 := GrammarBytes(c.grammar) + b3;
    var b1 := TextBytes(c.interfaceVersion) + b2;
    var b0 := TextBytes(c.component) + b1;
    var w := CandidateBytes(c) + rest;
    assert w == MAGIC + b0;
    assert w[..8] == MAGIC && w[8..] == b0;
    TextReads(c.component, b1);
    TextReads(c.interfaceVersion, b2);
    GrammarReads(c.grammar, b3);
    TransitionsRead(c.transitions, rest);
    var texts := [c.component, c.interfaceVersion, c.grammar.version, c.grammar.initialState];
    assert Short(texts) <==> |texts[0]| <= MAX_TEXT && |texts[1]| <= MAX_TEXT
                             && |texts[2]| <= MAX_TEXT && |texts[3]| <= MAX_TEXT;
  }

  // ----- Whatever the reader accepts was written by the encoder -----

  lemma LengthWrites(b: seq<Byte>)
    requires TakeLength(b).Some?
    ensures var (n, rest) := TakeLength(b).value; n < U32_LIMIT && b == BigEndian(n, 4) + rest
  {
    Widths();
    FromBigEndianExact(b[..4]);
    assert b == b[..4] + b[4..];
  }

  lemma TextWrites(b: seq<Byte>)
    requires TakeText(b).Some?
    ensures var (s, rest) := TakeText(b).value;
            Writable(s) && |s| <= MAX_TEXT && b == TextBytes(s) + rest
  {
    LengthWrites(b);
    var (n, tail) := TakeLength(b).value;
    assert tail == tail[..n] + tail[n..];
  }

  lemma {:induction false} TextsWrite(n: nat, b: seq<Byte>)
    requires TakeTexts(n, b).Some?
    ensures var (v, rest) := TakeTexts(n, b).value;
            && |v| == n && Short(v) && b == TextsBytes(v) + rest
            && forall k :: 0 <= k < |v| ==> Writable(v[k])
  {
    hide Utf8, Writable, TakeText, TextBytes;
    if n > 0 {
      TextWrites(b);
      var (s, tail) := TakeText(b).value;
      TextsWrite(n - 1, tail);
      var (v, rest) := TakeTexts(n, b).value;
      assert v[1..] == TakeTexts(n - 1, tail).value.0;
    }
  }

  lemma VectorWrites(b: seq<Byte>)
    requires TakeVector(b).Some?
    ensures var (v, rest) := TakeVector(b).value;
            AllWritable(v) && VectorWithin(v) && b == VectorBytes(v) + rest
  {
    hide Utf8;
    LengthWrites(b);
    var (n, tail) := TakeLength(b).value;
    TextsWrite(n, tail);
  }

  lemma TransitionsWrite(b: seq<Byte>)
    requires TakeTransitions(b).Some?
    ensures var (ts, rest) := TakeTransitions(b).value;
            && |ts| <= MAX_TRANSITIONS && Short(Fields(ts)) && b == TransitionsBytes(ts) + rest
            && forall k :: 0 <= k < |ts| ==> WritableTransition(ts[k])
  {
    hide Utf8, Writable, WritableTransition, Fields, Group, TextsBytes, TakeTexts, BigEndian, TakeLength, Short;
    LengthWrites(b);
    var (n, tail) := TakeLength(b).value;
    TextsWrite(4 * n, tail);
    var (v, rest) := TakeTexts(4 * n, tail).value;
    FieldsGroup(v);
    GroupFields(Group(v));
  }

  lemma SymbolsWrite(b: seq<Byte>, g: Grammar)
    requires TakeSymbols(b).Some?
    requires TakeSymbols(b).value.0 == Symbols(g.inputs, g.outputs, g.states)
    ensures b == SymbolsBytes(g) + TakeSymbols(b).value.1
    ensures AllWritable(g.inputs) && AllWritable(g.outputs) && AllWritable(g.states)
    ensures VectorWithin(g.inputs) && VectorWithin(g.outputs) && VectorWithin(g.states)
  {
    hide Utf8;
    VectorWrites(b);
    var (_, b1) := TakeVector(b).value;
    VectorWrites(b1);
    var (_, b2) := TakeVector(b1).value;
    VectorWrites(b2);
  }

  lemma GrammarWrites(b: seq<Byte>)
    requires TakeGrammar(b).Some?
    ensures var (g, rest) := TakeGrammar(b).value;
            && b == GrammarBytes(g) + rest && GrammarWithin(g)
            && Writable(g.version) && Writable(g.initialState) && g.maxCandidates < U64_LIMIT
            && AllWritable(g.inputs) && AllWritable(g.outputs) && AllWritable(g.states)
  {
    hide Utf8, Writable, AllWritable, VectorWithin, TakeText, TextBytes, TakeSymbols, SymbolsBytes, BigEndian, FromBigEndian;
    var (g, rest) := TakeGrammar(b).value;
    TextWrites(b);
    var (_, b1) := TakeText(b).value;
    SymbolsWrite(b1, g);
    var (_, b2) := TakeSymbols(b1).value;
    TextWrites(b2);
    var (_, b3) := TakeText(b2).value;
    Widths();
    FromBigEndianExact(b3[..8]);
    assert b3 == BigEndian(g.maxCandidates, 8) + rest;
  }

  lemma CandidateWrites(b: seq<Byte>)
    requires TakeCandidate(b).Some?
    ensures var (c, rest) := TakeCandidate(b).value;
            WritableCandidate(c) && WithinBounds(c) && b == CandidateBytes(c) + rest
  {
    hide Utf8, Writable, AllWritable, VectorWithin, WritableTransition, TakeText, TextBytes, TakeGrammar, GrammarBytes, TakeTransitions, TransitionsBytes, Fields;
    var (c, rest) := TakeCandidate(b).value;
    assert b == MAGIC + b[8..];
    TextWrites(b[8..]);
    var (_, b1) := TakeText(b[8..]).value;
    TextWrites(b1);
    var (_, b2) := TakeText(b1).value;
    GrammarWrites(b2);
    var (_, b3) := TakeGrammar(b2).value;
    TransitionsWrite(b3);
  }

  // ----- The format is a bijection between bounded candidates and accepted wires -----

  /** The checker gets back exactly the candidate that was encoded, and refuses every
      candidate outside its bounds. */
  lemma RoundTrip(c: Candidate)
    requires WritableCandidate(c)
    ensures Decode(CandidateBytes(c)) == if WithinBounds(c) then Some(c) else None
  {
    CandidateReads(c, []);
    assert CandidateBytes(c) + [] == CandidateBytes(c);
  }

  /** Every accepted wire is the encoding of what it decodes to. */
  lemma AcceptedIsCanonical(w: seq<Byte>)
    requires Decode(w).Some?
    ensures WritableCandidate(Decode(w).value) && WithinBounds(Decode(w).value)
    ensures CandidateBytes(Decode(w).value) == w
  {
    hide TakeCandidate, CandidateBytes, WritableCandidate, WithinBounds;
    CandidateWrites(w);
    assert CandidateBytes(Decode(w).value) + [] == CandidateBytes(Decode(w).value);
  }

  /** No accepted wire extends another, so neither truncation nor padding goes unnoticed. */
  lemma PrefixFree(w: seq<Byte>, extra: seq<Byte>)
    requires Decode(w).Some? && extra != []
    ensures Decode(w + extra).None?
  {
    hide TakeCandidate, CandidateBytes, WritableCandidate, WithinBounds;
    AcceptedIsCanonical(w);
    CandidateReads(Decode(w).value, extra);
  }

  // ----- A sample -----

  lemma OneByteText(b: Byte)
    ensures TextBytes([b]) == [0, 0, 0, 1, b]
    ensures VectorBytes([[b]]) == [0, 0, 0, 1, 0, 0, 0, 1, b]
  {
    One();
    assert [[b]][1..] == [];
    assert TextsBytes([[b]]) == TextBytes([b]) + [];
  }

  lemma One()
    ensures BigEndian(1, 4) == [0, 0, 0, 1] && BigEndian(9, 8) == [0, 0, 0, 0, 0, 0, 0, 9]
  {
    Zeros();
  }

  lemma Zeros()
    ensures BigEndian(0, 3) == [0, 0, 0] && BigEndian(0, 7) == [0, 0, 0, 0, 0, 0, 0]
  {
    assert BigEndian(0, 1) == [0] && BigEndian(0, 2) == [0, 0];
    assert BigEndian(0, 3) == [0, 0, 0] && BigEndian(0, 4) == [0, 0, 0, 0];
    assert BigEndian(0, 5) == [0, 0, 0, 0, 0] && BigEndian(0, 6) == [0, 0, 0, 0, 0, 0];
  }

  /** The whole wire of a candidate of one cell, byte by byte: magic, three identifying texts,
      inputs, outputs, states, initial state, budget, and the one transition. */
  lemma SampleWire()
    ensures forall k :: 0 <= k < 6 ==> MAGIC[k] == "ANCKM1"[k] as int
    ensures CandidateBytes(Candidate([5], [6], Grammar([7], [[1]], [[2]], [[4]], [4], 9), [Transition([4], [1], [3], [2])])) ==
      [0x41, 0x4E, 0x43, 0x4B, 0x4D, 0x31, 0, 0] + ([0, 0, 0, 1, 5] + ([0, 0, 0, 1, 6]
        + (([0, 0, 0, 1, 7]
              + (([0, 0, 0, 1, 0, 0, 0, 1, 1] + ([0, 0, 0, 1, 0, 0, 0, 1, 2] + [0, 0, 0, 1, 0, 0, 0, 1, 4]))
                 + ([0, 0, 0, 1, 4] + [0, 0, 0, 0, 0, 0, 0, 9])))
           + ([0, 0, 0, 1] + ([0, 0, 0, 1, 4] + ([0, 0, 0, 1, 1] + ([0, 0, 0, 1, 3] + [0, 0, 0, 1, 2])))))))
  {
    hide TextBytes, VectorBytes, BigEndian;
    forall b: Byte
      ensures TextBytes([b]) == [0, 0, 0, 1, b] && VectorBytes([[b]]) == [0, 0, 0, 1, 0, 0, 0, 1, b]
    {
      OneByteText(b);
    }
    One();
    OneTransition(Transition([4], [1], [3], [2]));
    assert "ANCKM1" == ['A', 'N', 'C', 'K', 'M', '1'];
  }

  lemma OneTransition(t: Transition)
    ensures TransitionsBytes([t]) ==
            BigEndian(1, 4) + (TextBytes(t.state) + (TextBytes(t.input) + (TextBytes(t.nextState) + TextBytes(t.output))))
  {
    hide TextBytes;
    var v := [t.state, t.input, t.nextState, t.output];
    assert [t][1..] == [] && Fields([t]) == v;
    assert v[1..] == [t.input, t.nextState, t.output] && v[1..][1..] == [t.nextState, t.output];
    assert v[1..][1..][1..] == [t.output];
    assert TextsBytes([t.output]) == TextBytes(t.output) + [] by {
      assert [t.output][1..] == [];
    }
    assert TextsBytes(v[1..][1..]) == TextBytes(t.nextState) + TextBytes(t.output);
    assert TextsBytes(v[1..]) == TextBytes(t.input) + (TextBytes(t.nextState) + TextBytes(t.output));
  }
}
