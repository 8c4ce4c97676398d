/** The compiler from a transition table to a WebAssembly `step` function, and the
    pairwise check of the compiled module (src/sandbox.rs). */
module Sandbox {
  import opened Basics
  import opened Model
  import opened Evaluation
  import opened WebAssembly

  /** `index_of`: the first position of a symbol, as an i32. */
  function IndexOf(values: seq<Text>, value: Text): (r: Result<nat, Error>)
    ensures r.Ok? ==> r.value < |values| && values[r.value] == value && r.value < 0x8000_0000
    ensures r.Ok? ==> forall j :: 0 <= j < r.value ==> values[j] != value
    ensures r.Err? ==> r.error == InvalidEvidence && (value in values ==> |values| > 0x8000_0000)
  {
    if value !in values then Err(InvalidEvidence)
    else
      var k := Position(values, value);
      if k < 0x8000_0000 then Ok(k) else Err(InvalidEvidence)
  }

  function Position(values: seq<Text>, value: Text): (k: nat)
    requires value in values
    ensures k < |values| && values[k] == value
    ensures forall j :: 0 <= j < k ==> values[j] != value
  {
    if values[0] == value then 0 else 1 + Position(values[1..], value)
  }

  /** The i64 a cell is compiled to: next state in the high word, output in the low one. */
  function Pack(next: nat, output: nat): nat {
    BitOr(next * Pow(2, 32), output)
  }

  /** Packing loses nothing and never looks like -1. */
  lemma PackRoundTrip(next: nat, output: nat)
    requires next < 0x8000_0000 && output < U32_LIMIT
    ensures Pack(next, output) / U32_LIMIT == next && Pack(next, output) % U32_LIMIT == output
    ensures Pack(next, output) < MINUS_ONE
  {
    PowTwo32();
    OrIntoRoom(next, output, 32);
  }

  lemma PowTwo32()
    ensures Pow(2, 32) == U32_LIMIT
  {
    PowSplit(16, 16);
    assert Pow(2, 4) == 16;
    PowSplit(4, 4);
    PowSplit(8, 8);
  }

  lemma {:induction false} PowSplit(a: nat, b: nat)
    ensures Pow(2, a + b) == Pow(2, a) * Pow(2, b)
  {
    if a > 0 {
      PowSplit(a - 1, b);
      assert 2 * (Pow(2, a - 1) * Pow(2, b)) == (2 * Pow(2, a - 1)) * Pow(2, b);
    }
  }

  /** A transition with every symbol replaced by its index. */
  datatype Row = Row(state: nat, input: nat, next: nat, output: nat)

  function Lower(g: Grammar, t: Transition): Result<Row, Error> {
    match (IndexOf(g.states, t.state), IndexOf(g.inputs, t.input),
           IndexOf(g.states, t.nextState), IndexOf(g.outputs, t.output))
    case (Ok(s), Ok(i), Ok(n), Ok(o)) => Ok(Row(s, i, n, o))
    case _ => Err(InvalidEvidence)
  }

  function LowerAll(g: Grammar, ts: seq<Transition>): (r: Result<seq<Row>, Error>)
    ensures r.Ok? ==> |r.value| == |ts|
  {
    if ts == [] then Ok([])
    else
      var last := |ts| - 1;
      match LowerAll(g, ts[..last])
      case Err(e) => Err(e)
      case Ok(rows) =>
        match Lower(g, ts[last])
        case Err(e) => Err(e)
        case Ok(row) => Ok(rows + [row])
  }

  lemma {:induction false} LowerAllRows(g: Grammar, ts: seq<Transition>, k: nat)
    requires LowerAll(g, ts).Ok? && k < |ts|
    ensures Lower(g, ts[k]) == Ok(LowerAll(g, ts).value[k])
  {
    hide Lower;
    if k < |ts| - 1 {
      LowerAllRows(g, ts[..|ts| - 1], k);
    }
  }

  lemma {:induction false} RefusedAt(g: Grammar, ts: seq<Transition>) returns (k: nat)
    requires LowerAll(g, ts).Err?
    ensures k < |ts| && Lower(g, ts[k]).Err? && LowerAll(g, ts).error == InvalidEvidence
  {
    var last := |ts| - 1;
    LowerRefuses(g, ts[last]);
    hide Lower;
    if LowerAll(g, ts[..last]).Err? {
      k := RefusedAt(g, ts[..last]);
    } else {
      k := last;
    }
  }

  /** Only an unknown symbol stops the compiler. */
  lemma LowerAllRefuses(g: Grammar, ts: seq<Transition>)
    ensures LowerAll(g, ts).Err? <==> exists k :: 0 <= k < |ts| && Lower(g, ts[k]).Err?
    ensures LowerAll(g, ts).Err? ==> LowerAll(g, ts).error == InvalidEvidence
  {
    hide LowerAll, Lower;
    if LowerAll(g, ts).Err? {
      var k := RefusedAt(g, ts);
    } else {
      forall k | 0 <= k < |ts|
        ensures Lower(g, ts[k]).Ok?
      {
        LowerAllRows(g, ts, k);
      }
    }
  }

  lemma LowerRefuses(g: Grammar, t: Transition)
    ensures Lower(g, t).Err? ==> Lower(g, t).error == InvalidEvidence
  {
  }

  // ----- The emitted code -----

  function Test(local: nat, n: nat): seq<Instr> {
    [LocalGet(local), I32Const(n), I32Eq]
  }

  function Guard(row: Row): seq<Instr> {
    Test(0, row.state) + Test(1, row.input) + [I32And]
  }

  function Prologue(row: Row): seq<Instr> {
    Guard(row) + [If, I64Const(Pack(row.next, row.output)), Else]
  }

  function Prologues(rows: seq<Row>): seq<Instr> {
    if rows == [] then [] else Prologue(rows[0]) + Prologues(rows[1..])
  }

  function Ends(n: nat): seq<Instr> {
    if n == 0 then [] else [End] + Ends(n - 1)
  }

  function Code(rows: seq<Row>): seq<Instr> {
    Prologues(rows) + [I64Const(MINUS_ONE)] + Ends(|rows| + 1)
  }

  lemma {:induction false} ProloguesSnoc(rows: seq<Row>, row: Row)
    ensures Prologues(rows + [row]) == Prologues(rows) + Prologue(row)
  {
    hide Prologue;
    if rows == [] {
      assert rows + [row] == [row] && [row][1..] == [];
      assert Prologues([row]) == Prologue(row) + Prologues([]);
    } else {
      ProloguesSnoc(rows[1..], row);
      assert (rows + [row])[1..] == rows[1..] + [row];
      assert Prologues(rows + [row]) == Prologue(rows[0]) + (Prologues(rows[1..]) + Prologue(row));
      hide Prologues;
    }
  }

  lemma {:induction false} EndsSnoc(n: nat)
    ensures Ends(n + 1) == Ends(n) + [End]
  {
    if n > 0 {
      EndsSnoc(n - 1);
    }
  }

  method Compile(c: Candidate) returns (r: Result<seq<Instr>, Error>)
    ensures r == match LowerAll(c.grammar, c.transitions)
                 case Err(e) => Err(e)
                 case Ok(rows) => Ok(Code(rows))
  {
    var code: seq<Instr> := [];
    ghost var rows: seq<Row> := [];
    for k := 0 to |c.transitions|
      invariant LowerAll(c.grammar, c.transitions[..k]) == Ok(rows) && |rows| == k
      invariant code == Prologues(rows)
    {
      var row := Lower(c.grammar, c.transitions[k]);
      if row.Err? {
        LowerFails(c.grammar, c.transitions, k);
        return Err(InvalidEvidence);
      }
      LowerNext(c.grammar, c.transitions, k);
      code := EmitRow(code, row.value);
      ProloguesSnoc(rows, row.value);
      rows := rows + [row.value];
    }
    assert c.transitions[..|c.transitions|] == c.transitions;
    code := Close(code + [I64Const(MINUS_ONE)], |c.transitions|);
    return Ok(code);
  }

  /** One `end` for each conditional, and the one that ends the function. */
  method Close(code: seq<Instr>, n: nat) returns (longer: seq<Instr>)
    ensures longer == code + Ends(n + 1)
  {
    longer := code;
    for k := 0 to n
      invariant longer == code + Ends(k)
    {
      EndsSnoc(k);
      longer := longer + [End];
    }
    EndsSnoc(n);
    longer := longer + [End];
  }

  lemma LowerFails(g: Grammar, ts: seq<Transition>, k: nat)
    requires k < |ts| && Lower(g, ts[k]).Err?
    ensures LowerAll(g, ts) == Err(InvalidEvidence)
  {
    LowerAllRefuses(g, ts);
  }

  lemma LowerNext(g: Grammar, ts: seq<Transition>, k: nat)
    requires k < |ts|
    ensures LowerAll(g, ts[..k + 1]) == match (LowerAll(g, ts[..k]), Lower(g, ts[k]))
                                        case (Ok(rows), Ok(row)) => Ok(rows + [row])
                                        case _ => Err(InvalidEvidence)
  {
    hide Lower;
    LowerAllRefuses(g, ts[..k]);
    LowerRefuses(g, ts[k]);
    assert ts[..k + 1][..k] == ts[..k];
  }

  /** The ten instructions one transition appends. */
  method EmitRow(code: seq<Instr>, row: Row) returns (longer: seq<Instr>)
    ensures longer == code + Prologue(row)
  {
    longer := code + [LocalGet(0)];
    longer := longer + [I32Const(row.state)];
    longer := longer + [I32Eq];
    longer := longer + [LocalGet(1)];
    longer := longer + [I32Const(row.input)];
    longer := longer + [I32Eq];
    longer := longer + [I32And];
    longer := longer + [If];
    longer := longer + [I64Const(Pack(row.next, row.output))];
    longer := longer + [Else];
  }

  // ----- The code parses into the nested conditional, validates, and dispatches -----

  function Ops(code: seq<Instr>): seq<Tree> {
    seq(|code|, k requires 0 <= k < |code| => Op(code[k]))
  }

  function Nest(rows: seq<Row>): seq<Tree> {
    if rows == [] then Ops([I64Const(MINUS_ONE)])
    else Ops(Guard(rows[0])) + [Branch(Ops([I64Const(Pack(rows[0].next, rows[0].output))]), Nest(rows[1..]))]
  }

  lemma {:induction false} ReadOps(code: seq<Instr>, tail: seq<Instr>)
    requires forall k :: 0 <= k < |code| ==> code[k].Plain()
    ensures Read(code + tail) == match Read(tail)
                                 case None => None
                                 case Some((trees, stop, rest)) => Some((Ops(code) + trees, stop, rest))
  {
    if code == [] {
      assert code + tail == tail;
      assert forall trees: seq<Tree> :: Ops(code) + trees == trees;
    } else {
      ReadOps(code[1..], tail);
      assert (code + tail)[1..] == code[1..] + tail;
      assert forall trees: seq<Tree> :: Ops(code) + trees == [Op(code[0])] + (Ops(code[1..]) + trees);
    }
  }

  lemma CodeShape(rows: seq<Row>, rest: seq<Instr>)
    requires rows != []
    ensures Prologues(rows) + [I64Const(MINUS_ONE)] + Ends(|rows| + 1) + rest ==
            Guard(rows[0]) + ([If] + ([I64Const(Pack(rows[0].next, rows[0].output))] + ([Else]
              + (Prologues(rows[1..]) + [I64Const(MINUS_ONE)] + Ends(|rows|) + ([End] + rest)))))
  {
    EndsSnoc(|rows|);
    Regroup(Guard(rows[0]), I64Const(Pack(rows[0].next, rows[0].output)), Prologues(rows[1..]),
            [I64Const(MINUS_ONE)], Ends(|rows|), rest);
  }

  lemma Regroup(guard: seq<Instr>, value: Instr, p: seq<Instr>, m: seq<Instr>, e: seq<Instr>, rest: seq<Instr>)
    ensures (guard + [If, value, Else] + p) + m + (e + [End]) + rest ==
            guard + ([If] + ([value] + ([Else] + (p + m + e + ([End] + rest)))))
  {
    var tail := p + m + e + ([End] + rest);
    assert (guard + [If, value, Else] + p) + m + (e + [End]) + rest == guard + [If, value, Else] + tail;
    assert [If] + ([value] + ([Else] + tail)) == [If, value, Else] + tail;
  }

  /** The flat code reads back as the nested conditional, leaving nothing over. */
  lemma {:induction false} ReadNest(rows: seq<Row>, rest: seq<Instr>)
    ensures Read(Prologues(rows) + [I64Const(MINUS_ONE)] + Ends(|rows| + 1) + rest) == Some((Nest(rows), End, rest))
  {
    hide Pack;
    if rows == [] {
      assert Ends(1) == [End] + Ends(0);
      assert Prologues(rows) + [I64Const(MINUS_ONE)] + Ends(1) + rest == [I64Const(MINUS_ONE)] + ([End] + rest);
      ReadOps([I64Const(MINUS_ONE)], [End] + rest);
      ReadEnd(rest);
      assert Nest(rows) + [] == Nest(rows);
    } else {
      var row := rows[0];
      var value := [I64Const(Pack(row.next, row.output))];
      var inner := Prologues(rows[1..]) + [I64Const(MINUS_ONE)] + Ends(|rows|) + ([End] + rest);
      CodeShape(rows, rest);
      ReadOps(Guard(row), [If] + (value + ([Else] + inner)));
      ReadNest(rows[1..], [End] + rest);
      hide Read, Prologues, Ends, Ops;
      ReadConditional(value, inner, rest, Nest(rows[1..]));
    }
  }

  lemma ReadEnd(rest: seq<Instr>)
    ensures Read([End] + rest) == Some(([], End, rest))
  {
    assert ([End] + rest)[1..] == rest;
  }

  lemma ReadConditional(thn: seq<Instr>, inner: seq<Instr>, rest: seq<Instr>, els: seq<Tree>)
    requires forall k :: 0 <= k < |thn| ==> thn[k].Plain()
    requires Read(inner) == Some((els, End, [End] + rest))
    ensures Read([If] + (thn + ([Else] + inner))) == Some(([Branch(Ops(thn), els)], End, rest))
  {
    var code := [If] + (thn + ([Else] + inner));
    ReadOps(thn, [Else] + inner);
    assert ([Else] + inner)[1..] == inner;
    assert Read([Else] + inner) == Some(([], Else, inner));
    assert Ops(thn) + [] == Ops(thn);
    assert code[1..] == thn + ([Else] + inner);
    ReadEnd(rest);
    assert [Branch(Ops(thn), els)] + [] == [Branch(Ops(thn), els)];
  }

  lemma CodeReads(rows: seq<Row>)
    ensures Body(Code(rows)) == Some(Nest(rows))
  {
    ReadNest(rows, []);
    assert Code(rows) + [] == Code(rows);
  }

  // ----- Validation -----

  lemma CheckStep(op: Instr, tail: seq<Tree>, stack: seq<Ty>)
    requires op.Plain() && CheckOp(op, stack).Some?
    ensures Check([Op(op)] + tail, stack) == Check(tail, CheckOp(op, stack).value)
  {
    assert ([Op(op)] + tail)[1..] == tail;
  }

  lemma TestChecks(local: nat, n: nat, tail: seq<Tree>, stack: seq<Ty>)
    requires local < 2
    ensures Check(Ops(Test(local, n)) + tail, stack) == Check(tail, stack + [I32])
  {
    var t3 := [Op(I32Eq)] + tail;
    var t2 := [Op(I32Const(n))] + t3;
    assert Ops(Test(local, n)) + tail == [Op(LocalGet(local))] + t2;
    CheckStep(LocalGet(local), t2, stack);
    CheckStep(I32Const(n), t3, stack + [I32]);
    assert stack + [I32] + [I32] == stack + [I32, I32];
    assert (stack + [I32, I32])[|stack|..] == [I32, I32] && (stack + [I32, I32])[..|stack|] == stack;
    CheckStep(I32Eq, tail, stack + [I32, I32]);
  }

  lemma GuardShape(row: Row, tail: seq<Tree>)
    ensures Ops(Guard(row)) + tail == Ops(Test(0, row.state)) + (Ops(Test(1, row.input)) + ([Op(I32And)] + tail))
  {
  }

  lemma AndChecks(tail: seq<Tree>)
    ensures Check([Op(I32And)] + tail, [I32, I32]) == Check(tail, [I32])
  {
    assert [I32, I32][0..] == [I32, I32] && [I32, I32][..0] + [I32] == [I32];
    CheckStep(I32And, tail, [I32, I32]);
  }

  lemma GuardChecks(row: Row, tail: seq<Tree>)
    ensures Check(Ops(Guard(row)) + tail, []) == Check(tail, [I32])
  {
    hide Check, Test, Guard, Ops, CheckOp;
    var t2 := [Op(I32And)] + tail;
    var t1 := Ops(Test(1, row.input)) + t2;
    GuardShape(row, tail);
    TestChecks(0, row.state, t1, []);
    TestChecks(1, row.input, t2, [I32]);
    AndChecks(tail);
    assert [] + [I32] == [I32] && [I32] + [I32] == [I32, I32];
  }

  lemma {:induction false} NestChecks(rows: seq<Row>)
    ensures Check(Nest(rows), []) == Some([I64])
  {
    if rows == [] {
      ConstChecks(MINUS_ONE);
    } else {
      var value := Pack(rows[0].next, rows[0].output);
      NestChecks(rows[1..]);
      ConstChecks(value);
      BranchChecks(Ops([I64Const(value)]), Nest(rows[1..]));
      GuardChecks(rows[0], [Branch(Ops([I64Const(value)]), Nest(rows[1..]))]);
    }
  }

  lemma ConstChecks(n: nat)
    ensures Check(Ops([I64Const(n)]), []) == Some([I64])
  {
    assert Ops([I64Const(n)]) == [Op(I64Const(n))] + [];
    CheckStep(I64Const(n), [], []);
    assert [] + [I64] == [I64];
  }

  lemma BranchChecks(thn: seq<Tree>, els: seq<Tree>)
    requires Check(thn, []) == Some([I64]) && Check(els, []) == Some([I64])
    ensures Check([Branch(thn, els)], [I32]) == Some([I64])
  {
    assert [Branch(thn, els)][1..] == [];
    assert [I32][..0] + [I64] == [I64];
  }

  // ----- Execution -----

  lemma ExecStep(op: Instr, tail: seq<Tree>, x: nat, y: nat, stack: seq<Val>)
    requires op.Plain() && ExecOp(op, x, y, stack).Some?
    ensures Exec([Op(op)] + tail, x, y, stack) == Counted(1, Exec(tail, x, y, ExecOp(op, x, y, stack).value))
  {
    assert ([Op(op)] + tail)[1..] == tail;
  }

  lemma TestExecutes(local: nat, n: nat, x: nat, y: nat, tail: seq<Tree>, stack: seq<Val>)
    requires local < 2
    ensures Exec(Ops(Test(local, n)) + tail, x, y, stack) ==
            Counted(3, Exec(tail, x, y, stack + [V32(Bit((if local == 0 then x else y) == n))]))
  {
    var v := V32(if local == 0 then x else y);
    var t3 := [Op(I32Eq)] + tail;
    var t2 := [Op(I32Const(n))] + t3;
    assert Ops(Test(local, n)) + tail == [Op(LocalGet(local))] + t2;
    ExecStep(LocalGet(local), t2, x, y, stack);
    ExecStep(I32Const(n), t3, x, y, stack + [v]);
    assert stack + [v] + [V32(n)] == stack + [v, V32(n)];
    assert (stack + [v, V32(n)])[..|stack|] == stack;
    ExecStep(I32Eq, tail, x, y, stack + [v, V32(n)]);
  }

  /** Seven instructions decide whether the call is about this row. */
  lemma GuardExecutes(row: Row, x: nat, y: nat, tail: seq<Tree>)
    ensures Exec(Ops(Guard(row)) + tail, x, y, []) ==
            Counted(7, Exec(tail, x, y, [V32(Bit(x == row.state && y == row.input))]))
  {
    hide Exec, BitAnd, Test;
    var t2 := [Op(I32And)] + tail;
    var t1 := Ops(Test(1, row.input)) + t2;
    var s, i := V32(Bit(x == row.state)), V32(Bit(y == row.input));
    GuardShape(row, tail);
    TestExecutes(0, row.state, x, y, t1, []);
    TestExecutes(1, row.input, x, y, t2, [s]);
    assert [] + [s] == [s] && [s] + [i] == [s, i];
    BitAndOfBits(x == row.state, y == row.input);
    var both := V32(Bit(x == row.state && y == row.input));
    assert [s, i][..0] + [both] == [both];
    ExecStep(I32And, tail, x, y, [s, i]);
  }

  lemma BitAndOfBits(a: bool, b: bool)
    ensures BitAnd(Bit(a), Bit(b)) == Bit(a && b)
  {
  }

  lemma ConstExecutes(n: nat, x: nat, y: nat)
    ensures Exec(Ops([I64Const(n)]), x, y, []) == Some(([V64(n)], 1))
  {
    assert Ops([I64Const(n)]) == [Op(I64Const(n))] + [];
    ExecStep(I64Const(n), [], x, y, []);
    assert [] + [V64(n)] == [V64(n)];
  }

  lemma BranchExecutes(thn: seq<Tree>, els: seq<Tree>, x: nat, y: nat, taken: bool, v: Val, steps: nat)
    requires Exec(if taken then thn else els, x, y, []) == Some(([v], steps))
    ensures Exec([Branch(thn, els)], x, y, [V32(Bit(taken))]) == Some(([v], 1 + steps))
  {
    var trees, stack := [Branch(thn, els)], [V32(Bit(taken))];
    assert trees[1..] == [];
    assert stack[..0] + [v] == [v];
    assert Exec(trees[1..], x, y, [v]) == Some(([v], 0));
  }

  /** The row a call selects is the first that matches it. */
  function Hit(rows: seq<Row>, x: nat, y: nat): (k: nat)
    ensures k <= |rows|
    ensures k < |rows| ==> rows[k].state == x && rows[k].input == y
    ensures forall j :: 0 <= j < k ==> rows[j].state != x || rows[j].input != y
  {
    if rows == [] || (rows[0].state == x && rows[0].input == y) then 0
    else 1 + Hit(rows[1..], x, y)
  }

  function Dispatch(rows: seq<Row>, x: nat, y: nat): nat {
    var k := Hit(rows, x, y);
    if k < |rows| then Pack(rows[k].next, rows[k].output) else MINUS_ONE
  }

  /** Executed instructions of one call, none of them an `end`. */
  function Steps(rows: seq<Row>, x: nat, y: nat): (n: nat)
    ensures n <= 8 * |rows| + 1
  {
    var k := Hit(rows, x, y);
    if k < |rows| then 8 * (k + 1) + 1 else 8 * |rows| + 1
  }

  /** One row: its own value after nine instructions, or what follows after eight more. */
  lemma RowExecutes(row: Row, els: seq<Tree>, x: nat, y: nat, v: Val, steps: nat)
    requires Exec(els, x, y, []) == Some(([v], steps))
    ensures Exec(Ops(Guard(row)) + [Branch(Ops([I64Const(Pack(row.next, row.output))]), els)], x, y, []) ==
            if x == row.state && y == row.input then Some(([V64(Pack(row.next, row.output))], 9))
            else Some(([v], 8 + steps))
  {
    var value, taken := Pack(row.next, row.output), x == row.state && y == row.input;
    var thn := Ops([I64Const(value)]);
    ConstExecutes(value, x, y);
    if taken {
      BranchExecutes(thn, els, x, y, taken, V64(value), 1);
    } else {
      BranchExecutes(thn, els, x, y, taken, v, steps);
    }
    GuardExecutes(row, x, y, [Branch(thn, els)]);
  }

  lemma DispatchRow(rows: seq<Row>, x: nat, y: nat)
    requires rows != []
    ensures var taken := x == rows[0].state && y == rows[0].input;
            && Dispatch(rows, x, y) == (if taken then Pack(rows[0].next, rows[0].output) else Dispatch(rows[1..], x, y))
            && Steps(rows, x, y) == (if taken then 9 else 8 + Steps(rows[1..], x, y))
  {
  }

  lemma {:induction false} NestExecutes(rows: seq<Row>, x: nat, y: nat)
    ensures Exec(Nest(rows), x, y, []) == Some(([V64(Dispatch(rows, x, y))], Steps(rows, x, y)))
  {
    if rows == [] {
      ConstExecutes(MINUS_ONE, x, y);
    } else {
      var v, steps := Dispatch(rows[1..], x, y), Steps(rows[1..], x, y);
      NestExecutes(rows[1..], x, y);
      DispatchRow(rows, x, y);
      NestRow(rows[0], rows, x, y, v, steps);
    }
  }

  lemma NestRow(row: Row, rows: seq<Row>, x: nat, y: nat, v: nat, steps: nat)
    requires rows != [] && rows[0] == row
    requires Exec(Nest(rows[1..]), x, y, []) == Some(([V64(v)], steps))
    ensures Exec(Nest(rows), x, y, []) ==
            if x == row.state && y == row.input then Some(([V64(Pack(row.next, row.output))], 9))
            else Some(([V64(v)], 8 + steps))
  {
    RowExecutes(row, Nest(rows[1..]), x, y, V64(v), steps);
  }

  /** The whole module, called on any pair of integers: it parses, validates, dispatches to
      the first matching row or -1, and runs at most eight instructions a row and one more. */
  lemma ModuleMeaning(rows: seq<Row>, x: nat, y: nat)
    ensures Invoke(Code(rows), x, y) == Some(Dispatch(rows, x, y))
    ensures Body(Code(rows)).Some? && Exec(Body(Code(rows)).value, x, y, []).Some?
    ensures Exec(Body(Code(rows)).value, x, y, []).value.1 <= 8 * |rows| + 1
  {
    CodeReads(rows);
    NestChecks(rows);
    NestExecutes(rows, x, y);
  }
}
