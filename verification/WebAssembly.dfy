/** The WebAssembly subset the compiler emits: flat code, its structured reading
    (section 5.4.1 of the WebAssembly Core Specification 1.0), validation (section 3.3)
    and execution (section 4.4). Integers are kept by their unsigned values. */
module WebAssembly {
  import opened Basics

  datatype Instr =
    | LocalGet(index: nat)
    | I32Const(n: nat)
    | I32Eq
    | I32And
    | I64Const(n: nat)
    | If        // `if` with an i64 result
    | Else
    | End
  {
    predicate Plain() {
      !If? && !Else? && !End?
    }
  }

  datatype Tree = Op(op: Instr) | Branch(thn: seq<Tree>, els: seq<Tree>)

  /** The i64 bit pattern of -1. */
  const MINUS_ONE: nat := U64_LIMIT - 1

  // ----- Bitwise operations -----

  function BitAnd(a: nat, b: nat): nat {
    if a == 0 || b == 0 then 0 else 2 * BitAnd(a / 2, b / 2) + (a % 2) * (b % 2)
  }

  function BitOr(a: nat, b: nat): nat {
    if a == 0 && b == 0 then 0
    else 2 * BitOr(a / 2, b / 2) + if a % 2 == 1 || b % 2 == 1 then 1 else 0
  }

  /** Shifting left by `k` leaves room for a `k`-bit number: or is then addition. */
  lemma {:induction false} OrIntoRoom(a: nat, b: nat, k: nat)
    requires b < Pow(2, k)
    ensures BitOr(a * Pow(2, k), b) == a * Pow(2, k) + b
  {
    if k == 0 {
      OrZero(a);
      assert a * Pow(2, 0) == a;
    } else {
      var p := Pow(2, k - 1);
      assert a * Pow(2, k) == 2 * (a * p);
      OrIntoRoom(a, b / 2, k - 1);
    }
  }

  lemma {:induction false} OrZero(a: nat)
    ensures BitOr(a, 0) == a
  {
    if a > 0 {
      OrZero(a / 2);
    }
  }

  // ----- Structured reading of flat code -----

  /** Reads instructions up to the first unmatched `else` or `end`, which is returned
      with what follows it. */
  function Read(code: seq<Instr>): (r: Option<(seq<Tree>, Instr, seq<Instr>)>)
    ensures r.Some? ==> |r.value.2| < |code|
    decreases |code|
  {
    if code == [] then None
    else if code[0].Else? || code[0].End? then Some(([], code[0], code[1..]))
    else if code[0].If? then
      match Read(code[1..])
      case Some((thn, Else, afterThen)) =>
        (match Read(afterThen)
         case Some((els, End, afterIf)) =>
           (match Read(afterIf)
            case Some((trees, stop, rest)) => Some(([Branch(thn, els)] + trees, stop, rest))
            case None => None)
         case _ => None)
      case _ => None
    else
      match Read(code[1..])
      case Some((trees, stop, rest)) => Some(([Op(code[0])] + trees, stop, rest))
      case None => None
  }

  /** A function body is one expression closed by the last `end`. */
  function Body(code: seq<Instr>): Option<seq<Tree>> {
    match Read(code)
    case Some((trees, End, rest)) => if rest == [] then Some(trees) else None
    case _ => None
  }

  // ----- Validation of a (i32, i32) -> i64 function -----

  datatype Ty = I32 | I64

  function CheckOp(op: Instr, stack: seq<Ty>): Option<seq<Ty>>
    requires op.Plain()
  {
    var n := |stack|;
    match op
    case LocalGet(i) => if i < 2 then Some(stack + [I32]) else None
    case I32Const(_) => Some(stack + [I32])
    case I64Const(_) => Some(stack + [I64])
    case _ => if n >= 2 && stack[n - 2..] == [I32, I32] then Some(stack[..n - 2] + [I32]) else None
  }

  function Check(trees: seq<Tree>, stack: seq<Ty>): Option<seq<Ty>> {
    if trees == [] then Some(stack)
    else
      match trees[0]
      case Op(op) =>
        if !op.Plain() then None
        else (match CheckOp(op, stack) case None => None case Some(after) => Check(trees[1..], after))
      case Branch(thn, els) =>
        if stack != [] && stack[|stack| - 1] == I32
           && Check(thn, []) == Some([I64]) && Check(els, []) == Some([I64])
        then Check(trees[1..], stack[..|stack| - 1] + [I64])
        else None
  }

  // ----- Execution -----

  datatype Val = V32(n: nat) | V64(n: nat) {
    function Type(): Ty {
      if V32? then I32 else I64
    }
  }

  function Bit(b: bool): nat {
    if b then 1 else 0
  }

  function ExecOp(op: Instr, x: nat, y: nat, stack: seq<Val>): Option<seq<Val>>
    requires op.Plain()
  {
    var n := |stack|;
    match op
    case LocalGet(i) => if i == 0 then Some(stack + [V32(x)]) else if i == 1 then Some(stack + [V32(y)]) else None
    case I32Const(k) => Some(stack + [V32(k)])
    case I64Const(k) => Some(stack + [V64(k)])
    case I32Eq =>
      if n >= 2 && stack[n - 1].V32? && stack[n - 2].V32?
      then Some(stack[..n - 2] + [V32(Bit(stack[n - 2].n == stack[n - 1].n))]) else None
    case I32And =>
      if n >= 2 && stack[n - 1].V32? && stack[n - 2].V32?
      then Some(stack[..n - 2] + [V32(BitAnd(stack[n - 2].n, stack[n - 1].n))]) else None
    case _ => None
  }

  /** Runs a sequence on locals `x` and `y`, counting executed instructions; None is a trap
      of unvalidated code. A branch runs on an operand stack of its own and yields one value. */
  function Exec(trees: seq<Tree>, x: nat, y: nat, stack: seq<Val>): Option<(seq<Val>, nat)> {
    if trees == [] then Some((stack, 0))
    else
      match trees[0]
      case Op(op) =>
        if !op.Plain() then None
        else
          (match ExecOp(op, x, y, stack)
           case None => None
           case Some(after) => Counted(1, Exec(trees[1..], x, y, after)))
      case Branch(thn, els) =>
        var n := |stack|;
        if n == 0 || !stack[n - 1].V32? then None
        else
          match Exec(if stack[n - 1].n != 0 then thn else els, x, y, [])
          case Some((left, steps)) =>
            if |left| != 1 then None
            else Counted(1 + steps, Exec(trees[1..], x, y, stack[..n - 1] + left))
          case None => None
  }

  function Counted(steps: nat, r: Option<(seq<Val>, nat)>): Option<(seq<Val>, nat)> {
    match r
    case None => None
    case Some((stack, more)) => Some((stack, steps + more))
  }

  /** One call of the module's function: code must parse and validate, and then runs. */
  function Invoke(code: seq<Instr>, x: nat, y: nat): Option<nat> {
    match Body(code)
    case None => None
    case Some(trees) =>
      if Check(trees, []) != Some([I64]) then None
      else
        match Exec(trees, x, y, [])
        case Some((left, _)) => if |left| == 1 && left[0].V64? then Some(left[0].n) else None
        case None => None
  }

  ghost predicate Matches(stack: seq<Val>, types: seq<Ty>) {
    |stack| == |types| && forall k :: 0 <= k < |stack| ==> stack[k].Type() == types[k]
  }

  /** Validated code never traps, and leaves what validation promised. */
  lemma {:induction false} ValidationIsSound(trees: seq<Tree>, x: nat, y: nat, stack: seq<Val>, types: seq<Ty>)
    requires Matches(stack, types)
    requires Check(trees, types).Some?
    ensures Exec(trees, x, y, stack).Some?
    ensures Matches(Exec(trees, x, y, stack).value.0, Check(trees, types).value)
    decreases trees
  {
    if trees != [] {
      var n := |stack|;
      match trees[0] {
        case Op(op) =>
          var after := CheckOp(op, types).value;
          if op.I32Eq? || op.I32And? {
            assert types[n - 2..][0] == I32 && types[n - 2..][1] == I32;
            assert stack[n - 1].Type() == I32 && stack[n - 2].Type() == I32;
          }
          ValidationIsSound(trees[1..], x, y, ExecOp(op, x, y, stack).value, after);
        case Branch(thn, els) =>
          assert stack[n - 1].Type() == I32;
          var taken := if stack[n - 1].n != 0 then thn else els;
          ValidationIsSound(taken, x, y, [], []);
          var inner := Exec(taken, x, y, []).value.0;
          assert inner == [inner[0]];
          ValidationIsSound(trees[1..], x, y, stack[..n - 1] + [inner[0]], types[..n - 1] + [I64]);
      }
    }
  }
}
