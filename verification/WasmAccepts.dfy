/** The verifier of `src/wasm.rs` accepts the encoding of every program of `WasmLanguage` that fits. */
module WasmAccepts {
  import opened Common
  import opened WasmLeb
  import opened WasmVerifier
  import I = WasmInterpreter
  import opened L = WasmLanguage
  import opened WasmSkips
  import WasmMeaning
  import WasmPrograms

  /** A module with a memory whose first import is the log. */
  predicate Offers(m: Module) { m.memory && |m.imports| > 0 && m.imports[0] == Import.Log }

  // ------------------------------------------------------------------ the verifier's path

  predicate Checks(m: Module, code: seq<byte>, path: seq<Verifying>, i: nat) {
    i + 1 < |path| && path[i].pos < |code| && Step(m, code, Some(I32), path[i]) == Ok(path[i + 1])
  }

  ghost predicate Path(m: Module, code: seq<byte>, path: seq<Verifying>) {
    path != [] && forall i: nat :: i + 1 < |path| ==> Checks(m, code, path, i)
  }

  ghost predicate Comes(m: Module, code: seq<byte>, s: Verifying, next: Verifying) {
    exists path: seq<Verifying> :: Path(m, code, path) && path[0] == s && path[|path| - 1] == next
  }

  /** The verifier gets from one state to the other. The bound variable keeps the path out of proofs that do not ask
      for it. */
  ghost predicate Leads(m: Module, code: seq<byte>, s: Verifying, next: Verifying) {
    forall start: Verifying :: start == s ==> Comes(m, code, start, next)
  }

  lemma OneStep(m: Module, code: seq<byte>, s: Verifying, next: Verifying)
    requires s.pos < |code| && Step(m, code, Some(I32), s) == Ok(next)
    ensures Leads(m, code, s, next)
  {
    var path := [s, next];
    assert Path(m, code, path) && path[0] == s && path[|path| - 1] == next;
  }

  lemma Onward(m: Module, code: seq<byte>, s: Verifying, next: Verifying, last: Verifying)
    requires Leads(m, code, s, next) && Leads(m, code, next, last)
    ensures Leads(m, code, s, last)
  {
    assert Comes(m, code, s, next) && Comes(m, code, next, last);
    var p :| Path(m, code, p) && p[0] == s && p[|p| - 1] == next;
    var q :| Path(m, code, q) && q[0] == next && q[|q| - 1] == last;
    PathsJoin(m, code, p, q);
  }

  lemma PathsJoin(m: Module, code: seq<byte>, p: seq<Verifying>, q: seq<Verifying>)
    requires Path(m, code, p) && Path(m, code, q) && p[|p| - 1] == q[0]
    ensures var path := p + q[1..];
            Path(m, code, path) && path[0] == p[0] && path[|path| - 1] == q[|q| - 1]
  {
    var path, n := p + q[1..], |p| - 1;
    forall i: nat | i + 1 < |path| ensures Checks(m, code, path, i) {
      if i < n {
        assert Checks(m, code, p, i);
      } else {
        assert Checks(m, code, q, i - n);
        assert path[i] == q[i - n] && path[i + 1] == q[i - n + 1];
      }
    }
  }

  lemma Finishes(m: Module, code: seq<byte>, s: Verifying, last: Verifying)
    requires s.pos <= |code| && Leads(m, code, s, last) && last.pos == |code| && last.ended
    ensures VerifyFrom(m, code, Some(I32), s) == Accepted
  {
    assert Comes(m, code, s, last);
    var path :| Path(m, code, path) && path[0] == s && path[|path| - 1] == last;
    FinishesAlong(m, code, path, 0);
  }

  lemma {:induction false} FinishesAlong(m: Module, code: seq<byte>, path: seq<Verifying>, i: nat)
    requires Path(m, code, path) && i < |path| && path[i].pos <= |code|
    requires path[|path| - 1].pos == |code| && path[|path| - 1].ended
    ensures VerifyFrom(m, code, Some(I32), path[i]) == Accepted
    decreases |path| - i
  {
    if i + 1 < |path| {
      assert Checks(m, code, path, i);
      FinishesAlong(m, code, path, i + 1);
    }
  }

  // ------------------------------------------------------------------ single instructions

  function At(pos: nat, stack: seq<ValType>, controls: seq<Control>): Verifying {
    Verifying(pos, stack, controls, false)
  }

  lemma ConstChecks(m: Module, code: seq<byte>, pos: nat, next: nat, n: int, stack: seq<ValType>,
                    controls: seq<Control>)
    requires pos < |code| && code[pos] == 0x41 && DecodeI32(code, pos + 1) == Got(n, next) && |stack| < 256
    ensures Leads(m, code, At(pos, stack, controls), At(next, stack + [I32], controls))
  {
    assert Retype(stack, CONST32) == Ok(stack + [I32]);
    OneStep(m, code, At(pos, stack, controls), At(next, stack + [I32], controls));
  }

  lemma OnePopped(stack: seq<ValType>, op: byte)
    requires (op == EQZ || op == LOAD) && |stack| < 256
    ensures Retype(stack + [I32], op) == Ok(stack + [I32])
  {
    assert (stack + [I32])[..|stack|] == stack;
    assert PopAll(stack, I32, 0) == Ok(stack);
    assert PopAll(stack + [I32], I32, 1) == Ok(stack);
  }

  lemma TwoPopped(stack: seq<ValType>, op: byte)
    requires (op == CALL || op == STORE || ADD <= op <= MUL) && |stack| < 256
    ensures Retype(stack + [I32] + [I32], op) == Ok(if op == STORE then stack else stack + [I32])
  {
    var one := stack + [I32];
    var two := one + [I32];
    assert two[..|one|] == one && one[..|stack|] == stack;
    assert PopAll(stack, I32, 0) == Ok(stack);
    assert PopAll(one, I32, 1) == Ok(stack);
    assert PopAll(two, I32, 2) == Ok(stack);
    assert stack + [] == stack;
  }

  lemma IsZeroChecks(m: Module, code: seq<byte>, pos: nat, stack: seq<ValType>, controls: seq<Control>)
    requires pos < |code| && code[pos] == 0x45 && |stack| < 256
    ensures Leads(m, code, At(pos, stack + [I32], controls), At(pos + 1, stack + [I32], controls))
  {
    OnePopped(stack, EQZ);
    OneStep(m, code, At(pos, stack + [I32], controls), At(pos + 1, stack + [I32], controls));
  }

  lemma LoadChecks(m: Module, code: seq<byte>, pos: nat, offset: nat, next: nat, stack: seq<ValType>,
                   controls: seq<Control>)
    requires Offers(m) && AccessAt(code, pos, LOAD, offset, next) && |stack| < 256
    ensures Leads(m, code, At(pos, stack + [I32], controls), At(next, stack + [I32], controls))
  {
    OnePopped(stack, LOAD);
    OneStep(m, code, At(pos, stack + [I32], controls), At(next, stack + [I32], controls));
  }

  lemma StoreChecks(m: Module, code: seq<byte>, pos: nat, offset: nat, next: nat, controls: seq<Control>)
    requires Offers(m) && AccessAt(code, pos, STORE, offset, next)
    ensures Leads(m, code, At(pos, [] + [I32] + [I32], controls), At(next, [], controls))
  {
    TwoPopped([], STORE);
    OneStep(m, code, At(pos, [] + [I32] + [I32], controls), At(next, [], controls));
  }

  lemma OperatorChecks(m: Module, code: seq<byte>, pos: nat, op: Operator, stack: seq<ValType>, controls: seq<Control>)
    requires Offers(m) && Holds(code, pos, OperatorBytes(op)) && |stack| < 256
    ensures Leads(m, code, At(pos, stack + [I32] + [I32], controls),
                  At(pos + |OperatorBytes(op)|, stack + [I32], controls))
  {
    if op.Log? {
      HoldsTwo(code, pos, 0x10, 0x00);
      DecodesSmall(code, pos + 1);
      LogChecks(m, code, pos, stack, controls);
    } else {
      HoldsOne(code, pos, OperatorBytes(op)[0]);
      ArithmeticChecks(m, code, pos, stack, controls);
    }
  }

  lemma LogChecks(m: Module, code: seq<byte>, pos: nat, stack: seq<ValType>, controls: seq<Control>)
    requires Offers(m) && |stack| < 256
    requires pos + 2 <= |code| && code[pos] == 0x10 && DecodeU32(code, pos + 1) == Got(0, pos + 2)
    ensures Leads(m, code, At(pos, stack + [I32] + [I32], controls), At(pos + 2, stack + [I32], controls))
  {
    TwoPopped(stack, CALL);
    LogImmediate(m, code, pos + 1);
    OneStep(m, code, At(pos, stack + [I32] + [I32], controls), At(pos + 2, stack + [I32], controls));
  }

  lemma LogImmediate(m: Module, code: seq<byte>, pos: nat)
    requires Offers(m) && pos < |code| && DecodeU32(code, pos) == Got(0, pos + 1)
    ensures Immediates(m, code, CALL, pos) == Ok(pos + 1)
  {
  }

  lemma ArithmeticChecks(m: Module, code: seq<byte>, pos: nat, stack: seq<ValType>, controls: seq<Control>)
    requires |stack| < 256 && pos < |code| && 0x6a <= code[pos] <= 0x6c
    ensures Leads(m, code, At(pos, stack + [I32] + [I32], controls), At(pos + 1, stack + [I32], controls))
  {
    TwoPopped(stack, code[pos]);
    OneStep(m, code, At(pos, stack + [I32] + [I32], controls), At(pos + 1, stack + [I32], controls));
  }

  lemma ByteChecks(m: Module, code: seq<byte>, pos: nat, controls: seq<Control>)
    requires pos < |code| && code[pos] == 0x01
    ensures Leads(m, code, At(pos, [], controls), At(pos + 1, [], controls))
  {
    OneStep(m, code, At(pos, [], controls), At(pos + 1, [], controls));
  }

  lemma DropChecks(m: Module, code: seq<byte>, pos: nat, controls: seq<Control>)
    requires pos < |code| && code[pos] == 0x1a
    ensures Leads(m, code, At(pos, [] + [I32], controls), At(pos + 1, [], controls))
  {
    assert Front([] + [I32]) == [];
    OneStep(m, code, At(pos, [] + [I32], controls), At(pos + 1, [], controls));
  }

  lemma BlockChecks(m: Module, code: seq<byte>, pos: nat, controls: seq<Control>)
    requires pos + 2 <= |code| && code[pos] == 0x02 && code[pos + 1] == 0x40 && |controls| < 16
    ensures Leads(m, code, At(pos, [], controls), At(pos + 2, [], controls + [Control(BLOCK, 0, false)]))
  {
    OneStep(m, code, At(pos, [], controls), At(pos + 2, [], controls + [Control(BLOCK, 0, false)]));
  }

  lemma IfChecks(m: Module, code: seq<byte>, pos: nat, controls: seq<Control>)
    requires pos + 2 <= |code| && code[pos] == 0x04 && code[pos + 1] == 0x40 && |controls| < 16
    ensures Leads(m, code, At(pos, [] + [I32], controls), At(pos + 2, [], controls + [Control(IF, 0, false)]))
  {
    assert ([] + [I32])[..0] == [];
    OneStep(m, code, At(pos, [] + [I32], controls), At(pos + 2, [], controls + [Control(IF, 0, false)]));
  }

  lemma ElseChecks(m: Module, code: seq<byte>, pos: nat, controls: seq<Control>)
    requires pos < |code| && code[pos] == 0x05
    ensures Leads(m, code, At(pos, [], controls + [Control(IF, 0, false)]),
                  At(pos + 1, [], controls + [Control(IF, 0, true)]))
  {
    assert Front(controls + [Control(IF, 0, false)]) == controls;
    OneStep(m, code, At(pos, [], controls + [Control(IF, 0, false)]),
            At(pos + 1, [], controls + [Control(IF, 0, true)]));
  }

  lemma EndChecks(m: Module, code: seq<byte>, pos: nat, controls: seq<Control>, top: Control)
    requires pos < |code| && code[pos] == 0x0b && top.kind != FUNCTION && top.height == 0
    ensures Leads(m, code, At(pos, [], controls + [top]), At(pos + 1, [], controls))
  {
    assert Front(controls + [top]) == controls;
    OneStep(m, code, At(pos, [], controls + [top]), At(pos + 1, [], controls));
  }

  // ------------------------------------------------------------------ expressions

  /** The verifier passes these bytes and has one more number on its stack. */
  ghost predicate Pushed(m: Module, code: seq<byte>, pos: nat, next: nat, stack: seq<ValType>, controls: seq<Control>) {
    Leads(m, code, At(pos, stack, controls), At(next, stack + [I32], controls))
  }

  lemma {:induction false} ExprChecks(m: Module, code: seq<byte>, e: Expr, pos: nat, next: nat, stack: seq<ValType>,
                                      controls: seq<Control>)
    requires Offers(m) && ExprOk(e) && |stack| + Height(e) <= 256
    requires Holds(code, pos, ExprBytes(e)) && next == pos + |ExprBytes(e)|
    ensures Pushed(m, code, pos, next, stack, controls)
    decreases e, 1
  {
    match e
    case Const(n) => ConstAccepted(m, code, n, pos, next, stack, controls);
    case IsZero(of) => IsZeroAccepted(m, code, of, pos, next, stack, controls);
    case Binary(op, left, right) => BinaryAccepted(m, code, op, left, right, pos, next, stack, controls);
    case Load(address, offset) => LoadAccepted(m, code, address, offset, pos, next, stack, controls);
  }

  lemma ConstAccepted(m: Module, code: seq<byte>, n: int, pos: nat, next: nat, stack: seq<ValType>,
                      controls: seq<Control>)
    requires IsI32(n) && |stack| < 256 && Holds(code, pos, ExprBytes(Const(n))) && next == pos + |ExprBytes(Const(n))|
    ensures Pushed(m, code, pos, next, stack, controls)
  {
    HoldsByte(code, pos, 0x41, EncodeSigned(n));
    DecodesI32(code, pos + 1, n);
    ConstChecks(m, code, pos, next, n, stack, controls);
  }

  lemma UnaryHeld(code: seq<byte>, pos: nat, next: nat, of: Expr, op: byte) returns (last: nat)
    requires Holds(code, pos, ExprBytes(of) + [op]) && next == pos + |ExprBytes(of) + [op]|
    ensures Holds(code, pos, ExprBytes(of)) && last == pos + |ExprBytes(of)|
    ensures next == last + 1 <= |code| && code[last] == op
  {
    last := pos + |ExprBytes(of)|;
    HoldsParts(code, pos, ExprBytes(of), [op]);
    HoldsOne(code, last, op);
  }

  lemma {:induction false} IsZeroAccepted(m: Module, code: seq<byte>, of: Expr, pos: nat, next: nat,
                                          stack: seq<ValType>, controls: seq<Control>)
    requires Offers(m) && ExprOk(of) && |stack| + Height(of) <= 256
    requires Holds(code, pos, ExprBytes(IsZero(of))) && next == pos + |ExprBytes(IsZero(of))|
    ensures Pushed(m, code, pos, next, stack, controls)
    decreases IsZero(of), 0
  {
    var last := UnaryHeld(code, pos, next, of, 0x45);
    ExprChecks(m, code, of, pos, last, stack, controls);
    IsZeroChecks(m, code, last, stack, controls);
    Onward(m, code, At(pos, stack, controls), At(last, stack + [I32], controls), At(next, stack + [I32], controls));
  }

  lemma {:induction false} LoadAccepted(m: Module, code: seq<byte>, address: Expr, offset: nat, pos: nat, next: nat,
                                        stack: seq<ValType>, controls: seq<Control>)
    requires Offers(m) && ExprOk(address) && offset < U32_LIMIT && |stack| + Height(address) <= 256
    requires Holds(code, pos, ExprBytes(Load(address, offset)))
    requires next == pos + |ExprBytes(Load(address, offset))|
    ensures Pushed(m, code, pos, next, stack, controls)
    decreases Load(address, offset), 0
  {
    var last := WasmMeaning.LoadHeld(code, pos, next, address, offset);
    ExprChecks(m, code, address, pos, last, stack, controls);
    LoadChecks(m, code, last, offset, next, stack, controls);
    Onward(m, code, At(pos, stack, controls), At(last, stack + [I32], controls), At(next, stack + [I32], controls));
  }

  lemma {:induction false} BinaryAccepted(m: Module, code: seq<byte>, op: Operator, left: Expr, right: Expr, pos: nat,
                                          next: nat, stack: seq<ValType>, controls: seq<Control>)
    requires Offers(m) && ExprOk(left) && ExprOk(right)
    requires |stack| + Height(left) <= 256 && |stack| + 1 + Height(right) <= 256
    requires Holds(code, pos, ExprBytes(Binary(op, left, right)))
    requires next == pos + |ExprBytes(Binary(op, left, right))|
    ensures Pushed(m, code, pos, next, stack, controls)
    decreases Binary(op, left, right), 0
  {
    var middle, last := WasmMeaning.BinaryHeld(code, pos, next, op, left, right);
    ExprChecks(m, code, left, pos, middle, stack, controls);
    ExprChecks(m, code, right, middle, last, stack + [I32], controls);
    OperandsAccepted(m, code, op, pos, middle, last, next, stack, controls);
  }

  lemma OperandsAccepted(m: Module, code: seq<byte>, op: Operator, pos: nat, middle: nat, last: nat, next: nat,
                         stack: seq<ValType>, controls: seq<Control>)
    requires Offers(m) && |stack| < 256 && Holds(code, last, OperatorBytes(op)) && next == last + |OperatorBytes(op)|
    requires Pushed(m, code, pos, middle, stack, controls)
    requires Pushed(m, code, middle, last, stack + [I32], controls)
    ensures Pushed(m, code, pos, next, stack, controls)
  {
    var one := stack + [I32];
    OperatorChecks(m, code, last, op, stack, controls);
    Onward(m, code, At(pos, stack, controls), At(middle, one, controls), At(last, one + [I32], controls));
    Onward(m, code, At(pos, stack, controls), At(last, one + [I32], controls), At(next, one, controls));
  }

  // ------------------------------------------------------------------ statements

  /** The verifier passes these bytes with nothing on its stack before and after. */
  ghost predicate Passed(m: Module, code: seq<byte>, pos: nat, next: nat, controls: seq<Control>) {
    Leads(m, code, At(pos, [], controls), At(next, [], controls))
  }

  lemma {:induction false} StmtChecks(m: Module, code: seq<byte>, s: Stmt, pos: nat, next: nat, controls: seq<Control>)
    requires Offers(m) && StmtOk(s) && |controls| + Nesting(s) <= 16
    requires Holds(code, pos, StmtBytes(s)) && next == pos + |StmtBytes(s)|
    ensures Passed(m, code, pos, next, controls)
    decreases s, 1
  {
    match s
    case Nop =>
      HoldsOne(code, pos, 0x01);
      ByteChecks(m, code, pos, controls);
    case Then(first, second) => ThenAccepted(m, code, first, second, pos, next, controls);
    case Store(address, offset, value) => StoreAccepted(m, code, address, offset, value, pos, next, controls);
    case Drop(of) => DropAccepted(m, code, of, pos, next, controls);
    case Block(body) => BlockAccepted(m, code, body, pos, next, controls);
    case If(condition, body) => IfAccepted(m, code, condition, body, pos, next, controls);
    case IfElse(condition, yes, no) => IfElseAccepted(m, code, condition, yes, no, pos, next, controls);
  }

  lemma {:induction false} ThenAccepted(m: Module, code: seq<byte>, first: Stmt, second: Stmt, pos: nat, next: nat,
                                        controls: seq<Control>)
    requires Offers(m) && StmtOk(first) && StmtOk(second)
    requires |controls| + Nesting(first) <= 16 && |controls| + Nesting(second) <= 16
    requires Holds(code, pos, StmtBytes(Then(first, second))) && next == pos + |StmtBytes(Then(first, second))|
    ensures Passed(m, code, pos, next, controls)
    decreases Then(first, second), 0
  {
    var middle := pos + |StmtBytes(first)|;
    HoldsParts(code, pos, StmtBytes(first), StmtBytes(second));
    StmtChecks(m, code, first, pos, middle, controls);
    StmtChecks(m, code, second, middle, next, controls);
    Onward(m, code, At(pos, [], controls), At(middle, [], controls), At(next, [], controls));
  }

  lemma DropAccepted(m: Module, code: seq<byte>, of: Expr, pos: nat, next: nat, controls: seq<Control>)
    requires Offers(m) && ExprOk(of) && Height(of) <= 256
    requires Holds(code, pos, StmtBytes(Drop(of))) && next == pos + |StmtBytes(Drop(of))|
    ensures Passed(m, code, pos, next, controls)
  {
    var last := UnaryHeld(code, pos, next, of, 0x1a);
    ExprChecks(m, code, of, pos, last, [], controls);
    DropChecks(m, code, last, controls);
    Onward(m, code, At(pos, [], controls), At(last, [] + [I32], controls), At(next, [], controls));
  }

  lemma StoreAccepted(m: Module, code: seq<byte>, address: Expr, offset: nat, value: Expr, pos: nat, next: nat,
                      controls: seq<Control>)
    requires Offers(m) && StmtOk(Store(address, offset, value))
    requires Holds(code, pos, StmtBytes(Store(address, offset, value)))
    requires next == pos + |StmtBytes(Store(address, offset, value))|
    ensures Passed(m, code, pos, next, controls)
  {
    var middle, last := WasmPrograms.StoreHeld(code, pos, next, address, offset, value);
    var one: seq<ValType> := [] + [I32];
    ExprChecks(m, code, address, pos, middle, [], controls);
    ExprChecks(m, code, value, middle, last, one, controls);
    StoreChecks(m, code, last, offset, next, controls);
    Onward(m, code, At(pos, [], controls), At(middle, one, controls), At(last, one + [I32], controls));
    Onward(m, code, At(pos, [], controls), At(last, one + [I32], controls), At(next, [], controls));
  }

  lemma {:induction false} BlockAccepted(m: Module, code: seq<byte>, body: Stmt, pos: nat, next: nat,
                                         controls: seq<Control>)
    requires Offers(m) && StmtOk(body) && |controls| + 1 + Nesting(body) <= 16
    requires Holds(code, pos, StmtBytes(Block(body))) && next == pos + |StmtBytes(Block(body))|
    ensures Passed(m, code, pos, next, controls)
    decreases Block(body), 0
  {
    var inner, s, last := controls + [Control(BLOCK, 0, false)], At(pos, [], controls), next - 1;
    BlockHeld(code, pos, BLOCK, StmtBytes(body));
    StmtChecks(m, code, body, pos + 2, last, inner);
    BlockChecks(m, code, pos, controls);
    EndChecks(m, code, last, controls, Control(BLOCK, 0, false));
    Onward(m, code, s, At(pos + 2, [], inner), At(last, [], inner));
    Onward(m, code, s, At(last, [], inner), At(next, [], controls));
  }

  lemma {:induction false} IfAccepted(m: Module, code: seq<byte>, condition: Expr, body: Stmt, pos: nat, next: nat,
                                      controls: seq<Control>)
    requires Offers(m) && ExprOk(condition) && Height(condition) <= 256 && StmtOk(body)
    requires |controls| + 1 + Nesting(body) <= 16
    requires Holds(code, pos, StmtBytes(If(condition, body))) && next == pos + |StmtBytes(If(condition, body))|
    ensures Passed(m, code, pos, next, controls)
    decreases If(condition, body), 0
  {
    var open, last := WasmPrograms.IfHeld(code, pos, next, condition, body);
    ExprChecks(m, code, condition, pos, open, [], controls);
    StmtChecks(m, code, body, open + 2, last, controls + [Control(IF, 0, false)]);
    ArmAccepted(m, code, pos, open, last, next, controls);
  }

  lemma ArmAccepted(m: Module, code: seq<byte>, pos: nat, open: nat, last: nat, next: nat, controls: seq<Control>)
    requires open + 2 <= last < |code| && code[open] == 0x04 && code[open + 1] == 0x40 && next == last + 1
    requires code[last] == 0x0b && |controls| < 16 && Pushed(m, code, pos, open, [], controls)
    requires Passed(m, code, open + 2, last, controls + [Control(IF, 0, false)])
    ensures Passed(m, code, pos, next, controls)
  {
    var inner, s := controls + [Control(IF, 0, false)], At(pos, [], controls);
    IfChecks(m, code, open, controls);
    EndChecks(m, code, last, controls, Control(IF, 0, false));
    Onward(m, code, s, At(open, [] + [I32], controls), At(open + 2, [], inner));
    Onward(m, code, s, At(open + 2, [], inner), At(last, [], inner));
    Onward(m, code, s, At(last, [], inner), At(next, [], controls));
  }

  lemma {:induction false} IfElseAccepted(m: Module, code: seq<byte>, condition: Expr, yes: Stmt, no: Stmt, pos: nat,
                                          next: nat, controls: seq<Control>)
    requires Offers(m) && ExprOk(condition) && Height(condition) <= 256 && StmtOk(yes) && StmtOk(no)
    requires |controls| + 1 + Nesting(yes) <= 16 && |controls| + 1 + Nesting(no) <= 16
    requires Holds(code, pos, StmtBytes(IfElse(condition, yes, no)))
    requires next == pos + |StmtBytes(IfElse(condition, yes, no))|
    ensures Passed(m, code, pos, next, controls)
    decreases IfElse(condition, yes, no), 0
  {
    var open, middle, last := WasmPrograms.IfElseHeld(code, pos, next, condition, yes, no);
    ExprChecks(m, code, condition, pos, open, [], controls);
    StmtChecks(m, code, yes, open + 2, middle, controls + [Control(IF, 0, false)]);
    StmtChecks(m, code, no, middle + 1, last, controls + [Control(IF, 0, true)]);
    ArmsAccepted(m, code, pos, open, middle, last, next, controls);
  }

  lemma ArmsAccepted(m: Module, code: seq<byte>, pos: nat, open: nat, middle: nat, last: nat, next: nat,
                     controls: seq<Control>)
    requires open + 2 <= middle < last < |code| && code[open] == 0x04 && code[open + 1] == 0x40 && next == last + 1
    requires code[middle] == 0x05 && code[last] == 0x0b
    requires |controls| < 16 && Pushed(m, code, pos, open, [], controls)
    requires Passed(m, code, open + 2, middle, controls + [Control(IF, 0, false)])
    requires Passed(m, code, middle + 1, last, controls + [Control(IF, 0, true)])
    ensures Passed(m, code, pos, next, controls)
  {
    var one, two := controls + [Control(IF, 0, false)], controls + [Control(IF, 0, true)];
    var s := At(pos, [], controls);
    IfChecks(m, code, open, controls);
    ElseChecks(m, code, middle, controls);
    EndChecks(m, code, last, controls, Control(IF, 0, true));
    Onward(m, code, s, At(open, [] + [I32], controls), At(open + 2, [], one));
    Onward(m, code, s, At(open + 2, [], one), At(middle, [], one));
    Onward(m, code, s, At(middle, [], one), At(middle + 1, [], two));
    Onward(m, code, s, At(middle + 1, [], two), At(last, [], two));
    Onward(m, code, s, At(last, [], two), At(next, [], controls));
  }

  // ------------------------------------------------------------------ whole programs

  lemma ReturnChecks(m: Module, code: seq<byte>, pos: nat)
    requires pos + 1 == |code| && code[pos] == 0x0b
    ensures Leads(m, code, At(pos, [] + [I32], [Control(FUNCTION, 0, false)]), Verifying(pos + 1, [], [], true))
  {
    assert ([] + [I32])[..0] == [];
    OneStep(m, code, At(pos, [] + [I32], [Control(FUNCTION, 0, false)]), Verifying(pos + 1, [], [], true));
  }

  lemma ProgramAccepted(m: Module, p: Program)
    requires ProgramOk(p) && Offers(m)
    ensures Verify(m, BodyBytes(p), Some(I32)) == Accepted
  {
    var code, top := BodyBytes(p), [Control(FUNCTION, 0, false)];
    var middle, last := WasmPrograms.ProgramHeld(code, p);
    StmtChecks(m, code, p.body, 1, middle, top);
    ExprChecks(m, code, p.result, middle, last, [], top);
    ReturnChecks(m, code, last);
    Onward(m, code, At(1, [], top), At(middle, [], top), At(last, [] + [I32], top));
    Onward(m, code, At(1, [], top), At(last, [] + [I32], top), Verifying(last + 1, [], [], true));
    Finishes(m, code, At(1, [], top), Verifying(last + 1, [], [], true));
  }

  /** Every program that fits is accepted, and its run is its meaning: the value of its result expression after its
      statements, or the trap on the way, for every fuel, memory and host. */
  lemma ProgramsMeanWhatTheySay(m: Module, p: Program, host: I.Host, fuel: nat, memory: seq<byte>, live: bool)
    requires ProgramOk(p) && Offers(m) && WasmMeaning.GoodHost(host) && |memory| <= I.MAX_MEMORY
    ensures Verify(m, BodyBytes(p), Some(I32)) == Accepted
    ensures I.Run(BodyBytes(p), host, fuel, memory, live)
            == Meaning(host, p, World(memory, live, 0, if fuel <= 1_000_000 then fuel else 1_000_000))
  {
    ProgramAccepted(m, p);
    WasmPrograms.ProgramsRun(p, host, fuel, memory, live);
  }
}
