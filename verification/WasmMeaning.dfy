/** Programs mean what they say: the verifier of `src/wasm.rs` accepts the encoding of every program of
    `WasmLanguage` that fits, and its interpreter computes the program's meaning, trap for trap. */
module WasmMeaning {
  import opened Common
  import opened WasmLeb
  import opened WasmVerifier
  import opened WasmInterpreter
  import opened L = WasmLanguage
  import opened WasmSkips

  // ------------------------------------------------------------------ the machine

  /** The host answers in 32 bits and leaves a memory of the right size. */
  ghost predicate GoodHost(host: Host) {
    forall n, ptr, len, memory :: Replies(host, n, ptr, len, memory)
  }

  predicate Replies(host: Host, n: nat, ptr: int, len: int, memory: seq<byte>) {
    var r := host(n, ptr, len, memory);
    && |r.memory| <= MAX_MEMORY
    && (r.result.Ok? ==> r.result.value.Some? && r.result.value.value.V32? && IsI32(r.result.value.value.n))
  }

  predicate Sane(w: World) { |w.memory| <= MAX_MEMORY }

  function At(pos: nat, stack: seq<Value>, frames: seq<Frame>, w: World): Machine {
    Machine(pos, stack, frames, w.fuel, w.memory, w.live, w.calls)
  }

  predicate Goes(code: seq<byte>, host: Host, path: seq<Machine>, i: nat) {
    i + 1 < |path| && Execute(code, host, path[i]) == Continue(path[i + 1])
  }

  predicate Ends(code: seq<byte>, host: Host, path: seq<Machine>, i: nat, o: Outcome) {
    i < |path| && if o.Continue? then o.machine == path[i] else Execute(code, host, path[i]) == o
  }

  /** Machines that follow one another, the last of which is the outcome or comes to it. */
  ghost predicate Path(code: seq<byte>, host: Host, path: seq<Machine>, o: Outcome) {
    && path != []
    && (forall i: nat :: i + 1 < |path| ==> Goes(code, host, path, i))
    && (forall i: nat :: i + 1 == |path| ==> Ends(code, host, path, i, o))
  }

  ghost predicate Comes(code: seq<byte>, host: Host, m: Machine, o: Outcome) {
    exists path: seq<Machine> :: Path(code, host, path, o) && path[0] == m
  }

  /** The machine comes to this outcome, which is an ending or a machine it becomes. The bound variable keeps the
      path out of proofs that do not ask for it. */
  ghost predicate Reaches(code: seq<byte>, host: Host, m: Machine, o: Outcome) {
    forall start: Machine :: start == m ==> Comes(code, host, start, o)
  }

  /** The machine arrives with the answer on its stack, or stops. */
  function Answered(pos: nat, stack: seq<Value>, frames: seq<Frame>, a: Answer): Outcome {
    match a
    case Gives(v, w) => Continue(At(pos, stack + [V32(v)], frames, w))
    case Stops(o) => o
  }

  /** The machine arrives with the effect done, or stops. */
  function Done(pos: nat, stack: seq<Value>, frames: seq<Frame>, e: Effect): Outcome {
    match e
    case Leaves(w) => Continue(At(pos, stack, frames, w))
    case Halts(o) => o
  }

  lemma Onward(code: seq<byte>, host: Host, m: Machine, next: Machine, o: Outcome)
    requires Reaches(code, host, m, Continue(next)) && Reaches(code, host, next, o)
    ensures Reaches(code, host, m, o)
  {
    assert Comes(code, host, m, Continue(next)) && Comes(code, host, next, o);
    var p :| Path(code, host, p, Continue(next)) && p[0] == m;
    var q :| Path(code, host, q, o) && q[0] == next;
    PathsJoin(code, host, p, q, next, o);
  }

  lemma PathsJoin(code: seq<byte>, host: Host, p: seq<Machine>, q: seq<Machine>, next: Machine, o: Outcome)
    requires Path(code, host, p, Continue(next)) && Path(code, host, q, o) && q[0] == next
    ensures Path(code, host, p + q[1..], o) && (p + q[1..])[0] == p[0]
  {
    var path, n := p + q[1..], |p| - 1;
    assert Ends(code, host, p, n, Continue(next));
    forall i: nat | i + 1 < |path| ensures Goes(code, host, path, i) {
      if i < n {
        assert Goes(code, host, p, i);
      } else {
        assert Goes(code, host, q, i - n);
        assert path[i] == q[i - n] && path[i + 1] == q[i - n + 1];
      }
    }
    assert Ends(code, host, q, |q| - 1, o);
    assert path[|path| - 1] == q[|q| - 1];
  }

  lemma OneTurn(code: seq<byte>, host: Host, m: Machine)
    ensures Reaches(code, host, m, Execute(code, host, m))
  {
    var o := Execute(code, host, m);
    var path := if o.Continue? then [m, o.machine] else [m];
    assert Path(code, host, path, o);
  }

  /** A run that comes to an ending ends so. */
  lemma EndsSo(code: seq<byte>, host: Host, m: Machine, o: Outcome)
    requires Reaches(code, host, m, o) && !o.Continue?
    ensures RunFrom(code, host, m) == o
  {
    assert Comes(code, host, m, o);
    var path :| Path(code, host, path, o) && path[0] == m;
    RunsAlong(code, host, path, o, 0);
  }

  lemma {:induction false} RunsAlong(code: seq<byte>, host: Host, path: seq<Machine>, o: Outcome, i: nat)
    requires Path(code, host, path, o) && !o.Continue? && i < |path|
    ensures RunFrom(code, host, path[i]) == o
    decreases |path| - i
  {
    if i + 1 == |path| {
      assert Ends(code, host, path, i, o);
    } else {
      assert Goes(code, host, path, i);
      RunsAlong(code, host, path, o, i + 1);
    }
  }

  /** The answer is a 32-bit number, and the memory has a size a memory can have. */
  predicate SaneAnswer(a: Answer) { a.Gives? ==> IsI32(a.value) && Sane(a.world) }

  lemma {:induction false} EvalIsSane(host: Host, e: Expr, w: World)
    requires GoodHost(host) && ExprOk(e) && Sane(w)
    ensures SaneAnswer(Eval(host, e, w))
  {
    match e
    case Const(_) =>
    case IsZero(of) => EvalIsSane(host, of, w);
    case Binary(op, left, right) =>
      EvalIsSane(host, left, w);
      var a := Eval(host, left, w);
      if a.Gives? {
        EvalIsSane(host, right, a.world);
        var b := Eval(host, right, a.world);
        if b.Gives? {
          ApplyIsSane(host, op, a.value, b.value, b.world);
        }
      }
    case Load(address, _) => EvalIsSane(host, address, w);
  }

  lemma ApplyIsSane(host: Host, op: Operator, a: int, b: int, w: World)
    requires GoodHost(host) && Sane(w)
    ensures SaneAnswer(Apply(host, op, a, b, w))
  {
    assert Replies(host, w.calls, a, b, w.memory);
  }

  lemma {:induction false} ExecIsSane(host: Host, s: Stmt, w: World)
    requires GoodHost(host) && StmtOk(s) && Sane(w)
    ensures Exec(host, s, w).Leaves? ==> Sane(Exec(host, s, w).world)
  {
    match s
    case Nop =>
    case Then(first, next) =>
      ExecIsSane(host, first, w);
      if Exec(host, first, w).Leaves? {
        ExecIsSane(host, next, Exec(host, first, w).world);
      }
    case Store(address, offset, value) =>
      EvalIsSane(host, address, w);
      if Eval(host, address, w).Gives? {
        EvalIsSane(host, value, Eval(host, address, w).world);
      }
    case Drop(of) => EvalIsSane(host, of, w);
    case Block(body) =>
      if w.fuel > 0 {
        ExecIsSane(host, body, w.(fuel := w.fuel - 1));
      }
    case If(condition, body) =>
      EvalIsSane(host, condition, w);
      if Chooses(Eval(host, condition, w)).Gives? {
        ExecIsSane(host, body, Chooses(Eval(host, condition, w)).world);
      }
    case IfElse(condition, yes, no) =>
      EvalIsSane(host, condition, w);
      if Chooses(Eval(host, condition, w)).Gives? {
        ExecIsSane(host, yes, Chooses(Eval(host, condition, w)).world);
        ExecIsSane(host, no, Chooses(Eval(host, condition, w)).world);
      }
  }

  // ------------------------------------------------------------------ single instructions

  lemma WrapIsNarrow(n: int)
    ensures Wrap(32, n) == Narrow(n)
  {
    Pow2Table();
    var q, r := n / U32_LIMIT, n % U32_LIMIT;
    if 2 * r < U32_LIMIT {
      NarrowUnique(n, r);
    } else {
      assert (n - (r - U32_LIMIT)) == (q + 1) * U32_LIMIT;
      DivisionUnique((q + 1) * U32_LIMIT, U32_LIMIT, q + 1, 0);
      NarrowUnique(n, r - U32_LIMIT);
    }
  }

  lemma NoFuel(code: seq<byte>, host: Host, m: Machine)
    requires m.pos < |code| && m.fuel == 0
    ensures Reaches(code, host, m, Trapped(FuelExhausted))
  {
    OneTurn(code, host, m);
  }

  lemma ConstTurn(code: seq<byte>, host: Host, m: Machine, n: int, next: nat)
    requires m.pos < |code| && code[m.pos] == 0x41 && DecodeI32(code, m.pos + 1) == Got(n, next)
    requires |m.stack| < 256 && m.fuel > 0
    ensures Reaches(code, host, m, Continue(m.(pos := next, stack := m.stack + [V32(n)], fuel := m.fuel - 1)))
  {
    OneTurn(code, host, m);
  }

  lemma ConstRuns(code: seq<byte>, host: Host, n: int, pos: nat, next: nat, stack: seq<Value>, frames: seq<Frame>,
                  w: World)
    requires pos < |code| && code[pos] == 0x41 && DecodeI32(code, pos + 1) == Got(n, next) && |stack| < 256
    ensures Reaches(code, host, At(pos, stack, frames, w), Answered(next, stack, frames, Costs(w, n)))
  {
    if w.fuel == 0 {
      NoFuel(code, host, At(pos, stack, frames, w));
    } else {
      ConstTurn(code, host, At(pos, stack, frames, w), n, next);
    }
  }

  lemma IsZeroRuns(code: seq<byte>, host: Host, v: int, pos: nat, stack: seq<Value>, frames: seq<Frame>, w: World)
    requires pos < |code| && code[pos] == 0x45 && |stack| < 256
    ensures Reaches(code, host, At(pos, stack + [V32(v)], frames, w),
                    Answered(pos + 1, stack, frames, Costs(w, if v == 0 then 1 else 0)))
  {
    assert Front(stack + [V32(v)]) == stack;
    OneTurn(code, host, At(pos, stack + [V32(v)], frames, w));
  }

  lemma TwoPopped(m: Machine, stack: seq<Value>, a: int, b: int)
    requires m.stack == stack + [V32(a)] + [V32(b)]
    ensures PopTwo(m, I32) == Two(a, b, m.(stack := stack))
  {
    assert Front(m.stack) == stack + [V32(a)] && Front(stack + [V32(a)]) == stack;
  }

  function Arithmetic(op: Operator, a: int, b: int): int {
    match op
    case Plus => Narrow(a + b)
    case Minus => Narrow(a - b)
    case _ => Narrow(a * b)
  }

  lemma Combines(op: Operator, a: int, b: int)
    requires !op.Log?
    ensures Combine(OperatorBytes(op)[0], a, b) == V32(Arithmetic(op, a, b))
  {
    WrapIsNarrow(a + b);
    WrapIsNarrow(a - b);
    WrapIsNarrow(a * b);
  }

  lemma ArithmeticTurn(code: seq<byte>, host: Host, m: Machine, stack: seq<Value>, a: int, b: int, v: int)
    requires m.pos < |code| && 0x6a <= code[m.pos] <= 0x6c && Combine(code[m.pos], a, b) == V32(v)
    requires |stack| < 256 && m.fuel > 0 && m.stack == stack + [V32(a)] + [V32(b)]
    ensures Reaches(code, host, m, Continue(m.(pos := m.pos + 1, stack := stack + [V32(v)], fuel := m.fuel - 1)))
  {
    ArithmeticIs(code[m.pos], m.(pos := m.pos + 1, fuel := m.fuel - 1), stack, a, b, v);
    OneTurn(code, host, m);
  }

  lemma ArithmeticIs(op: byte, m: Machine, stack: seq<Value>, a: int, b: int, v: int)
    requires 0x6a <= op <= 0x6c && Combine(op, a, b) == V32(v)
    requires |stack| < 256 && m.stack == stack + [V32(a)] + [V32(b)]
    ensures ExecuteArithmetic(op, m) == Continue(m.(stack := stack + [V32(v)]))
  {
    TwoPopped(m, stack, a, b);
  }

  lemma OperatorRuns(code: seq<byte>, host: Host, op: Operator, a: int, b: int, pos: nat, stack: seq<Value>,
                     frames: seq<Frame>, w: World)
    requires GoodHost(host) && Holds(code, pos, OperatorBytes(op)) && |stack| < 256
    ensures Reaches(code, host, At(pos, stack + [V32(a)] + [V32(b)], frames, w),
                    Answered(pos + |OperatorBytes(op)|, stack, frames, Apply(host, op, a, b, w)))
  {
    var m := At(pos, stack + [V32(a)] + [V32(b)], frames, w);
    if w.fuel == 0 {
      NoFuel(code, host, m);
    } else if op.Log? {
      LogRuns(code, host, a, b, pos, stack, frames, w);
    } else {
      HoldsOne(code, pos, OperatorBytes(op)[0]);
      Combines(op, a, b);
      ArithmeticTurn(code, host, m, stack, a, b, Arithmetic(op, a, b));
    }
  }

  lemma LogTurn(code: seq<byte>, host: Host, m: Machine)
    requires Holds(code, m.pos, [0x10, 0x00]) && m.fuel > 0
    ensures Reaches(code, host, m, ExecuteCall(host, 0, m.(pos := m.pos + 2, fuel := m.fuel - 1)))
  {
    HoldsTwo(code, m.pos, 0x10, 0x00);
    DecodesSmall(code, m.pos + 1);
    OneTurn(code, host, m);
  }

  lemma LogRuns(code: seq<byte>, host: Host, a: int, b: int, pos: nat, stack: seq<Value>, frames: seq<Frame>, w: World)
    requires GoodHost(host) && Holds(code, pos, [0x10, 0x00]) && |stack| < 256 && w.fuel > 0
    ensures Reaches(code, host, At(pos, stack + [V32(a)] + [V32(b)], frames, w),
                    Answered(pos + 2, stack, frames, Apply(host, Operator.Log, a, b, w)))
  {
    var m := At(pos, stack + [V32(a)] + [V32(b)], frames, w);
    LogTurn(code, host, m);
    TwoPopped(m.(pos := pos + 2, fuel := m.fuel - 1), stack, a, b);
    assert Replies(host, w.calls, a, b, w.memory);
  }

  // ------------------------------------------------------------------ memory

  /** The interpreter's bounds check, for an address and a memory of their real sizes. */
  lemma RangeIs(w: World, address: int, offset: nat)
    requires Sane(w) && IsI32(address) && offset < U32_LIMIT
    ensures Range(w.live, |w.memory|, AsAddress(address), offset, 4)
            == if !w.live then Err(Cancelled)
               else if address < 0 || address + offset + 4 > |w.memory| then Err(MemoryFault)
               else Ok(address + offset)
  {
    if address < 0 {
      DivisionUnique(address, U64_LIMIT, -1, U64_LIMIT + address);
    } else {
      DivisionUnique(address, U64_LIMIT, 0, address);
    }
  }

  lemma WordReads(memory: seq<byte>, at: nat)
    requires at + 4 <= |memory|
    ensures AsSigned(32, ReadLe(memory, at, 4)) == WordAt(memory, at)
  {
    Pow2Table();
    var a: int, b: int, c: int, d: int := memory[at], memory[at + 1], memory[at + 2], memory[at + 3];
    var n := a + 0x100 * b + 0x1_0000 * c + 0x100_0000 * d;
    assert ReadLe(memory, at + 4, 0) == 0;
    assert ReadLe(memory, at + 3, 1) == d;
    assert ReadLe(memory, at + 2, 2) == c + 0x100 * d;
    assert ReadLe(memory, at + 1, 3) == b + 0x100 * c + 0x1_0000 * d;
    assert ReadLe(memory, at, 4) == n;
    WrapIsNarrow(n);
    DivisionUnique(n, U32_LIMIT, 0, n);
  }

  lemma WordWrites(memory: seq<byte>, at: nat, n: int)
    requires at + 4 <= |memory|
    ensures WriteWord(memory, at, n) == WithWord(memory, at, n)
  {
    var b := n / 0x100;
    var c := b / 0x100;
    var d := c / 0x100;
    assert WriteLe(d, 1) == [d % 0x100];
    assert WriteLe(c, 2) == [c % 0x100, d % 0x100];
    assert WriteLe(b, 3) == [b % 0x100, c % 0x100, d % 0x100];
    assert WriteLe(n, 4) == [n % 0x100, b % 0x100, c % 0x100, d % 0x100];
    assert c == n / 0x1_0000 && d == n / 0x100_0000;
  }

  lemma LoadTurn(code: seq<byte>, host: Host, m: Machine, offset: nat, next: nat)
    requires AccessAt(code, m.pos, LOAD, offset, next) && m.fuel > 0
    ensures Reaches(code, host, m, ExecuteLoad(offset, m.(pos := next, fuel := m.fuel - 1)))
  {
    OneTurn(code, host, m);
  }

  lemma StoreTurn(code: seq<byte>, host: Host, m: Machine, offset: nat, next: nat)
    requires AccessAt(code, m.pos, STORE, offset, next) && m.fuel > 0
    ensures Reaches(code, host, m, ExecuteStore(offset, m.(pos := next, fuel := m.fuel - 1)))
  {
    OneTurn(code, host, m);
  }

  lemma LoadRuns(code: seq<byte>, host: Host, at: int, offset: nat, pos: nat, next: nat, stack: seq<Value>,
                 frames: seq<Frame>, w: World)
    requires AccessAt(code, pos, LOAD, offset, next) && offset < U32_LIMIT && |stack| < 256 && IsI32(at) && Sane(w)
    ensures Reaches(code, host, At(pos, stack + [V32(at)], frames, w),
                    Answered(next, stack, frames, Fetch(w, at, offset)))
  {
    var m := At(pos, stack + [V32(at)], frames, w);
    if w.fuel == 0 {
      NoFuel(code, host, m);
    } else {
      LoadTurn(code, host, m, offset, next);
      LoadIs(w, at, offset, next, stack, frames);
    }
  }

  lemma LoadIs(w: World, at: int, offset: nat, pos: nat, stack: seq<Value>, frames: seq<Frame>)
    requires offset < U32_LIMIT && |stack| < 256 && IsI32(at) && Sane(w) && w.fuel > 0
    ensures ExecuteLoad(offset, At(pos, stack + [V32(at)], frames, w.(fuel := w.fuel - 1)))
            == Answered(pos, stack, frames, Fetch(w, at, offset))
  {
    assert Front(stack + [V32(at)]) == stack;
    RangeIs(w, at, offset);
    if Refusal(w, at, offset).None? {
      WordReads(w.memory, at + offset);
    }
  }

  lemma StoreRuns(code: seq<byte>, host: Host, at: int, offset: nat, v: int, pos: nat, next: nat, stack: seq<Value>,
                  frames: seq<Frame>, w: World)
    requires AccessAt(code, pos, STORE, offset, next) && offset < U32_LIMIT && IsI32(at) && Sane(w)
    ensures Reaches(code, host, At(pos, stack + [V32(at)] + [V32(v)], frames, w),
                    Done(next, stack, frames, Put(w, at, offset, v)))
  {
    var m := At(pos, stack + [V32(at)] + [V32(v)], frames, w);
    if w.fuel == 0 {
      NoFuel(code, host, m);
    } else {
      StoreTurn(code, host, m, offset, next);
      StoreIs(w, at, offset, v, next, stack, frames);
    }
  }

  lemma StoreIs(w: World, at: int, offset: nat, v: int, pos: nat, stack: seq<Value>, frames: seq<Frame>)
    requires offset < U32_LIMIT && IsI32(at) && Sane(w) && w.fuel > 0
    ensures ExecuteStore(offset, At(pos, stack + [V32(at)] + [V32(v)], frames, w.(fuel := w.fuel - 1)))
            == Done(pos, stack, frames, Put(w, at, offset, v))
  {
    TwoPopped(At(pos, stack + [V32(at)] + [V32(v)], frames, w.(fuel := w.fuel - 1)), stack, at, v);
    RangeIs(w, at, offset);
    if Refusal(w, at, offset).None? {
      WordWrites(w.memory, at + offset, v);
    }
  }

  // ------------------------------------------------------------------ expressions

  /** Evaluating the expression from here to there comes to its value. */
  ghost predicate Evaluates(code: seq<byte>, host: Host, e: Expr, pos: nat, next: nat, stack: seq<Value>,
                            frames: seq<Frame>, w: World) {
    Reaches(code, host, At(pos, stack, frames, w), Answered(next, stack, frames, Eval(host, e, w)))
  }

  lemma {:induction false} ExprRuns(code: seq<byte>, host: Host, e: Expr, pos: nat, next: nat, stack: seq<Value>,
                                    frames: seq<Frame>, w: World)
    requires GoodHost(host) && ExprOk(e) && Sane(w) && |stack| + Height(e) <= 256
    requires Holds(code, pos, ExprBytes(e)) && next == pos + |ExprBytes(e)|
    ensures Evaluates(code, host, e, pos, next, stack, frames, w)
    decreases e, 1
  {
    match e
    case Const(n) => ConstCase(code, host, n, pos, next, stack, frames, w);
    case IsZero(of) =>
      HoldsParts(code, pos, ExprBytes(of), [0x45]);
      ExprRuns(code, host, of, pos, next - 1, stack, frames, w);
      IsZeroCase(code, host, of, pos, next - 1, stack, frames, w);
    case Binary(op, left, right) =>
      var middle, last := BinaryHeld(code, pos, next, op, left, right);
      BinaryRuns(code, host, op, left, right, pos, middle, last, stack, frames, w);
    case Load(address, offset) =>
      var last := LoadHeld(code, pos, next, address, offset);
      ExprRuns(code, host, address, pos, last, stack, frames, w);
      EvalIsSane(host, address, w);
      LoadCase(code, host, address, offset, pos, last, next, stack, frames, w);
  }

  lemma ConstCase(code: seq<byte>, host: Host, n: int, pos: nat, next: nat, stack: seq<Value>, frames: seq<Frame>,
                  w: World)
    requires IsI32(n) && |stack| < 256 && Holds(code, pos, ExprBytes(Const(n))) && next == pos + |ExprBytes(Const(n))|
    ensures Evaluates(code, host, Const(n), pos, next, stack, frames, w)
  {
    HoldsByte(code, pos, 0x41, EncodeSigned(n));
    DecodesI32(code, pos + 1, n);
    ConstRuns(code, host, n, pos, next, stack, frames, w);
  }

  lemma {:induction false} BinaryRuns(code: seq<byte>, host: Host, op: Operator, left: Expr, right: Expr, pos: nat,
                                      middle: nat, last: nat, stack: seq<Value>, frames: seq<Frame>, w: World)
    requires GoodHost(host) && ExprOk(left) && ExprOk(right) && Sane(w)
    requires |stack| + Height(left) <= 256 && |stack| + 1 + Height(right) <= 256
    requires Holds(code, pos, ExprBytes(left)) && middle == pos + |ExprBytes(left)|
    requires Holds(code, middle, ExprBytes(right)) && last == middle + |ExprBytes(right)|
    requires Holds(code, last, OperatorBytes(op))
    ensures Evaluates(code, host, Binary(op, left, right), pos, last + |OperatorBytes(op)|, stack, frames, w)
    decreases Binary(op, left, right), 0
  {
    ExprRuns(code, host, left, pos, middle, stack, frames, w);
    EvalIsSane(host, left, w);
    var a := Eval(host, left, w);
    if a.Gives? {
      ExprRuns(code, host, right, middle, last, stack + [V32(a.value)], frames, a.world);
    }
    BinaryCase(code, host, op, left, right, pos, middle, last, stack, frames, w);
  }

  lemma IsZeroCase(code: seq<byte>, host: Host, of: Expr, pos: nat, last: nat, stack: seq<Value>, frames: seq<Frame>,
                   w: World)
    requires Evaluates(code, host, of, pos, last, stack, frames, w) && |stack| < 256 && Holds(code, last, [0x45])
    ensures Evaluates(code, host, IsZero(of), pos, last + 1, stack, frames, w)
  {
    ThenIsZero(code, host, At(pos, stack, frames, w), last, stack, frames, Eval(host, of, w));
    assert Eval(host, IsZero(of), w) == EvalIsZero(host, of, w);
  }

  lemma LoadCase(code: seq<byte>, host: Host, address: Expr, offset: nat, pos: nat, last: nat, next: nat,
                 stack: seq<Value>, frames: seq<Frame>, w: World)
    requires Evaluates(code, host, address, pos, last, stack, frames, w) && |stack| < 256
    requires SaneAnswer(Eval(host, address, w)) && offset < U32_LIMIT && AccessAt(code, last, LOAD, offset, next)
    ensures Evaluates(code, host, Load(address, offset), pos, next, stack, frames, w)
  {
    ThenLoad(code, host, At(pos, stack, frames, w), last, stack, frames, Eval(host, address, w), offset, next);
    assert Eval(host, Load(address, offset), w) == EvalLoad(host, address, offset, w);
  }

  lemma LoadHeld(code: seq<byte>, pos: nat, next: nat, address: Expr, offset: nat) returns (last: nat)
    requires offset < U32_LIMIT && Holds(code, pos, ExprBytes(Load(address, offset)))
    requires next == pos + |ExprBytes(Load(address, offset))|
    ensures Holds(code, pos, ExprBytes(address)) && last == pos + |ExprBytes(address)|
    ensures AccessAt(code, last, LOAD, offset, next)
  {
    last := pos + |ExprBytes(address)|;
    HoldsParts(code, pos, ExprBytes(address), [0x28, 0x02] + EncodeUnsigned(offset));
    DecodesAccess(code, last, LOAD, offset);
  }

  lemma BinaryHeld(code: seq<byte>, pos: nat, next: nat, op: Operator, left: Expr, right: Expr)
    returns (middle: nat, last: nat)
    requires Holds(code, pos, ExprBytes(Binary(op, left, right)))
    requires next == pos + |ExprBytes(Binary(op, left, right))|
    ensures Holds(code, pos, ExprBytes(left)) && middle == pos + |ExprBytes(left)|
    ensures Holds(code, middle, ExprBytes(right)) && last == middle + |ExprBytes(right)|
    ensures Holds(code, last, OperatorBytes(op)) && next == last + |OperatorBytes(op)|
  {
    middle := pos + |ExprBytes(left)|;
    last := middle + |ExprBytes(right)|;
    HoldsParts(code, pos, ExprBytes(left), ExprBytes(right) + OperatorBytes(op));
    HoldsParts(code, middle, ExprBytes(right), OperatorBytes(op));
  }

  lemma BinaryCase(code: seq<byte>, host: Host, op: Operator, left: Expr, right: Expr, pos: nat, middle: nat,
                   last: nat, stack: seq<Value>, frames: seq<Frame>, w: World)
    requires GoodHost(host) && |stack| < 256 && Holds(code, last, OperatorBytes(op))
    requires Evaluates(code, host, left, pos, middle, stack, frames, w)
    requires var a := Eval(host, left, w);
             a.Gives? ==> Evaluates(code, host, right, middle, last, stack + [V32(a.value)], frames, a.world)
    ensures Evaluates(code, host, Binary(op, left, right), pos, last + |OperatorBytes(op)|, stack, frames, w)
  {
    var a := Eval(host, left, w);
    assert Eval(host, Binary(op, left, right), w) == EvalBinary(host, op, left, right, w);
    if a.Gives? {
      ThenOperator(code, host, At(pos, stack, frames, w), middle, last, stack, frames, a,
                   Eval(host, right, a.world), op);
    }
  }

  lemma ThenIsZero(code: seq<byte>, host: Host, m: Machine, pos: nat, stack: seq<Value>, frames: seq<Frame>, a: Answer)
    requires Reaches(code, host, m, Answered(pos, stack, frames, a)) && Holds(code, pos, [0x45]) && |stack| < 256
    ensures Reaches(code, host, m, Answered(pos + 1, stack, frames,
                      if a.Stops? then a else Costs(a.world, if a.value == 0 then 1 else 0)))
  {
    if a.Gives? {
      HoldsOne(code, pos, 0x45);
      IsZeroRuns(code, host, a.value, pos, stack, frames, a.world);
      Onward(code, host, m, At(pos, stack + [V32(a.value)], frames, a.world),
             Answered(pos + 1, stack, frames, Costs(a.world, if a.value == 0 then 1 else 0)));
    }
  }

  lemma ThenLoad(code: seq<byte>, host: Host, m: Machine, pos: nat, stack: seq<Value>, frames: seq<Frame>, a: Answer,
                 offset: nat, next: nat)
    requires Reaches(code, host, m, Answered(pos, stack, frames, a)) && |stack| < 256 && SaneAnswer(a)
    requires offset < U32_LIMIT && AccessAt(code, pos, LOAD, offset, next)
    ensures Reaches(code, host, m, Answered(next, stack, frames,
                                            if a.Stops? then a else Fetch(a.world, a.value, offset)))
  {
    if a.Gives? {
      LoadRuns(code, host, a.value, offset, pos, next, stack, frames, a.world);
      Onward(code, host, m, At(pos, stack + [V32(a.value)], frames, a.world),
             Answered(next, stack, frames, Fetch(a.world, a.value, offset)));
    }
  }

  lemma ThenOperator(code: seq<byte>, host: Host, m: Machine, middle: nat, pos: nat, stack: seq<Value>,
                     frames: seq<Frame>, a: Answer, b: Answer, op: Operator)
    requires GoodHost(host) && |stack| < 256 && Holds(code, pos, OperatorBytes(op)) && a.Gives?
    requires Reaches(code, host, m, Answered(middle, stack, frames, a))
    requires Reaches(code, host, At(middle, stack + [V32(a.value)], frames, a.world),
                     Answered(pos, stack + [V32(a.value)], frames, b))
    ensures Reaches(code, host, m, Answered(pos + |OperatorBytes(op)|, stack, frames,
                      if b.Stops? then b else Apply(host, op, a.value, b.value, b.world)))
  {
    var first := stack + [V32(a.value)];
    Onward(code, host, m, At(middle, first, frames, a.world), Answered(pos, first, frames, b));
    if b.Gives? {
      OperatorRuns(code, host, op, a.value, b.value, pos, stack, frames, b.world);
      Onward(code, host, m, At(pos, first + [V32(b.value)], frames, b.world),
             Answered(pos + |OperatorBytes(op)|, stack, frames, Apply(host, op, a.value, b.value, b.world)));
    }
  }

  // ------------------------------------------------------------------ 64-bit sums

  predicate IsI64(n: int) { -0x8000_0000_0000_0000 <= n < 0x8000_0000_0000_0000 }

  /** The number of 64 bits that differs from `n` by a multiple of 2^64. */
  function Narrow64(n: int): int { (n + 0x8000_0000_0000_0000) % 0x1_0000_0000_0000_0000 - 0x8000_0000_0000_0000 }

  lemma Pow64()
    ensures Pow2(64) == U64_LIMIT
  {
    Pow2Table();
    Pow2Sum(32, 32);
  }

  lemma Wrap64IsNarrow(n: int)
    ensures Wrap(64, n) == Narrow64(n)
  {
    Pow64();
    var q, r := n / U64_LIMIT, n % U64_LIMIT;
    if 2 * r < U64_LIMIT {
      DivisionUnique(n + 0x8000_0000_0000_0000, U64_LIMIT, q, r + 0x8000_0000_0000_0000);
    } else {
      DivisionUnique(n + 0x8000_0000_0000_0000, U64_LIMIT, q + 1, r - 0x8000_0000_0000_0000);
    }
  }

  lemma DecodesI64(code: seq<byte>, pos: nat, n: int)
    requires IsI64(n) && Holds(code, pos, EncodeSigned(n))
    ensures DecodeI64(code, pos) == Got(n, pos + |EncodeSigned(n)|)
  {
    var e := EncodeSigned(n);
    assert code == code[..pos] + e + code[pos + |e|..];
    I64RoundTrip(n, code[..pos], code[pos + |e|..]);
  }

  lemma WideConstTurn(code: seq<byte>, host: Host, m: Machine, n: int, next: nat)
    requires m.pos < |code| && code[m.pos] == 0x42 && DecodeI64(code, m.pos + 1) == Got(n, next)
    requires |m.stack| < 256 && m.fuel > 0
    ensures Reaches(code, host, m, Continue(m.(pos := next, stack := m.stack + [V64(n)], fuel := m.fuel - 1)))
  {
    OneTurn(code, host, m);
  }

  lemma WideConstRuns(code: seq<byte>, host: Host, n: int, m: Machine, next: nat)
    requires IsI64(n) && Holds(code, m.pos, [0x42] + EncodeSigned(n)) && next == m.pos + 1 + |EncodeSigned(n)|
    requires |m.stack| < 256 && m.fuel > 0
    ensures Reaches(code, host, m, Continue(m.(pos := next, stack := m.stack + [V64(n)], fuel := m.fuel - 1)))
  {
    HoldsByte(code, m.pos, 0x42, EncodeSigned(n));
    DecodesI64(code, m.pos + 1, n);
    WideConstTurn(code, host, m, n, next);
  }

  lemma WideAddTurn(code: seq<byte>, host: Host, m: Machine, stack: seq<Value>, a: int, b: int)
    requires m.pos < |code| && code[m.pos] == 0x7c && m.fuel > 0 && |stack| < 256
    requires m.stack == stack + [V64(a)] + [V64(b)]
    ensures Reaches(code, host, m,
                    Continue(m.(pos := m.pos + 1, stack := stack + [V64(Narrow64(a + b))], fuel := m.fuel - 1)))
  {
    assert Front(m.stack) == stack + [V64(a)] && Front(stack + [V64(a)]) == stack;
    Wrap64IsNarrow(a + b);
    OneTurn(code, host, m);
  }

  /** Two 64-bit constants and their sum: three turns leave the sum, wrapped to 64 bits, on the stack. */
  lemma WideSumRuns(code: seq<byte>, host: Host, a: int, b: int, m: Machine, middle: nat, last: nat)
    requires IsI64(a) && Holds(code, m.pos, [0x42] + EncodeSigned(a)) && middle == m.pos + 1 + |EncodeSigned(a)|
    requires IsI64(b) && Holds(code, middle, [0x42] + EncodeSigned(b)) && last == middle + 1 + |EncodeSigned(b)|
    requires last < |code| && code[last] == 0x7c && |m.stack| + 2 <= 256 && m.fuel >= 3
    ensures Reaches(code, host, m,
                    Continue(m.(pos := last + 1, stack := m.stack + [V64(Narrow64(a + b))], fuel := m.fuel - 3)))
  {
    var one := m.(pos := middle, stack := m.stack + [V64(a)], fuel := m.fuel - 1);
    var two := one.(pos := last, stack := one.stack + [V64(b)], fuel := one.fuel - 1);
    WideConstRuns(code, host, a, m, middle);
    WideConstRuns(code, host, b, one, last);
    WideAddTurn(code, host, two, m.stack, a, b);
    Onward(code, host, m, one, Continue(two));
    Onward(code, host, m, two,
           Continue(two.(pos := last + 1, stack := m.stack + [V64(Narrow64(a + b))], fuel := two.fuel - 1)));
  }
}
