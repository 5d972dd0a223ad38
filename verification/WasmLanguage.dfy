/** A small language of statements and expressions, its WebAssembly encoding, and what its programs mean.

    Nothing here looks at the verifier or at the interpreter's instructions: the encoding follows the WebAssembly
    binary format and the meaning is given on the syntax.
 */
module WasmLanguage {
  import opened Common
  import opened WasmLeb
  import I = WasmInterpreter

  datatype Operator = Plus | Minus | Times | Log

  datatype Expr =
    | Const(n: int)
    | IsZero(of: Expr)
    | Binary(op: Operator, left: Expr, right: Expr)
    | Load(address: Expr, offset: nat)

  datatype Stmt =
    | Nop
    | Then(first: Stmt, next: Stmt)
    | Store(address: Expr, offset: nat, value: Expr)
    | Drop(of: Expr)
    | Block(body: Stmt)
    | If(condition: Expr, body: Stmt)
    | IfElse(condition: Expr, yes: Stmt, no: Stmt)

  /** Statements, and an expression for the result. */
  datatype Program = Program(body: Stmt, result: Expr)

  // ------------------------------------------------------------------ the binary format

  function OperatorBytes(op: Operator): seq<byte> {
    match op
    case Plus => [0x6a]
    case Minus => [0x6b]
    case Times => [0x6c]
    case Log => [0x10, 0x00]
  }

  function ExprBytes(e: Expr): seq<byte> {
    match e
    case Const(n) => [0x41] + EncodeSigned(n)
    case IsZero(of) => ExprBytes(of) + [0x45]
    case Binary(op, left, right) => ExprBytes(left) + (ExprBytes(right) + OperatorBytes(op))
    case Load(address, offset) => ExprBytes(address) + ([0x28, 0x02] + EncodeUnsigned(offset))
  }

  function StmtBytes(s: Stmt): seq<byte> {
    match s
    case Nop => [0x01]
    case Then(first, next) => StmtBytes(first) + StmtBytes(next)
    case Store(address, offset, value) =>
      ExprBytes(address) + (ExprBytes(value) + ([0x36, 0x02] + EncodeUnsigned(offset)))
    case Drop(of) => ExprBytes(of) + [0x1a]
    case Block(body) => [0x02, 0x40] + (StmtBytes(body) + [0x0b])
    case If(condition, body) => ExprBytes(condition) + ([0x04, 0x40] + (StmtBytes(body) + [0x0b]))
    case IfElse(condition, yes, no) =>
      ExprBytes(condition) + ([0x04, 0x40] + (StmtBytes(yes) + ([0x05] + (StmtBytes(no) + [0x0b]))))
  }

  /** A function body without locals. */
  function BodyBytes(p: Program): seq<byte> {
    [0x00] + (StmtBytes(p.body) + (ExprBytes(p.result) + [0x0b]))
  }

  // ------------------------------------------------------------------ what fits

  predicate IsI32(n: int) { -0x8000_0000 <= n < 0x8000_0000 }

  predicate ExprOk(e: Expr) {
    match e
    case Const(n) => IsI32(n)
    case IsZero(of) => ExprOk(of)
    case Binary(_, left, right) => ExprOk(left) && ExprOk(right)
    case Load(address, offset) => ExprOk(address) && offset < U32_LIMIT
  }

  /** The operands an expression needs room for. */
  function Height(e: Expr): (h: nat)
    ensures h >= 1
  {
    match e
    case Const(_) => 1
    case IsZero(of) => Height(of)
    case Binary(_, left, right) => if Height(left) > Height(right) then Height(left) else Height(right) + 1
    case Load(address, _) => Height(address)
  }

  predicate StmtOk(s: Stmt) {
    match s
    case Nop => true
    case Then(first, next) => StmtOk(first) && StmtOk(next)
    case Store(address, offset, value) =>
      ExprOk(address) && ExprOk(value) && offset < U32_LIMIT && Height(address) <= 256 && Height(value) + 1 <= 256
    case Drop(of) => ExprOk(of) && Height(of) <= 256
    case Block(body) => StmtOk(body)
    case If(condition, body) => ExprOk(condition) && Height(condition) <= 256 && StmtOk(body)
    case IfElse(condition, yes, no) =>
      ExprOk(condition) && Height(condition) <= 256 && StmtOk(yes) && StmtOk(no)
  }

  function Nesting(s: Stmt): nat {
    match s
    case Then(first, next) => if Nesting(first) > Nesting(next) then Nesting(first) else Nesting(next)
    case Block(body) => Nesting(body) + 1
    case If(_, body) => Nesting(body) + 1
    case IfElse(_, yes, no) => 1 + if Nesting(yes) > Nesting(no) then Nesting(yes) else Nesting(no)
    case _ => 0
  }

  /** Constants and offsets of 32 bits, at most 256 operands at a time, and blocks at most fifteen deep. */
  predicate ProgramOk(p: Program) {
    StmtOk(p.body) && Nesting(p.body) <= 15 && ExprOk(p.result) && Height(p.result) <= 256
  }

  // ------------------------------------------------------------------ the meaning

  /** What a program works on: the memory, whether it is still there, the calls made and the fuel left. */
  datatype World = World(memory: seq<byte>, live: bool, calls: nat, fuel: nat)

  /** How a run ends. */
  type Ending = o: I.Outcome | !o.Continue? witness I.Return(0)

  datatype Answer = Gives(value: int, world: World) | Stops(outcome: Ending)

  datatype Effect = Leaves(world: World) | Halts(outcome: Ending)

  /** The number of 32 bits that differs from `n` by a multiple of 2^32. */
  function Narrow(n: int): int { (n + 0x8000_0000) % 0x1_0000_0000 - 0x8000_0000 }

  function WordAt(memory: seq<byte>, at: nat): int
    requires at + 4 <= |memory|
  {
    var a: int, b: int, c: int, d: int := memory[at], memory[at + 1], memory[at + 2], memory[at + 3];
    Narrow(a + 0x100 * b + 0x1_0000 * c + 0x100_0000 * d)
  }

  function WithWord(memory: seq<byte>, at: nat, n: int): seq<byte>
    requires at + 4 <= |memory|
  {
    memory[at := n % 0x100][at + 1 := n / 0x100 % 0x100][at + 2 := n / 0x1_0000 % 0x100]
          [at + 3 := n / 0x100_0000 % 0x100]
  }

  function Out(trap: I.Trap): Ending { I.Trapped(trap) }

  /** Every instruction costs one unit of fuel once its operands are there. */
  function Costs(w: World, value: int): Answer {
    if w.fuel == 0 then Stops(Out(I.FuelExhausted)) else Gives(value, w.(fuel := w.fuel - 1))
  }

  function Pays(w: World): Effect {
    if w.fuel == 0 then Halts(Out(I.FuelExhausted)) else Leaves(w.(fuel := w.fuel - 1))
  }

  /** The result of two operands; the host is told the pointer first. */
  function Apply(host: I.Host, op: Operator, a: int, b: int, w: World): Answer {
    match op
    case Plus => Costs(w, Narrow(a + b))
    case Minus => Costs(w, Narrow(a - b))
    case Times => Costs(w, Narrow(a * b))
    case Log =>
      var reply := host(w.calls, a, b, w.memory);
      if w.fuel == 0 then Stops(Out(I.FuelExhausted))
      else if reply.result.Err? then Stops(I.HostTrapped(reply.result.error))
      else Gives(if reply.result.value.Some? then reply.result.value.value.n else 0,
                 World(reply.memory, reply.live, w.calls + 1, w.fuel - 1))
  }

  /** An access of four bytes is in bounds, or it is one of the traps. */
  function Refusal(w: World, address: int, offset: nat): Option<Ending> {
    if w.fuel == 0 then Some(Out(I.FuelExhausted))
    else if !w.live then Some(Out(I.Cancelled))
    else if address < 0 || address + offset + 4 > |w.memory| then Some(Out(I.MemoryFault))
    else None
  }

  function Eval(host: I.Host, e: Expr, w: World): Answer
    decreases e, 1
  {
    match e
    case Const(n) => Costs(w, n)
    case IsZero(of) => EvalIsZero(host, of, w)
    case Binary(op, left, right) => EvalBinary(host, op, left, right, w)
    case Load(address, offset) => EvalLoad(host, address, offset, w)
  }

  function EvalIsZero(host: I.Host, of: Expr, w: World): Answer
    decreases IsZero(of), 0
  {
    var a := Eval(host, of, w);
    if a.Stops? then a else Costs(a.world, if a.value == 0 then 1 else 0)
  }

  /** The left operand comes first. */
  function EvalBinary(host: I.Host, op: Operator, left: Expr, right: Expr, w: World): Answer
    decreases Binary(op, left, right), 0
  {
    var a := Eval(host, left, w);
    if a.Stops? then a
    else
      var b := Eval(host, right, a.world);
      if b.Stops? then b else Apply(host, op, a.value, b.value, b.world)
  }

  function EvalLoad(host: I.Host, address: Expr, offset: nat, w: World): Answer
    decreases Load(address, offset), 0
  {
    var a := Eval(host, address, w);
    if a.Stops? then a else Fetch(a.world, a.value, offset)
  }

  function Fetch(w: World, at: int, offset: nat): Answer {
    var bad := Refusal(w, at, offset);
    if bad.Some? then Stops(bad.value) else Gives(WordAt(w.memory, at + offset), w.(fuel := w.fuel - 1))
  }

  function Put(w: World, at: int, offset: nat, value: int): Effect {
    var bad := Refusal(w, at, offset);
    if bad.Some? then Halts(bad.value)
    else Leaves(w.(memory := WithWord(w.memory, at + offset, value), fuel := w.fuel - 1))
  }

  function Exec(host: I.Host, s: Stmt, w: World): Effect
    decreases s, 1
  {
    match s
    case Nop => Pays(w)
    case Then(first, next) => ExecThen(host, first, next, w)
    case Store(address, offset, value) => ExecStore(host, address, offset, value, w)
    case Drop(of) => ExecDrop(host, of, w)
    case Block(body) => ExecBlock(host, body, w)
    case If(condition, body) => ExecIf(host, condition, body, w)
    case IfElse(condition, yes, no) => ExecIfElse(host, condition, yes, no, w)
  }

  function ExecThen(host: I.Host, first: Stmt, next: Stmt, w: World): Effect
    decreases Then(first, next), 0
  {
    var e := Exec(host, first, w);
    if e.Halts? then e else Exec(host, next, e.world)
  }

  /** The address comes before the value. */
  function ExecStore(host: I.Host, address: Expr, offset: nat, value: Expr, w: World): Effect {
    var a := Eval(host, address, w);
    if a.Stops? then Halts(a.outcome)
    else
      var v := Eval(host, value, a.world);
      if v.Stops? then Halts(v.outcome) else Put(v.world, a.value, offset, v.value)
  }

  function ExecDrop(host: I.Host, of: Expr, w: World): Effect {
    var a := Eval(host, of, w);
    if a.Stops? then Halts(a.outcome) else Pays(a.world)
  }

  function ExecBlock(host: I.Host, body: Stmt, w: World): Effect
    decreases Block(body), 0
  {
    var e := Pays(w);
    if e.Halts? then e else ThenPays(Exec(host, body, e.world))
  }

  /** The arm is taken on any value but zero. */
  function ExecIf(host: I.Host, condition: Expr, body: Stmt, w: World): Effect
    decreases If(condition, body), 0
  {
    var c := Chooses(Eval(host, condition, w));
    if c.Stops? then Halts(c.outcome)
    else if c.value != 0 then ThenPays(Exec(host, body, c.world))
    else Leaves(c.world)
  }

  function ExecIfElse(host: I.Host, condition: Expr, yes: Stmt, no: Stmt, w: World): Effect
    decreases IfElse(condition, yes, no), 0
  {
    var c := Chooses(Eval(host, condition, w));
    if c.Stops? then Halts(c.outcome)
    else if c.value != 0 then ThenPays(Exec(host, yes, c.world))
    else ThenPays(Exec(host, no, c.world))
  }

  /** Leaving a block costs one unit too. */
  function ThenPays(e: Effect): Effect { if e.Halts? then e else Pays(e.world) }

  function Chooses(a: Answer): Answer { if a.Stops? then a else Costs(a.world, a.value) }

  /** A run of a program: the value of its result expression after its statements, or the trap on the way. */
  function Meaning(host: I.Host, p: Program, w: World): Ending {
    var e := Exec(host, p.body, w);
    if e.Halts? then e.outcome
    else
      var a := Eval(host, p.result, e.world);
      if a.Stops? then a.outcome else if a.world.fuel == 0 then Out(I.FuelExhausted) else I.Return(a.value)
  }

  // ------------------------------------------------------------------ laws of the meaning

  lemma NarrowUnique(n: int, m: int)
    requires IsI32(m) && (n - m) % 0x1_0000_0000 == 0
    ensures Narrow(n) == m
  {
    var k := (n - m) / 0x1_0000_0000;
    DivisionUnique(n + 0x8000_0000, 0x1_0000_0000, k, m + 0x8000_0000);
  }

  /** A stored word is read back at its address, and the bytes elsewhere are as they were. */
  lemma StoredIsLoaded(memory: seq<byte>, at: nat, n: int, k: nat)
    requires at + 4 <= |memory| && IsI32(n) && k < |memory|
    ensures |WithWord(memory, at, n)| == |memory| && WordAt(WithWord(memory, at, n), at) == n
    ensures !(at <= k < at + 4) ==> WithWord(memory, at, n)[k] == memory[k]
  {
    var b := WithWord(memory, at, n);
    assert b[at] == n % 0x100 && b[at + 1] == n / 0x100 % 0x100;
    assert b[at + 2] == n / 0x1_0000 % 0x100 && b[at + 3] == n / 0x100_0000 % 0x100;
    SplitWord(n);
    NarrowUnique(n % 0x1_0000_0000, n);
  }

  /** The bytes of a number make it up, reduced to 32 bits. */
  lemma SplitWord(n: int)
    ensures n % 0x1_0000_0000
            == n % 0x100 + 0x100 * (n / 0x100 % 0x100) + 0x1_0000 * (n / 0x1_0000 % 0x100)
               + 0x100_0000 * (n / 0x100_0000 % 0x100)
  {
    var b := n / 0x100;
    var c := b / 0x100;
    var d := c / 0x100;
    SplitRemainder(n, 0x100_0000);
    SplitRemainder(b, 0x1_0000);
    SplitRemainder(c, 0x100);
    assert c == n / 0x1_0000 && d == n / 0x100_0000;
  }
}
