/** The byte-level interpreter of `src/wasm.rs`.

    `Execute` is one turn of the loop in `Instance::run`. It shares nothing with the verifier but
    the decoders: where a block ends is rediscovered by `Scan`, the byte scan of `find_control_end`.
    The Log host is an oracle: its reply to each call is an argument of the model.
 */
module WasmInterpreter {
  import opened Common
  import opened WasmLeb
  import opened WasmCursor
  import opened V = WasmVerifier

  const MAX_FUEL := 1_000_000
  const MAX_MEMORY := 65_536

  datatype Trap =
    | FuelExhausted
    | StackOverflow
    | StackUnderflow
    | MemoryFault
    | TypeMismatch
    | HostDenied
    | Unreachable
    | Cancelled

  datatype Value = V32(n: int) | V64(n: int)

  function Tag(v: Value): ValType { if v.V32? then I32 else I64 }

  /** What the host answered, and the linear memory as it left it. */
  datatype HostReply = HostReply(result: Result<Option<Value>, Trap>, memory: seq<byte>, live: bool)

  /** The reply to the n-th call, given its two arguments and the memory. */
  type Host = (nat, int, int, seq<byte>) -> HostReply

  datatype Frame = Frame(kind: byte, end: nat)

  datatype Machine = Machine(
    pos: nat, stack: seq<Value>, frames: seq<Frame>, fuel: nat, memory: seq<byte>, live: bool, calls: nat)

  /** The interpreter's own traps are kept apart from the ones the host asked for. */
  datatype Outcome = Continue(machine: Machine) | Return(value: int) | Trapped(trap: Trap) | HostTrapped(trap: Trap)

  // ------------------------------------------------------------------ finding block ends

  datatype Found = Found(elseAt: Option<nat>, endAt: nat) | Lost

  /** The scan of `find_control_end`: its skips differ from the verifier's, above all for
      `i64.const`, whose immediate it walks into. Every failure is the same trap. */
  function Scan(code: seq<byte>, pos: nat, depth: nat, elseAt: Option<nat>): (r: Found)
    requires pos <= |code|
    ensures r.Found? ==> pos <= r.endAt < |code|
    ensures r.Found? && r.elseAt.Some? ==> r.elseAt == elseAt || pos <= r.elseAt.value < |code|
    decreases |code| - pos
  {
    if pos == |code| then Lost
    else
      var op, p := code[pos], pos + 1;
      if BLOCK <= op <= IF then
        if p == |code| || code[p] != 0x40 then Lost else Scan(code, p + 1, depth + 1, elseAt)
      else if op == ELSE && depth == 0 then
        if elseAt.Some? then Lost else Scan(code, p, depth, Some(pos))
      else if op == END then
        if depth == 0 then Found(elseAt, pos) else Scan(code, p, depth - 1, elseAt)
      else
        match ScanSkip(code, op, p)
        case None => Lost
        case Some(next) => Scan(code, next, depth, elseAt)
  }

  /** How far the scan moves past an instruction that is not a block boundary. */
  function ScanSkip(code: seq<byte>, op: byte, p: nat): (r: Option<nat>)
    requires p <= |code|
    ensures r.Some? ==> p <= r.value <= |code|
  {
    if op == CALL || 0x20 <= op <= 0x22 then NextOf(DecodeU32(code, p))
    else if op == LOAD || op == STORE then
      match DecodeU32(code, p)
      case Fail(_) => None
      case Got(_, next) => NextOf(DecodeU32(code, next))
    else if op == CONST32 then NextOf(DecodeI32(code, p))
    else Some(p)
  }

  function NextOf(d: Decoded): Option<nat> { if d.Got? then Some(d.next) else None }

  // ------------------------------------------------------------------ linear memory

  function CheckedAdd(a: nat, b: nat): Option<nat> {
    if a + b < U64_LIMIT then Some(a + b) else None
  }

  /** `i32 as usize` sign-extends. */
  function AsAddress(n: int): nat { n % U64_LIMIT }

  function Range(live: bool, size: nat, address: nat, offset: nat, length: nat): Result<nat, Trap> {
    if !live then Err(Cancelled)
    else
      match CheckedAdd(address, offset)
      case None => Err(MemoryFault)
      case Some(start) =>
        match CheckedAdd(start, length)
        case None => Err(MemoryFault)
        case Some(end) => if end <= size then Ok(end - length) else Err(MemoryFault)
  }

  function WriteWord(b: seq<byte>, at: nat, n: int): seq<byte>
    requires at + 4 <= |b|
  {
    b[..at] + WriteLe(n, 4) + b[at + 4..]
  }

  function Wrap(width: nat, n: int): int { AsSigned(width, n % Pow2(width)) }

  // ------------------------------------------------------------------ one instruction

  /** Pops an operand of the given type: underflow is seen before the wrong tag. */
  function PopValue(stack: seq<Value>, expected: ValType): Result<int, Trap> {
    if stack == [] then Err(StackUnderflow)
    else if Tag(Last(stack)) == expected then Ok(Last(stack).n)
    else Err(Trap.TypeMismatch)
  }

  function PushValue(m: Machine, v: Value): Outcome {
    if |m.stack| == MAX_STACK then Trapped(StackOverflow) else Continue(m.(stack := m.stack + [v]))
  }

  datatype Operands = One(a: int, m: Machine) | Two(first: int, second: int, m: Machine) | Stuck(trap: Trap)

  function PopOne(m: Machine, t: ValType): Operands {
    match PopValue(m.stack, t)
    case Err(trap) => Stuck(trap)
    case Ok(a) => One(a, m.(stack := Front(m.stack)))
  }

  /** `second` is popped first: it is the right operand. */
  function PopTwo(m: Machine, t: ValType): Operands {
    match PopOne(m, t)
    case Stuck(trap) => Stuck(trap)
    case One(second, m1) =>
      (match PopOne(m1, t)
       case Stuck(trap) => Stuck(trap)
       case One(first, m2) => Two(first, second, m2))
  }

  function ExecuteOpen(code: seq<byte>, op: byte, m: Machine): Outcome
    requires m.pos < |code|
  {
    match if op == IF then PopOne(m, I32) else One(1, m)
    case Stuck(trap) => Trapped(trap)
    case One(condition, m1) =>
      var p := m.pos + 1;
      if p == |code| || code[p] != 0x40 then Trapped(Trap.TypeMismatch)
      else
        match Scan(code, p + 1, 0, None)
        case Lost => Trapped(Trap.TypeMismatch)
        case Found(elseAt, endAt) =>
          if |m.frames| == MAX_CONTROL then Trapped(StackOverflow)
          else
            var entered := m1.frames + [Frame(op, endAt)];
            if condition != 0 then Continue(m1.(pos := p + 1, frames := entered))
            else if elseAt.Some? then Continue(m1.(pos := elseAt.value + 1, frames := entered))
            else Continue(m1.(pos := endAt + 1))
  }

  function ExecuteElse(m: Machine): Outcome {
    if m.frames == [] || Last(m.frames).kind != IF then Trapped(Trap.TypeMismatch)
    else Continue(m.(pos := Last(m.frames).end + 1, frames := Front(m.frames)))
  }

  function ExecuteEnd(m: Machine): Outcome {
    if m.frames != [] && Last(m.frames).end == m.pos then Continue(m.(pos := m.pos + 1, frames := Front(m.frames)))
    else if m.stack == [] then Trapped(StackUnderflow)
    else if Last(m.stack).V32? then Return(Last(m.stack).n)
    else Trapped(Trap.TypeMismatch)
  }

  function ExecuteCall(host: Host, index: int, m: Machine): Outcome {
    if index != 0 then Trapped(HostDenied)
    else
      match PopTwo(m, I32)
      case Stuck(trap) => Trapped(trap)
      case Two(ptr, len, m1) =>
        var reply := host(m.calls, ptr, len, m.memory);
        var m2 := m1.(memory := reply.memory, live := reply.live, calls := m.calls + 1);
        match reply.result
        case Err(trap) => HostTrapped(trap)
        case Ok(None) => Continue(m2)
        case Ok(Some(v)) => PushValue(m2, v)
  }

  function ExecuteLoad(offset: nat, m: Machine): Outcome {
    match PopOne(m, I32)
    case Stuck(trap) => Trapped(trap)
    case One(address, m1) =>
      match Range(m1.live, |m1.memory|, AsAddress(address), offset, 4)
      case Err(trap) => Trapped(trap)
      case Ok(start) => PushValue(m1, V32(AsSigned(32, ReadLe(m1.memory, start, 4))))
  }

  function ExecuteStore(offset: nat, m: Machine): Outcome {
    match PopTwo(m, I32)
    case Stuck(trap) => Trapped(trap)
    case Two(address, value, m1) =>
      match Range(m1.live, |m1.memory|, AsAddress(address), offset, 4)
      case Err(trap) => Trapped(trap)
      case Ok(start) => Continue(m1.(memory := WriteWord(m1.memory, start, value)))
  }

  function ExecuteArithmetic(op: byte, m: Machine): Outcome {
    if op == EQZ then
      match PopOne(m, I32)
      case Stuck(trap) => Trapped(trap)
      case One(a, m1) => PushValue(m1, V32(if a == 0 then 1 else 0))
    else
      match PopTwo(m, if op == ADD64 then I64 else I32)
      case Stuck(trap) => Trapped(trap)
      case Two(a, b, m1) =>
        PushValue(m1, Combine(op, a, b))
  }

  function Combine(op: byte, a: int, b: int): Value {
    if op == ADD64 then V64(Wrap(64, a + b))
    else if op == ADD then V32(Wrap(32, a + b))
    else if op == 0x6b then V32(Wrap(32, a - b))
    else V32(Wrap(32, a * b))
  }

  /** The memory instructions: two immediates, then the access. */
  function ExecuteAccess(code: seq<byte>, op: byte, m: Machine): Outcome
    requires m.pos <= |code|
  {
    match DecodeU32(code, m.pos)
    case Fail(_) => Trapped(Trap.TypeMismatch)
    case Got(_, middle) =>
      match DecodeU32(code, middle)
      case Fail(_) => Trapped(Trap.TypeMismatch)
      case Got(offset, next) =>
        if op == LOAD then ExecuteLoad(offset, m.(pos := next)) else ExecuteStore(offset, m.(pos := next))
  }

  function ExecuteConst(code: seq<byte>, op: byte, m: Machine): Outcome
    requires m.pos <= |code|
  {
    match if op == CONST32 then DecodeI32(code, m.pos) else DecodeI64(code, m.pos)
    case Fail(_) => Trapped(Trap.TypeMismatch)
    case Got(n, next) => PushValue(m.(pos := next), if op == CONST32 then V32(n) else V64(n))
  }

  /** The instructions the verifier calls plain: decode, pop, compute, push. */
  function ExecutePlain(code: seq<byte>, host: Host, op: byte, m: Machine): Outcome
    requires m.pos < |code|
  {
    var m1 := m.(pos := m.pos + 1);
    if op == CONST32 || op == CONST64 then ExecuteConst(code, op, m1)
    else if op == CALL then
      match DecodeU32(code, m1.pos)
      case Fail(_) => Trapped(Trap.TypeMismatch)
      case Got(index, next) => ExecuteCall(host, index, m.(pos := next))
    else if op == LOAD || op == STORE then ExecuteAccess(code, op, m1)
    else ExecuteArithmetic(op, m1)
  }

  /** One turn of the loop, including the checks at its head and the fall off its end. */
  function Execute(code: seq<byte>, host: Host, m: Machine): Outcome {
    if m.pos >= |code| then Trapped(Trap.TypeMismatch)
    else if m.fuel == 0 then Trapped(FuelExhausted)
    else
      var op, m1 := code[m.pos], m.(fuel := m.fuel - 1);
      if op == 0x00 then Trapped(Unreachable)
      else if op == 0x01 then Continue(m1.(pos := m.pos + 1))
      else if BLOCK <= op <= IF then ExecuteOpen(code, op, m1)
      else if op == ELSE then ExecuteElse(m1)
      else if op == END then ExecuteEnd(m1)
      else if op == DROP then
        if m.stack == [] then Trapped(StackUnderflow) else Continue(m1.(pos := m.pos + 1, stack := Front(m.stack)))
      else if Plain(op) then ExecutePlain(code, host, op, m1)
      else Trapped(Trap.TypeMismatch)
  }

  /** The machine after `n` turns. */
  function After(code: seq<byte>, host: Host, m: Machine, n: nat): Outcome {
    if n == 0 then Continue(m)
    else
      match After(code, host, m, n - 1)
      case Continue(m1) => Execute(code, host, m1)
      case stopped => stopped
  }

  /** Runs to the end; every turn burns fuel. */
  function RunFrom(code: seq<byte>, host: Host, m: Machine): Outcome
    decreases m.fuel
  {
    ExecuteBurnsFuel(code, host, m);
    match Execute(code, host, m)
    case Continue(m1) => RunFrom(code, host, m1)
    case stopped => stopped
  }

  lemma ExecuteBurnsFuel(code: seq<byte>, host: Host, m: Machine)
    ensures Execute(code, host, m).Continue? ==> Execute(code, host, m).machine.fuel + 1 == m.fuel
  {
  }

  function Boot(pos: nat, fuel: nat, memory: seq<byte>, live: bool): Machine {
    Machine(pos, [], [], Min(fuel, MAX_FUEL), memory, live, 0)
  }

  /** A whole run of a code body that has not been cancelled. */
  function Run(code: seq<byte>, host: Host, fuel: nat, memory: seq<byte>, live: bool): Outcome {
    match DecodeU32(code, 0)
    case Fail(_) => Trapped(Trap.TypeMismatch)
    case Got(locals, next) =>
      if locals != 0 then Trapped(Trap.TypeMismatch)
      else RunFrom(code, host, Boot(next, fuel, memory, live))
  }
}
