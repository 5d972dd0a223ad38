/** A module instance: the buffers `Instance::run` works on, and the run itself.

    The control arrays are locals of the source's `run`; here they are buffers of the instance that
    every run starts with empty.
 */
module WasmInstance {
  import opened Common
  import opened WasmLeb
  import opened WasmCursor
  import opened WasmVerifier
  import I = WasmInterpreter
  import opened WasmInterpreter

  /** What `run` reports: a host's trap looks like the interpreter's own. */
  function Answer(o: Outcome): Result<int, Trap>
    requires !o.Continue?
  {
    if o.Return? then Ok(o.value) else Err(o.trap)
  }

  function Zip(kinds: seq<byte>, ends: seq<nat>): seq<Frame>
    requires |kinds| == |ends|
  {
    seq(|kinds|, i requires 0 <= i < |kinds| => Frame(kinds[i], ends[i]))
  }

  /** The memory a host is lent has a fixed size. */
  ghost predicate KeepsSize(host: Host) {
    forall n, ptr, len, memory :: |memory| == MAX_MEMORY ==> |host(n, ptr, len, memory).memory| == MAX_MEMORY
  }

  /** `find_control_end` as the loop it is. */
  method FindControlEnd(code: seq<byte>, start: nat) returns (r: Found)
    requires start <= |code|
    ensures r == Scan(code, start, 0, None)
  {
    var cursor := new Cursor(code);
    cursor.position := start;
    var depth, elseAt := 0, None;
    while true
      invariant cursor.Valid() && cursor.bytes == code && depth >= 0
      invariant Scan(code, cursor.position, depth, elseAt) == Scan(code, start, 0, None)
      decreases |code| - cursor.position
    {
      var position := cursor.position;
      var opcode := cursor.Byte();
      if opcode.Err? {
        return Lost;
      }
      var op := opcode.value;
      if BLOCK <= op <= IF {
        var kind := cursor.Byte();
        if kind.Err? || kind.value != 0x40 {
          return Lost;
        }
        depth := depth + 1;
      } else if op == ELSE && depth == 0 {
        if elseAt.Some? {
          return Lost;
        }
        elseAt := Some(position);
      } else if op == END {
        if depth == 0 {
          return Found(elseAt, position);
        }
        depth := depth - 1;
      } else if op == CALL || 0x20 <= op <= 0x22 {
        var index := cursor.LebU32();
        if index.Err? {
          return Lost;
        }
      } else if op == LOAD || op == STORE {
        var align := cursor.LebU32();
        if align.Err? {
          return Lost;
        }
        var offset := cursor.LebU32();
        if offset.Err? {
          return Lost;
        }
      } else if op == CONST32 {
        var value := cursor.LebI32();
        if value.Err? {
          return Lost;
        }
      }
    }
  }

  class Instance {
    const code: seq<byte>
    const cursor: Cursor
    const memory: array<byte>
    const stack: array<Value>
    const ends: array<nat>
    const kinds: array<byte>
    var live: bool
    var stackLen: nat
    var controlLen: nat
    var fuel: nat
    var cancelled: bool
    /** How often the host was called in this run. */
    var calls: nat

    ghost predicate Valid()
      reads this, cursor, memory, stack, ends, kinds
    {
      && cursor.bytes == code && cursor.Valid()
      && memory.Length == MAX_MEMORY
      && stack.Length == MAX_STACK && stackLen <= MAX_STACK
      && ends.Length == MAX_CONTROL && kinds.Length == MAX_CONTROL && controlLen <= MAX_CONTROL
      && forall i :: 0 <= i < controlLen ==> ends[i] < |code|
    }

    ghost function Frames(): seq<Frame>
      reads this, ends, kinds
      requires controlLen <= ends.Length && controlLen <= kinds.Length
    {
      Zip(kinds[..controlLen], ends[..controlLen])
    }

    ghost function State(): Machine
      reads this, cursor, memory, stack, ends, kinds
      requires Valid()
    {
      Machine(cursor.position, stack[..stackLen], Frames(), fuel, memory[..], live, calls)
    }

    constructor (code: seq<byte>)
      ensures Valid() && this.code == code && live && !cancelled
      ensures fresh(cursor) && fresh(memory) && fresh(stack) && fresh(ends) && fresh(kinds)
      ensures forall i :: 0 <= i < MAX_MEMORY ==> memory[i] == 0
    {
      this.code := code;
      cursor := new Cursor(code);
      memory := new byte[MAX_MEMORY](_ => 0);
      stack := new Value[MAX_STACK](_ => V32(0));
      ends := new nat[MAX_CONTROL](_ => 0);
      kinds := new byte[MAX_CONTROL](_ => 0);
      live, cancelled := true, false;
      stackLen, controlLen, fuel, calls := 0, 0, MAX_FUEL, 0;
    }

    method Cancel()
      requires Valid()
      modifies this`cancelled, this`live
      ensures Valid() && cancelled && !live
    {
      cancelled, live := true, false;
    }

    method Push(v: Value) returns (trap: Option<Trap>)
      requires Valid()
      modifies this`stackLen, stack
      ensures Valid()
      ensures match PushValue(old(State()), v)
              case Continue(m) => trap == None && State() == m
              case Trapped(t) => trap == Some(t)
              case _ => false
    {
      if stackLen == MAX_STACK {
        return Some(StackOverflow);
      }
      stack[stackLen] := v;
      stackLen := stackLen + 1;
      return None;
    }

    /** The typed pop: the length goes down before the tag is looked at. */
    method PopTyped(t: ValType) returns (r: Result<int, Trap>)
      requires Valid()
      modifies this`stackLen
      ensures Valid()
      ensures match PopOne(old(State()), t)
              case One(a, m) => r == Ok(a) && State() == m
              case Stuck(trap) => r == Err(trap)
              case _ => false
    {
      if stackLen == 0 {
        return Err(StackUnderflow);
      }
      stackLen := stackLen - 1;
      var v := stack[stackLen];
      return if Tag(v) == t then Ok(v.n) else Err(Trap.TypeMismatch);
    }

    /** Pops the right operand, then the left. */
    method PopPair(t: ValType) returns (r: Result<(int, int), Trap>)
      requires Valid()
      modifies this`stackLen
      ensures Valid()
      ensures match PopTwo(old(State()), t)
              case Two(a, b, m) => r == Ok((a, b)) && State() == m
              case Stuck(trap) => r == Err(trap)
              case _ => false
    {
      var right := PopTyped(t);
      if right.Err? {
        return Err(right.error);
      }
      var left := PopTyped(t);
      if left.Err? {
        return Err(left.error);
      }
      return Ok((left.value, right.value));
    }

    method PushFrame(kind: byte, end: nat)
      requires Valid() && controlLen < MAX_CONTROL && end < |code|
      modifies this`controlLen, ends, kinds
      ensures controlLen == old(controlLen) + 1
      ensures Valid() && State() == old(State()).(frames := old(Frames()) + [Frame(kind, end)])
    {
      ends[controlLen], kinds[controlLen] := end, kind;
      controlLen := controlLen + 1;
      assert Frames() == old(Frames()) + [Frame(kind, end)];
    }

    method PopFrame()
      requires Valid() && controlLen > 0
      modifies this`controlLen
      ensures Valid() && old(Frames()) != [] && State() == old(State()).(frames := Front(old(Frames())))
    {
      controlLen := controlLen - 1;
      assert Frames() == Front(old(Frames()));
    }

    method EnterBlock(op: byte) returns (trap: Option<Trap>)
      requires Valid() && 1 <= cursor.position && BLOCK <= op <= IF
      modifies this, cursor, ends, kinds
      ensures Valid()
      ensures cancelled == old(cancelled)
      ensures match ExecuteOpen(code, op, old(State()).(pos := old(cursor.position) - 1))
              case Continue(m) => trap == None && State() == m
              case Trapped(t) => trap == Some(t)
              case _ => false
    {
      var condition := 1;
      if op == IF {
        var popped := PopTyped(I32);
        if popped.Err? {
          return Some(popped.error);
        }
        condition := popped.value;
      }
      var kind := cursor.Byte();
      if kind.Err? || kind.value != 0x40 {
        return Some(Trap.TypeMismatch);
      }
      var found := FindControlEnd(code, cursor.position);
      if found.Lost? {
        return Some(Trap.TypeMismatch);
      }
      if controlLen == MAX_CONTROL {
        return Some(StackOverflow);
      }
      PushFrame(op, found.endAt);
      if condition == 0 {
        if found.elseAt.Some? {
          cursor.position := found.elseAt.value + 1;
        } else {
          cursor.position := found.endAt + 1;
          PopFrame();
        }
      }
      return None;
    }

    /** The host's changes to the memory it was lent. */
    method TakeBack(reply: HostReply)
      requires Valid() && |reply.memory| == MAX_MEMORY
      modifies this`live, this`calls, memory
      ensures Valid()
      ensures State() == old(State()).(memory := reply.memory, live := reply.live, calls := old(calls) + 1)
    {
      forall i | 0 <= i < memory.Length {
        memory[i] := reply.memory[i];
      }
      assert memory[..] == reply.memory;
      live, calls := reply.live, calls + 1;
    }

    method Call(host: Host) returns (trap: Option<Trap>)
      requires Valid() && KeepsSize(host)
      modifies this, cursor, stack, memory
      ensures Valid()
      ensures cancelled == old(cancelled)
      ensures match DecodeU32(code, old(cursor.position))
              case Fail(_) => trap == Some(Trap.TypeMismatch)
              case Got(index, next) =>
                match ExecuteCall(host, index, old(State()).(pos := next))
                case Continue(m) => trap == None && State() == m
                case Trapped(t) => trap == Some(t)
                case HostTrapped(t) => trap == Some(t)
                case _ => false
    {
      var index := cursor.LebU32();
      if index.Err? {
        return Some(Trap.TypeMismatch);
      }
      if index.value != 0 {
        return Some(HostDenied);
      }
      var args := PopPair(I32);
      if args.Err? {
        return Some(args.error);
      }
      var reply := host(calls, args.value.0, args.value.1, memory[..]);
      TakeBack(reply);
      if reply.result.Err? {
        return Some(reply.result.error);
      }
      if reply.result.value.Some? {
        trap := Push(reply.result.value.value);
      } else {
        trap := None;
      }
    }

    method Access(op: byte) returns (trap: Option<Trap>)
      requires Valid() && (op == LOAD || op == STORE)
      modifies this, cursor, stack, memory
      ensures Valid()
      ensures cancelled == old(cancelled)
      ensures match ExecuteAccess(code, op, old(State()))
              case Continue(m) => trap == None && State() == m
              case Trapped(t) => trap == Some(t)
              case _ => false
    {
      var align := cursor.LebU32();
      if align.Err? {
        return Some(Trap.TypeMismatch);
      }
      var offset := cursor.LebU32();
      if offset.Err? {
        return Some(Trap.TypeMismatch);
      }
      if op == LOAD {
        var address := PopTyped(I32);
        if address.Err? {
          return Some(address.error);
        }
        var start := Range(live, memory.Length, AsAddress(address.value), offset.value, 4);
        if start.Err? {
          return Some(start.error);
        }
        trap := Push(V32(AsSigned(32, ReadLe(memory[..], start.value, 4))));
      } else {
        var pair := PopPair(I32);
        if pair.Err? {
          return Some(pair.error);
        }
        var start := Range(live, memory.Length, AsAddress(pair.value.0), offset.value, 4);
        if start.Err? {
          return Some(start.error);
        }
        StoreWord(start.value, pair.value.1);
        trap := None;
      }
    }

    method StoreWord(at: nat, value: int)
      requires Valid() && at + 4 <= MAX_MEMORY
      modifies memory
      ensures Valid() && State() == old(State()).(memory := WriteWord(old(memory[..]), at, value))
    {
      var word := WriteLe(value, 4);
      forall i | at <= i < at + 4 {
        memory[i] := word[i - at];
      }
      assert memory[..] == WriteWord(old(memory[..]), at, value);
    }

    method Compute(op: byte) returns (trap: Option<Trap>)
      requires Valid() && (op == EQZ || op == ADD64 || ADD <= op <= MUL)
      modifies this`stackLen, stack
      ensures Valid()
      ensures match ExecuteArithmetic(op, old(State()))
              case Continue(m) => trap == None && State() == m
              case Trapped(t) => trap == Some(t)
              case _ => false
    {
      if op == EQZ {
        var a := PopTyped(I32);
        if a.Err? {
          return Some(a.error);
        }
        trap := Push(V32(if a.value == 0 then 1 else 0));
        return;
      }
      var pair := PopPair(if op == ADD64 then I64 else I32);
      if pair.Err? {
        return Some(pair.error);
      }
      trap := Push(Combine(op, pair.value.0, pair.value.1));
    }

    method Constant(op: byte) returns (trap: Option<Trap>)
      requires Valid() && (op == CONST32 || op == CONST64)
      modifies this`stackLen, cursor, stack
      ensures Valid()
      ensures match ExecuteConst(code, op, old(State()))
              case Continue(m) => trap == None && State() == m
              case Trapped(t) => trap == Some(t)
              case _ => false
    {
      var n;
      if op == CONST32 {
        n := cursor.LebI32();
      } else {
        n := cursor.LebI64();
      }
      if n.Err? {
        return Some(Trap.TypeMismatch);
      }
      trap := Push(if op == CONST32 then V32(n.value) else V64(n.value));
    }

    /** An operand instruction, its opcode already read. */
    method Operate(host: Host, op: byte) returns (trap: Option<Trap>)
      requires Valid() && KeepsSize(host) && 1 <= cursor.position && Plain(op)
      modifies this, cursor, stack, memory
      ensures Valid()
      ensures cancelled == old(cancelled)
      ensures match ExecutePlain(code, host, op, old(State()).(pos := old(cursor.position) - 1))
              case Continue(m) => trap == None && State() == m
              case Trapped(t) => trap == Some(t)
              case HostTrapped(t) => trap == Some(t)
              case _ => false
    {
      if op == CONST32 || op == CONST64 {
        trap := Constant(op);
      } else if op == CALL {
        trap := Call(host);
      } else if op == LOAD || op == STORE {
        trap := Access(op);
      } else {
        trap := Compute(op);
      }
    }

    /** One turn of the loop: `None` to go on, or what `run` returns. */
    method Turn(host: Host) returns (done: Option<Result<int, Trap>>)
      requires Valid() && KeepsSize(host) && cursor.position < |code|
      modifies this, cursor, stack, memory, ends, kinds
      ensures Valid()
      ensures cancelled == old(cancelled)
      ensures match Execute(code, host, old(State()))
              case Continue(m) => done == None && State() == m
              case stopped => done == Some(Answer(stopped))
    {
      if fuel == 0 {
        return Some(Err(FuelExhausted));
      }
      fuel := fuel - 1;
      var opcode := cursor.Byte();
      ghost var before := State().(pos := cursor.position - 1, fuel := fuel + 1);
      assert before == old(State());
      done := Perform(host, opcode.value);
    }

    /** The instruction, its opcode read and its fuel spent. */
    method Perform(host: Host, op: byte) returns (done: Option<Result<int, Trap>>)
      requires Valid() && KeepsSize(host) && 1 <= cursor.position <= |code| && op == code[cursor.position - 1]
      modifies this, cursor, stack, memory, ends, kinds
      ensures Valid()
      ensures cancelled == old(cancelled)
      ensures match Execute(code, host, old(State()).(pos := old(cursor.position) - 1, fuel := old(fuel) + 1))
              case Continue(m) => done == None && State() == m
              case stopped => done == Some(Answer(stopped))
    {
      var trap: Option<Trap> := None;
      if op == 0x00 {
        trap := Some(Unreachable);
      } else if op == 0x01 {
      } else if BLOCK <= op <= IF {
        trap := EnterBlock(op);
      } else if op == ELSE {
        trap := LeaveThen();
      } else if op == END {
        done := LeaveBlock();
        return;
      } else if op == DROP {
        trap := Discard();
      } else if Plain(op) {
        trap := Operate(host, op);
      } else {
        trap := Some(Trap.TypeMismatch);
      }
      return if trap.Some? then Some(Err(trap.value)) else None;
    }

    method LeaveBlock() returns (done: Option<Result<int, Trap>>)
      requires Valid() && 1 <= cursor.position
      modifies this`controlLen, this`stackLen
      ensures Valid()
      ensures match ExecuteEnd(old(State()).(pos := old(cursor.position) - 1))
              case Continue(m) => done == None && State() == m
              case stopped => done == Some(Answer(stopped))
    {
      if controlLen != 0 && ends[controlLen - 1] == cursor.position - 1 {
        controlLen := controlLen - 1;
        return None;
      }
      if stackLen == 0 {
        return Some(Err(StackUnderflow));
      }
      stackLen := stackLen - 1;
      var v := stack[stackLen];
      return Some(if v.V32? then Ok(v.n) else Err(Trap.TypeMismatch));
    }

    method Discard() returns (trap: Option<Trap>)
      requires Valid()
      modifies this`stackLen
      ensures Valid()
      ensures if old(stackLen) == 0 then trap == Some(StackUnderflow)
              else trap == None && State() == old(State()).(stack := Front(old(State()).stack))
    {
      if stackLen == 0 {
        return Some(StackUnderflow);
      }
      stackLen := stackLen - 1;
      return None;
    }

    method LeaveThen() returns (trap: Option<Trap>)
      requires Valid()
      modifies this`controlLen, cursor
      ensures Valid()
      ensures match ExecuteElse(old(State()))
              case Continue(m) => trap == None && State() == m
              case Trapped(t) => trap == Some(t)
              case _ => false
    {
      if controlLen == 0 || kinds[controlLen - 1] != IF {
        return Some(Trap.TypeMismatch);
      }
      cursor.position := ends[controlLen - 1] + 1;
      controlLen := controlLen - 1;
      return None;
    }

    /** `Instance::run`. */
    method Run(host: Host, fuel: nat) returns (r: Result<int, Trap>)
      requires Valid() && KeepsSize(host)
      modifies this, cursor, stack, memory, ends, kinds
      ensures Valid()
      ensures cancelled == old(cancelled)
      ensures old(cancelled) ==> r == Err(Cancelled) && State() == old(State())
      ensures !old(cancelled) ==>
                var o := I.Run(code, host, fuel, old(memory[..]), old(live));
                !o.Continue? && r == Answer(o)
    {
      if cancelled {
        return Err(Cancelled);
      }
      this.fuel := Min(fuel, MAX_FUEL);
      stackLen, controlLen, calls := 0, 0, 0;
      cursor.position := 0;
      var locals := cursor.LebU32();
      if locals.Err? || locals.value != 0 {
        return Err(Trap.TypeMismatch);
      }
      ghost var boot := Boot(cursor.position, fuel, memory[..], live);
      assert State() == boot;
      while cursor.position != |code|
        invariant Valid() && cancelled == old(cancelled)
        invariant RunFrom(code, host, State()) == RunFrom(code, host, boot)
        decreases this.fuel
      {
        ghost var before := State();
        ExecuteBurnsFuel(code, host, before);
        var done := Turn(host);
        if done.Some? {
          return done.value;
        }
      }
      return Err(Trap.TypeMismatch);
    }

    /** Once cancelled, a run with any host and fuel is refused and touches nothing. */
    method CancelAndRun(host: Host, fuel: nat) returns (r: Result<int, Trap>)
      requires Valid() && KeepsSize(host)
      modifies this, cursor, stack, memory, ends, kinds
      ensures Valid() && r == Err(Cancelled) && cancelled
      ensures State() == old(State()).(live := false)
    {
      Cancel();
      r := Run(host, fuel);
    }
  }
}
