/** The one-pass body verifier of `src/wasm.rs`.

    `Step` is what one turn of the loop does to the operand types and the control frames,
    `VerifyBody` is the loop itself over a cursor and fixed arrays, proved to compute `Verify`.
 */
module WasmVerifier {
  import opened Common
  import opened WasmLeb
  import opened WasmCursor

  const MAX_STACK := 256
  const MAX_CONTROL := 16

  const BLOCK: byte := 0x02
  const LOOP: byte := 0x03
  const IF: byte := 0x04
  const ELSE: byte := 0x05
  const END: byte := 0x0b
  const DROP: byte := 0x1a
  const CALL: byte := 0x10
  const LOAD: byte := 0x28
  const STORE: byte := 0x36
  const CONST32: byte := 0x41
  const CONST64: byte := 0x42
  const EQZ: byte := 0x45
  const ADD: byte := 0x6a
  const MUL: byte := 0x6c
  const ADD64: byte := 0x7c
  /** The kind of the function's own frame, which is also the loop opcode. */
  const FUNCTION: byte := 3

  datatype ValType = I32 | I64

  datatype Import = Log | FdRead | FdWrite | Exit

  /** The part of a parsed module that body verification looks at. */
  datatype Module = Module(imports: seq<Import>, memory: bool)

  datatype Control = Control(kind: byte, height: nat, hasElse: bool)

  datatype Verifying = Verifying(pos: nat, stack: seq<ValType>, controls: seq<Control>, ended: bool)

  datatype Verdict = Accepted | Rejected(error: Error)

  // ------------------------------------------------------------------ one instruction

  /** Instructions that touch only the operand stack. */
  predicate Plain(op: byte) {
    op in {CALL, LOAD, STORE, CONST32, CONST64, EQZ, ADD64} || ADD <= op <= MUL
  }

  function Pops(op: byte): nat {
    if op == CALL || op == STORE || op == ADD64 || ADD <= op <= MUL then 2
    else if op == LOAD || op == EQZ then 1
    else 0
  }

  function Popped(op: byte): ValType { if op == ADD64 then I64 else I32 }

  function Pushes(op: byte): seq<ValType> {
    if op == STORE then [] else if op == CONST64 || op == ADD64 then [I64] else [I32]
  }

  function Pop(stack: seq<ValType>, expected: ValType): Result<seq<ValType>, Error> {
    if stack == [] then Err(InvalidStack)
    else if stack[|stack| - 1] == expected then Ok(stack[..|stack| - 1])
    else Err(TypeMismatch)
  }

  function PopAll(stack: seq<ValType>, expected: ValType, count: nat): Result<seq<ValType>, Error> {
    if count == 0 then Ok(stack)
    else
      match Pop(stack, expected)
      case Err(error) => Err(error)
      case Ok(rest) => PopAll(rest, expected, count - 1)
  }

  /** Types an instruction's pops, then its push. */
  function Retype(stack: seq<ValType>, op: byte): Result<seq<ValType>, Error> {
    match PopAll(stack, Popped(op), Pops(op))
    case Err(error) => Err(error)
    case Ok(rest) =>
      if Pushes(op) != [] && |rest| == MAX_STACK then Err(InvalidStack) else Ok(rest + Pushes(op))
  }

  /** Checks and skips an instruction's immediates. */
  function Immediates(m: Module, code: seq<byte>, op: byte, p: nat): (r: Result<nat, Error>)
    requires p <= |code|
    ensures r.Ok? ==> p <= r.value <= |code|
  {
    if op == CALL then
      match DecodeU32(code, p)
      case Fail(error) => Err(error)
      case Got(index, next) =>
        if index >= |m.imports| then Err(InvalidCode)
        else if m.imports[index] != Log then Err(InvalidImport)
        else Ok(next)
    else if op == LOAD || op == STORE then
      if !m.memory then Err(InvalidMemory)
      else
        match DecodeU32(code, p)
        case Fail(error) => Err(error)
        case Got(align, next) =>
          if align > 2 then Err(InvalidMemory)
          else
            match DecodeU32(code, next)
            case Fail(error) => Err(error)
            case Got(_, after) => Ok(after)
    else if op == CONST32 || op == CONST64 then
      match if op == CONST32 then DecodeI32(code, p) else DecodeI64(code, p)
      case Fail(error) => Err(error)
      case Got(_, next) => Ok(next)
    else Ok(p)
  }

  function Last<T>(s: seq<T>): T
    requires s != []
  {
    s[|s| - 1]
  }

  function Front<T>(s: seq<T>): seq<T>
    requires s != []
  {
    s[..|s| - 1]
  }

  function Open(code: seq<byte>, op: byte, s: Verifying): Result<Verifying, Error>
    requires s.pos < |code|
  {
    match if op == IF then Pop(s.stack, I32) else Ok(s.stack)
    case Err(error) => Err(error)
    case Ok(stack) =>
      if s.pos + 1 == |code| then Err(Truncated)
      else if code[s.pos + 1] != 0x40 || |s.controls| == MAX_CONTROL then Err(InvalidControl)
      else Ok(Verifying(s.pos + 2, stack, s.controls + [Control(op, |stack|, false)], s.ended))
  }

  function Else(s: Verifying): Result<Verifying, Error> {
    if s.controls == [] || Last(s.controls).kind != IF || Last(s.controls).hasElse then Err(InvalidControl)
    else if |s.stack| != Last(s.controls).height then Err(InvalidStack)
    else Ok(s.(pos := s.pos + 1, controls := Front(s.controls) + [Last(s.controls).(hasElse := true)]))
  }

  function Close(code: seq<byte>, result: Option<ValType>, s: Verifying): Result<Verifying, Error> {
    if s.controls == [] then Err(InvalidControl)
    else if Last(s.controls).kind == FUNCTION then
      match if result.Some? then Pop(s.stack, result.value) else Ok(s.stack)
      case Err(error) => Err(error)
      case Ok(stack) =>
        if s.pos + 1 != |code| || |s.controls| != 1 then Err(InvalidCode)
        else Ok(Verifying(s.pos + 1, stack, [], true))
    else if |s.stack| != Last(s.controls).height then Err(InvalidStack)
    else Ok(s.(pos := s.pos + 1, controls := Front(s.controls)))
  }

  function Step(m: Module, code: seq<byte>, result: Option<ValType>, s: Verifying): (r: Result<Verifying, Error>)
    requires s.pos < |code|
    ensures r.Ok? ==> s.pos < r.value.pos <= |code|
  {
    var op, p := code[s.pos], s.pos + 1;
    if op == 0x01 then Ok(s.(pos := p))
    else if BLOCK <= op <= IF then Open(code, op, s)
    else if op == ELSE then Else(s)
    else if op == END then Close(code, result, s)
    else if op == DROP then
      if s.stack == [] then Err(InvalidStack) else Ok(s.(pos := p, stack := Front(s.stack)))
    else if !Plain(op) then Err(UnsupportedOpcode)
    else
      match Immediates(m, code, op, p)
      case Err(error) => Err(error)
      case Ok(next) =>
        match Retype(s.stack, op)
        case Err(error) => Err(error)
        case Ok(stack) => Ok(s.(pos := next, stack := stack))
  }

  function VerifyFrom(m: Module, code: seq<byte>, result: Option<ValType>, s: Verifying): Verdict
    requires s.pos <= |code|
    decreases |code| - s.pos
  {
    if s.pos == |code| then if s.ended then Accepted else Rejected(InvalidCode)
    else
      match Step(m, code, result, s)
      case Err(error) => Rejected(error)
      case Ok(next) => VerifyFrom(m, code, result, next)
  }

  function Start(pos: nat): Verifying {
    Verifying(pos, [], [Control(FUNCTION, 0, false)], false)
  }

  /** The verifier's answer: a zero local count, then instructions to the final `end`. */
  function Verify(m: Module, code: seq<byte>, result: Option<ValType>): Verdict {
    match DecodeU32(code, 0)
    case Fail(error) => Rejected(error)
    case Got(locals, next) =>
      if locals != 0 then Rejected(InvalidSection)
      else VerifyFrom(m, code, result, Start(next))
  }

  // ------------------------------------------------------------------ the loop over fixed arrays

  /** The locals of the verification loop. */
  class BodyVerifier {
    const m: Module
    const result: Option<ValType>
    const cursor: Cursor
    const stack: array<ValType>
    var stackLen: nat
    const controls: array<Control>
    var controlLen: nat
    var ended: bool

    ghost predicate Valid()
      reads this, cursor, stack, controls
    {
      && cursor.Valid()
      && stack.Length == MAX_STACK && stackLen <= MAX_STACK
      && controls.Length == MAX_CONTROL && controlLen <= MAX_CONTROL
    }

    ghost function State(): Verifying
      reads this, cursor, stack, controls
      requires Valid()
    {
      Verifying(cursor.position, stack[..stackLen], controls[..controlLen], ended)
    }

    ghost predicate Fresh()
      reads this, cursor, stack, controls
    {
      Valid() && State() == Start(cursor.position)
    }

    constructor (m: Module, result: Option<ValType>, cursor: Cursor)
      requires cursor.Valid()
      ensures Fresh() && fresh(stack) && fresh(controls)
      ensures this.m == m && this.result == result && this.cursor == cursor
    {
      this.m, this.result, this.cursor := m, result, cursor;
      stack := new ValType[MAX_STACK](_ => I32);
      stackLen := 0;
      controls := new Control[MAX_CONTROL](_ => Control(FUNCTION, 0, false));
      controlLen := 1;
      ended := false;
      new;
      assert controls[..1] == [Control(FUNCTION, 0, false)];
    }

    /** `stackLen` goes down even when the type is wrong; the caller then gives up. */
    method PopType(expected: ValType) returns (error: Option<Error>)
      requires Valid()
      modifies this`stackLen
      ensures Valid()
      ensures match Pop(old(State().stack), expected)
              case Ok(rest) => error == None && State() == old(State()).(stack := rest)
              case Err(e) => error == Some(e)
    {
      if stackLen == 0 {
        return Some(InvalidStack);
      }
      stackLen := stackLen - 1;
      return if stack[stackLen] == expected then None else Some(TypeMismatch);
    }

    method PushType(value: ValType) returns (error: Option<Error>)
      requires Valid()
      modifies this`stackLen, stack
      ensures Valid()
      ensures |old(State().stack)| == MAX_STACK ==> error == Some(InvalidStack)
      ensures |old(State().stack)| < MAX_STACK ==>
                error == None && State() == old(State()).(stack := old(State().stack) + [value])
    {
      if stackLen == MAX_STACK {
        return Some(InvalidStack);
      }
      stack[stackLen] := value;
      stackLen := stackLen + 1;
      return None;
    }

    /** The shared shape of the operand instructions: `count` pops of one type, then a push. */
    method Operate(op: byte) returns (error: Option<Error>)
      requires Valid()
      modifies this`stackLen, stack
      ensures Valid()
      ensures match Retype(old(State().stack), op)
              case Ok(after) => error == None && State() == old(State()).(stack := after)
              case Err(e) => error == Some(e)
    {
      var i := 0;
      while i < Pops(op)
        invariant Valid() && i <= Pops(op) && stack[..] == old(stack[..])
        invariant State() == old(State()).(stack := State().stack)
        invariant PopAll(old(State().stack), Popped(op), Pops(op)) == PopAll(State().stack, Popped(op), Pops(op) - i)
      {
        error := PopType(Popped(op));
        if error.Some? {
          return;
        }
        i := i + 1;
      }
      if Pushes(op) == [] {
        return None;
      }
      error := PushType(Pushes(op)[0]);
    }

    method SkipImmediates(op: byte) returns (error: Option<Error>)
      requires Valid()
      modifies cursor
      ensures Valid()
      ensures match Immediates(m, cursor.bytes, op, old(cursor.position))
              case Ok(next) => error == None && State() == old(State()).(pos := next)
              case Err(e) => error == Some(e)
    {
      if op == CALL {
        var index := cursor.LebU32();
        if index.Err? {
          return Some(index.error);
        }
        if index.value >= |m.imports| {
          return Some(InvalidCode);
        }
        if m.imports[index.value] != Log {
          return Some(InvalidImport);
        }
      } else if op == LOAD || op == STORE {
        if !m.memory {
          return Some(InvalidMemory);
        }
        var align := cursor.LebU32();
        if align.Err? {
          return Some(align.error);
        }
        if align.value > 2 {
          return Some(InvalidMemory);
        }
        var offset := cursor.LebU32();
        if offset.Err? {
          return Some(offset.error);
        }
      } else if op == CONST32 {
        var value := cursor.LebI32();
        if value.Err? {
          return Some(value.error);
        }
      } else if op == CONST64 {
        var value := cursor.LebI64();
        if value.Err? {
          return Some(value.error);
        }
      }
      return None;
    }

    method OpenBlock(op: byte) returns (error: Option<Error>)
      requires Valid() && cursor.position >= 1
      modifies this, cursor, controls
      ensures Valid()
      ensures match Open(cursor.bytes, op, old(State()).(pos := old(State().pos) - 1))
              case Ok(after) => error == None && State() == after
              case Err(e) => error == Some(e)
    {
      if op == IF {
        error := PopType(I32);
        if error.Some? {
          return;
        }
      }
      var kind := cursor.Byte();
      if kind.Err? {
        return Some(kind.error);
      }
      if kind.value != 0x40 || controlLen == MAX_CONTROL {
        return Some(InvalidControl);
      }
      controls[controlLen] := Control(op, stackLen, false);
      controlLen := controlLen + 1;
      return None;
    }

    method EnterElse() returns (error: Option<Error>)
      requires Valid() && cursor.position >= 1
      modifies controls
      ensures Valid()
      ensures match Else(old(State()).(pos := old(State().pos) - 1))
              case Ok(after) => error == None && State() == after
              case Err(e) => error == Some(e)
    {
      if controlLen == 0 || controls[controlLen - 1].kind != IF || controls[controlLen - 1].hasElse {
        return Some(InvalidControl);
      }
      if stackLen != controls[controlLen - 1].height {
        return Some(InvalidStack);
      }
      controls[controlLen - 1] := controls[controlLen - 1].(hasElse := true);
      return None;
    }

    method CloseBlock() returns (error: Option<Error>)
      requires Valid() && cursor.position >= 1
      modifies this
      ensures Valid()
      ensures match Close(cursor.bytes, result, old(State()).(pos := old(State().pos) - 1))
              case Ok(after) => error == None && State() == after
              case Err(e) => error == Some(e)
    {
      if controlLen == 0 {
        return Some(InvalidControl);
      }
      var control := controls[controlLen - 1];
      if control.kind == FUNCTION {
        if result.Some? {
          error := PopType(result.value);
          if error.Some? {
            return;
          }
        }
      } else if stackLen != control.height {
        return Some(InvalidStack);
      }
      controlLen := controlLen - 1;
      if control.kind == FUNCTION {
        if cursor.position != |cursor.bytes| || controlLen != 0 {
          return Some(InvalidCode);
        }
        ended := true;
      }
      return None;
    }

    /** One turn of the loop. */
    method Turn() returns (error: Option<Error>)
      requires Valid() && cursor.position < |cursor.bytes|
      modifies this, cursor, stack, controls
      ensures Valid()
      ensures match Step(m, cursor.bytes, result, old(State()))
              case Ok(after) => error == None && State() == after
              case Err(e) => error == Some(e)
    {
      var opcode := cursor.Byte();
      var op := opcode.value;
      if op == 0x01 {
        error := None;
      } else if BLOCK <= op <= IF {
        error := OpenBlock(op);
      } else if op == ELSE {
        error := EnterElse();
      } else if op == END {
        error := CloseBlock();
      } else if op == DROP {
        if stackLen == 0 {
          return Some(InvalidStack);
        }
        stackLen := stackLen - 1;
        error := None;
      } else if Plain(op) {
        error := SkipImmediates(op);
        if error.None? {
          error := Operate(op);
        }
      } else {
        error := Some(UnsupportedOpcode);
      }
    }
  }

  method VerifyBody(m: Module, body: seq<byte>, result: Option<ValType>) returns (r: Verdict)
    ensures r == Verify(m, body, result)
  {
    var cursor := new Cursor(body);
    var locals := cursor.LebU32();
    if locals.Err? {
      return Rejected(locals.error);
    }
    if locals.value != 0 {
      return Rejected(InvalidSection);
    }
    var v := new BodyVerifier(m, result, cursor);
    while v.cursor.position != |body|
      invariant v.Valid() && fresh(v) && fresh(cursor) && fresh(v.stack) && fresh(v.controls)
      invariant v.cursor == cursor && cursor.bytes == body && v.m == m && v.result == result
      invariant VerifyFrom(m, body, result, v.State()) == Verify(m, body, result)
      decreases |body| - v.cursor.position
    {
      var error := v.Turn();
      if error.Some? {
        return Rejected(error.value);
      }
    }
    return if v.ended then Accepted else Rejected(InvalidCode);
  }
}
