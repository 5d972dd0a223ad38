/** Bodies on the edge.

    Accepted bodies on which the byte scan goes astray, or nearly does, and one on which the operand
    types do, so that the conditions of `WasmScan` and `WasmTypes` are seen to be needed.
 */
module WasmScanLimits {
  import opened Common
  import opened WasmLeb
  import opened WasmVerifier
  import opened WasmInterpreter
  import opened WasmTrace
  import opened WasmScan

  lemma SmallUnsigned(code: seq<byte>, pos: nat)
    requires pos < |code| && code[pos] < 128
    ensures DecodeU32(code, pos) == Got(code[pos], pos + 1)
  {
    assert Pow2(0) == 1;
  }

  /** The scan takes short immediates of one or two numbers in one move. */
  lemma ScanSwallows(code: seq<byte>, pos: nat, depth: nat, elseAt: Option<nat>)
    requires pos + 2 < |code| && code[pos + 1] < 128
    ensures code[pos] == CALL || 0x20 <= code[pos] <= 0x22 ==>
              Scan(code, pos, depth, elseAt) == Scan(code, pos + 2, depth, elseAt)
    ensures (code[pos] == LOAD || code[pos] == STORE) && code[pos + 2] < 128 ==>
              Scan(code, pos, depth, elseAt) == Scan(code, pos + 3, depth, elseAt)
    ensures code[pos] == CONST32 && code[pos + 1] < 64 ==>
              Scan(code, pos, depth, elseAt) == Scan(code, pos + 2, depth, elseAt)
  {
    SmallUnsigned(code, pos + 1);
    if code[pos + 2] < 128 {
      SmallUnsigned(code, pos + 2);
    }
    if code[pos + 1] < 64 {
      SmallSigned(32, code, pos + 1);
    }
  }

  lemma SmallLeb(code: seq<byte>, pos: nat)
    requires pos < |code| && code[pos] < 64
    ensures DecodeU32(code, pos) == Got(code[pos], pos + 1)
    ensures DecodeI32(code, pos) == Got(code[pos], pos + 1)
    ensures DecodeI64(code, pos) == Got(code[pos], pos + 1)
  {
    assert Pow2(0) == 1;
    assert Pow2(7) == 128 by { assert Pow2(3) == 8; }
    SmallSigned(32, code, pos);
    SmallSigned(64, code, pos);
  }

  lemma SmallSigned(width: nat, code: seq<byte>, pos: nat)
    requires width > 7 && pos < |code| && code[pos] < 64
    ensures FoldSigned(width, code, pos, 0, 0) == Got(code[pos], pos + 1)
  {
    assert Pow2(0) == 1;
    assert Pow2(7) == 128 by { assert Pow2(3) == 8; }
    Pow2Monotone(8, width);
    assert code[pos] % 128 * Pow2(0) == code[pos];
    DivisionUnique(code[pos], Pow2(width), 0, code[pos]);
  }

  // Single steps of both programs on short constants, for walking through a given body.

  lemma VerifyConst(m: Module, c: seq<byte>, r: Option<ValType>, s: Verifying)
    requires s.pos + 1 < |c| && (c[s.pos] == CONST32 || c[s.pos] == CONST64) && c[s.pos + 1] < 64
    requires |s.stack| < MAX_STACK
    ensures VerifyFrom(m, c, r, s) == VerifyFrom(m, c, r, s.(pos := s.pos + 2, stack := s.stack + Pushes(c[s.pos])))
  {
    StepConst(m, c, r, s);
  }

  lemma StepConst(m: Module, c: seq<byte>, r: Option<ValType>, s: Verifying)
    requires s.pos + 1 < |c| && (c[s.pos] == CONST32 || c[s.pos] == CONST64) && c[s.pos + 1] < 64
    requires |s.stack| < MAX_STACK
    ensures Step(m, c, r, s) == Ok(s.(pos := s.pos + 2, stack := s.stack + Pushes(c[s.pos])))
  {
    SmallLeb(c, s.pos + 1);
    assert Immediates(m, c, c[s.pos], s.pos + 1) == Ok(s.pos + 2);
    assert Retype(s.stack, c[s.pos]) == Ok(s.stack + Pushes(c[s.pos]));
  }

  lemma VerifyDrop(m: Module, c: seq<byte>, r: Option<ValType>, s: Verifying)
    requires s.pos < |c| && c[s.pos] == DROP && s.stack != []
    ensures VerifyFrom(m, c, r, s) == VerifyFrom(m, c, r, s.(pos := s.pos + 1, stack := Front(s.stack)))
  {
  }

  lemma VerifyOpen(m: Module, c: seq<byte>, r: Option<ValType>, s: Verifying, rest: seq<ValType>)
    requires s.pos + 1 < |c| && BLOCK <= c[s.pos] <= IF && c[s.pos + 1] == 0x40 && |s.controls| < MAX_CONTROL
    requires if c[s.pos] == IF then s.stack == rest + [I32] else s.stack == rest
    ensures VerifyFrom(m, c, r, s)
            == VerifyFrom(m, c, r, Verifying(s.pos + 2, rest, s.controls + [Control(c[s.pos], |rest|, false)], s.ended))
  {
  }

  lemma VerifyClose(m: Module, c: seq<byte>, r: Option<ValType>, s: Verifying, outer: seq<Control>, top: Control)
    requires s.pos < |c| && c[s.pos] == END && s.controls == outer + [top]
    requires top.kind != FUNCTION && |s.stack| == top.height
    ensures VerifyFrom(m, c, r, s) == VerifyFrom(m, c, r, s.(pos := s.pos + 1, controls := outer))
  {
  }

  lemma VerifyReturn(m: Module, c: seq<byte>, s: Verifying)
    requires s.pos + 1 == |c| && c[s.pos] == END && s.controls == [Control(FUNCTION, 0, false)] && s.stack == [I32]
    ensures VerifyFrom(m, c, Some(I32), s) == Accepted
  {
  }

  lemma RunConst(c: seq<byte>, host: Host, m: Machine)
    requires m.pos + 1 < |c| && (c[m.pos] == CONST32 || c[m.pos] == CONST64) && c[m.pos + 1] < 64
    requires |m.stack| < MAX_STACK && m.fuel > 0
    ensures var v := if c[m.pos] == CONST32 then V32(c[m.pos + 1]) else V64(c[m.pos + 1]);
            Execute(c, host, m) == Continue(m.(pos := m.pos + 2, stack := m.stack + [v], fuel := m.fuel - 1))
  {
    SmallLeb(c, m.pos + 1);
  }

  /** block; i64.const b; drop; end; i32.const 7; end */
  ghost predicate ShortBlock(c: seq<byte>, b: byte) {
    b < 64 && c == [0x00, 0x02, 0x40, 0x42, b, 0x1a, 0x0b, 0x41, 0x07, 0x0b]
  }

  lemma ReturnSeven(m: Module, c: seq<byte>, s: Verifying)
    requires s.pos + 3 == |c| && c[s.pos] == CONST32 && c[s.pos + 1] == 7 && c[s.pos + 2] == END
    requires s.stack == [] && s.controls == [Control(FUNCTION, 0, false)] && !s.ended
    ensures VerifyFrom(m, c, Some(I32), s) == Accepted
  {
    VerifyConst(m, c, Some(I32), s);
    VerifyReturn(m, c, s.(pos := s.pos + 2, stack := s.stack + [I32]));
  }

  lemma ShortBlockCloses(m: Module, c: seq<byte>, b: byte, s: Verifying, outer: seq<Control>, top: Control)
    requires ShortBlock(c, b) && outer == [Control(FUNCTION, 0, false)] && top == Control(BLOCK, 0, false)
    requires s == Verifying(5, [I64], outer + [top], false)
    ensures VerifyFrom(m, c, Some(I32), s) == Accepted
  {
    assert Front(s.stack) == [];
    VerifyDrop(m, c, Some(I32), s);
    VerifyClose(m, c, Some(I32), s.(pos := 6, stack := []), outer, top);
    ReturnSeven(m, c, s.(pos := 7, stack := [], controls := outer));
  }

  lemma ShortBlockOpens(m: Module, c: seq<byte>, b: byte, s: Verifying)
    requires ShortBlock(c, b) && s == Start(1)
    ensures VerifyFrom(m, c, Some(I32), s) == Accepted
  {
    var top := Control(BLOCK, 0, false);
    VerifyOpen(m, c, Some(I32), s, s.stack);
    var s1 := Verifying(3, s.stack, s.controls + [top], false);
    VerifyConst(m, c, Some(I32), s1);
    ShortBlockCloses(m, c, b, s1.(pos := 5, stack := s1.stack + [I64]), s.controls, top);
  }

  /** The verifier accepts the body whatever the constant. */
  lemma ShortBlockIsAccepted(m: Module, c: seq<byte>, b: byte)
    requires ShortBlock(c, b)
    ensures Verify(m, c, Some(I32)) == Accepted
  {
    SmallLeb(c, 0);
    ShortBlockOpens(m, c, b, Start(1));
  }

  /** With another end on its frame, the block's own end returns from an empty stack. */
  lemma ShortBlockUnderflows(c: seq<byte>, b: byte, endAt: nat, host: Host, fuel: nat, memory: seq<byte>, live: bool)
    requires ShortBlock(c, b) && Scan(c, 3, 0, None) == Found(None, endAt) && endAt != 6 && fuel >= 4
    ensures Run(c, host, fuel, memory, live) == Trapped(StackUnderflow)
  {
    SmallLeb(c, 0);
    var m := Boot(1, fuel, memory, live);
    var m1 := m.(pos := 3, frames := [Frame(BLOCK, endAt)], fuel := m.fuel - 1);
    assert m.frames + [Frame(BLOCK, endAt)] == m1.frames;
    assert Execute(c, host, m) == Continue(m1);
    ShortBlockPushes(c, b, host, m1, Frame(BLOCK, endAt));
  }

  lemma ShortBlockPushes(c: seq<byte>, b: byte, host: Host, m: Machine, frame: Frame)
    requires ShortBlock(c, b) && frame.end != 6
    requires m.pos == 3 && m.stack == [] && m.frames == [frame] && m.fuel >= 3
    ensures RunFrom(c, host, m) == Trapped(StackUnderflow)
  {
    RunConst(c, host, m);
    ShortBlockTail(c, b, host, m.(pos := 5, stack := m.stack + [V64(b)], fuel := m.fuel - 1), frame);
  }

  lemma ShortBlockTail(c: seq<byte>, b: byte, host: Host, m: Machine, frame: Frame)
    requires ShortBlock(c, b) && frame.end != 6
    requires m.pos == 5 && |m.stack| == 1 && m.frames == [frame] && m.fuel >= 2
    ensures RunFrom(c, host, m) == Trapped(StackUnderflow)
  {
    var m1 := m.(pos := 6, stack := [], fuel := m.fuel - 1);
    assert Front(m.stack) == [];
    assert Execute(c, host, m) == Continue(m1);
    assert Execute(c, host, m1) == Trapped(StackUnderflow);
  }

  /** `i64.const 11`: the immediate is taken for the block's end. */
  lemma HiddenEndUnderflows(c: seq<byte>, host: Host, fuel: nat, memory: seq<byte>, live: bool)
    requires ShortBlock(c, 0x0b) && fuel >= 4
    ensures Run(c, host, fuel, memory, live) == Trapped(StackUnderflow)
  {
    assert Scan(c, 4, 0, None) == Found(None, 4);
    assert Scan(c, 3, 0, None) == Found(None, 4);
    ShortBlockUnderflows(c, 0x0b, 4, host, fuel, memory, live);
  }

  /** `i64.const 40`: the immediate is taken for a load, whose two immediates swallow the real end. */
  lemma SwallowedEndUnderflows(c: seq<byte>, host: Host, fuel: nat, memory: seq<byte>, live: bool)
    requires ShortBlock(c, 0x28) && fuel >= 4
    ensures Run(c, host, fuel, memory, live) == Trapped(StackUnderflow)
  {
    ScanSwallows(c, 4, 0, None);
    ScanSwallows(c, 7, 0, None);
    assert Scan(c, 3, 0, None) == Scan(c, 9, 0, None) == Found(None, 9);
    ShortBlockUnderflows(c, 0x28, 9, host, fuel, memory, live);
  }

  /** `i64.const 32`: the immediate is taken for a `local.get`, which swallows no more than the drop. */
  lemma SwallowedDropIsHarmless(c: seq<byte>)
    requires ShortBlock(c, 0x20)
    ensures Scan(c, 3, 0, None) == Found(None, 6)
  {
    ScanSwallows(c, 4, 0, None);
    assert Scan(c, 3, 0, None) == Scan(c, 6, 0, None) == Found(None, 6);
  }

  /** block; i64.const 16; i32.const 16; i32.load 2 64; drop; drop; i64.const 11; drop; end; i32.const 7; end */
  ghost predicate Phantoms(c: seq<byte>) {
    c == [0x00, 0x02, 0x40, 0x42, 0x10, 0x41, 0x10, 0x28, 0x02, 0x40, 0x1a, 0x1a, 0x42, 0x0b, 0x1a, 0x0b,
          0x41, 0x07, 0x0b]
  }

  lemma PhantomOpens(c: seq<byte>)
    requires Phantoms(c)
    ensures Scan(c, 3, 0, None) == Scan(c, 10, 1, None)
  {
    ScanSwallows(c, 4, 0, None);
    ScanSwallows(c, 6, 0, None);
    assert Scan(c, 8, 0, None) == Scan(c, 10, 1, None);
    assert Scan(c, 3, 0, None) == Scan(c, 4, 0, None);
  }

  lemma PhantomEnds(c: seq<byte>)
    requires Phantoms(c)
    ensures Scan(c, 10, 1, None) == Found(None, 15)
  {
    assert Scan(c, 14, 0, None) == Scan(c, 15, 0, None) == Found(None, 15);
    assert Scan(c, 12, 1, None) == Scan(c, 13, 1, None) == Scan(c, 14, 0, None);
    assert Scan(c, 10, 1, None) == Scan(c, 11, 1, None) == Scan(c, 12, 1, None);
  }

  /** Two mistakes can cancel: the load's immediates are taken for a block, the later constant for
      its end, and the scan is right again. This is what the check keeps its counts for. */
  lemma PhantomsCancel(m: Module, c: seq<byte>)
    requires Phantoms(c) && m.memory
    ensures Verify(m, c, Some(I32)) == Accepted && Scan(c, 3, 0, None) == Found(None, 15)
  {
    SmallLeb(c, 0);
    PhantomsEnter(m, c, Start(1));
    PhantomOpens(c);
    PhantomEnds(c);
  }

  lemma VerifyLoad(m: Module, c: seq<byte>, r: Option<ValType>, s: Verifying)
    requires s.pos + 2 < |c| && c[s.pos] == LOAD && c[s.pos + 1] <= 2 && c[s.pos + 2] < 128 && m.memory
    requires 0 < |s.stack| <= MAX_STACK && Last(s.stack) == I32
    ensures VerifyFrom(m, c, r, s) == VerifyFrom(m, c, r, s.(pos := s.pos + 3))
  {
    SmallUnsigned(c, s.pos + 1);
    SmallUnsigned(c, s.pos + 2);
    assert Immediates(m, c, LOAD, s.pos + 1) == Ok(s.pos + 3);
    var rest := Front(s.stack);
    assert PopAll(rest, I32, 0) == Ok(rest);
    assert PopAll(s.stack, I32, 1) == Ok(rest);
    assert rest + [I32] == s.stack;
    assert Retype(s.stack, LOAD) == Ok(s.stack);
  }

  lemma PhantomsEnter(m: Module, c: seq<byte>, s: Verifying)
    requires Phantoms(c) && m.memory && s == Start(1)
    ensures VerifyFrom(m, c, Some(I32), s) == Accepted
  {
    var top := Control(BLOCK, 0, false);
    VerifyOpen(m, c, Some(I32), s, s.stack);
    var s1 := Verifying(3, s.stack, s.controls + [top], false);
    VerifyConst(m, c, Some(I32), s1);
    PhantomsConst(m, c, s1.(pos := 5, stack := s1.stack + [I64]), s.controls, top);
  }

  lemma PhantomsConst(m: Module, c: seq<byte>, s: Verifying, outer: seq<Control>, top: Control)
    requires Phantoms(c) && m.memory && outer == [Control(FUNCTION, 0, false)] && top == Control(BLOCK, 0, false)
    requires s == Verifying(5, [I64], outer + [top], false)
    ensures VerifyFrom(m, c, Some(I32), s) == Accepted
  {
    VerifyConst(m, c, Some(I32), s);
    assert s.stack + [I32] == [I64, I32];
    PhantomsAccess(m, c, s.(pos := 7, stack := [I64, I32]), outer, top);
  }

  lemma PhantomsAccess(m: Module, c: seq<byte>, s: Verifying, outer: seq<Control>, top: Control)
    requires Phantoms(c) && m.memory && outer == [Control(FUNCTION, 0, false)] && top == Control(BLOCK, 0, false)
    requires s == Verifying(7, [I64, I32], outer + [top], false)
    ensures VerifyFrom(m, c, Some(I32), s) == Accepted
  {
    VerifyLoad(m, c, Some(I32), s);
    PhantomsLoaded(m, c, s.(pos := 10), outer, top);
  }

  lemma PhantomsLoaded(m: Module, c: seq<byte>, s: Verifying, outer: seq<Control>, top: Control)
    requires Phantoms(c) && outer == [Control(FUNCTION, 0, false)] && top == Control(BLOCK, 0, false)
    requires s == Verifying(10, [I64, I32], outer + [top], false)
    ensures VerifyFrom(m, c, Some(I32), s) == Accepted
  {
    assert Front(s.stack) == [I64];
    VerifyDrop(m, c, Some(I32), s);
    PhantomsDrop(m, c, s.(pos := 11, stack := [I64]), outer, top);
  }

  lemma PhantomsDrop(m: Module, c: seq<byte>, s: Verifying, outer: seq<Control>, top: Control)
    requires Phantoms(c) && outer == [Control(FUNCTION, 0, false)] && top == Control(BLOCK, 0, false)
    requires s == Verifying(11, [I64], outer + [top], false)
    ensures VerifyFrom(m, c, Some(I32), s) == Accepted
  {
    assert Front(s.stack) == [];
    VerifyDrop(m, c, Some(I32), s);
    var s1 := s.(pos := 12, stack := []);
    VerifyConst(m, c, Some(I32), s1);
    assert s1.stack + [I64] == s.stack;
    PhantomsClose(m, c, s.(pos := 14), outer, top);
  }

  lemma PhantomsClose(m: Module, c: seq<byte>, s: Verifying, outer: seq<Control>, top: Control)
    requires Phantoms(c) && outer == [Control(FUNCTION, 0, false)] && top == Control(BLOCK, 0, false)
    requires s == Verifying(14, [I64], outer + [top], false)
    ensures VerifyFrom(m, c, Some(I32), s) == Accepted
  {
    assert Front(s.stack) == [];
    VerifyDrop(m, c, Some(I32), s);
    var s1 := s.(pos := 15, stack := []);
    VerifyClose(m, c, Some(I32), s1, outer, top);
    ReturnSeven(m, c, s1.(pos := 16, controls := outer));
  }

  /** i32.const 0; i32.const 0; if; drop; i64.const 1; end; i64.const 1; i64.add; drop; i32.const 7; end */
  ghost predicate Retyped(c: seq<byte>) {
    c == [0x00, 0x41, 0x00, 0x41, 0x00, 0x04, 0x40, 0x1a, 0x42, 0x01, 0x0b, 0x42, 0x01, 0x7c, 0x1a, 0x41, 0x07, 0x0b]
  }

  lemma RetypedIsAccepted(m: Module, c: seq<byte>)
    requires Retyped(c)
    ensures Verify(m, c, Some(I32)) == Accepted
  {
    SmallLeb(c, 0);
    RetypedEnters(m, c, Start(1));
  }

  lemma RetypedEnters(m: Module, c: seq<byte>, s: Verifying)
    requires Retyped(c) && s == Start(1)
    ensures VerifyFrom(m, c, Some(I32), s) == Accepted
  {
    VerifyConst(m, c, Some(I32), s);
    var s1 := s.(pos := 3, stack := s.stack + [I32]);
    VerifyConst(m, c, Some(I32), s1);
    RetypedIf(m, c, s1.(pos := 5, stack := s1.stack + [I32]));
  }

  lemma RetypedIf(m: Module, c: seq<byte>, s: Verifying)
    requires Retyped(c) && s == Verifying(5, [I32, I32], [Control(FUNCTION, 0, false)], false)
    ensures VerifyFrom(m, c, Some(I32), s) == Accepted
  {
    var top := Control(IF, 1, false);
    VerifyOpen(m, c, Some(I32), s, [I32]);
    var s1 := s.(pos := 7, stack := [I32], controls := s.controls + [top]);
    assert Front(s1.stack) == [];
    VerifyDrop(m, c, Some(I32), s1);
    RetypedArm(m, c, s1.(pos := 8, stack := []), s.controls, top);
  }

  lemma RetypedArm(m: Module, c: seq<byte>, s: Verifying, outer: seq<Control>, top: Control)
    requires Retyped(c) && outer == [Control(FUNCTION, 0, false)] && top == Control(IF, 1, false)
    requires s == Verifying(8, [], outer + [top], false)
    ensures VerifyFrom(m, c, Some(I32), s) == Accepted
  {
    VerifyConst(m, c, Some(I32), s);
    var s1 := s.(pos := 10, stack := s.stack + [I64]);
    assert s1.stack == [I64];
    RetypedEnd(m, c, s1, outer, top);
  }

  lemma RetypedEnd(m: Module, c: seq<byte>, s: Verifying, outer: seq<Control>, top: Control)
    requires Retyped(c) && outer == [Control(FUNCTION, 0, false)] && top == Control(IF, 1, false)
    requires s == Verifying(10, [I64], outer + [top], false)
    ensures VerifyFrom(m, c, Some(I32), s) == Accepted
  {
    VerifyClose(m, c, Some(I32), s, outer, top);
    RetypedAdd(m, c, s.(pos := 11, controls := outer));
  }

  lemma RetypedAdd(m: Module, c: seq<byte>, s: Verifying)
    requires Retyped(c) && s == Verifying(11, [I64], [Control(FUNCTION, 0, false)], false)
    ensures VerifyFrom(m, c, Some(I32), s) == Accepted
  {
    VerifyConst(m, c, Some(I32), s);
    RetypedTail(m, c, s.(pos := 13, stack := s.stack + [I64]));
  }

  lemma VerifyAdd64(m: Module, c: seq<byte>, r: Option<ValType>, s: Verifying)
    requires s.pos < |c| && c[s.pos] == ADD64 && s.stack == [I64, I64]
    ensures VerifyFrom(m, c, r, s) == VerifyFrom(m, c, r, s.(pos := s.pos + 1, stack := [I64]))
  {
    var one: seq<ValType>, none: seq<ValType> := [I64], [];
    assert Front(one) == none && Front(s.stack) == one;
    assert PopAll(none, I64, 0) == Ok(none);
    assert PopAll(one, I64, 1) == Ok(none);
    assert PopAll(s.stack, I64, 2) == Ok(none);
    assert none + [I64] == one;
    assert Retype(s.stack, ADD64) == Ok(one);
  }

  lemma RetypedTail(m: Module, c: seq<byte>, s: Verifying)
    requires Retyped(c) && s == Verifying(13, [I64, I64], [Control(FUNCTION, 0, false)], false)
    ensures VerifyFrom(m, c, Some(I32), s) == Accepted
  {
    VerifyAdd64(m, c, Some(I32), s);
    var s1 := s.(pos := 14, stack := [I64]);
    assert Front(s1.stack) == [];
    VerifyDrop(m, c, Some(I32), s1);
    ReturnSeven(m, c, s1.(pos := 15, stack := []));
  }

  /** The arm is skipped, so the add meets the i32 the verifier thought was gone. */
  lemma ArmsCanRetype(c: seq<byte>, host: Host, fuel: nat, memory: seq<byte>, live: bool)
    requires Retyped(c) && fuel >= 5
    ensures Run(c, host, fuel, memory, live) == Trapped(Trap.TypeMismatch)
  {
    SmallLeb(c, 0);
    ArmIsReached(c, host, Boot(1, fuel, memory, live));
  }

  lemma ArmIsReached(c: seq<byte>, host: Host, m: Machine)
    requires Retyped(c) && m.pos == 1 && m.stack == [] && m.frames == [] && m.fuel >= 5
    ensures RunFrom(c, host, m) == Trapped(Trap.TypeMismatch)
  {
    RunConst(c, host, m);
    var m1 := m.(pos := 3, stack := m.stack + [V32(0)], fuel := m.fuel - 1);
    assert m1.stack == [V32(0)];
    ArmComesNext(c, host, m1);
  }

  lemma ArmComesNext(c: seq<byte>, host: Host, m: Machine)
    requires Retyped(c) && m.pos == 3 && m.stack == [V32(0)] && m.frames == [] && m.fuel >= 4
    ensures RunFrom(c, host, m) == Trapped(Trap.TypeMismatch)
  {
    RunConst(c, host, m);
    ArmIsSkipped(c, host, m.(pos := 5, stack := m.stack + [V32(0)], fuel := m.fuel - 1));
  }

  lemma ArmIsSkipped(c: seq<byte>, host: Host, m: Machine)
    requires Retyped(c)
    requires m.pos == 5 && m.stack == [V32(0), V32(0)] && m.frames == [] && m.fuel >= 3
    ensures RunFrom(c, host, m) == Trapped(Trap.TypeMismatch)
  {
    assert Scan(c, 10, 0, None) == Found(None, 10);
    assert Scan(c, 8, 0, None) == Scan(c, 9, 0, None) == Scan(c, 10, 0, None);
    assert Scan(c, 7, 0, None) == Found(None, 10);
    assert Front(m.stack) == [V32(0)];
    var m1 := m.(pos := 11, stack := [V32(0)], fuel := m.fuel - 1);
    assert Execute(c, host, m) == Continue(m1);
    AddMeetsI32(c, host, m1);
  }

  lemma AddMeetsI32(c: seq<byte>, host: Host, m: Machine)
    requires Retyped(c) && m.pos == 11 && m.stack == [V32(0)] && m.frames == [] && m.fuel >= 2
    ensures RunFrom(c, host, m) == Trapped(Trap.TypeMismatch)
  {
    RunConst(c, host, m);
    var m1 := m.(pos := 13, stack := m.stack + [V64(1)], fuel := m.fuel - 1);
    assert Front(m1.stack) == m.stack;
    assert Execute(c, host, m1) == Trapped(Trap.TypeMismatch);
  }
}
