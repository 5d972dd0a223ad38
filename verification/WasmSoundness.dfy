/** What verification buys the interpreter.

    The two programs agree only because every jump the interpreter computes by scanning bytes lands
    where the verifier closed the block. `Simulates` carries that agreement along a run.
 */
module WasmSoundness {
  import opened Common
  import opened WasmLeb
  import opened WasmVerifier
  import opened WasmInterpreter
  import opened WasmTrace
  import opened WasmScan

  // ------------------------------------------------------------------ the simulation

  ghost predicate FramesAgree(p: Program, s: Verifying, frames: seq<Frame>)
    requires Running(p, s)
  {
    && |frames| + 1 == |s.controls|
    && forall i :: 0 <= i < |frames| ==>
         frames[i].kind == s.controls[i + 1].kind && frames[i].end == EndOf(p, s, i + 2).pos
  }

  /** The machine stands where the verifier stood, at the same depth and in the same blocks. */
  ghost predicate Simulates(p: Program, start: Verifying, s: Verifying, m: Machine) {
    && Visits(p, start, s) && Running(p, s) && JumpsRight(p, start)
    && m.pos == s.pos && |m.stack| == |s.stack|
    && FramesAgree(p, s, m.frames)
  }

  /** `Simulates`, with the verifier's state read off the machine's position. */
  ghost predicate Agrees(p: Program, start: Verifying, m: Machine) {
    && Good(p, start)
    && VisitedAt(p, start, m.pos).Some?
    && Simulates(p, start, VisitedAt(p, start, m.pos).value, m)
  }

  ghost predicate ReturnsOne(host: Host) {
    forall n, ptr, len, memory ::
      host(n, ptr, len, memory).result.Ok? ==> host(n, ptr, len, memory).result.value.Some?
  }

  ghost predicate StackSafe(o: Outcome) {
    o.Trapped? ==> o.trap != StackUnderflow && o.trap != StackOverflow
  }

  /** Stack-safe, and if the run goes on, at this position and depth and in the same frames. */
  ghost predicate Lands(o: Outcome, pos: nat, depth: nat, frames: seq<Frame>) {
    && StackSafe(o) && !o.Return?
    && (o.Continue? ==> o.machine.pos == pos && |o.machine.stack| == depth && o.machine.frames == frames)
  }

  lemma CallDepth(host: Host, index: int, m: Machine)
    requires ReturnsOne(host) && 2 <= |m.stack| <= MAX_STACK
    ensures Lands(ExecuteCall(host, index, m), m.pos, |m.stack| - 1, m.frames)
  {
  }

  lemma MemoryDepth(offset: nat, m: Machine)
    requires 1 <= |m.stack| <= MAX_STACK
    ensures Lands(ExecuteLoad(offset, m), m.pos, |m.stack|, m.frames)
    ensures |m.stack| >= 2 ==> Lands(ExecuteStore(offset, m), m.pos, |m.stack| - 2, m.frames)
  {
  }

  lemma AccessLands(code: seq<byte>, op: byte, m: Machine)
    requires m.pos <= |code| && (op == LOAD || op == STORE) && Pops(op) <= |m.stack| <= MAX_STACK
    requires DecodeU32(code, m.pos).Got? && DecodeU32(code, DecodeU32(code, m.pos).next).Got?
    ensures Lands(ExecuteAccess(code, op, m), DecodeU32(code, DecodeU32(code, m.pos).next).next,
                  |m.stack| - Pops(op) + |Pushes(op)|, m.frames)
  {
    var offset := DecodeU32(code, DecodeU32(code, m.pos).next);
    MemoryDepth(offset.value, m.(pos := offset.next));
  }

  lemma ArithmeticDepth(op: byte, m: Machine)
    requires 1 <= |m.stack| <= MAX_STACK && (op != EQZ ==> |m.stack| >= 2)
    ensures Lands(ExecuteArithmetic(op, m), m.pos, |m.stack| - (if op == EQZ then 0 else 1), m.frames)
  {
  }

  lemma PlainLands(mod: Module, code: seq<byte>, host: Host, m: Machine)
    requires ReturnsOne(host) && m.pos < |code| && Plain(code[m.pos])
    requires var op := code[m.pos];
             && Pops(op) <= |m.stack| <= MAX_STACK + Pops(op) - |Pushes(op)| && |m.stack| <= MAX_STACK
             && Immediates(mod, code, op, m.pos + 1).Ok?
    ensures var op := code[m.pos];
            Lands(ExecutePlain(code, host, op, m), Immediates(mod, code, op, m.pos + 1).value,
                  |m.stack| - Pops(op) + |Pushes(op)|, m.frames)
  {
    var op, moved := code[m.pos], m.(pos := Immediates(mod, code, code[m.pos], m.pos + 1).value);
    if op == CALL {
      CallDepth(host, DecodeU32(code, m.pos + 1).value, moved);
    } else if op == LOAD || op == STORE {
      AccessLands(code, op, m.(pos := m.pos + 1));
    } else if op != CONST32 && op != CONST64 {
      ArithmeticDepth(op, moved);
    }
  }

  lemma FramesAfterNext(p: Program, s: Verifying, frames: seq<Frame>)
    requires Running(p, s) && FramesAgree(p, s, frames)
    requires p.code[s.pos] != END && !(BLOCK <= p.code[s.pos] <= IF)
    ensures Running(p, Next(p, s)) && FramesAgree(p, Next(p, s), frames)
  {
    NextIsGood(p, s);
    NextControls(p, s);
  }

  /** Leaving level `d` at its end: every outer frame keeps its end. */
  lemma AfterEnd(p: Program, start: Verifying, s: Verifying, d: nat)
    requires Visits(p, start, s) && Running(p, s) && 2 <= d <= |s.controls|
    ensures var e := EndOf(p, s, d);
            && Running(p, e) && Running(p, Next(p, e)) && Visits(p, start, Next(p, e))
            && Next(p, e).pos == e.pos + 1 && Next(p, e).stack == e.stack
            && |e.stack| == s.controls[d - 1].height && Next(p, e).controls == s.controls[..d - 1]
            && forall i :: 1 <= i < d ==> EndOf(p, Next(p, e), i) == EndOf(p, s, i)
  {
    var e := EndOf(p, s, d);
    EndOfFacts(p, s, d);
    VisitsEnd(p, start, s, d);
    VisitsNext(p, start, e);
    NextIsGood(p, e);
    forall i | 1 <= i < d ensures EndOf(p, Next(p, e), i) == EndOf(p, s, i) {
      EndOfStable(p, s, d, i);
    }
  }

  /** Entering level `d`'s else: this frame and every outer one keeps its end. */
  lemma AfterElse(p: Program, start: Verifying, s: Verifying, d: nat)
    requires Visits(p, start, s) && Running(p, s) && 2 <= d <= |s.controls|
    requires ElseOf(p, s, d).Some?
    ensures var x := ElseOf(p, s, d).value;
            && Running(p, x) && Running(p, Next(p, x)) && Visits(p, start, Next(p, x))
            && Next(p, x).pos == x.pos + 1 && Next(p, x).stack == x.stack
            && |x.stack| == s.controls[d - 1].height && |Next(p, x).controls| == d
            && (forall i :: 0 <= i < d ==> SameBlock(Next(p, x).controls[i], s.controls[i]))
            && forall i :: 1 <= i <= d ==> EndOf(p, Next(p, x), i) == EndOf(p, s, i)
  {
    var x := ElseOf(p, s, d).value;
    ElseOfFacts(p, s, d);
    VisitsElse(p, start, s, d);
    VisitsNext(p, start, x);
    NextIsGood(p, x);
    NextControls(p, x);
    forall i | 0 <= i < d - 1 ensures x.controls[i] == s.controls[i] {
      assert x.controls[i] == x.controls[..d - 1][i];
    }
  }

  /** Where a block opening can leave the machine. */
  lemma OpenOutcomes(p: Program, s: Verifying, m: Machine)
    requires Running(p, s) && BLOCK <= p.code[s.pos] <= IF && ScansRight(p, s)
    requires m.pos == s.pos && |m.stack| == |s.stack| && |m.frames| < MAX_CONTROL
    ensures Running(p, Next(p, s)) && |Next(p, s).controls| == |s.controls| + 1
    ensures var op, n, d := p.code[s.pos], Next(p, s), |s.controls| + 1;
            var o, target, rest := ExecuteOpen(p.code, op, m), Target(p, n, d, None), m.stack[..|n.stack|];
            var entered := m.frames + [Frame(op, target.endAt)];
            && n.pos == s.pos + 2 && |n.stack| == (if op == IF then |s.stack| - 1 else |s.stack|)
            && StackSafe(o) && !o.Return?
            && (o.Continue? ==>
                  || o.machine == m.(pos := n.pos, stack := rest, frames := entered)
                  || (target.elseAt.Some?
                      && o.machine == m.(pos := target.elseAt.value + 1, stack := rest, frames := entered))
                  || (target.elseAt.None? && o.machine == m.(pos := target.endAt + 1, stack := rest)))
  {
    NextOpened(p, s);
    assert m.stack[..|m.stack|] == m.stack;
  }

  lemma EnterFrames(p: Program, s: Verifying, frames: seq<Frame>)
    requires Running(p, s) && Running(p, Next(p, s)) && FramesAgree(p, s, frames)
    requires BLOCK <= p.code[s.pos] <= IF
    ensures var n := Next(p, s);
            FramesAgree(p, n, frames + [Frame(p.code[s.pos], EndOf(p, n, |n.controls|).pos)])
  {
  }

  /** The jump to an else lands on the verifier's state behind it. */
  lemma ToElse(p: Program, start: Verifying, s: Verifying, m: Machine)
    requires Visits(p, start, s) && Running(p, s) && |s.controls| >= 2 && JumpsRight(p, start)
    requires FramesAgree(p, s, m.frames) && ElseOf(p, s, |s.controls|).Some?
    requires m.pos == ElseOf(p, s, |s.controls|).value.pos + 1 && |m.stack| == Last(s.controls).height
    ensures Agrees(p, start, m)
  {
    AfterElse(p, start, s, |s.controls|);
    assert Simulates(p, start, Next(p, ElseOf(p, s, |s.controls|).value), m);
  }

  /** The jump past an end lands on the verifier's state behind it. */
  lemma PastEnd(p: Program, start: Verifying, s: Verifying, m: Machine, frame: Frame)
    requires Visits(p, start, s) && Running(p, s) && |s.controls| >= 2 && JumpsRight(p, start)
    requires FramesAgree(p, s, m.frames + [frame])
    requires m.pos == EndOf(p, s, |s.controls|).pos + 1 && |m.stack| == Last(s.controls).height
    ensures Agrees(p, start, m)
  {
    AfterEnd(p, start, s, |s.controls|);
    FramesPastEnd(p, start, s, m.frames, frame);
    assert Simulates(p, start, Next(p, EndOf(p, s, |s.controls|)), m);
  }

  lemma FramesPastEnd(p: Program, start: Verifying, s: Verifying, frames: seq<Frame>, frame: Frame)
    requires Visits(p, start, s) && Running(p, s) && |s.controls| >= 2 && FramesAgree(p, s, frames + [frame])
    ensures var e := EndOf(p, s, |s.controls|);
            Running(p, e) && Running(p, Next(p, e)) && FramesAgree(p, Next(p, e), frames)
  {
    AfterEnd(p, start, s, |s.controls|);
    var n := Next(p, EndOf(p, s, |s.controls|));
    forall i | 0 <= i < |frames|
      ensures frames[i].kind == n.controls[i + 1].kind && frames[i].end == EndOf(p, n, i + 2).pos
    {
      assert frames[i] == (frames + [frame])[i];
    }
  }

  lemma OpenAgrees(p: Program, start: Verifying, s: Verifying, m: Machine)
    requires Simulates(p, start, s, m) && BLOCK <= p.code[s.pos] <= IF
    ensures var o := ExecuteOpen(p.code, p.code[s.pos], m);
            StackSafe(o) && !o.Return? && (o.Continue? ==> Agrees(p, start, o.machine))
  {
    var n, d := Next(p, s), |s.controls| + 1;
    VisitsNext(p, start, s);
    OpenOutcomes(p, s, m);
    EnterFrames(p, s, m.frames);
    EndOfFacts(p, n, d);
    ElseOfFacts(p, n, d);
    var o := ExecuteOpen(p.code, p.code[s.pos], m);
    if o.Continue? {
      if o.machine.pos == n.pos {
        assert Simulates(p, start, n, o.machine);
      } else if ElseOf(p, n, d).Some? {
        ToElse(p, start, n, o.machine);
      } else {
        PastEnd(p, start, n, o.machine, Frame(p.code[s.pos], EndOf(p, n, d).pos));
      }
    }
  }

  lemma ElseAgrees(p: Program, start: Verifying, s: Verifying, m: Machine)
    requires Simulates(p, start, s, m) && p.code[s.pos] == ELSE
    ensures var o := ExecuteElse(m);
            o.Continue? && Agrees(p, start, o.machine)
  {
    assert m.frames == Front(m.frames) + [Last(m.frames)];
    PastEnd(p, start, s, ExecuteElse(m).machine, Last(m.frames));
  }

  lemma EndAgrees(p: Program, start: Verifying, s: Verifying, m: Machine)
    requires Simulates(p, start, s, m) && p.code[s.pos] == END
    ensures var o := ExecuteEnd(m);
            (p.result.Some? ==> StackSafe(o)) && (o.Continue? ==> Agrees(p, start, o.machine))
  {
    if |s.controls| >= 2 {
      EndOfFacts(p, s, |s.controls|);
      assert m.frames == Front(m.frames) + [Last(m.frames)];
      PastEnd(p, start, s, ExecuteEnd(m).machine, Last(m.frames));
    }
  }

  lemma StraightAgrees(p: Program, host: Host, start: Verifying, s: Verifying, m: Machine)
    requires Simulates(p, start, s, m) && ReturnsOne(host) && m.fuel != 0
    requires var op := p.code[s.pos]; !(BLOCK <= op <= ELSE) && op != END
    ensures var o := Execute(p.code, host, m);
            StackSafe(o) && (o.Continue? ==> Agrees(p, start, o.machine))
  {
    VisitsNext(p, start, s);
    FramesAfterNext(p, s, m.frames);
    if Plain(p.code[s.pos]) {
      PlainNext(p, s);
      PlainLands(p.m, p.code, host, m.(fuel := m.fuel - 1));
    }
  }

  /** One turn keeps the machine in step with the verifier and never trips over the stack. */
  lemma TurnAgrees(p: Program, host: Host, start: Verifying, m: Machine)
    requires Agrees(p, start, m) && ReturnsOne(host)
    ensures var o := Execute(p.code, host, m);
            (p.result.Some? ==> StackSafe(o)) && (o.Continue? ==> Agrees(p, start, o.machine))
  {
    var s := VisitedAt(p, start, m.pos).value;
    if m.fuel != 0 {
      var op, m1 := p.code[s.pos], m.(fuel := m.fuel - 1);
      assert Simulates(p, start, s, m1);
      if BLOCK <= op <= IF {
        OpenAgrees(p, start, s, m1);
      } else if op == ELSE {
        ElseAgrees(p, start, s, m1);
      } else if op == END {
        EndAgrees(p, start, s, m1);
      } else {
        StraightAgrees(p, host, start, s, m);
      }
    }
  }

  /** From agreement, after any number of turns the operand depth is the verifier's depth at that
      position and the frames are its blocks; with a result to return, no turn trapped on the stack. */
  lemma {:induction false} DepthAgrees(p: Program, host: Host, start: Verifying, m: Machine, n: nat)
    requires Agrees(p, start, m) && ReturnsOne(host)
    ensures var o := After(p.code, host, m, n);
            (p.result.Some? ==> StackSafe(o)) && (o.Continue? ==> Agrees(p, start, o.machine))
  {
    if n != 0 {
      DepthAgrees(p, host, start, m, n - 1);
      var before := After(p.code, host, m, n - 1);
      if before.Continue? {
        TurnAgrees(p, host, start, before.machine);
      }
    }
  }

  // ------------------------------------------------------------------ whole runs

  lemma BootAgrees(p: Program, fuel: nat, memory: seq<byte>, live: bool)
    requires Verify(p.m, p.code, p.result) == Accepted && JumpsRight(p, StartOf(p))
    ensures Agrees(p, StartOf(p), Boot(StartOf(p).pos, fuel, memory, live))
  {
  }

  lemma {:induction false} RunIsAfter(code: seq<byte>, host: Host, m: Machine) returns (n: nat)
    ensures RunFrom(code, host, m) == After(code, host, m, n) && !RunFrom(code, host, m).Continue?
    decreases m.fuel
  {
    ExecuteBurnsFuel(code, host, m);
    var o := Execute(code, host, m);
    assert After(code, host, m, 1) == o by { assert After(code, host, m, 0) == Continue(m); }
    if o.Continue? {
      var k := RunIsAfter(code, host, o.machine);
      AfterShift(code, host, m, k);
      n := k + 1;
    } else {
      n := 1;
    }
  }

  lemma {:induction false} AfterShift(code: seq<byte>, host: Host, m: Machine, k: nat)
    requires Execute(code, host, m).Continue?
    ensures After(code, host, m, k + 1) == After(code, host, Execute(code, host, m).machine, k)
  {
    if k == 0 {
      assert After(code, host, m, 0) == Continue(m);
    } else {
      AfterShift(code, host, m, k - 1);
    }
  }

  /** An accepted body with a result that passes the scan check never trips over the stack, whatever the fuel
      and memory, and whatever single value the host answers a call with. */
  lemma VerifiedRunIsStackSafe(p: Program, host: Host, fuel: nat, memory: seq<byte>, live: bool)
    requires Verify(p.m, p.code, p.result) == Accepted && p.result.Some?
    requires SteadyBody(p) && ReturnsOne(host)
    ensures StackSafe(Run(p.code, host, fuel, memory, live))
  {
    var m := Boot(StartOf(p).pos, fuel, memory, live);
    JumpsRightExactly(p);
    BootAgrees(p, fuel, memory, live);
    var n := RunIsAfter(p.code, host, m);
    DepthAgrees(p, host, StartOf(p), m, n);
  }

  /** In step with the verifier the cursor only moves forward. */
  lemma TurnAdvances(p: Program, host: Host, start: Verifying, m: Machine)
    requires Agrees(p, start, m) && ReturnsOne(host)
    ensures m.pos < |p.code|
    ensures Execute(p.code, host, m).Continue? ==> Execute(p.code, host, m).machine.pos > m.pos
  {
    var s := VisitedAt(p, start, m.pos).value;
    if m.fuel != 0 {
      var op, m1 := p.code[s.pos], m.(fuel := m.fuel - 1);
      if BLOCK <= op <= IF {
        OpenAdvances(p, s, m1);
      } else if op == ELSE {
        EndOfFacts(p, s, |s.controls|);
      } else if Plain(op) {
        NextIsGood(p, s);
        PlainNext(p, s);
        PlainLands(p.m, p.code, host, m1);
      }
    }
  }

  lemma OpenAdvances(p: Program, s: Verifying, m: Machine)
    requires Running(p, s) && BLOCK <= p.code[s.pos] <= IF && ScansRight(p, s)
    requires m.pos == s.pos && |m.stack| == |s.stack| && |m.frames| < MAX_CONTROL
    ensures var o := ExecuteOpen(p.code, p.code[s.pos], m);
            o.Continue? ==> o.machine.pos > m.pos
  {
    OpenOutcomes(p, s, m);
    EndOfFacts(p, Next(p, s), |s.controls| + 1);
    ElseOfFacts(p, Next(p, s), |s.controls| + 1);
  }

  /** A run takes at most as many turns as there are bytes left, so that much fuel is enough. */
  lemma {:induction false} TurnsAreBounded(p: Program, host: Host, start: Verifying, m: Machine, n: nat)
    requires Agrees(p, start, m) && ReturnsOne(host)
    ensures var o := After(p.code, host, m, n);
            && (o.Continue? ==> m.pos + n <= o.machine.pos < |p.code| && o.machine.fuel == m.fuel - n)
            && (m.fuel >= |p.code| - m.pos ==> o != Trapped(FuelExhausted))
  {
    if n == 0 {
      TurnAdvances(p, host, start, m);
    } else {
      TurnsAreBounded(p, host, start, m, n - 1);
      DepthAgrees(p, host, start, m, n - 1);
      var before := After(p.code, host, m, n - 1);
      if before.Continue? {
        TurnAgrees(p, host, start, before.machine);
        TurnAdvances(p, host, start, before.machine);
        ExecuteBurnsFuel(p.code, host, before.machine);
        var o := Execute(p.code, host, before.machine);
        if o.Continue? {
          TurnAdvances(p, host, start, o.machine);
        } else if o == Trapped(FuelExhausted) {
          OnlyEmptyFuelExhausts(p, host, start, before.machine);
        }
      }
    }
  }

  lemma OnlyEmptyFuelExhausts(p: Program, host: Host, start: Verifying, m: Machine)
    requires Agrees(p, start, m) && ReturnsOne(host)
    requires Execute(p.code, host, m) == Trapped(FuelExhausted)
    ensures m.fuel == 0
  {
  }

  /** For every accepted body that passes the check, fuel of its length, within the kernel's cap, never runs out. */
  lemma FuelSuffices(p: Program, host: Host, fuel: nat, memory: seq<byte>, live: bool)
    requires Verify(p.m, p.code, p.result) == Accepted && SteadyBody(p) && ReturnsOne(host)
    requires |p.code| <= fuel && |p.code| <= MAX_FUEL
    ensures Run(p.code, host, fuel, memory, live) != Trapped(FuelExhausted)
  {
    var m := Boot(StartOf(p).pos, fuel, memory, live);
    JumpsRightExactly(p);
    BootAgrees(p, fuel, memory, live);
    var n := RunIsAfter(p.code, host, m);
    TurnsAreBounded(p, host, StartOf(p), m, n);
  }
}
