/** Operand types along a run.

    The verifier compares only heights at `else` and `end`, so an accepted block may pop below its
    entry height and push back other types. `Kept` excludes that for the arms of an `if`, the only
    places where a run can leave the verifier's straight line; `KeptExactly` proves the condition
    exact, `FloorsKeepTypes` gives a simple sufficient check, and `ArmsCanRetype` an accepted body
    that breaks without it.
 */
module WasmTypes {
  import opened Common
  import opened WasmLeb
  import opened WasmVerifier
  import opened WasmInterpreter
  import opened WasmTrace
  import opened WasmScan
  import opened WasmSoundness

  ghost predicate TagsMatch(stack: seq<Value>, types: seq<ValType>) {
    |stack| == |types| && forall i :: 0 <= i < |stack| ==> Tag(stack[i]) == types[i]
  }

  /** Entering an `if`, reaching its `else` and reaching its `end` all show the same operand types. */
  ghost predicate Kept(p: Program, s: Verifying)
    requires Good(p, s)
    decreases |p.code| - s.pos
  {
    if s.controls == [] then true
    else
      NextIsGood(p, s);
      var op, n, d := p.code[s.pos], Next(p, s), |s.controls|;
      && (op == IF ==> EndOf(p, n, d + 1).stack == n.stack
                       && (ElseOf(p, n, d + 1).Some? ==> ElseOf(p, n, d + 1).value.stack == n.stack))
      && (op == ELSE ==> EndOf(p, s, d).stack == s.stack)
      && Kept(p, n)
  }

  lemma {:induction false} KeptLater(p: Program, s: Verifying, d: nat)
    requires Running(p, s) && 1 <= d <= |s.controls| && Kept(p, s)
    ensures Running(p, EndOf(p, s, d)) && Kept(p, EndOf(p, s, d))
    ensures ElseOf(p, s, d).Some? ==> Running(p, ElseOf(p, s, d).value) && Kept(p, ElseOf(p, s, d).value)
    decreases |p.code| - s.pos
  {
    NextIsGood(p, s);
    if !(|s.controls| == d && p.code[s.pos] == END) {
      KeptLater(p, Next(p, s), d);
    }
  }

  /** The host answers a call with one i32. */
  ghost predicate ReturnsI32(host: Host) {
    forall n, ptr, len, memory ::
      host(n, ptr, len, memory).result.Ok? ==>
        host(n, ptr, len, memory).result.value.Some? && host(n, ptr, len, memory).result.value.value.V32?
  }

  /** The traps left to a verified body: out of fuel, out of memory bounds, an import other than
      the first, or memory the host has revoked. */
  ghost predicate OnlyResourceTraps(o: Outcome) {
    o.Trapped? ==> o.trap in {FuelExhausted, MemoryFault, HostDenied, Cancelled}
  }

  ghost predicate TypedAgrees(p: Program, start: Verifying, m: Machine) {
    && Agrees(p, start, m)
    && var s := VisitedAt(p, start, m.pos).value;
       Kept(p, s) && TagsMatch(m.stack, s.stack)
  }

  // ------------------------------------------------------------------ operand instructions

  /** Resource traps only, and if the run goes on, with these types on the stack. */
  ghost predicate Types(o: Outcome, types: seq<ValType>) {
    OnlyResourceTraps(o) && (o.Continue? ==> TagsMatch(o.machine.stack, types))
  }

  ghost predicate Ready(m: Machine, types: seq<ValType>, t: ValType, count: nat) {
    && TagsMatch(m.stack, types) && count <= |types| <= MAX_STACK
    && forall i :: |types| - count <= i < |types| ==> types[i] == t
  }

  lemma PopOneTyped(m: Machine, types: seq<ValType>, t: ValType)
    requires Ready(m, types, t, 1)
    ensures PopOne(m, t).One? && PopOne(m, t).m == m.(stack := m.stack[..|types| - 1])
  {
  }

  lemma PopTwoTyped(m: Machine, types: seq<ValType>, t: ValType)
    requires Ready(m, types, t, 2)
    ensures PopTwo(m, t).Two? && PopTwo(m, t).m == m.(stack := m.stack[..|types| - 2])
  {
    PopOneTyped(m, types, t);
    var m1 := PopOne(m, t).m;
    assert Tag(m.stack[|types| - 2]) == t;
    assert m1.stack[..|types| - 2] == m.stack[..|types| - 2];
  }

  lemma CallTyped(host: Host, index: int, m: Machine, types: seq<ValType>)
    requires ReturnsI32(host) && Ready(m, types, I32, 2)
    ensures Types(ExecuteCall(host, index, m), types[..|types| - 2] + [I32])
  {
    PopTwoTyped(m, types, I32);
  }

  lemma LoadTyped(offset: nat, m: Machine, types: seq<ValType>)
    requires Ready(m, types, I32, 1)
    ensures Types(ExecuteLoad(offset, m), types[..|types| - 1] + [I32])
  {
    PopOneTyped(m, types, I32);
  }

  lemma StoreTyped(offset: nat, m: Machine, types: seq<ValType>)
    requires Ready(m, types, I32, 2)
    ensures Types(ExecuteStore(offset, m), types[..|types| - 2])
  {
    PopTwoTyped(m, types, I32);
  }

  lemma ArithmeticTyped(op: byte, m: Machine, types: seq<ValType>)
    requires op == EQZ || op == ADD64 || ADD <= op <= MUL
    requires Ready(m, types, Popped(op), Pops(op))
    ensures Types(ExecuteArithmetic(op, m), types[..|types| - Pops(op)] + Pushes(op))
  {
    if op == EQZ { PopOneTyped(m, types, I32); } else { PopTwoTyped(m, types, Popped(op)); }
  }

  lemma AccessTyped(code: seq<byte>, op: byte, m: Machine, types: seq<ValType>)
    requires m.pos <= |code| && (op == LOAD || op == STORE) && Ready(m, types, I32, Pops(op))
    requires DecodeU32(code, m.pos).Got? && DecodeU32(code, DecodeU32(code, m.pos).next).Got?
    ensures Types(ExecuteAccess(code, op, m), types[..|types| - Pops(op)] + Pushes(op))
  {
    var offset := DecodeU32(code, DecodeU32(code, m.pos).next);
    if op == LOAD {
      LoadTyped(offset.value, m.(pos := offset.next), types);
    } else {
      StoreTyped(offset.value, m.(pos := offset.next), types);
      assert types[..|types| - 2] + [] == types[..|types| - 2];
    }
  }

  lemma PlainTyped(mod: Module, code: seq<byte>, host: Host, m: Machine, types: seq<ValType>)
    requires ReturnsI32(host) && m.pos < |code| && Plain(code[m.pos])
    requires var op := code[m.pos];
             && Ready(m, types, Popped(op), Pops(op)) && |types| - Pops(op) + |Pushes(op)| <= MAX_STACK
             && Immediates(mod, code, op, m.pos + 1).Ok?
    ensures var op := code[m.pos];
            Types(ExecutePlain(code, host, op, m), types[..|types| - Pops(op)] + Pushes(op))
  {
    var op, moved := code[m.pos], m.(pos := Immediates(mod, code, code[m.pos], m.pos + 1).value);
    if op == CALL {
      CallTyped(host, DecodeU32(code, m.pos + 1).value, moved, types);
    } else if op == LOAD || op == STORE {
      AccessTyped(code, op, m.(pos := m.pos + 1), types);
    } else if op != CONST32 && op != CONST64 {
      ArithmeticTyped(op, moved, types);
    } else {
      assert types[..|types|] == types;
    }
  }

  // ------------------------------------------------------------------ one turn, then every turn

  /** Typed agreement with the verifier's state given outright. */
  ghost predicate TypedAt(p: Program, start: Verifying, s: Verifying, m: Machine) {
    Simulates(p, start, s, m) && Kept(p, s) && TagsMatch(m.stack, s.stack)
  }

  /** With the condition's tag known to match, opening a block cannot trap. */
  lemma OpenContinues(p: Program, s: Verifying, m: Machine)
    requires Running(p, s) && BLOCK <= p.code[s.pos] <= IF && ScansRight(p, s)
    requires m.pos == s.pos && TagsMatch(m.stack, s.stack) && |m.frames| < MAX_CONTROL
    ensures ExecuteOpen(p.code, p.code[s.pos], m).Continue?
  {
    NextOpened(p, s);
    if p.code[s.pos] == IF {
      PopOneTyped(m, s.stack, I32);
    }
  }

  /** The verifier visited `pos`, with these operand types, and keeps types from there on. */
  ghost predicate ShowsAt(p: Program, start: Verifying, pos: nat, types: seq<ValType>) {
    && Good(p, start) && VisitedAt(p, start, pos).Some?
    && var x := VisitedAt(p, start, pos).value;
       Good(p, x) && Kept(p, x) && x.stack == types
  }

  lemma TurnsShow(p: Program, start: Verifying, s: Verifying, d: nat)
    requires Visits(p, start, s) && Running(p, s) && Kept(p, s) && 2 <= d <= |s.controls|
    ensures ShowsAt(p, start, EndOf(p, s, d).pos + 1, EndOf(p, s, d).stack)
    ensures ElseOf(p, s, d).Some? ==> ShowsAt(p, start, ElseOf(p, s, d).value.pos + 1, ElseOf(p, s, d).value.stack)
  {
    KeptLater(p, s, d);
    AfterEnd(p, start, s, d);
    if ElseOf(p, s, d).Some? {
      AfterElse(p, start, s, d);
    }
  }

  /** All three places an opening can lead to show the types of the block's entry. */
  lemma OpenKeeps(p: Program, start: Verifying, s: Verifying)
    requires Visits(p, start, s) && Running(p, s) && Kept(p, s) && BLOCK <= p.code[s.pos] <= IF
    ensures var n, d := Next(p, s), |s.controls| + 1;
            && Running(p, n) && |n.controls| == d && n.stack == s.stack[..|n.stack|]
            && ShowsAt(p, start, n.pos, n.stack)
            && (p.code[s.pos] == IF ==> ShowsAt(p, start, EndOf(p, n, d).pos + 1, n.stack))
            && (p.code[s.pos] == IF && ElseOf(p, n, d).Some? ==>
                  ShowsAt(p, start, ElseOf(p, n, d).value.pos + 1, n.stack))
  {
    NextOpened(p, s);
    VisitsNext(p, start, s);
    TurnsShow(p, start, Next(p, s), |s.controls| + 1);
  }

  lemma Shown(p: Program, start: Verifying, m: Machine, types: seq<ValType>)
    requires Agrees(p, start, m) && ShowsAt(p, start, m.pos, types) && TagsMatch(m.stack, types)
    ensures TypedAgrees(p, start, m)
  {
  }

  lemma OpenTyped(p: Program, start: Verifying, s: Verifying, m: Machine)
    requires TypedAt(p, start, s, m) && BLOCK <= p.code[s.pos] <= IF
    ensures var o := ExecuteOpen(p.code, p.code[s.pos], m);
            o.Continue? && TypedAgrees(p, start, o.machine)
  {
    OpenAgrees(p, start, s, m);
    OpenContinues(p, s, m);
    OpenKeeps(p, start, s);
    var after := ExecuteOpen(p.code, p.code[s.pos], m).machine;
    OpenShows(p, start, s, m);
    Shown(p, start, after, Next(p, s).stack);
  }

  lemma OpenShows(p: Program, start: Verifying, s: Verifying, m: Machine)
    requires TypedAt(p, start, s, m) && BLOCK <= p.code[s.pos] <= IF
    requires ExecuteOpen(p.code, p.code[s.pos], m).Continue?
    ensures var after := ExecuteOpen(p.code, p.code[s.pos], m).machine;
            ShowsAt(p, start, after.pos, Next(p, s).stack) && TagsMatch(after.stack, Next(p, s).stack)
  {
    OpenKeeps(p, start, s);
    OpenOutcomes(p, s, m);
    if p.code[s.pos] != IF {
      BlocksDoNotBranch(p, s, m);
    }
  }

  lemma BlocksDoNotBranch(p: Program, s: Verifying, m: Machine)
    requires Running(p, s) && BLOCK <= p.code[s.pos] < IF && ScansRight(p, s)
    requires m.pos == s.pos && |m.stack| == |s.stack|
    ensures var o := ExecuteOpen(p.code, p.code[s.pos], m);
            o.Continue? ==> o.machine.pos == Next(p, s).pos
  {
  }

  lemma ElseTyped(p: Program, start: Verifying, s: Verifying, m: Machine)
    requires TypedAt(p, start, s, m) && p.code[s.pos] == ELSE
    ensures var o := ExecuteElse(m);
            o.Continue? && TypedAgrees(p, start, o.machine)
  {
    ElseAgrees(p, start, s, m);
    TurnsShow(p, start, s, |s.controls|);
    Shown(p, start, ExecuteElse(m).machine, s.stack);
  }

  lemma EndTyped(p: Program, start: Verifying, s: Verifying, m: Machine)
    requires TypedAt(p, start, s, m) && p.code[s.pos] == END
    ensures var o := ExecuteEnd(m);
            && (p.result == Some(I32) ==> !o.Trapped? && !o.HostTrapped?)
            && (o.Continue? ==> TypedAgrees(p, start, o.machine))
  {
    EndAgrees(p, start, s, m);
    if ExecuteEnd(m).Continue? {
      TurnsShow(p, start, s, |s.controls|);
      Shown(p, start, ExecuteEnd(m).machine, s.stack);
    }
  }

  lemma PlainTurnTyped(p: Program, host: Host, s: Verifying, m: Machine)
    requires Running(p, s) && Plain(p.code[s.pos]) && m.pos == s.pos && TagsMatch(m.stack, s.stack)
    requires ReturnsI32(host)
    ensures Types(ExecutePlain(p.code, host, p.code[s.pos], m), Next(p, s).stack)
  {
    PlainNext(p, s);
    PlainTyped(p.m, p.code, host, m, s.stack);
  }

  lemma StraightTyped(p: Program, host: Host, start: Verifying, s: Verifying, m: Machine)
    requires TypedAt(p, start, s, m) && ReturnsI32(host) && m.fuel != 0
    requires var op := p.code[s.pos]; !(BLOCK <= op <= ELSE) && op != END
    ensures Running(p, Next(p, s)) && Types(Execute(p.code, host, m), Next(p, s).stack)
  {
    NextIsGood(p, s);
    if Plain(p.code[s.pos]) {
      PlainTurnTyped(p, host, s, m.(fuel := m.fuel - 1));
    }
  }

  lemma StraightMoves(p: Program, host: Host, start: Verifying, s: Verifying, m: Machine)
    requires TypedAt(p, start, s, m) && ReturnsI32(host) && m.fuel != 0
    requires var op := p.code[s.pos]; !(BLOCK <= op <= ELSE) && op != END
    ensures var o := Execute(p.code, host, m);
            o.Continue? ==> Running(p, Next(p, s)) && Visits(p, start, Next(p, s)) && Kept(p, Next(p, s))
                            && o.machine.pos == Next(p, s).pos
  {
    NextIsGood(p, s);
    VisitsNext(p, start, s);
    if Plain(p.code[s.pos]) {
      PlainNext(p, s);
      PlainLands(p.m, p.code, host, m.(fuel := m.fuel - 1));
    }
  }

  lemma TurnTyped(p: Program, host: Host, start: Verifying, m: Machine)
    requires TypedAgrees(p, start, m) && ReturnsI32(host)
    ensures var o := Execute(p.code, host, m);
            (p.result == Some(I32) ==> OnlyResourceTraps(o)) && (o.Continue? ==> TypedAgrees(p, start, o.machine))
  {
    var s := VisitedAt(p, start, m.pos).value;
    if m.fuel != 0 {
      var op, m1 := p.code[s.pos], m.(fuel := m.fuel - 1);
      assert TypedAt(p, start, s, m) && TypedAt(p, start, s, m1);
      if BLOCK <= op <= IF {
        OpenTyped(p, start, s, m1);
      } else if op == ELSE {
        ElseTyped(p, start, s, m1);
      } else if op == END {
        EndTyped(p, start, s, m1);
      } else {
        TurnAgrees(p, host, start, m);
        StraightTyped(p, host, start, s, m);
        StraightMoves(p, host, start, s, m);
      }
    }
  }

  /** From typed agreement, after any number of turns every runtime tag is the verifier's type at
      that position; in an i32 body no turn trapped on a type or the stack. */
  lemma {:induction false} TypesAgree(p: Program, host: Host, start: Verifying, m: Machine, n: nat)
    requires TypedAgrees(p, start, m) && ReturnsI32(host)
    ensures var o := After(p.code, host, m, n);
            (p.result == Some(I32) ==> OnlyResourceTraps(o)) && (o.Continue? ==> TypedAgrees(p, start, o.machine))
  {
    if n != 0 {
      TypesAgree(p, host, start, m, n - 1);
      var before := After(p.code, host, m, n - 1);
      if before.Continue? {
        TurnTyped(p, host, start, before.machine);
      }
    }
  }

  /** A whole run of such a body returns an i32 or stops for a resource or for the host. */
  lemma VerifiedRunIsTypeSafe(p: Program, host: Host, fuel: nat, memory: seq<byte>, live: bool)
    requires Verify(p.m, p.code, p.result) == Accepted && p.result == Some(I32)
    requires SteadyBody(p) && Kept(p, StartOf(p)) && ReturnsI32(host)
    ensures OnlyResourceTraps(Run(p.code, host, fuel, memory, live))
  {
    var m := Boot(StartOf(p).pos, fuel, memory, live);
    JumpsRightExactly(p);
    BootAgrees(p, fuel, memory, live);
    var n := RunIsAfter(p.code, host, m);
    TypesAgree(p, host, StartOf(p), m, n);
  }

  // ------------------------------------------------------------------ the condition is exact

  /** In step with the verifier, with its types as tags. */
  ghost predicate Tagged(p: Program, start: Verifying, m: Machine) {
    Agrees(p, start, m) && TagsMatch(m.stack, VisitedAt(p, start, m.pos).value.stack)
  }

  /** No turn that goes on can leave the verifier's types. */
  ghost predicate TurnsKeepTags(p: Program, start: Verifying, host: Host) {
    forall m :: Tagged(p, start, m) && Execute(p.code, host, m).Continue?
                ==> Tagged(p, start, Execute(p.code, host, m).machine)
  }

  lemma {:induction false} KeptVisited(p: Program, start: Verifying, s: Verifying)
    requires Visits(p, start, s) && Kept(p, start)
    ensures Good(p, s) && Kept(p, s)
    decreases |p.code| - start.pos
  {
    if start.pos != s.pos {
      NextIsGood(p, start);
      KeptVisited(p, Next(p, start), s);
    }
  }

  function Zeros(types: seq<ValType>): seq<Value> {
    seq(|types|, i requires 0 <= i < |types| => if types[i] == I32 then V32(0) else V64(0))
  }

  /** A machine in the verifier's state `s`, with zeros for operands. */
  ghost function Standing(p: Program, s: Verifying): Machine
    requires Running(p, s)
  {
    var frames := seq(|s.controls| - 1, i requires 0 <= i < |s.controls| - 1 =>
                      Frame(s.controls[i + 1].kind, EndOf(p, s, i + 2).pos));
    Machine(s.pos, Zeros(s.stack), frames, 1, [], true, 0)
  }

  lemma StandingIsTagged(p: Program, start: Verifying, s: Verifying)
    requires Visits(p, start, s) && Running(p, s) && JumpsRight(p, start)
    ensures Tagged(p, start, Standing(p, s))
  {
    assert Simulates(p, start, s, Standing(p, s));
  }

  /** A tagged machine behind level `d`'s end or else carries the types found there. */
  lemma TagsBehind(p: Program, start: Verifying, s: Verifying, d: nat, m: Machine, types: seq<ValType>)
    requires Visits(p, start, s) && Running(p, s) && 2 <= d <= |s.controls|
    requires Tagged(p, start, m) && TagsMatch(m.stack, types)
    ensures m.pos == EndOf(p, s, d).pos + 1 ==> EndOf(p, s, d).stack == types
    ensures ElseOf(p, s, d).Some? && m.pos == ElseOf(p, s, d).value.pos + 1 ==> ElseOf(p, s, d).value.stack == types
  {
    var here := VisitedAt(p, start, m.pos).value;
    assert here.stack == types by {
      assert forall i :: 0 <= i < |types| ==> here.stack[i] == Tag(m.stack[i]) == types[i];
    }
    AfterEnd(p, start, s, d);
    if ElseOf(p, s, d).Some? {
      AfterElse(p, start, s, d);
    }
  }

  /** The jump at an `else` carries its types to the end. */
  lemma ElseMustKeep(p: Program, start: Verifying, host: Host, s: Verifying)
    requires Visits(p, start, s) && Running(p, s) && JumpsRight(p, start) && TurnsKeepTags(p, start, host)
    requires p.code[s.pos] == ELSE
    ensures EndOf(p, s, |s.controls|).stack == s.stack
  {
    StandingIsTagged(p, start, s);
    LeavesArm(p, host, s);
    TagsBehind(p, start, s, |s.controls|, Execute(p.code, host, Standing(p, s)).machine, s.stack);
  }

  lemma LeavesArm(p: Program, host: Host, s: Verifying)
    requires Running(p, s) && p.code[s.pos] == ELSE
    ensures var o := Execute(p.code, host, Standing(p, s));
            && |s.controls| >= 2 && o.Continue? && TagsMatch(o.machine.stack, s.stack)
            && o.machine.pos == EndOf(p, s, |s.controls|).pos + 1
  {
  }

  /** A false condition carries the entry's types to the else, or past the end. */
  lemma IfMustKeep(p: Program, start: Verifying, host: Host, s: Verifying)
    requires Visits(p, start, s) && Running(p, s) && JumpsRight(p, start) && TurnsKeepTags(p, start, host)
    requires p.code[s.pos] == IF
    ensures var n, d := Next(p, s), |s.controls| + 1;
            && Running(p, n) && |n.controls| == d
            && match ElseOf(p, n, d)
               case Some(x) => x.stack == n.stack
               case None => EndOf(p, n, d).stack == n.stack
  {
    StandingIsTagged(p, start, s);
    NextOpened(p, s);
    VisitsNext(p, start, s);
    SkipsArm(p, host, s);
    var n := Next(p, s);
    TagsBehind(p, start, n, |s.controls| + 1, Execute(p.code, host, Standing(p, s)).machine, n.stack);
  }

  lemma SkipsArm(p: Program, host: Host, s: Verifying)
    requires Running(p, s) && p.code[s.pos] == IF && ScansRight(p, s)
    ensures var o, n, d := Execute(p.code, host, Standing(p, s)), Next(p, s), |s.controls| + 1;
            && Running(p, n) && |n.controls| == d && o.Continue? && TagsMatch(o.machine.stack, n.stack)
            && o.machine.pos == 1 + if ElseOf(p, n, d).Some? then ElseOf(p, n, d).value.pos else EndOf(p, n, d).pos
  {
    NextOpened(p, s);
    var m := Standing(p, s);
    assert Last(m.stack) == V32(0);
  }

  lemma {:induction false} TurnsMustKeep(p: Program, start: Verifying, host: Host, s: Verifying)
    requires Visits(p, start, s) && Good(p, s) && JumpsRight(p, start) && TurnsKeepTags(p, start, host)
    ensures Kept(p, s)
    decreases |p.code| - s.pos
  {
    if s.controls != [] {
      NextIsGood(p, s);
      VisitsNext(p, start, s);
      var n, d := Next(p, s), |s.controls| + 1;
      TurnsMustKeep(p, start, host, n);
      if p.code[s.pos] == ELSE {
        ElseMustKeep(p, start, host, s);
      } else if p.code[s.pos] == IF {
        IfMustKeep(p, start, host, s);
        if ElseOf(p, n, d).Some? {
          ElseOfFacts(p, n, d);
          VisitsElse(p, start, n, d);
          ElseMustKeep(p, start, host, ElseOf(p, n, d).value);
        }
      }
    }
  }

  /** For every accepted body whose scans are right and every host that answers in i32: no turn can
      leave the verifier's types if and only if the arms of every `if` keep them. */
  lemma KeptExactly(p: Program, host: Host)
    requires Verify(p.m, p.code, p.result) == Accepted && SteadyBody(p) && ReturnsI32(host)
    ensures TurnsKeepTags(p, StartOf(p), host) <==> Kept(p, StartOf(p))
  {
    var start := StartOf(p);
    JumpsRightExactly(p);
    if Kept(p, start) {
      forall m | Tagged(p, start, m) && Execute(p.code, host, m).Continue?
        ensures Tagged(p, start, Execute(p.code, host, m).machine)
      {
        KeptVisited(p, start, VisitedAt(p, start, m.pos).value);
        TurnTyped(p, host, start, m);
      }
    } else if TurnsKeepTags(p, start, host) {
      TurnsMustKeep(p, start, host, start);
    }
  }

  // ------------------------------------------------------------------ a simple sufficient check

  function Consumes(op: byte): nat {
    if op == IF || op == DROP then 1 else if Plain(op) then Pops(op) else 0
  }

  /** From here on, no instruction pops below the entry height of the block it stands in. */
  ghost predicate Floored(p: Program, s: Verifying)
    requires Good(p, s)
    decreases |p.code| - s.pos
  {
    if s.controls == [] then true
    else
      NextIsGood(p, s);
      Last(s.controls).height + Consumes(p.code[s.pos]) <= |s.stack| && Floored(p, Next(p, s))
  }

  /** Block heights grow inward and stay under the stack. */
  ghost predicate Stacked(s: Verifying) {
    && (s.controls != [] ==> Last(s.controls).height <= |s.stack|)
    && forall i, j :: 0 <= i <= j < |s.controls| ==> s.controls[i].height <= s.controls[j].height
  }

  lemma NextStacked(p: Program, s: Verifying)
    requires Running(p, s) && Floored(p, s) && Stacked(s)
    ensures Good(p, Next(p, s)) && Stacked(Next(p, s))
    ensures var h, n := Last(s.controls).height, Next(p, s);
            p.code[s.pos] != END ==> h <= |n.stack| && n.stack[..h] == s.stack[..h]
    ensures p.code[s.pos] == END && |s.controls| >= 2 ==> Next(p, s).stack == s.stack
  {
    NextIsGood(p, s);
    if Plain(p.code[s.pos]) {
      PlainNext(p, s);
    }
  }

  lemma {:induction false} FloorProtects(p: Program, s: Verifying, d: nat)
    requires Running(p, s) && Floored(p, s) && Stacked(s) && 2 <= d <= |s.controls|
    ensures var h := s.controls[d - 1].height;
            && h <= |s.stack| && EndOf(p, s, d).stack == s.stack[..h]
            && (ElseOf(p, s, d).Some? ==> ElseOf(p, s, d).value.stack == s.stack[..h])
    decreases |p.code| - s.pos
  {
    NextIsGood(p, s);
    NextControls(p, s);
    NextStacked(p, s);
    var op, n, h := p.code[s.pos], Next(p, s), s.controls[d - 1].height;
    assert h <= Last(s.controls).height;
    if op == END && |s.controls| == d {
    } else {
      FloorProtects(p, n, d);
      var top := Last(s.controls).height;
      if op != END {
        assert n.stack[..h] == n.stack[..top][..h] == s.stack[..top][..h] == s.stack[..h];
      }
      assert n.stack[..h] == s.stack[..h];
    }
  }

  /** A body that never pops below a block's entry height keeps its types. */
  lemma {:induction false} FloorsKeepTypes(p: Program, s: Verifying)
    requires Good(p, s) && Floored(p, s) && Stacked(s)
    ensures Kept(p, s)
    decreases |p.code| - s.pos
  {
    if s.controls != [] {
      NextIsGood(p, s);
      NextStacked(p, s);
      var op, n, d := p.code[s.pos], Next(p, s), |s.controls|;
      FloorsKeepTypes(p, n);
      if op == IF {
        FloorProtects(p, n, d + 1);
      } else if op == ELSE {
        FloorProtects(p, s, d);
      }
    }
  }
}
