/** The states a body's verification goes through, and where it opens, turns and closes its blocks. */
module WasmTrace {
  import opened Common
  import opened WasmLeb
  import opened WasmVerifier

  /** A body with everything its verification depends on. */
  datatype Program = Program(m: Module, code: seq<byte>, result: Option<ValType>)

  // ------------------------------------------------------------------ the verifier's trace

  ghost predicate Accepts(p: Program, s: Verifying) {
    s.pos <= |p.code| && VerifyFrom(p.m, p.code, p.result, s) == Accepted
  }

  /** The shape of every state the verification loop reaches. */
  ghost predicate WellFormed(p: Program, s: Verifying) {
    && |s.stack| <= MAX_STACK
    && |s.controls| <= MAX_CONTROL
    && (if s.ended then s.controls == [] && s.pos == |p.code|
        else s.controls != [] && s.controls[0] == Control(FUNCTION, 0, false))
    && forall i :: 1 <= i < |s.controls| ==> BLOCK <= s.controls[i].kind <= IF
  }

  ghost predicate Good(p: Program, s: Verifying) { Accepts(p, s) && WellFormed(p, s) }

  ghost predicate Running(p: Program, s: Verifying) { Good(p, s) && s.controls != [] }

  ghost function Next(p: Program, s: Verifying): Verifying
    requires Running(p, s)
  {
    Step(p.m, p.code, p.result, s).value
  }

  /** The verifier's first state on an accepted body. */
  ghost function StartOf(p: Program): Verifying
    requires Verify(p.m, p.code, p.result) == Accepted
  {
    Start(DecodeU32(p.code, 0).next)
  }

  lemma PopAllDepth(stack: seq<ValType>, t: ValType, count: nat)
    requires PopAll(stack, t, count).Ok?
    ensures count <= |stack| && PopAll(stack, t, count).value == stack[..|stack| - count]
    ensures forall i :: |stack| - count <= i < |stack| ==> stack[i] == t
  {
    if count != 0 {
      PopAllDepth(Front(stack), t, count - 1);
    }
  }

  lemma NextIsGood(p: Program, s: Verifying)
    requires Running(p, s)
    ensures Good(p, Next(p, s)) && s.pos < Next(p, s).pos
  {
    var op := p.code[s.pos];
    if Plain(op) && !(op == 0x01) {
      PopAllDepth(s.stack, Popped(op), Pops(op));
    }
  }

  /** The state in which the verifier stands on the `end` that closes control level `d`. */
  ghost function EndOf(p: Program, s: Verifying, d: nat): Verifying
    requires Running(p, s) && 1 <= d <= |s.controls|
    decreases |p.code| - s.pos
  {
    NextIsGood(p, s);
    if |s.controls| == d && p.code[s.pos] == END then s else EndOf(p, Next(p, s), d)
  }

  /** The state in which it stands on the `else` of level `d`, if one is still to come. */
  ghost function ElseOf(p: Program, s: Verifying, d: nat): Option<Verifying>
    requires Running(p, s) && 1 <= d <= |s.controls|
    decreases |p.code| - s.pos
  {
    NextIsGood(p, s);
    if |s.controls| == d && p.code[s.pos] == END then None
    else if |s.controls| == d && p.code[s.pos] == ELSE then Some(s)
    else ElseOf(p, Next(p, s), d)
  }

  ghost predicate SameBlock(a: Control, b: Control) { a.kind == b.kind && a.height == b.height }

  lemma NextControls(p: Program, s: Verifying)
    requires Running(p, s)
    ensures var op, n, k := p.code[s.pos], Next(p, s).controls, |s.controls|;
            && (op == END ==> n == Front(s.controls))
            && (op != END ==> k <= |n| && n[..k - 1] == Front(s.controls) && SameBlock(n[k - 1], Last(s.controls)))
  {
  }

  lemma NextOpened(p: Program, s: Verifying)
    requires Running(p, s) && BLOCK <= p.code[s.pos] <= IF
    ensures var n := Next(p, s);
            && Running(p, n) && n.pos == s.pos + 2 <= |p.code| && p.code[s.pos + 1] == 0x40
            && |n.controls| == |s.controls| + 1 && Front(n.controls) == s.controls && !Last(n.controls).hasElse
  {
    NextIsGood(p, s);
  }

  lemma {:induction false} EndOfFacts(p: Program, s: Verifying, d: nat)
    requires Running(p, s) && 1 <= d <= |s.controls|
    ensures var e := EndOf(p, s, d);
            && Running(p, e) && s.pos <= e.pos && p.code[e.pos] == END
            && |e.controls| == d && e.controls[..d - 1] == s.controls[..d - 1]
            && SameBlock(e.controls[d - 1], s.controls[d - 1])
            && (d >= 2 ==> |e.stack| == s.controls[d - 1].height && s.controls[d - 1].kind != LOOP)
    decreases |p.code| - s.pos
  {
    NextIsGood(p, s);
    NextControls(p, s);
    if !(|s.controls| == d && p.code[s.pos] == END) {
      EndOfFacts(p, Next(p, s), d);
    }
  }

  /** A loop shares its frame kind with the function, so no accepted state holds one. */
  lemma NoLoopFrames(p: Program, s: Verifying, i: nat)
    requires Running(p, s) && 1 <= i < |s.controls|
    ensures s.controls[i].kind != LOOP
  {
    EndOfFacts(p, s, i + 1);
  }

  /** No accepted body contains a loop: the loop's frame is taken for the function's. */
  lemma AcceptedBodiesHaveNoLoops(p: Program, s: Verifying)
    requires Running(p, s)
    ensures p.code[s.pos] != LOOP
  {
    if p.code[s.pos] == LOOP {
      NextIsGood(p, s);
      NoLoopFrames(p, Next(p, s), |s.controls|);
    }
  }

  lemma {:induction false} EndOfStable(p: Program, s: Verifying, d: nat, i: nat)
    requires Running(p, s) && 1 <= i <= d <= |s.controls|
    ensures Running(p, EndOf(p, s, d)) && |EndOf(p, s, d).controls| == d
    ensures EndOf(p, EndOf(p, s, d), i) == EndOf(p, s, i)
    decreases |p.code| - s.pos
  {
    NextIsGood(p, s);
    EndOfFacts(p, s, d);
    if !(|s.controls| == d && p.code[s.pos] == END) {
      EndOfStable(p, Next(p, s), d, i);
    }
  }

  lemma {:induction false} ElseOfFacts(p: Program, s: Verifying, d: nat)
    requires Running(p, s) && 1 <= d <= |s.controls|
    ensures match ElseOf(p, s, d)
            case None => true
            case Some(x) =>
              && Running(p, x) && s.pos <= x.pos && p.code[x.pos] == ELSE
              && |x.controls| == d && x.controls[..d - 1] == s.controls[..d - 1]
              && SameBlock(x.controls[d - 1], s.controls[d - 1])
              && |x.stack| == s.controls[d - 1].height && s.controls[d - 1].kind == IF
              && forall i :: 1 <= i <= d ==> EndOf(p, x, i) == EndOf(p, s, i)
    ensures s.controls[d - 1].hasElse ==> ElseOf(p, s, d) == None
    decreases |p.code| - s.pos
  {
    NextIsGood(p, s);
    NextControls(p, s);
    if |s.controls| == d && (p.code[s.pos] == END || p.code[s.pos] == ELSE) {
    } else {
      ElseOfFacts(p, Next(p, s), d);
    }
  }

  lemma NextElse(p: Program, s: Verifying)
    requires Running(p, s) && p.code[s.pos] == ELSE
    ensures var n, d := Next(p, s), |s.controls|;
            && Running(p, n) && n.pos == s.pos + 1 && |n.controls| == d >= 2
            && !Last(s.controls).hasElse && Last(n.controls).hasElse
            && EndOf(p, n, d) == EndOf(p, s, d) && ElseOf(p, s, d) == Some(s) && ElseOf(p, n, d) == None
  {
    NextIsGood(p, s);
    ElseOfFacts(p, Next(p, s), |s.controls|);
  }

  /** The verifier's state when its cursor stood at `pos`, if it ever did. */
  ghost function VisitedAt(p: Program, s: Verifying, pos: nat): Option<Verifying>
    requires Good(p, s)
    decreases |p.code| - s.pos
  {
    if s.pos == pos then Some(s)
    else if s.controls == [] then None
    else
      NextIsGood(p, s);
      VisitedAt(p, Next(p, s), pos)
  }

  ghost predicate Visits(p: Program, start: Verifying, s: Verifying) {
    Good(p, start) && VisitedAt(p, start, s.pos) == Some(s)
  }

  lemma {:induction false} VisitsNext(p: Program, start: Verifying, s: Verifying)
    requires Visits(p, start, s) && Running(p, s)
    ensures start.pos <= s.pos && Visits(p, start, Next(p, s))
    decreases |p.code| - start.pos
  {
    NextIsGood(p, s);
    if start.pos != s.pos {
      NextIsGood(p, start);
      VisitsNext(p, Next(p, start), s);
    }
  }

  lemma {:induction false} VisitsEnd(p: Program, start: Verifying, s: Verifying, d: nat)
    requires Visits(p, start, s) && Running(p, s) && 1 <= d <= |s.controls|
    ensures Visits(p, start, EndOf(p, s, d))
    decreases |p.code| - s.pos
  {
    NextIsGood(p, s);
    if !(|s.controls| == d && p.code[s.pos] == END) {
      VisitsNext(p, start, s);
      VisitsEnd(p, start, Next(p, s), d);
    }
  }

  lemma {:induction false} VisitsElse(p: Program, start: Verifying, s: Verifying, d: nat)
    requires Visits(p, start, s) && Running(p, s) && 1 <= d <= |s.controls| && ElseOf(p, s, d).Some?
    ensures Visits(p, start, ElseOf(p, s, d).value)
    decreases |p.code| - s.pos
  {
    NextIsGood(p, s);
    if !(|s.controls| == d && p.code[s.pos] == ELSE) {
      VisitsNext(p, start, s);
      VisitsElse(p, start, Next(p, s), d);
    }
  }

  lemma PlainNext(p: Program, s: Verifying)
    requires Running(p, s) && Plain(p.code[s.pos])
    ensures var op, n := p.code[s.pos], Next(p, s);
            && Immediates(p.m, p.code, op, s.pos + 1) == Ok(n.pos)
            && Pops(op) <= |s.stack| && n.stack == s.stack[..|s.stack| - Pops(op)] + Pushes(op)
            && |n.stack| <= MAX_STACK && n.controls == s.controls
            && forall i :: |s.stack| - Pops(op) <= i < |s.stack| ==> s.stack[i] == Popped(op)
  {
    NextIsGood(p, s);
    PopAllDepth(s.stack, Popped(p.code[s.pos]), Pops(p.code[s.pos]));
  }
}
