/** Statements and whole programs: the rest of the argument of `WasmMeaning`. */
module WasmPrograms {
  import opened Common
  import opened WasmLeb
  import opened WasmVerifier
  import opened WasmInterpreter
  import opened L = WasmLanguage
  import opened WasmSkips
  import opened WasmMeaning

  /** The scan from here finds this `else` and this end. */
  ghost predicate Finds(code: seq<byte>, pos: nat, elseAt: Option<nat>, last: nat) {
    forall p: nat :: p == pos && p <= |code| ==> Scan(code, p, 0, None) == Found(elseAt, last)
  }

  // ------------------------------------------------------------------ single instructions

  lemma NopRuns(code: seq<byte>, host: Host, pos: nat, frames: seq<Frame>, w: World)
    requires pos < |code| && code[pos] == 0x01
    ensures Reaches(code, host, At(pos, [], frames, w), Done(pos + 1, [], frames, Pays(w)))
  {
    OneTurn(code, host, At(pos, [], frames, w));
  }

  lemma DropRuns(code: seq<byte>, host: Host, v: int, pos: nat, frames: seq<Frame>, w: World)
    requires pos < |code| && code[pos] == 0x1a
    ensures Reaches(code, host, At(pos, [] + [V32(v)], frames, w), Done(pos + 1, [], frames, Pays(w)))
  {
    assert Front([] + [V32(v)]) == [];
    OneTurn(code, host, At(pos, [] + [V32(v)], frames, w));
  }

  lemma BlockRuns(code: seq<byte>, host: Host, last: nat, pos: nat, frames: seq<Frame>, w: World)
    requires pos + 2 <= |code| && code[pos] == 0x02 && code[pos + 1] == 0x40 && |frames| < 16
    requires Finds(code, pos + 2, None, last)
    ensures Reaches(code, host, At(pos, [], frames, w), Done(pos + 2, [], frames + [Frame(BLOCK, last)], Pays(w)))
  {
    assert Scan(code, pos + 2, 0, None) == Found(None, last);
    OneTurn(code, host, At(pos, [], frames, w));
  }

  lemma EndRuns(code: seq<byte>, host: Host, kind: byte, pos: nat, frames: seq<Frame>, w: World)
    requires pos < |code| && code[pos] == 0x0b
    ensures Reaches(code, host, At(pos, [], frames + [Frame(kind, pos)], w), Done(pos + 1, [], frames, Pays(w)))
  {
    assert Front(frames + [Frame(kind, pos)]) == frames;
    OneTurn(code, host, At(pos, [], frames + [Frame(kind, pos)], w));
  }

  lemma ElseRuns(code: seq<byte>, host: Host, last: nat, pos: nat, frames: seq<Frame>, w: World)
    requires pos < |code| && code[pos] == 0x05
    ensures Reaches(code, host, At(pos, [], frames + [Frame(IF, last)], w), Done(last + 1, [], frames, Pays(w)))
  {
    assert Front(frames + [Frame(IF, last)]) == frames;
    OneTurn(code, host, At(pos, [], frames + [Frame(IF, last)], w));
  }

  /** An `if` goes into its first arm on any value but zero, and on zero to the second arm or past the end. */
  lemma IfRuns(code: seq<byte>, host: Host, v: int, elseAt: Option<nat>, last: nat, pos: nat, frames: seq<Frame>,
               w: World)
    requires pos + 2 <= |code| && code[pos] == 0x04 && code[pos + 1] == 0x40 && |frames| < 16 && w.fuel > 0
    requires Finds(code, pos + 2, elseAt, last)
    ensures var inner, w1 := frames + [Frame(IF, last)], w.(fuel := w.fuel - 1);
            Reaches(code, host, At(pos, [] + [V32(v)], frames, w),
                    Continue(if v != 0 then At(pos + 2, [], inner, w1)
                             else if elseAt.Some? then At(elseAt.value + 1, [], inner, w1)
                             else At(last + 1, [], frames, w1)))
  {
    assert Front([] + [V32(v)]) == [];
    assert Scan(code, pos + 2, 0, None) == Found(elseAt, last);
    OneTurn(code, host, At(pos, [] + [V32(v)], frames, w));
  }

  // ------------------------------------------------------------------ leaving blocks

  lemma BlockFinds(code: seq<byte>, body: Stmt, pos: nat, last: nat)
    requires StmtOk(body) && Holds(code, pos, StmtBytes(body)) && last == pos + |StmtBytes(body)|
    requires last < |code| && code[last] == 0x0b
    ensures Finds(code, pos, None, last)
  {
    StmtSkipped(code, body);
    BlockEnds(code, pos, StmtBytes(body));
  }

  lemma ArmsFind(code: seq<byte>, yes: Stmt, no: Stmt, pos: nat, middle: nat, last: nat)
    requires StmtOk(yes) && StmtOk(no) && Holds(code, pos, StmtBytes(yes)) && middle == pos + |StmtBytes(yes)|
    requires Holds(code, middle + 1, StmtBytes(no)) && last == middle + 1 + |StmtBytes(no)|
    requires last < |code| && code[middle] == 0x05 && code[last] == 0x0b
    ensures Finds(code, pos, Some(middle), last)
  {
    StmtSkipped(code, yes);
    StmtSkipped(code, no);
    ArmsEnd(code, pos, StmtBytes(yes), middle, StmtBytes(no), last);
  }

  lemma ThenEnd(code: seq<byte>, host: Host, m: Machine, kind: byte, pos: nat, frames: seq<Frame>, e: Effect)
    requires Reaches(code, host, m, Done(pos, [], frames + [Frame(kind, pos)], e)) && pos < |code| && code[pos] == 0x0b
    ensures Reaches(code, host, m, Done(pos + 1, [], frames, ThenPays(e)))
  {
    if e.Leaves? {
      EndRuns(code, host, kind, pos, frames, e.world);
      Onward(code, host, m, At(pos, [], frames + [Frame(kind, pos)], e.world),
             Done(pos + 1, [], frames, Pays(e.world)));
    }
  }

  lemma ThenElse(code: seq<byte>, host: Host, m: Machine, last: nat, pos: nat, frames: seq<Frame>, e: Effect)
    requires Reaches(code, host, m, Done(pos, [], frames + [Frame(IF, last)], e)) && pos < |code| && code[pos] == 0x05
    ensures Reaches(code, host, m, Done(last + 1, [], frames, ThenPays(e)))
  {
    if e.Leaves? {
      ElseRuns(code, host, last, pos, frames, e.world);
      Onward(code, host, m, At(pos, [], frames + [Frame(IF, last)], e.world),
             Done(last + 1, [], frames, Pays(e.world)));
    }
  }

  // ------------------------------------------------------------------ statements

  /** Executing the statement from here to there has its effect. */
  ghost predicate Executes(code: seq<byte>, host: Host, s: Stmt, pos: nat, next: nat, frames: seq<Frame>, w: World) {
    Reaches(code, host, At(pos, [], frames, w), Done(next, [], frames, Exec(host, s, w)))
  }

  lemma ThenCase(code: seq<byte>, host: Host, first: Stmt, second: Stmt, pos: nat, middle: nat, next: nat,
                 frames: seq<Frame>, w: World)
    requires Executes(code, host, first, pos, middle, frames, w)
    requires var e := Exec(host, first, w); e.Leaves? ==> Executes(code, host, second, middle, next, frames, e.world)
    ensures Executes(code, host, Then(first, second), pos, next, frames, w)
  {
    var e := Exec(host, first, w);
    assert Exec(host, Then(first, second), w) == ExecThen(host, first, second, w);
    if e.Leaves? {
      Onward(code, host, At(pos, [], frames, w), At(middle, [], frames, e.world),
             Done(next, [], frames, Exec(host, second, e.world)));
    }
  }

  lemma DropCase(code: seq<byte>, host: Host, of: Expr, pos: nat, last: nat, next: nat, frames: seq<Frame>, w: World)
    requires next == last + 1 && Evaluates(code, host, of, pos, last, [], frames, w) && last < |code|
             && code[last] == 0x1a
    ensures Executes(code, host, Drop(of), pos, next, frames, w)
  {
    var a := Eval(host, of, w);
    assert Exec(host, Drop(of), w) == ExecDrop(host, of, w);
    if a.Gives? {
      DropRuns(code, host, a.value, last, frames, a.world);
      Onward(code, host, At(pos, [], frames, w), At(last, [] + [V32(a.value)], frames, a.world),
             Done(last + 1, [], frames, Pays(a.world)));
    }
  }

  lemma StoreCase(code: seq<byte>, host: Host, address: Expr, offset: nat, value: Expr, pos: nat, middle: nat,
                  last: nat, next: nat, frames: seq<Frame>, w: World)
    requires Evaluates(code, host, address, pos, middle, [], frames, w) && SaneAnswer(Eval(host, address, w))
    requires var a := Eval(host, address, w);
             a.Gives? ==>
               && Evaluates(code, host, value, middle, last, [] + [V32(a.value)], frames, a.world)
               && SaneAnswer(Eval(host, value, a.world))
    requires offset < U32_LIMIT && AccessAt(code, last, STORE, offset, next)
    ensures Executes(code, host, Store(address, offset, value), pos, next, frames, w)
  {
    var a, m := Eval(host, address, w), At(pos, [], frames, w);
    assert Exec(host, Store(address, offset, value), w) == ExecStore(host, address, offset, value, w);
    if a.Gives? {
      ThenStore(code, host, m, middle, last, next, frames, a, Eval(host, value, a.world), offset);
    }
  }

  lemma ThenStore(code: seq<byte>, host: Host, m: Machine, middle: nat, last: nat, next: nat, frames: seq<Frame>,
                  a: Answer, v: Answer, offset: nat)
    requires a.Gives? && SaneAnswer(a) && SaneAnswer(v)
    requires Reaches(code, host, m, Answered(middle, [], frames, a))
    requires Reaches(code, host, At(middle, [] + [V32(a.value)], frames, a.world),
                     Answered(last, [] + [V32(a.value)], frames, v))
    requires offset < U32_LIMIT && AccessAt(code, last, STORE, offset, next)
    ensures Reaches(code, host, m, Done(next, [], frames, if v.Stops? then Halts(v.outcome)
                                                          else Put(v.world, a.value, offset, v.value)))
  {
    var first := [] + [V32(a.value)];
    Onward(code, host, m, At(middle, first, frames, a.world), Answered(last, first, frames, v));
    if v.Gives? {
      StoreRuns(code, host, a.value, offset, v.value, last, next, [], frames, v.world);
      Onward(code, host, m, At(last, first + [V32(v.value)], frames, v.world),
             Done(next, [], frames, Put(v.world, a.value, offset, v.value)));
    }
  }

  lemma BlockCase(code: seq<byte>, host: Host, body: Stmt, pos: nat, last: nat, next: nat, frames: seq<Frame>, w: World)
    requires next == last + 1 && pos + 2 <= last < |code| && code[pos] == 0x02 && code[pos + 1] == 0x40
             && code[last] == 0x0b
    requires |frames| < 16 && Finds(code, pos + 2, None, last)
    requires w.fuel > 0 ==>
               Executes(code, host, body, pos + 2, last, frames + [Frame(BLOCK, last)], w.(fuel := w.fuel - 1))
    ensures Executes(code, host, Block(body), pos, next, frames, w)
  {
    var m, inner := At(pos, [], frames, w), frames + [Frame(BLOCK, last)];
    BlockRuns(code, host, last, pos, frames, w);
    assert Exec(host, Block(body), w) == ExecBlock(host, body, w);
    if w.fuel > 0 {
      var w1 := w.(fuel := w.fuel - 1);
      Onward(code, host, m, At(pos + 2, [], inner, w1), Done(last, [], inner, Exec(host, body, w1)));
      ThenEnd(code, host, m, BLOCK, last, frames, Exec(host, body, w1));
    }
  }

  lemma OutOfFuel(code: seq<byte>, host: Host, m: Machine, pos: nat, frames: seq<Frame>, a: Answer)
    requires Reaches(code, host, m, Answered(pos, [], frames, a)) && pos < |code| && Chooses(a).Stops?
    ensures Reaches(code, host, m, Chooses(a).outcome)
  {
    if a.Gives? {
      NoFuel(code, host, At(pos, [] + [V32(a.value)], frames, a.world));
      Onward(code, host, m, At(pos, [] + [V32(a.value)], frames, a.world), Trapped(FuelExhausted));
    }
  }

  /** What an `if` has reached once its condition is there and there is fuel for it. */
  lemma Chosen(code: seq<byte>, host: Host, m: Machine, elseAt: Option<nat>, last: nat, pos: nat, frames: seq<Frame>,
               a: Answer)
    requires Reaches(code, host, m, Answered(pos, [], frames, a)) && Chooses(a).Gives?
    requires pos + 2 <= |code| && code[pos] == 0x04 && code[pos + 1] == 0x40 && |frames| < 16
    requires Finds(code, pos + 2, elseAt, last)
    ensures var inner, w1 := frames + [Frame(IF, last)], Chooses(a).world;
            Reaches(code, host, m,
                    Continue(if Chooses(a).value != 0 then At(pos + 2, [], inner, w1)
                             else if elseAt.Some? then At(elseAt.value + 1, [], inner, w1)
                             else At(last + 1, [], frames, w1)))
  {
    var inner, w1 := frames + [Frame(IF, last)], a.world.(fuel := a.world.fuel - 1);
    IfRuns(code, host, a.value, elseAt, last, pos, frames, a.world);
    Onward(code, host, m, At(pos, [] + [V32(a.value)], frames, a.world),
           Continue(if a.value != 0 then At(pos + 2, [], inner, w1)
                    else if elseAt.Some? then At(elseAt.value + 1, [], inner, w1)
                    else At(last + 1, [], frames, w1)));
  }

  lemma IfCase(code: seq<byte>, host: Host, condition: Expr, body: Stmt, pos: nat, open: nat, last: nat, next: nat,
               frames: seq<Frame>, w: World)
    requires Evaluates(code, host, condition, pos, open, [], frames, w) && next == last + 1
    requires open + 2 <= last < |code| && code[open] == 0x04 && code[open + 1] == 0x40 && code[last] == 0x0b
    requires |frames| < 16 && Finds(code, open + 2, None, last)
    requires var c := Chooses(Eval(host, condition, w));
             c.Gives? ==> Executes(code, host, body, open + 2, last, frames + [Frame(IF, last)], c.world)
    ensures Executes(code, host, If(condition, body), pos, next, frames, w)
  {
    var a, m, inner := Eval(host, condition, w), At(pos, [], frames, w), frames + [Frame(IF, last)];
    var c := Chooses(a);
    assert Exec(host, If(condition, body), w) == ExecIf(host, condition, body, w);
    if c.Stops? {
      OutOfFuel(code, host, m, open, frames, a);
    } else {
      Chosen(code, host, m, None, last, open, frames, a);
      if c.value != 0 {
        var e := Exec(host, body, c.world);
        Onward(code, host, m, At(open + 2, [], inner, c.world), Done(last, [], inner, e));
        ThenEnd(code, host, m, IF, last, frames, e);
      }
    }
  }

  lemma IfElseCase(code: seq<byte>, host: Host, condition: Expr, yes: Stmt, no: Stmt, pos: nat, open: nat, middle: nat,
                   last: nat, next: nat, frames: seq<Frame>, w: World)
    requires Evaluates(code, host, condition, pos, open, [], frames, w) && next == last + 1
    requires open + 2 <= middle < last < |code| && code[open] == 0x04 && code[open + 1] == 0x40
    requires code[middle] == 0x05 && code[last] == 0x0b
    requires |frames| < 16 && Finds(code, open + 2, Some(middle), last)
    requires var c, inner := Chooses(Eval(host, condition, w)), frames + [Frame(IF, last)];
             c.Gives? ==>
               && Executes(code, host, yes, open + 2, middle, inner, c.world)
               && Executes(code, host, no, middle + 1, last, inner, c.world)
    ensures Executes(code, host, IfElse(condition, yes, no), pos, next, frames, w)
  {
    var a, m, inner := Eval(host, condition, w), At(pos, [], frames, w), frames + [Frame(IF, last)];
    var c := Chooses(a);
    assert Exec(host, IfElse(condition, yes, no), w) == ExecIfElse(host, condition, yes, no, w);
    if c.Stops? {
      OutOfFuel(code, host, m, open, frames, a);
    } else {
      Chosen(code, host, m, Some(middle), last, open, frames, a);
      if c.value != 0 {
        var e := Exec(host, yes, c.world);
        Onward(code, host, m, At(open + 2, [], inner, c.world), Done(middle, [], inner, e));
        ThenElse(code, host, m, last, middle, frames, e);
      } else {
        var e := Exec(host, no, c.world);
        Onward(code, host, m, At(middle + 1, [], inner, c.world), Done(last, [], inner, e));
        ThenEnd(code, host, m, IF, last, frames, e);
      }
    }
  }

  // ------------------------------------------------------------------ all statements

  lemma {:induction false} StmtRuns(code: seq<byte>, host: Host, s: Stmt, pos: nat, next: nat, frames: seq<Frame>,
                                    w: World)
    requires GoodHost(host) && StmtOk(s) && Sane(w) && |frames| + Nesting(s) <= 16
    requires Holds(code, pos, StmtBytes(s)) && next == pos + |StmtBytes(s)|
    ensures Executes(code, host, s, pos, next, frames, w)
    decreases s, 2
  {
    match s
    case Nop =>
      HoldsOne(code, pos, 0x01);
      NopRuns(code, host, pos, frames, w);
    case Then(first, second) => SequenceRuns(code, host, first, second, pos, next, frames, w);
    case Store(address, offset, value) => StoreWorks(code, host, address, offset, value, pos, next, frames, w);
    case Drop(of) => DropWorks(code, host, of, pos, next, frames, w);
    case Block(body) => BlockWorks(code, host, body, pos, next, frames, w);
    case If(condition, body) => IfWorks(code, host, condition, body, pos, next, frames, w);
    case IfElse(condition, yes, no) => IfElseWorks(code, host, condition, yes, no, pos, next, frames, w);
  }

  lemma {:induction false} SequenceRuns(code: seq<byte>, host: Host, first: Stmt, second: Stmt, pos: nat, next: nat,
                                        frames: seq<Frame>, w: World)
    requires GoodHost(host) && StmtOk(first) && StmtOk(second) && Sane(w)
    requires |frames| + Nesting(first) <= 16 && |frames| + Nesting(second) <= 16
    requires Holds(code, pos, StmtBytes(Then(first, second))) && next == pos + |StmtBytes(Then(first, second))|
    ensures Executes(code, host, Then(first, second), pos, next, frames, w)
    decreases Then(first, second), 0
  {
    var middle := pos + |StmtBytes(first)|;
    HoldsParts(code, pos, StmtBytes(first), StmtBytes(second));
    StmtRuns(code, host, first, pos, middle, frames, w);
    ExecIsSane(host, first, w);
    var e := Exec(host, first, w);
    if e.Leaves? {
      StmtRuns(code, host, second, middle, next, frames, e.world);
    }
    ThenCase(code, host, first, second, pos, middle, next, frames, w);
  }

  lemma StoreHeld(code: seq<byte>, pos: nat, next: nat, address: Expr, offset: nat, value: Expr)
    returns (middle: nat, last: nat)
    requires offset < U32_LIMIT && Holds(code, pos, StmtBytes(Store(address, offset, value)))
    requires next == pos + |StmtBytes(Store(address, offset, value))|
    ensures Holds(code, pos, ExprBytes(address)) && middle == pos + |ExprBytes(address)|
    ensures Holds(code, middle, ExprBytes(value)) && last == middle + |ExprBytes(value)|
    ensures AccessAt(code, last, STORE, offset, next)
  {
    middle := pos + |ExprBytes(address)|;
    last := middle + |ExprBytes(value)|;
    var access := [0x36, 0x02] + EncodeUnsigned(offset);
    HoldsParts(code, pos, ExprBytes(address), ExprBytes(value) + access);
    HoldsParts(code, middle, ExprBytes(value), access);
    DecodesAccess(code, last, STORE, offset);
  }

  lemma StoreWorks(code: seq<byte>, host: Host, address: Expr, offset: nat, value: Expr, pos: nat, next: nat,
                   frames: seq<Frame>, w: World)
    requires GoodHost(host) && StmtOk(Store(address, offset, value)) && Sane(w)
    requires Holds(code, pos, StmtBytes(Store(address, offset, value)))
    requires next == pos + |StmtBytes(Store(address, offset, value))|
    ensures Executes(code, host, Store(address, offset, value), pos, next, frames, w)
  {
    var middle, last := StoreHeld(code, pos, next, address, offset, value);
    ExprRuns(code, host, address, pos, middle, [], frames, w);
    EvalIsSane(host, address, w);
    var a := Eval(host, address, w);
    if a.Gives? {
      ExprRuns(code, host, value, middle, last, [] + [V32(a.value)], frames, a.world);
      EvalIsSane(host, value, a.world);
    }
    StoreCase(code, host, address, offset, value, pos, middle, last, next, frames, w);
  }

  lemma DropHeld(code: seq<byte>, pos: nat, next: nat, of: Expr) returns (last: nat)
    requires Holds(code, pos, StmtBytes(Drop(of))) && next == pos + |StmtBytes(Drop(of))|
    ensures Holds(code, pos, ExprBytes(of)) && last == pos + |ExprBytes(of)|
    ensures next == last + 1 <= |code| && code[last] == 0x1a
  {
    last := pos + |ExprBytes(of)|;
    HoldsParts(code, pos, ExprBytes(of), [0x1a]);
    HoldsOne(code, last, 0x1a);
  }

  lemma DropWorks(code: seq<byte>, host: Host, of: Expr, pos: nat, next: nat, frames: seq<Frame>, w: World)
    requires GoodHost(host) && ExprOk(of) && Height(of) <= 256 && Sane(w)
    requires Holds(code, pos, StmtBytes(Drop(of))) && next == pos + |StmtBytes(Drop(of))|
    ensures Executes(code, host, Drop(of), pos, next, frames, w)
  {
    var last := DropHeld(code, pos, next, of);
    ExprRuns(code, host, of, pos, last, [], frames, w);
    DropCase(code, host, of, pos, last, next, frames, w);
  }

  lemma {:induction false} BlockWorks(code: seq<byte>, host: Host, body: Stmt, pos: nat, next: nat, frames: seq<Frame>,
                                      w: World)
    requires GoodHost(host) && StmtOk(body) && Sane(w) && |frames| + 1 + Nesting(body) <= 16
    requires Holds(code, pos, StmtBytes(Block(body))) && next == pos + |StmtBytes(Block(body))|
    ensures Executes(code, host, Block(body), pos, next, frames, w)
    decreases Block(body), 0
  {
    var last := pos + 2 + |StmtBytes(body)|;
    BlockHeld(code, pos, BLOCK, StmtBytes(body));
    if w.fuel > 0 {
      StmtRuns(code, host, body, pos + 2, last, frames + [Frame(BLOCK, last)], w.(fuel := w.fuel - 1));
    }
    BlockFinds(code, body, pos + 2, last);
    BlockCase(code, host, body, pos, last, next, frames, w);
  }

  lemma {:induction false} IfWorks(code: seq<byte>, host: Host, condition: Expr, body: Stmt, pos: nat, next: nat,
                                   frames: seq<Frame>, w: World)
    requires GoodHost(host) && ExprOk(condition) && Height(condition) <= 256 && StmtOk(body) && Sane(w)
    requires |frames| + 1 + Nesting(body) <= 16
    requires Holds(code, pos, StmtBytes(If(condition, body))) && next == pos + |StmtBytes(If(condition, body))|
    ensures Executes(code, host, If(condition, body), pos, next, frames, w)
    decreases If(condition, body), 0
  {
    var open, last := IfHeld(code, pos, next, condition, body);
    ConditionRuns(code, host, condition, pos, open, frames, w);
    var c := Chooses(Eval(host, condition, w));
    if c.Gives? {
      StmtRuns(code, host, body, open + 2, last, frames + [Frame(IF, last)], c.world);
    }
    BlockFinds(code, body, open + 2, last);
    IfCase(code, host, condition, body, pos, open, last, next, frames, w);
  }

  lemma IfHeld(code: seq<byte>, pos: nat, next: nat, condition: Expr, body: Stmt) returns (open: nat, last: nat)
    requires Holds(code, pos, StmtBytes(If(condition, body))) && next == pos + |StmtBytes(If(condition, body))|
    ensures Holds(code, pos, ExprBytes(condition)) && open == pos + |ExprBytes(condition)|
    ensures Holds(code, open + 2, StmtBytes(body)) && last == open + 2 + |StmtBytes(body)| && next == last + 1 <= |code|
    ensures code[open] == 0x04 && code[open + 1] == 0x40 && code[last] == 0x0b
  {
    open := pos + |ExprBytes(condition)|;
    last := open + 2 + |StmtBytes(body)|;
    IfParts(code, pos, ExprBytes(condition), StmtBytes(body), open, last);
  }

  lemma IfElseHeld(code: seq<byte>, pos: nat, next: nat, condition: Expr, yes: Stmt, no: Stmt)
    returns (open: nat, middle: nat, last: nat)
    requires Holds(code, pos, StmtBytes(IfElse(condition, yes, no)))
    requires next == pos + |StmtBytes(IfElse(condition, yes, no))|
    ensures Holds(code, pos, ExprBytes(condition)) && open == pos + |ExprBytes(condition)|
    ensures Holds(code, open + 2, StmtBytes(yes)) && middle == open + 2 + |StmtBytes(yes)|
    ensures Holds(code, middle + 1, StmtBytes(no)) && last == middle + 1 + |StmtBytes(no)| && next == last + 1
    ensures last < |code| && code[open] == 0x04 && code[open + 1] == 0x40 && code[middle] == 0x05 && code[last] == 0x0b
  {
    open := pos + |ExprBytes(condition)|;
    middle := open + 2 + |StmtBytes(yes)|;
    last := middle + 1 + |StmtBytes(no)|;
    IfElseParts(code, pos, ExprBytes(condition), StmtBytes(yes), StmtBytes(no), open, middle, last);
  }

  lemma {:induction false} IfElseWorks(code: seq<byte>, host: Host, condition: Expr, yes: Stmt, no: Stmt, pos: nat,
                                       next: nat, frames: seq<Frame>, w: World)
    requires GoodHost(host) && ExprOk(condition) && Height(condition) <= 256 && StmtOk(yes) && StmtOk(no) && Sane(w)
    requires |frames| + 1 + Nesting(yes) <= 16 && |frames| + 1 + Nesting(no) <= 16
    requires Holds(code, pos, StmtBytes(IfElse(condition, yes, no)))
    requires next == pos + |StmtBytes(IfElse(condition, yes, no))|
    ensures Executes(code, host, IfElse(condition, yes, no), pos, next, frames, w)
    decreases IfElse(condition, yes, no), 1
  {
    var open, middle, last := IfElseHeld(code, pos, next, condition, yes, no);
    ArmsFind(code, yes, no, open + 2, middle, last);
    ConditionRuns(code, host, condition, pos, open, frames, w);
    var c := Chooses(Eval(host, condition, w));
    if c.Gives? {
      ArmsRun(code, host, condition, yes, no, open + 2, middle, last, frames + [Frame(IF, last)], c.world);
    }
    IfElseCase(code, host, condition, yes, no, pos, open, middle, last, next, frames, w);
  }

  lemma ConditionRuns(code: seq<byte>, host: Host, condition: Expr, pos: nat, open: nat, frames: seq<Frame>, w: World)
    requires GoodHost(host) && ExprOk(condition) && Height(condition) <= 256 && Sane(w)
    requires Holds(code, pos, ExprBytes(condition)) && open == pos + |ExprBytes(condition)|
    ensures Evaluates(code, host, condition, pos, open, [], frames, w)
    ensures SaneAnswer(Chooses(Eval(host, condition, w)))
  {
    ExprRuns(code, host, condition, pos, open, [], frames, w);
    EvalIsSane(host, condition, w);
  }

  lemma {:induction false} ArmsRun(code: seq<byte>, host: Host, condition: Expr, yes: Stmt, no: Stmt, pos: nat,
                                   middle: nat, last: nat, frames: seq<Frame>, w: World)
    requires GoodHost(host) && StmtOk(yes) && StmtOk(no) && Sane(w)
    requires |frames| + Nesting(yes) <= 16 && |frames| + Nesting(no) <= 16
    requires Holds(code, pos, StmtBytes(yes)) && middle == pos + |StmtBytes(yes)|
    requires Holds(code, middle + 1, StmtBytes(no)) && last == middle + 1 + |StmtBytes(no)|
    ensures Executes(code, host, yes, pos, middle, frames, w) && Executes(code, host, no, middle + 1, last, frames, w)
    decreases IfElse(condition, yes, no), 0
  {
    StmtRuns(code, host, yes, pos, middle, frames, w);
    StmtRuns(code, host, no, middle + 1, last, frames, w);
  }

  // ------------------------------------------------------------------ whole programs

  lemma ReturnRuns(code: seq<byte>, host: Host, v: int, pos: nat, w: World)
    requires pos < |code| && code[pos] == 0x0b
    ensures Reaches(code, host, At(pos, [] + [V32(v)], [], w),
                    if w.fuel == 0 then Trapped(FuelExhausted) else Return(v))
  {
    OneTurn(code, host, At(pos, [] + [V32(v)], [], w));
  }

  lemma ProgramHeld(code: seq<byte>, p: Program) returns (middle: nat, last: nat)
    requires code == BodyBytes(p)
    ensures DecodeU32(code, 0) == Got(0, 1)
    ensures Holds(code, 1, StmtBytes(p.body)) && middle == 1 + |StmtBytes(p.body)|
    ensures Holds(code, middle, ExprBytes(p.result)) && last == middle + |ExprBytes(p.result)|
    ensures last + 1 == |code| && code[last] == 0x0b
  {
    var b, r := StmtBytes(p.body), ExprBytes(p.result);
    middle := 1 + |b|;
    last := middle + |r|;
    assert code[0..|code|] == code;
    HoldsByte(code, 0, 0x00, b + (r + [0x0b]));
    DecodesSmall(code, 0);
    HoldsParts(code, 1, b, r + [0x0b]);
    HoldsParts(code, middle, r, [0x0b]);
    HoldsOne(code, last, 0x0b);
  }

  /** The interpreter computes the program's meaning: its value, or its trap, whatever the fuel. */
  lemma ProgramsRun(p: Program, host: Host, fuel: nat, memory: seq<byte>, live: bool)
    requires ProgramOk(p) && GoodHost(host) && |memory| <= MAX_MEMORY
    ensures Run(BodyBytes(p), host, fuel, memory, live)
            == Meaning(host, p, World(memory, live, 0, if fuel <= 1_000_000 then fuel else 1_000_000))
  {
    var code, w := BodyBytes(p), World(memory, live, 0, Min(fuel, MAX_FUEL));
    var middle, last := ProgramHeld(code, p);
    StmtRuns(code, host, p.body, 1, middle, [], w);
    ExecIsSane(host, p.body, w);
    var e := Exec(host, p.body, w);
    if e.Leaves? {
      ExprRuns(code, host, p.result, middle, last, [], [], e.world);
      ThenReturn(code, host, At(1, [], [], w), middle, last, e.world, Eval(host, p.result, e.world));
    }
    EndsSo(code, host, At(1, [], [], w), Meaning(host, p, w));
  }

  lemma ThenReturn(code: seq<byte>, host: Host, m: Machine, middle: nat, last: nat, w: World, a: Answer)
    requires Reaches(code, host, m, Continue(At(middle, [], [], w)))
    requires Reaches(code, host, At(middle, [], [], w), Answered(last, [], [], a))
    requires last < |code| && code[last] == 0x0b
    ensures Reaches(code, host, m, if a.Stops? then a.outcome
                                   else if a.world.fuel == 0 then Trapped(FuelExhausted) else Return(a.value))
  {
    Onward(code, host, m, At(middle, [], [], w), Answered(last, [], [], a));
    if a.Gives? {
      ReturnRuns(code, host, a.value, last, a.world);
      Onward(code, host, m, At(last, [] + [V32(a.value)], [], a.world),
             if a.world.fuel == 0 then Trapped(FuelExhausted) else Return(a.value));
    }
  }
}
