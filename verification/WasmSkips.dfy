/** The encodings of `WasmLanguage` inside a body: what the decoders read there, and that the byte scan of
    `find_control_end` passes over whole statements. */
module WasmSkips {
  import opened Common
  import opened WasmLeb
  import opened WasmVerifier
  import opened WasmInterpreter
  import opened L = WasmLanguage

  // ------------------------------------------------------------------ bytes in a body

  lemma HoldsParts(code: seq<byte>, pos: nat, a: seq<byte>, b: seq<byte>)
    requires Holds(code, pos, a + b)
    ensures Holds(code, pos, a) && Holds(code, pos + |a|, b)
  {
    var whole := code[pos..pos + |a + b|];
    assert whole[..|a|] == a && whole[|a|..] == b;
    assert code[pos..pos + |a|] == whole[..|a|] && code[pos + |a|..pos + |a| + |b|] == whole[|a|..];
  }

  lemma HoldsByte(code: seq<byte>, pos: nat, b: byte, rest: seq<byte>)
    requires Holds(code, pos, [b] + rest)
    ensures pos < |code| && code[pos] == b && Holds(code, pos + 1, rest)
  {
    HoldsTail(code, pos, b, rest);
  }

  lemma HoldsOne(code: seq<byte>, pos: nat, b: byte)
    requires Holds(code, pos, [b])
    ensures pos < |code| && code[pos] == b
  {
    assert code[pos..pos + 1][0] == b;
  }

  lemma HoldsTwo(code: seq<byte>, pos: nat, a: byte, b: byte)
    requires Holds(code, pos, [a, b])
    ensures pos + 1 < |code| && code[pos] == a && code[pos + 1] == b
  {
    assert code[pos..pos + 2][0] == a && code[pos..pos + 2][1] == b;
  }

  lemma DecodesI32(code: seq<byte>, pos: nat, n: int)
    requires IsI32(n) && Holds(code, pos, EncodeSigned(n))
    ensures DecodeI32(code, pos) == Got(n, pos + |EncodeSigned(n)|)
  {
    var e := EncodeSigned(n);
    assert code == code[..pos] + e + code[pos + |e|..];
    I32RoundTrip(n, code[..pos], code[pos + |e|..]);
  }

  lemma DecodesU32(code: seq<byte>, pos: nat, n: nat)
    requires n < U32_LIMIT && Holds(code, pos, EncodeUnsigned(n))
    ensures DecodeU32(code, pos) == Got(n, pos + |EncodeUnsigned(n)|)
  {
    var e := EncodeUnsigned(n);
    assert code == code[..pos] + e + code[pos + |e|..];
    U32RoundTrip(n, code[..pos], code[pos + |e|..]);
  }

  lemma DecodesSmall(code: seq<byte>, pos: nat)
    requires pos < |code| && code[pos] < 128
    ensures DecodeU32(code, pos) == Got(code[pos], pos + 1)
  {
    assert Pow2(0) == 1;
  }

  /** A memory instruction stands here, with this offset and the next instruction there. */
  predicate AccessAt(code: seq<byte>, pos: nat, op: byte, offset: int, next: nat) {
    && pos + 2 <= |code| && code[pos] == op
    && DecodeU32(code, pos + 1) == Got(2, pos + 2) && DecodeU32(code, pos + 2) == Got(offset, next)
  }

  /** A memory instruction with the natural alignment. */
  lemma DecodesAccess(code: seq<byte>, pos: nat, op: byte, offset: nat)
    requires offset < U32_LIMIT && Holds(code, pos, [op, 0x02] + EncodeUnsigned(offset))
    ensures AccessAt(code, pos, op, offset, pos + 2 + |EncodeUnsigned(offset)|)
  {
    HoldsParts(code, pos, [op, 0x02], EncodeUnsigned(offset));
    HoldsTwo(code, pos, op, 0x02);
    DecodesSmall(code, pos + 1);
    DecodesU32(code, pos + 2, offset);
  }

  // ------------------------------------------------------------------ the byte scan passes over whole pieces

  /** The scan goes from one position to another with nothing changed. */
  ghost predicate Passes(code: seq<byte>, pos: nat, next: nat) {
    && pos <= next <= |code|
    && forall depth: nat, elseAt: Option<nat> :: Scan(code, pos, depth, elseAt) == Scan(code, next, depth, elseAt)
  }

  /** Wherever these bytes stand in the code, the scan passes over them. */
  ghost predicate Skipped(code: seq<byte>, bytes: seq<byte>) {
    forall pos: nat :: Holds(code, pos, bytes) ==> Passes(code, pos, pos + |bytes|)
  }

  lemma BothSkipped(code: seq<byte>, a: seq<byte>, b: seq<byte>)
    requires Skipped(code, a) && Skipped(code, b)
    ensures Skipped(code, a + b)
  {
    forall pos: nat | Holds(code, pos, a + b) ensures Passes(code, pos, pos + |a + b|) {
      HoldsParts(code, pos, a, b);
      assert Passes(code, pos, pos + |a|);
      assert Passes(code, pos + |a|, pos + |a| + |b|);
    }
  }

  lemma ByteSkipped(code: seq<byte>, b: byte)
    requires b in {0x01, 0x1a, 0x45, 0x6a, 0x6b, 0x6c}
    ensures Skipped(code, [b])
  {
    forall pos: nat | Holds(code, pos, [b]) ensures Passes(code, pos, pos + 1) {
      HoldsOne(code, pos, b);
    }
  }

  lemma ConstSkipped(code: seq<byte>, n: int)
    requires IsI32(n)
    ensures Skipped(code, [0x41] + EncodeSigned(n))
  {
    var bytes := [0x41] + EncodeSigned(n);
    forall pos: nat | Holds(code, pos, bytes) ensures Passes(code, pos, pos + |bytes|) {
      HoldsByte(code, pos, 0x41, EncodeSigned(n));
      DecodesI32(code, pos + 1, n);
      ConstPasses(code, pos, pos + |bytes|);
    }
  }

  lemma ConstPasses(code: seq<byte>, pos: nat, next: nat)
    requires pos < next <= |code| && code[pos] == 0x41 && NextOf(DecodeI32(code, pos + 1)) == Some(next)
    ensures Passes(code, pos, next)
  {
  }

  lemma AccessSkipped(code: seq<byte>, op: byte, offset: nat)
    requires (op == LOAD || op == STORE) && offset < U32_LIMIT
    ensures Skipped(code, [op, 0x02] + EncodeUnsigned(offset))
  {
    var bytes := [op, 0x02] + EncodeUnsigned(offset);
    forall pos: nat | Holds(code, pos, bytes) ensures Passes(code, pos, pos + |bytes|) {
      DecodesAccess(code, pos, op, offset);
      AccessPasses(code, pos, op, offset, pos + |bytes|);
    }
  }

  lemma AccessPasses(code: seq<byte>, pos: nat, op: byte, offset: nat, next: nat)
    requires (op == LOAD || op == STORE) && AccessAt(code, pos, op, offset, next)
    ensures Passes(code, pos, next)
  {
  }

  lemma OperatorSkipped(code: seq<byte>, op: Operator)
    ensures Skipped(code, OperatorBytes(op))
  {
    if op.Log? {
      forall pos: nat | Holds(code, pos, [0x10, 0x00]) ensures Passes(code, pos, pos + 2) {
        HoldsTwo(code, pos, 0x10, 0x00);
        DecodesSmall(code, pos + 1);
      }
    } else {
      ByteSkipped(code, OperatorBytes(op)[0]);
    }
  }

  lemma {:induction false} ExprSkipped(code: seq<byte>, e: Expr)
    requires ExprOk(e)
    ensures Skipped(code, ExprBytes(e))
  {
    match e
    case Const(n) => ConstSkipped(code, n);
    case IsZero(of) =>
      ExprSkipped(code, of);
      ByteSkipped(code, 0x45);
      BothSkipped(code, ExprBytes(of), [0x45]);
    case Binary(op, left, right) =>
      ExprSkipped(code, left);
      ExprSkipped(code, right);
      OperatorSkipped(code, op);
      BothSkipped(code, ExprBytes(right), OperatorBytes(op));
      BothSkipped(code, ExprBytes(left), ExprBytes(right) + OperatorBytes(op));
    case Load(address, offset) =>
      ExprSkipped(code, address);
      AccessSkipped(code, LOAD, offset);
      BothSkipped(code, ExprBytes(address), [0x28, 0x02] + EncodeUnsigned(offset));
  }

  /** A block, or an `if` with one arm. */
  lemma BlockSkipped(code: seq<byte>, op: byte, body: seq<byte>)
    requires BLOCK <= op <= IF && Skipped(code, body)
    ensures Skipped(code, [op, 0x40] + (body + [0x0b]))
  {
    var bytes := [op, 0x40] + (body + [0x0b]);
    forall pos: nat | Holds(code, pos, bytes) ensures Passes(code, pos, pos + |bytes|) {
      BlockHeld(code, pos, op, body);
      BlockPasses(code, pos, pos + 2 + |body|);
    }
  }

  lemma BlockPasses(code: seq<byte>, pos: nat, last: nat)
    requires pos + 2 <= last < |code| && Passes(code, pos + 2, last)
    requires BLOCK <= code[pos] <= IF && code[pos + 1] == 0x40 && code[last] == 0x0b
    ensures Passes(code, pos, last + 1)
  {
    forall depth: nat, elseAt: Option<nat>
      ensures Scan(code, pos, depth, elseAt) == Scan(code, last + 1, depth, elseAt)
    {
      assert Scan(code, pos, depth, elseAt) == Scan(code, pos + 2, depth + 1, elseAt);
      assert Scan(code, last, depth + 1, elseAt) == Scan(code, last + 1, depth, elseAt);
    }
  }

  lemma BlockHeld(code: seq<byte>, pos: nat, op: byte, body: seq<byte>)
    requires Holds(code, pos, [op, 0x40] + (body + [0x0b]))
    ensures pos + 3 + |body| <= |code| && code[pos] == op && code[pos + 1] == 0x40
    ensures Holds(code, pos + 2, body) && code[pos + 2 + |body|] == 0x0b
  {
    HoldsParts(code, pos, [op, 0x40], body + [0x0b]);
    HoldsTwo(code, pos, op, 0x40);
    HoldsParts(code, pos + 2, body, [0x0b]);
    HoldsOne(code, pos + 2 + |body|, 0x0b);
  }

  /** An `if` with two arms. */
  lemma ArmsSkipped(code: seq<byte>, yes: seq<byte>, no: seq<byte>)
    requires Skipped(code, yes) && Skipped(code, no)
    ensures Skipped(code, [0x04, 0x40] + (yes + ([0x05] + (no + [0x0b]))))
  {
    var bytes := [0x04, 0x40] + (yes + ([0x05] + (no + [0x0b])));
    forall pos: nat | Holds(code, pos, bytes) ensures Passes(code, pos, pos + |bytes|) {
      ArmsHeld(code, pos, yes, no);
      var middle := pos + 2 + |yes|;
      assert Passes(code, pos + 2, middle) && Passes(code, middle + 1, middle + 1 + |no|);
      ArmsPass(code, pos, middle, middle + 1 + |no|);
    }
  }

  lemma ArmsPass(code: seq<byte>, pos: nat, middle: nat, last: nat)
    requires pos + 2 <= middle < last < |code| && Passes(code, pos + 2, middle) && Passes(code, middle + 1, last)
    requires code[pos] == 0x04 && code[pos + 1] == 0x40 && code[middle] == 0x05 && code[last] == 0x0b
    ensures Passes(code, pos, last + 1)
  {
    forall depth: nat, elseAt: Option<nat>
      ensures Scan(code, pos, depth, elseAt) == Scan(code, last + 1, depth, elseAt)
    {
      assert Scan(code, pos, depth, elseAt) == Scan(code, pos + 2, depth + 1, elseAt);
      assert Scan(code, middle, depth + 1, elseAt) == Scan(code, middle + 1, depth + 1, elseAt);
      assert Scan(code, last, depth + 1, elseAt) == Scan(code, last + 1, depth, elseAt);
    }
  }

  lemma ArmsHeld(code: seq<byte>, pos: nat, yes: seq<byte>, no: seq<byte>)
    requires Holds(code, pos, [0x04, 0x40] + (yes + ([0x05] + (no + [0x0b]))))
    ensures pos + 4 + |yes| + |no| <= |code| && code[pos] == 0x04 && code[pos + 1] == 0x40
    ensures Holds(code, pos + 2, yes) && code[pos + 2 + |yes|] == 0x05
    ensures Holds(code, pos + 3 + |yes|, no) && code[pos + 3 + |yes| + |no|] == 0x0b
  {
    HoldsParts(code, pos, [0x04, 0x40], yes + ([0x05] + (no + [0x0b])));
    HoldsTwo(code, pos, 0x04, 0x40);
    HoldsParts(code, pos + 2, yes, [0x05] + (no + [0x0b]));
    HoldsByte(code, pos + 2 + |yes|, 0x05, no + [0x0b]);
    HoldsParts(code, pos + 3 + |yes|, no, [0x0b]);
    HoldsOne(code, pos + 3 + |yes| + |no|, 0x0b);
  }

  lemma {:induction false} StmtSkipped(code: seq<byte>, s: Stmt)
    requires StmtOk(s)
    ensures Skipped(code, StmtBytes(s))
  {
    match s
    case Nop => ByteSkipped(code, 0x01);
    case Then(first, next) =>
      StmtSkipped(code, first);
      StmtSkipped(code, next);
      BothSkipped(code, StmtBytes(first), StmtBytes(next));
    case Store(address, offset, value) =>
      var access := [0x36, 0x02] + EncodeUnsigned(offset);
      ExprSkipped(code, address);
      ExprSkipped(code, value);
      AccessSkipped(code, STORE, offset);
      BothSkipped(code, ExprBytes(value), access);
      BothSkipped(code, ExprBytes(address), ExprBytes(value) + access);
    case Drop(of) =>
      ExprSkipped(code, of);
      ByteSkipped(code, 0x1a);
      BothSkipped(code, ExprBytes(of), [0x1a]);
    case Block(body) =>
      StmtSkipped(code, body);
      BlockSkipped(code, BLOCK, StmtBytes(body));
    case If(condition, body) =>
      ExprSkipped(code, condition);
      StmtSkipped(code, body);
      BlockSkipped(code, IF, StmtBytes(body));
      BothSkipped(code, ExprBytes(condition), [0x04, 0x40] + (StmtBytes(body) + [0x0b]));
    case IfElse(condition, yes, no) =>
      ExprSkipped(code, condition);
      StmtSkipped(code, yes);
      StmtSkipped(code, no);
      ArmsSkipped(code, StmtBytes(yes), StmtBytes(no));
      BothSkipped(code, ExprBytes(condition),
                  [0x04, 0x40] + (StmtBytes(yes) + ([0x05] + (StmtBytes(no) + [0x0b]))));
  }

  /** Where the scan from inside a block ends. */
  lemma BlockEnds(code: seq<byte>, pos: nat, body: seq<byte>)
    requires Skipped(code, body) && Holds(code, pos, body) && pos + |body| < |code| && code[pos + |body|] == 0x0b
    ensures Scan(code, pos, 0, None) == Found(None, pos + |body|)
  {
    assert Passes(code, pos, pos + |body|);
  }

  lemma ArmsEnd(code: seq<byte>, pos: nat, yes: seq<byte>, middle: nat, no: seq<byte>, last: nat)
    requires Skipped(code, yes) && Skipped(code, no) && Holds(code, pos, yes) && Holds(code, middle + 1, no)
    requires middle == pos + |yes| && last == middle + 1 + |no| < |code| && code[middle] == 0x05 && code[last] == 0x0b
    ensures Scan(code, pos, 0, None) == Found(Some(middle), last)
  {
    assert Passes(code, pos, middle) && Passes(code, middle + 1, last);
    ScansOn(code, pos, middle, None);
    ScansOn(code, middle + 1, last, Some(middle));
    ScanElse(code, middle);
    ScanEnd(code, last, Some(middle));
  }

  lemma ScansOn(code: seq<byte>, pos: nat, next: nat, elseAt: Option<nat>)
    requires Passes(code, pos, next)
    ensures Scan(code, pos, 0, elseAt) == Scan(code, next, 0, elseAt)
  {
  }

  lemma ScanElse(code: seq<byte>, pos: nat)
    requires pos < |code| && code[pos] == 0x05
    ensures Scan(code, pos, 0, None) == Scan(code, pos + 1, 0, Some(pos))
  {
  }

  lemma ScanEnd(code: seq<byte>, pos: nat, elseAt: Option<nat>)
    requires pos < |code| && code[pos] == 0x0b
    ensures Scan(code, pos, 0, elseAt) == Found(elseAt, pos)
  {
  }

  // ------------------------------------------------------------------ the parts of an `if`

  lemma IfParts(code: seq<byte>, pos: nat, c: seq<byte>, body: seq<byte>, open: nat, last: nat)
    requires Holds(code, pos, c + ([0x04, 0x40] + (body + [0x0b]))) && open == pos + |c| && last == open + 2 + |body|
    ensures Holds(code, pos, c) && Holds(code, open + 2, body) && last < |code|
    ensures code[open] == 0x04 && code[open + 1] == 0x40 && code[last] == 0x0b
  {
    HoldsParts(code, pos, c, [0x04, 0x40] + (body + [0x0b]));
    BlockHeld(code, open, IF, body);
  }

  lemma IfElseParts(code: seq<byte>, pos: nat, c: seq<byte>, yes: seq<byte>, no: seq<byte>, open: nat, middle: nat,
                    last: nat)
    requires Holds(code, pos, c + ([0x04, 0x40] + (yes + ([0x05] + (no + [0x0b])))))
    requires open == pos + |c| && middle == open + 2 + |yes| && last == middle + 1 + |no|
    ensures Holds(code, pos, c) && Holds(code, open + 2, yes) && Holds(code, middle + 1, no) && last < |code|
    ensures code[open] == 0x04 && code[open + 1] == 0x40 && code[middle] == 0x05 && code[last] == 0x0b
  {
    HoldsParts(code, pos, c, [0x04, 0x40] + (yes + ([0x05] + (no + [0x0b]))));
    ArmsHeld(code, open, yes, no);
  }
}
