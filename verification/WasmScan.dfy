/** The byte scan against the verifier's blocks.

    `find_control_end` does not know `i64.const`: it walks into the immediate, and a last immediate
    byte that looks like an instruction makes it act on it, skip what follows, or both. `Steady` is
    a check in one pass over the body that says when the scans nevertheless find every block's own
    else and end; `JumpsRightExactly` proves it exact.
 */
module WasmScan {
  import opened Common
  import opened WasmLeb
  import opened WasmVerifier
  import opened WasmInterpreter
  import opened WasmTrace

  // ------------------------------------------------------------------ the property

  /** What a scan that stands inside level `d` should answer. */
  ghost function Target(p: Program, s: Verifying, d: nat, elseAt: Option<nat>): Found
    requires Running(p, s) && 1 <= d <= |s.controls|
  {
    var ahead := ElseOf(p, s, d);
    Found(if ahead.Some? then Some(ahead.value.pos) else elseAt, EndOf(p, s, d).pos)
  }

  /** The scan of the block opened here finds the verifier's else and end. */
  ghost predicate ScansRight(p: Program, s: Verifying)
    requires Running(p, s) && BLOCK <= p.code[s.pos] <= IF
  {
    NextIsGood(p, s);
    Scan(p.code, s.pos + 2, 0, None) == Target(p, Next(p, s), |s.controls| + 1, None)
  }

  /** Every block the verifier opened is left where the verifier closed it. */
  ghost predicate JumpsRight(p: Program, start: Verifying) {
    forall s :: Visits(p, start, s) ==> Running(p, s) && BLOCK <= p.code[s.pos] <= IF ==> ScansRight(p, s)
  }

  // ------------------------------------------------------------------ the check

  /** The scan on a byte that is no instruction, with `surplus` blocks too many on its count:
      where it goes and its new surplus, or `None` if the block at hand is lost to it. */
  function Stray(code: seq<byte>, q: nat, surplus: nat): (r: Option<(nat, nat)>)
    requires q < |code|
    ensures r.Some? ==> q < r.value.0 <= |code|
  {
    var b := code[q];
    if BLOCK <= b <= IF then
      if q + 1 < |code| && code[q + 1] == 0x40 then Some((q + 2, surplus + 1)) else None
    else if b == ELSE || b == END then
      if surplus == 0 then None else Some((q + 1, if b == END then surplus - 1 else surplus))
    else
      match ScanSkip(code, b, q + 1)
      case None => None
      case Some(next) => Some((next, surplus))
  }

  /** The scan, at or beyond an instruction, when the verifier moves from it to `next`. There is
      one surplus per open block; missing a block's opening uses up one of the block around it. */
  function Beside(code: seq<byte>, pos: nat, next: nat, q: nat, surplus: seq<nat>): (r: Option<(nat, seq<nat>)>)
    requires pos < next <= |code| && q <= |code| && (surplus != [] ==> pos <= q)
    ensures r.Some? ==> r.value.0 <= |code|
  {
    var op := code[pos];
    if surplus == [] then Some((next, if BLOCK <= op <= IF then [0] else []))
    else if BLOCK <= op <= IF then
      if q == pos then Some((next, surplus + [0]))
      else if Last(surplus) == 0 then None
      else Some((next, Front(surplus) + [Last(surplus) - 1, 0]))
    else if op == ELSE || op == END then
      if q != pos || Last(surplus) != 0 then None
      else Some((next, if op == END then Front(surplus) else surplus))
    else if q != pos then Some((q, surplus))
    else Some((if op == CONST64 then pos + 1 else next, surplus))
  }

  /** Follows the verifier from `s` and, beside it, the scan from byte `q`. */
  predicate Steady(p: Program, s: Verifying, q: nat, surplus: seq<nat>)
    requires s.pos <= |p.code| && q <= |p.code|
    decreases |p.code| - s.pos, |p.code| - q
  {
    if s.pos == |p.code| then true
    else if q < s.pos && surplus != [] then
      match Stray(p.code, q, Last(surplus))
      case None => false
      case Some((next, last)) => Steady(p, s, next, Front(surplus) + [last])
    else
      match Step(p.m, p.code, p.result, s)
      case Err(_) => false
      case Ok(n) =>
        match Beside(p.code, s.pos, n.pos, q, surplus)
        case None => false
        case Some((next, after)) => Steady(p, n, next, after)
  }

  /** The check of a whole body. */
  predicate SteadyBody(p: Program)
    requires Verify(p.m, p.code, p.result) == Accepted
  {
    var start := Start(DecodeU32(p.code, 0).next);
    Steady(p, start, start.pos, [])
  }

  // ------------------------------------------------------------------ how far a skip can reach

  /** Between `from` and the byte before `q` at most one byte ends a LEB128 number. */
  ghost predicate Reach(code: seq<byte>, from: nat, q: nat)
    requires q <= |code|
  {
    forall x, y :: from <= x < y < q - 1 ==> code[x] >= 128 || code[y] >= 128
  }

  lemma ReachEnds(code: seq<byte>, pos: nat, q: nat)
    requires q <= |code| && Reach(code, pos, q) && pos + 1 < |code| && code[pos] < 128 && code[pos + 1] < 128
    ensures q <= pos + 2
  {
  }

  lemma {:induction false} SignedShape(width: nat, bytes: seq<byte>, pos: nat, shift: nat, bits: nat)
    requires pos <= |bytes| && FoldSigned(width, bytes, pos, shift, bits).Got?
    ensures forall i :: pos <= i < FoldSigned(width, bytes, pos, shift, bits).next - 1 ==> bytes[i] >= 128
    decreases |bytes| - pos
  {
    if bytes[pos] >= 128 {
      SignedShape(width, bytes, pos + 1, shift + 7, bits + bytes[pos] % 128 * Pow2(shift) % Pow2(width));
    }
  }

  lemma {:induction false} UnsignedShape(bytes: seq<byte>, pos: nat, shift: nat, value: nat)
    requires pos <= |bytes| && FoldU32(bytes, pos, shift, value).Got?
    ensures forall i :: pos <= i < FoldU32(bytes, pos, shift, value).next - 1 ==> bytes[i] >= 128
    decreases |bytes| - pos
  {
    if bytes[pos] >= 128 {
      UnsignedShape(bytes, pos + 1, shift + 7, value + bytes[pos] % 128 * Pow2(shift));
    }
  }

  lemma SkipReaches(code: seq<byte>, op: byte, p: nat)
    requires p <= |code| && ScanSkip(code, op, p).Some?
    ensures Reach(code, p, ScanSkip(code, op, p).value)
  {
    if op == CALL || 0x20 <= op <= 0x22 {
      UnsignedShape(code, p, 0, 0);
    } else if op == LOAD || op == STORE {
      UnsignedShape(code, p, 0, 0);
      UnsignedShape(code, DecodeU32(code, p).next, 0, 0);
    } else if op == CONST32 {
      SignedShape(32, code, p, 0, 0);
    }
  }

  // ------------------------------------------------------------------ the scans of all open blocks

  function Total(surplus: seq<nat>, i: nat): nat
    decreases |surplus|
  {
    if i >= |surplus| then 0 else Last(surplus) + Total(Front(surplus), i)
  }

  /** The depth at which the scan of the `i`-th open block counts itself. */
  function Depth(surplus: seq<nat>, i: nat): nat
    requires i < |surplus|
  {
    |surplus| - 1 - i + Total(surplus, i)
  }

  lemma DepthFacts(surplus: seq<nat>, i: nat, x: nat)
    requires i < |surplus|
    ensures Depth(surplus + [x], i) == Depth(surplus, i) + 1 + x
    ensures Depth(Front(surplus) + [x], i) == Depth(surplus, i) - Last(surplus) + x
    ensures Depth(surplus, |surplus| - 1) == Last(surplus)
  {
    assert Front(surplus + [x]) == surplus;
    assert Front(Front(surplus) + [x]) == Front(surplus);
    assert Total(Front(surplus), |surplus| - 1) == 0;
  }

  /** The two positions and the counts fit together. */
  ghost predicate Fits(p: Program, s: Verifying, q: nat, surplus: seq<nat>)
    requires Running(p, s)
  {
    q <= |p.code| && |surplus| + 1 == |s.controls| && Reach(p.code, s.pos, q)
  }

  lemma StrayScans(code: seq<byte>, q: nat, surplus: seq<nat>, i: nat, elseAt: Option<nat>)
    requires q < |code| && i < |surplus| && Stray(code, q, Last(surplus)).Some?
    ensures var (next, last) := Stray(code, q, Last(surplus)).value;
            Scan(code, q, Depth(surplus, i), elseAt) == Scan(code, next, Depth(Front(surplus) + [last], i), elseAt)
  {
    var (next, last) := Stray(code, q, Last(surplus)).value;
    assert Front(Front(surplus) + [last]) == Front(surplus);
  }

  lemma StrayFits(p: Program, s: Verifying, q: nat, surplus: seq<nat>)
    requires Running(p, s) && Fits(p, s, q, surplus) && q < s.pos && surplus != []
    requires Stray(p.code, q, Last(surplus)).Some?
    ensures var (next, last) := Stray(p.code, q, Last(surplus)).value;
            Fits(p, s, next, Front(surplus) + [last])
  {
    var b := p.code[q];
    if !(BLOCK <= b <= ELSE) && b != END {
      SkipReaches(p.code, b, q + 1);
    }
  }

  /** A scan that missed a block's opening is inside it by the opening's last byte. */
  lemma MissedOpening(p: Program, s: Verifying, q: nat, depth: nat, elseAt: Option<nat>)
    requires Running(p, s) && BLOCK <= p.code[s.pos] <= IF && s.pos < q <= |p.code| && Reach(p.code, s.pos, q)
    ensures Next(p, s).pos == s.pos + 2 <= |p.code|
    ensures Scan(p.code, q, depth, elseAt) == Scan(p.code, s.pos + 2, depth, elseAt)
  {
    NextOpened(p, s);
    ReachEnds(p.code, s.pos, q);
  }

  /** The scan skips the immediates the verifier checks, `i64.const` apart. */
  lemma ScanSkipsImmediates(mod: Module, code: seq<byte>, pos: nat, depth: nat, elseAt: Option<nat>)
    requires pos < |code| && Plain(code[pos]) && code[pos] != CONST64
    requires Immediates(mod, code, code[pos], pos + 1).Ok?
    ensures Scan(code, pos, depth, elseAt)
            == Scan(code, Immediates(mod, code, code[pos], pos + 1).value, depth, elseAt)
  {
  }

  /** One instruction that opens, turns or closes nothing. */
  lemma PlainScans(p: Program, s: Verifying, depth: nat, elseAt: Option<nat>)
    requires Running(p, s) && !(BLOCK <= p.code[s.pos] <= ELSE) && p.code[s.pos] != END
    ensures s.pos < Next(p, s).pos <= |p.code| && Next(p, s).controls == s.controls
    ensures Scan(p.code, s.pos, depth, elseAt)
            == Scan(p.code, if p.code[s.pos] == CONST64 then s.pos + 1 else Next(p, s).pos, depth, elseAt)
  {
    NextIsGood(p, s);
    if Plain(p.code[s.pos]) {
      PlainNext(p, s);
      if p.code[s.pos] != CONST64 {
        ScanSkipsImmediates(p.m, p.code, s.pos, depth, elseAt);
      }
    }
  }

  ghost predicate Moves(p: Program, s: Verifying, q: nat, surplus: seq<nat>)
    requires Running(p, s) && Fits(p, s, q, surplus)
  {
    NextIsGood(p, s);
    (surplus != [] ==> s.pos <= q) && Beside(p.code, s.pos, Next(p, s).pos, q, surplus).Some?
  }

  ghost function Moved(p: Program, s: Verifying, q: nat, surplus: seq<nat>): (nat, seq<nat>)
    requires Running(p, s) && Fits(p, s, q, surplus) && Moves(p, s, q, surplus)
  {
    NextIsGood(p, s);
    Beside(p.code, s.pos, Next(p, s).pos, q, surplus).value
  }

  lemma BesideFits(p: Program, s: Verifying, q: nat, surplus: seq<nat>)
    requires Running(p, s) && Fits(p, s, q, surplus) && Moves(p, s, q, surplus)
    ensures Running(p, Next(p, s)) ==>
              Fits(p, Next(p, s), Moved(p, s, q, surplus).0, Moved(p, s, q, surplus).1)
  {
    NextIsGood(p, s);
    NextControls(p, s);
  }

  lemma OpeningScans(p: Program, s: Verifying, q: nat, surplus: seq<nat>, i: nat, elseAt: Option<nat>)
    requires Running(p, s) && Fits(p, s, q, surplus) && Moves(p, s, q, surplus) && i < |surplus|
    requires BLOCK <= p.code[s.pos] <= IF
    ensures var (next, after) := Moved(p, s, q, surplus);
            i < |after| && Scan(p.code, q, Depth(surplus, i), elseAt) == Scan(p.code, next, Depth(after, i), elseAt)
  {
    if q == s.pos {
      DepthFacts(surplus, i, 0);
    } else {
      var less := Last(surplus) - 1;
      DepthFacts(surplus, i, less);
      DepthFacts(Front(surplus) + [less], i, 0);
      assert Front(surplus) + [less, 0] == Front(surplus) + [less] + [0];
      MissedOpening(p, s, q, Depth(surplus, i), elseAt);
    }
  }

  /** Short of a block's own else and end, its scan moves as the check says. */
  lemma BesideScans(p: Program, s: Verifying, q: nat, surplus: seq<nat>, i: nat, elseAt: Option<nat>)
    requires Running(p, s) && Fits(p, s, q, surplus) && Moves(p, s, q, surplus) && i < |surplus|
    requires i == |surplus| - 1 ==> p.code[s.pos] != ELSE && p.code[s.pos] != END
    ensures var (next, after) := Moved(p, s, q, surplus);
            i < |after| && Scan(p.code, q, Depth(surplus, i), elseAt) == Scan(p.code, next, Depth(after, i), elseAt)
  {
    var op := p.code[s.pos];
    if BLOCK <= op <= IF {
      OpeningScans(p, s, q, surplus, i, elseAt);
    } else if op != ELSE && op != END && q == s.pos {
      PlainScans(p, s, Depth(surplus, i), elseAt);
    }
  }

  // ------------------------------------------------------------------ the check suffices

  ghost predicate Checked(p: Program, s: Verifying, q: nat, surplus: seq<nat>)
    requires Running(p, s)
  {
    Fits(p, s, q, surplus) && Steady(p, s, q, surplus)
  }

  /** Whatever open block's scan passes here, it finds the verifier's else and end. */
  lemma {:induction false} ScanFinds(
    p: Program, s: Verifying, q: nat, surplus: seq<nat>, i: nat, elseAt: Option<nat>)
    requires Running(p, s) && Checked(p, s, q, surplus) && i < |surplus|
    requires elseAt.Some? == s.controls[i + 1].hasElse
    ensures Scan(p.code, q, Depth(surplus, i), elseAt) == Target(p, s, i + 2, elseAt)
    decreases |p.code| - s.pos, |p.code| - q
  {
    if q < s.pos {
      StrayScans(p.code, q, surplus, i, elseAt);
      StrayFits(p, s, q, surplus);
      var (next, last) := Stray(p.code, q, Last(surplus)).value;
      ScanFinds(p, s, next, Front(surplus) + [last], i, elseAt);
    } else {
      ScanFindsBeside(p, s, q, surplus, i, elseAt);
    }
  }

  lemma {:induction false} ScanFindsBeside(
    p: Program, s: Verifying, q: nat, surplus: seq<nat>, i: nat, elseAt: Option<nat>)
    requires Running(p, s) && Checked(p, s, q, surplus) && i < |surplus| && s.pos <= q
    requires elseAt.Some? == s.controls[i + 1].hasElse
    ensures Scan(p.code, q, Depth(surplus, i), elseAt) == Target(p, s, i + 2, elseAt)
    decreases |p.code| - s.pos, |p.code| - q, 0
  {
    NextIsGood(p, s);
    NextControls(p, s);
    BesideFits(p, s, q, surplus);
    var op, n := p.code[s.pos], Next(p, s);
    var (next, after) := Moved(p, s, q, surplus);
    if i == |surplus| - 1 && op == END {
      DepthFacts(surplus, i, 0);
    } else if i == |surplus| - 1 && op == ELSE {
      DepthFacts(surplus, i, 0);
      NextElse(p, s);
      ScanFinds(p, n, next, after, i, Some(s.pos));
    } else {
      BesideScans(p, s, q, surplus, i, elseAt);
      assert n.controls[i + 1].hasElse == s.controls[i + 1].hasElse;
      ScanFinds(p, n, next, after, i, elseAt);
    }
  }

  /** Where the check stands when the verifier leaves a visited state. */
  lemma {:induction false} CheckReaches(p: Program, start: Verifying, q: nat, surplus: seq<nat>, s: Verifying)
    returns (at: nat, counts: seq<nat>)
    requires Visits(p, start, s) && Running(p, s) && Running(p, start) && Checked(p, start, q, surplus)
    ensures Checked(p, s, at, counts) && (counts != [] ==> s.pos <= at)
    decreases |p.code| - start.pos, |p.code| - q
  {
    if q < start.pos && surplus != [] {
      StrayFits(p, start, q, surplus);
      var (next, last) := Stray(p.code, q, Last(surplus)).value;
      at, counts := CheckReaches(p, start, next, Front(surplus) + [last], s);
    } else if start.pos == s.pos {
      at, counts := q, surplus;
    } else {
      NextIsGood(p, start);
      BesideFits(p, start, q, surplus);
      var (next, after) := Moved(p, start, q, surplus);
      at, counts := CheckReaches(p, Next(p, start), next, after, s);
    }
  }

  lemma CheckedOpening(p: Program, s: Verifying, q: nat, surplus: seq<nat>)
    requires Running(p, s) && Checked(p, s, q, surplus) && (surplus != [] ==> s.pos <= q)
    requires BLOCK <= p.code[s.pos] <= IF
    ensures ScansRight(p, s)
  {
    NextOpened(p, s);
    BesideFits(p, s, q, surplus);
    var (next, after) := Moved(p, s, q, surplus);
    assert next == s.pos + 2 && Last(after) == 0;
    DepthFacts(after, |after| - 1, 0);
    ScanFinds(p, Next(p, s), next, after, |after| - 1, None);
  }

  lemma SteadyScansRight(p: Program, start: Verifying, s: Verifying)
    requires Running(p, start) && |start.controls| == 1 && Steady(p, start, start.pos, [])
    requires Visits(p, start, s) && Running(p, s) && BLOCK <= p.code[s.pos] <= IF
    ensures ScansRight(p, s)
  {
    var q, surplus := CheckReaches(p, start, start.pos, [], s);
    CheckedOpening(p, s, q, surplus);
  }

  // ------------------------------------------------------------------ the check is necessary

  /** An open block: the state that opened it and the else its scan has seen. */
  datatype Level = Level(opening: Verifying, elseAt: Option<nat>)

  /** The scan from the block's opening has come to `q`, and the block's end is still ahead. */
  ghost predicate LevelHolds(
    p: Program, start: Verifying, s: Verifying, q: nat, surplus: seq<nat>, i: nat, v: Level)
    requires Running(p, s) && Fits(p, s, q, surplus) && i < |surplus|
  {
    && Visits(p, start, v.opening) && Running(p, v.opening) && BLOCK <= p.code[v.opening.pos] <= IF
    && var n, d := Next(p, v.opening), i + 2;
       && Running(p, n) && |n.controls| == d && n.pos == v.opening.pos + 2
       && EndOf(p, n, d) == EndOf(p, s, d)
       && v.elseAt.Some? == s.controls[d - 1].hasElse
       && (v.elseAt.None? ==> ElseOf(p, n, d) == ElseOf(p, s, d))
       && Scan(p.code, n.pos, 0, None) == Scan(p.code, q, Depth(surplus, i), v.elseAt)
  }

  ghost predicate LevelsHold(
    p: Program, start: Verifying, s: Verifying, q: nat, surplus: seq<nat>, levels: seq<Level>)
    requires Running(p, s)
  {
    && Fits(p, s, q, surplus) && |levels| == |surplus|
    && forall i :: 0 <= i < |levels| ==> LevelHolds(p, start, s, q, surplus, i, levels[i])
  }

  lemma StrayLevels(p: Program, start: Verifying, s: Verifying, q: nat, surplus: seq<nat>, levels: seq<Level>)
    requires Running(p, s) && LevelsHold(p, start, s, q, surplus, levels) && q < s.pos && surplus != []
    requires Stray(p.code, q, Last(surplus)).Some?
    ensures var (next, last) := Stray(p.code, q, Last(surplus)).value;
            LevelsHold(p, start, s, next, Front(surplus) + [last], levels)
  {
    var (next, last) := Stray(p.code, q, Last(surplus)).value;
    StrayFits(p, s, q, surplus);
    forall i | 0 <= i < |levels| ensures LevelHolds(p, start, s, next, Front(surplus) + [last], i, levels[i]) {
      assert LevelHolds(p, start, s, q, surplus, i, levels[i]);
      StrayScans(p.code, q, surplus, i, levels[i].elseAt);
    }
  }

  ghost function Relevel(p: Program, s: Verifying, levels: seq<Level>): seq<Level>
    requires Running(p, s) && |levels| + 1 == |s.controls|
  {
    var op := p.code[s.pos];
    if BLOCK <= op <= IF then levels + [Level(s, None)]
    else if op == ELSE && levels != [] then Front(levels) + [Last(levels).(elseAt := Some(s.pos))]
    else if op == END && levels != [] then Front(levels)
    else levels
  }

  lemma LevelFollows(p: Program, start: Verifying, s: Verifying, q: nat, surplus: seq<nat>, i: nat, v: Level)
    requires Running(p, s) && Fits(p, s, q, surplus) && Moves(p, s, q, surplus) && i < |surplus|
    requires LevelHolds(p, start, s, q, surplus, i, v)
    requires i == |surplus| - 1 ==> p.code[s.pos] != ELSE && p.code[s.pos] != END
    ensures var (next, after) := Moved(p, s, q, surplus);
            && Running(p, Next(p, s)) && Fits(p, Next(p, s), next, after) && i < |after|
            && LevelHolds(p, start, Next(p, s), next, after, i, v)
  {
    NextIsGood(p, s);
    NextControls(p, s);
    BesideFits(p, s, q, surplus);
    BesideScans(p, s, q, surplus, i, v.elseAt);
  }

  /** A block's own else, met in step. */
  lemma ElseFollows(p: Program, start: Verifying, s: Verifying, q: nat, surplus: seq<nat>, v: Level)
    requires Running(p, s) && Fits(p, s, q, surplus) && Moves(p, s, q, surplus) && surplus != []
    requires LevelHolds(p, start, s, q, surplus, |surplus| - 1, v) && p.code[s.pos] == ELSE
    ensures var (next, after) := Moved(p, s, q, surplus);
            && Running(p, Next(p, s)) && Fits(p, Next(p, s), next, after) && after == surplus
            && LevelHolds(p, start, Next(p, s), next, after, |after| - 1, v.(elseAt := Some(s.pos)))
  {
    NextElse(p, s);
    BesideFits(p, s, q, surplus);
    DepthFacts(surplus, |surplus| - 1, 0);
  }

  /** A block just opened. */
  lemma OpeningHolds(p: Program, start: Verifying, s: Verifying, q: nat, surplus: seq<nat>)
    requires Visits(p, start, s) && Running(p, s) && Fits(p, s, q, surplus) && Moves(p, s, q, surplus)
    requires BLOCK <= p.code[s.pos] <= IF
    ensures var (next, after) := Moved(p, s, q, surplus);
            && Running(p, Next(p, s)) && Fits(p, Next(p, s), next, after) && |after| == |surplus| + 1
            && LevelHolds(p, start, Next(p, s), next, after, |surplus|, Level(s, None))
  {
    NextOpened(p, s);
    BesideFits(p, s, q, surplus);
    var (next, after) := Moved(p, s, q, surplus);
    DepthFacts(after, |after| - 1, 0);
    assert next == s.pos + 2 && Last(after) == 0 && |after| == |surplus| + 1;
  }

  /** All blocks but one that turns or ends here. */
  lemma LevelsFollow(p: Program, start: Verifying, s: Verifying, q: nat, surplus: seq<nat>, levels: seq<Level>, k: nat)
    requires Running(p, s) && LevelsHold(p, start, s, q, surplus, levels) && Moves(p, s, q, surplus)
    requires Running(p, Next(p, s)) && k <= |levels|
    requires p.code[s.pos] == ELSE || p.code[s.pos] == END ==> k < |levels|
    ensures var (next, after) := Moved(p, s, q, surplus);
            && Fits(p, Next(p, s), next, after) && k <= |after|
            && forall i :: 0 <= i < k ==> LevelHolds(p, start, Next(p, s), next, after, i, levels[i])
  {
    BesideFits(p, s, q, surplus);
    var (next, after) := Moved(p, s, q, surplus);
    assert k <= |after|;
    forall i | 0 <= i < k ensures LevelHolds(p, start, Next(p, s), next, after, i, levels[i]) {
      LevelFollows(p, start, s, q, surplus, i, levels[i]);
    }
  }

  lemma BesideLevels(p: Program, start: Verifying, s: Verifying, q: nat, surplus: seq<nat>, levels: seq<Level>)
    requires Visits(p, start, s) && Running(p, s) && LevelsHold(p, start, s, q, surplus, levels)
    requires Moves(p, s, q, surplus)
    ensures var (next, after) := Moved(p, s, q, surplus);
            Running(p, Next(p, s)) ==> LevelsHold(p, start, Next(p, s), next, after, Relevel(p, s, levels))
  {
    var op := p.code[s.pos];
    if Running(p, Next(p, s)) {
      if op == ELSE || op == END {
        NextControls(p, s);
        LevelsFollow(p, start, s, q, surplus, levels, |levels| - 1);
        if op == ELSE {
          ElseFollows(p, start, s, q, surplus, Last(levels));
        }
      } else {
        LevelsFollow(p, start, s, q, surplus, levels, |levels|);
        if BLOCK <= op <= IF {
          OpeningHolds(p, start, s, q, surplus);
        }
      }
    }
  }

  lemma {:induction false} ScanKeepsElse(code: seq<byte>, pos: nat, depth: nat, at: nat)
    requires pos <= |code|
    ensures Scan(code, pos, depth, Some(at)).Found? ==> Scan(code, pos, depth, Some(at)).elseAt == Some(at)
    decreases |code| - pos
  {
    if pos < |code| {
      var op, p := code[pos], pos + 1;
      if BLOCK <= op <= IF {
        if p < |code| { ScanKeepsElse(code, p + 1, depth + 1, at); }
      } else if op == END {
        if depth > 0 { ScanKeepsElse(code, p, depth - 1, at); }
      } else if op == ELSE && depth == 0 {
      } else if ScanSkip(code, op, p).Some? {
        ScanKeepsElse(code, ScanSkip(code, op, p).value, depth, at);
      }
    }
  }

  /** The end a scan finds does not depend on the else it has seen. */
  lemma {:induction false} ScanEndsAlike(code: seq<byte>, pos: nat, depth: nat, a: Option<nat>, b: Option<nat>)
    requires pos <= |code|
    ensures var f, g := Scan(code, pos, depth, a), Scan(code, pos, depth, b);
            f.Found? && g.Found? ==> f.endAt == g.endAt
    decreases |code| - pos
  {
    if pos < |code| {
      var op, p := code[pos], pos + 1;
      if BLOCK <= op <= IF {
        if p < |code| { ScanEndsAlike(code, p + 1, depth + 1, a, b); }
      } else if op == END {
        if depth > 0 { ScanEndsAlike(code, p, depth - 1, a, b); }
      } else if op == ELSE && depth == 0 {
        ScanEndsAlike(code, p, depth, Some(pos), Some(pos));
      } else if ScanSkip(code, op, p).Some? {
        ScanEndsAlike(code, ScanSkip(code, op, p).value, depth, a, b);
      }
    }
  }

  /** What the innermost block's scan must still find, if it is to be right. */
  ghost predicate MustFind(p: Program, s: Verifying, f: Found, elseAt: Option<nat>)
    requires Running(p, s)
  {
    var ahead := ElseOf(p, s, |s.controls|);
    && f.Found? && f.endAt == EndOf(p, s, |s.controls|).pos
    && (elseAt.None? ==> f.elseAt == if ahead.Some? then Some(ahead.value.pos) else None)
  }

  lemma InnermostMustFind(p: Program, start: Verifying, s: Verifying, q: nat, surplus: seq<nat>, v: Level)
    requires Running(p, s) && Fits(p, s, q, surplus) && surplus != []
    requires LevelHolds(p, start, s, q, surplus, |surplus| - 1, v) && ScansRight(p, v.opening)
    ensures MustFind(p, s, Scan(p.code, q, Last(surplus), v.elseAt), v.elseAt)
    ensures v.elseAt.Some? == Last(s.controls).hasElse
  {
    DepthFacts(surplus, |surplus| - 1, 0);
  }

  /** Where the check fails on a byte that is no instruction, the block at hand is lost. */
  lemma StrayMisleads(p: Program, s: Verifying, q: nat, surplus: nat, elseAt: Option<nat>)
    requires Running(p, s) && q < s.pos && Stray(p.code, q, surplus).None?
    ensures !MustFind(p, s, Scan(p.code, q, surplus, elseAt), elseAt)
  {
    EndOfFacts(p, s, |s.controls|);
    ElseOfFacts(p, s, |s.controls|);
    if p.code[q] == ELSE && elseAt.None? {
      ScanKeepsElse(p.code, q + 1, 0, q);
    }
  }

  /** A scan that is past a block's else or end, or has miscounted there, cannot come back to it. */
  lemma TurnMisleads(p: Program, s: Verifying, q: nat, surplus: nat, elseAt: Option<nat>)
    requires Running(p, s) && s.pos <= q <= |p.code| && elseAt.Some? == Last(s.controls).hasElse
    requires |s.controls| >= 2 && (p.code[s.pos] == ELSE || p.code[s.pos] == END) && (q != s.pos || surplus != 0)
    ensures !MustFind(p, s, Scan(p.code, q, surplus, elseAt), elseAt)
  {
    NextIsGood(p, s);
  }

  /** The inner block ends before the one around it. */
  lemma InnerEndsFirst(p: Program, s: Verifying)
    requires Running(p, s) && BLOCK <= p.code[s.pos] <= IF && |s.controls| >= 2
    ensures var n, d := Next(p, s), |s.controls|;
            Running(p, n) && |n.controls| == d + 1 && EndOf(p, n, d + 1).pos < EndOf(p, s, d).pos
  {
    var n, d := Next(p, s), |s.controls|;
    NextOpened(p, s);
    EndOfFacts(p, n, d + 1);
    EndOfStable(p, n, d + 1, d);
    var e := EndOf(p, n, d + 1);
    NextIsGood(p, e);
    EndOfFacts(p, Next(p, e), d);
  }

  /** A scan that missed an opening takes the inner block's end for its own. */
  lemma OpeningMisleads(p: Program, s: Verifying, q: nat, elseAt: Option<nat>)
    requires Running(p, s) && s.pos < q <= |p.code| && Reach(p.code, s.pos, q) && |s.controls| >= 2
    requires BLOCK <= p.code[s.pos] <= IF && ScansRight(p, s)
    ensures !MustFind(p, s, Scan(p.code, q, 0, elseAt), elseAt)
  {
    MissedOpening(p, s, q, 0, elseAt);
    ScanEndsAlike(p.code, s.pos + 2, 0, elseAt, None);
    InnerEndsFirst(p, s);
  }

  lemma {:induction false} RightJumpsAreSteady(
    p: Program, start: Verifying, s: Verifying, q: nat, surplus: seq<nat>, levels: seq<Level>)
    requires Visits(p, start, s) && Good(p, s) && JumpsRight(p, start) && q <= |p.code|
    requires s.controls != [] ==> LevelsHold(p, start, s, q, surplus, levels)
    ensures Steady(p, s, q, surplus)
    decreases |p.code| - s.pos, |p.code| - q
  {
    if s.controls != [] {
      if surplus != [] {
        assert LevelHolds(p, start, s, q, surplus, |surplus| - 1, Last(levels));
      }
      if q < s.pos && surplus != [] {
        if Stray(p.code, q, Last(surplus)).None? {
          InnermostMustFind(p, start, s, q, surplus, Last(levels));
          StrayMisleads(p, s, q, Last(surplus), Last(levels).elseAt);
          assert false;
        }
        StrayLevels(p, start, s, q, surplus, levels);
        var (next, last) := Stray(p.code, q, Last(surplus)).value;
        RightJumpsAreSteady(p, start, s, next, Front(surplus) + [last], levels);
      } else {
        RightJumpsMove(p, start, s, q, surplus, levels);
        NextIsGood(p, s);
        VisitsNext(p, start, s);
        BesideLevels(p, start, s, q, surplus, levels);
        var (next, after) := Moved(p, s, q, surplus);
        RightJumpsAreSteady(p, start, Next(p, s), next, after, Relevel(p, s, levels));
      }
    }
  }

  lemma RightJumpsMove(p: Program, start: Verifying, s: Verifying, q: nat, surplus: seq<nat>, levels: seq<Level>)
    requires Visits(p, start, s) && Running(p, s) && JumpsRight(p, start)
    requires LevelsHold(p, start, s, q, surplus, levels) && (surplus != [] ==> s.pos <= q)
    ensures Moves(p, s, q, surplus)
  {
    NextIsGood(p, s);
    if surplus != [] && Beside(p.code, s.pos, Next(p, s).pos, q, surplus).None? {
      assert LevelHolds(p, start, s, q, surplus, |surplus| - 1, Last(levels));
      InnermostMustFind(p, start, s, q, surplus, Last(levels));
      if BLOCK <= p.code[s.pos] <= IF {
        OpeningMisleads(p, s, q, Last(levels).elseAt);
      } else {
        TurnMisleads(p, s, q, Last(surplus), Last(levels).elseAt);
      }
    }
  }

  /** For every accepted body: every scan finds its block's own else and end if and only if the
      body passes the check. */
  lemma JumpsRightExactly(p: Program)
    requires Verify(p.m, p.code, p.result) == Accepted
    ensures JumpsRight(p, StartOf(p)) <==> SteadyBody(p)
  {
    var start := StartOf(p);
    if SteadyBody(p) {
      forall s | Visits(p, start, s) && Running(p, s) && BLOCK <= p.code[s.pos] <= IF ensures ScansRight(p, s) {
        SteadyScansRight(p, start, s);
      }
    } else if JumpsRight(p, start) {
      RightJumpsAreSteady(p, start, start, start.pos, [], []);
    }
  }

  // ------------------------------------------------------------------ a simple sufficient check

  /** A byte the scan steps over without meaning. */
  predicate Neutral(b: byte) {
    !(BLOCK <= b <= ELSE) && !(0x20 <= b <= 0x22) && b !in {END, CALL, LOAD, STORE, CONST32}
  }

  /** The scan of a block walks into this instruction's immediate. */
  ghost predicate ExposesConst(p: Program, s: Verifying)
    requires Running(p, s)
  {
    |s.controls| >= 2 && p.code[s.pos] == CONST64
  }

  /** From here on, no `i64.const` inside a block ends in a byte the scan would act on.
      Only the last byte of the immediate matters: the others have their top bit set. */
  ghost predicate Clear(p: Program, s: Verifying)
    requires Good(p, s)
    decreases |p.code| - s.pos
  {
    if s.controls == [] then true
    else
      NextIsGood(p, s);
      var n := Next(p, s);
      (ExposesConst(p, s) ==> Neutral(p.code[n.pos - 1])) && Clear(p, n)
  }

  lemma {:induction false} NeutralIsSteady(p: Program, s: Verifying, q: nat, surplus: seq<nat>)
    requires s.pos <= |p.code| && q <= s.pos && Steady(p, s, s.pos, surplus)
    requires forall i :: q <= i < s.pos ==> Neutral(p.code[i])
    ensures Steady(p, s, q, surplus)
    decreases s.pos - q
  {
    if q < s.pos < |p.code| && surplus != [] {
      NeutralIsSteady(p, s, q + 1, surplus);
      assert Front(surplus) + [Last(surplus)] == surplus;
    }
  }

  ghost predicate AllZero(surplus: seq<nat>) { forall i :: 0 <= i < |surplus| ==> surplus[i] == 0 }

  lemma ClearMoves(p: Program, s: Verifying, surplus: seq<nat>)
    requires Running(p, s) && Clear(p, s) && AllZero(surplus) && |surplus| + 1 == |s.controls|
    ensures Fits(p, s, s.pos, surplus) && Moves(p, s, s.pos, surplus)
    ensures var (next, after) := Moved(p, s, s.pos, surplus);
            AllZero(after) && (next == Next(p, s).pos || (next == s.pos + 1 && ExposesConst(p, s)))
  {
    NextIsGood(p, s);
  }

  lemma ClearImmediate(p: Program, s: Verifying)
    requires Running(p, s) && Clear(p, s) && ExposesConst(p, s)
    ensures s.pos + 1 <= Next(p, s).pos <= |p.code|
    ensures forall i :: s.pos + 1 <= i < Next(p, s).pos ==> Neutral(p.code[i])
  {
    PlainNext(p, s);
    SignedShape(64, p.code, s.pos + 1, 0, 0);
  }

  /** A body whose constants end in neutral bytes passes the check. */
  lemma {:induction false} ClearIsSteady(p: Program, s: Verifying, surplus: seq<nat>)
    requires Good(p, s) && Clear(p, s) && AllZero(surplus)
    requires s.controls != [] ==> |surplus| + 1 == |s.controls|
    ensures Steady(p, s, s.pos, surplus)
    decreases |p.code| - s.pos
  {
    if s.controls != [] {
      NextIsGood(p, s);
      ClearMoves(p, s, surplus);
      BesideFits(p, s, s.pos, surplus);
      var (next, after) := Moved(p, s, s.pos, surplus);
      ClearIsSteady(p, Next(p, s), after);
      if next != Next(p, s).pos {
        ClearImmediate(p, s);
        NeutralIsSteady(p, Next(p, s), next, after);
      }
    }
  }
}
