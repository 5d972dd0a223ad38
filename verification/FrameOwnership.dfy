/** Who owns which physical frame, over any interleaving of operations on several address spaces
    that share one allocator. */
module FrameOwnership {
  import opened Common
  import opened FrameMemory
  import opened AddressSpace

  datatype World = World(spaces: seq<Space>, pool: Pool)

  /** Holder 0 of a space is its root, holder k + 1 its k-th mapping slot. */
  function HeldAt(s: Space, j: nat): Option<nat>
    requires j <= |s.slots|
  {
    if j == 0 then s.root
    else if s.slots[j - 1].None? then None
    else Some(s.slots[j - 1].value.frame)
  }

  ghost predicate Holds(w: World, i: nat, j: nat) {
    i < |w.spaces| && j <= |w.spaces[i].slots| && HeldAt(w.spaces[i], j).Some?
  }

  ghost function Frame(w: World, i: nat, j: nat): nat
    requires Holds(w, i, j)
  {
    HeldAt(w.spaces[i], j).value
  }

  /** No frame has two holders, none of them waits on the return stack, and all were issued. */
  ghost predicate Owned(w: World) {
    && GoodPool(w.pool)
    && (forall i :: 0 <= i < |w.spaces| ==> |w.spaces[i].slots| == MAX_MAPPINGS)
    && (forall i: nat, j: nat :: Holds(w, i, j) ==>
        Issued(w.pool, Frame(w, i, j)) && Frame(w, i, j) !in w.pool.returned)
    && forall i: nat, j: nat, k: nat, l: nat :: Holds(w, i, j) && Holds(w, k, l) && (i != k || j != l) ==>
        Frame(w, i, j) != Frame(w, k, l)
  }

  // ------------------------------------------------------------------ elementary changes

  /** The holders of `t` are those of `s`, except that `j` now holds `now`. */
  ghost predicate Changes(s: Space, t: Space, j: nat, now: Option<nat>) {
    && |s.slots| == |t.slots| == MAX_MAPPINGS && j <= MAX_MAPPINGS
    && forall l: nat :: l <= MAX_MAPPINGS ==> HeldAt(t, l) == if l == j then now else HeldAt(s, l)
  }

  ghost predicate SameHolders(s: Space, t: Space) {
    && |s.slots| == |t.slots|
    && forall l: nat :: l <= |s.slots| ==> HeldAt(t, l) == HeldAt(s, l)
  }

  lemma SameHoldersKeep(w: World, i: nat, t: Space)
    requires Owned(w) && i < |w.spaces| && SameHolders(w.spaces[i], t)
    ensures Owned(w.(spaces := w.spaces[i := t]))
  {
    var v := w.(spaces := w.spaces[i := t]);
    assert forall k: nat, l: nat :: Holds(v, k, l) ==> Holds(w, k, l) && Frame(v, k, l) == Frame(w, k, l);
  }

  lemma TakeKeeps(w: World, i: nat, t: Space, j: nat)
    requires Owned(w) && i < |w.spaces| && TakeFrame(w.pool).frame.Some?
    requires j <= |w.spaces[i].slots| && HeldAt(w.spaces[i], j).None?
    requires Changes(w.spaces[i], t, j, TakeFrame(w.pool).frame)
    ensures Owned(World(w.spaces[i := t], TakeFrame(w.pool).pool))
  {
    TakeFrameFacts(w.pool);
    var f, v := TakeFrame(w.pool).frame.value, World(w.spaces[i := t], TakeFrame(w.pool).pool);
    forall k: nat, l: nat | Holds(v, k, l)
      ensures if k == i && l == j then Frame(v, k, l) == f
              else Holds(w, k, l) && Frame(v, k, l) == Frame(w, k, l) != f
    {
    }
  }

  lemma EmptyTakeKeeps(w: World)
    requires Owned(w) && TakeFrame(w.pool).frame.None?
    ensures Owned(w.(pool := TakeFrame(w.pool).pool))
  {
    TakeFrameFacts(w.pool);
    var v := w.(pool := TakeFrame(w.pool).pool);
    assert forall k: nat, l: nat :: Holds(v, k, l) ==> Holds(w, k, l) && Frame(v, k, l) == Frame(w, k, l);
  }

  lemma ReturnKeeps(w: World, i: nat, t: Space, j: nat)
    requires Owned(w) && Holds(w, i, j) && CanReturn(w.pool, Frame(w, i, j))
    requires Changes(w.spaces[i], t, j, None)
    ensures Owned(World(w.spaces[i := t], w.pool.(returned := w.pool.returned + [Frame(w, i, j)])))
  {
    var v := World(w.spaces[i := t], w.pool.(returned := w.pool.returned + [Frame(w, i, j)]));
    ReturnFacts(w.pool, Frame(w, i, j));
    assert forall k: nat, l: nat :: Holds(v, k, l) ==> Holds(w, k, l) && Frame(v, k, l) == Frame(w, k, l);
  }

  // ------------------------------------------------------------------ the operations

  ghost function With(w: World, i: nat, s: Space, p: Pool): World
    requires i < |w.spaces|
  {
    World(w.spaces[i := s], p)
  }

  lemma WithTwice(w: World, i: nat, s: Space, p: Pool, t: Space, q: Pool)
    requires i < |w.spaces|
    ensures With(With(w, i, s, p), i, t, q) == With(w, i, t, q)
  {
    assert w.spaces[i := s][i := t] == w.spaces[i := t];
  }

  lemma MapPageKeeps(w: World, i: nat, address: nat, flags: Flags, kind: Kind)
    requires Owned(w) && i < |w.spaces|
    ensures var m := MapPage(w.spaces[i], w.pool, address, flags, kind);
            Owned(With(w, i, m.space, m.pool))
  {
    var s := w.spaces[i];
    var m := MapPage(s, w.pool, address, flags, kind);
    assert w.spaces[i := s] == w.spaces;
    if m.result.Ok? {
      TakeKeeps(w, i, m.space, EmptySlot(s.slots).value + 1);
    } else if m.pool != w.pool {
      EmptyTakeKeeps(w);
    }
  }

  lemma RemoveMappingKeeps(w: World, i: nat, address: nat)
    requires Owned(w) && i < |w.spaces|
    ensures var r := RemoveMapping(w.spaces[i], w.pool, address);
            Owned(With(w, i, r.space, r.pool))
  {
    var s := w.spaces[i];
    var r := RemoveMapping(s, w.pool, address);
    assert w.spaces[i := s] == w.spaces;
    if r.result.Ok? {
      var j := SlotOf(s.slots, address).value + 1;
      assert Holds(w, i, j);
      ReturnKeeps(w, i, r.space, j);
    }
  }

  lemma {:induction false} RollBackKeeps(w: World, i: nat, k: nat, index: nat, error: Error)
    requires Owned(w) && i < |w.spaces| && k <= index
    ensures var r := RollBack(w.spaces[i], w.pool, k, index, error);
            Owned(With(w, i, r.space, r.pool))
    decreases index - k
  {
    assert w.spaces[i := w.spaces[i]] == w.spaces;
    if k != index {
      var r := RemoveMapping(w.spaces[i], w.pool, STACK_FIRST + k * PAGE);
      RemoveMappingKeeps(w, i, STACK_FIRST + k * PAGE);
      RollBackKeeps(With(w, i, r.space, r.pool), i, k + 1, index, error);
      var b := RollBack(r.space, r.pool, k + 1, index, error);
      WithTwice(w, i, r.space, r.pool, b.space, b.pool);
    }
  }

  lemma {:induction false} MapStackKeeps(w: World, i: nat, index: nat)
    requires Owned(w) && i < |w.spaces| && index <= INITIAL_STACK_PAGES
    ensures var r := MapStackFrom(w.spaces[i], w.pool, index);
            Owned(With(w, i, r.space, r.pool))
    decreases INITIAL_STACK_PAGES - index
  {
    var s := w.spaces[i];
    if index == INITIAL_STACK_PAGES {
      SameHoldersKeep(w, i, MapStackFrom(s, w.pool, index).space);
    } else {
      var r := MapStackFrom(s, w.pool, index);
      var m := MapPage(s, w.pool, STACK_FIRST + index * PAGE, USER_RW, Stack);
      MapPageKeeps(w, i, STACK_FIRST + index * PAGE, USER_RW, Stack);
      var v := With(w, i, m.space, m.pool);
      WithTwice(w, i, m.space, m.pool, r.space, r.pool);
      if m.result.Ok? {
        MapStackKeeps(v, i, index + 1);
      } else {
        RollBackKeeps(v, i, 0, index, m.result.error);
      }
    }
  }

  lemma GrowStackKeeps(w: World, i: nat, fault: nat)
    requires Owned(w) && i < |w.spaces|
    ensures var g := GrowStack(w.spaces[i], w.pool, fault);
            Owned(With(w, i, g.space, g.pool))
  {
    var s := w.spaces[i];
    assert w.spaces[i := s] == w.spaces;
    var g := GrowStack(s, w.pool, fault);
    if g.result != Ok(false) {
      var m := MapPage(s, w.pool, s.guard.value, USER_RW, Stack);
      MapPageKeeps(w, i, s.guard.value, USER_RW, Stack);
      if g.result.Ok? {
        SameHoldersKeep(With(w, i, m.space, m.pool), i, g.space);
        WithTwice(w, i, m.space, m.pool, g.space, g.pool);
      }
    }
  }

  lemma CreateKeeps(w: World)
    requires Owned(w)
    ensures var c := Create(w.pool);
            Owned(World(w.spaces + [c.space], c.pool))
  {
    TakeFrameFacts(w.pool);
    var c := Create(w.pool);
    var v := World(w.spaces + [c.space], c.pool);
    forall k: nat, l: nat | Holds(v, k, l)
      ensures if k == |w.spaces| then l == 0 && Some(Frame(v, k, l)) == TakeFrame(w.pool).frame
              else Holds(w, k, l) && Frame(v, k, l) == Frame(w, k, l) && TakeFrame(w.pool).frame != Some(Frame(w, k, l))
    {
    }
  }

  // ------------------------------------------------------------------ destroying a space

  /** The frames a space maps, in slot order. */
  function MappedFrames(slots: seq<Option<Mapping>>, k: nat): seq<nat>
    requires k <= |slots|
    decreases |slots| - k
  {
    if k == |slots| then []
    else if slots[k].None? then MappedFrames(slots, k + 1)
    else [slots[k].value.frame] + MappedFrames(slots, k + 1)
  }

  lemma {:induction false} MappedFramesAreHeld(s: Space, k: nat, f: nat)
    requires k <= |s.slots|
    ensures f in MappedFrames(s.slots, k) <==> exists j :: k < j <= |s.slots| && HeldAt(s, j) == Some(f)
    decreases |s.slots| - k
  {
    if k < |s.slots| {
      MappedFramesAreHeld(s, k + 1, f);
      if f in MappedFrames(s.slots, k) {
        if s.slots[k].Some? && s.slots[k].value.frame == f {
          assert HeldAt(s, k + 1) == Some(f);
        }
      }
    }
  }

  /** What destroying needs of the frames still to be returned. */
  ghost predicate Returnable(p: Pool, frames: seq<nat>) {
    && NoRepeats(frames)
    && forall i :: 0 <= i < |frames| ==> frames[i] !in p.returned && MIN_FRAME <= frames[i] && frames[i] % PAGE == 0
  }

  /** What a destruction that has room for the mapped frames leaves: everything cleared, and the
      root returned too unless exactly its place is missing. */
  ghost function Destroyed(s: Space, p: Pool, frames: seq<nat>): Step<()>
    requires s.root.Some?
  {
    if |p.returned| + |frames| < MAX_RETURNED then
      Step(Ok(()), Space(None, NoSlots(), None, 0), p.(returned := p.returned + frames + [s.root.value]))
    else Step(Err(FrameReturn), s.(root := None, slots := NoSlots()), p.(returned := p.returned + frames))
  }

  lemma {:induction false} DestroyReturns(s: Space, p: Pool, k: nat)
    requires k <= |s.slots| && s.root.Some?
    requires |p.returned| <= MAX_RETURNED && Returnable(p, MappedFrames(s.slots, k) + [s.root.value])
    ensures var d, frames := DestroyFrom(s, p, k), MappedFrames(s.slots, k);
            if |p.returned| + |frames| <= MAX_RETURNED then d == Destroyed(s, p, frames) else d.result.Err?
    decreases |s.slots| - k
  {
    var frames := MappedFrames(s.slots, k);
    if k == |s.slots| {
      assert (frames + [s.root.value])[0] !in p.returned;
      assert p.returned + frames == p.returned;
    } else if s.slots[k].None? {
      DestroyReturns(s, p, k + 1);
    } else {
      var f, rest := s.slots[k].value.frame, MappedFrames(s.slots, k + 1);
      assert frames + [s.root.value] == [f] + (rest + [s.root.value]);
      ReturnableTail(p, f, rest + [s.root.value]);
      var p1 := p.(returned := p.returned + [f]);
      if CanReturn(p, f) {
        DestroyReturns(s, p1, k + 1);
        assert p1.returned + rest == p.returned + frames;
      }
    }
  }

  lemma ReturnableTail(p: Pool, f: nat, rest: seq<nat>)
    requires Returnable(p, [f] + rest)
    ensures CanReturn(p, f) <==> |p.returned| < MAX_RETURNED
    ensures Returnable(p.(returned := p.returned + [f]), rest)
  {
    var frames := [f] + rest;
    assert frames[0] == f;
    forall i | 0 <= i < |rest|
      ensures rest[i] !in p.returned + [f] && MIN_FRAME <= rest[i] && rest[i] % PAGE == 0
    {
      assert rest[i] == frames[i + 1];
    }
    forall i, j | 0 <= i < j < |rest| ensures rest[i] != rest[j] {
      assert rest[i] == frames[i + 1] && rest[j] == frames[j + 1];
    }
  }

  lemma {:induction false} HeldFramesAreReturnable(w: World, i: nat, k: nat)
    requires Owned(w) && i < |w.spaces| && w.spaces[i].root.Some? && k <= MAX_MAPPINGS
    ensures Returnable(w.pool, MappedFrames(w.spaces[i].slots, k) + [w.spaces[i].root.value])
    decreases MAX_MAPPINGS - k
  {
    var s := w.spaces[i];
    assert Holds(w, i, 0);
    if k < MAX_MAPPINGS {
      HeldFramesAreReturnable(w, i, k + 1);
      if s.slots[k].Some? {
        assert Holds(w, i, k + 1);
        var f, rest := s.slots[k].value.frame, MappedFrames(s.slots, k + 1) + [s.root.value];
        MappedFramesAreHeld(s, k + 1, f);
        if f in MappedFrames(s.slots, k + 1) {
          var j :| k + 1 < j <= |s.slots| && HeldAt(s, j) == Some(f);
          assert Holds(w, i, j);
          assert false;
        }
        assert MappedFrames(s.slots, k) + [s.root.value] == [f] + rest;
      }
    }
  }

  /** Destroying succeeds exactly when the return stack has room for the root and every mapped
      frame, and then all of them, and nothing else, are on it. */
  lemma DestroyReturnsEveryFrame(w: World, i: nat)
    requires Owned(w) && i < |w.spaces| && w.spaces[i].root.Some?
    ensures var s := w.spaces[i];
            var d, frames := Destroy(s, w.pool), MappedFrames(s.slots, 0) + [s.root.value];
            && (d.result.Ok? <==> |w.pool.returned| + |frames| <= MAX_RETURNED)
            && (d.result.Ok? ==>
                  && d.pool.returned == w.pool.returned + frames
                  && (forall j: nat :: Holds(w, i, j) ==> Frame(w, i, j) in d.pool.returned)
                  && (forall j: nat :: j <= |d.space.slots| ==> HeldAt(d.space, j).None?))
  {
    var s := w.spaces[i];
    HeldFramesAreReturnable(w, i, 0);
    DestroyReturns(s, w.pool, 0);
    var frames := MappedFrames(s.slots, 0) + [s.root.value];
    forall j: nat | Holds(w, i, j) ensures Frame(w, i, j) in frames {
      if j != 0 {
        MappedFramesAreHeld(s, 0, Frame(w, i, j));
      } else {
        assert frames[|frames| - 1] == s.root.value;
      }
    }
  }

  /** The return stack is full from the start, or has room for every mapped frame. */
  ghost predicate Bearable(s: Space, p: Pool) {
    |p.returned| == MAX_RETURNED || |p.returned| + |MappedFrames(s.slots, 0)| <= MAX_RETURNED
  }

  /** A destruction that stops half-way is the one thing that breaks ownership: it has returned
      frames that the space still maps. */
  lemma DestroyKeepsExactly(w: World, i: nat)
    requires Owned(w) && i < |w.spaces|
    ensures var d := Destroy(w.spaces[i], w.pool);
            Owned(With(w, i, d.space, d.pool)) <==> w.spaces[i].root.None? || Bearable(w.spaces[i], w.pool)
  {
    var s := w.spaces[i];
    assert w.spaces[i := s] == w.spaces;
    if s.root.Some? {
      HeldFramesAreReturnable(w, i, 0);
      DestroyReturns(s, w.pool, 0);
      if |w.pool.returned| + |MappedFrames(s.slots, 0)| <= MAX_RETURNED {
        ClearedKeeps(w, i);
      } else {
        var k := FirstMapped(s);
        SkipEmpty(s, w.pool, k);
        if |w.pool.returned| < MAX_RETURNED {
          HalfWayBreaks(w, i, k);
        }
      }
    }
  }

  lemma ClearedKeeps(w: World, i: nat)
    requires Owned(w) && i < |w.spaces| && w.spaces[i].root.Some?
    requires |w.pool.returned| + |MappedFrames(w.spaces[i].slots, 0)| <= MAX_RETURNED
    ensures var d := Destroyed(w.spaces[i], w.pool, MappedFrames(w.spaces[i].slots, 0));
            Owned(With(w, i, d.space, d.pool))
  {
    var s := w.spaces[i];
    var frames, d := MappedFrames(s.slots, 0), Destroyed(s, w.pool, MappedFrames(s.slots, 0));
    HeldFramesAreReturnable(w, i, 0);
    var all := frames + [s.root.value];
    var back := if |w.pool.returned| + |frames| < MAX_RETURNED then all else frames;
    assert back <= all;
    HeldFramesAreHeld(w, i);
    GrownPool(w.pool, back);
    assert d.pool.returned == w.pool.returned + back;
    var v := With(w, i, d.space, d.pool);
    forall k: nat, l: nat | Holds(v, k, l)
      ensures k != i && Holds(w, k, l) && Frame(v, k, l) == Frame(w, k, l) && Frame(v, k, l) !in v.pool.returned
    {
      assert k != i;
    }
  }

  ghost predicate HeldBy(w: World, i: nat, f: nat) {
    exists j: nat :: Holds(w, i, j) && Frame(w, i, j) == f
  }

  lemma HeldFramesAreHeld(w: World, i: nat)
    requires Owned(w) && i < |w.spaces| && w.spaces[i].root.Some?
    ensures var all := MappedFrames(w.spaces[i].slots, 0) + [w.spaces[i].root.value];
            forall n :: 0 <= n < |all| ==> HeldBy(w, i, all[n])
  {
    var s := w.spaces[i];
    var frames := MappedFrames(s.slots, 0);
    var all := frames + [s.root.value];
    forall n | 0 <= n < |all| ensures HeldBy(w, i, all[n]) {
      if n == |frames| {
        assert Holds(w, i, 0) && Frame(w, i, 0) == all[n];
      } else {
        MappedFramesAreHeld(s, 0, frames[n]);
        var j :| 0 < j <= |s.slots| && HeldAt(s, j) == Some(frames[n]);
        assert Holds(w, i, j);
      }
    }
  }

  lemma {:induction false} FirstMapped(s: Space) returns (k: nat)
    requires MappedFrames(s.slots, 0) != []
    ensures k < |s.slots| && s.slots[k].Some? && forall l :: 0 <= l < k ==> s.slots[l].None?
  {
    k := 0;
    while s.slots[k].None?
      invariant k < |s.slots| && MappedFrames(s.slots, k) != [] && forall l :: 0 <= l < k ==> s.slots[l].None?
      decreases |s.slots| - k
    {
      k := k + 1;
    }
  }

  lemma HalfWayBreaks(w: World, i: nat, k: nat)
    requires Owned(w) && i < |w.spaces| && w.spaces[i].root.Some?
    requires k < MAX_MAPPINGS && w.spaces[i].slots[k].Some? && forall l :: 0 <= l < k ==> w.spaces[i].slots[l].None?
    requires |w.pool.returned| < MAX_RETURNED
    requires |w.pool.returned| + |MappedFrames(w.spaces[i].slots, 0)| > MAX_RETURNED
    ensures var d := Destroy(w.spaces[i], w.pool);
            !Owned(With(w, i, d.space, d.pool))
  {
    var s := w.spaces[i];
    assert Holds(w, i, k + 1);
    var f := Frame(w, i, k + 1);
    SkipEmpty(s, w.pool, k);
    DestroyFails(s, w.pool.(returned := w.pool.returned + [f]), k + 1, f);
    var d := Destroy(s, w.pool);
    var v := With(w, i, d.space, d.pool);
    assert Holds(v, i, k + 1) && Frame(v, i, k + 1) == f;
  }

  lemma {:induction false} SkipEmpty(s: Space, p: Pool, k: nat)
    requires s.root.Some? && k <= |s.slots| && forall l :: 0 <= l < k ==> s.slots[l].None?
    ensures DestroyFrom(s, p, 0) == DestroyFrom(s, p, k) && MappedFrames(s.slots, 0) == MappedFrames(s.slots, k)
  {
    if k != 0 {
      SkipEmpty(s, p, k - 1);
    }
  }

  lemma {:induction false} DestroyFails(s: Space, p: Pool, k: nat, f: nat)
    requires s.root.Some? && k <= |s.slots| && |p.returned| <= MAX_RETURNED && f in p.returned
    requires |p.returned| + |MappedFrames(s.slots, k)| > MAX_RETURNED
    ensures var d := DestroyFrom(s, p, k);
            d.space == s && f in d.pool.returned
    decreases |s.slots| - k
  {
    if k < |s.slots| {
      if s.slots[k].None? {
        DestroyFails(s, p, k + 1, f);
      } else if CanReturn(p, s.slots[k].value.frame) {
        DestroyFails(s, p.(returned := p.returned + [s.slots[k].value.frame]), k + 1, f);
      }
    }
  }

  lemma GrownPool(p: Pool, frames: seq<nat>)
    requires GoodPool(p) && Returnable(p, frames) && |p.returned| + |frames| <= MAX_RETURNED
    requires forall n :: 0 <= n < |frames| ==> Issued(p, frames[n])
    ensures GoodPool(p.(returned := p.returned + frames))
  {
  }

  // ------------------------------------------------------------------ whole runs

  datatype Op =
    | New
    | Map(space: nat, address: nat, flags: Flags)
    | Unmap(space: nat, address: nat)
    | StackInit(space: nat)
    | Grow(space: nat, fault: nat)
    | Kill(space: nat)

  /** What an operation does to the world; one on a space that does not exist does nothing. */
  function Apply(w: World, op: Op): World {
    if op.New? then var c := Create(w.pool); World(w.spaces + [c.space], c.pool)
    else if op.space >= |w.spaces| then w
    else
      var s, i := w.spaces[op.space], op.space;
      match op
      case Map(_, address, flags) =>
        var m := MapPage(s, w.pool, address, flags, Anonymous);
        World(w.spaces[i := m.space], m.pool)
      case Unmap(_, address) =>
        var u := UnmapPage(s, w.pool, address);
        World(w.spaces[i := u.space], u.pool)
      case StackInit(_) =>
        var m := MapStack(s, w.pool);
        World(w.spaces[i := m.space], m.pool)
      case Grow(_, fault) =>
        var g := GrowStack(s, w.pool, fault);
        World(w.spaces[i := g.space], g.pool)
      case Kill(_) =>
        var d := Destroy(s, w.pool);
        World(w.spaces[i := d.space], d.pool)
  }

  function Run(w: World, ops: seq<Op>): World
    decreases |ops|
  {
    if ops == [] then w else Run(Apply(w, ops[0]), ops[1..])
  }

  /** A destruction does not run out of return stack half-way. */
  ghost predicate Roomy(w: World, op: Op) {
    op.Kill? && op.space < |w.spaces| && w.spaces[op.space].root.Some? ==> Bearable(w.spaces[op.space], w.pool)
  }

  ghost predicate AlwaysRoomy(w: World, ops: seq<Op>)
    decreases |ops|
  {
    ops == [] || (Roomy(w, ops[0]) && AlwaysRoomy(Apply(w, ops[0]), ops[1..]))
  }

  lemma ApplyKeeps(w: World, op: Op)
    requires Owned(w) && Roomy(w, op)
    ensures Owned(Apply(w, op))
  {
    if op.New? {
      CreateKeeps(w);
    } else if op.space < |w.spaces| {
      var s, i := w.spaces[op.space], op.space;
      assert w.spaces[i := s] == w.spaces;
      match op {
        case Map(_, address, flags) => MapPageKeeps(w, i, address, flags, Anonymous);
        case Unmap(_, address) => RemoveMappingKeeps(w, i, address);
        case StackInit(_) => MapStackKeeps(w, i, 0);
        case Grow(_, fault) => GrowStackKeeps(w, i, fault);
        case Kill(_) => DestroyKeepsExactly(w, i);
      }
    }
  }

  /** Over any interleaving, while no destruction stops half-way for want of return stack, no frame is ever
      held twice or both held and waiting to be reused. */
  lemma {:induction false} RunKeepsOwnership(w: World, ops: seq<Op>)
    requires Owned(w) && AlwaysRoomy(w, ops)
    ensures Owned(Run(w, ops))
    decreases |ops|
  {
    if ops != [] {
      ApplyKeeps(w, ops[0]);
      RunKeepsOwnership(Apply(w, ops[0]), ops[1..]);
    }
  }

  lemma ApplyKeepsExactly(w: World, op: Op)
    requires Owned(w)
    ensures Owned(Apply(w, op)) <==> Roomy(w, op)
  {
    if Roomy(w, op) {
      ApplyKeeps(w, op);
    } else {
      DestroyKeepsExactly(w, op.space);
    }
  }

  ghost predicate OwnedThroughout(w: World, ops: seq<Op>)
    decreases |ops|
  {
    Owned(w) && (ops == [] || OwnedThroughout(Apply(w, ops[0]), ops[1..]))
  }

  /** Ownership holds at every step of a run if and only if every destruction in it has the room. */
  lemma {:induction false} RunKeepsOwnershipExactly(w: World, ops: seq<Op>)
    requires Owned(w)
    ensures OwnedThroughout(w, ops) <==> AlwaysRoomy(w, ops)
    decreases |ops|
  {
    if ops != [] {
      ApplyKeepsExactly(w, ops[0]);
      if Roomy(w, ops[0]) {
        RunKeepsOwnershipExactly(Apply(w, ops[0]), ops[1..]);
      }
    }
  }

  lemma {:induction false} RunAppend(w: World, a: seq<Op>, b: seq<Op>)
    ensures Run(w, a + b) == Run(Run(w, a), b)
    decreases |a|
  {
    if a == [] {
      assert a + b == b;
    } else {
      RunAppend(Apply(w, a[0]), a[1..], b);
      assert (a + b)[1..] == a[1..] + b;
    }
  }
}
