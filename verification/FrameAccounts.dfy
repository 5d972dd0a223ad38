/** Where the frames of one address space come from and go to: what was drawn from the allocator
    since some moment is held by the space or waits on the return stack, and nothing is lost. */
module FrameAccounts {
  import opened Common
  import opened FrameMemory
  import opened AddressSpace
  import opened FrameOwnership
  import opened Heap

  /** The allocator after `n` more fresh frames. */
  function Advance(p: Pool, n: nat): Pool {
    if n == 0 then p else FreshFrame(Advance(p, n - 1)).pool
  }

  /** The fresh frames it gave out on the way. */
  function Drawn(p: Pool, n: nat): set<nat> {
    if n == 0 then {}
    else
      var frame := FreshFrame(Advance(p, n - 1)).frame;
      Drawn(p, n - 1) + if frame.Some? then {frame.value} else {}
  }

  function Waiting(p: Pool): set<nat> { set f | f in p.returned }

  function Held(s: Space): set<nat> {
    set j | 0 <= j <= |s.slots| && HeldAt(s, j).Some? :: HeldAt(s, j).value
  }

  ghost predicate Balances(before: Pool, n: nat, p: Pool, held: set<nat>) {
    && p == Advance(before, n).(returned := p.returned)
    && Waiting(p) + held == Waiting(before) + Drawn(before, n) && Waiting(p) !! held
  }

  /** Every frame that waited before or was drawn since now waits or is held, and not both. */
  ghost predicate Conserves(before: Pool, p: Pool, held: set<nat>) {
    exists n: nat :: Balances(before, n, p, held)
  }

  /** The space's books are right, and the return stack has room for all it holds. */
  ghost predicate Accounts(before: Pool, s: Space, p: Pool) {
    && Owned(World([s], p)) && s.root.Some?
    && Conserves(before, p, Held(s))
    && |p.returned| + Occupied(s.slots) < MAX_RETURNED
  }

  lemma {:induction false} FreshIgnoresReturned(p: Pool, returned: seq<nat>)
    ensures var a := FreshFrame(p);
            FreshFrame(p.(returned := returned)) == Alloc(a.frame, a.pool.(returned := returned))
    decreases |p.ranges| - p.nextRange
  {
    if p.nextRange < |p.ranges| {
      var r := p.ranges[p.nextRange];
      var frame := if p.nextFrame == 0 || p.nextFrame < r.start then r.start else p.nextFrame;
      if frame >= End(r) {
        FreshIgnoresReturned(p.(nextRange := p.nextRange + 1, nextFrame := frame), returned);
      }
    }
  }

  /** Taking a frame moves it from the allocator's side to the holder's. */
  lemma TakeConserves(before: Pool, p: Pool, held: set<nat>)
    requires GoodPool(p) && Conserves(before, p, held)
    ensures var a := TakeFrame(p);
            Conserves(before, a.pool, held + if a.frame.Some? then {a.frame.value} else {})
  {
    var n: nat :| Balances(before, n, p, held);
    var a := TakeFrame(p);
    if p.returned != [] {
      var f := a.frame.value;
      assert p.returned == a.pool.returned + [f];
      assert Waiting(p) == Waiting(a.pool) + {f};
      assert f !in Waiting(a.pool);
      assert Balances(before, n, a.pool, held + {f});
    } else {
      FreshFrameRises(p);
      FreshIgnoresReturned(Advance(before, n), p.returned);
      assert Balances(before, n + 1, a.pool, held + if a.frame.Some? then {a.frame.value} else {});
    }
  }

  lemma ReturnConserves(before: Pool, p: Pool, held: set<nat>, frame: nat)
    requires Conserves(before, p, held) && frame in held
    ensures Conserves(before, p.(returned := p.returned + [frame]), held - {frame})
  {
    var n: nat :| Balances(before, n, p, held);
    var q := p.(returned := p.returned + [frame]);
    assert Waiting(q) == Waiting(p) + {frame};
    assert Balances(before, n, q, held - {frame});
  }

  lemma {:induction false} AdvanceRises(p: Pool, n: nat, m: nat)
    requires GoodPool(p) && n <= m
    ensures GoodPool(Advance(p, n)) && GoodPool(Advance(p, m)) && Advance(p, m).returned == p.returned
    ensures Drawn(p, n) <= Drawn(p, m) && Advance(p, n).nextFrame <= Advance(p, m).nextFrame
    ensures Drawn(p, n) != Drawn(p, m) ==> Advance(p, n).nextFrame < Advance(p, m).nextFrame
    decreases m
  {
    if n < m {
      AdvanceRises(p, n, m - 1);
      FreshFrameRises(Advance(p, m - 1));
    } else if 0 < m {
      AdvanceRises(p, n - 1, m - 1);
      FreshFrameRises(Advance(p, m - 1));
    }
  }

  /** What is held follows from the allocator alone. */
  lemma BooksAreClear(before: Pool, p: Pool, held: set<nat>, other: set<nat>)
    requires GoodPool(before) && Conserves(before, p, held) && Conserves(before, p, other)
    ensures held == other
  {
    var n: nat :| Balances(before, n, p, held);
    var m: nat :| Balances(before, m, p, other);
    assert Advance(before, n).nextFrame == p.nextFrame == Advance(before, m).nextFrame;
    AdvanceRises(before, if n <= m then n else m, if n <= m then m else n);
    assert Drawn(before, n) == Drawn(before, m);
    assert forall f :: f in held <==> f in Waiting(before) + Drawn(before, n) && f !in Waiting(p);
    assert forall f :: f in other <==> f in Waiting(before) + Drawn(before, n) && f !in Waiting(p);
  }

  // ------------------------------------------------------------------ holders

  lemma HeldGains(s: Space, t: Space, j: nat, frame: nat)
    requires Changes(s, t, j, Some(frame)) && HeldAt(s, j).None?
    ensures Held(t) == Held(s) + {frame}
  {
    forall f ensures f in Held(t) <==> f in Held(s) + {frame} {
      if f in Held(s) {
        var l :| 0 <= l <= |s.slots| && HeldAt(s, l) == Some(f);
        assert HeldAt(t, l) == Some(f);
      }
      assert HeldAt(t, j) == Some(frame);
      if f in Held(t) {
        var l :| 0 <= l <= |t.slots| && HeldAt(t, l) == Some(f);
        assert l != j ==> HeldAt(s, l) == Some(f);
      }
    }
  }

  lemma HeldLoses(s: Space, t: Space, p: Pool, j: nat, frame: nat)
    requires Owned(World([s], p)) && Changes(s, t, j, None) && HeldAt(s, j) == Some(frame)
    ensures frame in Held(s) && Held(t) == Held(s) - {frame}
  {
    var w := World([s], p);
    forall f ensures f in Held(t) <==> f in Held(s) && f != frame {
      if f in Held(s) && f != frame {
        var l :| 0 <= l <= |s.slots| && HeldAt(s, l) == Some(f);
        assert HeldAt(t, l) == Some(f);
      }
      if f in Held(t) {
        var l :| 0 <= l <= |t.slots| && HeldAt(t, l) == Some(f);
        assert HeldAt(s, l) == Some(f) && l != j;
        assert Holds(w, 0, l) && Holds(w, 0, j) && Frame(w, 0, l) != Frame(w, 0, j);
      }
    }
  }

  lemma HeldSame(s: Space, t: Space)
    requires SameHolders(s, t)
    ensures Held(s) == Held(t)
  {
    forall f ensures f in Held(s) <==> f in Held(t) {
      if f in Held(s) {
        var l :| 0 <= l <= |s.slots| && HeldAt(s, l) == Some(f);
        assert HeldAt(t, l) == Some(f);
      }
      if f in Held(t) {
        var l :| 0 <= l <= |t.slots| && HeldAt(t, l) == Some(f);
        assert HeldAt(s, l) == Some(f);
      }
    }
  }

  // ------------------------------------------------------------------ the operations

  lemma CreateAccounts(before: Pool)
    requires GoodPool(before) && Create(before).result.Ok?
    ensures Accounts(before, Create(before).space, Create(before).pool)
  {
    var c := Create(before);
    CreateKeeps(World([], before));
    assert [] + [c.space] == [c.space];
    assert Balances(before, 0, before, {});
    TakeConserves(before, before, {});
    assert Held(c.space) == {c.result.value} by {
      assert HeldAt(c.space, 0) == Some(c.result.value);
    }
    assert {} + {c.result.value} == {c.result.value};
    EmptyIsUnoccupied(MAX_MAPPINGS);
    FreshFrameRises(before);
  }

  lemma {:induction false} EmptyIsUnoccupied(n: nat)
    ensures Occupied(seq(n, _ => None)) == 0
  {
    var slots: seq<Option<Mapping>> := seq(n, _ => None);
    if n > 0 {
      EmptyIsUnoccupied(n - 1);
      assert slots[..n - 1] == seq(n - 1, _ => None);
    }
  }

  lemma MapAccounts(before: Pool, s: Space, p: Pool, address: nat, flags: Flags, kind: Kind)
    requires Accounts(before, s, p)
    ensures var m := MapPage(s, p, address, flags, kind);
            Accounts(before, m.space, m.pool)
  {
    var w, m := World([s], p), MapPage(s, p, address, flags, kind);
    MapPageKeeps(w, 0, address, flags, kind);
    assert w.spaces[0 := m.space] == [m.space];
    FreshFrameRises(p);
    if m.result.Ok? {
      var k := EmptySlot(s.slots).value;
      TakeConserves(before, p, Held(s));
      HeldGains(s, m.space, k + 1, m.result.value.frame);
      OccupiedAfter(s.slots, k, Some(m.result.value));
    } else if m.pool != p {
      TakeConserves(before, p, Held(s));
      assert Held(s) + {} == Held(s);
    }
  }

  lemma RemoveAccounts(before: Pool, s: Space, p: Pool, address: nat)
    requires Accounts(before, s, p)
    ensures var r := RemoveMapping(s, p, address);
            Accounts(before, r.space, r.pool)
  {
    var w, r := World([s], p), RemoveMapping(s, p, address);
    RemoveMappingKeeps(w, 0, address);
    assert w.spaces[0 := r.space] == [r.space];
    if r.result.Ok? {
      var k := SlotOf(s.slots, address).value;
      HeldLoses(s, r.space, p, k + 1, s.slots[k].value.frame);
      ReturnConserves(before, p, Held(s), s.slots[k].value.frame);
      OccupiedAfter(s.slots, k, None);
    }
  }

  lemma {:induction false} RollBackAccounts(before: Pool, s: Space, p: Pool, k: nat, index: nat, error: Error)
    requires Accounts(before, s, p) && k <= index
    ensures var r := RollBack(s, p, k, index, error);
            Accounts(before, r.space, r.pool)
    decreases index - k
  {
    if k != index {
      RemoveAccounts(before, s, p, STACK_FIRST + k * PAGE);
      var r := RemoveMapping(s, p, STACK_FIRST + k * PAGE);
      RollBackAccounts(before, r.space, r.pool, k + 1, index, error);
    }
  }

  lemma {:induction false} MapStackAccounts(before: Pool, s: Space, p: Pool, index: nat)
    requires Accounts(before, s, p) && index <= INITIAL_STACK_PAGES
    ensures var r := MapStackFrom(s, p, index);
            Accounts(before, r.space, r.pool)
    decreases INITIAL_STACK_PAGES - index
  {
    if index == INITIAL_STACK_PAGES {
      var t := MapStackFrom(s, p, index).space;
      SameHoldersKeep(World([s], p), 0, t);
      assert [s][0 := t] == [t];
      HeldSame(s, t);
    } else {
      var m := MapPage(s, p, STACK_FIRST + index * PAGE, USER_RW, Stack);
      MapAccounts(before, s, p, STACK_FIRST + index * PAGE, USER_RW, Stack);
      if m.result.Ok? {
        MapStackAccounts(before, m.space, m.pool, index + 1);
      } else {
        RollBackAccounts(before, m.space, m.pool, 0, index, m.result.error);
      }
    }
  }

  // ------------------------------------------------------------------ giving everything back

  lemma {:induction false} MappedCount(slots: seq<Option<Mapping>>, k: nat)
    requires k <= |slots|
    ensures |MappedFrames(slots, k)| + Occupied(slots[..k]) == Occupied(slots)
    decreases |slots| - k
  {
    if k == |slots| {
      assert slots[..k] == slots;
    } else {
      MappedCount(slots, k + 1);
      assert slots[..k + 1][..k] == slots[..k];
    }
  }

  /** A space whose books are right can always be destroyed, and then nothing it drew is missing. */
  lemma DestroyAccounts(before: Pool, s: Space, p: Pool)
    requires Accounts(before, s, p)
    ensures var d := Destroy(s, p);
            d.result.Ok? && GoodPool(d.pool) && Conserves(before, d.pool, {})
  {
    var w := World([s], p);
    MappedCount(s.slots, 0);
    HeldFramesAreReturnable(w, 0, 0);
    DestroyReturns(s, p, 0);
    ClearedKeeps(w, 0);
    HeldWaits(s, p);
    var n: nat :| Balances(before, n, p, Held(s));
    assert Balances(before, n, Destroy(s, p).pool, {});
  }

  lemma HeldWaits(s: Space, p: Pool)
    requires s.root.Some?
    ensures Waiting(p.(returned := p.returned + MappedFrames(s.slots, 0) + [s.root.value])) == Waiting(p) + Held(s)
  {
    var q := p.(returned := p.returned + MappedFrames(s.slots, 0) + [s.root.value]);
    forall f ensures f in Waiting(q) <==> f in Waiting(p) + Held(s) {
      MappedFramesAreHeld(s, 0, f);
      assert HeldAt(s, 0) == Some(s.root.value);
    }
  }

  // ------------------------------------------------------------------ a space from its creation on

  datatype Move = OnePage(address: nat, flags: Flags, kind: Kind) | InitialStack

  /** The space created from `before`, and the allocator, after these moves. */
  function Made(before: Pool, moves: seq<Move>): (Space, Pool) {
    if moves == [] then (Create(before).space, Create(before).pool)
    else
      var (s, p) := Made(before, moves[..|moves| - 1]);
      match moves[|moves| - 1]
      case OnePage(address, flags, kind) =>
        var m := MapPage(s, p, address, flags, kind);
        (m.space, m.pool)
      case InitialStack =>
        var m := MapStack(s, p);
        (m.space, m.pool)
  }

  ghost predicate MadeFrom(before: Pool, s: Space, p: Pool) {
    exists moves :: Made(before, moves) == (s, p)
  }

  lemma MadeOnePage(before: Pool, s: Space, p: Pool, address: nat, flags: Flags, kind: Kind)
    requires MadeFrom(before, s, p)
    ensures var m := MapPage(s, p, address, flags, kind);
            MadeFrom(before, m.space, m.pool)
  {
    var moves :| Made(before, moves) == (s, p);
    var more := moves + [OnePage(address, flags, kind)];
    assert more[..|more| - 1] == moves;
    assert Made(before, more) == (MapPage(s, p, address, flags, kind).space, MapPage(s, p, address, flags, kind).pool);
  }

  /** A space made from `before` was given up, which left this allocator. */
  ghost predicate GivenUp(before: Pool, after: Pool) {
    exists s, p :: MadeFrom(before, s, p) && after == Destroy(s, p).pool
  }

  lemma {:induction false} RollBackKeepsRoot(s: Space, p: Pool, k: nat, index: nat, error: Error)
    requires k <= index
    ensures RollBack(s, p, k, index, error).space.root == s.root
    decreases index - k
  {
    if k != index {
      var r := RemoveMapping(s, p, STACK_FIRST + k * PAGE);
      RollBackKeepsRoot(r.space, r.pool, k + 1, index, error);
    }
  }

  lemma {:induction false} MapStackKeepsRoot(s: Space, p: Pool, index: nat)
    requires index <= INITIAL_STACK_PAGES
    ensures MapStackFrom(s, p, index).space.root == s.root
    decreases INITIAL_STACK_PAGES - index
  {
    if index < INITIAL_STACK_PAGES {
      var m := MapPage(s, p, STACK_FIRST + index * PAGE, USER_RW, Stack);
      if m.result.Ok? {
        MapStackKeepsRoot(m.space, m.pool, index + 1);
      } else {
        RollBackKeepsRoot(m.space, m.pool, 0, index, m.result.error);
      }
    }
  }

  lemma MadeStack(before: Pool, s: Space, p: Pool)
    requires MadeFrom(before, s, p)
    ensures MadeFrom(before, MapStack(s, p).space, MapStack(s, p).pool) && MapStack(s, p).space.root == s.root
  {
    MapStackKeepsRoot(s, p, 0);
    var moves :| Made(before, moves) == (s, p);
    var more := moves + [InitialStack];
    assert more[..|more| - 1] == moves;
    assert Made(before, more) == (MapStack(s, p).space, MapStack(s, p).pool);
  }

  /** Whatever was mapped, with or without success, the books are right. */
  lemma {:induction false} MadeAccounts(before: Pool, moves: seq<Move>)
    requires GoodPool(before) && Create(before).result.Ok?
    ensures Accounts(before, Made(before, moves).0, Made(before, moves).1)
    decreases |moves|
  {
    if moves == [] {
      CreateAccounts(before);
    } else {
      var fewer := moves[..|moves| - 1];
      MadeAccounts(before, fewer);
      var (s, p) := Made(before, fewer);
      match moves[|moves| - 1]
      case OnePage(address, flags, kind) => MapAccounts(before, s, p, address, flags, kind);
      case InitialStack => MapStackAccounts(before, s, p, 0);
    }
  }

  lemma MadeConserves(before: Pool, s: Space, p: Pool)
    requires GoodPool(before) && Create(before).result.Ok? && MadeFrom(before, s, p)
    ensures GoodPool(p) && Held(s) != {} && Conserves(before, p, Held(s))
  {
    var moves :| Made(before, moves) == (s, p);
    MadeAccounts(before, moves);
    assert HeldAt(s, 0).value in Held(s);
  }

  /** A space made from an allocator can be given up at any time without losing a frame. */
  lemma GivenUpConserves(before: Pool, after: Pool)
    requires GoodPool(before) && Create(before).result.Ok? && GivenUp(before, after)
    ensures GoodPool(after) && Conserves(before, after, {})
  {
    var s, p :| MadeFrom(before, s, p) && after == Destroy(s, p).pool;
    var moves :| Made(before, moves) == (s, p);
    MadeAccounts(before, moves);
    DestroyAccounts(before, s, p);
  }

  lemma NotMade(before: Pool)
    requires GoodPool(before) && Create(before).result.Err?
    ensures GoodPool(Create(before).pool) && Conserves(before, Create(before).pool, {})
  {
    TakeFrameFacts(before);
    assert Balances(before, 0, before, {});
    TakeConserves(before, before, {});
    assert {} + {} == var none: set<nat> := {}; none;
  }
}
