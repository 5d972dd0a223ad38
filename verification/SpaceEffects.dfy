/** What the calls of `src/address_space.rs` and `src/memory.rs` do to the set of mapped pages and to the frames that
    are left, and exactly when they succeed. */
module SpaceEffects {
  import opened Common
  import opened FrameMemory
  import opened AddressSpace

  // ------------------------------------------------------------------ frames

  /** A recorded page at or above every frame issued, in a range not used up. */
  predicate Untouched(p: Pool, k: nat, frame: nat) {
    p.nextRange <= k < |p.ranges| && Covers(p.ranges[k], frame) && p.nextFrame <= frame
  }

  /** The lowest such page of the first such range. */
  ghost predicate NextFresh(p: Pool, k: nat, frame: nat) {
    && Untouched(p, k, frame)
    && (forall f: nat :: Untouched(p, k, f) ==> frame <= f)
    && (forall j: nat, f: nat :: j < k ==> !Untouched(p, j, f))
  }

  ghost predicate FrameLeft(p: Pool) { p.returned != [] || exists k: nat, f: nat :: Untouched(p, k, f) }

  /** A fresh frame is handed out exactly when a page is left, and it is the next one. */
  lemma {:induction false} FreshExactly(p: Pool)
    requires GoodPool(p)
    ensures var a := FreshFrame(p);
            if a.frame.None? then forall k: nat, f: nat :: !Untouched(p, k, f)
            else exists k: nat :: NextFresh(p, k, a.frame.value)
    decreases |p.ranges| - p.nextRange
  {
    if p.nextRange < |p.ranges| {
      var r := p.ranges[p.nextRange];
      var frame := if p.nextFrame == 0 || p.nextFrame < r.start then r.start else p.nextFrame;
      assert GoodRange(r);
      if frame < End(r) {
        FirstOfRange(p, frame);
      } else {
        var q := p.(nextRange := p.nextRange + 1, nextFrame := frame);
        assert frame == p.nextFrame;
        FreshExactly(q);
        forall k: nat, f: nat ensures Untouched(p, k, f) <==> Untouched(q, k, f) {}
        if FreshFrame(q).frame.Some? {
          var k: nat :| NextFresh(q, k, FreshFrame(q).frame.value);
          assert NextFresh(p, k, FreshFrame(q).frame.value);
        }
      }
    }
  }

  lemma FirstOfRange(p: Pool, frame: nat)
    requires GoodPool(p) && p.nextRange < |p.ranges|
    requires var r := p.ranges[p.nextRange];
             && frame == (if p.nextFrame == 0 || p.nextFrame < r.start then r.start else p.nextFrame)
             && frame < End(r)
    ensures NextFresh(p, p.nextRange, frame)
  {
    assert GoodRange(p.ranges[p.nextRange]);
  }

  /** A frame is taken exactly when one is left: the newest one returned, or else the next fresh one. */
  lemma TakeEffect(p: Pool)
    requires GoodPool(p)
    ensures var a := TakeFrame(p);
            && (a.frame.Some? <==> FrameLeft(p))
            && (a.frame.Some? && p.returned != [] ==> a.pool == p.(returned := a.pool.returned)
                                                      && a.pool.returned + [a.frame.value] == p.returned)
            && (a.frame.Some? && p.returned == [] ==> exists k: nat :: NextFresh(p, k, a.frame.value))
  {
    if p.returned == [] {
      FreshExactly(p);
      var a := FreshFrame(p);
      if a.frame.Some? {
        var k: nat :| NextFresh(p, k, a.frame.value);
        assert Untouched(p, k, a.frame.value);
      }
    } else {
      var n := |p.returned| - 1;
      assert p.returned[..n] + [p.returned[n]] == p.returned;
    }
  }

  // ------------------------------------------------------------------ pages

  /** What the space maps. */
  ghost function Pages(s: Space): set<Mapping> {
    set k | 0 <= k < |s.slots| && s.slots[k].Some? :: s.slots[k].value
  }

  /** No two slots map one address. */
  predicate Distinct(s: Space) {
    forall i, j :: 0 <= i < j < |s.slots| && s.slots[i].Some? && s.slots[j].Some? ==>
      s.slots[i].value.address != s.slots[j].value.address
  }

  ghost predicate IsMapped(s: Space, address: nat) { exists m :: m in Pages(s) && m.address == address }

  predicate HasSlot(s: Space) { exists k :: 0 <= k < |s.slots| && s.slots[k].None? }

  lemma MappedExactly(s: Space, address: nat)
    ensures SlotOf(s.slots, address).Some? <==> IsMapped(s, address)
    ensures SlotOf(s.slots, address).Some? ==> s.slots[SlotOf(s.slots, address).value].value in Pages(s)
  {
    var r := SlotOf(s.slots, address);
    if r.Some? {
      assert s.slots[r.value].value in Pages(s);
    }
  }

  lemma SlotExactly(s: Space)
    ensures EmptySlot(s.slots).Some? <==> HasSlot(s)
  {
    if EmptySlot(s.slots).Some? {
      assert s.slots[EmptySlot(s.slots).value].None?;
    }
  }

  /** Filling an empty slot adds one page. */
  lemma FilledPages(s: Space, k: nat, m: Mapping)
    requires k < |s.slots| && s.slots[k].None?
    ensures Pages(s.(slots := s.slots[k := Some(m)])) == Pages(s) + {m}
    ensures Distinct(s) && !IsMapped(s, m.address) ==> Distinct(s.(slots := s.slots[k := Some(m)]))
  {
    var t := s.(slots := s.slots[k := Some(m)]);
    assert t.slots[k] == Some(m) && m in Pages(t);
    forall n | n in Pages(s) ensures n in Pages(t) {
      var i :| 0 <= i < |s.slots| && s.slots[i].Some? && s.slots[i].value == n;
      assert t.slots[i] == s.slots[i];
    }
    if !IsMapped(s, m.address) {
      forall i | 0 <= i < |s.slots| && s.slots[i].Some? ensures s.slots[i].value.address != m.address {
        assert s.slots[i].value in Pages(s);
      }
    }
  }

  /** Emptying a slot takes one page away. */
  lemma EmptiedPages(s: Space, k: nat)
    requires Distinct(s) && k < |s.slots| && s.slots[k].Some?
    ensures Pages(s.(slots := s.slots[k := None])) == Pages(s) - {s.slots[k].value}
    ensures Distinct(s.(slots := s.slots[k := None]))
  {
    var t := s.(slots := s.slots[k := None]);
    forall n | n in Pages(s) && n != s.slots[k].value ensures n in Pages(t) {
      var i :| 0 <= i < |s.slots| && s.slots[i].Some? && s.slots[i].value == n;
      assert t.slots[i] == s.slots[i];
    }
  }

  // ------------------------------------------------------------------ mapping one page

  /** A user page that may be read, written or executed, but not both of the last two. */
  predicate Allowed(f: Flags) { f.user && (f.readable || f.writable || f.executable) && !(f.writable && f.executable) }

  /** A whole page of user addresses other than the first. */
  predicate UserPage(address: nat) { address % 0x1000 == 0 && 0x1000 <= address && address + 0x1000 <= USER_LIMIT }

  ghost predicate CanMap(s: Space, p: Pool, address: nat, flags: Flags, kind: Kind) {
    && s.root.Some? && Allowed(flags) && UserPage(address) && !(s.guard == Some(address) && kind == Anonymous)
    && !IsMapped(s, address) && HasSlot(s) && FrameLeft(p)
  }

  /** The spaces differ in their pages and in nothing else. */
  predicate SameButPages(s: Space, t: Space) {
    t.root == s.root && t.guard == s.guard && t.stackPages == s.stackPages && |t.slots| == |s.slots|
  }

  lemma ChecksExactly(address: nat, flags: Flags)
    ensures (CheckFlags(flags).None? <==> Allowed(flags)) && (CheckPage(address).None? <==> UserPage(address))
  {
  }

  lemma MapPageExactly(s: Space, p: Pool, address: nat, flags: Flags, kind: Kind)
    requires GoodPool(p)
    ensures var r := MapPage(s, p, address, flags, kind);
            && (r.result.Ok? <==> CanMap(s, p, address, flags, kind))
            && (r.result.Err? ==> r.space == s && r.pool.returned == p.returned)
  {
    MapPageChecks(s, p, address, flags, kind);
    ChecksExactly(address, flags);
    MappedExactly(s, address);
    SlotExactly(s);
    TakeEffect(p);
    NoneTaken(p);
  }

  lemma MapPageChecks(s: Space, p: Pool, address: nat, flags: Flags, kind: Kind)
    ensures var r := MapPage(s, p, address, flags, kind);
            && (r.result.Ok? <==> && s.root.Some? && CheckFlags(flags).None? && CheckPage(address).None?
                                  && !(s.guard == Some(address) && kind == Anonymous)
                                  && SlotOf(s.slots, address).None? && EmptySlot(s.slots).Some?
                                  && TakeFrame(p).frame.Some?)
            && (r.result.Err? ==> r.space == s && (r.pool == p || (r.pool == TakeFrame(p).pool
                                                                   && TakeFrame(p).frame.None?)))
  {
  }

  lemma NoneTaken(p: Pool)
    requires GoodPool(p)
    ensures TakeFrame(p).frame.None? ==> TakeFrame(p).pool.returned == p.returned
  {
    TakeFrameFacts(p);
  }

  /** A page is mapped exactly when it may be, at its address and with its rights, on the frame taken. */
  lemma MapPageEffect(s: Space, p: Pool, address: nat, flags: Flags, kind: Kind)
    requires GoodPool(p) && Distinct(s)
    ensures var r := MapPage(s, p, address, flags, kind);
            && (r.result.Ok? <==> CanMap(s, p, address, flags, kind))
            && Distinct(r.space) && SameButPages(s, r.space)
            && (r.result.Err? ==> r.space == s && r.pool.returned == p.returned)
            && (r.result.Ok? ==>
                  && r.pool == TakeFrame(p).pool
                  && r.result.value == Mapping(address, TakeFrame(p).frame.value, flags, kind)
                  && Pages(r.space) == Pages(s) + {r.result.value})
  {
    MapPageExactly(s, p, address, flags, kind);
    if MapPage(s, p, address, flags, kind).result.Ok? {
      MappedExactly(s, address);
      FilledPages(s, EmptySlot(s.slots).value, Mapping(address, TakeFrame(p).frame.value, flags, kind));
    }
  }

  /** What each refusal means. */
  lemma MapPageRefusals(s: Space, p: Pool, address: nat, flags: Flags, kind: Kind)
    requires GoodPool(p) && Distinct(s) && s.root.Some?
    ensures var r := MapPage(s, p, address, flags, kind).result;
            && (r == Err(WriteExecute) <==> flags.user && flags.writable && flags.executable)
            && (r == Err(KernelMapping) <==> !flags.user)
            && (Allowed(flags) ==> (r == Err(Unaligned) <==> address % 0x1000 != 0))
            && (Allowed(flags) && UserPage(address) ==>
                  && (r == Err(GuardPage) <==> s.guard == Some(address) && kind == Anonymous)
                  && (r != Err(GuardPage) ==> (r == Err(Overlap) <==> IsMapped(s, address))))
  {
    MappedExactly(s, address);
  }

  // ------------------------------------------------------------------ unmapping

  /** A page is removed exactly when its frame can be returned; the frame is the newest one returned then. */
  lemma RemoveMappingEffect(s: Space, p: Pool, m: Mapping)
    requires Distinct(s) && m in Pages(s)
    ensures var r := RemoveMapping(s, p, m.address);
            && (r.result.Ok? <==> CanReturn(p, m.frame)) && Distinct(r.space) && SameButPages(s, r.space)
            && (r.result.Err? ==> r.space == s && r.pool == p)
            && (r.result.Ok? ==> Pages(r.space) == Pages(s) - {m} && r.pool == p.(returned := p.returned + [m.frame]))
  {
    MappedExactly(s, m.address);
    var k := SlotOf(s.slots, m.address).value;
    var i :| 0 <= i < |s.slots| && s.slots[i].Some? && s.slots[i].value == m;
    assert i == k;
    EmptiedPages(s, k);
  }

  /** A page that is not mapped cannot be removed, nor one of the stack unmapped. */
  lemma UnmapEffect(s: Space, p: Pool, address: nat)
    requires Distinct(s)
    ensures !IsMapped(s, address) ==>
              RemoveMapping(s, p, address) == UnmapPage(s, p, address) == Step(Err(InvalidAddress), s, p)
    ensures forall m :: m in Pages(s) && m.address == address ==>
              UnmapPage(s, p, address) == if m.kind == Stack then Step(Err(InvalidState), s, p)
                                          else RemoveMapping(s, p, address)
  {
    MappedExactly(s, address);
    forall m | m in Pages(s) && m.address == address
      ensures UnmapPage(s, p, address) == if m.kind == Stack then Step(Err(InvalidState), s, p)
                                          else RemoveMapping(s, p, address)
    {
      var i :| 0 <= i < |s.slots| && s.slots[i].Some? && s.slots[i].value == m;
      assert i == SlotOf(s.slots, address).value;
    }
  }

  // ------------------------------------------------------------------ the stack

  /** A fault on the guard page of a stack of fewer than eight pages maps a stack page there, if one can be mapped, and
      the guard moves one page down; any other fault changes nothing. */
  lemma GrowStackEffect(s: Space, p: Pool, fault: nat)
    requires GoodPool(p) && Distinct(s)
    ensures var r := GrowStack(s, p, fault);
            && Distinct(r.space) && r.space.root == s.root
            && if s.guard.Some? && s.guard.value == fault / 0x1000 * 0x1000 && s.stackPages != 8 then
                 && (r.result.Ok? <==> CanMap(s, p, s.guard.value, USER_RW, Stack))
                 && (r.result.Err? ==> r.space == s)
                 && (r.result.Ok? ==>
                       && r.result.value && r.space.stackPages == s.stackPages + 1
                       && r.space.guard == Some(s.guard.value - 0x1000)
                       && Pages(r.space)
                          == Pages(s) + {Mapping(s.guard.value, TakeFrame(p).frame.value,
                                                 Flags(true, true, true, false), Stack)})
               else r == Step(Ok(false), s, p)
  {
    assert AlignDown(fault) == fault / 0x1000 * 0x1000;
    if s.guard.Some? {
      MapPageEffect(s, p, s.guard.value, USER_RW, Stack);
      var m := MapPage(s, p, s.guard.value, USER_RW, Stack);
      assert forall t: Space :: t.slots == m.space.slots ==> Pages(t) == Pages(m.space);
    }
  }

  /** A new stack is two pages that can be read and written right below the last page of user memory, and a guard
      page below them. */
  lemma MapStackEffect(s: Space, p: Pool)
    requires GoodPool(p) && Distinct(s) && MapStack(s, p).result.Ok?
    ensures var r, low := MapStack(s, p), USER_LIMIT - 3 * 0x1000;
            var first := TakeFrame(p);
            var second := TakeFrame(first.pool);
            && s.root.Some? && s.stackPages == 0 && first.frame.Some? && second.frame.Some?
            && r.pool == second.pool && r.space.root == s.root && r.space.stackPages == 2
            && r.space.guard == Some(low - 0x1000) && Distinct(r.space)
            && Pages(r.space)
               == Pages(s) + {Mapping(low, first.frame.value, Flags(true, true, true, false), Stack)}
                  + {Mapping(low + 0x1000, second.frame.value, Flags(true, true, true, false), Stack)}
  {
    MapPageEffect(s, p, STACK_FIRST, USER_RW, Stack);
    var m := MapPage(s, p, STACK_FIRST + 0 * PAGE, USER_RW, Stack);
    TakeFrameFacts(p);
    if m.result.Ok? {
      MapPageEffect(m.space, m.pool, STACK_FIRST + 1 * PAGE, USER_RW, Stack);
      var n := MapPage(m.space, m.pool, STACK_FIRST + 1 * PAGE, USER_RW, Stack);
      StackTwice(s, p, m, n);
    } else {
      StackRefused(s, p, m);
    }
  }

  lemma StackRefused(s: Space, p: Pool, m: Step<Mapping>)
    requires m == MapPage(s, p, STACK_FIRST + 0 * PAGE, USER_RW, Stack) && m.result.Err?
    ensures MapStack(s, p).result.Err? && MapStack(s, p).space == m.space
  {
  }

  lemma StackTwice(s: Space, p: Pool, m: Step<Mapping>, n: Step<Mapping>)
    requires s.root.Some? && s.stackPages == 0 && Distinct(n.space)
    requires m == MapPage(s, p, STACK_FIRST + 0 * PAGE, USER_RW, Stack) && m.result.Ok?
    requires n == MapPage(m.space, m.pool, STACK_FIRST + 1 * PAGE, USER_RW, Stack)
    ensures MapStack(s, p).result.Ok? <==> n.result.Ok?
    ensures n.result.Ok? ==>
              && MapStack(s, p) == Step(Ok(()), n.space.(stackPages := 2, guard := Some(STACK_FIRST - PAGE)), n.pool)
              && Pages(MapStack(s, p).space) == Pages(n.space) && Distinct(MapStack(s, p).space)
  {
    var two := MapStackFrom(m.space, m.pool, 1);
    assert MapStackFrom(s, p, 0) == two;
    if n.result.Ok? {
      assert two == MapStackFrom(n.space, n.pool, 2);
    } else {
      RollBackFails(n.space, n.pool, 0, 1, n.result.error);
    }
  }

  lemma {:induction false} RollBackFails(s: Space, p: Pool, k: nat, index: nat, error: Error)
    requires k <= index
    ensures RollBack(s, p, k, index, error).result == Err(error)
    decreases index - k
  {
    if k < index {
      var r := RemoveMapping(s, p, STACK_FIRST + k * PAGE);
      RollBackFails(r.space, r.pool, k + 1, index, error);
    }
  }

  /** It succeeds exactly when both pages can be mapped one after the other, and a failure leaves the pages as they
      were. */
  lemma MapStackExactly(s: Space, p: Pool)
    requires GoodPool(p) && Distinct(s)
    ensures var low, first := USER_LIMIT - 3 * 0x1000, TakeFrame(p);
            MapStack(s, p).result.Ok?
            <==> && s.root.Some? && s.stackPages == 0 && CanMap(s, p, low, USER_RW, Stack)
                 && CanMap(MapPage(s, p, low, USER_RW, Stack).space, first.pool, low + 0x1000, USER_RW, Stack)
    ensures MapStack(s, p).result.Err? ==> Pages(MapStack(s, p).space) == Pages(s)
  {
    if s.root.Some? && s.stackPages == 0 {
      var m := MapPage(s, p, STACK_FIRST + 0 * PAGE, USER_RW, Stack);
      MapPageEffect(s, p, STACK_FIRST, USER_RW, Stack);
      if m.result.Ok? {
        StackSecond(s, p, m);
      } else {
        StackRefused(s, p, m);
      }
    }
  }

  lemma StackSecond(s: Space, p: Pool, m: Step<Mapping>)
    requires GoodPool(p) && Distinct(s) && s.root.Some? && s.stackPages == 0
    requires m == MapPage(s, p, STACK_FIRST + 0 * PAGE, USER_RW, Stack) && m.result.Ok?
    requires Distinct(m.space) && m.pool == TakeFrame(p).pool
    ensures MapStack(s, p).result.Ok? <==> CanMap(m.space, m.pool, STACK_FIRST + 1 * PAGE, USER_RW, Stack)
    ensures MapStack(s, p).result.Err? ==> Pages(MapStack(s, p).space) == Pages(s)
  {
    TakeFrameFacts(p);
    MapPageEffect(m.space, m.pool, STACK_FIRST + 1 * PAGE, USER_RW, Stack);
    var n := MapPage(m.space, m.pool, STACK_FIRST + 1 * PAGE, USER_RW, Stack);
    StackTwice(s, p, m, n);
    if n.result.Err? {
      StackRolledBack(s, p, m, n);
    }
  }

  /** The page mapped first is unmapped again, because the frame it was given can always be returned. */
  lemma StackRolledBack(s: Space, p: Pool, m: Step<Mapping>, n: Step<Mapping>)
    requires GoodPool(p) && Distinct(s) && s.root.Some? && s.stackPages == 0
    requires m == MapPage(s, p, STACK_FIRST + 0 * PAGE, USER_RW, Stack) && m.result.Ok?
    requires n == MapPage(m.space, m.pool, STACK_FIRST + 1 * PAGE, USER_RW, Stack) && n.result.Err?
    ensures Pages(MapStack(s, p).space) == Pages(s)
  {
    MapPageEffect(s, p, STACK_FIRST, USER_RW, Stack);
    TakeFrameFacts(p);
    MapPageEffect(m.space, m.pool, STACK_FIRST + 1 * PAGE, USER_RW, Stack);
    var page := m.result.value;
    assert page !in Pages(s) by {
      MapPageExactly(s, p, STACK_FIRST, USER_RW, Stack);
      assert !IsMapped(s, page.address);
    }
    FreshIsReturnable(p);
    RemoveMappingEffect(n.space, n.pool, page);
    var r := RemoveMapping(n.space, n.pool, STACK_FIRST + 0 * PAGE);
    StackGivesUp(s, p, m, n);
    assert RollBack(n.space, n.pool, 0, 1, n.result.error) == RollBack(r.space, r.pool, 1, 1, n.result.error);
    assert Pages(r.space) == Pages(s) + {page} - {page};
  }

  lemma StackGivesUp(s: Space, p: Pool, m: Step<Mapping>, n: Step<Mapping>)
    requires s.root.Some? && s.stackPages == 0
    requires m == MapPage(s, p, STACK_FIRST + 0 * PAGE, USER_RW, Stack) && m.result.Ok?
    requires n == MapPage(m.space, m.pool, STACK_FIRST + 1 * PAGE, USER_RW, Stack) && n.result.Err?
    ensures MapStack(s, p) == RollBack(n.space, n.pool, 0, 1, n.result.error)
  {
    var two := MapStackFrom(m.space, m.pool, 1);
    assert MapStackFrom(s, p, 0) == two;
    assert two == RollBack(n.space, n.pool, 0, 1, n.result.error);
  }

  lemma FreshIsReturnable(p: Pool)
    requires GoodPool(p) && TakeFrame(p).frame.Some?
    ensures forall q: Pool :: q.returned == TakeFrame(p).pool.returned ==> CanReturn(q, TakeFrame(p).frame.value)
  {
    TakeFrameFacts(p);
    if p.returned == [] {
      FreshFrameRises(p);
    }
  }
}
