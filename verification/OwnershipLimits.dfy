/** A run after which a frame is both held and waiting: two full address spaces destroyed in turn. */
module OwnershipLimits {
  import opened Common
  import opened FrameMemory
  import opened AddressSpace
  import opened FrameOwnership
  import opened Heap
  import opened FrameAccounts

  /** An allocator with enough frames for two full spaces, of which `n` are out. */
  function Supply(n: nat): Pool { Pool([Range(MIN_FRAME, 130)], 0, if n == 0 then 0 else MIN_FRAME + n * PAGE, []) }

  lemma SupplyGives(n: nat)
    requires n < 130
    ensures GoodPool(Supply(n)) && TakeFrame(Supply(n)) == Alloc(Some(MIN_FRAME + n * PAGE), Supply(n + 1))
  {
    assert End(Range(MIN_FRAME, 130)) == MIN_FRAME + 130 * PAGE;
    assert (MIN_FRAME + n * PAGE) % PAGE == 0;
  }

  /** Maps `n` pages of a space, from the lowest user page up. */
  function Maps(space: nat, n: nat): seq<Op> {
    if n == 0 then [] else Maps(space, n - 1) + [Map(space, n * PAGE, USER_RW)]
  }

  /** Space `i` holds the lowest `n` pages, and `drawn` frames are out. */
  ghost predicate Filled(w: World, i: nat, n: nat, drawn: nat) {
    && Owned(w) && i < |w.spaces| && w.pool == Supply(drawn)
    && w.spaces[i].root.Some? && w.spaces[i].guard.None?
    && Occupied(w.spaces[i].slots) == n
    && forall k :: 0 <= k < MAX_MAPPINGS && w.spaces[i].slots[k].Some? ==>
        w.spaces[i].slots[k].value.address <= n * PAGE
  }

  lemma {:induction false} SomeSlotIsFree(slots: seq<Option<Mapping>>)
    requires Occupied(slots) < |slots|
    ensures exists k :: 0 <= k < |slots| && slots[k].None?
    decreases |slots|
  {
    var last := |slots| - 1;
    if slots[last].Some? {
      SomeSlotIsFree(slots[..last]);
      var k :| 0 <= k < last && slots[..last][k].None?;
      assert slots[k].None?;
    }
  }

  lemma MapOneMore(w: World, i: nat, n: nat, drawn: nat)
    requires Filled(w, i, n, drawn) && n < MAX_MAPPINGS && drawn < 130
    ensures var v := Apply(w, Map(i, (n + 1) * PAGE, USER_RW));
            && Filled(v, i, n + 1, drawn + 1) && |v.spaces| == |w.spaces|
            && forall j :: 0 <= j < |w.spaces| && j != i ==> v.spaces[j] == w.spaces[j]
  {
    var s, address := w.spaces[i], (n + 1) * PAGE;
    SupplyGives(drawn);
    SomeSlotIsFree(s.slots);
    MapPageKeeps(w, i, address, USER_RW, Anonymous);
    assert CheckPage(address).None?;
    assert SlotOf(s.slots, address).None?;
    var m := MapPage(s, w.pool, address, USER_RW, Anonymous);
    OccupiedAfter(s.slots, EmptySlot(s.slots).value, Some(m.result.value));
  }

  lemma {:induction false} FillSpace(w: World, i: nat, n: nat, drawn: nat)
    requires Filled(w, i, 0, drawn) && n <= MAX_MAPPINGS && drawn + n <= 130
    ensures var v := Run(w, Maps(i, n));
            && Filled(v, i, n, drawn + n) && |v.spaces| == |w.spaces|
            && forall j :: 0 <= j < |w.spaces| && j != i ==> v.spaces[j] == w.spaces[j]
    decreases n
  {
    if n > 0 {
      FillSpace(w, i, n - 1, drawn);
      var v, last := Run(w, Maps(i, n - 1)), [Map(i, n * PAGE, USER_RW)];
      RunAppend(w, Maps(i, n - 1), last);
      assert last[1..] == [];
      assert Run(v, last) == Run(Apply(v, last[0]), []);
      MapOneMore(v, i, n - 1, drawn + n - 1);
    }
  }

  lemma NewIsEmpty(w: World, drawn: nat)
    requires Owned(w) && w.pool == Supply(drawn) && drawn < 130
    ensures var v := Apply(w, New);
            Filled(v, |w.spaces|, 0, drawn + 1) && v.spaces[..|w.spaces|] == w.spaces
  {
    SupplyGives(drawn);
    CreateKeeps(w);
    EmptyIsUnoccupied(MAX_MAPPINGS);
  }

  /** Two spaces, each with every slot in use. */
  ghost predicate BothFull(w: World) {
    && |w.spaces| == 2 && Owned(w) && w.pool.returned == []
    && forall i :: 0 <= i < 2 ==> w.spaces[i].root.Some? && Occupied(w.spaces[i].slots) == MAX_MAPPINGS
  }

  function Nothing(): World { World([], Supply(0)) }

  function FillBoth(n: nat): seq<Op> { [New, New] + Maps(0, n) + Maps(1, n) }

  lemma NewTwice(w: World)
    requires w == Nothing()
    ensures Owned(w)
    ensures var v := Run(w, [New, New]);
            |v.spaces| == 2 && Filled(v, 0, 0, 2) && Filled(v, 1, 0, 2)
  {
    SupplyGives(0);
    NewIsEmpty(w, 0);
    var v := Apply(w, New);
    NewIsEmpty(v, 1);
    var ops := [New, New];
    assert ops[1..] == [New] && [New][1..] == [];
    assert Run(w, ops) == Run(v, [New]) == Run(Apply(v, New), []);
    assert Apply(v, New).spaces[0] == v.spaces[0];
  }

  lemma BothFill(w: World, n: nat)
    requires w == Nothing() && n == MAX_MAPPINGS
    ensures Owned(w) && BothFull(Run(w, FillBoth(n)))
  {
    NewTwice(w);
    var news: seq<Op> := [New, New];
    var two := Run(w, news);
    FillSpace(two, 0, n, 2);
    var one := Run(two, Maps(0, n));
    SecondIsEmpty(two, one);
    FillSpace(one, 1, n, 2 + n);
    RunAppend(w, news, Maps(0, n));
    RunAppend(w, news + Maps(0, n), Maps(1, n));
  }

  lemma SecondIsEmpty(two: World, one: World)
    requires |two.spaces| == 2 && Filled(two, 1, 0, 2) && |one.spaces| == 2
    requires Filled(one, 0, MAX_MAPPINGS, 2 + MAX_MAPPINGS) && one.spaces[1] == two.spaces[1]
    ensures Filled(one, 1, 0, 2 + MAX_MAPPINGS)
  {
  }

  /** The first destruction returns 65 frames; the second has 64 to return before its root. */
  lemma SecondStopsHalfWay(w: World)
    requires BothFull(w)
    ensures Owned(Apply(w, Kill(0))) && !Owned(Apply(Apply(w, Kill(0)), Kill(1)))
  {
    MappedCount(w.spaces[0].slots, 0);
    MappedCount(w.spaces[1].slots, 0);
    DestroyReturnsEveryFrame(w, 0);
    DestroyKeepsExactly(w, 0);
    var v := Apply(w, Kill(0));
    assert v.spaces[1] == w.spaces[1] && |v.pool.returned| == MAX_MAPPINGS + 1;
    DestroyKeepsExactly(v, 1);
  }

  /** Ownership, whole at the start, is broken at the end of this run. */
  lemma OwnershipBreaks(n: nat)
    requires n == MAX_MAPPINGS
    ensures Owned(Nothing()) && !Owned(Run(Nothing(), FillBoth(n) + [Kill(0), Kill(1)]))
  {
    var w, kills := Nothing(), [Kill(0), Kill(1)];
    BothFill(w, n);
    var v := Run(w, FillBoth(n));
    SecondStopsHalfWay(v);
    RunAppend(w, FillBoth(n), kills);
    assert kills[1..] == [Kill(1)] && [Kill(1)][1..] == [];
    assert Run(v, kills) == Run(Apply(v, Kill(0)), [Kill(1)]) == Run(Apply(Apply(v, Kill(0)), Kill(1)), []);
  }
}
