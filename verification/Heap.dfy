/** Growing a program's heap, with its roll-back: `src/user_runtime.rs`. */
module Heap {
  import opened Common
  import opened FrameMemory
  import opened AddressSpace
  import opened UserSpace

  // ------------------------------------------------------------------ room on the return stack

  /** How many slots hold a mapping. */
  function Occupied(slots: seq<Option<Mapping>>): (n: nat)
    ensures n <= |slots|
  {
    if slots == [] then 0 else Occupied(slots[..|slots| - 1]) + if slots[|slots| - 1].Some? then 1 else 0
  }

  lemma {:induction false} OccupiedAfter(slots: seq<Option<Mapping>>, k: nat, m: Option<Mapping>)
    requires k < |slots|
    ensures Occupied(slots[k := m])
            == Occupied(slots) - (if slots[k].Some? then 1 else 0) + (if m.Some? then 1 else 0)
    decreases |slots|
  {
    var last := |slots| - 1;
    if k < last {
      OccupiedAfter(slots[..last], k, m);
      assert slots[k := m][..last] == slots[..last][k := m];
    } else {
      assert slots[k := m][..last] == slots[..last];
    }
  }

  /** The frames of the pages mapped since there were `base` of them would all fit on the return stack. */
  predicate CanGoBack(s: Space, p: Pool, base: nat) {
    base <= Occupied(s.slots) && |p.returned| + Occupied(s.slots) - base <= MAX_RETURNED
  }

  lemma MapKeepsWayBack(s: Space, p: Pool, base: nat, address: nat, flags: Flags, kind: Kind)
    requires GoodPool(p) && |s.slots| == MAX_MAPPINGS && CanGoBack(s, p, base)
    ensures var m := MapPage(s, p, address, flags, kind);
            && CanGoBack(m.space, m.pool, base)
            && Occupied(m.space.slots) == Occupied(s.slots) + if m.result.Ok? then 1 else 0
  {
    FreshFrameRises(p);
    if MapPage(s, p, address, flags, kind).result.Ok? {
      var m := MapPage(s, p, address, flags, kind).result.value;
      OccupiedAfter(s.slots, EmptySlot(s.slots).value, Some(m));
    }
  }

  lemma UnmapWorks(s: Space, p: Pool, base: nat, address: nat)
    requires Holding(s.root, s.slots, p) && CanGoBack(s, p, base) && Occupied(s.slots) > base
    requires SlotOf(s.slots, address).Some? && s.slots[SlotOf(s.slots, address).value].value.kind != Stack
    ensures var u := UnmapPage(s, p, address);
            u.result.Ok? && CanGoBack(u.space, u.pool, base) && Occupied(u.space.slots) == Occupied(s.slots) - 1
  {
    OccupiedAfter(s.slots, SlotOf(s.slots, address).value, None);
  }

  // ------------------------------------------------------------------ pages of the heap

  predicate Between(a: nat, start: nat, end: nat) { a % PAGE == 0 && start <= a < end }

  function HeapPage(): Page { Page(USER_RW, Anonymous, ZeroPage()) }

  /** The heap's pages up to `end` are there, blank, and nothing else has changed. */
  twostate predicate Grown(space: UserSpace, start: nat, end: nat)
    reads space, space.mem, space.mem.ranges, space.mem.returned, space.ram, space.slots
    requires old(space.Valid()) && space.Valid()
  {
    && (forall a: nat :: Between(a, start, end) ==> old(space.At(a)).None?)
    && forall a: nat :: space.At(a) == if Between(a, start, end) then Some(HeapPage()) else old(space.At(a))
  }

  ghost function Count(space: UserSpace): nat
    reads space.slots
  {
    Occupied(space.slots[..])
  }

  /** The pages from `start` to `end` can be mapped one after the other. */
  ghost predicate HeapMaps(s: Space, p: Pool, start: nat, end: nat) {
    forall last: nat :: last == end ==> MapPages(s, p, start, last, USER_RW).result.Ok?
  }

  lemma HeapMapsOne(s: Space, p: Pool, start: nat, end: nat)
    ensures HeapMaps(s, p, start, end) <==> MapPages(s, p, start, end, USER_RW).result.Ok?
    ensures start >= end ==> HeapMaps(s, p, start, end)
    ensures start < end ==>
              var m := MapPage(s, p, start, USER_RW, Anonymous);
              HeapMaps(s, p, start, end) <==> m.result.Ok? && HeapMaps(m.space, m.pool, start + PAGE, end)
  {
    if start < end {
      var m := MapPage(s, p, start, USER_RW, Anonymous);
      assert m.result.Ok? ==>
        MapPages(s, p, start, end, USER_RW) == MapPages(m.space, m.pool, start + PAGE, end, USER_RW);
    }
  }

  /** Maps one more page of the heap. */
  method MapOne(space: UserSpace, page: nat, ghost base: nat, ghost end: nat) returns (r: Result<Mapping, Error>)
    requires page < end && space.Valid() && CanGoBack(space.State(), space.mem.Stock(), base)
    modifies space.slots, space.mem, space.ram
    ensures space.Valid() && CanGoBack(space.State(), space.mem.Stock(), base)
    ensures Count(space) == old(Count(space)) + if r.Ok? then 1 else 0
    ensures r.Ok? ==> HeapMaps(old(space.State()), old(space.mem.Stock()), page, end)
                      == HeapMaps(space.State(), space.mem.Stock(), page + PAGE, end)
    ensures r.Err? ==> !HeapMaps(old(space.State()), old(space.mem.Stock()), page, end)
    ensures r.Ok? ==>
              && old(space.At(page)).None?
              && forall a: nat :: space.At(a) == if a == page then Some(HeapPage()) else old(space.At(a))
    ensures r.Err? ==> forall a: nat :: space.At(a) == old(space.At(a))
  {
    MapKeepsWayBack(space.State(), space.mem.Stock(), base, page, USER_RW, Anonymous);
    HeapMapsOne(space.State(), space.mem.Stock(), page, end);
    r := space.MapPage(page, USER_RW, Anonymous);
  }

  /** Unmaps a page of the heap again; there is always room to return its frame. */
  method UnmapOne(space: UserSpace, page: nat, ghost base: nat)
    requires space.Valid() && CanGoBack(space.State(), space.mem.Stock(), base) && Count(space) > base
    requires space.At(page) == Some(HeapPage())
    modifies space.slots, space.mem, space.mem.returned
    ensures space.Valid() && CanGoBack(space.State(), space.mem.Stock(), base) && Count(space) == old(Count(space)) - 1
    ensures forall a: nat :: space.At(a) == if a == page then None else old(space.At(a))
  {
    UnmapWorks(space.State(), space.mem.Stock(), base, page);
    var r := space.UnmapPage(page);
  }

  /** Unmaps the heap's pages from the last one mapped down to the first. */
  method UnmapHeap(space: UserSpace, start: nat, end: nat, ghost base: nat)
    requires space.Valid() && start % PAGE == 0 && end % PAGE == 0 && start <= end
    requires CanGoBack(space.State(), space.mem.Stock(), base) && Count(space) == base + (end - start) / PAGE
    requires forall a: nat :: Between(a, start, end) ==> space.At(a) == Some(HeapPage())
    modifies space.slots, space.mem, space.mem.returned
    ensures space.Valid()
    ensures forall a: nat :: space.At(a) == if Between(a, start, end) then None else old(space.At(a))
  {
    var page := end;
    while page > start
      invariant start <= page <= end && page % PAGE == 0 && space.Valid()
      invariant CanGoBack(space.State(), space.mem.Stock(), base) && Count(space) == base + (page - start) / PAGE
      invariant forall a: nat :: space.At(a) == if Between(a, page, end) then None else old(space.At(a))
    {
      PagesBelow(page, start);
      page := page - PAGE;
      UnmapOne(space, page, base);
    }
  }

  lemma PagesBelow(page: nat, start: nat)
    requires page % PAGE == 0 && start % PAGE == 0 && start < page
    ensures page - PAGE >= start && (page - PAGE) % PAGE == 0
            && (page - start) / PAGE == (page - PAGE - start) / PAGE + 1
    ensures forall a: nat, end: nat :: Between(a, page - PAGE, end) && a != page - PAGE ==> Between(a, page, end)
  {
  }

  /** The n-th page behind a page. */
  lemma OnPage(start: nat, n: nat, page: nat, end: nat)
    requires start % PAGE == 0 && end % PAGE == 0 && page == start + n * PAGE
    ensures page % PAGE == 0 && (page - start) / PAGE == n && (page < end ==> page + PAGE <= end)
  {
    var a, b := start / PAGE + n, end / PAGE;
    DivisionUnique(page, PAGE, a, 0);
    DivisionUnique(page - start, PAGE, n, 0);
    if b <= a {
      MulLe(b, a, PAGE);
    } else {
      MulLe(a + 1, b, PAGE);
    }
  }

  lemma SamePage(a: nat, page: nat)
    requires a % PAGE == 0 && page % PAGE == 0 && page <= a < page + PAGE
    ensures a == page
  {
    DivisionUnique(a - page, PAGE, a / PAGE - page / PAGE, 0);
    DivisionUnique(a - page, PAGE, 0, a - page);
  }

  lemma OnePageMore(start: nat, page: nat)
    requires page % PAGE == 0 && start % PAGE == 0 && start <= page
    ensures forall a: nat :: Between(a, start, page + PAGE) <==> Between(a, start, page) || a == page
  {
    forall a: nat ensures Between(a, start, page + PAGE) <==> Between(a, start, page) || a == page {
      if a % PAGE == 0 && page <= a < page + PAGE {
        SamePage(a, page);
      }
    }
  }

  /** The pages there were, and the heap's between `start` and `end`. */
  ghost predicate Above(space: UserSpace, was: imap<nat, Option<Page>>, start: nat, end: nat)
    reads space, space.mem, space.mem.ranges, space.mem.returned, space.ram, space.slots
    requires space.Valid()
  {
    && (forall a: nat :: a in was && (Between(a, start, end) ==> was[a].None?))
    && forall a: nat :: space.At(a) == if Between(a, start, end) then Some(HeapPage()) else was[a]
  }

  /** The heap is mapped up to the n-th page, and whether the rest can be mapped is known. */
  ghost predicate Underway(space: UserSpace, was: imap<nat, Option<Page>>, start: nat, n: nat, page: nat, end: nat,
                           base: nat, goal: bool)
    reads space, space.mem, space.mem.ranges, space.mem.returned, space.ram, space.slots
  {
    && space.Valid() && page == start + n * PAGE <= end && Above(space, was, start, page)
    && CanGoBack(space.State(), space.mem.Stock(), base) && Count(space) == base + n
    && HeapMaps(space.State(), space.mem.Stock(), page, end) == goal
  }

  /** Maps the page behind those mapped so far. */
  method MapMore(space: UserSpace, start: nat, ghost n: nat, page: nat, end: nat, ghost base: nat,
                 ghost was: imap<nat, Option<Page>>, ghost goal: bool)
    returns (r: Result<Mapping, Error>)
    requires start % PAGE == 0 && end % PAGE == 0 && page < end
    requires Underway(space, was, start, n, page, end, base, goal)
    modifies space.slots, space.mem, space.ram
    ensures r.Ok? ==> Underway(space, was, start, n + 1, page + PAGE, end, base, goal)
    ensures r.Err? ==>
              && !goal && space.Valid() && Above(space, was, start, page)
              && CanGoBack(space.State(), space.mem.Stock(), base) && Count(space) == base + n
  {
    OnPage(start, n, page, end);
    OnePageMore(start, page);
    r := MapOne(space, page, base, end);
  }

  /** Maps the heap's pages in turn until one cannot be mapped. */
  method MapHeap(space: UserSpace, start: nat, end: nat, ghost base: nat) returns (reached: nat, error: Option<Error>)
    requires space.Valid() && start % PAGE == 0 && end % PAGE == 0 && start <= end && base == Count(space)
    modifies space.slots, space.mem, space.ram
    ensures space.Valid() && start <= reached <= end && reached % PAGE == 0 && (error.None? ==> reached == end)
    ensures Grown(space, start, reached)
    ensures error.None? <==> HeapMaps(old(space.State()), old(space.mem.Stock()), start, end)
    ensures CanGoBack(space.State(), space.mem.Stock(), base) && Count(space) == base + (reached - start) / PAGE
  {
    ghost var goal := HeapMaps(space.State(), space.mem.Stock(), start, end);
    ghost var was, n: nat := imap a: nat | true :: space.At(a), 0;
    reached := start;
    while reached < end
      invariant Underway(space, was, start, n, reached, end, base, goal)
    {
      var mapped := MapMore(space, start, n, reached, end, base, was, goal);
      if mapped.Err? {
        OnPage(start, n, reached, end);
        return reached, Some(mapped.error);
      }
      n := n + 1;
      reached := reached + PAGE;
    }
    OnPage(start, n, reached, end);
    HeapMapsOne(space.State(), space.mem.Stock(), reached, end);
    return reached, None;
  }

  /** Maps the heap's pages; a page that cannot be mapped undoes the ones before it, always with success. */
  method GrowHeap(space: UserSpace, start: nat, end: nat) returns (r: Result<(), Error>)
    requires space.Valid() && start % PAGE == 0 && end % PAGE == 0 && start <= end
    modifies space.slots, space.mem, space.mem.returned, space.ram
    ensures space.Valid()
    ensures r.Ok? <==> HeapMaps(old(space.State()), old(space.mem.Stock()), start, end)
    ensures r.Ok? ==> Grown(space, start, end)
    ensures r.Err? ==> forall a: nat :: space.At(a) == old(space.At(a))
  {
    ghost var base := Count(space);
    var reached, error := MapHeap(space, start, end, base);
    if error.Some? {
      UnmapHeap(space, start, reached, base);
      return Err(error.value);
    }
    return Ok(());
  }
}
