/** An address space as the object the kernel changes in place, together with the physical pages
    its mappings lead to.

    `State` is the value the operations of `AddressSpace` are about; `View` is what a user program
    sees: the bytes and rights of every mapped page, whatever frames they live in.
 */
module UserSpace {
  import opened Common
  import opened FrameMemory
  import opened AddressSpace
  import A = AddressSpace

  datatype Page = Page(flags: Flags, kind: Kind, bytes: seq<byte>)

  function ZeroPage(): seq<byte> { seq(PAGE, _ => 0) }

  /** Physical memory behind the kernel's direct map, by frame. */
  class Ram {
    var pages: map<nat, seq<byte>>

    constructor ()
      ensures pages == map[]
    {
      pages := map[];
    }

    method Zero(frame: nat)
      modifies this
      ensures pages == old(pages)[frame := ZeroPage()]
    {
      pages := pages[frame := ZeroPage()];
    }

    method Write(frame: nat, offset: nat, bytes: seq<byte>)
      requires frame in pages && offset + |bytes| <= |pages[frame]|
      modifies this
      ensures pages == old(pages)[frame := Overwrite(old(pages)[frame], offset, bytes)]
    {
      pages := pages[frame := Overwrite(pages[frame], offset, bytes)];
    }
  }

  function Overwrite(page: seq<byte>, offset: nat, bytes: seq<byte>): (r: seq<byte>)
    requires offset + |bytes| <= |page|
    ensures |r| == |page|
    ensures forall i :: 0 <= i < |page| ==>
              r[i] == if offset <= i < offset + |bytes| then bytes[i - offset] else page[i]
  {
    page[..offset] + bytes + page[offset + |bytes|..]
  }

  // ------------------------------------------------------------------ slots, frames and views

  ghost predicate Backed(slots: seq<Option<Mapping>>, ram: map<nat, seq<byte>>) {
    forall k :: 0 <= k < |slots| && slots[k].Some? ==>
        slots[k].value.frame in ram && |ram[slots[k].value.frame]| == PAGE
  }

  /** Two slots never share a frame or an address. */
  ghost predicate Apart(slots: seq<Option<Mapping>>) {
    forall k, l :: 0 <= k < l < |slots| && slots[k].Some? && slots[l].Some? ==>
      slots[k].value.frame != slots[l].value.frame && slots[k].value.address != slots[l].value.address
  }

  /** What a user program finds at a page address. */
  ghost function PageAt(slots: seq<Option<Mapping>>, ram: map<nat, seq<byte>>, a: nat): Option<Page>
    requires Backed(slots, ram)
  {
    match SlotOf(slots, a)
    case None => None
    case Some(k) => Some(Page(slots[k].value.flags, slots[k].value.kind, ram[slots[k].value.frame]))
  }

  lemma {:induction false} SlotOfFilled(slots: seq<Option<Mapping>>, k: nat, m: Mapping, a: nat, from: nat)
    requires k < |slots| && slots[k].None? && from <= |slots|
    requires forall l :: 0 <= l < |slots| ==> !IsAt(slots[l], m.address)
    ensures SlotOf(slots[k := Some(m)], a, from)
            == if a == m.address && from <= k then Some(k) else SlotOf(slots, a, from)
    decreases |slots| - from
  {
    if from < |slots| {
      SlotOfFilled(slots, k, m, a, from + 1);
    }
  }

  lemma {:induction false} SlotOfEmptied(slots: seq<Option<Mapping>>, k: nat, a: nat, from: nat)
    requires k < |slots| && slots[k].Some? && from <= |slots|
    requires forall l :: 0 <= l < |slots| && l != k ==> !IsAt(slots[l], slots[k].value.address)
    ensures SlotOf(slots[k := None], a, from)
            == if a == slots[k].value.address then None else SlotOf(slots, a, from)
    decreases |slots| - from
  {
    if from < |slots| {
      SlotOfEmptied(slots, k, a, from + 1);
    }
  }

  /** A mapping in a free slot adds its zeroed page to the view. */
  lemma ViewOfMap(slots: seq<Option<Mapping>>, ram: map<nat, seq<byte>>, k: nat, m: Mapping)
    requires Backed(slots, ram) && Apart(slots) && k < |slots| && slots[k].None?
    requires forall l :: 0 <= l < |slots| && slots[l].Some? ==>
               slots[l].value.frame != m.frame && slots[l].value.address != m.address
    ensures var slots', ram' := slots[k := Some(m)], ram[m.frame := ZeroPage()];
            && Backed(slots', ram') && Apart(slots')
            && forall a: nat :: PageAt(slots', ram', a)
                 == if a == m.address then Some(Page(m.flags, m.kind, ZeroPage())) else PageAt(slots, ram, a)
  {
    var slots', ram' := slots[k := Some(m)], ram[m.frame := ZeroPage()];
    forall a: nat ensures PageAt(slots', ram', a)
                          == if a == m.address then Some(Page(m.flags, m.kind, ZeroPage())) else PageAt(slots, ram, a)
    {
      SlotOfFilled(slots, k, m, a, 0);
    }
  }

  lemma ViewOfUnmap(slots: seq<Option<Mapping>>, ram: map<nat, seq<byte>>, k: nat)
    requires Backed(slots, ram) && Apart(slots) && k < |slots| && slots[k].Some?
    ensures var slots' := slots[k := None];
            && Backed(slots', ram) && Apart(slots')
            && forall a: nat :: PageAt(slots', ram, a)
                 == if a == slots[k].value.address then None else PageAt(slots, ram, a)
  {
    var slots' := slots[k := None];
    forall a: nat ensures PageAt(slots', ram, a)
                          == if a == slots[k].value.address then None else PageAt(slots, ram, a)
    {
      SlotOfEmptied(slots, k, a, 0);
    }
  }

  /** Rewriting the frame behind one page changes no other page. */
  lemma ViewOfWrite(slots: seq<Option<Mapping>>, ram: map<nat, seq<byte>>, at: nat, bytes: seq<byte>)
    requires Backed(slots, ram) && Apart(slots) && |bytes| == PAGE && SlotOf(slots, at).Some?
    ensures var m := slots[SlotOf(slots, at).value].value;
            var ram' := ram[m.frame := bytes];
            && Backed(slots, ram')
            && forall a: nat :: PageAt(slots, ram', a)
                 == if a == at then Some(Page(m.flags, m.kind, bytes)) else PageAt(slots, ram, a)
  {
  }

  /** Everything the slots and the root hold was issued, is not waiting for reuse, and is held once. */
  ghost predicate Holding(root: Option<nat>, slots: seq<Option<Mapping>>, p: Pool) {
    && GoodPool(p) && Apart(slots)
    && (root.Some? ==> Issued(p, root.value) && root.value !in p.returned)
    && forall k :: 0 <= k < |slots| && slots[k].Some? ==>
         && Issued(p, slots[k].value.frame) && slots[k].value.frame !in p.returned
         && root != Some(slots[k].value.frame)
  }

  lemma HoldingAfterTake(root: Option<nat>, slots: seq<Option<Mapping>>, p: Pool)
    requires Holding(root, slots, p)
    ensures var a := TakeFrame(p);
            && Holding(root, slots, a.pool)
            && (a.frame.Some? ==>
                  && Issued(a.pool, a.frame.value) && a.frame.value !in a.pool.returned && root != a.frame
                  && forall k :: 0 <= k < |slots| && slots[k].Some? ==> slots[k].value.frame != a.frame.value)
  {
    TakeFrameFacts(p);
  }

  lemma HoldingAfterReturn(root: Option<nat>, slots: seq<Option<Mapping>>, p: Pool, k: nat)
    requires Holding(root, slots, p) && k < |slots| && slots[k].Some? && CanReturn(p, slots[k].value.frame)
    ensures Holding(root, slots[k := None], p.(returned := p.returned + [slots[k].value.frame]))
  {
    ReturnFacts(p, slots[k].value.frame);
  }

  // ------------------------------------------------------------------ writing through the view

  /** The bytes from `at` on are `bytes`; every other byte, and all rights, are as before. */
  ghost predicate WrittenPage(before: Option<Page>, after: Option<Page>, a: nat, at: nat, bytes: seq<byte>) {
    match before
    case None => after == None
    case Some(b) =>
      && after.Some? && after.value.flags == b.flags && after.value.kind == b.kind
      && |after.value.bytes| == |b.bytes|
      && forall i :: 0 <= i < |b.bytes| ==>
           after.value.bytes[i] == if at <= a + i < at + |bytes| then bytes[a + i - at] else b.bytes[i]
  }

  lemma WrittenTwice(p: Option<Page>, q: Option<Page>, r: Option<Page>, a: nat, at: nat, first: seq<byte>,
      second: seq<byte>)
    requires WrittenPage(p, q, a, at, first) && WrittenPage(q, r, a, at + |first|, second)
    ensures WrittenPage(p, r, a, at, first + second)
  {
  }

  lemma WrittenNothing(p: Option<Page>, a: nat, at: nat)
    ensures WrittenPage(p, p, a, at, [])
  {
  }

  /** Overwriting part of one page is a write through the view: the part lies in that page alone. */
  lemma WrittenInPage(p: Page, a: nat, page: nat, offset: nat, bytes: seq<byte>)
    requires page % PAGE == 0 && a % PAGE == 0 && |p.bytes| == PAGE && offset + |bytes| <= PAGE
    ensures a == page ==>
            WrittenPage(Some(p), Some(p.(bytes := Overwrite(p.bytes, offset, bytes))), a, page + offset, bytes)
    ensures a != page ==> WrittenPage(Some(p), Some(p), a, page + offset, bytes)
  {
    if a != page {
      assert a >= page + PAGE || a + PAGE <= page;
    }
  }

  /** The space is gone, or the bytes from `address` on leave the address space or its pages. */
  ghost predicate Unwritable(s: Space, address: nat, count: nat) {
    || s.root.None? || address + count >= U64_LIMIT
    || exists b: nat :: address <= b < address + count && SlotOf(s.slots, AlignDown(b)).None?
  }

  /** A space that has been given its initial stack. */
  function Stacked(s: Space): Space {
    s.(stackPages := INITIAL_STACK_PAGES, guard := Some(STACK_FIRST - PAGE))
  }

  // ------------------------------------------------------------------ the object

  class UserSpace {
    const mem: Memory
    const ram: Ram
    const slots: array<Option<Mapping>>
    var root: Option<nat>
    var guard: Option<nat>
    var stackPages: nat

    ghost predicate Valid()
      reads this, mem, mem.ranges, mem.returned, ram, slots
    {
      && mem.Valid() && slots.Length == MAX_MAPPINGS
      && Holding(root, slots[..], mem.Stock())
      && Backed(slots[..], ram.pages)
    }

    ghost function State(): Space
      reads this, slots
    {
      Space(root, slots[..], guard, stackPages)
    }

    ghost function At(a: nat): Option<Page>
      reads this, mem, mem.ranges, mem.returned, ram, slots
      requires Valid()
    {
      PageAt(slots[..], ram.pages, a)
    }

    /** A new space over the kernel's allocator; without a frame for its root it is of no use. */
    constructor (mem: Memory, ram: Ram)
      requires mem.Valid() && GoodPool(mem.Stock())
      modifies mem
      ensures Valid() && this.mem == mem && this.ram == ram && fresh(slots)
      ensures State() == Create(old(mem.Stock())).space && mem.Stock() == Create(old(mem.Stock())).pool
      ensures ram.pages == old(ram.pages) && mem.ranges[..] == old(mem.ranges[..])
      ensures forall a: nat :: At(a) == None
    {
      this.mem, this.ram := mem, ram;
      slots := new Option<Mapping>[MAX_MAPPINGS](_ => None);
      guard, stackPages := None, 0;
      TakeFrameFacts(mem.Stock());
      var frame := mem.AllocFrame();
      root := frame;
      new;
      assert slots[..] == NoSlots();
    }

    method MapPage(address: nat, flags: Flags, kind: Kind) returns (r: Result<Mapping, Error>)
      requires Valid()
      modifies slots, mem, ram
      ensures Valid()
      ensures Step(r, State(), mem.Stock()) == A.MapPage(old(State()), old(mem.Stock()), address, flags, kind)
      ensures r.Ok? ==>
                forall a: nat :: At(a) == if a == address then Some(Page(flags, kind, ZeroPage())) else old(At(a))
      ensures r.Ok? ==> old(At(address)).None?
      ensures r.Err? ==> forall a: nat :: At(a) == old(At(a))
    {
      if root.None? {
        return Err(InvalidState);
      }
      var bad := CheckFlags(flags);
      if bad.Some? {
        return Err(bad.value);
      }
      bad := CheckPage(address);
      if bad.Some? {
        return Err(bad.value);
      }
      if guard == Some(address) && kind != Stack {
        return Err(GuardPage);
      }
      if SlotOf(slots[..], address).Some? {
        return Err(Overlap);
      }
      var slot := EmptySlot(slots[..]);
      if slot.None? {
        return Err(MappingCapacity);
      }
      HoldingAfterTake(root, slots[..], mem.Stock());
      var frame := mem.AllocFrame();
      if frame.None? {
        return Err(NoFrames);
      }
      var m := Mapping(address, frame.value, flags, kind);
      ViewOfMap(slots[..], ram.pages, slot.value, m);
      ram.Zero(frame.value);
      ghost var before := slots[..];
      slots[slot.value] := Some(m);
      assert slots[..] == before[slot.value := Some(m)];
      return Ok(m);
    }

    method RemoveMapping(address: nat) returns (r: Result<(), Error>)
      requires Valid()
      modifies slots, mem, mem.returned
      ensures Valid()
      ensures Step(r, State(), mem.Stock()) == A.RemoveMapping(old(State()), old(mem.Stock()), address)
      ensures forall a: nat :: At(a) == if r.Ok? && a == address then None else old(At(a))
    {
      var slot := SlotOf(slots[..], address);
      if slot.None? {
        return Err(InvalidAddress);
      }
      var k := slot.value;
      ghost var before := slots[..];
      if CanReturn(mem.Stock(), slots[k].value.frame) {
        HoldingAfterReturn(root, before, mem.Stock(), k);
      }
      ViewOfUnmap(before, ram.pages, k);
      var m := slots[k];
      slots[k] := None;
      assert slots[..] == before[k := None];
      var ok := mem.FreeFrame(m.value.frame);
      if !ok {
        slots[k] := m;
        assert slots[..] == before;
        return Err(FrameReturn);
      }
      return Ok(());
    }

    method UnmapPage(address: nat) returns (r: Result<(), Error>)
      requires Valid()
      modifies slots, mem, mem.returned
      ensures Valid()
      ensures Step(r, State(), mem.Stock()) == A.UnmapPage(old(State()), old(mem.Stock()), address)
      ensures forall a: nat :: At(a) == if r.Ok? && a == address then None else old(At(a))
    {
      var slot := SlotOf(slots[..], address);
      if slot.None? {
        return Err(InvalidAddress);
      }
      if slots[slot.value].value.kind == Stack {
        return Err(InvalidState);
      }
      r := RemoveMapping(address);
    }

    /** Unmaps the stack pages before `index` again, whatever that answers. */
    method RollBackStack(index: nat, error: Error)
      requires Valid()
      modifies slots, mem, mem.returned
      ensures Valid()
      ensures Step(Err(error), State(), mem.Stock()) == RollBack(old(State()), old(mem.Stock()), 0, index, error)
    {
      var k := 0;
      while k < index
        invariant 0 <= k <= index && Valid()
        invariant RollBack(State(), mem.Stock(), k, index, error)
                  == RollBack(old(State()), old(mem.Stock()), 0, index, error)
      {
        var _ := RemoveMapping(STACK_FIRST + k * PAGE);
        k := k + 1;
      }
    }

    /** The view with the first `count` stack pages added to what it was. */
    twostate predicate StackShown(count: nat)
      reads this, mem, mem.ranges, mem.returned, ram, slots
      requires old(Valid()) && Valid()
    {
      && (count >= 1 ==> old(At(STACK_FIRST)).None?)
      && (count >= 2 ==> old(At(STACK_FIRST + PAGE)).None?)
      && forall a: nat :: At(a) ==
           if (count >= 1 && a == STACK_FIRST) || (count >= 2 && a == STACK_FIRST + PAGE)
           then Some(Page(USER_RW, Stack, ZeroPage())) else old(At(a))
    }

    method MapStackPages() returns (r: Result<(), Error>)
      requires Valid()
      modifies slots, mem, mem.returned, ram
      ensures Valid()
      ensures r.Ok? ==> MapStackFrom(old(State()), old(mem.Stock()), 0) == Step(Ok(()), Stacked(State()), mem.Stock())
      ensures r.Ok? ==> StackShown(2)
      ensures r.Err? ==> Step(r, State(), mem.Stock()) == MapStackFrom(old(State()), old(mem.Stock()), 0)
    {
      ghost var goal := MapStackFrom(State(), mem.Stock(), 0);
      var index := 0;
      while index < INITIAL_STACK_PAGES
        invariant 0 <= index <= INITIAL_STACK_PAGES && Valid()
        invariant MapStackFrom(State(), mem.Stock(), index) == goal
        invariant StackShown(index)
      {
        r := MapStackPage(index);
        if r.Err? {
          return;
        }
        index := index + 1;
      }
      return Ok(());
    }

    /** Maps one of the initial stack pages, or unmaps those before it. */
    method MapStackPage(index: nat) returns (r: Result<(), Error>)
      requires Valid() && index < INITIAL_STACK_PAGES
      modifies slots, mem, mem.returned, ram
      ensures Valid()
      ensures MapStackFrom(old(State()), old(mem.Stock()), index)
              == if r.Ok? then MapStackFrom(State(), mem.Stock(), index + 1) else Step(r, State(), mem.Stock())
      ensures r.Ok? ==> old(At(STACK_FIRST + index * PAGE)).None?
      ensures r.Ok? ==>
                forall a: nat :: At(a) ==
                  if a == STACK_FIRST + index * PAGE then Some(Page(USER_RW, Stack, ZeroPage())) else old(At(a))
    {
      var mapped := MapPage(STACK_FIRST + index * PAGE, USER_RW, Stack);
      if mapped.Err? {
        RollBackStack(index, mapped.error);
        return Err(mapped.error);
      }
      return Ok(());
    }

    method MapStack() returns (r: Result<(), Error>)
      requires Valid()
      modifies this, slots, mem, mem.returned, ram
      ensures Valid()
      ensures Step(r, State(), mem.Stock()) == A.MapStack(old(State()), old(mem.Stock()))
      ensures r.Ok? ==> StackShown(2)
    {
      if stackPages != 0 || root.None? {
        return Err(InvalidState);
      }
      r := MapStackPages();
      if r.Err? {
        return;
      }
      label mapped:
      stackPages, guard := INITIAL_STACK_PAGES, Some(STACK_FIRST - PAGE);
      assert forall a: nat :: At(a) == old@mapped(At(a));
      return Ok(());
    }

    method GrowStack(fault: nat) returns (r: Result<bool, Error>)
      requires Valid()
      modifies this, slots, mem, ram
      ensures Valid()
      ensures Step(r, State(), mem.Stock()) == A.GrowStack(old(State()), old(mem.Stock()), fault)
      ensures r == Ok(true) ==>
                && old(guard) == Some(AlignDown(fault)) && old(At(AlignDown(fault))).None?
                && forall a: nat :: At(a) ==
                     if a == AlignDown(fault) then Some(Page(USER_RW, Stack, ZeroPage())) else old(At(a))
      ensures r != Ok(true) ==> forall a: nat :: At(a) == old(At(a))
    {
      if guard.None? || AlignDown(fault) != guard.value || stackPages == MAX_STACK_PAGES {
        return Ok(false);
      }
      var page := guard.value;
      var below: Option<nat> := if page >= PAGE then Some(page - PAGE) else None;
      var mapped := MapPage(page, USER_RW, Stack);
      if mapped.Err? {
        return Err(mapped.error);
      }
      label mapped:
      stackPages := stackPages + 1;
      guard := below;
      assert forall a: nat :: At(a) == old@mapped(At(a));
      return Ok(true);
    }

    /** Stops at the first frame it cannot return, so the object invariant is promised only on success. */
    method Destroy() returns (r: Result<(), Error>)
      requires Valid()
      modifies this, slots, mem, mem.returned
      ensures mem.Valid()
      ensures Step(r, State(), mem.Stock()) == A.Destroy(old(State()), old(mem.Stock()))
    {
      if root.None? {
        return Err(InvalidState);
      }
      var k := 0;
      while k < slots.Length
        invariant 0 <= k <= slots.Length && mem.Valid() && root.Some?
        invariant DestroyFrom(State(), mem.Stock(), k) == A.Destroy(old(State()), old(mem.Stock()))
      {
        if slots[k].Some? {
          var ok := mem.FreeFrame(slots[k].value.frame);
          if !ok {
            return Err(FrameReturn);
          }
        }
        k := k + 1;
      }
      forall i | 0 <= i < slots.Length {
        slots[i] := None;
      }
      assert slots[..] == NoSlots();
      var frame := root.value;
      root := None;
      var ok := mem.FreeFrame(frame);
      if !ok {
        return Err(FrameReturn);
      }
      guard, stackPages := None, 0;
      return Ok(());
    }

    /** Writes inside one mapped page. */
    method WritePart(page: nat, offset: nat, part: seq<byte>)
      requires Valid() && page % PAGE == 0 && SlotOf(slots[..], page).Some? && offset + |part| <= PAGE
      modifies ram
      ensures Valid() && State() == old(State()) && mem.Stock() == old(mem.Stock())
      ensures forall a: nat :: At(a).Some? == old(At(a)).Some?
      ensures forall a: nat :: a % PAGE == 0 ==> WrittenPage(old(At(a)), At(a), a, page + offset, part)
    {
      var m := slots[SlotOf(slots[..], page).value].value;
      ghost var now := Overwrite(ram.pages[m.frame], offset, part);
      ViewOfWrite(slots[..], ram.pages, page, now);
      ram.Write(m.frame, offset, part);
      forall a: nat | a % PAGE == 0 ensures WrittenPage(old(At(a)), At(a), a, page + offset, part) {
        if old(At(a)).Some? {
          WrittenInPage(old(At(a)).value, a, page, offset, part);
        }
      }
    }

    /** Copies bytes to user addresses, page by page through the frames. */
    method Load(address: nat, bytes: seq<byte>) returns (r: Result<(), Error>)
      requires Valid()
      modifies ram
      ensures Valid() && State() == old(State()) && mem.Stock() == old(mem.Stock())
      ensures r.Ok? ==> forall a: nat :: a % PAGE == 0 ==> WrittenPage(old(At(a)), At(a), a, address, bytes)
      ensures r.Ok? ==> forall b: nat :: address <= b < address + |bytes| ==> At(AlignDown(b)).Some?
      ensures r.Err? ==> Unwritable(old(State()), address, |bytes|)
    {
      if root.None? {
        return Err(InvalidState);
      }
      var cursor, offset := address, 0;
      while offset < |bytes|
        invariant 0 <= offset <= |bytes| && cursor == address + offset && Valid()
        invariant forall a: nat :: a % PAGE == 0 ==> WrittenPage(old(At(a)), At(a), a, address, bytes[..offset])
        invariant forall b: nat :: address <= b < address + offset ==> At(AlignDown(b)).Some?
      {
        var page := AlignDown(cursor);
        var slot := SlotOf(slots[..], page);
        if slot.None? {
          return Err(InvalidAddress);
        }
        var inPage := cursor - page;
        var count := Min(PAGE - inPage, |bytes| - offset);
        label before:
        WritePart(page, inPage, bytes[offset..offset + count]);
        forall a: nat | a % PAGE == 0 ensures WrittenPage(old(At(a)), At(a), a, address, bytes[..offset + count]) {
          WrittenTwice(old(At(a)), old@before(At(a)), At(a), a, address, bytes[..offset],
              bytes[offset..offset + count]);
          assert bytes[..offset] + bytes[offset..offset + count] == bytes[..offset + count];
        }
        forall b: nat | cursor <= b < cursor + count ensures AlignDown(b) == page {
        }
        if cursor + count >= U64_LIMIT {
          return Err(InvalidAddress);
        }
        cursor, offset := cursor + count, offset + count;
      }
      assert bytes[..offset] == bytes;
      return Ok(());
    }

    /** Loads little-endian 64-bit words one after the other. */
    method LoadWords(address: nat, words: seq<nat>) returns (r: Result<(), Error>)
      requires Valid()
      modifies ram
      ensures Valid() && State() == old(State()) && mem.Stock() == old(mem.Stock())
      ensures r.Ok? ==> forall a: nat :: a % PAGE == 0 ==> WrittenPage(old(At(a)), At(a), a, address, WordBytes(words))
      ensures r.Err? ==> Unwritable(old(State()), address, 8 * |words|)
    {
      var index := 0;
      forall a: nat | a % PAGE == 0 ensures WrittenPage(old(At(a)), At(a), a, address, WordBytes(words[..0])) {
        WrittenNothing(At(a), a, address);
      }
      while index < |words|
        invariant 0 <= index <= |words| && Valid() && State() == old(State()) && mem.Stock() == old(mem.Stock())
        invariant forall a: nat :: a % PAGE == 0 ==>
                  WrittenPage(old(At(a)), At(a), a, address, WordBytes(words[..index]))
      {
        if address + 8 * index >= U64_LIMIT {
          return Err(InvalidAddress);
        }
        label before:
        WordBytesStep(words, index);
        var loaded := Load(address + 8 * index, WriteLe(words[index], 8));
        if loaded.Err? {
          return loaded;
        }
        forall a: nat | a % PAGE == 0
          ensures WrittenPage(old(At(a)), At(a), a, address, WordBytes(words[..index + 1]))
        {
          WrittenTwice(old(At(a)), old@before(At(a)), At(a), a, address, WordBytes(words[..index]),
              WriteLe(words[index], 8));
        }
        index := index + 1;
      }
      assert words[..index] == words;
      return Ok(());
    }
  }

  function WordBytes(words: seq<nat>): (b: seq<byte>)
    ensures |b| == 8 * |words|
  {
    if words == [] then [] else WordBytes(words[..|words| - 1]) + WriteLe(words[|words| - 1], 8)
  }

  lemma WordBytesStep(words: seq<nat>, k: nat)
    requires k < |words|
    ensures WordBytes(words[..k + 1]) == WordBytes(words[..k]) + WriteLe(words[k], 8)
  {
    assert words[..k + 1][..k] == words[..k];
  }
}
