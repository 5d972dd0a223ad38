/** User address spaces of `src/address_space.rs`, as values.

    Each operation takes a space and the shared frame pool and gives both back, the way the methods
    of the source leave them, on success and on every error. The spaces are inactive: no hardware
    tables are involved.
 */
module AddressSpace {
  import opened Common
  import opened FrameMemory

  /** The x86-64 limit; the aarch64 build has a lower one. */
  const USER_LIMIT := 0x8000_0000_0000
  const MAX_MAPPINGS := 64
  const INITIAL_STACK_PAGES := 2
  const MAX_STACK_PAGES := 8
  const STACK_TOP := USER_LIMIT - PAGE
  const STACK_FIRST := STACK_TOP - INITIAL_STACK_PAGES * PAGE

  datatype Flags = Flags(user: bool, readable: bool, writable: bool, executable: bool)

  const USER_RW := Flags(true, true, true, false)

  datatype Kind = Anonymous | Stack

  datatype Mapping = Mapping(address: nat, frame: nat, flags: Flags, kind: Kind)

  datatype Error =
    | NoFrames
    | MappingCapacity
    | InvalidAddress
    | Unaligned
    | Overlap
    | GuardPage
    | KernelMapping
    | WriteExecute
    | NoAccess
    | InvalidState
    | FrameReturn

  datatype Space = Space(root: Option<nat>, slots: seq<Option<Mapping>>, guard: Option<nat>, stackPages: nat)

  /** An operation's answer with the space and the pool it leaves behind. */
  datatype Step<+T> = Step(result: Result<T, Error>, space: Space, pool: Pool)

  // ------------------------------------------------------------------ checks and lookups

  function CheckFlags(f: Flags): Option<Error> {
    if !f.user then Some(KernelMapping)
    else if f.writable && f.executable then Some(WriteExecute)
    else if !f.readable && !f.writable && !f.executable then Some(NoAccess)
    else None
  }

  function CheckPage(address: nat): Option<Error> {
    if address % PAGE != 0 then Some(Unaligned)
    else if address + PAGE >= U64_LIMIT then Some(InvalidAddress)
    else if address < PAGE || address + PAGE > USER_LIMIT then Some(InvalidAddress)
    else None
  }

  predicate IsAt(slot: Option<Mapping>, address: nat) { slot.Some? && slot.value.address == address }

  /** The first slot at or after `from` that maps the address. */
  function SlotOf(slots: seq<Option<Mapping>>, address: nat, from: nat := 0): (r: Option<nat>)
    requires from <= |slots|
    ensures r.Some? ==> from <= r.value < |slots| && IsAt(slots[r.value], address)
    ensures r.None? ==> forall k :: from <= k < |slots| ==> !IsAt(slots[k], address)
    decreases |slots| - from
  {
    if from == |slots| then None
    else if IsAt(slots[from], address) then Some(from)
    else SlotOf(slots, address, from + 1)
  }

  function EmptySlot(slots: seq<Option<Mapping>>, from: nat := 0): (r: Option<nat>)
    requires from <= |slots|
    ensures r.Some? ==> from <= r.value < |slots| && slots[r.value].None?
    ensures r.None? ==> forall k :: from <= k < |slots| ==> slots[k].Some?
    decreases |slots| - from
  {
    if from == |slots| then None
    else if slots[from].None? then Some(from)
    else EmptySlot(slots, from + 1)
  }

  // ------------------------------------------------------------------ operations

  function NoSlots(): seq<Option<Mapping>> { seq(MAX_MAPPINGS, _ => None) }

  function Create(p: Pool): Step<nat> {
    var a := TakeFrame(p);
    if a.frame.None? then Step(Err(NoFrames), Space(None, NoSlots(), None, 0), a.pool)
    else Step(Ok(a.frame.value), Space(a.frame, NoSlots(), None, 0), a.pool)
  }

  function MapPage(s: Space, p: Pool, address: nat, flags: Flags, kind: Kind): Step<Mapping> {
    if s.root.None? then Step(Err(InvalidState), s, p)
    else if CheckFlags(flags).Some? then Step(Err(CheckFlags(flags).value), s, p)
    else if CheckPage(address).Some? then Step(Err(CheckPage(address).value), s, p)
    else if s.guard == Some(address) && kind != Stack then Step(Err(GuardPage), s, p)
    else if SlotOf(s.slots, address).Some? then Step(Err(Overlap), s, p)
    else if EmptySlot(s.slots).None? then Step(Err(MappingCapacity), s, p)
    else
      var a := TakeFrame(p);
      if a.frame.None? then Step(Err(NoFrames), s, a.pool)
      else
        var m := Mapping(address, a.frame.value, flags, kind);
        Step(Ok(m), s.(slots := s.slots[EmptySlot(s.slots).value := Some(m)]), a.pool)
  }

  /** Maps the pages from `page` up to `end`, until one cannot be mapped. */
  function MapPages(s: Space, p: Pool, page: nat, end: nat, flags: Flags): Step<()>
    decreases end - page
  {
    if page >= end then Step(Ok(()), s, p)
    else
      var m := MapPage(s, p, page, flags, Anonymous);
      if m.result.Err? then Step(Err(m.result.error), m.space, m.pool)
      else MapPages(m.space, m.pool, page + PAGE, end, flags)
  }

  /** The slot is emptied only if the frame could be returned. */
  function RemoveMapping(s: Space, p: Pool, address: nat): Step<()> {
    match SlotOf(s.slots, address)
    case None => Step(Err(InvalidAddress), s, p)
    case Some(k) =>
      var frame := s.slots[k].value.frame;
      if CanReturn(p, frame) then
        Step(Ok(()), s.(slots := s.slots[k := None]), p.(returned := p.returned + [frame]))
      else Step(Err(FrameReturn), s, p)
  }

  function UnmapPage(s: Space, p: Pool, address: nat): Step<()> {
    match SlotOf(s.slots, address)
    case None => Step(Err(InvalidAddress), s, p)
    case Some(k) =>
      if s.slots[k].value.kind == Stack then Step(Err(InvalidState), s, p) else RemoveMapping(s, p, address)
  }

  /** Maps the initial stack pages from `index` on; an error unmaps the ones before it. */
  function MapStackFrom(s: Space, p: Pool, index: nat): Step<()>
    requires index <= INITIAL_STACK_PAGES
    decreases INITIAL_STACK_PAGES - index, |s.slots|
  {
    if index == INITIAL_STACK_PAGES then
      Step(Ok(()), s.(stackPages := INITIAL_STACK_PAGES, guard := Some(STACK_FIRST - PAGE)), p)
    else
      var m := MapPage(s, p, STACK_FIRST + index * PAGE, USER_RW, Stack);
      if m.result.Ok? then MapStackFrom(m.space, m.pool, index + 1)
      else RollBack(m.space, m.pool, 0, index, m.result.error)
  }

  function RollBack(s: Space, p: Pool, k: nat, index: nat, error: Error): Step<()>
    requires k <= index
    decreases index - k
  {
    if k == index then Step(Err(error), s, p)
    else
      var r := RemoveMapping(s, p, STACK_FIRST + k * PAGE);
      RollBack(r.space, r.pool, k + 1, index, error)
  }

  function MapStack(s: Space, p: Pool): Step<()> {
    if s.stackPages != 0 || s.root.None? then Step(Err(InvalidState), s, p) else MapStackFrom(s, p, 0)
  }

  /** Answers whether the fault was the guard page's and the stack grew over it. */
  function GrowStack(s: Space, p: Pool, fault: nat): Step<bool> {
    if s.guard.None? || AlignDown(fault) != s.guard.value || s.stackPages == MAX_STACK_PAGES then Step(Ok(false), s, p)
    else
      var guard := s.guard.value;
      var m := MapPage(s, p, guard, USER_RW, Stack);
      match m.result
      case Err(e) => Step(Err(e), m.space, m.pool)
      case Ok(_) =>
        var below := if guard >= PAGE then Some(guard - PAGE) else None;
        Step(Ok(true), m.space.(stackPages := s.stackPages + 1, guard := below), m.pool)
  }

  /** Returns the frames of the mappings in slot order, then clears them and returns the root. */
  function DestroyFrom(s: Space, p: Pool, k: nat): Step<()>
    requires k <= |s.slots| && s.root.Some?
    decreases |s.slots| - k
  {
    if k == |s.slots| then
      var cleared := s.(root := None, slots := NoSlots());
      if CanReturn(p, s.root.value) then
        Step(Ok(()), cleared.(guard := None, stackPages := 0), p.(returned := p.returned + [s.root.value]))
      else Step(Err(FrameReturn), cleared, p)
    else if s.slots[k].None? then DestroyFrom(s, p, k + 1)
    else
      var frame := s.slots[k].value.frame;
      if CanReturn(p, frame) then DestroyFrom(s, p.(returned := p.returned + [frame]), k + 1)
      else Step(Err(FrameReturn), s, p)
  }

  function Destroy(s: Space, p: Pool): Step<()> {
    if s.root.None? then Step(Err(InvalidState), s, p) else DestroyFrom(s, p, 0)
  }
}
