/** From an ELF image to what its program finds in memory, in the linker's terms. */
module NativeImage {
  import opened Common
  import opened FrameMemory
  import opened AddressSpace
  import opened UserSpace
  import opened Elf
  import opened InitialStack
  import opened FrameAccounts
  import opened LoadPath
  import opened LoadedStack
  import opened Loader

  // ------------------------------------------------------------------ one segment

  /** The segment's file contents stand at the addresses the header names. */
  ghost predicate AsLinked(h: Header, s: Segment, image: seq<byte>, bias: nat)
    requires FileFits(s, image) && s.start <= bias + h.address && h.offset + h.fileSize <= |image|
  {
    Shows(s, image, h.offset, bias + h.address, h.fileSize)
  }

  /** The image's bytes from `offset` on stand at `base` and behind. */
  ghost predicate Shows(s: Segment, image: seq<byte>, offset: nat, base: nat, size: nat)
    requires FileFits(s, image) && s.start <= base && offset + size <= |image|
  {
    forall a: nat :: base <= a < base + size ==> SegmentByte(s, image, a) == image[offset + (a - base)]
  }

  /** The header's address is on a page boundary, or all it loads is zeros. */
  predicate Alignable(h: Header, image: seq<byte>)
    requires h.offset + h.fileSize <= |image|
  {
    h.address % PAGE == 0 || forall i :: h.offset <= i < h.offset + h.fileSize ==> image[i] == 0
  }

  /** What stands at position `k` of contents that were moved down by `delta`. */
  function Moved(contents: seq<byte>, delta: nat, k: nat): byte {
    if k + delta < |contents| then contents[k + delta] else 0
  }

  ghost predicate Repeats(contents: seq<byte>, delta: nat) {
    forall k: nat :: k < |contents| ==> Moved(contents, delta, k) == contents[k]
  }

  /** Contents that end in zeros and repeat a distance back are zeros throughout. */
  lemma {:induction false} RepeatsFromEnd(contents: seq<byte>, delta: nat, k: nat)
    requires Repeats(contents, delta) && delta > 0 && k < |contents|
    ensures contents[k] == 0
    decreases |contents| - k
  {
    assert Moved(contents, delta, k) == contents[k];
    if k + delta < |contents| {
      RepeatsFromEnd(contents, delta, k + delta);
    }
  }

  lemma RepeatsExactly(contents: seq<byte>, delta: nat)
    ensures Repeats(contents, delta) <==> delta == 0 || forall k :: 0 <= k < |contents| ==> contents[k] == 0
  {
    if Repeats(contents, delta) && delta > 0 {
      forall k | 0 <= k < |contents| ensures contents[k] == 0 { RepeatsFromEnd(contents, delta, k); }
    }
  }

  /** A segment that starts `delta` below its base shows its contents moved down by as much. */
  lemma MovedExactly(s: Segment, image: seq<byte>, offset: nat, delta: nat)
    requires s.fileOffset == offset && offset + s.fileSize <= |image|
    ensures Shows(s, image, offset, s.start + delta, s.fileSize)
            <==> Repeats(image[offset..offset + s.fileSize], delta)
  {
    if Shows(s, image, offset, s.start + delta, s.fileSize) {
      ShownRepeats(s, image, offset, delta);
    }
    if Repeats(image[offset..offset + s.fileSize], delta) {
      RepeatsShown(s, image, offset, delta);
    }
  }

  lemma ShownRepeats(s: Segment, image: seq<byte>, offset: nat, delta: nat)
    requires s.fileOffset == offset && offset + s.fileSize <= |image|
    requires Shows(s, image, offset, s.start + delta, s.fileSize)
    ensures Repeats(image[offset..offset + s.fileSize], delta)
  {
    var base, contents := s.start + delta, image[offset..offset + s.fileSize];
    forall k: nat | k < |contents| ensures Moved(contents, delta, k) == contents[k] {
      MovedByte(s, image, offset, delta, k);
      assert SegmentByte(s, image, base + k) == image[offset + (base + k - base)];
    }
  }

  lemma RepeatsShown(s: Segment, image: seq<byte>, offset: nat, delta: nat)
    requires s.fileOffset == offset && offset + s.fileSize <= |image|
    requires Repeats(image[offset..offset + s.fileSize], delta)
    ensures Shows(s, image, offset, s.start + delta, s.fileSize)
  {
    var base, contents := s.start + delta, image[offset..offset + s.fileSize];
    forall a: nat | base <= a < base + s.fileSize ensures SegmentByte(s, image, a) == image[offset + (a - base)] {
      var k := a - base;
      MovedByte(s, image, offset, delta, k);
      assert Moved(contents, delta, k) == contents[k];
    }
  }

  lemma MovedByte(s: Segment, image: seq<byte>, offset: nat, delta: nat, k: nat)
    requires s.fileOffset == offset && offset + s.fileSize <= |image| && k < s.fileSize
    ensures var contents := image[offset..offset + s.fileSize];
            && SegmentByte(s, image, s.start + delta + k) == Moved(contents, delta, k)
            && image[offset + k] == contents[k]
  {
  }

  /** The loader rounds a segment's start down but not the file position with it, so contents whose
      address is not page-aligned are moved down by the remainder. The program is as linked if and
      only if the address is page-aligned or the contents are all zero. */
  lemma LoadedAsLinkedExactly(h: Header, image: seq<byte>, bias: nat)
    requires bias % PAGE == 0 && SegmentOf(h, |image|, bias).Ok?
    ensures var s := SegmentOf(h, |image|, bias).value;
            && FileFits(s, image) && s.start <= bias + h.address && h.offset + h.fileSize <= |image|
            && (AsLinked(h, s, image, bias) <==> Alignable(h, image))
  {
    var s, contents := SegmentOf(h, |image|, bias).value, image[h.offset..h.offset + h.fileSize];
    SegmentIsGood(h, |image|, bias);
    assert s.start + h.address % PAGE == bias + h.address;
    MovedExactly(s, image, h.offset, h.address % PAGE);
    RepeatsExactly(contents, h.address % PAGE);
    ContentsZero(image, contents, h.offset);
  }

  lemma ContentsZero(image: seq<byte>, contents: seq<byte>, offset: nat)
    requires offset + |contents| <= |image| && contents == image[offset..offset + |contents|]
    ensures (forall k :: 0 <= k < |contents| ==> contents[k] == 0)
            <==> forall i :: offset <= i < offset + |contents| ==> image[i] == 0
  {
    if forall k :: 0 <= k < |contents| ==> contents[k] == 0 {
      forall i | offset <= i < offset + |contents| ensures image[i] == 0 {
        assert contents[i - offset] == image[i];
      }
    }
  }

  /** An address one byte into a page, and two different bytes to load: the first one is lost. */
  lemma MisalignedSegmentMoves(h: Header, image: seq<byte>)
    requires |image| >= PAGE + 3 && image[PAGE + 1] != image[PAGE + 2]
    requires h == Header(PT_LOAD, 4, PAGE + 1, 4 * PAGE + 1, 2, 2, 0)
    ensures SegmentOf(h, |image|, 0).Ok?
    ensures var s := SegmentOf(h, |image|, 0).value;
            FileFits(s, image) && s.start <= h.address && !AsLinked(h, s, image, 0)
  {
    var s := SegmentOf(h, |image|, 0).value;
    assert RightsOf(4) == Rights(true, false, false);
    assert s.start == 4 * PAGE;
    assert SegmentByte(s, image, h.address) == image[PAGE + 2];
    assert image[h.offset + (h.address - (0 + h.address))] == image[PAGE + 1];
  }

  // ------------------------------------------------------------------ the whole image

  /** The byte a user program reads at an address. */
  ghost function ByteAt(space: UserSpace, a: nat): Option<byte>
    requires space.Valid()
    reads space, space.mem, space.mem.ranges, space.mem.returned, space.ram, space.slots
  {
    var page := space.At(AlignDown(a));
    if page.Some? && a % PAGE < |page.value.bytes| then Some(page.value.bytes[a % PAGE]) else None
  }

  /** The header's contents are in memory where it says. */
  ghost predicate InPlace(space: UserSpace, h: Header, image: seq<byte>, bias: nat)
    requires space.Valid() && h.offset + h.fileSize <= |image|
    reads space, space.mem, space.mem.ranges, space.mem.returned, space.ram, space.slots
  {
    var base := bias + h.address;
    forall a: nat :: base <= a < base + h.fileSize ==> ByteAt(space, a) == Some(image[h.offset + (a - base)])
  }

  /** The rights a user program has at an address. */
  ghost function FlagsAt(space: UserSpace, a: nat): Option<Flags>
    requires space.Valid()
    reads space, space.mem, space.mem.ranges, space.mem.returned, space.ram, space.slots
  {
    var page := space.At(AlignDown(a));
    if page.Some? then Some(page.value.flags) else None
  }

  /** The header's addresses have its rights (PF_R is 4, PF_W is 2 and PF_X is 1), and zeros behind its contents. */
  ghost predicate Guarded(space: UserSpace, h: Header, bias: nat)
    requires space.Valid()
    reads space, space.mem, space.mem.ranges, space.mem.returned, space.ram, space.slots
  {
    var base, flags := bias + h.address, Flags(true, h.flags / 4 % 2 == 1, h.flags / 2 % 2 == 1, h.flags % 2 == 1);
    && (forall a: nat :: base <= a < base + h.memorySize ==> FlagsAt(space, a) == Some(flags))
    && (forall a: nat :: base + h.fileSize <= a < base + h.memorySize ==> ByteAt(space, a) == Some(0))
  }

  lemma SegmentIsGuarded(space: UserSpace, plan: Plan, image: seq<byte>, k: nat, h: Header, bias: nat)
    requires space.Valid() && Loaded(space, plan, image) && GoodPlan(plan) && k < |plan.segments|
    requires bias % PAGE == 0 && SegmentOf(h, |image|, bias) == Ok(plan.segments[k])
    ensures Guarded(space, h, bias)
  {
    var s, base := plan.segments[k], bias + h.address;
    SegmentCovers(h, |image|, bias);
    forall a: nat | base <= a < base + h.memorySize
      ensures FlagsAt(space, a) == Some(FlagsOf(s)) && ByteAt(space, a) == Some(SegmentByte(s, image, a))
    {
      PageInSegment(s, a);
      assert space.At(AlignDown(a)) == Some(SegmentPage(s, image, AlignDown(a)));
      ByteOfSegment(space, plan, image, k, a);
    }
  }

  lemma ByteOfSegment(space: UserSpace, plan: Plan, image: seq<byte>, k: nat, a: nat)
    requires space.Valid() && Loaded(space, plan, image) && GoodPlan(plan) && k < |plan.segments|
    requires plan.segments[k].start <= a < plan.segments[k].end
    ensures ByteAt(space, a) == Some(SegmentByte(plan.segments[k], image, a))
  {
    var s := plan.segments[k];
    PageInSegment(s, a);
    assert space.At(AlignDown(a)) == Some(SegmentPage(s, image, AlignDown(a)));
    assert SegmentPage(s, image, AlignDown(a)).bytes[a % PAGE] == SegmentByte(s, image, AlignDown(a) + a % PAGE);
  }

  lemma InPlaceExactly(space: UserSpace, plan: Plan, image: seq<byte>, k: nat, h: Header, bias: nat)
    requires space.Valid() && Loaded(space, plan, image) && GoodPlan(plan) && k < |plan.segments|
    requires bias % PAGE == 0 && SegmentOf(h, |image|, bias) == Ok(plan.segments[k])
    ensures h.offset + h.fileSize <= |image| && (InPlace(space, h, image, bias) <==> Alignable(h, image))
  {
    var s, base := plan.segments[k], bias + h.address;
    LoadedAsLinkedExactly(h, image, bias);
    SegmentCovers(h, |image|, bias);
    forall a: nat | base <= a < base + h.fileSize ensures ByteAt(space, a) == Some(SegmentByte(s, image, a)) {
      ByteOfSegment(space, plan, image, k, a);
    }
  }

  lemma SegmentCovers(h: Header, length: nat, bias: nat)
    requires bias % PAGE == 0 && SegmentOf(h, length, bias).Ok?
    ensures var s := SegmentOf(h, length, bias).value;
            && s.start <= bias + h.address && bias + h.address + h.memorySize <= s.end && h.fileSize <= h.memorySize
            && s.rights == RightsOf(h.flags) && s.fileSize == h.fileSize
  {
    AlignDownFacts(h.address);
    AlignDownFacts(h.address + h.memorySize + (PAGE - 1));
  }

  datatype ImageError = BadImage(elf: ElfError) | BadLoad(load: LoadError)

  /** The PT_LOAD headers of an image that was parsed. */
  ghost function Loads(image: seq<byte>, machine: nat, bias: nat): seq<Header>
    requires Parse(image, machine, bias).Ok?
  {
    ParsedPlanIsGood(image, machine, bias);
    var headers := HeadersOf(image, TableOf(image));
    LoadHeaders(headers, |headers|)
  }

  /** What the program of an image finds: the rights of its segments, their contents exactly where they are
      alignable, and its strings exactly where they are empty. */
  ghost predicate Finds(space: UserSpace, image: seq<byte>, machine: nat, bias: nat, strings: seq<seq<byte>>)
    requires space.Valid() && Parse(image, machine, bias).Ok?
    reads space, space.mem, space.mem.ranges, space.mem.returned, space.ram, space.slots
  {
    && (forall h :: h in Loads(image, machine, bias) ==>
          && h.offset + h.fileSize <= |image| && (InPlace(space, h, image, bias) <==> Alignable(h, image))
          && Guarded(space, h, bias))
    && forall k :: 0 <= k < |strings| ==> (LeadsTo(space.At(STACK_TOP - PAGE), strings, k) <==> strings[k] == [])
  }

  lemma PreparedFinds(space: UserSpace, image: seq<byte>, machine: nat, bias: nat,
                      arguments: seq<seq<byte>>, environment: seq<seq<byte>>, stack: Image, heapNext: nat)
    requires Parse(image, machine, bias).Ok?
    requires Prepared(space, Parse(image, machine, bias).value, Some(image), arguments, environment, stack, heapNext)
    ensures Finds(space, image, machine, bias, arguments + environment)
  {
    var plan, loads := Parse(image, machine, bias).value, Loads(image, machine, bias);
    ParsedPlanIsGood(image, machine, bias);
    forall h | h in loads
      ensures h.offset + h.fileSize <= |image| && (InPlace(space, h, image, bias) <==> Alignable(h, image))
      ensures Guarded(space, h, bias)
    {
      var k :| 0 <= k < |loads| && loads[k] == h;
      InPlaceExactly(space, plan, image, k, h, bias);
      SegmentIsGuarded(space, plan, image, k, h, bias);
    }
    forall k | 0 <= k < |arguments + environment|
      ensures LeadsTo(space.At(STACK_TOP - PAGE), arguments + environment, k) <==> (arguments + environment)[k] == []
    {
      StringsAreLostExactly(space.At(STACK_TOP - PAGE), stack, plan.entry, arguments, environment, k);
    }
  }

  /** Parses an image and prepares its program, as the service start-up does. A parsed plan fits its
      image, so a refusal gives every frame back. */
  method LoadImage(mem: Memory, ram: Ram, image: seq<byte>, machine: nat, bias: nat,
                   arguments: seq<seq<byte>>, environment: seq<seq<byte>>)
    returns (r: Result<NativeRuntime, ImageError>)
    requires mem.Valid() && GoodPool(mem.Stock())
    modifies mem, mem.returned, ram
    ensures mem.Valid()
    ensures r.Ok? <==> && Parse(image, machine, bias).Ok?
                       && CanPrepare(old(mem.Stock()), Parse(image, machine, bias).value, Some(image),
                                     InitialStack.Accepted(STACK_TOP, arguments, environment))
    ensures r.Ok? ==>
              && Parse(image, machine, bias).Ok? && r.value.space.Valid()
              && r.value.entry == Parse(image, machine, bias).value.entry
              && Finds(r.value.space, image, machine, bias, arguments + environment)
    ensures r.Err? ==> GoodPool(mem.Stock()) && Conserves(old(mem.Stock()), mem.Stock(), {})
  {
    var plan := ParseImage(image, machine, bias);
    if plan.Err? {
      assert Balances(mem.Stock(), 0, mem.Stock(), {});
      return Err(BadImage(plan.error));
    }
    ParsedPlanIsGood(image, machine, bias);
    FittingLosesNothing(mem.Stock(), plan.value, Some(image));
    var prepared := Prepare(mem, ram, Some(image), plan.value, arguments, environment);
    if prepared.Err? {
      return Err(BadLoad(prepared.error));
    }
    var run := prepared.value;
    PreparedFinds(run.space, image, machine, bias, arguments, environment, run.stack, run.heapNext);
    return Ok(run);
  }
}
