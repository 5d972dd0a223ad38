/** Program loading of `src/user_runtime.rs`: a plan's segments are mapped and filled one after the
    other, then the stack is mapped and its words are written. */
module Loader {
  import opened Common
  import opened FrameMemory
  import opened AddressSpace
  import opened UserSpace
  import opened Elf
  import opened InitialStack
  import opened FrameAccounts
  import opened LoadPath
  import opened LoadedStack
  import opened Heap

  datatype LoadError = BadStack(stack: StackError) | BadSpace(space: AddressSpace.Error) | BadState | NoSpace

  // ------------------------------------------------------------------ what a program should find

  /** The byte a segment puts at a user address: from the file, or zero behind its file contents. */
  function SegmentByte(s: Segment, image: seq<byte>, address: nat): byte
    requires FileFits(s, image) && s.start <= address
  {
    if address - s.start < s.fileSize then image[s.fileOffset + (address - s.start)] else 0
  }

  predicate InSegment(s: Segment, page: nat) { page % PAGE == 0 && s.start <= page < s.end }

  function SegmentPage(s: Segment, image: seq<byte>, page: nat): Page
    requires FileFits(s, image) && s.start <= page
  {
    Page(FlagsOf(s), Anonymous, seq<byte>(PAGE, i requires 0 <= i < PAGE => SegmentByte(s, image, page + i)))
  }

  /** The page the first `count` segments put at a page address, if any of them does. */
  ghost function Expected(segments: seq<Segment>, image: seq<byte>, count: nat, page: nat): Option<Page>
    requires count <= |segments| && forall i :: 0 <= i < count ==> FileFits(segments[i], image)
  {
    if count == 0 then None
    else if InSegment(segments[count - 1], page) then Some(SegmentPage(segments[count - 1], image, page))
    else Expected(segments, image, count - 1, page)
  }

  lemma {:induction false} ExpectedOf(segments: seq<Segment>, image: seq<byte>, count: nat, k: nat, page: nat)
    requires k < count <= |segments| && forall i :: 0 <= i < count ==> FileFits(segments[i], image)
    requires forall i, j :: 0 <= i < j < |segments| ==> !Overlaps(segments[i], segments[j])
    requires forall i :: 0 <= i < |segments| ==> GoodSegment(segments[i])
    requires InSegment(segments[k], page)
    ensures Expected(segments, image, count, page) == Some(SegmentPage(segments[k], image, page))
  {
    if k != count - 1 {
      assert !Overlaps(segments[k], segments[count - 1]);
      ExpectedOf(segments, image, count - 1, k, page);
    }
  }

  lemma {:induction false} ExpectedSize(segments: seq<Segment>, image: seq<byte>, count: nat, page: nat)
    requires count <= |segments| && forall i :: 0 <= i < count ==> FileFits(segments[i], image)
    ensures Expected(segments, image, count, page).Some? ==>
            |Expected(segments, image, count, page).value.bytes| == PAGE
  {
    if count != 0 {
      ExpectedSize(segments, image, count - 1, page);
    }
  }

  /** Writing the file contents over zeroed pages makes the segment's pages. */
  lemma FilledPage(s: Segment, image: seq<byte>, page: nat, after: Option<Page>)
    requires s.fileOffset + s.fileSize <= |image| && GoodSegment(s) && InSegment(s, page)
    requires WrittenPage(Some(Page(FlagsOf(s), Anonymous, ZeroPage())), after, page, s.start,
                         image[s.fileOffset..s.fileOffset + s.fileSize])
    ensures after == Some(SegmentPage(s, image, page))
  {
    var want := SegmentPage(s, image, page).bytes;
    forall i | 0 <= i < PAGE ensures after.value.bytes[i] == want[i] {
      assert want[i] == SegmentByte(s, image, page + i);
      assert ZeroPage()[i] == 0;
    }
    assert after.value.bytes == want;
  }

  /** A write inside a segment leaves the pages outside it alone. */
  lemma OutsidePage(s: Segment, page: nat, before: Option<Page>, after: Option<Page>, bytes: seq<byte>)
    requires GoodSegment(s) && page % PAGE == 0 && !InSegment(s, page) && |bytes| <= s.end - s.start
    requires before.Some? ==> |before.value.bytes| == PAGE
    requires WrittenPage(before, after, page, s.start, bytes)
    ensures after == before
  {
    if before.Some? {
      assert page + PAGE <= s.start || s.end <= page;
      assert after.value.bytes == before.value.bytes;
    }
  }

  lemma EmptyFilePage(s: Segment, image: seq<byte>, page: nat)
    requires FileFits(s, image) && s.fileSize == 0 && s.start <= page
    ensures SegmentPage(s, image, page) == Page(FlagsOf(s), Anonymous, ZeroPage())
  {
    var got := SegmentPage(s, image, page).bytes;
    forall i | 0 <= i < PAGE ensures got[i] == ZeroPage()[i] {
      assert got[i] == SegmentByte(s, image, page + i);
    }
    assert got == ZeroPage();
  }

  // ------------------------------------------------------------------ mapping and filling

  /** The space stands, and was made from the allocator `before`. */
  ghost predicate Booked(space: UserSpace, before: Pool)
    reads space, space.mem, space.mem.ranges, space.mem.returned, space.ram, space.slots
  {
    space.Valid() && space.root.Some? && MadeFrom(before, space.State(), space.mem.Stock())
  }

  /** Such a space has been given up. */
  ghost predicate Settled(mem: Memory, before: Pool)
    reads mem, mem.ranges, mem.returned
  {
    mem.Valid() && GivenUp(before, mem.Stock())
  }

  /** Mapping the pages from `page` on comes to this. */
  ghost predicate MapsTo(s: Space, p: Pool, page: nat, end: nat, flags: Flags, goal: Step<()>) {
    forall last: nat :: last == end ==> MapPages(s, p, page, last, flags) == goal
  }

  lemma MapsToExactly(s: Space, p: Pool, page: nat, end: nat, flags: Flags, goal: Step<()>)
    ensures MapsTo(s, p, page, end, flags, goal) <==> MapPages(s, p, page, end, flags) == goal
  {
  }

  /** The segment's pages below the n-th are mapped, zeroed, and what the mapping of the rest comes to is known. */
  ghost predicate Filling(space: UserSpace, was: imap<nat, Option<Page>>, s: Segment, n: nat, page: nat,
                          goal: Step<()>)
    reads space, space.mem, space.mem.ranges, space.mem.returned, space.ram, space.slots
  {
    && space.Valid() && page == s.start + n * PAGE <= s.end && (forall a: nat :: a in was)
    && MapsTo(space.State(), space.mem.Stock(), page, s.end, FlagsOf(s), goal)
    && forall a: nat :: space.At(a) ==
         if InSegment(s, a) && a < page then Some(Page(FlagsOf(s), Anonymous, ZeroPage())) else was[a]
  }

  /** Maps the next page of the segment. */
  method MapNext(space: UserSpace, s: Segment, page: nat, ghost n: nat, ghost was: imap<nat, Option<Page>>,
                 ghost goal: Step<()>)
    returns (r: Result<(), AddressSpace.Error>)
    requires GoodSegment(s) && page < s.end && Filling(space, was, s, n, page, goal)
    modifies space.slots, space.mem, space.ram
    ensures r.Ok? ==> Filling(space, was, s, n + 1, page + PAGE, goal)
    ensures r.Err? ==> space.Valid() && goal == Step(r, space.State(), space.mem.Stock())
  {
    OnPage(s.start, n, page, s.end);
    OnePageMore(s.start, page);
    assert forall a: nat ::
        (InSegment(s, a) && a < page + PAGE <==> Between(a, s.start, page + PAGE))
        && (InSegment(s, a) && a < page <==> Between(a, s.start, page));
    MapsToExactly(space.State(), space.mem.Stock(), page, s.end, FlagsOf(s), goal);
    var mapped := space.MapPage(page, FlagsOf(s), Anonymous);
    if mapped.Ok? {
      MapsToExactly(space.State(), space.mem.Stock(), page + PAGE, s.end, FlagsOf(s), goal);
    }
    return if mapped.Ok? then Ok(()) else Err(mapped.error);
  }

  /** `let _ = address_space.destroy()` on the error paths. */
  method GiveUp(space: UserSpace, ghost before: Pool)
    requires Booked(space, before)
    modifies space, space.slots, space.mem, space.mem.returned
    ensures Settled(space.mem, before)
  {
    var _ := space.Destroy();
  }

  /** Maps a segment's pages, zeroed. */
  method MapSegment(space: UserSpace, s: Segment) returns (r: Result<(), AddressSpace.Error>)
    requires space.Valid() && GoodSegment(s)
    modifies space.slots, space.mem, space.ram
    ensures space.Valid()
    ensures Step(r, space.State(), space.mem.Stock())
            == MapPages(old(space.State()), old(space.mem.Stock()), s.start, s.end, FlagsOf(s))
    ensures r.Ok? ==>
              forall a: nat :: space.At(a) ==
                if InSegment(s, a) then Some(Page(FlagsOf(s), Anonymous, ZeroPage())) else old(space.At(a))
  {
    ghost var goal := MapPages(space.State(), space.mem.Stock(), s.start, s.end, FlagsOf(s));
    ghost var was, n: nat := imap a: nat | true :: space.At(a), 0;
    var page := s.start;
    MapsToExactly(space.State(), space.mem.Stock(), page, s.end, FlagsOf(s), goal);
    while page < s.end
      invariant Filling(space, was, s, n, page, goal)
    {
      var mapped := MapNext(space, s, page, n, was, goal);
      if mapped.Err? {
        return Err(mapped.error);
      }
      n := n + 1;
      page := page + PAGE;
    }
    MapsToExactly(space.State(), space.mem.Stock(), page, s.end, FlagsOf(s), goal);
    return Ok(());
  }

  /** The segments seen so far, and nothing else, are in the space. */
  ghost predicate Shows(space: UserSpace, segments: seq<Segment>, image: seq<byte>, count: nat)
    requires space.Valid() && count <= |segments| && forall i :: 0 <= i < count ==> FileFits(segments[i], image)
    reads space, space.mem, space.mem.ranges, space.mem.returned, space.ram, space.slots
  {
    forall a: nat :: a % PAGE == 0 ==> space.At(a) == Expected(segments, image, count, a)
  }

  /** A segment with all its pages mapped can be written to. */
  lemma SegmentIsWritable(space: UserSpace, s: Segment)
    requires space.Valid() && space.root.Some? && GoodSegment(s)
    requires forall a: nat :: InSegment(s, a) ==> space.At(a).Some?
    ensures !Unwritable(space.State(), s.start, s.fileSize)
  {
    forall b: nat | s.start <= b < s.start + s.fileSize ensures SlotOf(space.State().slots, AlignDown(b)).Some? {
      AlignDownFacts(b);
      PageInSegment(s, b);
      assert space.At(AlignDown(b)).Some?;
    }
  }

  lemma PageInSegment(s: Segment, b: nat)
    requires GoodSegment(s) && s.start <= b < s.end
    ensures InSegment(s, AlignDown(b)) && AlignDown(b) <= b < AlignDown(b) + PAGE
  {
    AlignDownFacts(b);
    SamePageOrAbove(s.start, b);
  }

  lemma SamePageOrAbove(page: nat, b: nat)
    requires page % PAGE == 0 && page <= b
    ensures page <= AlignDown(b)
  {
    AlignDownFacts(b);
    if AlignDown(b) < page {
      PagesBelow(page, AlignDown(b));
    }
  }

  /** Fills the segment just mapped from the image. */
  method FillSegment(space: UserSpace, plan: Plan, image: seq<byte>, k: nat) returns (r: Result<(), LoadError>)
    requires space.Valid() && space.root.Some? && GoodPlan(plan) && k < |plan.segments|
    requires forall i :: 0 <= i < k ==> FileFits(plan.segments[i], image)
    requires forall a: nat :: a % PAGE == 0 ==>
               (space.At(a) ==
                if InSegment(plan.segments[k], a) then Some(Page(FlagsOf(plan.segments[k]), Anonymous, ZeroPage()))
                else Expected(plan.segments, image, k, a))
    modifies space.ram
    ensures space.Valid() && space.State() == old(space.State()) && space.mem.Stock() == old(space.mem.Stock())
    ensures r.Ok? ==> FileFits(plan.segments[k], image) && Shows(space, plan.segments, image, k + 1)
    ensures r.Err? ==> r.error == BadState && !FileFits(plan.segments[k], image)
  {
    var s := plan.segments[k];
    if s.fileSize == 0 {
      forall a: nat | a % PAGE == 0 ensures space.At(a) == Expected(plan.segments, image, k + 1, a) {
        if InSegment(s, a) {
          EmptyFilePage(s, image, a);
        }
      }
      return Ok(());
    }
    FileOffsetOfSegment(plan.segments, k);
    var offset := FileOffset(plan.segments, s.start, s.fileSize);
    if offset.None? || offset.value + s.fileSize > |image| {
      return Err(BadState);
    }
    var loaded := space.Load(s.start, image[offset.value..offset.value + s.fileSize]);
    if loaded.Err? {
      SegmentIsWritable(space, s);
      assert false;
    }
    forall a: nat | a % PAGE == 0 ensures space.At(a) == Expected(plan.segments, image, k + 1, a) {
      if InSegment(s, a) {
        FilledPage(s, image, a, space.At(a));
      } else {
        ExpectedSize(plan.segments, image, k, a);
        OutsidePage(s, a, old(space.At(a)), space.At(a), image[offset.value..offset.value + s.fileSize]);
      }
    }
    return Ok(());
  }

  /** A refusal gives the space up, except that `BadState` drops it with all it holds. */
  ghost predicate Refused(space: UserSpace, error: LoadError, before: Pool)
    reads space, space.mem, space.mem.ranges, space.mem.returned, space.ram, space.slots
  {
    if error == BadState then Booked(space, before) else Settled(space.mem, before)
  }

  /** The first `k` segments are mapped and, given an image, filled. */
  ghost predicate Loading(space: UserSpace, image: Option<seq<byte>>, plan: Plan, k: nat, path: seq<Step<()>>)
    requires k <= |plan.segments| < |path|
    reads space, space.mem, space.mem.ranges, space.mem.returned, space.ram, space.slots
  {
    && space.Valid()
    && path[k].result.Ok? && path[k].space == space.State() && path[k].pool == space.mem.Stock()
    && (image.Some? ==> FitUpTo(plan, image.value, k) && Shows(space, plan.segments, image.value, k))
  }

  method MapKth(space: UserSpace, image: Option<seq<byte>>, plan: Plan, k: nat, ghost path: seq<Step<()>>,
                ghost before: Pool)
    returns (r: Result<(), AddressSpace.Error>)
    requires Course(path, plan, before) && k < |plan.segments| && Loading(space, image, plan, k, path)
    modifies space.slots, space.mem, space.ram
    ensures Booked(space, before)
    ensures r.Ok? == path[k + 1].result.Ok?
    ensures path[k + 1].space == space.State() && path[k + 1].pool == space.mem.Stock()
    ensures r.Ok? ==>
              forall a: nat :: space.At(a) ==
                if InSegment(plan.segments[k], a) then Some(Page(FlagsOf(plan.segments[k]), Anonymous, ZeroPage()))
                else old(space.At(a))
  {
    NextOnPath(path, plan, before, k);
    r := MapSegment(space, plan.segments[k]);
  }

  /** Maps and, given an image, fills one segment. */
  method LoadSegment(space: UserSpace, image: Option<seq<byte>>, plan: Plan, k: nat,
                     ghost path: seq<Step<()>>, ghost before: Pool)
    returns (r: Result<(), LoadError>)
    requires Course(path, plan, before) && k < |plan.segments| && Loading(space, image, plan, k, path)
    modifies space, space.slots, space.mem, space.mem.returned, space.ram
    ensures r.Ok? ==> Loading(space, image, plan, k + 1, path)
    ensures r.Err? ==> Refused(space, r.error, before) && (r.error == BadState <==> LosesOn(path, plan, image))
    ensures r.Err? ==> !LoadsOn(path, plan, image)
  {
    var mapped := MapKth(space, image, plan, k, path, before);
    if mapped.Err? {
      LossDecided(path, before, plan, image, k, false);
      StoppedLoad(path, before, plan, image, k);
      GiveUp(space, before);
      return Err(BadSpace(mapped.error));
    }
    if image.Some? {
      r := FillSegment(space, plan, image.value, k);
      if r.Err? {
        LossDecided(path, before, plan, image, k, true);
        StoppedLoad(path, before, plan, image, k);
      }
    } else {
      r := Ok(());
    }
  }

  /** Maps and, given an image, fills every segment in order. */
  method LoadSegments(space: UserSpace, image: Option<seq<byte>>, plan: Plan,
                      ghost path: seq<Step<()>>, ghost before: Pool)
    returns (r: Result<nat, LoadError>)
    requires Course(path, plan, before) && Loading(space, image, plan, 0, path)
    modifies space, space.slots, space.mem, space.mem.returned, space.ram
    ensures r.Ok? ==> Loading(space, image, plan, |plan.segments|, path) && r.value <= USER_LIMIT
    ensures r.Ok? ==> EndsAt(plan.segments, r.value)
    ensures r.Ok? <==> LoadsOn(path, plan, image)
    ensures r.Err? ==> Refused(space, r.error, before)
    ensures r == Err(BadState) <==> LosesOn(path, plan, image)
  {
    var heapNext: nat, index := 0, 0;
    while index < |plan.segments|
      invariant 0 <= index <= |plan.segments| && Loading(space, image, plan, index, path)
      invariant heapNext == HighestEnd(plan.segments, index)
    {
      var loaded := LoadSegment(space, image, plan, index, path, before);
      if loaded.Err? {
        return Err(loaded.error);
      }
      heapNext := Max(heapNext, plan.segments[index].end);
      index := index + 1;
    }
    AllLoaded(path, before, plan, image, heapNext);
    return Ok(heapNext);
  }

  /** The pages that hold the bytes are user addresses and can be mapped one after the other. */
  ghost predicate HeapFits(s: Space, p: Pool, start: nat, bytes: nat) {
    var end := start + (bytes + (PAGE - 1)) / PAGE * PAGE;
    end <= USER_LIMIT && MapPages(s, p, start, end, USER_RW).result.Ok?
  }

  /** A program ready to start. */
  class NativeRuntime {
    const space: UserSpace
    const stack: Image
    const entry: nat
    var heapNext: nat
    var started: bool
    var exited: bool

    constructor (space: UserSpace, stack: Image, entry: nat, heapNext: nat)
      ensures this.space == space && this.stack == stack && this.entry == entry && this.heapNext == heapNext
      ensures !started && !exited
    {
      this.space, this.stack, this.entry, this.heapNext := space, stack, entry, heapNext;
      started, exited := false, false;
    }

    /** Adds whole blank pages to the heap, or leaves everything a program can see as it was. */
    method Alloc(bytes: nat) returns (r: Result<nat, LoadError>)
      requires space.Valid() && heapNext % PAGE == 0
      modifies `heapNext, space.slots, space.mem, space.mem.returned, space.ram
      ensures space.Valid() && heapNext % PAGE == 0
      ensures !started || exited || bytes == 0 ==> r == Err(BadState)
      ensures r.Ok? <==> started && !exited && bytes > 0 && HeapFits(old(space.State()), old(space.mem.Stock()),
                                                                     old(heapNext), bytes)
      ensures r.Ok? ==>
                && r.value == old(heapNext) && r.value + bytes <= heapNext < r.value + bytes + PAGE
                && heapNext <= USER_LIMIT && Grown(space, r.value, heapNext)
      ensures r.Err? ==> heapNext == old(heapNext) && forall a: nat :: space.At(a) == old(space.At(a))
    {
      if !started || exited || bytes == 0 {
        return Err(BadState);
      }
      var size := PageUp(bytes);
      assert AlignDown(bytes + (PAGE - 1)) == (bytes + (PAGE - 1)) / PAGE * PAGE;
      if size.None? || heapNext + size.value >= U64_LIMIT || heapNext + size.value > USER_LIMIT {
        return Err(NoSpace);
      }
      var start, end := heapNext, heapNext + size.value;
      AlignDownFacts(bytes + (PAGE - 1));
      HeapMapsOne(space.State(), space.mem.Stock(), start, end);
      var grown := GrowHeap(space, start, end);
      if grown.Err? {
        return Err(BadSpace(grown.error));
      }
      heapNext := end;
      return Ok(start);
    }
  }

  /** The segments of the plan are where the program expects them, with the rights it asked for. */
  ghost predicate Loaded(space: UserSpace, plan: Plan, image: seq<byte>)
    requires space.Valid()
    reads space, space.mem, space.mem.ranges, space.mem.returned, space.ram, space.slots
  {
    && (forall k :: 0 <= k < |plan.segments| ==> FileFits(plan.segments[k], image))
    && forall k, a: nat :: 0 <= k < |plan.segments| && InSegment(plan.segments[k], a) ==>
         space.At(a) == Some(SegmentPage(plan.segments[k], image, a))
  }

  ghost predicate StackLoaded(space: UserSpace, stack: Image)
    requires space.Valid()
    reads space, space.mem, space.mem.ranges, space.mem.returned, space.ram, space.slots
  {
    StackPage(space.At(STACK_TOP - PAGE), stack)
  }

  /** Writes the words of the stack into its top page; the segments stay as they are. */
  method WriteStack(space: UserSpace, image: seq<byte>, plan: Plan, stack: Image)
    requires space.Valid() && space.root.Some? && GoodPlan(plan) && Loaded(space, plan, image)
    requires space.At(STACK_TOP - PAGE) == Some(Page(USER_RW, Stack, ZeroPage()))
    requires STACK_TOP - PAGE <= stack.pointer && stack.pointer + 8 * stack.wordCount <= STACK_TOP
    requires stack.wordCount <= |stack.words|
    modifies space.ram
    ensures space.Valid() && space.State() == old(space.State())
    ensures Loaded(space, plan, image) && StackLoaded(space, stack)
  {
    var words := stack.words[..stack.wordCount];
    var loaded := space.LoadWords(stack.pointer, words);
    if loaded.Err? {
      StackIsWritable(space, stack.pointer, 8 * stack.wordCount);
      assert false;
    }
    forall k, a: nat | 0 <= k < |plan.segments| && InSegment(plan.segments[k], a)
      ensures space.At(a) == Some(SegmentPage(plan.segments[k], image, a))
    {
      StackWritesElsewhere(old(space.At(a)), space.At(a), a, stack.pointer, WordBytes(words));
    }
  }

  lemma StackIsWritable(space: UserSpace, pointer: nat, count: nat)
    requires space.Valid() && space.root.Some? && space.At(STACK_TOP - PAGE).Some?
    requires STACK_TOP - PAGE <= pointer && pointer + count <= STACK_TOP
    ensures !Unwritable(space.State(), pointer, count)
  {
    forall b: nat | pointer <= b < pointer + count ensures SlotOf(space.State().slots, AlignDown(b)).Some? {
      AlignDownFacts(b);
      assert AlignDown(b) == STACK_TOP - PAGE;
    }
  }

  /** Maps the stack; the segments stay as they are. */
  method MapStackBooked(space: UserSpace, image: Option<seq<byte>>, plan: Plan, ghost before: Pool)
    returns (r: Result<(), AddressSpace.Error>)
    requires Booked(space, before) && GoodPlan(plan)
    requires image.Some? ==> AllFit(plan, image.value) && Shows(space, plan.segments, image.value, |plan.segments|)
    modifies space, space.slots, space.mem, space.mem.returned, space.ram
    ensures Booked(space, before)
    ensures r.Ok? == AddressSpace.MapStack(old(space.State()), old(space.mem.Stock())).result.Ok?
    ensures r.Ok? && image.Some? ==>
              Loaded(space, plan, image.value) && space.At(STACK_TOP - PAGE) == Some(Page(USER_RW, Stack, ZeroPage()))
  {
    MadeStack(before, space.State(), space.mem.Stock());
    r := space.MapStack();
    if r.Ok? && image.Some? {
      forall k, a: nat | 0 <= k < |plan.segments| && InSegment(plan.segments[k], a)
        ensures space.At(a) == Some(SegmentPage(plan.segments[k], image.value, a))
      {
        ExpectedOf(plan.segments, image.value, |plan.segments|, k, a);
      }
    }
  }

  /** Maps the stack and, given an image, writes its words. */
  method LoadStack(space: UserSpace, image: Option<seq<byte>>, plan: Plan,
                   arguments: seq<seq<byte>>, environment: seq<seq<byte>>, ghost before: Pool)
    returns (r: Result<Image, LoadError>)
    requires Booked(space, before) && GoodPlan(plan)
    requires image.Some? ==> AllFit(plan, image.value) && Shows(space, plan.segments, image.value, |plan.segments|)
    modifies space, space.slots, space.mem, space.mem.returned, space.ram
    ensures r.Ok? <==> && AddressSpace.MapStack(old(space.State()), old(space.mem.Stock())).result.Ok?
                       && InitialStack.Accepted(STACK_TOP, arguments, environment)
    ensures r.Ok? ==> Booked(space, before)
    ensures r.Ok? ==> Faithful(r.value, plan.entry, STACK_TOP, arguments, environment)
    ensures r.Ok? && image.Some? ==> Loaded(space, plan, image.value) && StackLoaded(space, r.value)
    ensures r.Err? ==> r.error != BadState && Settled(space.mem, before)
  {
    var mapped := MapStackBooked(space, image, plan, before);
    if mapped.Err? {
      GiveUp(space, before);
      return Err(BadSpace(mapped.error));
    }
    var built := Build(plan.entry, STACK_TOP, arguments, environment);
    if built.Err? {
      GiveUp(space, before);
      return Err(BadStack(built.error));
    }
    if image.Some? {
      WriteStack(space, image.value, plan, built.value);
    }
    return Ok(built.value);
  }

  lemma StackWritesElsewhere(before: Option<Page>, after: Option<Page>, a: nat, pointer: nat, bytes: seq<byte>)
    requires a % PAGE == 0 && a != STACK_TOP - PAGE && before.Some? && |before.value.bytes| == PAGE
    requires STACK_TOP - PAGE <= pointer && pointer + |bytes| <= STACK_TOP
    requires WrittenPage(before, after, a, pointer, bytes)
    ensures after == before
  {
    assert a + PAGE <= STACK_TOP - PAGE || STACK_TOP <= a;
    assert after.value.bytes == before.value.bytes;
  }

  /** With all segments loaded the space is one made from `before`. */
  lemma LoadedIsBooked(space: UserSpace, image: Option<seq<byte>>, plan: Plan, path: seq<Step<()>>, before: Pool)
    requires Course(path, plan, before) && Loading(space, image, plan, |plan.segments|, path)
    ensures Booked(space, before)
  {
    PathAt(path, before, plan.segments, |plan.segments|, |plan.segments|);
    ThroughIsMade(before, plan.segments, |plan.segments|);
  }

  /** The segments, and what they leave for the stack. */
  method LoadSegmentsBooked(space: UserSpace, image: Option<seq<byte>>, plan: Plan,
                            ghost path: seq<Step<()>>, ghost before: Pool)
    returns (r: Result<nat, LoadError>)
    requires Course(path, plan, before) && Loading(space, image, plan, 0, path)
    modifies space, space.slots, space.mem, space.mem.returned, space.ram
    ensures r.Ok? <==> LoadsOn(path, plan, image)
    ensures r == Err(BadState) <==> LosesOn(path, plan, image)
    ensures r.Ok? ==> Booked(space, before) && EndsAt(plan.segments, r.value) && r.value <= USER_LIMIT
    ensures r.Ok? ==> path[|plan.segments|].space == space.State() && path[|plan.segments|].pool == space.mem.Stock()
    ensures r.Ok? && image.Some? ==>
              AllFit(plan, image.value) && Shows(space, plan.segments, image.value, |plan.segments|)
    ensures r.Err? ==> Refused(space, r.error, before)
  {
    r := LoadSegments(space, image, plan, path, before);
    if r.Ok? {
      LoadedIsBooked(space, image, plan, path, before);
    }
  }

  /** The segments, then the stack. */
  method LoadAll(space: UserSpace, image: Option<seq<byte>>, plan: Plan, arguments: seq<seq<byte>>,
                 environment: seq<seq<byte>>, ghost path: seq<Step<()>>, ghost before: Pool)
    returns (r: Result<(Image, nat), LoadError>)
    requires Course(path, plan, before) && Loading(space, image, plan, 0, path)
    modifies space, space.slots, space.mem, space.mem.returned, space.ram
    ensures r == Err(BadState) <==> LosesOn(path, plan, image)
    ensures r.Ok? <==> && LoadsOn(path, plan, image)
                       && AddressSpace.MapStack(path[|plan.segments|].space, path[|plan.segments|].pool).result.Ok?
                       && InitialStack.Accepted(STACK_TOP, arguments, environment)
    ensures r.Ok? ==> Booked(space, before)
    ensures r.Ok? ==> Faithful(r.value.0, plan.entry, STACK_TOP, arguments, environment)
    ensures r.Ok? ==> r.value.1 % PAGE == 0 && EndsAt(plan.segments, r.value.1)
    ensures r.Ok? && image.Some? ==> Loaded(space, plan, image.value) && StackLoaded(space, r.value.0)
    ensures r.Err? ==> Refused(space, r.error, before)
  {
    var loaded := LoadSegmentsBooked(space, image, plan, path, before);
    if loaded.Err? {
      return Err(loaded.error);
    }
    r := LoadRest(space, image, plan, arguments, environment, loaded.value, before);
  }

  /** The stack, and the start of the heap behind the segments. */
  method LoadRest(space: UserSpace, image: Option<seq<byte>>, plan: Plan, arguments: seq<seq<byte>>,
                  environment: seq<seq<byte>>, end: nat, ghost before: Pool)
    returns (r: Result<(Image, nat), LoadError>)
    requires Booked(space, before) && GoodPlan(plan) && EndsAt(plan.segments, end) && end <= USER_LIMIT
    requires image.Some? ==> AllFit(plan, image.value) && Shows(space, plan.segments, image.value, |plan.segments|)
    modifies space, space.slots, space.mem, space.mem.returned, space.ram
    ensures r.Ok? <==> && AddressSpace.MapStack(old(space.State()), old(space.mem.Stock())).result.Ok?
                       && InitialStack.Accepted(STACK_TOP, arguments, environment)
    ensures r.Ok? ==> Booked(space, before) && Faithful(r.value.0, plan.entry, STACK_TOP, arguments, environment)
    ensures r.Ok? ==> r.value.1 == end && end % PAGE == 0
    ensures r.Ok? && image.Some? ==> Loaded(space, plan, image.value) && StackLoaded(space, r.value.0)
    ensures r.Err? ==> r.error != BadState && Settled(space.mem, before)
  {
    var stack := LoadStack(space, image, plan, arguments, environment, before);
    if stack.Err? {
      return Err(stack.error);
    }
    var heapNext := HeapStart(plan, end);
    return Ok((stack.value, heapNext));
  }

  /** The first page boundary behind the segments; user addresses leave room for it. */
  method HeapStart(ghost plan: Plan, end: nat) returns (heapNext: nat)
    requires GoodPlan(plan) && EndsAt(plan.segments, end) && end <= USER_LIMIT
    ensures heapNext == end && end % PAGE == 0
  {
    SegmentsEndOnPages(plan, end);
    DivisionUnique(end + (PAGE - 1), PAGE, end / PAGE, PAGE - 1);
    return PageUp(end).value;
  }

  lemma SegmentsEndOnPages(plan: Plan, end: nat)
    requires GoodPlan(plan) && EndsAt(plan.segments, end)
    ensures end % PAGE == 0
  {
  }

  /** What a refusal leaves of the frames: all are waiting again, or some are lost. */
  ghost predicate Returned(before: Pool, after: Pool, loses: bool) {
    && GoodPool(after)
    && if loses then (exists lost :: lost != {} && Conserves(before, after, lost)) && !Conserves(before, after, {})
       else Conserves(before, after, {})
  }

  lemma RefusedConserves(space: UserSpace, error: LoadError, before: Pool)
    requires GoodPool(before) && Create(before).result.Ok? && Refused(space, error, before)
    ensures Returned(before, space.mem.Stock(), error == BadState)
  {
    var after := space.mem.Stock();
    if error == BadState {
      MadeConserves(before, space.State(), after);
      if Conserves(before, after, {}) {
        BooksAreClear(before, after, {}, Held(space.State()));
      }
    } else {
      GivenUpConserves(before, after);
    }
  }

  /** A new space, empty; without a frame for its root it is of no use. */
  method NewSpace(mem: Memory, ram: Ram) returns (space: UserSpace)
    requires mem.Valid() && GoodPool(mem.Stock())
    modifies mem
    ensures fresh(space) && fresh(space.slots) && space.mem == mem && space.ram == ram
    ensures space.Valid() && forall a: nat :: space.At(a) == None
    ensures space.State() == Create(old(mem.Stock())).space && mem.Stock() == Create(old(mem.Stock())).pool
    ensures space.root.Some? == Create(old(mem.Stock())).result.Ok?
    ensures space.root.None? ==> Returned(old(mem.Stock()), mem.Stock(), false)
  {
    ghost var before := mem.Stock();
    space := new UserSpace(mem, ram);
    if space.root.None? {
      NotMade(before);
    }
  }

  /** A new space stands at the start of the path. */
  lemma PathStarts(space: UserSpace, image: Option<seq<byte>>, plan: Plan, before: Pool)
    requires space.Valid() && GoodPlan(plan) && Create(before).result.Ok? && forall a: nat :: space.At(a) == None
    requires space.State() == Create(before).space && space.mem.Stock() == Create(before).pool
    ensures var path := PathOf(before, plan.segments);
            Course(path, plan, before) && Loading(space, image, plan, 0, path)
  {
    PathAt(PathOf(before, plan.segments), before, plan.segments, |plan.segments|, 0);
  }

  /** What a program is promised: its segments, its stack, and where its heap starts. */
  ghost predicate Prepared(space: UserSpace, plan: Plan, image: Option<seq<byte>>,
                           arguments: seq<seq<byte>>, environment: seq<seq<byte>>, stack: Image, heapNext: nat)
    reads space, space.mem, space.mem.ranges, space.mem.returned, space.ram, space.slots
  {
    && space.Valid()
    && InitialStack.Accepted(STACK_TOP, arguments, environment)
    && Faithful(stack, plan.entry, STACK_TOP, arguments, environment)
    && heapNext % PAGE == 0 && EndsAt(plan.segments, heapNext)
    && (image.Some? ==> Loaded(space, plan, image.value) && StackLoaded(space, stack))
  }

  method PrepareSpace(mem: Memory, ram: Ram, image: Option<seq<byte>>, plan: Plan,
                      arguments: seq<seq<byte>>, environment: seq<seq<byte>>)
    returns (space: UserSpace, r: Result<(Image, nat), LoadError>)
    requires mem.Valid() && GoodPool(mem.Stock()) && GoodPlan(plan)
    modifies mem, mem.returned, ram
    ensures mem.Valid() && fresh(space) && fresh(space.slots) && space.mem == mem && space.ram == ram
    ensures r.Ok? <==> CanPrepare(old(mem.Stock()), plan, image,
                                  InitialStack.Accepted(STACK_TOP, arguments, environment))
    ensures r.Ok? ==> Prepared(space, plan, image, arguments, environment, r.value.0, r.value.1)
    ensures r.Ok? ==> Conserves(old(mem.Stock()), mem.Stock(), Held(space.State()))
    ensures r == Err(BadState) <==> Loses(old(mem.Stock()), plan, image)
    ensures r.Err? ==> Returned(old(mem.Stock()), mem.Stock(), Loses(old(mem.Stock()), plan, image))
  {
    ghost var before := mem.Stock();
    ghost var path := PathOf(before, plan.segments);
    LosesOnPath(path, before, plan, image);
    space := NewSpace(mem, ram);
    if space.root.None? {
      StoppedLosesNothing(before, plan, image, 0);
      return space, Err(BadSpace(NoFrames));
    }
    PathStarts(space, image, plan, before);
    PrepareOnPath(path, before, plan, image, InitialStack.Accepted(STACK_TOP, arguments, environment));
    r := LoadAll(space, image, plan, arguments, environment, path, before);
    if r.Err? {
      RefusedConserves(space, r.error, before);
    } else {
      MadeConserves(before, space.State(), mem.Stock());
    }
  }

  /** `prepare_internal`. When it succeeds with an image, every segment holds its file contents and
      zeros behind them, with its rights; no later load has disturbed an earlier one. The frames it
      took are the new space's. It answers `BadState`, and loses the frames it took, if and only if
      the image lacks a segment's contents and the pages up to that segment can be mapped; every
      other failure gives all of them back. */
  method Prepare(mem: Memory, ram: Ram, image: Option<seq<byte>>, plan: Plan,
                 arguments: seq<seq<byte>>, environment: seq<seq<byte>>)
    returns (r: Result<NativeRuntime, LoadError>)
    requires mem.Valid() && GoodPool(mem.Stock()) && GoodPlan(plan)
    modifies mem, mem.returned, ram
    ensures mem.Valid()
    ensures r.Ok? <==> CanPrepare(old(mem.Stock()), plan, image,
                                  InitialStack.Accepted(STACK_TOP, arguments, environment))
    ensures r.Ok? ==>
              && var run := r.value;
              && run.entry == plan.entry
              && Prepared(run.space, plan, image, arguments, environment, run.stack, run.heapNext)
              && Conserves(old(mem.Stock()), mem.Stock(), Held(run.space.State()))
    ensures r == Err(BadState) <==> Loses(old(mem.Stock()), plan, image)
    ensures r.Err? ==> Returned(old(mem.Stock()), mem.Stock(), Loses(old(mem.Stock()), plan, image))
  {
    var space, loaded := PrepareSpace(mem, ram, image, plan, arguments, environment);
    if loaded.Err? {
      return Err(loaded.error);
    }
    label done:
    var runtime := new NativeRuntime(space, loaded.value.0, plan.entry, loaded.value.1);
    assert mem.Stock() == old@done(mem.Stock()) && space.State() == old@done(space.State());
    return Ok(runtime);
  }

  /** So preparing it answers `BadState` and does not give the frames back. */
  method PrepareWithoutContents(mem: Memory, ram: Ram) returns (r: Result<NativeRuntime, LoadError>)
    requires mem.Valid() && mem.Stock() == TwoFrames()
    modifies mem, mem.returned, ram
    ensures mem.Valid() && r == Err(BadState) && !Conserves(TwoFrames(), mem.Stock(), {})
  {
    EmptyImageLoses();
    r := Prepare(mem, ram, Some([]), OnePagePlan(), [], []);
  }
}
