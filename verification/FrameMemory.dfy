/** The physical frame allocator of `src/memory.rs`.

    A memory map is carved into ranges of free pages; frames are then handed out in ascending order,
    returned ones first. `Memory` is the allocator's static state with the loops that change it.
 */
module FrameMemory {
  import opened Common

  const MAX_RANGES := 64
  const MAX_RETURNED := 128
  const PAGE := 4096
  const MIN_FRAME := 0x10_0000

  datatype Region = Region(base: nat, length: nat)

  datatype Range = Range(start: nat, pages: nat)

  type u64 = x: nat | x < U64_LIMIT

  /** The source's saturating end of a range. */
  function End(r: Range): nat { Saturate(r.start + Saturate(r.pages * PAGE)) }

  function AlignDown(n: nat): nat { n - n % PAGE }

  /** Rounds up; past the last page boundary of the address space it answers that boundary. */
  function AlignUp(n: nat): nat {
    if n + (PAGE - 1) < U64_LIMIT then AlignDown(n + (PAGE - 1)) else U64_LIMIT - PAGE
  }

  // ------------------------------------------------------------------ which pages are free

  /** A reserved range overlaps the page at `p`. Ranges that wrap around are ignored. */
  predicate Touches(r: Region, p: nat) {
    r.base + r.length < U64_LIMIT && r.base < p + PAGE && p < r.base + r.length
  }

  /** What `add_available` should record: a page of the region, above 1 MiB, that nothing reserves. */
  predicate FreePage(region: Region, reserved: seq<Region>, p: nat) {
    && p % PAGE == 0 && MIN_FRAME <= p
    && region.base <= p && p + PAGE <= region.base + region.length < U64_LIMIT
    && forall i :: 0 <= i < |reserved| ==> !Touches(reserved[i], p)
  }

  predicate Covers(r: Range, p: nat) { p % PAGE == 0 && r.start <= p < r.start + r.pages * PAGE }

  predicate Recorded(ranges: seq<Range>, p: nat) {
    exists i :: 0 <= i < |ranges| && Covers(ranges[i], p)
  }

  /** A recorded range is a non-empty run of whole pages below the top of the address space. */
  predicate GoodRange(r: Range) {
    && r.start % PAGE == 0 && MIN_FRAME <= r.start && 1 <= r.pages && r.start + r.pages * PAGE < U64_LIMIT
  }

  function TotalPages(ranges: seq<Range>): nat {
    if ranges == [] then 0 else TotalPages(ranges[..|ranges| - 1]) + ranges[|ranges| - 1].pages
  }

  // ------------------------------------------------------------------ carving lemmas

  lemma AlignDownFacts(n: nat)
    ensures AlignDown(n) % PAGE == 0 && AlignDown(n) <= n < AlignDown(n) + PAGE
  {
  }

  lemma AlignUpFacts(n: nat, end: nat)
    requires n <= end < U64_LIMIT && end % PAGE == 0
    ensures AlignUp(n) % PAGE == 0 && n <= AlignUp(n) <= end
    ensures forall p: nat :: p % PAGE == 0 && p < AlignUp(n) ==> p < n
    ensures n % PAGE == 0 ==> AlignUp(n) == n
  {
    var q, r, e := n / PAGE, n % PAGE, end / PAGE;
    if r == 0 {
      DivisionUnique(n + PAGE - 1, PAGE, q, PAGE - 1);
    } else {
      DivisionUnique(n + PAGE - 1, PAGE, q + 1, r - 1);
      if e <= q {
        MulLe(e, q, PAGE);
      } else {
        MulLe(q + 1, e, PAGE);
      }
    }
  }

  /** Nothing reserved begins or continues on a page below the next reserved base. */
  lemma UncoveredPagesAreFree(reserved: seq<Region>, cursor: nat, next: nat, p: nat)
    requires cursor <= p && p + PAGE <= next
    requires forall i :: 0 <= i < |reserved| ==> Clears(reserved[i], cursor, next)
    ensures forall i :: 0 <= i < |reserved| ==> !Touches(reserved[i], p)
  {
  }

  /** The range ends at or before the cursor, or begins at or after `next`, or is ignored. */
  predicate Clears(r: Region, cursor: nat, next: nat) {
    r.base + r.length >= U64_LIMIT || r.base + r.length <= cursor || next <= r.base
  }

  predicate Covering(r: Region, cursor: nat, covered: nat) {
    r.base <= cursor && covered <= r.base + r.length < U64_LIMIT
  }

  lemma CoveredPageIsTouched(reserved: seq<Region>, i: nat, cursor: nat, covered: nat, p: nat)
    requires i < |reserved| && Covering(reserved[i], cursor, covered) && cursor <= p < covered
    ensures Touches(reserved[i], p)
  {
  }

  lemma RecordedAppend(ranges: seq<Range>, r: Range, p: nat)
    ensures Recorded(ranges + [r], p) <==> Recorded(ranges, p) || Covers(r, p)
  {
    var all := ranges + [r];
    if Recorded(ranges, p) {
      var i :| 0 <= i < |ranges| && Covers(ranges[i], p);
      assert all[i] == ranges[i];
    }
    if Covers(r, p) {
      assert all[|ranges|] == r;
    }
    if Recorded(all, p) {
      var i :| 0 <= i < |all| && Covers(all[i], p);
      assert i < |ranges| ==> all[i] == ranges[i];
    }
  }

  lemma CoversJoin(a: Range, b: Range, p: nat)
    requires a.start + a.pages * PAGE == b.start
    ensures Covers(Range(a.start, a.pages + b.pages), p) <==> Covers(a, p) || Covers(b, p)
  {
  }

  // ------------------------------------------------------------------ handing out frames

  /** The part of the allocator that frames come from and go back to. */
  datatype Pool = Pool(ranges: seq<Range>, nextRange: nat, nextFrame: nat, returned: seq<nat>)

  datatype Alloc = Alloc(frame: Option<nat>, pool: Pool)

  /** Returned frames are reused first, newest first. */
  function TakeFrame(p: Pool): Alloc {
    if p.returned != [] then
      Alloc(Some(p.returned[|p.returned| - 1]), p.(returned := p.returned[..|p.returned| - 1]))
    else FreshFrame(p)
  }

  function FreshFrame(p: Pool): Alloc
    decreases |p.ranges| - p.nextRange
  {
    if p.nextRange >= |p.ranges| then Alloc(None, p)
    else
      var r := p.ranges[p.nextRange];
      var frame := if p.nextFrame == 0 || p.nextFrame < r.start then r.start else p.nextFrame;
      if frame < End(r) then Alloc(Some(frame), p.(nextFrame := frame + PAGE))
      else FreshFrame(p.(nextRange := p.nextRange + 1, nextFrame := frame))
  }

  /** `free_frame` refuses frames it could not have issued, duplicates, and a full return stack. */
  predicate CanReturn(p: Pool, frame: nat) {
    MIN_FRAME <= frame && frame % PAGE == 0 && |p.returned| < MAX_RETURNED && frame !in p.returned
  }

  /** A frame the allocator has issued at some time. */
  predicate Issued(p: Pool, frame: nat) {
    frame % PAGE == 0 && MIN_FRAME <= frame && frame + PAGE <= p.nextFrame
  }

  ghost predicate NoRepeats(s: seq<nat>) {
    forall i, j :: 0 <= i < j < |s| ==> s[i] != s[j]
  }

  ghost predicate GoodPool(p: Pool) {
    && (forall i :: 0 <= i < |p.ranges| ==> GoodRange(p.ranges[i]))
    && p.nextFrame % PAGE == 0
    && (p.nextFrame == 0 || MIN_FRAME <= p.nextFrame)
    && |p.returned| <= MAX_RETURNED && NoRepeats(p.returned)
    && forall i :: 0 <= i < |p.returned| ==> Issued(p, p.returned[i])
  }

  /** A fresh frame is a recorded page, at or above every frame issued before, whatever the order
      of the ranges and however they overlap. */
  lemma {:induction false} FreshFrameRises(p: Pool)
    requires GoodPool(p)
    ensures var a := FreshFrame(p);
            && GoodPool(a.pool) && p.nextFrame <= a.pool.nextFrame
            && a.pool.ranges == p.ranges && a.pool.returned == p.returned
            && (a.frame.Some? ==>
                  && p.nextFrame <= a.frame.value && a.pool.nextFrame == a.frame.value + PAGE
                  && Issued(a.pool, a.frame.value) && Recorded(p.ranges, a.frame.value))
    decreases |p.ranges| - p.nextRange
  {
    if p.nextRange < |p.ranges| {
      var r := p.ranges[p.nextRange];
      var frame := if p.nextFrame == 0 || p.nextFrame < r.start then r.start else p.nextFrame;
      if frame < End(r) {
        assert Covers(r, frame);
      } else {
        FreshFrameRises(p.(nextRange := p.nextRange + 1, nextFrame := frame));
      }
    }
  }

  /** The frame handed out was not waiting on the return stack of the new pool, and was either
      waiting on the old one or never issued before. */
  lemma TakeFrameFacts(p: Pool)
    requires GoodPool(p)
    ensures var a := TakeFrame(p);
            && GoodPool(a.pool) && p.nextFrame <= a.pool.nextFrame
            && (forall f :: f in a.pool.returned ==> f in p.returned)
            && (a.frame.None? ==> a.pool.returned == p.returned)
            && (a.frame.Some? ==>
                  && Issued(a.pool, a.frame.value) && a.frame.value !in a.pool.returned
                  && (a.frame.value in p.returned || p.nextFrame <= a.frame.value))
  {
    if p.returned == [] {
      FreshFrameRises(p);
    }
  }

  lemma ReturnFacts(p: Pool, frame: nat)
    requires GoodPool(p) && Issued(p, frame) && CanReturn(p, frame)
    ensures GoodPool(p.(returned := p.returned + [frame]))
  {
  }

  // ------------------------------------------------------------------ the allocator's state

  class Memory {
    const ranges: array<Range>
    var rangeCount: nat
    var nextRange: nat
    var nextFrame: nat
    var usable: nat
    var issued: nat
    var skipped: nat
    const returned: array<nat>
    var returnedCount: nat

    ghost predicate Valid()
      reads this, ranges, returned
    {
      && ranges.Length == MAX_RANGES && rangeCount <= MAX_RANGES
      && returned.Length == MAX_RETURNED && returnedCount <= MAX_RETURNED
      && nextRange <= rangeCount
      && (forall i :: 0 <= i < rangeCount ==> GoodRange(ranges[i]))
      && skipped <= U64_MAX && usable == Saturate(TotalPages(ranges[..rangeCount]))
    }

    ghost predicate Has(p: nat)
      reads this, ranges
      requires rangeCount <= ranges.Length
    {
      Recorded(ranges[..rangeCount], p)
    }

    constructor ()
      ensures Valid() && fresh(ranges) && fresh(returned)
      ensures rangeCount == nextRange == nextFrame == skipped == returnedCount == 0
    {
      ranges := new Range[MAX_RANGES](_ => Range(0, 0));
      returned := new nat[MAX_RETURNED](_ => 0);
      rangeCount, nextRange, nextFrame, usable, issued, skipped, returnedCount := 0, 0, 0, 0, 0, 0, 0;
    }

    ghost function Stock(): Pool
      reads this, ranges, returned
      requires Valid()
    {
      Pool(ranges[..rangeCount], nextRange, nextFrame, returned[..returnedCount])
    }

    method AllocFrame() returns (frame: Option<nat>)
      requires Valid()
      modifies this`nextRange, this`nextFrame, this`issued, this`returnedCount
      ensures Valid() && ranges[..] == old(ranges[..]) && rangeCount == old(rangeCount)
      ensures Alloc(frame, Stock()) == TakeFrame(old(Stock()))
    {
      if returnedCount != 0 {
        returnedCount := returnedCount - 1;
        return Some(returned[returnedCount]);
      }
      frame := AllocFresh();
    }

    /** Hands out the next page of the ranges. */
    method AllocFresh() returns (frame: Option<nat>)
      requires Valid() && returnedCount == 0
      modifies this`nextRange, this`nextFrame, this`issued
      ensures Valid()
      ensures Alloc(frame, Stock()) == FreshFrame(old(Stock()))
    {
      while nextRange < rangeCount
        invariant Valid()
        invariant FreshFrame(Stock()) == FreshFrame(old(Stock()))
      {
        var range := ranges[nextRange];
        if nextFrame == 0 || nextFrame < range.start {
          nextFrame := range.start;
        }
        if nextFrame < End(range) {
          frame := Some(nextFrame);
          nextFrame := nextFrame + PAGE;
          issued := Saturate(issued + 1);
          return;
        }
        nextRange := nextRange + 1;
      }
      return None;
    }

    method FreeFrame(frame: nat) returns (ok: bool)
      requires Valid()
      modifies this`returnedCount, returned
      ensures Valid() && ranges[..] == old(ranges[..]) && rangeCount == old(rangeCount)
      ensures ok == CanReturn(old(Stock()), frame)
      ensures Stock() == if ok then old(Stock()).(returned := old(Stock()).returned + [frame]) else old(Stock())
    {
      if frame < MIN_FRAME || frame % PAGE != 0 {
        return false;
      }
      if returnedCount == MAX_RETURNED || frame in returned[..returnedCount] {
        return false;
      }
      returned[returnedCount] := frame;
      returnedCount := returnedCount + 1;
      return true;
    }

    /** Appends a run of pages, merging it into the last range when they are adjacent. */
    method PushRange(start: nat, pages: nat)
      requires Valid() && (pages != 0 ==> GoodRange(Range(start, pages)))
      modifies this`rangeCount, this`usable, this`skipped, ranges
      ensures Valid()
      ensures skipped == old(skipped) || skipped == Saturate(old(skipped) + 1)
      ensures skipped != old(skipped) ==> forall p: nat :: Has(p) == old(Has(p))
      ensures skipped == old(skipped) < U64_MAX ==>
                forall p: nat :: Has(p) <==> old(Has(p)) || Covers(Range(start, pages), p)
      ensures forall p: nat :: Has(p) ==> old(Has(p)) || Covers(Range(start, pages), p)
      ensures forall p: nat :: old(Has(p)) ==> Has(p)
    {
      if pages == 0 {
        return;
      }
      if rangeCount != 0 && End(ranges[rangeCount - 1]) == start {
        MergeLast(Range(start, pages));
      } else if rangeCount < MAX_RANGES {
        AppendRun(Range(start, pages));
      } else {
        skipped := Saturate(skipped + 1);
      }
    }

    method MergeLast(run: Range)
      requires Valid() && GoodRange(run) && rangeCount != 0 && End(ranges[rangeCount - 1]) == run.start
      modifies this`usable, ranges
      ensures Valid()
      ensures forall p: nat :: Has(p) <==> old(Has(p)) || Covers(run, p)
    {
      var last := ranges[rangeCount - 1];
      ghost var before := ranges[..rangeCount];
      ghost var front := before[..rangeCount - 1];
      var merged := Range(last.start, Saturate(last.pages + run.pages));
      MergedRun(front, last, run);
      ranges[rangeCount - 1] := merged;
      usable := Saturate(usable + run.pages);
      assert before == front + [last] && ranges[..rangeCount] == front + [merged];
    }

    method AppendRun(run: Range)
      requires Valid() && GoodRange(run) && rangeCount < MAX_RANGES
      modifies this`rangeCount, this`usable, ranges
      ensures Valid()
      ensures forall p: nat :: Has(p) <==> old(Has(p)) || Covers(run, p)
    {
      ghost var before := ranges[..rangeCount];
      forall p: nat ensures Recorded(before + [run], p) <==> Recorded(before, p) || Covers(run, p) {
        RecordedAppend(before, run, p);
      }
      ranges[rangeCount] := run;
      rangeCount := rangeCount + 1;
      usable := Saturate(usable + run.pages);
      assert ranges[..rangeCount] == before + [run];
    }

    /** The inner scan over the reserved ranges: how far the cursor is covered, or how far free. */
    method FindGap(reserved: seq<Region>, cursor: nat, end: nat) returns (next: nat, covered: nat)
      requires cursor < end
      ensures cursor < next <= end && cursor <= covered <= end
      ensures covered == cursor ==> forall i :: 0 <= i < |reserved| ==> Clears(reserved[i], cursor, next)
      ensures covered > cursor ==> exists i :: 0 <= i < |reserved| && Covering(reserved[i], cursor, covered)
      ensures next < end ==> exists i :: 0 <= i < |reserved| && reserved[i].base == next
                                         && next <= reserved[i].base + reserved[i].length < U64_LIMIT
    {
      next, covered := end, cursor;
      for k := 0 to |reserved|
        invariant cursor < next <= end && cursor <= covered <= end
        invariant covered == cursor ==> forall i :: 0 <= i < k ==> Clears(reserved[i], cursor, next)
        invariant covered > cursor ==> exists i :: 0 <= i < k && Covering(reserved[i], cursor, covered)
        invariant next < end ==> exists i :: 0 <= i < k && reserved[i].base == next
                                             && next <= reserved[i].base + reserved[i].length < U64_LIMIT
      {
        var r := reserved[k];
        var stop := r.base + r.length;
        if stop >= U64_LIMIT || stop <= cursor || r.base >= end {
          continue;
        }
        if r.base <= cursor {
          covered := Max(covered, Min(stop, end));
        } else {
          next := Min(next, r.base);
        }
      }
    }

    /** The free pages between the two cursors have been added, and nothing else. */
    twostate predicate Added(region: Region, reserved: seq<Region>, from: nat, to: nat)
      requires old(rangeCount) <= ranges.Length && rangeCount <= ranges.Length
      reads this, ranges
    {
      && old(skipped) <= skipped
      && (forall p: nat :: old(Has(p)) ==> Has(p))
      && (forall p: nat :: Has(p) ==> old(Has(p)) || (FreePage(region, reserved, p) && from <= p < to))
      && (skipped == old(skipped) < U64_MAX ==>
            forall p: nat :: FreePage(region, reserved, p) && from <= p < to ==> Has(p))
    }

    /** One turn of the carving loop: the cursor moves past a covered, a free or a broken run. */
    method Carve(region: Region, reserved: seq<Region>, cursor: nat, end: nat) returns (after: nat)
      requires Valid() && cursor % PAGE == 0 && end % PAGE == 0 && Max(region.base, MIN_FRAME) <= cursor < end
      requires end <= region.base + region.length < U64_LIMIT
      modifies this`rangeCount, this`usable, this`skipped, ranges
      ensures Valid() && cursor < after <= end && after % PAGE == 0
      ensures Added(region, reserved, cursor, after)
    {
      var next, covered := FindGap(reserved, cursor, end);
      if covered > cursor {
        AlignUpFacts(covered, end);
        CoveredRunIsNotFree(region, reserved, cursor, covered);
        return AlignUp(covered);
      }
      after := CarveGap(region, reserved, cursor, next, end);
    }

    /** Takes the pages up to the next reserved range, or steps over one that is cut short. */
    method CarveGap(region: Region, reserved: seq<Region>, cursor: nat, next: nat, end: nat) returns (after: nat)
      requires Valid() && cursor % PAGE == 0 && end % PAGE == 0 && Max(region.base, MIN_FRAME) <= cursor < end
      requires end <= region.base + region.length < U64_LIMIT
      requires cursor < next <= end && forall i :: 0 <= i < |reserved| ==> Clears(reserved[i], cursor, next)
      requires next < end ==> exists i :: 0 <= i < |reserved| && reserved[i].base == next
                                          && next <= reserved[i].base + reserved[i].length < U64_LIMIT
      modifies this`rangeCount, this`usable, this`skipped, ranges
      ensures Valid() && cursor < after <= end && after % PAGE == 0
      ensures Added(region, reserved, cursor, after)
    {
      var available := AlignDown(next);
      AlignDownFacts(next);
      AlignUpFacts(Max(available, cursor + PAGE), end);
      if available > cursor {
        PushFree(region, reserved, cursor, next);
      } else {
        FirstPageIsNotFree(region, reserved, cursor, next, end);
        OnlyFirstPage(region, reserved, cursor);
      }
      return AlignUp(Max(available, cursor + PAGE));
    }

    method PushFree(region: Region, reserved: seq<Region>, cursor: nat, next: nat)
      requires Valid() && cursor % PAGE == 0 && Max(region.base, MIN_FRAME) <= cursor < AlignDown(next)
      requires next <= region.base + region.length < U64_LIMIT
      requires forall i :: 0 <= i < |reserved| ==> Clears(reserved[i], cursor, next)
      modifies this`rangeCount, this`usable, this`skipped, ranges
      ensures Valid()
      ensures Added(region, reserved, cursor, AlignDown(next))
    {
      FreeRun(region, reserved, cursor, next);
      PushRange(cursor, (AlignDown(next) - cursor) / PAGE);
    }

    /** Carves one region of the memory map. The pages recorded are exactly the free ones, unless
        the range table had no room for one of the runs. */
    method AddAvailable(region: Region, reserved: seq<Region>)
      requires Valid() && region.base < U64_LIMIT && region.length < U64_LIMIT
      modifies this`rangeCount, this`usable, this`skipped, ranges
      ensures Valid()
      ensures forall p: nat :: old(Has(p)) ==> Has(p)
      ensures forall p: nat :: Has(p) ==> old(Has(p)) || FreePage(region, reserved, p)
      ensures old(skipped) <= skipped
      ensures skipped == old(skipped) < U64_MAX ==>
                forall p: nat :: Has(p) <==> old(Has(p)) || FreePage(region, reserved, p)
    {
      if region.base + region.length >= U64_LIMIT {
        skipped := Saturate(skipped + 1);
        return;
      }
      var start := Max(region.base, MIN_FRAME);
      if start >= region.base + region.length {
        return;
      }
      var cursor := AlignUp(start);
      var end := AlignDown(region.base + region.length);
      if cursor >= end {
        forall p: nat ensures !FreePage(region, reserved, p) {
          if FreePage(region, reserved, p) {
            FreeSpan(region, reserved, p);
          }
        }
        return;
      }
      AlignUpFacts(start, end);
      forall p: nat | FreePage(region, reserved, p) ensures cursor <= p < end { FreeSpan(region, reserved, p); }
      CarveAll(region, reserved, cursor, end);
    }

    method CarveAll(region: Region, reserved: seq<Region>, start: nat, end: nat)
      requires Valid() && start % PAGE == 0 && end % PAGE == 0 && Max(region.base, MIN_FRAME) <= start < end
      requires end <= region.base + region.length < U64_LIMIT
      modifies this`rangeCount, this`usable, this`skipped, ranges
      ensures Valid()
      ensures Added(region, reserved, start, end)
    {
      var cursor := start;
      while cursor < end
        invariant Valid() && cursor % PAGE == 0 && start <= cursor <= end
        invariant Added(region, reserved, start, cursor)
        decreases end - cursor
      {
        cursor := Carve(region, reserved, cursor, end);
      }
    }

    /** Empties the allocator and carves the whole memory map. */
    method Init(map_: seq<Region>, reserved: seq<Region>)
      requires Valid()
      requires forall i :: 0 <= i < |map_| ==> map_[i].base < U64_LIMIT && map_[i].length < U64_LIMIT
      modifies this, ranges
      ensures Valid() && GoodPool(Stock()) && nextFrame == 0 && returnedCount == 0
      ensures forall p: nat :: Has(p) ==> exists i :: 0 <= i < |map_| && FreePage(map_[i], reserved, p)
      ensures skipped == 0 ==>
                forall p: nat :: Has(p) <==> exists i :: 0 <= i < |map_| && FreePage(map_[i], reserved, p)
    {
      rangeCount, nextRange, nextFrame, usable, issued, skipped, returnedCount := 0, 0, 0, 0, 0, 0, 0;
      for k := 0 to |map_|
        invariant Valid() && nextFrame == 0 && returnedCount == 0
        invariant forall p: nat :: Has(p) ==> exists i :: 0 <= i < k && FreePage(map_[i], reserved, p)
        invariant skipped == 0 ==>
                    forall p: nat :: (exists i :: 0 <= i < k && FreePage(map_[i], reserved, p)) ==> Has(p)
      {
        AddAvailable(map_[k], reserved);
      }
    }
  }

  /** A free page lies between the rounded ends of its region. */
  lemma FreeSpan(region: Region, reserved: seq<Region>, p: nat)
    requires FreePage(region, reserved, p)
    ensures AlignUp(Max(region.base, MIN_FRAME)) <= p < AlignDown(region.base + region.length)
  {
    AlignDownFacts(region.base + region.length);
    AlignUpFacts(Max(region.base, MIN_FRAME), p);
  }

  /** Two adjacent runs, joined, cover what they covered. */
  lemma MergedRun(front: seq<Range>, last: Range, run: Range)
    requires GoodRange(last) && GoodRange(run) && End(last) == run.start
    ensures var merged := Range(last.start, Saturate(last.pages + run.pages));
            && GoodRange(merged) && merged.pages == last.pages + run.pages
            && forall p: nat :: Recorded(front + [merged], p) <==> Recorded(front + [last], p) || Covers(run, p)
  {
    var merged := Range(last.start, last.pages + run.pages);
    forall p: nat ensures Recorded(front + [merged], p) <==> Recorded(front + [last], p) || Covers(run, p) {
      RecordedAppend(front, last, p);
      RecordedAppend(front, merged, p);
      CoversJoin(last, run, p);
    }
  }

  lemma CoveredRunIsNotFree(region: Region, reserved: seq<Region>, cursor: nat, covered: nat)
    requires cursor % PAGE == 0
    requires exists i :: 0 <= i < |reserved| && Covering(reserved[i], cursor, covered)
    ensures forall p: nat :: cursor <= p < covered ==> !FreePage(region, reserved, p)
  {
    var i :| 0 <= i < |reserved| && Covering(reserved[i], cursor, covered);
    forall p: nat | cursor <= p < covered ensures !FreePage(region, reserved, p) {
      CoveredPageIsTouched(reserved, i, cursor, covered, p);
    }
  }

  lemma FirstPageIsNotFree(region: Region, reserved: seq<Region>, cursor: nat, next: nat, end: nat)
    requires cursor < next < cursor + PAGE && next < end
    requires next < end ==> exists i :: 0 <= i < |reserved| && reserved[i].base == next
                                        && next <= reserved[i].base + reserved[i].length < U64_LIMIT
    ensures !FreePage(region, reserved, cursor)
  {
    var i :| 0 <= i < |reserved| && reserved[i].base == next
             && next <= reserved[i].base + reserved[i].length < U64_LIMIT;
    assert Touches(reserved[i], cursor);
  }

  lemma OnlyFirstPage(region: Region, reserved: seq<Region>, cursor: nat)
    requires cursor % PAGE == 0 && !FreePage(region, reserved, cursor)
    ensures forall p: nat :: cursor <= p < cursor + PAGE ==> !FreePage(region, reserved, p)
  {
  }

  lemma FreeRun(region: Region, reserved: seq<Region>, cursor: nat, next: nat)
    requires cursor % PAGE == 0 && Max(region.base, MIN_FRAME) <= cursor < AlignDown(next)
    requires next <= region.base + region.length < U64_LIMIT
    requires forall i :: 0 <= i < |reserved| ==> Clears(reserved[i], cursor, next)
    ensures var run := Range(cursor, (AlignDown(next) - cursor) / PAGE);
            && GoodRange(run) && run.start + run.pages * PAGE == AlignDown(next)
            && forall p: nat :: Covers(run, p) <==> FreePage(region, reserved, p) && cursor <= p < AlignDown(next)
  {
    var run := Range(cursor, (AlignDown(next) - cursor) / PAGE);
    forall p: nat ensures Covers(run, p) <==> FreePage(region, reserved, p) && cursor <= p < AlignDown(next) {
      if Covers(run, p) {
        assert p + PAGE <= AlignDown(next);
        UncoveredPagesAreFree(reserved, cursor, next, p);
      }
    }
  }
}
