/** What a load maps, as values, and when it loses the frames it took. */
module LoadPath {
  import opened Common
  import opened FrameMemory
  import opened AddressSpace
  import opened Elf
  import opened FrameAccounts

  /** The image holds all the file contents the segment asks for. */
  predicate FileFits(s: Segment, image: seq<byte>) { s.fileSize == 0 || s.fileOffset + s.fileSize <= |image| }

  function FlagsOf(s: Segment): Flags {
    Flags(true, s.rights.readable, s.rights.writable, s.rights.executable)
  }

  predicate FitUpTo(plan: Plan, image: seq<byte>, count: nat)
    requires count <= |plan.segments|
  {
    forall k :: 0 <= k < count ==> FileFits(plan.segments[k], image)
  }

  predicate AllFit(plan: Plan, image: seq<byte>) { FitUpTo(plan, image, |plan.segments|) }

  /** Creates a space and maps the pages of the first `k` segments. */
  function MapThrough(before: Pool, segments: seq<Segment>, k: nat): Step<()>
    requires k <= |segments|
  {
    if k == 0 then
      var c := Create(before);
      Step(if c.result.Ok? then Ok(()) else Err(c.result.error), c.space, c.pool)
    else
      var m, s := MapThrough(before, segments, k - 1), segments[k - 1];
      if m.result.Err? then m else MapPages(m.space, m.pool, s.start, s.end, FlagsOf(s))
  }

  // ------------------------------------------------------------------ when frames are lost

  /** Segment `k` is the first whose contents the image lacks. */
  predicate FirstUnfit(plan: Plan, image: seq<byte>, k: nat) {
    k < |plan.segments| && !FileFits(plan.segments[k], image) && FitUpTo(plan, image, k)
  }

  /** The image lacks the contents of some segment, and the pages up to and with it can be mapped. */
  ghost predicate Loses(before: Pool, plan: Plan, image: Option<seq<byte>>) {
    image.Some? && exists k: nat ::
      FirstUnfit(plan, image.value, k) && MapThrough(before, plan.segments, k + 1).result.Ok?
  }

  lemma {:induction false} MapThroughStops(before: Pool, segments: seq<Segment>, k: nat, j: nat)
    requires k <= j <= |segments| && MapThrough(before, segments, k).result.Err?
    ensures MapThrough(before, segments, j).result.Err?
    decreases j
  {
    if k < j {
      MapThroughStops(before, segments, k, j - 1);
    }
  }

  /** Pages that cannot be mapped before a lack is noticed keep it from being noticed. */
  lemma StoppedLosesNothing(before: Pool, plan: Plan, image: Option<seq<byte>>, k: nat)
    requires k <= |plan.segments| && MapThrough(before, plan.segments, k).result.Err?
    requires image.Some? && k > 0 ==> FitUpTo(plan, image.value, k - 1)
    ensures !Loses(before, plan, image)
  {
    if image.Some? {
      forall j: nat | FirstUnfit(plan, image.value, j) ensures MapThrough(before, plan.segments, j + 1).result.Err? {
        MapThroughStops(before, plan.segments, k, j + 1);
      }
    }
  }

  lemma FittingLosesNothing(before: Pool, plan: Plan, image: Option<seq<byte>>)
    requires image.None? || AllFit(plan, image.value)
    ensures !Loses(before, plan, image)
  {
  }

  // ------------------------------------------------------------------ the path of a load

  /** The answers of `MapThrough` one after the other. */
  ghost predicate IsPath(path: seq<Step<()>>, before: Pool, segments: seq<Segment>, k: nat)
    requires k <= |segments| && |path| == |segments| + 1
  {
    path[k] == MapThrough(before, segments, k) && (k > 0 ==> IsPath(path, before, segments, k - 1))
  }

  lemma {:induction false} PathAt(path: seq<Step<()>>, before: Pool, segments: seq<Segment>, j: nat, k: nat)
    requires k <= j <= |segments| && |path| == |segments| + 1 && IsPath(path, before, segments, j)
    ensures path[k] == MapThrough(before, segments, k)
    ensures k < j ==> path[k + 1] == MapThrough(before, segments, k + 1)
    decreases j
  {
    if k < j {
      PathAt(path, before, segments, j - 1, k);
    }
  }

  lemma {:induction false} WholePath(path: seq<Step<()>>, before: Pool, segments: seq<Segment>, k: nat)
    requires k <= |segments| && |path| == |segments| + 1
    requires forall i :: 0 <= i <= |segments| ==> path[i] == MapThrough(before, segments, i)
    ensures IsPath(path, before, segments, k)
  {
    if k > 0 {
      WholePath(path, before, segments, k - 1);
    }
  }

  ghost function PathOf(before: Pool, segments: seq<Segment>): (path: seq<Step<()>>)
    ensures |path| == |segments| + 1 && IsPath(path, before, segments, |segments|)
  {
    var path := seq(|segments| + 1, k requires 0 <= k <= |segments| => MapThrough(before, segments, k));
    WholePath(path, before, segments, |segments|);
    path
  }

  /** `Loses`, read off the path. */
  ghost predicate LosesOn(path: seq<Step<()>>, plan: Plan, image: Option<seq<byte>>)
    requires |path| == |plan.segments| + 1
  {
    image.Some? && exists k: nat :: FirstUnfit(plan, image.value, k) && path[k + 1].result.Ok?
  }

  lemma LosesOnPath(path: seq<Step<()>>, before: Pool, plan: Plan, image: Option<seq<byte>>)
    requires |path| == |plan.segments| + 1 && IsPath(path, before, plan.segments, |plan.segments|)
    ensures LosesOn(path, plan, image) <==> Loses(before, plan, image)
  {
    if image.Some? {
      forall k: nat | FirstUnfit(plan, image.value, k)
        ensures path[k + 1] == MapThrough(before, plan.segments, k + 1)
      {
        PathAt(path, before, plan.segments, |plan.segments|, k);
      }
    }
  }

  lemma {:induction false} PagesAreMade(before: Pool, s: Space, p: Pool, page: nat, end: nat, flags: Flags)
    requires MadeFrom(before, s, p)
    ensures var m := MapPages(s, p, page, end, flags);
            MadeFrom(before, m.space, m.pool) && m.space.root == s.root
    decreases end - page
  {
    if page < end {
      MadeOnePage(before, s, p, page, flags, Anonymous);
      var m := MapPage(s, p, page, flags, Anonymous);
      if m.result.Ok? {
        PagesAreMade(before, m.space, m.pool, page + PAGE, end, flags);
      }
    }
  }

  lemma {:induction false} ThroughIsMade(before: Pool, segments: seq<Segment>, k: nat)
    requires k <= |segments| && Create(before).result.Ok?
    ensures var m := MapThrough(before, segments, k);
            MadeFrom(before, m.space, m.pool) && m.space.root.Some?
  {
    if k == 0 {
      assert Made(before, []) == (Create(before).space, Create(before).pool);
    } else {
      ThroughIsMade(before, segments, k - 1);
      var m, s := MapThrough(before, segments, k - 1), segments[k - 1];
      PagesAreMade(before, m.space, m.pool, s.start, s.end, FlagsOf(s));
    }
  }

  /** Where a load starts from, and the path its mappings will take. */
  ghost predicate Course(path: seq<Step<()>>, plan: Plan, before: Pool) {
    && GoodPlan(plan) && |path| == |plan.segments| + 1
    && IsPath(path, before, plan.segments, |plan.segments|) && Create(before).result.Ok?
  }

  /** One segment along the path. */
  lemma NextOnPath(path: seq<Step<()>>, plan: Plan, before: Pool, k: nat)
    requires Course(path, plan, before) && k < |plan.segments| && path[k].result.Ok?
    ensures var s := plan.segments[k];
            && path[k + 1] == MapPages(path[k].space, path[k].pool, s.start, s.end, FlagsOf(s))
            && MadeFrom(before, path[k + 1].space, path[k + 1].pool) && path[k + 1].space.root.Some?
  {
    PathAt(path, before, plan.segments, |plan.segments|, k);
    ThroughIsMade(before, plan.segments, k + 1);
  }

  lemma LossDecided(path: seq<Step<()>>, before: Pool, plan: Plan, image: Option<seq<byte>>, k: nat, unfit: bool)
    requires Course(path, plan, before) && k < |plan.segments|
    requires image.Some? ==> FitUpTo(plan, image.value, k)
    requires unfit ==> image.Some? && !FileFits(plan.segments[k], image.value)
    requires unfit <==> path[k + 1].result.Ok?
    ensures unfit <==> LosesOn(path, plan, image)
  {
    if unfit {
      assert FirstUnfit(plan, image.value, k);
    } else {
      PathAt(path, before, plan.segments, |plan.segments|, k);
      StoppedLosesNothing(before, plan, image, k + 1);
      LosesOnPath(path, before, plan, image);
    }
  }

  /** Every segment can be mapped and, given an image, filled. */
  ghost predicate LoadsOn(path: seq<Step<()>>, plan: Plan, image: Option<seq<byte>>)
    requires |path| == |plan.segments| + 1
  {
    path[|plan.segments|].result.Ok? && (image.Some? ==> AllFit(plan, image.value))
  }

  /** A segment that cannot be mapped or filled stops the load. */
  lemma StoppedLoad(path: seq<Step<()>>, before: Pool, plan: Plan, image: Option<seq<byte>>, k: nat)
    requires Course(path, plan, before) && k < |plan.segments|
    requires path[k + 1].result.Err? || (image.Some? && !FileFits(plan.segments[k], image.value))
    ensures !LoadsOn(path, plan, image)
  {
    var n := |plan.segments|;
    PathAt(path, before, plan.segments, n, k);
    PathAt(path, before, plan.segments, n, n);
    if path[k + 1].result.Err? {
      MapThroughStops(before, plan.segments, k + 1, n);
    }
  }

  /** When every segment is mapped and filled the load goes on, loses nothing and the heap starts where they end. */
  lemma AllLoaded(path: seq<Step<()>>, before: Pool, plan: Plan, image: Option<seq<byte>>, heapNext: nat)
    requires Course(path, plan, before) && path[|plan.segments|].result.Ok?
    requires image.Some? ==> AllFit(plan, image.value)
    requires heapNext == HighestEnd(plan.segments, |plan.segments|)
    ensures LoadsOn(path, plan, image) && !LosesOn(path, plan, image)
    ensures heapNext <= USER_LIMIT && EndsAt(plan.segments, heapNext)
  {
    HighestEndBounds(plan, |plan.segments|);
    HighestIsEnd(plan.segments, |plan.segments|);
  }

  /** When a program can be prepared: its space can be made, its segments mapped and filled and its stack mapped on the
      frames there are, and its strings fit the stack page. */
  ghost predicate CanPrepare(before: Pool, plan: Plan, image: Option<seq<byte>>, stackFits: bool) {
    var m := MapThrough(before, plan.segments, |plan.segments|);
    && Create(before).result.Ok? && m.result.Ok? && (image.Some? ==> AllFit(plan, image.value))
    && MapStack(m.space, m.pool).result.Ok? && stackFits
  }

  lemma PrepareOnPath(path: seq<Step<()>>, before: Pool, plan: Plan, image: Option<seq<byte>>, stackFits: bool)
    requires Course(path, plan, before)
    ensures var last := path[|plan.segments|];
            CanPrepare(before, plan, image, stackFits)
            <==> LoadsOn(path, plan, image) && MapStack(last.space, last.pool).result.Ok? && stackFits
  {
    PathAt(path, before, plan.segments, |plan.segments|, |plan.segments|);
  }

  /** Where the segments end. */
  ghost predicate EndsAt(segments: seq<Segment>, end: nat) {
    && (forall k :: 0 <= k < |segments| ==> segments[k].end <= end)
    && if segments == [] then end == 0 else exists k :: 0 <= k < |segments| && segments[k].end == end
  }

  lemma {:induction false} HighestIsEnd(segments: seq<Segment>, k: nat)
    requires k <= |segments|
    ensures k == 0 ==> HighestEnd(segments, k) == 0
    ensures k > 0 ==> exists i :: 0 <= i < k && segments[i].end == HighestEnd(segments, k)
  {
    if k > 0 {
      HighestIsEnd(segments, k - 1);
      if HighestEnd(segments, k) == segments[k - 1].end {
        assert segments[k - 1].end == HighestEnd(segments, k);
      }
    }
  }

  function HighestEnd(segments: seq<Segment>, k: nat): nat
    requires k <= |segments|
  {
    if k == 0 then 0 else Max(HighestEnd(segments, k - 1), segments[k - 1].end)
  }

  lemma {:induction false} HighestEndBounds(plan: Plan, k: nat)
    requires GoodPlan(plan) && k <= |plan.segments|
    ensures HighestEnd(plan.segments, k) <= USER_LIMIT
    ensures forall i :: 0 <= i < k ==> plan.segments[i].end <= HighestEnd(plan.segments, k)
  {
    if k > 0 {
      HighestEndBounds(plan, k - 1);
    }
  }

  // ------------------------------------------------------------------ a load that loses frames

  /** A program of one page with one byte of contents. */
  function OnePagePlan(): Plan {
    Plan(0, 16 * PAGE, 1, [Segment(16 * PAGE, 17 * PAGE, 0, 1, 1, 0, Rights(true, false, true))])
  }

  /** An allocator that has two frames and has given out none. */
  function TwoFrames(): Pool { Pool([Range(MIN_FRAME, 2)], 0, 0, []) }

  lemma TwoFramesGive()
    ensures GoodPool(TwoFrames())
    ensures var first := TakeFrame(TwoFrames());
            && first.frame == Some(MIN_FRAME)
            && TakeFrame(first.pool).frame == Some(MIN_FRAME + PAGE)
  {
    assert End(Range(MIN_FRAME, 2)) == MIN_FRAME + 2 * PAGE;
  }

  lemma OnePageMaps(s: Space, p: Pool)
    requires s.root.Some? && s.slots == NoSlots() && s.guard.None? && TakeFrame(p).frame.Some?
    ensures MapPages(s, p, 16 * PAGE, 17 * PAGE, Flags(true, true, false, true)).result.Ok?
  {
    var m := MapPage(s, p, 16 * PAGE, Flags(true, true, false, true), Anonymous);
    assert EmptySlot(s.slots).Some? by {
      assert s.slots[0].None?;
    }
    assert m.result.Ok?;
    assert MapPages(m.space, m.pool, 17 * PAGE, 17 * PAGE, Flags(true, true, false, true)).result.Ok?;
  }

  /** With an empty image the program's space, its root and its page are lost. */
  lemma EmptyImageLoses()
    ensures GoodPool(TwoFrames()) && GoodPlan(OnePagePlan()) && Loses(TwoFrames(), OnePagePlan(), Some([]))
  {
    var before, plan := TwoFrames(), OnePagePlan();
    TwoFramesGive();
    assert PagesOf(plan.segments) == 1 by {
      assert plan.segments[..0] == [];
    }
    assert MapThrough(before, plan.segments, 0) == Step(Ok(()), Create(before).space, Create(before).pool);
    OnePageMaps(Create(before).space, Create(before).pool);
    assert FirstUnfit(plan, [], 0);
    assert MapThrough(before, plan.segments, 0 + 1).result.Ok?;
  }
}
