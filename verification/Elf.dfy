/** The program-header parser of `src/elf.rs`, and the load plan it makes. */
module Elf {
  import opened Common
  import opened FrameMemory
  import opened AddressSpace

  const ELF_HEADER_SIZE := 64
  const PROGRAM_HEADER_SIZE := 56
  const MAX_LOAD_SEGMENTS := 8
  const MAX_LOAD_PAGES := 256
  const ET_EXEC := 2
  const ET_DYN := 3
  const PT_LOAD := 1

  datatype ElfError =
    | Truncated
    | BadMagic
    | UnsupportedClass
    | UnsupportedEndian
    | BadVersion
    | WrongType
    | WrongMachine
    | BadHeaderSize
    | BadProgramHeaderSize
    | ProgramHeaderOverflow
    | TooManySegments
    | NoLoadSegments
    | InvalidAlignment
    | InvalidRange
    | FileRangeOverflow
    | FileSizeExceedsMemory
    | SegmentOverlap
    | WriteExecuteSegment
    | InvalidEntry

  datatype Rights = Rights(readable: bool, writable: bool, executable: bool)

  datatype Segment = Segment(
    start: nat, end: nat, fileOffset: nat, fileSize: nat, memorySize: nat, zeroFill: nat, rights: Rights)

  datatype Plan = Plan(base: nat, entry: nat, totalPages: nat, segments: seq<Segment>)

  // ------------------------------------------------------------------ one program header

  function RightsOf(raw: nat): Rights { Rights(raw / 4 % 2 == 1, raw / 2 % 2 == 1, raw % 2 == 1) }

  /** Rounds up to a page, unless that wraps. */
  function PageUp(n: nat): Option<nat> {
    if n + (PAGE - 1) < U64_LIMIT then Some(AlignDown(n + (PAGE - 1))) else None
  }

  /** The fields of the program header at `at`. */
  datatype Header = Header(
    kind: nat, flags: nat, offset: nat, address: nat, fileSize: nat, memorySize: nat, alignment: nat)

  function HeaderAt(image: seq<byte>, at: nat): Header
    requires at + PROGRAM_HEADER_SIZE <= |image|
  {
    Header(ReadLe(image, at, 4), ReadLe(image, at + 4, 4), ReadLe(image, at + 8, 8), ReadLe(image, at + 16, 8),
           ReadLe(image, at + 32, 8), ReadLe(image, at + 40, 8), ReadLe(image, at + 48, 8))
  }

  /** Checks one PT_LOAD header and turns it into a segment. */
  function SegmentOf(h: Header, length: nat, bias: nat): Result<Segment, ElfError> {
    if h.fileSize > h.memorySize then Err(FileSizeExceedsMemory)
    else if h.alignment > 1 && !IsPowerOfTwo(h.alignment) then Err(InvalidAlignment)
    else if h.offset % PAGE != h.address % PAGE then Err(InvalidAlignment)
    else if h.offset + h.fileSize >= U64_LIMIT || h.offset + h.fileSize > length then Err(FileRangeOverflow)
    else
      var start := bias + AlignDown(h.address);
      var stop := h.address + h.memorySize;
      if start >= U64_LIMIT || stop >= U64_LIMIT || PageUp(stop).None? then Err(InvalidRange)
      else
        var end := bias + PageUp(stop).value;
        if end >= U64_LIMIT || start < PAGE || start >= end || end > USER_LIMIT then Err(InvalidRange)
        else if RightsOf(h.flags).writable && RightsOf(h.flags).executable then Err(WriteExecuteSegment)
        else
          Ok(Segment(start, end, h.offset, h.fileSize, h.memorySize, h.memorySize - h.fileSize, RightsOf(h.flags)))
  }

  predicate Overlaps(s: Segment, t: Segment) { s.start < t.end && t.start < s.end }

  /** Adds the segment of a PT_LOAD header to the plan. */
  function Extend(plan: Plan, h: Header, length: nat, bias: nat): Result<Plan, ElfError> {
    if |plan.segments| == MAX_LOAD_SEGMENTS then Err(TooManySegments)
    else
      match SegmentOf(h, length, bias)
      case Err(e) => Err(e)
      case Ok(s) =>
        if exists i :: 0 <= i < |plan.segments| && Overlaps(s, plan.segments[i]) then Err(SegmentOverlap)
        else
          var pages := plan.totalPages + (s.end - s.start) / PAGE;
          if pages > MAX_LOAD_PAGES then Err(InvalidRange)
          else Ok(plan.(totalPages := pages, segments := plan.segments + [s]))
  }

  // ------------------------------------------------------------------ the whole image

  function CheckHeader(image: seq<byte>, machine: nat, bias: nat): Option<ElfError> {
    if |image| < ELF_HEADER_SIZE then Some(Truncated)
    else if image[0..4] != [0x7f, 0x45, 0x4c, 0x46] then Some(BadMagic)
    else if image[4] != 2 then Some(UnsupportedClass)
    else if image[5] != 1 then Some(UnsupportedEndian)
    else if image[6] != 1 then Some(BadVersion)
    else
      var kind := ReadLe(image, 16, 2);
      if kind != ET_EXEC && kind != ET_DYN then Some(WrongType)
      else if ReadLe(image, 18, 2) != machine then Some(WrongMachine)
      else if ReadLe(image, 52, 2) != ELF_HEADER_SIZE then Some(BadHeaderSize)
      else if ReadLe(image, 54, 2) != PROGRAM_HEADER_SIZE then Some(BadProgramHeaderSize)
      else if kind == ET_EXEC && bias != 0 then Some(InvalidRange)
      else if kind == ET_DYN && bias == 0 then Some(InvalidRange)
      else if bias % PAGE != 0 then Some(InvalidAlignment)
      else
        var offset, count := ReadLe(image, 32, 8), ReadLe(image, 56, 2);
        if count == 0 || count > MAX_LOAD_SEGMENTS * 4 then Some(TooManySegments)
        else if offset + count * PROGRAM_HEADER_SIZE >= U64_LIMIT then Some(ProgramHeaderOverflow)
        else if offset + count * PROGRAM_HEADER_SIZE > |image| then Some(Truncated)
        else if bias + ReadLe(image, 24, 8) >= U64_LIMIT then Some(InvalidRange)
        else None
  }

  /** A table of `count` program headers at `offset`. */
  datatype Table = Table(offset: nat, count: nat)

  predicate Fits(t: Table, image: seq<byte>) { t.offset + t.count * PROGRAM_HEADER_SIZE <= |image| }

  function TableOf(image: seq<byte>): Table
    requires |image| >= ELF_HEADER_SIZE
  {
    Table(ReadLe(image, 32, 8), ReadLe(image, 56, 2))
  }

  function HeaderOf(image: seq<byte>, t: Table, i: nat): Header
    requires Fits(t, image) && i < t.count
  {
    HeaderAt(image, t.offset + i * PROGRAM_HEADER_SIZE)
  }

  function HeadersOf(image: seq<byte>, t: Table): seq<Header>
    requires Fits(t, image)
  {
    seq(t.count, i requires 0 <= i < t.count => HeaderOf(image, t, i))
  }

  function ParseFrom(headers: seq<Header>, length: nat, bias: nat, i: nat, plan: Plan): Result<Plan, ElfError>
    requires i <= |headers|
    decreases |headers| - i
  {
    if i == |headers| then Ok(plan)
    else if headers[i].kind != PT_LOAD then ParseFrom(headers, length, bias, i + 1, plan)
    else
      match Extend(plan, headers[i], length, bias)
      case Err(e) => Err(e)
      case Ok(next) => ParseFrom(headers, length, bias, i + 1, next)
  }

  predicate HasEntry(plan: Plan) {
    exists i :: 0 <= i < |plan.segments| && plan.segments[i].rights.executable
                && plan.segments[i].start <= plan.entry < plan.segments[i].end
  }

  function EmptyPlan(image: seq<byte>, bias: nat): Plan
    requires |image| >= ELF_HEADER_SIZE
  {
    Plan(bias, bias + ReadLe(image, 24, 8), 0, [])
  }

  lemma CheckedTableFits(image: seq<byte>, machine: nat, bias: nat)
    requires CheckHeader(image, machine, bias).None?
    ensures |image| >= ELF_HEADER_SIZE && Fits(TableOf(image), image) && bias % PAGE == 0
  {
  }

  /** The plan of a header table: some segment, and one that may run the entry point. */
  function ParseTable(headers: seq<Header>, length: nat, bias: nat, empty: Plan): Result<Plan, ElfError> {
    match ParseFrom(headers, length, bias, 0, empty)
    case Err(e) => Err(e)
    case Ok(plan) =>
      if plan.segments == [] then Err(NoLoadSegments)
      else if !HasEntry(plan) then Err(InvalidEntry)
      else Ok(plan)
  }

  function Parse(image: seq<byte>, machine: nat, bias: nat): Result<Plan, ElfError> {
    var bad := CheckHeader(image, machine, bias);
    if bad.Some? then Err(bad.value)
    else
      CheckedTableFits(image, machine, bias);
      ParseTable(HeadersOf(image, TableOf(image)), |image|, bias, EmptyPlan(image, bias))
  }

  /** The loop over the program headers, and the checks behind it. */
  method ParseHeaders(headers: seq<Header>, length: nat, bias: nat, empty: Plan) returns (r: Result<Plan, ElfError>)
    ensures r == ParseTable(headers, length, bias, empty)
  {
    var plan, index := empty, 0;
    while index < |headers|
      invariant 0 <= index <= |headers|
      invariant ParseFrom(headers, length, bias, index, plan) == ParseFrom(headers, length, bias, 0, empty)
    {
      if headers[index].kind == PT_LOAD {
        var next := Extend(plan, headers[index], length, bias);
        if next.Err? {
          return Err(next.error);
        }
        plan := next.value;
      }
      index := index + 1;
    }
    if plan.segments == [] {
      return Err(NoLoadSegments);
    }
    if !HasEntry(plan) {
      return Err(InvalidEntry);
    }
    return Ok(plan);
  }

  method ParseImage(image: seq<byte>, machine: nat, bias: nat) returns (r: Result<Plan, ElfError>)
    ensures r == Parse(image, machine, bias)
  {
    var bad := CheckHeader(image, machine, bias);
    if bad.Some? {
      return Err(bad.value);
    }
    CheckedTableFits(image, machine, bias);
    r := ParseHeaders(HeadersOf(image, TableOf(image)), |image|, bias, EmptyPlan(image, bias));
  }

  // ------------------------------------------------------------------ what a plan promises

  /** Whole user pages, room for the contents, and never both writable and executable. */
  predicate GoodSegment(s: Segment) {
    && s.start % PAGE == 0 && s.end % PAGE == 0 && PAGE <= s.start < s.end <= USER_LIMIT
    && s.fileOffset + s.fileSize < U64_LIMIT
    && s.fileSize <= s.memorySize && s.zeroFill == s.memorySize - s.fileSize && s.start + s.memorySize <= s.end
    && !(s.rights.writable && s.rights.executable)
  }

  function PagesOf(segments: seq<Segment>): int {
    if segments == [] then 0
    else
      var last := segments[|segments| - 1];
      PagesOf(segments[..|segments| - 1]) + (last.end - last.start) / PAGE
  }

  ghost predicate GoodPlan(plan: Plan) {
    && |plan.segments| <= MAX_LOAD_SEGMENTS
    && (forall i :: 0 <= i < |plan.segments| ==> GoodSegment(plan.segments[i]))
    && (forall i, j :: 0 <= i < j < |plan.segments| ==> !Overlaps(plan.segments[i], plan.segments[j]))
    && plan.totalPages == PagesOf(plan.segments) <= MAX_LOAD_PAGES
  }

  /** The PT_LOAD headers among the first `i`, in file order. */
  ghost function LoadHeaders(headers: seq<Header>, i: nat): seq<Header>
    requires i <= |headers|
  {
    if i == 0 then []
    else if headers[i - 1].kind == PT_LOAD then LoadHeaders(headers, i - 1) + [headers[i - 1]]
    else LoadHeaders(headers, i - 1)
  }

  /** The plan's segments are the segments of these headers, one for one. */
  ghost predicate Matches(plan: Plan, headers: seq<Header>, length: nat, bias: nat) {
    && |plan.segments| == |headers|
    && forall k :: 0 <= k < |headers| ==> SegmentOf(headers[k], length, bias) == Ok(plan.segments[k])
  }

  lemma SegmentIsGood(h: Header, length: nat, bias: nat)
    requires SegmentOf(h, length, bias).Ok? && bias % PAGE == 0
    ensures GoodSegment(SegmentOf(h, length, bias).value)
    ensures SegmentOf(h, length, bias).value.fileOffset + h.fileSize <= length
  {
    AlignDownFacts(h.address);
    AlignDownFacts(h.address + h.memorySize + (PAGE - 1));
  }

  lemma ExtendKeeps(plan: Plan, h: Header, length: nat, bias: nat)
    requires GoodPlan(plan) && bias % PAGE == 0 && Extend(plan, h, length, bias).Ok?
    ensures GoodPlan(Extend(plan, h, length, bias).value)
  {
    SegmentIsGood(h, length, bias);
    var next := Extend(plan, h, length, bias).value;
    assert next.segments[..|plan.segments|] == plan.segments;
  }

  lemma ExtendMatches(plan: Plan, headers: seq<Header>, h: Header, length: nat, bias: nat)
    requires Matches(plan, headers, length, bias) && Extend(plan, h, length, bias).Ok?
    ensures Matches(Extend(plan, h, length, bias).value, headers + [h], length, bias)
  {
  }

  lemma {:induction false} ParseFromKeeps(headers: seq<Header>, length: nat, bias: nat, i: nat, plan: Plan)
    requires i <= |headers| && bias % PAGE == 0
    requires GoodPlan(plan) && Matches(plan, LoadHeaders(headers, i), length, bias)
    requires ParseFrom(headers, length, bias, i, plan).Ok?
    ensures var r := ParseFrom(headers, length, bias, i, plan).value;
            GoodPlan(r) && Matches(r, LoadHeaders(headers, |headers|), length, bias)
    decreases |headers| - i
  {
    if i < |headers| {
      var h := headers[i];
      if h.kind == PT_LOAD {
        ExtendKeeps(plan, h, length, bias);
        ExtendMatches(plan, LoadHeaders(headers, i), h, length, bias);
        ParseFromKeeps(headers, length, bias, i + 1, Extend(plan, h, length, bias).value);
      } else {
        ParseFromKeeps(headers, length, bias, i + 1, plan);
      }
    }
  }

  lemma TablePlanIsGood(headers: seq<Header>, length: nat, bias: nat, empty: Plan)
    requires ParseTable(headers, length, bias, empty).Ok? && bias % PAGE == 0
    requires empty.segments == [] && empty.totalPages == 0
    ensures var plan := ParseTable(headers, length, bias, empty).value;
            && GoodPlan(plan) && plan.segments != [] && HasEntry(plan)
            && Matches(plan, LoadHeaders(headers, |headers|), length, bias)
            && forall k :: 0 <= k < |plan.segments| ==>
                plan.segments[k].fileOffset + plan.segments[k].fileSize <= length
  {
    ParseFromKeeps(headers, length, bias, 0, empty);
    MatchesFile(ParseTable(headers, length, bias, empty).value, LoadHeaders(headers, |headers|), length, bias);
  }

  /** A parsed plan holds one segment per PT_LOAD header, in order; they are disjoint runs of whole
      user pages, none writable and executable, and the entry point lies in an executable one. */
  lemma ParsedPlanIsGood(image: seq<byte>, machine: nat, bias: nat)
    requires Parse(image, machine, bias).Ok?
    ensures |image| >= ELF_HEADER_SIZE && Fits(TableOf(image), image) && bias % PAGE == 0
    ensures var plan, headers := Parse(image, machine, bias).value, HeadersOf(image, TableOf(image));
            && GoodPlan(plan) && plan.segments != [] && HasEntry(plan)
            && Matches(plan, LoadHeaders(headers, |headers|), |image|, bias)
            && forall k :: 0 <= k < |plan.segments| ==>
                plan.segments[k].fileOffset + plan.segments[k].fileSize <= |image|
  {
    CheckedTableFits(image, machine, bias);
    TablePlanIsGood(HeadersOf(image, TableOf(image)), |image|, bias, EmptyPlan(image, bias));
  }

  lemma MatchesFile(plan: Plan, headers: seq<Header>, length: nat, bias: nat)
    requires Matches(plan, headers, length, bias) && bias % PAGE == 0
    ensures forall k :: 0 <= k < |plan.segments| ==> plan.segments[k].fileOffset + plan.segments[k].fileSize <= length
  {
    forall k | 0 <= k < |plan.segments| ensures plan.segments[k].fileOffset + plan.segments[k].fileSize <= length {
      SegmentIsGood(headers[k], length, bias);
    }
  }

  // ------------------------------------------------------------------ lookups in a plan

  /** `LoadPlan::file_offset`: the file position of a range of user addresses, from the first
      segment whose file contents cover it. */
  function FileOffset(segments: seq<Segment>, address: nat, length: nat): Option<nat> {
    if address + length >= U64_LIMIT || segments == [] then None
    else
      var s := segments[0];
      if s.start + s.fileSize >= U64_LIMIT || address < s.start || address + length > s.start + s.fileSize
         || s.fileOffset + (address - s.start) >= U64_LIMIT
      then FileOffset(segments[1..], address, length)
      else Some(s.fileOffset + (address - s.start))
  }

  /** Segments being disjoint, a non-empty segment's own contents are found at its own offset. */
  lemma {:induction false} FileOffsetOfSegment(segments: seq<Segment>, k: nat)
    requires k < |segments| && segments[k].fileSize > 0
    requires forall i :: 0 <= i < |segments| ==> GoodSegment(segments[i])
    requires forall i, j :: 0 <= i < j < |segments| ==> !Overlaps(segments[i], segments[j])
    ensures FileOffset(segments, segments[k].start, segments[k].fileSize) == Some(segments[k].fileOffset)
    decreases k
  {
    if k != 0 {
      var rest := segments[1..];
      assert !Overlaps(segments[0], segments[k]);
      FileOffsetOfSegment(rest, k - 1);
    }
  }
}
