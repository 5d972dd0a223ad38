/** ELF files laid out byte by byte as the System V gABI does (chapters 4 and 5), and what the parser of
    `src/elf.rs` makes of them. */
module ElfImage {
  import opened Common
  import opened ByteFields
  import opened FrameMemory
  import opened AddressSpace
  import opened Elf

  type u16 = n: nat | n < U16_LIMIT
  type u32 = n: nat | n < U32_LIMIT
  type u64 = n: nat | n < U64_LIMIT

  // ------------------------------------------------------------------ the file

  /** A program header. The flag bits other than the three rights are `spare`. */
  datatype Entry = Entry(
    kind: u32, readable: bool, writable: bool, executable: bool, spare: nat, offset: u64, address: u64, physical: u64,
    fileSize: u64, memorySize: u64, alignment: u64)

  /** A file: the ELF header, any bytes, the program headers, any bytes. */
  datatype File = File(
    ident: seq<byte>, kind: u16, machine: u16, version: u32, entry: u64, sections: u64, flags: u32, headerSize: u16,
    entrySize: u16, rest: seq<byte>, gap: seq<byte>, entries: seq<Entry>, tail: seq<byte>)

  predicate WellFormed(f: File) {
    && |f.ident| == 16 && |f.rest| == 6 && |f.entries| < U16_LIMIT && 64 + |f.gap| < U64_LIMIT
    && forall k :: 0 <= k < |f.entries| ==> f.entries[k].spare < 0x2000_0000
  }

  function Bit(b: bool): nat { if b then 1 else 0 }

  function FlagBits(e: Entry): nat {
    8 * e.spare + 4 * Bit(e.readable) + 2 * Bit(e.writable) + Bit(e.executable)
  }

  function Row(e: Entry): (b: seq<byte>)
    ensures |b| == 56
  {
    RowFront(e) + RowBack(e)
  }

  function RowFront(e: Entry): (b: seq<byte>)
    ensures |b| == 24
  {
    WriteLe(e.kind, 4) + WriteLe(FlagBits(e), 4) + WriteLe(e.offset, 8) + WriteLe(e.address, 8)
  }

  function RowBack(e: Entry): (b: seq<byte>)
    ensures |b| == 32
  {
    WriteLe(e.physical, 8) + WriteLe(e.fileSize, 8) + WriteLe(e.memorySize, 8) + WriteLe(e.alignment, 8)
  }

  function Rows(entries: seq<Entry>): (b: seq<byte>)
    ensures |b| == 56 * |entries|
  {
    if entries == [] then [] else Row(entries[0]) + Rows(entries[1..])
  }

  function Front(f: File): (b: seq<byte>)
    requires WellFormed(f)
    ensures |b| == 40
  {
    f.ident + WriteLe(f.kind, 2) + WriteLe(f.machine, 2) + WriteLe(f.version, 4) + WriteLe(f.entry, 8)
    + WriteLe(64 + |f.gap|, 8)
  }

  function Back(f: File): (b: seq<byte>)
    requires WellFormed(f)
    ensures |b| == 24
  {
    WriteLe(f.sections, 8) + WriteLe(f.flags, 4) + WriteLe(f.headerSize, 2) + WriteLe(f.entrySize, 2)
    + WriteLe(|f.entries|, 2) + f.rest
  }

  function Length(f: File): nat { 64 + |f.gap| + 56 * |f.entries| + |f.tail| }

  function Encode(f: File): (b: seq<byte>)
    requires WellFormed(f)
    ensures |b| == Length(f)
  {
    Front(f) + Back(f) + f.gap + Rows(f.entries) + f.tail
  }

  // ------------------------------------------------------------------ what a loader has to accept

  function Floor(n: nat): nat { n / 0x1000 * 0x1000 }

  function Ceiling(n: nat): nat { Floor(n + 0xfff) }

  function First(e: Entry, bias: nat): nat { bias + Floor(e.address) }

  function Behind(e: Entry, bias: nat): nat { bias + Ceiling(e.address + e.memorySize) }

  ghost predicate PowerOfTwo(n: nat) { exists k: nat :: n == Pow2(k) }

  ghost predicate Loadable(e: Entry, length: nat, bias: nat) {
    && e.fileSize <= e.memorySize
    && (e.alignment <= 1 || PowerOfTwo(e.alignment))
    && e.offset % 0x1000 == e.address % 0x1000
    && e.offset + e.fileSize <= length && e.offset + e.fileSize < U64_LIMIT
    && e.address + e.memorySize + 0xfff < U64_LIMIT
    && 0x1000 <= First(e, bias) < Behind(e, bias) <= USER_LIMIT
    && !(e.writable && e.executable)
  }

  /** The headers of type 1, which are the loadable ones. */
  function Loads(entries: seq<Entry>): seq<Entry> {
    if entries == [] then []
    else
      var n := |entries| - 1;
      Loads(entries[..n]) + if entries[n].kind == 1 then [entries[n]] else []
  }

  predicate Apart(d: Entry, e: Entry, bias: nat) {
    Behind(d, bias) <= First(e, bias) || Behind(e, bias) <= First(d, bias)
  }

  function PagesOfEntry(e: Entry): nat { (Ceiling(e.address + e.memorySize) - Floor(e.address)) / 0x1000 }

  function PageCount(loads: seq<Entry>): nat {
    if loads == [] then 0
    else PageCount(loads[..|loads| - 1]) + PagesOfEntry(loads[|loads| - 1])
  }

  /** At most eight loadable segments on at most 256 pages, apart from one another. */
  ghost predicate Places(loads: seq<Entry>, length: nat, bias: nat) {
    && |loads| <= 8
    && (forall k :: 0 <= k < |loads| ==> Loadable(loads[k], length, bias))
    && (forall i, j :: 0 <= i < j < |loads| ==> Apart(loads[i], loads[j], bias))
    && PageCount(loads) <= 256
  }

  predicate RunsAt(e: Entry, bias: nat, address: nat) {
    e.executable && First(e, bias) <= address < Behind(e, bias)
  }

  /** A 64-bit little-endian file of version 1 for this machine, fixed with no bias or movable with one, and with one to
      32 program headers. */
  predicate HeaderAccepted(f: File, machine: nat, bias: nat)
    requires WellFormed(f)
  {
    && f.ident[..7] == [0x7f, 0x45, 0x4c, 0x46, 2, 1, 1]
    && ((f.kind == 2 && bias == 0) || (f.kind == 3 && bias != 0)) && bias % 0x1000 == 0
    && f.machine == machine && f.headerSize == 64 && f.entrySize == 56
    && 1 <= |f.entries| <= 32 && Length(f) - |f.tail| < U64_LIMIT && bias + f.entry < U64_LIMIT
  }

  ghost predicate Accepted(f: File, machine: nat, bias: nat)
    requires WellFormed(f)
  {
    var loads := Loads(f.entries);
    && HeaderAccepted(f, machine, bias) && Places(loads, Length(f), bias)
    && exists k :: 0 <= k < |loads| && RunsAt(loads[k], bias, bias + f.entry)
  }

  /** The segment of a loadable header: its own rights and file range, and its addresses rounded out to pages. */
  function Placed(e: Entry, bias: nat): Segment {
    Segment(First(e, bias), Behind(e, bias), e.offset, e.fileSize, e.memorySize,
            if e.fileSize <= e.memorySize then e.memorySize - e.fileSize else 0,
            Rights(e.readable, e.writable, e.executable))
  }

  function Segments(loads: seq<Entry>, bias: nat): (r: seq<Segment>)
    ensures |r| == |loads|
  {
    seq(|loads|, k requires 0 <= k < |loads| => Placed(loads[k], bias))
  }

  // ------------------------------------------------------------------ reading the bytes back

  lemma Quarters(a: seq<byte>, b: seq<byte>, c: seq<byte>, d: seq<byte>, i: nat, j: nat, k: nat, l: nat)
    requires i == |a| && j == i + |b| && k == j + |c| && l == k + |d|
    ensures var s := a + b + c + d;
            |s| == l && s[0..i] == a && s[i..j] == b && s[j..k] == c && s[k..l] == d
  {
  }

  lemma RowPieces(e: Entry)
    ensures var b := RowFront(e);
            && b[0..4] == WriteLe(e.kind, 4) && b[4..8] == WriteLe(FlagBits(e), 4)
            && b[8..16] == WriteLe(e.offset, 8) && b[16..24] == WriteLe(e.address, 8)
    ensures var b := RowBack(e);
            && b[8..16] == WriteLe(e.fileSize, 8) && b[16..24] == WriteLe(e.memorySize, 8)
            && b[24..32] == WriteLe(e.alignment, 8)
  {
    Quarters(WriteLe(e.kind, 4), WriteLe(FlagBits(e), 4), WriteLe(e.offset, 8), WriteLe(e.address, 8), 4, 8, 16, 24);
    Quarters(WriteLe(e.physical, 8), WriteLe(e.fileSize, 8), WriteLe(e.memorySize, 8), WriteLe(e.alignment, 8),
             8, 16, 24, 32);
  }

  function AsHeader(e: Entry): Header {
    Header(e.kind, FlagBits(e), e.offset, e.address, e.fileSize, e.memorySize, e.alignment)
  }

  lemma RowReads(image: seq<byte>, at: nat, e: Entry)
    requires at + 56 <= |image| && image[at..at + 56] == Row(e) && e.spare < 0x2000_0000
    ensures HeaderAt(image, at) == AsHeader(e)
  {
    var row := Row(e);
    Inside(image, at, row, 0, 24);
    Inside(image, at, row, 24, 56);
    RowPieces(e);
    Thirds(RowFront(e), RowBack(e), []);
    assert row == row + [];
    RowFrontReads(image, at, RowFront(e), e);
    RowBackReads(image, at + 24, RowBack(e), e);
  }

  lemma RowFrontReads(image: seq<byte>, at: nat, front: seq<byte>, e: Entry)
    requires |front| == 24 && at + 24 <= |image| && image[at..at + 24] == front && e.spare < 0x2000_0000
    requires front[0..4] == WriteLe(e.kind, 4) && front[4..8] == WriteLe(FlagBits(e), 4)
    requires front[8..16] == WriteLe(e.offset, 8) && front[16..24] == WriteLe(e.address, 8)
    ensures ReadLe(image, at, 4) == e.kind && ReadLe(image, at + 4, 4) == FlagBits(e)
    ensures ReadLe(image, at + 8, 8) == e.offset && ReadLe(image, at + 16, 8) == e.address
  {
    Field4(image, at, front, 0, e.kind);
    Field4(image, at, front, 4, FlagBits(e));
    Field8(image, at, front, 8, e.offset);
    Field8(image, at, front, 16, e.address);
  }

  lemma RowBackReads(image: seq<byte>, at: nat, back: seq<byte>, e: Entry)
    requires |back| == 32 && at + 32 <= |image| && image[at..at + 32] == back
    requires back[8..16] == WriteLe(e.fileSize, 8) && back[16..24] == WriteLe(e.memorySize, 8)
    requires back[24..32] == WriteLe(e.alignment, 8)
    ensures ReadLe(image, at + 8, 8) == e.fileSize && ReadLe(image, at + 16, 8) == e.memorySize
    ensures ReadLe(image, at + 24, 8) == e.alignment
  {
    Field8(image, at, back, 8, e.fileSize);
    Field8(image, at, back, 16, e.memorySize);
    Field8(image, at, back, 24, e.alignment);
  }

  lemma {:induction false} RowOf(entries: seq<Entry>, k: nat)
    requires k < |entries|
    ensures 56 * k + 56 <= |Rows(entries)| && Rows(entries)[56 * k..56 * k + 56] == Row(entries[k])
  {
    if k > 0 {
      RowOf(entries[1..], k - 1);
      Inside(Rows(entries), 56, Rows(entries[1..]), 56 * (k - 1), 56 * (k - 1) + 56);
    }
  }

  lemma RowInFile(f: File, k: nat)
    requires WellFormed(f) && k < |f.entries|
    ensures var at := 64 + |f.gap| + 56 * k; Encode(f)[at..at + 56] == Row(f.entries[k])
  {
    var image, rows, at := Encode(f), Rows(f.entries), 64 + |f.gap|;
    Pieces(f);
    RowOf(f.entries, k);
    Inside(image, at, rows, 56 * k, 56 * k + 56);
  }

  lemma FrontPieces(f: File)
    requires WellFormed(f)
    ensures var b := Front(f);
            && b[0..16] == f.ident && b[16..18] == WriteLe(f.kind, 2) && b[18..20] == WriteLe(f.machine, 2)
            && b[24..32] == WriteLe(f.entry, 8) && b[32..40] == WriteLe(64 + |f.gap|, 8)
  {
  }

  lemma BackPieces(f: File)
    requires WellFormed(f)
    ensures var b := Back(f);
            && b[12..14] == WriteLe(f.headerSize, 2) && b[14..16] == WriteLe(f.entrySize, 2)
            && b[16..18] == WriteLe(|f.entries|, 2)
  {
  }

  /** The pieces of a file are where its header says. */
  lemma Pieces(f: File)
    requires WellFormed(f)
    ensures var image, at := Encode(f), 64 + |f.gap|;
            image[0..40] == Front(f) && image[40..64] == Back(f) && image[at..at + 56 * |f.entries|] == Rows(f.entries)
  {
    var a, b, c, d := Front(f), Back(f), f.gap, Rows(f.entries);
    Thirds(a, b, c + d + f.tail);
    Thirds(a + b + c, d, f.tail);
    assert Encode(f) == a + b + (c + d + f.tail);
  }

  lemma FrontReads(f: File)
    requires WellFormed(f)
    ensures var image := Encode(f);
            && image[0..16] == f.ident && ReadLe(image, 16, 2) == f.kind && ReadLe(image, 18, 2) == f.machine
            && ReadLe(image, 24, 8) == f.entry && ReadLe(image, 32, 8) == 64 + |f.gap|
  {
    var image, front := Encode(f), Front(f);
    Pieces(f);
    FrontPieces(f);
    Inside(image, 0, front, 0, 16);
    Field2(image, 0, front, 16, f.kind);
    Field2(image, 0, front, 18, f.machine);
    Field8(image, 0, front, 24, f.entry);
    Field8(image, 0, front, 32, 64 + |f.gap|);
  }

  lemma BackReads(f: File)
    requires WellFormed(f)
    ensures var image := Encode(f);
            && ReadLe(image, 52, 2) == f.headerSize && ReadLe(image, 54, 2) == f.entrySize
            && ReadLe(image, 56, 2) == |f.entries|
  {
    var image, back := Encode(f), Back(f);
    Pieces(f);
    BackPieces(f);
    Field2(image, 40, back, 12, f.headerSize);
    Field2(image, 40, back, 14, f.entrySize);
    Field2(image, 40, back, 16, |f.entries|);
  }

  // ------------------------------------------------------------------ one header

  lemma RightsRead(e: Entry)
    ensures RightsOf(FlagBits(e)) == Rights(e.readable, e.writable, e.executable)
  {
    var r, w, x, n := Bit(e.readable), Bit(e.writable), Bit(e.executable), FlagBits(e);
    DivisionUnique(n, 4, 2 * e.spare + r, 2 * w + x);
    DivisionUnique(n, 2, 4 * e.spare + 2 * r + w, x);
    DivisionUnique(n / 4, 2, e.spare, r);
    DivisionUnique(n / 2, 2, 2 * e.spare + r, w);
  }

  lemma {:induction false} PowersExactly(n: nat)
    ensures IsPowerOfTwo(n) <==> PowerOfTwo(n)
    decreases n
  {
    assert n == 1 ==> n == Pow2(0);
    if n > 1 && n % 2 == 0 {
      PowersExactly(n / 2);
      if IsPowerOfTwo(n / 2) {
        var k: nat :| n / 2 == Pow2(k);
        assert n == Pow2(k + 1);
      }
    }
    forall k: nat | n == Pow2(k) ensures IsPowerOfTwo(n) { PowerHalves(n, k); }
  }

  lemma {:induction false} PowerHalves(n: nat, k: nat)
    requires n == Pow2(k)
    ensures IsPowerOfTwo(n)
    decreases k
  {
    if k > 0 {
      assert n == 2 * Pow2(k - 1) && n / 2 == Pow2(k - 1);
      PowerHalves(n / 2, k - 1);
    }
  }

  lemma FloorIsDown(n: nat)
    ensures Floor(n) == AlignDown(n) <= n
  {
  }

  lemma SegmentExactly(e: Entry, length: nat, bias: nat)
    ensures SegmentOf(AsHeader(e), length, bias).Ok? <==> Loadable(e, length, bias)
    ensures Loadable(e, length, bias) ==> SegmentOf(AsHeader(e), length, bias) == Ok(Placed(e, bias))
  {
    RightsRead(e);
    PowersExactly(e.alignment);
    FloorIsDown(e.address);
    FloorIsDown(e.address + e.memorySize + 0xfff);
  }

  // ------------------------------------------------------------------ the header table

  function Headers(entries: seq<Entry>): (r: seq<Header>)
    ensures |r| == |entries|
  {
    seq(|entries|, k requires 0 <= k < |entries| => AsHeader(entries[k]))
  }

  /** What the parser has gathered from these headers. */
  predicate Gathered(plan: Plan, loads: seq<Entry>, bias: nat) {
    plan.segments == Segments(loads, bias) && plan.totalPages == PageCount(loads)
  }

  lemma PlacesMore(loads: seq<Entry>, e: Entry, length: nat, bias: nat)
    requires Places(loads, length, bias)
    ensures PageCount(loads + [e]) == PageCount(loads) + PagesOfEntry(e)
    ensures Places(loads + [e], length, bias) <==>
              && |loads| < 8 && Loadable(e, length, bias) && PageCount(loads) + PagesOfEntry(e) <= 256
              && forall i :: 0 <= i < |loads| ==> Apart(loads[i], e, bias)
  {
    var all := loads + [e];
    assert all[..|loads|] == loads && all[|loads|] == e;
    if Places(all, length, bias) {
      assert Loadable(all[|loads|], length, bias);
      forall i | 0 <= i < |loads| ensures Apart(loads[i], e, bias) {
        assert Apart(all[i], all[|loads|], bias);
      }
    }
  }

  lemma ExtendExactly(plan: Plan, loads: seq<Entry>, e: Entry, length: nat, bias: nat)
    requires Gathered(plan, loads, bias) && Places(loads, length, bias)
    ensures var r := Extend(plan, AsHeader(e), length, bias);
            && (r.Ok? <==> Places(loads + [e], length, bias))
            && (r.Ok? ==> Gathered(r.value, loads + [e], bias) && r.value.base == plan.base
                          && r.value.entry == plan.entry)
  {
    var s := Placed(e, bias);
    SegmentExactly(e, length, bias);
    PlacesMore(loads, e, length, bias);
    assert Segments(loads + [e], bias) == Segments(loads, bias) + [s];
    assert forall i :: 0 <= i < |loads| ==> (Overlaps(s, plan.segments[i]) <==> !Apart(loads[i], e, bias));
    assert (s.end - s.start) / PAGE == PagesOfEntry(e);
  }

  lemma {:induction false} PageCountGrows(loads: seq<Entry>, n: nat)
    requires n <= |loads|
    ensures PageCount(loads[..n]) <= PageCount(loads)
    decreases |loads|
  {
    if n < |loads| {
      var less := loads[..|loads| - 1];
      PageCountGrows(less, n);
      assert less[..n] == loads[..n];
    } else {
      assert loads[..n] == loads;
    }
  }

  lemma PlacesPrefix(loads: seq<Entry>, n: nat, length: nat, bias: nat)
    requires n <= |loads| && Places(loads, length, bias)
    ensures Places(loads[..n], length, bias)
  {
    PageCountGrows(loads, n);
  }

  lemma {:induction false} LoadsPrefix(entries: seq<Entry>, i: nat)
    requires i <= |entries|
    ensures |Loads(entries[..i])| <= |Loads(entries)|
    ensures Loads(entries)[..|Loads(entries[..i])|] == Loads(entries[..i])
    decreases |entries|
  {
    if i == |entries| {
      assert entries[..i] == entries;
    } else {
      var less := entries[..|entries| - 1];
      LoadsPrefix(less, i);
      assert less[..i] == entries[..i];
    }
  }

  lemma LoadsStep(entries: seq<Entry>, i: nat)
    requires i < |entries|
    ensures Loads(entries[..i + 1]) == if entries[i].kind == 1 then Loads(entries[..i]) + [entries[i]]
                                       else Loads(entries[..i])
  {
    assert entries[..i + 1][..i] == entries[..i];
  }

  lemma {:induction false} ParseFromExactly(entries: seq<Entry>, length: nat, bias: nat, i: nat, plan: Plan)
    requires i <= |entries|
    requires Gathered(plan, Loads(entries[..i]), bias) && Places(Loads(entries[..i]), length, bias)
    ensures var r := ParseFrom(Headers(entries), length, bias, i, plan);
            && (r.Ok? <==> Places(Loads(entries), length, bias))
            && (r.Ok? ==> Gathered(r.value, Loads(entries), bias) && r.value.base == plan.base
                          && r.value.entry == plan.entry)
    decreases |entries| - i
  {
    if i == |entries| {
      assert entries[..i] == entries;
    } else {
      var e, loads := entries[i], Loads(entries[..i]);
      LoadsStep(entries, i);
      if e.kind == 1 {
        ExtendExactly(plan, loads, e, length, bias);
        var r := Extend(plan, AsHeader(e), length, bias);
        if r.Ok? {
          ParseFromExactly(entries, length, bias, i + 1, r.value);
        } else if Places(Loads(entries), length, bias) {
          LoadsPrefix(entries, i + 1);
          PlacesPrefix(Loads(entries), |loads + [e]|, length, bias);
        }
      } else {
        ParseFromExactly(entries, length, bias, i + 1, plan);
      }
    }
  }

  // ------------------------------------------------------------------ the whole file

  lemma IdentReads(f: File)
    requires WellFormed(f)
    ensures var image := Encode(f);
            f.ident[..7] == [0x7f, 0x45, 0x4c, 0x46, 2, 1, 1]
            <==> image[0..4] == [0x7f, 0x45, 0x4c, 0x46] && image[4] == 2 && image[5] == 1 && image[6] == 1
  {
    var image := Encode(f);
    FrontReads(f);
    assert forall k :: 0 <= k < 16 ==> image[k] == f.ident[k] by {
      assert forall k :: 0 <= k < 16 ==> image[k] == image[0..16][k];
    }
    Seven(f.ident);
    Four(image);
  }

  lemma Seven(s: seq<byte>)
    requires |s| >= 7
    ensures s[..7] == [0x7f, 0x45, 0x4c, 0x46, 2, 1, 1]
            <==> s[0] == 0x7f && s[1] == 0x45 && s[2] == 0x4c && s[3] == 0x46 && s[4] == 2 && s[5] == 1 && s[6] == 1
  {
    var m := s[..7];
    assert m == [m[0], m[1], m[2], m[3], m[4], m[5], m[6]];
  }

  lemma Four(s: seq<byte>)
    requires |s| >= 4
    ensures s[0..4] == [0x7f, 0x45, 0x4c, 0x46] <==> s[0] == 0x7f && s[1] == 0x45 && s[2] == 0x4c && s[3] == 0x46
  {
    var m := s[0..4];
    assert m == [m[0], m[1], m[2], m[3]];
  }

  lemma HeaderExactly(f: File, machine: nat, bias: nat)
    requires WellFormed(f)
    ensures CheckHeader(Encode(f), machine, bias).None? <==> HeaderAccepted(f, machine, bias)
  {
    IdentReads(f);
    FrontReads(f);
    BackReads(f);
  }

  lemma TableReads(f: File)
    requires WellFormed(f)
    ensures var image := Encode(f);
            && TableOf(image) == Table(64 + |f.gap|, |f.entries|) && Fits(TableOf(image), image)
            && HeadersOf(image, TableOf(image)) == Headers(f.entries)
  {
    FrontReads(f);
    BackReads(f);
    forall k: nat | k < |f.entries| ensures RowAt(Encode(f), 64 + |f.gap|, k, f.entries[k]) { RowInFile(f, k); }
    RowsRead(Encode(f), Table(64 + |f.gap|, |f.entries|), f.entries);
  }

  predicate RowAt(image: seq<byte>, offset: nat, k: nat, e: Entry) {
    var at := offset + 56 * k;
    at + 56 <= |image| && image[at..at + 56] == Row(e) && e.spare < 0x2000_0000
  }

  lemma RowsRead(image: seq<byte>, t: Table, entries: seq<Entry>)
    requires Fits(t, image) && t.count == |entries|
    requires forall k: nat :: k < |entries| ==> RowAt(image, t.offset, k, entries[k])
    ensures HeadersOf(image, t) == Headers(entries)
  {
    forall k: nat | k < t.count ensures HeaderOf(image, t, k) == AsHeader(entries[k]) {
      assert RowAt(image, t.offset, k, entries[k]);
      RowReads(image, t.offset + 56 * k, entries[k]);
    }
  }

  /** A file is accepted exactly when its header and its loadable program headers meet the rules. The plan then holds
      their segments in file order, each with its own rights, file range and page-rounded addresses, and the entry
      point is the file's, moved by the bias. */
  lemma ParsesExactly(f: File, machine: nat, bias: nat)
    requires WellFormed(f)
    ensures var r, loads := Parse(Encode(f), machine, bias), Loads(f.entries);
            && (r.Ok? <==> Accepted(f, machine, bias))
            && (r.Ok? ==> r.value == Plan(bias, bias + f.entry, PageCount(loads), Segments(loads, bias)))
  {
    HeaderExactly(f, machine, bias);
    TableReads(f);
    FrontReads(f);
    EmptyReads(Encode(f), bias, f.entry);
    var empty := Plan(bias, bias + f.entry, 0, []);
    ParsedAs(Encode(f), f, machine, bias, empty);
    Concluded(Parse(Encode(f), machine, bias), ParseTable(Headers(f.entries), Length(f), bias, empty), f, machine,
              bias);
  }

  lemma ParsedAs(image: seq<byte>, f: File, machine: nat, bias: nat, empty: Plan)
    requires WellFormed(f) && |image| == Length(f) >= 64
    requires CheckHeader(image, machine, bias).None? <==> HeaderAccepted(f, machine, bias)
    requires Fits(TableOf(image), image) && HeadersOf(image, TableOf(image)) == Headers(f.entries)
    requires EmptyPlan(image, bias) == empty
    ensures if HeaderAccepted(f, machine, bias)
            then Parse(image, machine, bias) == ParseTable(Headers(f.entries), Length(f), bias, empty)
            else Parse(image, machine, bias).Err?
  {
    if HeaderAccepted(f, machine, bias) {
      ParseIs(image, machine, bias, Headers(f.entries), empty);
    } else {
      ParseRefuses(image, machine, bias);
    }
  }

  lemma Concluded(r: Result<Plan, ElfError>, t: Result<Plan, ElfError>, f: File, machine: nat, bias: nat)
    requires WellFormed(f) && if HeaderAccepted(f, machine, bias) then r == t else r.Err?
    requires t == ParseTable(Headers(f.entries), Length(f), bias, Plan(bias, bias + f.entry, 0, []))
    ensures var loads := Loads(f.entries);
            && (r.Ok? <==> Accepted(f, machine, bias))
            && (r.Ok? ==> r.value == Plan(bias, bias + f.entry, PageCount(loads), Segments(loads, bias)))
  {
    TableExactly(f.entries, Length(f), bias, bias + f.entry);
  }

  lemma ParseRefuses(image: seq<byte>, machine: nat, bias: nat)
    requires CheckHeader(image, machine, bias).Some?
    ensures Parse(image, machine, bias).Err?
  {
  }

  lemma ParseIs(image: seq<byte>, machine: nat, bias: nat, headers: seq<Header>, empty: Plan)
    requires CheckHeader(image, machine, bias).None? && Fits(TableOf(image), image)
    requires HeadersOf(image, TableOf(image)) == headers && EmptyPlan(image, bias) == empty
    ensures Parse(image, machine, bias) == ParseTable(headers, |image|, bias, empty)
  {
  }

  lemma EmptyReads(image: seq<byte>, bias: nat, entry: nat)
    requires |image| >= 64 && ReadLe(image, 24, 8) == entry
    ensures EmptyPlan(image, bias) == Plan(bias, bias + entry, 0, [])
  {
  }

  lemma TableExactly(entries: seq<Entry>, length: nat, bias: nat, entry: nat)
    ensures var r, loads := ParseTable(Headers(entries), length, bias, Plan(bias, entry, 0, [])), Loads(entries);
            && (r.Ok? <==> Places(loads, length, bias) && exists k :: 0 <= k < |loads| && RunsAt(loads[k], bias, entry))
            && (r.Ok? ==> r.value == Plan(bias, entry, PageCount(loads), Segments(loads, bias)))
  {
    var empty, loads := Plan(bias, entry, 0, []), Loads(entries);
    assert entries[..0] == [];
    ParseFromExactly(entries, length, bias, 0, empty);
    if Places(loads, length, bias) {
      var plan := Plan(bias, entry, PageCount(loads), Segments(loads, bias));
      assert ParseFrom(Headers(entries), length, bias, 0, empty) == Ok(plan);
      assert forall k :: 0 <= k < |loads| ==>
        (RunsAt(loads[k], bias, entry) <==>
         plan.segments[k].rights.executable && plan.segments[k].start <= plan.entry < plan.segments[k].end);
    }
  }
}
