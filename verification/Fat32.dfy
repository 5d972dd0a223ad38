/** The FAT32 reader and in-place writer of `src/fat32.rs`, over a disk of 512-byte sectors.

    The functions give every operation's answer, and for a write the disk it leaves. A sector the
    disk does not have fails to read; a sector outside `accepts` fails to write.
 */
module Fat32 {
  import opened Common

  const SECTOR := 512
  const ENTRY := 32
  const SLOTS := 16
  const EOC_MIN := 0x0fff_fff8
  const BAD_CLUSTER := 0x0fff_fff7
  const MAX_LFN_CHARS := 260
  const MAX_COMPONENTS := 16

  type Sector = s: seq<byte> | |s| == SECTOR witness seq(SECTOR, _ => 0)

  type Disk = map<nat, Sector>

  datatype Error =
    | Io
    | InvalidBpb
    | InvalidPath
    | NotFound
    | NotDirectory
    | IsDirectory
    | BadClusterChain
    | BufferTooSmall
    | NoSpace
    | ReadOnly

  // ------------------------------------------------------------------ little-endian fields

  function U16At(b: seq<byte>, at: nat): (n: nat)
    requires at + 2 <= |b|
    ensures n < U16_LIMIT
  {
    var low, high: int := b[at], b[at + 1];
    low + 0x100 * high
  }

  function U32At(b: seq<byte>, at: nat): (n: nat)
    requires at + 4 <= |b|
    ensures n < U32_LIMIT
  {
    U16At(b, at) + U16_LIMIT * U16At(b, at + 2)
  }

  /** Both are the common reading of little-endian fields, at a fixed width. */
  lemma FieldsAreLittleEndian(b: seq<byte>, at: nat)
    ensures at + 2 <= |b| ==> U16At(b, at) == ReadLe(b, at, 2)
    ensures at + 4 <= |b| ==> U32At(b, at) == ReadLe(b, at, 4)
  {
    if at + 4 <= |b| {
      assert ReadLe(b, at, 4) == b[at] + 0x100 * (b[at + 1] + 0x100 * ReadLe(b, at + 2, 2));
      assert ReadLe(b, at + 2, 2) == U16At(b, at + 2);
    }
  }

  /** The four bytes of a number reduced to 32 bits. */
  function U32Bytes(n: nat): (b: seq<byte>)
    ensures |b| == 4 && U32At(b, 0) == n % U32_LIMIT
  {
    var n1 := n / 0x100;
    var n2 := n1 / 0x100;
    SplitRemainder(n, 0x100_0000);
    SplitRemainder(n1, 0x1_0000);
    SplitRemainder(n2, 0x100);
    [n % 0x100, n1 % 0x100, n2 % 0x100, n2 / 0x100 % 0x100]
  }

  // ------------------------------------------------------------------ the mounted volume

  datatype Mount = Mount(
    reserved: nat, fatSize: nat, totalSectors: nat, firstData: nat, perCluster: nat, clusterCount: nat, root: nat)

  /** The fields of the boot sector that the mount reads. */
  datatype Bpb = Bpb(
    sectorSize: nat, perCluster: nat, reserved: nat, fats: nat, rootEntries: nat,
    total16: nat, fat16: nat, total32: nat, fat32: nat, root: nat)

  function DecodeBpb(b: Sector): (p: Bpb)
    ensures p.total16 < U16_LIMIT && p.total32 < U32_LIMIT
  {
    Bpb(U16At(b, 11), b[13], U16At(b, 14), b[16], U16At(b, 17),
        U16At(b, 19), U16At(b, 22), U32At(b, 32), U32At(b, 36), U32At(b, 44))
  }

  function Accepted(p: Bpb): Result<Mount, Error> {
    var total := if p.total16 != 0 then p.total16 else p.total32;
    if p.fat16 != 0 then Err(InvalidBpb)
    else if p.sectorSize != SECTOR || p.perCluster == 0 || !IsPowerOfTwo(p.perCluster) || p.perCluster > 128
            || p.reserved == 0 || p.fats == 0 || p.rootEntries != 0 || p.fat32 == 0 || p.root < 2 || total <= p.reserved
    then Err(InvalidBpb)
    else
      var firstData := p.reserved + p.fats * p.fat32;
      if firstData >= U64_LIMIT || total <= firstData then Err(InvalidBpb)
      else
        var count := (total - firstData) / p.perCluster;
        if count >= U32_LIMIT || count < 65_525 || (count + 2) * 4 > p.fat32 * SECTOR || p.root > count + 1
        then Err(InvalidBpb)
        else Ok(Mount(p.reserved, p.fat32, total, firstData, p.perCluster, count, p.root))
  }

  /** Reads the boot sector. */
  function Open(disk: Disk): Result<Mount, Error> {
    if 0 !in disk then Err(Io)
    else if disk[0][510] != 0x55 || disk[0][511] != 0xaa then Err(InvalidBpb)
    else Accepted(DecodeBpb(disk[0]))
  }

  /** What an accepted boot sector guarantees: the FAT covers every cluster and lies below the data. */
  predicate GoodMount(m: Mount) {
    && 1 <= m.reserved && 1 <= m.perCluster <= 128 && 1 <= m.fatSize
    && m.reserved + m.fatSize <= m.firstData && 65_525 <= m.clusterCount < U32_LIMIT
    && (m.clusterCount + 2) * 4 <= m.fatSize * SECTOR
    && m.firstData + m.clusterCount * m.perCluster <= m.totalSectors < U32_LIMIT
    && 2 <= m.root <= m.clusterCount + 1
  }

  lemma OpenIsGood(disk: Disk)
    requires Open(disk).Ok?
    ensures GoodMount(Open(disk).value)
  {
    AcceptedIsGood(DecodeBpb(disk[0]));
  }

  lemma AcceptedIsGood(p: Bpb)
    requires Accepted(p).Ok? && p.total16 < U16_LIMIT && p.total32 < U32_LIMIT
    ensures GoodMount(Accepted(p).value)
  {
    var m := Accepted(p).value;
    MulLe(1, p.fats, p.fat32);
    DivisionBound(m.totalSectors - m.firstData, m.perCluster);
  }

  lemma DivisionBound(a: nat, m: nat)
    requires m > 0
    ensures a / m * m <= a
  {
  }

  predicate InRange(m: Mount, cluster: nat) { 2 <= cluster <= m.clusterCount + 1 }

  /** The first sector of a cluster; below cluster 2 the source's subtraction wraps around. */
  function ClusterSector(m: Mount, cluster: nat): nat {
    (m.firstData + (cluster - 2) * m.perCluster) % U64_LIMIT
  }

  // ------------------------------------------------------------------ the FAT

  function NextCluster(m: Mount, disk: Disk, cluster: nat): Result<Option<nat>, Error> {
    var sector := m.reserved + cluster * 4 / SECTOR;
    if sector >= m.reserved + m.fatSize then Err(BadClusterChain)
    else if sector !in disk then Err(Io)
    else
      var value := U32At(disk[sector], cluster * 4 % SECTOR) % 0x1000_0000;
      if value >= EOC_MIN then Ok(None)
      else if value == 0 || value == BAD_CLUSTER || value > m.clusterCount + 1 then Err(BadClusterChain)
      else Ok(Some(value))
  }

  /** The clusters of a chain, in order, if it ends within the budget and stays in range. */
  function ChainOf(m: Mount, disk: Disk, cluster: nat, budget: nat): (r: Result<seq<nat>, Error>)
    ensures r.Ok? ==> 1 <= |r.value| <= budget && r.value[0] == cluster
    decreases budget
  {
    if budget == 0 || !InRange(m, cluster) then Err(BadClusterChain)
    else
      match NextCluster(m, disk, cluster)
      case Err(e) => Err(e)
      case Ok(None) => Ok([cluster])
      case Ok(Some(next)) =>
        match ChainOf(m, disk, next, budget - 1)
        case Err(e) => Err(e)
        case Ok(rest) => Ok([cluster] + rest)
  }

  // ------------------------------------------------------------------ reading and writing a chain

  datatype Writing = Writing(result: Result<(), Error>, disk: Disk)

  /** A sector's worth of input, zero-padded. */
  function Block(input: seq<byte>, copied: nat): Sector
    requires copied <= |input|
  {
    var length := Min(|input| - copied, SECTOR);
    input[copied..copied + length] + seq<byte>(SECTOR - length, _ => 0)
  }

  /** The write loops from this cluster and sector on. */
  function WriteFrom(m: Mount, accepts: set<nat>, disk: Disk, cluster: nat, sector: nat, budget: nat,
                     input: seq<byte>, copied: nat): Writing
    requires sector <= m.perCluster && copied <= |input|
    decreases budget, m.perCluster - sector
  {
    if budget == 0 then Writing(Err(BadClusterChain), disk)
    else if sector == 0 && !InRange(m, cluster) then Writing(Err(BadClusterChain), disk)
    else if sector == m.perCluster then
      match NextCluster(m, disk, cluster)
      case Err(e) => Writing(Err(e), disk)
      case Ok(None) => Writing(if copied == |input| then Ok(()) else Err(BadClusterChain), disk)
      case Ok(Some(next)) => WriteFrom(m, accepts, disk, next, 0, budget - 1, input, copied)
    else if copied == |input| then Writing(Ok(()), disk)
    else
      var lba := ClusterSector(m, cluster) + sector;
      if lba !in accepts then Writing(Err(Io), disk)
      else
        WriteFrom(m, accepts, disk[lba := Block(input, copied)], cluster, sector + 1, budget,
                  input, copied + Min(|input| - copied, SECTOR))
  }

  /** The read loops from this cluster and sector on, `got` being what was copied so far. */
  function ReadFrom(m: Mount, disk: Disk, cluster: nat, sector: nat, budget: nat, size: nat, got: seq<byte>)
    : Result<seq<byte>, Error>
    requires sector <= m.perCluster && |got| <= size
    decreases budget, m.perCluster - sector
  {
    if budget == 0 then Err(BadClusterChain)
    else if sector == 0 && !InRange(m, cluster) then Err(BadClusterChain)
    else if sector == m.perCluster then
      match NextCluster(m, disk, cluster)
      case Err(e) => Err(e)
      case Ok(None) => if |got| == size then Ok(got) else Err(BadClusterChain)
      case Ok(Some(next)) => ReadFrom(m, disk, next, 0, budget - 1, size, got)
    else if |got| == size then Ok(got)
    else
      var lba := ClusterSector(m, cluster) + sector;
      if lba !in disk then Err(Io)
      else
        ReadFrom(m, disk, cluster, sector + 1, budget, size, got + disk[lba][..Min(size - |got|, SECTOR)])
  }

  function ReadChain(m: Mount, disk: Disk, start: nat, size: nat, room: nat): Result<seq<byte>, Error> {
    if size > room then Err(BufferTooSmall)
    else if size == 0 then Ok([])
    else ReadFrom(m, disk, start, 0, m.clusterCount, size, [])
  }

  // ------------------------------------------------------------------ directory entries

  const LFN_ENTRIES := MAX_LFN_CHARS / 13

  type Entry = e: seq<byte> | |e| == ENTRY witness seq(ENTRY, _ => 0)

  /** The long name collected so far: the entry that arrived under each sequence number. */
  datatype LongName = LongName(parts: map<nat, Entry>, checksum: int, maxSequence: nat, valid: bool)

  const NO_NAME := LongName(map[], 0, 0, false)

  /** The thirteen characters of a long-name entry. */
  function Characters(e: Entry): (c: seq<nat>)
    ensures |c| == 13
  {
    [U16At(e, 1), U16At(e, 3), U16At(e, 5), U16At(e, 7), U16At(e, 9),
     U16At(e, 14), U16At(e, 16), U16At(e, 18), U16At(e, 20), U16At(e, 22), U16At(e, 24),
     U16At(e, 28), U16At(e, 30)]
  }

  /** A long-name entry starts a name, continues it, or spoils it. */
  function Accept(name: LongName, e: Entry): LongName {
    var sequence := e[0] % 0x20;
    if sequence == 0 || sequence > LFN_ENTRIES then NO_NAME
    else if e[0] / 0x40 % 2 == 1 then LongName(map[sequence := e], e[13], sequence, true)
    else if !name.valid || name.checksum != e[13] then NO_NAME
    else name.(parts := name.parts[sequence := e])
  }

  function Utf8(c: nat): seq<byte> {
    if c <= 0x7f then [c]
    else if c <= 0x7ff then [0xc0 + c / 0x40, 0x80 + c % 0x40]
    else [0xe0 + c / 0x1000 % 0x10, 0x80 + c / 0x40 % 0x40, 0x80 + c % 0x40]
  }

  /** Characters up to the first terminator, encoded. */
  function EncodeName(chars: seq<nat>): seq<byte> {
    if chars == [] || chars[0] == 0 || chars[0] == 0xffff then []
    else Utf8(chars[0]) + EncodeName(chars[1..])
  }

  /** The characters of the first `count` parts. */
  function Text(parts: map<nat, Entry>, count: nat): seq<nat>
    requires forall k :: 1 <= k <= count ==> k in parts
  {
    if count == 0 then [] else Text(parts, count - 1) + Characters(parts[count])
  }

  predicate LongMatches(name: LongName, target: seq<byte>, checksum: nat) {
    && name.valid && name.maxSequence != 0 && name.checksum == checksum
    && (forall k :: 1 <= k <= name.maxSequence ==> k in name.parts)
    && EncodeName(Text(name.parts, name.maxSequence)) == target
  }

  function ShortChecksum(name: seq<byte>): (sum: byte) {
    if name == [] then 0
    else
      var before: int := ShortChecksum(name[..|name| - 1]);
      (before / 2 + before % 2 * 0x80 + name[|name| - 1]) % 0x100
  }

  function Lower(b: byte): byte { if 'A' as int <= b <= 'Z' as int then b + 32 else b }

  function NoSpaces(s: seq<byte>): seq<byte> {
    if s == [] then [] else (if s[0] == ' ' as int then [] else [s[0]]) + NoSpaces(s[1..])
  }

  function ShortName(name: seq<byte>): seq<byte>
    requires |name| == 11
  {
    var extension := NoSpaces(name[8..11]);
    NoSpaces(name[..8]) + if extension == [] then [] else ['.' as int] + extension
  }

  predicate SameIgnoringCase(a: seq<byte>, b: seq<byte>) {
    |a| == |b| && forall k :: 0 <= k < |a| ==> Lower(a[k]) == Lower(b[k])
  }

  // ------------------------------------------------------------------ looking a name up

  datatype Found = Found(directory: bool, cluster: nat, size: nat)

  /** Where a short entry stands: its sector and its slot in it. */
  datatype Location = Location(entry: Found, sector: nat, slot: nat)

  /** What one directory sector says: a match at an entry, the end of the directory, or carry on. */
  datatype Scan = Hit(index: nat) | End | More(name: LongName)

  function EntryAt(data: Sector, index: nat): Entry
    requires index < SLOTS
  {
    data[index * ENTRY..index * ENTRY + ENTRY]
  }

  predicate Matches(name: LongName, e: Entry, target: seq<byte>)
  {
    LongMatches(name, target, ShortChecksum(e[..11])) || SameIgnoringCase(ShortName(e[..11]), target)
  }

  /** What one entry says, after the long name collected before it. */
  datatype Verdict = Last | Matched | Keep(name: LongName)

  function Judge(name: LongName, e: Entry, target: seq<byte>): (v: Verdict)
    ensures v.Matched? ==> e[11] != 0x0f
  {
    if e[0] == 0 then Last
    else if e[0] == 0xe5 then Keep(NO_NAME)
    else if e[11] == 0x0f then Keep(Accept(name, e))
    else if Matches(name, e, target) then Matched
    else Keep(NO_NAME)
  }

  function ScanSector(data: Sector, index: nat, name: LongName, target: seq<byte>): (r: Scan)
    requires index <= SLOTS
    ensures r.Hit? ==> index <= r.index < SLOTS && EntryAt(data, r.index)[11] != 0x0f
    decreases |data| - index
  {
    if index == SLOTS then More(name)
    else
      match Judge(name, EntryAt(data, index), target)
      case Last => End
      case Matched => Hit(index)
      case Keep(next) => ScanSector(data, index + 1, next, target)
  }

  function FoundAt(e: Entry): Found {
    Found(e[11] / 0x10 % 2 == 1, 0x1_0000 * U16At(e, 20) + U16At(e, 26), U32At(e, 28))
  }

  function LocationAt(data: Sector, lba: nat, index: nat): Location
    requires index < SLOTS
  {
    Location(FoundAt(EntryAt(data, index)), lba, index)
  }

  /** The location is a short entry of the disk. */
  predicate Stands(disk: Disk, at: Location) {
    && at.sector in disk && at.slot < SLOTS
    && at.entry == FoundAt(EntryAt(disk[at.sector], at.slot)) && EntryAt(disk[at.sector], at.slot)[11] != 0x0f
  }

  /** What one sector of a directory says. */
  datatype Peek = Unreadable | Here(location: Location) | Over | Onward(name: LongName)

  function PeekAt(m: Mount, disk: Disk, cluster: nat, sector: nat, name: LongName, target: seq<byte>): (r: Peek)
    ensures r.Here? ==> Stands(disk, r.location)
  {
    var lba := ClusterSector(m, cluster) + sector;
    if lba !in disk then Unreadable
    else
      match ScanSector(disk[lba], 0, name, target)
      case Hit(index) => Here(LocationAt(disk[lba], lba, index))
      case End => Over
      case More(next) => Onward(next)
  }

  /** The directory search from this cluster and sector on. */
  function FindFrom(m: Mount, disk: Disk, cluster: nat, sector: nat, budget: nat, name: LongName, target: seq<byte>)
    : (r: Result<Location, Error>)
    requires sector <= m.perCluster
    ensures r.Ok? ==> Stands(disk, r.value)
    decreases budget, m.perCluster - sector
  {
    if budget == 0 then Err(BadClusterChain)
    else if sector == m.perCluster then
      match NextCluster(m, disk, cluster)
      case Err(e) => Err(e)
      case Ok(None) => Err(NotFound)
      case Ok(Some(next)) => FindFrom(m, disk, next, 0, budget - 1, name, target)
    else
      match PeekAt(m, disk, cluster, sector, name, target)
      case Unreadable => Err(Io)
      case Here(location) => Ok(location)
      case Over => Err(NotFound)
      case Onward(next) => FindFrom(m, disk, cluster, sector + 1, budget, next, target)
  }

  function Find(m: Mount, disk: Disk, directory: nat, target: seq<byte>): (r: Result<Location, Error>)
    ensures r.Ok? ==> Stands(disk, r.value)
  {
    FindFrom(m, disk, directory, 0, m.clusterCount, NO_NAME, target)
  }

  // ------------------------------------------------------------------ paths and files

  /** The non-empty pieces between slashes, `piece` being the one under way. */
  function Pieces(path: seq<byte>, piece: seq<byte>): seq<seq<byte>> {
    if path == [] then if piece == [] then [] else [piece]
    else if path[0] != '/' as int then Pieces(path[1..], piece + [path[0]])
    else (if piece == [] then [] else [piece]) + Pieces(path[1..], [])
  }

  function Components(path: seq<byte>): (r: Result<seq<seq<byte>>, Error>)
    ensures r.Ok? ==> 1 <= |r.value| <= MAX_COMPONENTS
  {
    if path == [] || path[0] != '/' as int then Err(InvalidPath)
    else
      var pieces := Pieces(path[1..], []);
      if 1 <= |pieces| <= MAX_COMPONENTS then Ok(pieces) else Err(InvalidPath)
  }

  /** Walks the directories of a path and finds the file its last component names. */
  function Resolve(m: Mount, disk: Disk, directory: nat, names: seq<seq<byte>>): (r: Result<Location, Error>)
    requires names != []
    ensures r.Ok? ==> Stands(disk, r.value) && !r.value.entry.directory
    decreases |names|
  {
    match Find(m, disk, directory, names[0])
    case Err(e) => Err(e)
    case Ok(location) =>
      if |names| == 1 then if location.entry.directory then Err(IsDirectory) else Ok(location)
      else if !location.entry.directory then Err(NotDirectory)
      else Resolve(m, disk, location.entry.cluster, names[1..])
  }

  function ReadFile(m: Mount, disk: Disk, path: seq<byte>, room: nat): Result<seq<byte>, Error> {
    match Components(path)
    case Err(e) => Err(e)
    case Ok(names) =>
      match Resolve(m, disk, m.root, names)
      case Err(e) => Err(e)
      case Ok(location) => ReadChain(m, disk, location.entry.cluster, location.entry.size, room)
  }

  /** A directory sector with the size field of one entry replaced. */
  function WithSize(data: Sector, slot: nat, size: nat): Sector
    requires slot < SLOTS
  {
    var offset := slot * ENTRY;
    data[..offset + 28] + U32Bytes(size) + data[offset + 32..]
  }

  function CapacityOf(m: Mount, chain: seq<nat>): nat { |chain| * (m.perCluster * SECTOR) }

  /** A write that reuses the file's chain and then records the new size; `accepts` is the writer. */
  function WriteFile(m: Mount, accepts: Option<set<nat>>, disk: Disk, path: seq<byte>, input: seq<byte>): Writing {
    match accepts
    case None => Writing(Err(ReadOnly), disk)
    case Some(accepts) =>
      match Components(path)
      case Err(e) => Writing(Err(e), disk)
      case Ok(names) =>
        match Resolve(m, disk, m.root, names)
        case Err(e) => Writing(Err(e), disk)
        case Ok(location) => Overwrite(m, accepts, disk, location, input)
  }

  function Overwrite(m: Mount, accepts: set<nat>, disk: Disk, location: Location, input: seq<byte>): Writing
    requires location.slot < SLOTS
  {
    match ChainOf(m, disk, location.entry.cluster, m.clusterCount)
    case Err(e) => Writing(Err(e), disk)
    case Ok(chain) =>
      if |input| > CapacityOf(m, chain) then Writing(Err(NoSpace), disk)
      else
        var written := WriteFrom(m, accepts, disk, location.entry.cluster, 0, m.clusterCount, input, 0);
        if written.result.Err? then written
        else SetSize(accepts, written.disk, location, |input|)
  }

  function SetSize(accepts: set<nat>, disk: Disk, location: Location, size: nat): Writing
    requires location.slot < SLOTS
  {
    if location.sector !in disk || location.sector !in accepts then Writing(Err(Io), disk)
    else Writing(Ok(()), disk[location.sector := WithSize(disk[location.sector], location.slot, size)])
  }
}
