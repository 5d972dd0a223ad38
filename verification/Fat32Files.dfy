/** What a FAT32 overwrite keeps and what the next read returns. */
module Fat32Files {
  import opened Common
  import opened Fat32

  function At(disk: Disk, lba: nat): Option<Sector> { if lba in disk then Some(disk[lba]) else None }

  /** The two disks have the same sectors below the data area, the FAT among them. */
  ghost predicate SameFat(m: Mount, a: Disk, b: Disk) {
    forall lba: nat :: lba < m.firstData ==> At(a, lba) == At(b, lba)
  }

  // ------------------------------------------------------------------ chains

  lemma NextSame(m: Mount, a: Disk, b: Disk, cluster: nat)
    requires GoodMount(m) && SameFat(m, a, b)
    ensures NextCluster(m, a, cluster) == NextCluster(m, b, cluster)
  {
    var sector := m.reserved + cluster * 4 / SECTOR;
    if sector < m.reserved + m.fatSize {
      assert At(a, sector) == At(b, sector);
    }
  }

  lemma {:induction false} ChainSame(m: Mount, a: Disk, b: Disk, cluster: nat, budget: nat)
    requires GoodMount(m) && SameFat(m, a, b)
    ensures ChainOf(m, a, cluster, budget) == ChainOf(m, b, cluster, budget)
    decreases budget
  {
    NextSame(m, a, b, cluster);
    if budget != 0 && InRange(m, cluster) && NextCluster(m, a, cluster).Ok? && NextCluster(m, a, cluster).value.Some? {
      ChainSame(m, a, b, NextCluster(m, a, cluster).value.value, budget - 1);
    }
  }

  /** The chain of a cluster does not depend on how much budget was left over. */
  lemma {:induction false} ChainUnique(m: Mount, disk: Disk, cluster: nat, b1: nat, b2: nat)
    requires ChainOf(m, disk, cluster, b1).Ok? && ChainOf(m, disk, cluster, b2).Ok?
    ensures ChainOf(m, disk, cluster, b1) == ChainOf(m, disk, cluster, b2)
    decreases b1
  {
    var next := NextCluster(m, disk, cluster).value;
    if next.Some? {
      ChainUnique(m, disk, next.value, b1 - 1, b2 - 1);
    }
  }

  /** Every cluster of a chain is in range and starts the rest of it. */
  lemma {:induction false} ChainSuffix(m: Mount, disk: Disk, cluster: nat, budget: nat, i: nat)
    requires ChainOf(m, disk, cluster, budget).Ok? && i < |ChainOf(m, disk, cluster, budget).value|
    ensures var chain := ChainOf(m, disk, cluster, budget).value;
            InRange(m, chain[i]) && ChainOf(m, disk, chain[i], budget - i) == Ok(chain[i..])
    decreases budget
  {
    var chain := ChainOf(m, disk, cluster, budget).value;
    if i == 0 {
      assert chain[0..] == chain;
    } else {
      var next := NextCluster(m, disk, cluster).value;
      ChainSuffix(m, disk, next.value, budget - 1, i - 1);
      assert chain[1..][i - 1..] == chain[i..];
    }
  }

  /** A chain that is accepted never visits a cluster twice. */
  lemma ChainNeverRepeats(m: Mount, disk: Disk, cluster: nat, budget: nat, i: nat, j: nat)
    requires ChainOf(m, disk, cluster, budget).Ok? && i < j < |ChainOf(m, disk, cluster, budget).value|
    ensures var chain := ChainOf(m, disk, cluster, budget).value; chain[i] != chain[j]
  {
    var chain := ChainOf(m, disk, cluster, budget).value;
    ChainSuffix(m, disk, cluster, budget, i);
    ChainSuffix(m, disk, cluster, budget, j);
    if chain[i] == chain[j] {
      ChainUnique(m, disk, chain[i], budget - i, budget - j);
      assert false;
    }
  }

  // ------------------------------------------------------------------ sectors of clusters

  function SectorOf(m: Mount, cluster: nat, sector: nat): nat { ClusterSector(m, cluster) + sector }

  lemma SectorIsPlain(m: Mount, cluster: nat)
    requires GoodMount(m) && InRange(m, cluster)
    ensures ClusterSector(m, cluster) == m.firstData + (cluster - 2) * m.perCluster
    ensures ClusterSector(m, cluster) >= m.firstData
  {
    MulLe(0, cluster - 2, m.perCluster);
    MulLe(cluster - 2, m.clusterCount, m.perCluster);
  }

  lemma SectorsApart(m: Mount, a: nat, s: nat, b: nat, t: nat)
    requires GoodMount(m) && InRange(m, a) && InRange(m, b) && s < m.perCluster && t < m.perCluster
    requires SectorOf(m, a, s) == SectorOf(m, b, t)
    ensures a == b && s == t
  {
    SectorIsPlain(m, a);
    SectorIsPlain(m, b);
    var offset := (a - 2) * m.perCluster + s;
    DivisionUnique(offset, m.perCluster, a - 2, s);
    DivisionUnique(offset, m.perCluster, b - 2, t);
  }

  /** The sector belongs to one of the clusters, in the first one at or after `from`. */
  ghost predicate InRest(m: Mount, rest: seq<nat>, from: nat, lba: nat) {
    exists k, s :: 0 <= k < |rest| && 0 <= s < m.perCluster && (k == 0 ==> from <= s) && lba == SectorOf(m, rest[k], s)
  }

  ghost predicate InChain(m: Mount, chain: seq<nat>, lba: nat) { InRest(m, chain, 0, lba) }

  lemma RestIsData(m: Mount, disk: Disk, cluster: nat, budget: nat, from: nat, lba: nat)
    requires GoodMount(m) && ChainOf(m, disk, cluster, budget).Ok?
    requires InRest(m, ChainOf(m, disk, cluster, budget).value, from, lba)
    ensures lba >= m.firstData
  {
    var chain := ChainOf(m, disk, cluster, budget).value;
    var k, s :| 0 <= k < |chain| && 0 <= s < m.perCluster && (k == 0 ==> from <= s) && lba == SectorOf(m, chain[k], s);
    ChainSuffix(m, disk, cluster, budget, k);
    SectorIsPlain(m, chain[k]);
  }

  /** A sector of the chain is not met again further along. */
  lemma NotAgain(m: Mount, disk: Disk, cluster: nat, budget: nat, sector: nat)
    requires GoodMount(m) && ChainOf(m, disk, cluster, budget).Ok? && sector < m.perCluster
    ensures !InRest(m, ChainOf(m, disk, cluster, budget).value, sector + 1, SectorOf(m, cluster, sector))
  {
    var chain := ChainOf(m, disk, cluster, budget).value;
    var lba := SectorOf(m, cluster, sector);
    if InRest(m, chain, sector + 1, lba) {
      var k, s :| 0 <= k < |chain| && 0 <= s < m.perCluster && (k == 0 ==> sector + 1 <= s)
                  && lba == SectorOf(m, chain[k], s);
      ChainSuffix(m, disk, cluster, budget, k);
      SectorsApart(m, cluster, sector, chain[k], s);
      if k != 0 {
        ChainNeverRepeats(m, disk, cluster, budget, 0, k);
      }
    }
  }

  // ------------------------------------------------------------------ writing a chain, then reading it

  /** The write under way from this cluster and sector, on a disk where the rest of the chain is accepted. */
  ghost predicate Writes(m: Mount, disk: Disk, cluster: nat, sector: nat, budget: nat, input: seq<byte>, copied: nat) {
    && GoodMount(m) && sector <= m.perCluster && copied <= |input|
    && ChainOf(m, disk, cluster, budget).Ok?
  }

  /** The disk after one more sector has been written. */
  function Next(m: Mount, disk: Disk, cluster: nat, sector: nat, input: seq<byte>, copied: nat): Disk
    requires copied <= |input|
  {
    disk[SectorOf(m, cluster, sector) := Block(input, copied)]
  }

  lemma NextKeepsFat(m: Mount, disk: Disk, cluster: nat, sector: nat, input: seq<byte>, copied: nat)
    requires GoodMount(m) && InRange(m, cluster) && sector < m.perCluster && copied <= |input|
    ensures SameFat(m, disk, Next(m, disk, cluster, sector, input, copied))
  {
    SectorIsPlain(m, cluster);
  }

  lemma WriteStep(
    m: Mount, accepts: set<nat>, disk: Disk, cluster: nat, sector: nat, budget: nat, input: seq<byte>, copied: nat)
    requires Writes(m, disk, cluster, sector, budget, input, copied)
    requires sector < m.perCluster && copied < |input| && SectorOf(m, cluster, sector) in accepts
    ensures var disk1, copied1 := Next(m, disk, cluster, sector, input, copied), copied + Min(|input| - copied, SECTOR);
            && WriteFrom(m, accepts, disk, cluster, sector, budget, input, copied)
               == WriteFrom(m, accepts, disk1, cluster, sector + 1, budget, input, copied1)
            && Writes(m, disk1, cluster, sector + 1, budget, input, copied1)
            && ChainOf(m, disk1, cluster, budget) == ChainOf(m, disk, cluster, budget)
  {
    NextKeepsFat(m, disk, cluster, sector, input, copied);
    ChainSame(m, disk, Next(m, disk, cluster, sector, input, copied), cluster, budget);
  }

  /** Whatever its outcome, a write changes sectors of the rest of the chain only. */
  lemma {:induction false} WriteTouches(
    m: Mount, accepts: set<nat>, disk: Disk, cluster: nat, sector: nat, budget: nat, input: seq<byte>, copied: nat,
    lba: nat)
    requires Writes(m, disk, cluster, sector, budget, input, copied)
    requires !InRest(m, ChainOf(m, disk, cluster, budget).value, sector, lba)
    ensures At(WriteFrom(m, accepts, disk, cluster, sector, budget, input, copied).disk, lba) == At(disk, lba)
    decreases budget, m.perCluster - sector
  {
    var rest := ChainOf(m, disk, cluster, budget).value;
    if sector == m.perCluster {
      var next := NextCluster(m, disk, cluster).value;
      if next.Some? {
        RestAfter(m, rest, sector, lba);
        WriteTouches(m, accepts, disk, next.value, 0, budget - 1, input, copied, lba);
      }
    } else if copied != |input| && SectorOf(m, cluster, sector) in accepts {
      WriteStep(m, accepts, disk, cluster, sector, budget, input, copied);
      RestAfter(m, rest, sector, lba);
      var disk1 := Next(m, disk, cluster, sector, input, copied);
      WriteTouches(m, accepts, disk1, cluster, sector + 1, budget, input, copied + Min(|input| - copied, SECTOR), lba);
    }
  }

  /** A sector outside the rest stays outside as the rest shrinks. */
  lemma RestAfter(m: Mount, rest: seq<nat>, sector: nat, lba: nat)
    requires rest != [] && !InRest(m, rest, sector, lba)
    ensures !InRest(m, rest, sector + 1, lba) && !InRest(m, rest[1..], 0, lba)
    ensures sector < m.perCluster ==> lba != SectorOf(m, rest[0], sector)
  {
  }

  lemma WriteKeepsFat(
    m: Mount, accepts: set<nat>, disk: Disk, cluster: nat, sector: nat, budget: nat, input: seq<byte>, copied: nat)
    requires Writes(m, disk, cluster, sector, budget, input, copied)
    ensures SameFat(m, disk, WriteFrom(m, accepts, disk, cluster, sector, budget, input, copied).disk)
  {
    var rest, after := ChainOf(m, disk, cluster, budget).value,
                       WriteFrom(m, accepts, disk, cluster, sector, budget, input, copied).disk;
    forall lba: nat | lba < m.firstData
      ensures At(disk, lba) == At(after, lba)
    {
      if InRest(m, rest, sector, lba) {
        RestIsData(m, disk, cluster, budget, sector, lba);
      }
      WriteTouches(m, accepts, disk, cluster, sector, budget, input, copied, lba);
    }
  }

  /** A read that has all its bytes ends well on an accepted chain. */
  lemma ReadDone(m: Mount, disk: Disk, cluster: nat, sector: nat, budget: nat, got: seq<byte>)
    requires GoodMount(m) && sector <= m.perCluster && ChainOf(m, disk, cluster, budget).Ok?
    ensures ReadFrom(m, disk, cluster, sector, budget, |got|, got) == Ok(got)
  {
    if sector == m.perCluster {
      var next := NextCluster(m, disk, cluster).value;
      if next.Some? {
        assert ChainOf(m, disk, next.value, budget - 1).Ok?;
      }
    }
  }

  /** Reading from where a finished write began returns what it wrote, up to any size. */
  lemma {:induction false} WrittenIsRead(
    m: Mount, accepts: set<nat>, disk: Disk, cluster: nat, sector: nat, budget: nat, input: seq<byte>, copied: nat,
    size: nat)
    requires Writes(m, disk, cluster, sector, budget, input, copied) && copied <= size <= |input|
    requires WriteFrom(m, accepts, disk, cluster, sector, budget, input, copied).result.Ok?
    ensures var after := WriteFrom(m, accepts, disk, cluster, sector, budget, input, copied).disk;
            ReadFrom(m, after, cluster, sector, budget, size, input[..copied]) == Ok(input[..size])
    decreases budget, m.perCluster - sector
  {
    var after := WriteFrom(m, accepts, disk, cluster, sector, budget, input, copied).disk;
    WriteKeepsFat(m, accepts, disk, cluster, sector, budget, input, copied);
    ChainSame(m, disk, after, cluster, budget);
    NextSame(m, disk, after, cluster);
    if copied == size {
      ReadDone(m, after, cluster, sector, budget, input[..copied]);
    } else if sector == m.perCluster {
      var next := NextCluster(m, disk, cluster).value;
      WrittenIsRead(m, accepts, disk, next.value, 0, budget - 1, input, copied, size);
    } else {
      SectorIsRead(m, accepts, disk, cluster, sector, budget, input, copied, size);
    }
  }

  lemma SectorIsRead(
    m: Mount, accepts: set<nat>, disk: Disk, cluster: nat, sector: nat, budget: nat, input: seq<byte>, copied: nat,
    size: nat)
    requires Writes(m, disk, cluster, sector, budget, input, copied) && copied < size <= |input|
             && sector < m.perCluster
    requires WriteFrom(m, accepts, disk, cluster, sector, budget, input, copied).result.Ok?
    ensures var after := WriteFrom(m, accepts, disk, cluster, sector, budget, input, copied).disk;
            ReadFrom(m, after, cluster, sector, budget, size, input[..copied]) == Ok(input[..size])
    decreases budget, m.perCluster - sector, 0
  {
    var after := WriteFrom(m, accepts, disk, cluster, sector, budget, input, copied).disk;
    var disk1 := Next(m, disk, cluster, sector, input, copied);
    var wrote, read := Min(|input| - copied, SECTOR), Min(size - copied, SECTOR);
    WriteStep(m, accepts, disk, cluster, sector, budget, input, copied);
    SectorLasts(m, accepts, disk, cluster, sector, budget, input, copied);
    if read == wrote {
      WrittenIsRead(m, accepts, disk1, cluster, sector + 1, budget, input, copied + wrote, size);
    } else {
      WriteKeepsFat(m, accepts, disk1, cluster, sector + 1, budget, input, copied + wrote);
      ChainSame(m, disk1, after, cluster, budget);
      ReadDone(m, after, cluster, sector + 1, budget, input[..size]);
    }
    ReadStep(m, after, cluster, sector, budget, input, copied, size);
  }

  /** What is written to one sector is still there when the write ends. */
  lemma SectorLasts(
    m: Mount, accepts: set<nat>, disk: Disk, cluster: nat, sector: nat, budget: nat, input: seq<byte>, copied: nat)
    requires Writes(m, disk, cluster, sector, budget, input, copied) && copied < |input| && sector < m.perCluster
    requires SectorOf(m, cluster, sector) in accepts
    ensures var after := WriteFrom(m, accepts, disk, cluster, sector, budget, input, copied).disk;
            At(after, SectorOf(m, cluster, sector)) == Some(Block(input, copied))
  {
    var lba, disk1 := SectorOf(m, cluster, sector), Next(m, disk, cluster, sector, input, copied);
    WriteStep(m, accepts, disk, cluster, sector, budget, input, copied);
    NotAgain(m, disk, cluster, budget, sector);
    WriteTouches(m, accepts, disk1, cluster, sector + 1, budget, input, copied + Min(|input| - copied, SECTOR), lba);
  }

  lemma ReadStep(
    m: Mount, disk: Disk, cluster: nat, sector: nat, budget: nat, input: seq<byte>, copied: nat, size: nat)
    requires sector < m.perCluster && copied < size <= |input| && InRange(m, cluster) && budget != 0
    requires At(disk, SectorOf(m, cluster, sector)) == Some(Block(input, copied))
    ensures ReadFrom(m, disk, cluster, sector, budget, size, input[..copied])
            == ReadFrom(m, disk, cluster, sector + 1, budget, size, input[..copied + Min(size - copied, SECTOR)])
  {
    var read := Min(size - copied, SECTOR);
    assert Block(input, copied)[..read] == input[copied..copied + read];
    assert input[..copied] + input[copied..copied + read] == input[..copied + read];
  }

  /** The bytes the rest of a chain holds. */
  function RoomIn(m: Mount, rest: seq<nat>, sector: nat): int { (|rest| * m.perCluster - sector) * SECTOR }

  lemma RoomAfter(m: Mount, rest: seq<nat>)
    requires rest != []
    ensures RoomIn(m, rest, m.perCluster) == RoomIn(m, rest[1..], 0)
  {
    Distribute(|rest| - 1, 1, m.perCluster);
  }

  /** The writer refuses a sector of the rest. */
  ghost predicate Blocked(m: Mount, accepts: set<nat>, rest: seq<nat>, sector: nat) {
    exists lba :: InRest(m, rest, sector, lba) && lba !in accepts
  }

  predicate DoneOrRefused(r: Result<(), Error>, refused: bool) { r.Ok? || (r == Err(Io) && refused) }

  /** On an accepted chain with room for the input, a write fails only where the writer does. */
  lemma {:induction false} WriteSucceeds(
    m: Mount, accepts: set<nat>, disk: Disk, cluster: nat, sector: nat, budget: nat, input: seq<byte>, copied: nat)
    requires Writes(m, disk, cluster, sector, budget, input, copied)
    requires |input| - copied <= RoomIn(m, ChainOf(m, disk, cluster, budget).value, sector)
    ensures DoneOrRefused(WriteFrom(m, accepts, disk, cluster, sector, budget, input, copied).result,
                          Blocked(m, accepts, ChainOf(m, disk, cluster, budget).value, sector))
    decreases budget, m.perCluster - sector
  {
    var rest := ChainOf(m, disk, cluster, budget).value;
    if sector == m.perCluster {
      RoomAfter(m, rest);
      var next := NextCluster(m, disk, cluster).value;
      if next.Some? {
        WriteSucceeds(m, accepts, disk, next.value, 0, budget - 1, input, copied);
        RestWidens(m, accepts, rest, sector);
      }
    } else if copied != |input| {
      SectorSucceeds(m, accepts, disk, cluster, sector, budget, input, copied);
    }
  }

  lemma {:induction false} SectorSucceeds(
    m: Mount, accepts: set<nat>, disk: Disk, cluster: nat, sector: nat, budget: nat, input: seq<byte>, copied: nat)
    requires Writes(m, disk, cluster, sector, budget, input, copied) && sector < m.perCluster && copied < |input|
    requires |input| - copied <= RoomIn(m, ChainOf(m, disk, cluster, budget).value, sector)
    ensures DoneOrRefused(WriteFrom(m, accepts, disk, cluster, sector, budget, input, copied).result,
                          Blocked(m, accepts, ChainOf(m, disk, cluster, budget).value, sector))
    decreases budget, m.perCluster - sector, 0
  {
    var rest, lba := ChainOf(m, disk, cluster, budget).value, SectorOf(m, cluster, sector);
    if lba in accepts {
      var disk1, copied1 := Next(m, disk, cluster, sector, input, copied), copied + Min(|input| - copied, SECTOR);
      RoomStep(m, rest, sector, |input|, copied, copied1);
      WriteStep(m, accepts, disk, cluster, sector, budget, input, copied);
      WriteSucceeds(m, accepts, disk1, cluster, sector + 1, budget, input, copied1);
      RestWidens(m, accepts, rest, sector);
    } else {
      WriteRefused(m, accepts, disk, cluster, sector, budget, input, copied);
      assert InRest(m, rest, sector, lba);
    }
  }

  lemma RoomStep(m: Mount, rest: seq<nat>, sector: nat, size: nat, copied: nat, copied1: nat)
    requires copied < size && copied1 == copied + Min(size - copied, SECTOR) && sector < m.perCluster && rest != []
    requires size - copied <= RoomIn(m, rest, sector)
    ensures size - copied1 <= RoomIn(m, rest, sector + 1)
  {
    var whole := |rest| * m.perCluster;
    MulLe(1, |rest|, m.perCluster);
    assert RoomIn(m, rest, sector) == (whole - sector) * SECTOR;
    assert RoomIn(m, rest, sector + 1) == (whole - sector - 1) * SECTOR;
  }

  lemma WriteRefused(
    m: Mount, accepts: set<nat>, disk: Disk, cluster: nat, sector: nat, budget: nat, input: seq<byte>, copied: nat)
    requires Writes(m, disk, cluster, sector, budget, input, copied) && sector < m.perCluster && copied < |input|
    requires SectorOf(m, cluster, sector) !in accepts
    ensures WriteFrom(m, accepts, disk, cluster, sector, budget, input, copied).result == Err(Io)
  {
  }

  lemma RestWidens(m: Mount, accepts: set<nat>, rest: seq<nat>, sector: nat)
    requires rest != []
    ensures Blocked(m, accepts, rest, sector + 1) || Blocked(m, accepts, rest[1..], 0) ==>
              Blocked(m, accepts, rest, sector)
  {
    forall lba | InRest(m, rest, sector + 1, lba) || InRest(m, rest[1..], 0, lba)
      ensures InRest(m, rest, sector, lba)
    {
      if !InRest(m, rest, sector, lba) {
        RestAfter(m, rest, sector, lba);
      }
    }
  }

  // ------------------------------------------------------------------ the directories on the way

  /** Every cluster a search reads is in range and outside the chain. */
  ghost predicate FindClear(
    m: Mount, disk: Disk, chain: seq<nat>, cluster: nat, sector: nat, budget: nat, name: LongName, target: seq<byte>)
    requires sector <= m.perCluster
    decreases budget, m.perCluster - sector
  {
    budget != 0 ==>
      && InRange(m, cluster) && cluster !in chain
      && if sector == m.perCluster then
           match NextCluster(m, disk, cluster)
           case Ok(Some(next)) => FindClear(m, disk, chain, next, 0, budget - 1, name, target)
           case _ => true
         else
           match PeekAt(m, disk, cluster, sector, name, target)
           case Onward(next) => FindClear(m, disk, chain, cluster, sector + 1, budget, next, target)
           case _ => true
  }

  /** Every directory cluster read on the way to the file is in range and outside the chain. */
  ghost predicate PathClear(m: Mount, disk: Disk, chain: seq<nat>, directory: nat, names: seq<seq<byte>>)
    requires names != []
    decreases |names|
  {
    && FindClear(m, disk, chain, directory, 0, m.clusterCount, NO_NAME, names[0])
    && var found := Find(m, disk, directory, names[0]);
       found.Ok? && found.value.entry.directory && |names| > 1 ==>
         PathClear(m, disk, chain, found.value.entry.cluster, names[1..])
  }

  /** `after` is `disk` but for the chain's sectors and the size field of the entry at `at`. */
  ghost predicate Resized(m: Mount, disk: Disk, chain: seq<nat>, at: Location, size: nat, after: Disk) {
    && at.slot < SLOTS && at.sector in disk
    && forall lba: nat :: !InChain(m, chain, lba) ==>
         At(after, lba) == if lba == at.sector then Some(WithSize(disk[lba], at.slot, size)) else At(disk, lba)
  }

  /** A location, and an answer that may hold one, after the entry at `at` was given a size. */
  function Seen(location: Location, at: Location, size: nat): Location {
    if location.sector == at.sector && location.slot == at.slot
    then location.(entry := location.entry.(size := size % U32_LIMIT))
    else location
  }

  function SeenResult(r: Result<Location, Error>, at: Location, size: nat): Result<Location, Error> {
    if r.Ok? then Ok(Seen(r.value, at, size)) else r
  }

  function SeenPeek(p: Peek, at: Location, size: nat): Peek {
    if p.Here? then Here(Seen(p.location, at, size)) else p
  }

  lemma WithSizeAt(data: Sector, slot: nat, size: nat, p: nat)
    requires slot < SLOTS && p < SECTOR
    ensures var offset := slot * ENTRY + 28;
            WithSize(data, slot, size)[p] == if offset <= p < offset + 4 then U32Bytes(size)[p - offset] else data[p]
  {
  }

  /** The size field is the last part of its own entry and no part of another. */
  lemma EntryResized(data: Sector, slot: nat, size: nat, index: nat)
    requires slot < SLOTS && index < SLOTS
    ensures var e, f := EntryAt(data, index), EntryAt(WithSize(data, slot, size), index);
            e[..28] == f[..28] && (index != slot ==> e == f) && (index == slot ==> f[28..] == U32Bytes(size))
  {
    var e, f := EntryAt(data, index), EntryAt(WithSize(data, slot, size), index);
    forall p: nat | p < ENTRY
      ensures f[p] == if index == slot && p >= 28 then U32Bytes(size)[p - 28] else e[p]
    {
      WithSizeAt(data, slot, size, index * ENTRY + p);
    }
  }

  /** All but the size of a short entry is in its first 28 bytes. */
  lemma EntryHead(e: Entry, f: Entry, name: LongName, target: seq<byte>)
    requires e[..28] == f[..28] && (e == f || e[11] != 0x0f)
    ensures Judge(name, e, target) == Judge(name, f, target)
    ensures FoundAt(f) == FoundAt(e).(size := U32At(f, 28))
  {
    forall p: nat | p < 28 ensures e[p] == f[p] { assert e[..28][p] == f[..28][p]; }
    assert e[..11] == f[..11];
  }

  ghost predicate SameVerdict(a: Sector, b: Sector, index: nat, name: LongName, target: seq<byte>)
    requires index < SLOTS
  {
    Judge(name, EntryAt(a, index), target) == Judge(name, EntryAt(b, index), target)
  }

  ghost predicate SameVerdicts(a: Sector, b: Sector, target: seq<byte>) {
    forall k: nat, n: LongName :: k < SLOTS ==> SameVerdict(a, b, k, n, target)
  }

  lemma {:induction false} ScanSame(a: Sector, b: Sector, index: nat, name: LongName, target: seq<byte>)
    requires index <= SLOTS && SameVerdicts(a, b, target)
    ensures ScanSector(a, index, name, target) == ScanSector(b, index, name, target)
    decreases SLOTS - index
  {
    if index < SLOTS {
      var v := Judge(name, EntryAt(a, index), target);
      assert SameVerdict(a, b, index, name, target);
      if v.Keep? {
        ScanSame(a, b, index + 1, v.name, target);
      }
    }
  }

  /** Giving a short entry a size changes no search through its sector. */
  lemma ScanResized(data: Sector, slot: nat, size: nat, name: LongName, target: seq<byte>)
    requires slot < SLOTS && EntryAt(data, slot)[11] != 0x0f
    ensures ScanSector(WithSize(data, slot, size), 0, name, target) == ScanSector(data, 0, name, target)
  {
    var resized := WithSize(data, slot, size);
    forall k: nat, n: LongName | k < SLOTS
      ensures SameVerdict(data, resized, k, n, target)
    {
      EntryResized(data, slot, size, k);
      EntryHead(EntryAt(data, k), EntryAt(resized, k), n, target);
    }
    ScanSame(data, resized, 0, name, target);
  }

  /** A sector of a cluster outside the chain is no sector of the chain. */
  lemma OutsideChain(m: Mount, disk: Disk, start: nat, cluster: nat, sector: nat)
    requires GoodMount(m) && ChainOf(m, disk, start, m.clusterCount).Ok?
    requires InRange(m, cluster) && sector < m.perCluster
    requires cluster !in ChainOf(m, disk, start, m.clusterCount).value
    ensures !InChain(m, ChainOf(m, disk, start, m.clusterCount).value, SectorOf(m, cluster, sector))
  {
    var chain, lba := ChainOf(m, disk, start, m.clusterCount).value, SectorOf(m, cluster, sector);
    if InChain(m, chain, lba) {
      var k, s :| 0 <= k < |chain| && 0 <= s < m.perCluster && lba == SectorOf(m, chain[k], s);
      ChainSuffix(m, disk, start, m.clusterCount, k);
      SectorsApart(m, cluster, sector, chain[k], s);
    }
  }

  /** An overwrite of the file at `at` under way: what the lemmas about searches need. */
  ghost predicate Overwritten(m: Mount, disk: Disk, at: Location, size: nat, after: Disk) {
    && GoodMount(m) && Stands(disk, at) && !at.entry.directory
    && ChainOf(m, disk, at.entry.cluster, m.clusterCount).Ok?
    && Resized(m, disk, ChainOf(m, disk, at.entry.cluster, m.clusterCount).value, at, size, after)
    && SameFat(m, disk, after)
  }

  /** Searches that stay clear of the chain find what they found before. */
  lemma {:induction false} FindSame(
    m: Mount, disk: Disk, at: Location, size: nat, after: Disk,
    cluster: nat, sector: nat, budget: nat, name: LongName, target: seq<byte>)
    requires Overwritten(m, disk, at, size, after) && sector <= m.perCluster
    requires FindClear(m, disk, ChainOf(m, disk, at.entry.cluster, m.clusterCount).value, cluster, sector, budget,
             name, target)
    ensures FindFrom(m, after, cluster, sector, budget, name, target)
            == SeenResult(FindFrom(m, disk, cluster, sector, budget, name, target), at, size)
    decreases budget, m.perCluster - sector
  {
    if budget != 0 {
      if sector == m.perCluster {
        NextSame(m, disk, after, cluster);
        match NextCluster(m, disk, cluster)
        case Ok(Some(next)) => FindSame(m, disk, at, size, after, next, 0, budget - 1, name, target);
        case _ =>
      } else {
        PeekSame(m, disk, at, size, after, cluster, sector, name, target);
        match PeekAt(m, disk, cluster, sector, name, target)
        case Onward(next) => FindSame(m, disk, at, size, after, cluster, sector + 1, budget, next, target);
        case _ =>
      }
    }
  }

  /** One sector of such a search. */
  lemma PeekSame(
    m: Mount, disk: Disk, at: Location, size: nat, after: Disk, cluster: nat, sector: nat, name: LongName,
    target: seq<byte>)
    requires Overwritten(m, disk, at, size, after) && sector < m.perCluster && InRange(m, cluster)
    requires cluster !in ChainOf(m, disk, at.entry.cluster, m.clusterCount).value
    ensures PeekAt(m, after, cluster, sector, name, target)
            == SeenPeek(PeekAt(m, disk, cluster, sector, name, target), at, size)
  {
    var chain, lba := ChainOf(m, disk, at.entry.cluster, m.clusterCount).value, SectorOf(m, cluster, sector);
    OutsideChain(m, disk, at.entry.cluster, cluster, sector);
    assert At(after, lba) == if lba == at.sector then Some(WithSize(disk[lba], at.slot, size)) else At(disk, lba);
    if lba == at.sector {
      ScanResized(disk[lba], at.slot, size, name, target);
      match ScanSector(disk[lba], 0, name, target)
      case Hit(k) => LocationResized(disk[lba], lba, k, at, size);
      case _ =>
    }
  }

  lemma LocationResized(data: Sector, lba: nat, k: nat, at: Location, size: nat)
    requires k < SLOTS && at.slot < SLOTS && lba == at.sector
    requires EntryAt(data, at.slot)[11] != 0x0f
    ensures LocationAt(WithSize(data, at.slot, size), lba, k) == Seen(LocationAt(data, lba, k), at, size)
  {
    var e, f := EntryAt(data, k), EntryAt(WithSize(data, at.slot, size), k);
    EntryResized(data, at.slot, size, k);
    EntryHead(e, f, NO_NAME, []);
    if k == at.slot {
      SizeField(f, size);
    }
  }

  lemma SizeField(f: Entry, size: nat)
    requires f[28..] == U32Bytes(size)
    ensures U32At(f, 28) == size % U32_LIMIT
  {
    var b := U32Bytes(size);
    assert f[28] == f[28..][0] && f[29] == f[28..][1] && f[30] == f[28..][2] && f[31] == f[28..][3];
    assert U32At(f, 28) == U32At(b, 0);
  }

  /** A path that stays clear of the chain resolves to the same file, now of the new size. */
  lemma {:induction false} ResolveSame(
    m: Mount, disk: Disk, at: Location, size: nat, after: Disk, directory: nat, names: seq<seq<byte>>)
    requires Overwritten(m, disk, at, size, after) && names != []
    requires Resolve(m, disk, directory, names) == Ok(at)
    requires PathClear(m, disk, ChainOf(m, disk, at.entry.cluster, m.clusterCount).value, directory, names)
    ensures Resolve(m, after, directory, names) == Ok(at.(entry := at.entry.(size := size % U32_LIMIT)))
    decreases |names|
  {
    FindSame(m, disk, at, size, after, directory, 0, m.clusterCount, NO_NAME, names[0]);
    var location := Find(m, disk, directory, names[0]).value;
    if |names| > 1 {
      assert location.sector != at.sector || location.slot != at.slot;
      ResolveSame(m, disk, at, size, after, location.entry.cluster, names[1..]);
    }
  }

  /** A file found by a clear search has its entry in the data area, outside the chain. */
  lemma {:induction false} FoundOutside(
    m: Mount, disk: Disk, start: nat, cluster: nat, sector: nat, budget: nat, name: LongName, target: seq<byte>)
    requires GoodMount(m) && sector <= m.perCluster && ChainOf(m, disk, start, m.clusterCount).Ok?
    requires FindClear(m, disk, ChainOf(m, disk, start, m.clusterCount).value, cluster, sector, budget, name, target)
    requires FindFrom(m, disk, cluster, sector, budget, name, target).Ok?
    ensures var at := FindFrom(m, disk, cluster, sector, budget, name, target).value;
            at.sector >= m.firstData && !InChain(m, ChainOf(m, disk, start, m.clusterCount).value, at.sector)
    decreases budget, m.perCluster - sector
  {
    if sector == m.perCluster {
      FoundOutside(m, disk, start, NextCluster(m, disk, cluster).value.value, 0, budget - 1, name, target);
    } else {
      OutsideChain(m, disk, start, cluster, sector);
      SectorIsPlain(m, cluster);
      match PeekAt(m, disk, cluster, sector, name, target)
      case Onward(next) => FoundOutside(m, disk, start, cluster, sector + 1, budget, next, target);
      case _ =>
    }
  }

  lemma {:induction false} ResolvedOutside(m: Mount, disk: Disk, start: nat, directory: nat, names: seq<seq<byte>>)
    requires GoodMount(m) && names != [] && ChainOf(m, disk, start, m.clusterCount).Ok?
    requires PathClear(m, disk, ChainOf(m, disk, start, m.clusterCount).value, directory, names)
    requires Resolve(m, disk, directory, names).Ok?
    ensures var at := Resolve(m, disk, directory, names).value;
            at.sector >= m.firstData && !InChain(m, ChainOf(m, disk, start, m.clusterCount).value, at.sector)
    decreases |names|
  {
    if |names| == 1 {
      FoundOutside(m, disk, start, directory, 0, m.clusterCount, NO_NAME, names[0]);
    } else {
      ResolvedOutside(m, disk, start, Find(m, disk, directory, names[0]).value.entry.cluster, names[1..]);
    }
  }

  // ------------------------------------------------------------------ whole files

  /** The path names a file with an accepted chain. */
  ghost predicate Names(m: Mount, disk: Disk, path: seq<byte>, at: Location) {
    && Components(path).Ok? && Resolve(m, disk, m.root, Components(path).value) == Ok(at)
    && ChainOf(m, disk, at.entry.cluster, m.clusterCount).Ok?
  }

  function ChainAt(m: Mount, disk: Disk, at: Location): seq<nat>
    requires ChainOf(m, disk, at.entry.cluster, m.clusterCount).Ok?
  {
    ChainOf(m, disk, at.entry.cluster, m.clusterCount).value
  }

  /** The directories read on the way to the file are in range and outside its chain. */
  ghost predicate Clear(m: Mount, disk: Disk, path: seq<byte>, at: Location)
    requires Names(m, disk, path, at)
  {
    PathClear(m, disk, ChainAt(m, disk, at), m.root, Components(path).value)
  }

  /** Whatever its outcome, a write changes nothing but sectors of the file's chain and the sector of its
      entry, and nothing at all when the path does not name a file with an accepted chain. */
  lemma WriteFileTouches(m: Mount, accepts: Option<set<nat>>, disk: Disk, path: seq<byte>, input: seq<byte>, lba: nat)
    requires GoodMount(m)
    ensures var after := WriteFile(m, accepts, disk, path, input).disk;
            || At(after, lba) == At(disk, lba)
            || exists at :: Names(m, disk, path, at) && (lba == at.sector || InChain(m, ChainAt(m, disk, at), lba))
  {
    if accepts.Some? && Components(path).Ok? && Resolve(m, disk, m.root, Components(path).value).Ok? {
      var at := Resolve(m, disk, m.root, Components(path).value).value;
      if ChainOf(m, disk, at.entry.cluster, m.clusterCount).Ok? && !InChain(m, ChainAt(m, disk, at), lba) {
        assert Names(m, disk, path, at);
        WriteTouches(m, accepts.value, disk, at.entry.cluster, 0, m.clusterCount, input, 0, lba);
      }
    }
  }

  /** A finished overwrite, as the searches after it see it. */
  lemma OverwriteResizes(m: Mount, accepts: set<nat>, disk: Disk, path: seq<byte>, at: Location, input: seq<byte>)
    requires GoodMount(m) && Names(m, disk, path, at) && Clear(m, disk, path, at)
    requires Overwrite(m, accepts, disk, at, input).result.Ok?
    ensures Overwritten(m, disk, at, |input|, Overwrite(m, accepts, disk, at, input).disk)
  {
    var chain, after := ChainAt(m, disk, at), Overwrite(m, accepts, disk, at, input).disk;
    var written := WriteFrom(m, accepts, disk, at.entry.cluster, 0, m.clusterCount, input, 0).disk;
    ResolvedOutside(m, disk, at.entry.cluster, m.root, Components(path).value);
    WriteKeepsFat(m, accepts, disk, at.entry.cluster, 0, m.clusterCount, input, 0);
    forall lba: nat | !InChain(m, chain, lba)
      ensures At(after, lba) == if lba == at.sector then Some(WithSize(disk[lba], at.slot, |input|)) else At(disk, lba)
    {
      WriteTouches(m, accepts, disk, at.entry.cluster, 0, m.clusterCount, input, 0, lba);
      assert At(written, lba) == At(disk, lba);
    }
    forall lba: nat | lba < m.firstData ensures At(disk, lba) == At(after, lba) {
      assert At(disk, lba) == At(written, lba);
    }
  }

  function RecordedSize(length: nat): (size: nat)
    ensures size <= length
  {
    length % U32_LIMIT
  }

  /** The input up to the 32-bit size that a write records, if the reader's buffer has room for it. */
  function Recorded(input: seq<byte>, room: nat): Result<seq<byte>, Error> {
    var size := RecordedSize(|input|);
    if size > room then Err(BufferTooSmall) else Ok(input[..size])
  }

  /** After a write that succeeds, a read of the same path returns the recorded input; the FAT is what it
      was, and outside the file's chain only the four size bytes of its entry differ. */
  lemma WriteThenRead(
    m: Mount, accepts: Option<set<nat>>, disk: Disk, path: seq<byte>, at: Location, input: seq<byte>, room: nat,
    after: Disk)
    requires GoodMount(m) && Names(m, disk, path, at) && Clear(m, disk, path, at)
    requires WriteFile(m, accepts, disk, path, input) == Writing(Ok(()), after)
    ensures ReadFile(m, after, path, room) == Recorded(input, room)
    ensures SameFat(m, disk, after) && Resized(m, disk, ChainAt(m, disk, at), at, |input|, after)
  {
    var size := RecordedSize(|input|);
    WriteFileIs(m, accepts, disk, path, at, input);
    OverwriteResizes(m, accepts.value, disk, path, at, input);
    ReadBack(m, accepts.value, disk, path, at, input, size);
    ReadFileIs(m, disk, at, |input|, after, path, room);
    ReadChainIs(m, after, at.entry.cluster, input, size, room);
  }

  lemma WriteFileIs(m: Mount, accepts: Option<set<nat>>, disk: Disk, path: seq<byte>, at: Location, input: seq<byte>)
    requires Names(m, disk, path, at) && WriteFile(m, accepts, disk, path, input).result.Ok?
    ensures accepts.Some? && WriteFile(m, accepts, disk, path, input) == Overwrite(m, accepts.value, disk, at, input)
  {
  }

  lemma ReadFileIs(m: Mount, disk: Disk, at: Location, size: nat, after: Disk, path: seq<byte>, room: nat)
    requires Overwritten(m, disk, at, size, after) && Names(m, disk, path, at) && Clear(m, disk, path, at)
    ensures ReadFile(m, after, path, room) == ReadChain(m, after, at.entry.cluster, RecordedSize(size), room)
  {
    ResolveSame(m, disk, at, size, after, m.root, Components(path).value);
  }

  lemma ReadChainIs(m: Mount, disk: Disk, start: nat, input: seq<byte>, size: nat, room: nat)
    requires size <= |input|
    requires ReadFrom(m, disk, start, 0, m.clusterCount, size, []) == Ok(input[..size])
    ensures ReadChain(m, disk, start, size, room) == if size > room then Err(BufferTooSmall) else Ok(input[..size])
  {
  }

  lemma ReadBack(m: Mount, accepts: set<nat>, disk: Disk, path: seq<byte>, at: Location, input: seq<byte>, size: nat)
    requires GoodMount(m) && Names(m, disk, path, at) && Clear(m, disk, path, at)
    requires Overwrite(m, accepts, disk, at, input).result.Ok? && size <= |input|
    ensures ReadFrom(m, Overwrite(m, accepts, disk, at, input).disk, at.entry.cluster, 0, m.clusterCount, size, [])
            == Ok(input[..size])
  {
    var after := Overwrite(m, accepts, disk, at, input).disk;
    var written := WriteFrom(m, accepts, disk, at.entry.cluster, 0, m.clusterCount, input, 0).disk;
    WrittenIsRead(m, accepts, disk, at.entry.cluster, 0, m.clusterCount, input, 0, size);
    assert input[..0] == [];
    WriteKeepsFat(m, accepts, disk, at.entry.cluster, 0, m.clusterCount, input, 0);
    ChainSame(m, disk, written, at.entry.cluster, m.clusterCount);
    ResolvedOutside(m, disk, at.entry.cluster, m.root, Components(path).value);
    ReadSame(m, written, after, at.sector, at.entry.cluster, 0, m.clusterCount, size, []);
  }

  /** Reading a chain does not see a change to a sector outside it. */
  lemma {:induction false} ReadSame(
    m: Mount, a: Disk, b: Disk, other: nat, cluster: nat, sector: nat, budget: nat, size: nat, got: seq<byte>)
    requires GoodMount(m) && sector <= m.perCluster && |got| <= size && ChainOf(m, a, cluster, budget).Ok?
    requires other >= m.firstData && !InRest(m, ChainOf(m, a, cluster, budget).value, sector, other)
    requires forall lba: nat :: lba != other ==> At(a, lba) == At(b, lba)
    ensures ReadFrom(m, a, cluster, sector, budget, size, got) == ReadFrom(m, b, cluster, sector, budget, size, got)
    decreases budget, m.perCluster - sector
  {
    var rest := ChainOf(m, a, cluster, budget).value;
    RestAfter(m, rest, sector, other);
    if sector == m.perCluster {
      NextSame(m, a, b, cluster);
      match NextCluster(m, a, cluster)
      case Ok(Some(next)) => ReadSame(m, a, b, other, next, 0, budget - 1, size, got);
      case _ =>
    } else if |got| < size {
      var lba := SectorOf(m, cluster, sector);
      assert At(a, lba) == At(b, lba);
      if lba in a {
        ReadSame(m, a, b, other, cluster, sector + 1, budget, size, got + a[lba][..Min(size - |got|, SECTOR)]);
      }
    }
  }
}
