/** Files and directories on a FAT32 volume: cluster chains written out in the allocation table and the data area, and
    what the reader of `src/fat32.rs` reads along them. */
module FatChains {
  import opened Common
  import opened Fat32
  import opened Fat32Files
  import opened FatLayout

  // ------------------------------------------------------------------ the allocation table

  /** The four bytes of a cluster's table entry hold this 28-bit value; the top four bits are reserved. */
  predicate Links(m: Mount, disk: Disk, cluster: nat, value: nat) {
    var sector, at := m.reserved + 4 * cluster / 512, 4 * cluster % 512;
    && sector in disk && at + 4 <= 512
    && disk[sector][at] == value % 0x100 && disk[sector][at + 1] == value / 0x100 % 0x100
    && disk[sector][at + 2] == value / 0x1_0000 % 0x100 && disk[sector][at + 3] % 0x10 == value / 0x100_0000
  }

  /** The entry is an end-of-chain mark. */
  ghost predicate Closes(m: Mount, disk: Disk, cluster: nat) {
    exists value: nat :: 0x0fff_fff8 <= value < 0x1000_0000 && Links(m, disk, cluster, value)
  }

  /** A number that names a cluster of the data area. */
  predicate Usable(m: Mount, cluster: nat) { 2 <= cluster < m.clusterCount + 2 && cluster < 0x0fff_fff7 }

  /** The table holds this chain. */
  ghost predicate Chained(m: Mount, disk: Disk, chain: seq<nat>) {
    && 1 <= |chain| <= m.clusterCount
    && (forall i :: 0 <= i < |chain| ==> Usable(m, chain[i]))
    && (forall i: nat :: i + 1 < |chain| ==> Links(m, disk, chain[i], chain[i + 1]))
    && Closes(m, disk, chain[|chain| - 1])
  }

  lemma EntryReads(b: Sector, at: nat, value: nat)
    requires at + 4 <= 512 && b[at] == value % 0x100 && b[at + 1] == value / 0x100 % 0x100
    requires b[at + 2] == value / 0x1_0000 % 0x100 && b[at + 3] % 0x10 == value / 0x100_0000
    ensures U32At(b, at) % 0x1000_0000 == value
  {
    FourParts(value);
    var d: int := b[at + 3];
    var q := d / 0x10;
    assert U32At(b, at) == q * 0x1000_0000 + value;
    DivisionUnique(U32At(b, at), 0x1000_0000, q, value);
  }

  lemma FourParts(n: nat)
    ensures n == n % 0x100 + 0x100 * (n / 0x100 % 0x100) + 0x1_0000 * (n / 0x1_0000 % 0x100)
            + 0x100_0000 * (n / 0x100_0000)
  {
    var b := n / 0x100;
    var c := b / 0x100;
    assert c == n / 0x1_0000 && c / 0x100 == n / 0x100_0000;
  }

  /** The table covers every cluster. */
  lemma EntryFits(m: Mount, cluster: nat)
    requires GoodMount(m) && Usable(m, cluster)
    ensures m.reserved + cluster * 4 / SECTOR < m.reserved + m.fatSize
  {
    assert cluster * 4 < m.fatSize * SECTOR;
  }

  lemma NextIs(m: Mount, disk: Disk, cluster: nat, value: nat)
    requires GoodMount(m) && Usable(m, cluster) && Links(m, disk, cluster, value)
    ensures Usable(m, value) ==> NextCluster(m, disk, cluster) == Ok(Some(value))
    ensures value >= 0x0fff_fff8 ==> NextCluster(m, disk, cluster) == Ok(None)
  {
    EntryFits(m, cluster);
    var sector, at := m.reserved + 4 * cluster / 512, 4 * cluster % 512;
    EntryReads(disk[sector], at, value);
  }

  lemma ClosesIs(m: Mount, disk: Disk, cluster: nat)
    requires GoodMount(m) && Usable(m, cluster) && Closes(m, disk, cluster)
    ensures NextCluster(m, disk, cluster) == Ok(None)
  {
    var value: nat :| 0x0fff_fff8 <= value < 0x1000_0000 && Links(m, disk, cluster, value);
    NextIs(m, disk, cluster, value);
  }

  /** What follows a cluster of the chain. */
  lemma NextInChain(m: Mount, disk: Disk, chain: seq<nat>, i: nat)
    requires GoodMount(m) && Chained(m, disk, chain) && i < |chain|
    ensures NextCluster(m, disk, chain[i]) == Ok(if i + 1 < |chain| then Some(chain[i + 1]) else None)
  {
    if i + 1 < |chain| {
      NextIs(m, disk, chain[i], chain[i + 1]);
    } else {
      ClosesIs(m, disk, chain[i]);
    }
  }

  /** Walking the table gives the chain it holds. */
  lemma {:induction false} ChainIs(m: Mount, disk: Disk, chain: seq<nat>, i: nat, budget: nat)
    requires GoodMount(m) && Chained(m, disk, chain) && i < |chain| && |chain| - i <= budget
    ensures ChainOf(m, disk, chain[i], budget) == Ok(chain[i..])
    decreases |chain| - i
  {
    NextInChain(m, disk, chain, i);
    if i + 1 < |chain| {
      ChainIs(m, disk, chain, i + 1, budget - 1);
      ChainGrows(m, disk, chain[i], chain[i + 1], chain[i + 1..], budget);
      assert [chain[i]] + chain[i + 1..] == chain[i..];
    } else {
      ChainStops(m, disk, chain[i], budget);
      assert [chain[i]] == chain[i..];
    }
  }

  lemma ChainGrows(m: Mount, disk: Disk, cluster: nat, next: nat, rest: seq<nat>, budget: nat)
    requires budget > 0 && Usable(m, cluster) && NextCluster(m, disk, cluster) == Ok(Some(next))
    requires ChainOf(m, disk, next, budget - 1) == Ok(rest)
    ensures ChainOf(m, disk, cluster, budget) == Ok([cluster] + rest)
  {
  }

  lemma ChainStops(m: Mount, disk: Disk, cluster: nat, budget: nat)
    requires budget > 0 && Usable(m, cluster) && NextCluster(m, disk, cluster) == Ok(None)
    ensures ChainOf(m, disk, cluster, budget) == Ok([cluster])
  {
  }

  // ------------------------------------------------------------------ the data area

  function Lba(m: Mount, cluster: nat, sector: nat): int { m.firstData + (cluster - 2) * m.perCluster + sector }

  /** The n-th sector of some contents. */
  function Part(content: seq<byte>, n: nat): seq<byte>
    requires 512 * n + 512 <= |content|
  {
    content[512 * n..512 * n + 512]
  }

  predicate HoldsPart(m: Mount, disk: Disk, chain: seq<nat>, content: seq<byte>, i: nat, s: nat) {
    var n := i * m.perCluster + s;
    && i < |chain| && 512 * n + 512 <= |content|
    && Lba(m, chain[i], s) in disk && disk[Lba(m, chain[i], s)] == Part(content, n)
  }

  /** The chain's sectors hold the contents, cluster by cluster and sector by sector. */
  ghost predicate Filled(m: Mount, disk: Disk, chain: seq<nat>, content: seq<byte>) {
    && |content| == 512 * (|chain| * m.perCluster)
    && forall i: nat, s: nat :: i < |chain| && s < m.perCluster ==> HoldsPart(m, disk, chain, content, i, s)
  }

  lemma SectorIs(m: Mount, cluster: nat, sector: nat)
    requires GoodMount(m) && Usable(m, cluster)
    ensures ClusterSector(m, cluster) + sector == Lba(m, cluster, sector)
  {
    SectorIsPlain(m, cluster);
  }

  lemma PartGrows(content: seq<byte>, n: nat, size: nat)
    requires 512 * n + 512 <= |content| && 512 * n < size <= |content|
    ensures var length := Min(size - 512 * n, 512);
            content[..512 * n] + Part(content, n)[..length] == content[..512 * n + length]
  {
    var length := Min(size - 512 * n, 512);
    assert Part(content, n)[..length] == content[512 * n..512 * n + length];
  }

  lemma NextRow(m: Mount, i: nat)
    ensures i * m.perCluster + m.perCluster == (i + 1) * m.perCluster
  {
    Distribute(i, 1, m.perCluster);
  }

  /** Reading on from a sector of the chain gives the rest of the contents, up to the size asked for. */
  lemma {:induction false} ReadsOn(m: Mount, disk: Disk, chain: seq<nat>, content: seq<byte>, i: nat, s: nat, n: nat,
                                   budget: nat, size: nat)
    requires GoodMount(m) && Chained(m, disk, chain) && Filled(m, disk, chain, content)
    requires i < |chain| && s <= m.perCluster && n == i * m.perCluster + s && |chain| - i <= budget
    requires 512 * n <= size <= |content|
    ensures ReadFrom(m, disk, chain[i], s, budget, size, content[..512 * n]) == Ok(content[..size])
    decreases |chain| - i, m.perCluster - s
  {
    if s == m.perCluster {
      NextInChain(m, disk, chain, i);
      NextRow(m, i);
      if i + 1 < |chain| {
        ReadsOn(m, disk, chain, content, i + 1, 0, n, budget - 1, size);
      } else {
        assert content[..512 * n] == content[..size];
      }
    } else if size > 512 * n {
      ReadsPart(m, disk, chain, content, i, s, n, budget, size);
      if size - 512 * n >= 512 {
        ReadsOn(m, disk, chain, content, i, s + 1, n + 1, budget, size);
      } else {
        ChainIs(m, disk, chain, i, budget);
        ReadDone(m, disk, chain[i], s + 1, budget, content[..size]);
      }
    }
  }

  lemma ReadsPart(m: Mount, disk: Disk, chain: seq<nat>, content: seq<byte>, i: nat, s: nat, n: nat, budget: nat,
                  size: nat)
    requires GoodMount(m) && Chained(m, disk, chain) && Filled(m, disk, chain, content)
    requires i < |chain| && s < m.perCluster && n == i * m.perCluster + s && budget > 0
    requires 512 * n < size <= |content|
    ensures ReadFrom(m, disk, chain[i], s, budget, size, content[..512 * n])
            == ReadFrom(m, disk, chain[i], s + 1, budget, size, content[..512 * n + Min(size - 512 * n, 512)])
  {
    assert HoldsPart(m, disk, chain, content, i, s);
    SectorIs(m, chain[i], s);
    PartGrows(content, n, size);
  }

  /** A file is read back as the contents its chain holds, up to its size. */
  lemma FileIsRead(m: Mount, disk: Disk, chain: seq<nat>, content: seq<byte>, size: nat, room: nat)
    requires GoodMount(m) && Chained(m, disk, chain) && Filled(m, disk, chain, content) && size <= |content|
    ensures ReadChain(m, disk, chain[0], size, room) == if size > room then Err(BufferTooSmall) else Ok(content[..size])
  {
    if 0 < size <= room {
      assert content[..512 * 0] == [];
      ReadsOn(m, disk, chain, content, 0, 0, 0, m.clusterCount, size);
    }
  }
}
