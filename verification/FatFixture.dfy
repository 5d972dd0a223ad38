/** The sample volume of `src/fat32.rs`: one file, "/Long Name.txt", in cluster 3. */
module FatFixture {
  import opened Common
  import opened Fat32
  import opened FatLayout
  import opened FatNames
  import opened FatDirectory
  import opened FatTree
  import FatChains

  /** The bytes, and the characters, of an ASCII text. */
  function Ascii(text: string): (b: seq<byte>)
    requires forall k :: 0 <= k < |text| ==> text[k] < '\U{80}'
    ensures |b| == |text| && forall k :: 0 <= k < |text| ==> b[k] == text[k] as int
  {
    seq(|text|, k requires 0 <= k < |text| => text[k] as int)
  }

  function Zeros(n: nat): (b: seq<byte>)
    ensures |b| == n && forall k :: 0 <= k < n ==> b[k] == 0
  {
    seq(n, _ => 0)
  }

  function Volume(): Boot {
    Boot(Zeros(11), 512, 1, 1, 1, 0, 0, 0xf8, 0, Zeros(8), 131_072, 1024, Zeros(4), 2, Zeros(462), [0x55, 0xaa])
  }

  lemma {:induction false} AsciiSpells(t: seq<byte>, chars: seq<nat>)
    requires |t| == |chars| && forall k :: 0 <= k < |t| ==> t[k] == chars[k] && chars[k] < 0x80
    ensures Spells(t, chars)
    decreases |chars|
  {
    if chars != [] {
      AsciiSpells(t[1..], chars[1..]);
    }
  }

  function Name(): (b: seq<byte>)
    ensures |b| == 13 && b[0] == 0x4c && forall k :: 0 <= k < 13 ==> 0 < b[k] < 0x80 && b[k] != 0x2f
  {
    Ascii("Long Name.txt")
  }

  /** A name that is not in the directory. */
  function OtherName(): (b: seq<byte>)
    ensures |b| == 12 && b[0] == 0x6e && forall k :: 0 <= k < 12 ==> b[k] != 0x2f
  {
    Ascii("no such file")
  }

  function Letter(k: nat): nat
    requires k < 13
  {
    Name()[k]
  }

  function Characters(): (c: seq<nat>)
    ensures |c| == 13 && forall k :: 0 <= k < 13 ==> c[k] == Letter(k) && IsCharacter(c[k])
  {
    seq(13, k requires 0 <= k < 13 => Letter(k))
  }

  function TheFile(): (item: Item)
    ensures ItemOk(item) && item.Listed?
  {
    Listed(Ascii("LONGNA~1"), Ascii("TXT"), Some(Characters()), 0, false, 1, Zeros(8), Zeros(4), 3, 14)
  }

  /** The directory: one long-name part, the short entry, and zeros. */
  function DirectorySector(): Sector { ItemsBytes([TheFile()]) + Zeros(448) }

  function DataSector(text: seq<byte>): Sector
    requires |text| <= 512
  {
    text + Zeros(512 - |text|)
  }

  /** The table: four marks that end a chain, from cluster 2 on. */
  function TableSector(): Sector {
    Zeros(8) + Le4(0x0fff_fff8) + Le4(0x0fff_ffff) + Le4(0x0fff_ffff) + Le4(0x0fff_ffff) + Zeros(488)
  }

  /** A disk with these sectors. */
  predicate IsFixture(disk: Disk, text: seq<byte>) {
    && |text| <= 512
    && 0 in disk && disk[0] == BootSector(Volume()) && 1 in disk && disk[1] == TableSector()
    && 1025 in disk && disk[1025] == DirectorySector() && 1026 in disk && disk[1026] == DataSector(text)
  }

  function Mounted(): Mount { Mount(1, 1024, 131_072, 1025, 1, 130_047, 2) }

  lemma FixtureOpens(disk: Disk, text: seq<byte>)
    requires IsFixture(disk, text)
    ensures Open(disk) == Ok(Mounted()) && GoodMount(Mounted())
  {
    var b := Volume();
    assert Total(b) == 131_072 && DataStart(b) == 1025;
    DivisionUnique(130_047, 1, 130_047, 0);
    assert Clusters(b) == 130_047;
    assert Mountable(b);
    OpensExactly(disk, b);
    OpenIsGood(disk);
  }

  lemma EndsThere(disk: Disk, text: seq<byte>, cluster: nat)
    requires IsFixture(disk, text) && (cluster == 2 || cluster == 3)
    ensures FatChains.Chained(Mounted(), disk, [cluster])
  {
    var mark := if cluster == 2 then 0x0fff_fff8 else 0x0fff_ffff;
    TableMarks();
    MarkLinks(disk, cluster, mark);
    assert FatChains.Closes(Mounted(), disk, cluster);
  }

  lemma TableMarks()
    ensures TableSector()[8..12] == Le4(0x0fff_fff8) && TableSector()[12..16] == Le4(0x0fff_ffff)
  {
  }

  lemma MarkLinks(disk: Disk, cluster: nat, mark: u32)
    requires cluster <= 3 && 1 in disk && mark < 0x1000_0000
    requires disk[1][4 * cluster..4 * cluster + 4] == Le4(mark)
    ensures FatChains.Links(Mounted(), disk, cluster, mark)
  {
    var t, at := disk[1], 4 * cluster;
    assert t[at] == t[at..at + 4][0] && t[at + 1] == t[at..at + 4][1];
    assert t[at + 2] == t[at..at + 4][2] && t[at + 3] == t[at..at + 4][3];
  }

  lemma OneSector(disk: Disk, cluster: nat, content: seq<byte>)
    requires cluster >= 2 && |content| == 512 && 1023 + cluster in disk && disk[1023 + cluster] == content
    ensures FatChains.Filled(Mounted(), disk, [cluster], content)
  {
    var m, chain := Mounted(), [cluster];
    forall i: nat, s: nat | i < |chain| && s < m.perCluster ensures FatChains.HoldsPart(m, disk, chain, content, i, s) {
      assert i == 0 && s == 0 && FatChains.Lba(m, cluster, 0) == 1023 + cluster;
      assert FatChains.Part(content, 0) == content;
    }
  }

  lemma DirectoryIsHeld(disk: Disk, text: seq<byte>)
    requires IsFixture(disk, text)
    ensures DirectoryAt(Mounted(), disk, 2, [TheFile()])
  {
    var items, tail := [TheFile()], Zeros(448);
    EndsThere(disk, text, 2);
    OneSector(disk, 2, ItemsBytes(items) + tail);
    assert Holding(Mounted(), disk, 2, items, [2], tail);
  }

  lemma FileIsHeld(disk: Disk, text: seq<byte>)
    requires IsFixture(disk, text)
    ensures FileAt(Mounted(), disk, 3, |text|, text)
  {
    EndsThere(disk, text, 3);
    OneSector(disk, 3, DataSector(text));
    assert text <= DataSector(text);
    assert FileHeld(Mounted(), disk, 3, text, [3], DataSector(text));
  }

  /** The tree the volume stores. */
  function Stock(text: seq<byte>): Tree { Directory([TheFile()], [File(text)]) }

  lemma FixtureIsStored(disk: Disk, text: seq<byte>)
    requires IsFixture(disk, text) && |text| == 14
    ensures Stored(Mounted(), disk, 2, 0, Stock(text))
  {
    var items, children := [TheFile()], [File(text)];
    DirectoryIsHeld(disk, text);
    FileIsHeld(disk, text);
    assert Stored(Mounted(), disk, 3, 14, children[0]);
    forall k: nat | k < |items| ensures ChildStored(Mounted(), disk, items, children, k) {}
  }

  /** Reading a name gives what the tree holds under it. */
  lemma FixtureReads(disk: Disk, text: seq<byte>, name: seq<byte>, room: nat)
    requires IsFixture(disk, text) && |text| == 14 && PlainNames([name])
    ensures Open(disk) == Ok(Mounted())
    ensures var r, o := ReadFile(Mounted(), disk, PathOf([name]), room), Follow(Stock(text), [name]);
            && (o == Contents(text) ==> r == if room < 14 then Err(BufferTooSmall) else Ok(text))
            && (o == Fails(NotFound) ==> r == Err(NotFound))
  {
    FixtureOpens(disk, text);
    FixtureIsStored(disk, text);
    StoredIsRead(Mounted(), disk, Stock(text), [name], room);
  }

  /** Reading "/Long Name.txt" gives the fourteen bytes of the sample file, and a path that is not listed gives
      `NotFound`. */
  lemma FixtureIsRead(disk: Disk, text: seq<byte>, room: nat)
    requires IsFixture(disk, text) && |text| == 14
    ensures Open(disk) == Ok(Mounted())
    ensures ReadFile(Mounted(), disk, PathOf([Name()]), room) == if room < 14 then Err(BufferTooSmall) else Ok(text)
    ensures ReadFile(Mounted(), disk, PathOf([OtherName()]), room) == Err(NotFound)
  {
    NameFollows(text);
    FixtureReads(disk, text, Name(), room);
    OtherFollows(text);
    FixtureReads(disk, text, OtherName(), room);
  }

  lemma NameFollows(text: seq<byte>)
    ensures PlainNames([Name()]) && Follow(Stock(text), [Name()]) == Contents(text)
  {
    AsciiSpells(Name(), Characters());
    assert Named(TheFile(), Name());
    FollowsAlone(text, Name());
  }

  lemma OtherFollows(text: seq<byte>)
    ensures PlainNames([OtherName()]) && Follow(Stock(text), [OtherName()]) == Fails(NotFound)
  {
    var other := OtherName();
    assert Characters()[0] == 0x4c;
    assert !Spells(other, Characters());
    assert DotName(TheFile())[0] == 0x4c && !Alike(DotName(TheFile())[0], other[0]);
    assert !Named(TheFile(), other);
    FollowsAlone(text, other);
  }

  lemma FollowsAlone(text: seq<byte>, name: seq<byte>)
    ensures Follow(Stock(text), [name]) == if Named(TheFile(), name) then Contents(text) else Fails(NotFound)
  {
    var items := [TheFile()];
    assert items[1..] == [];
    assert Place(items, name) == if Named(TheFile(), name) then Some(0) else None;
  }
}
