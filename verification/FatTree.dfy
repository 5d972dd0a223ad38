/** A tree of directories and files stored on a FAT32 volume, and reading it by path. */
module FatTree {
  import opened Common
  import opened Fat32
  import opened FatLayout
  import opened FatNames
  import opened FatDirectory
  import Fat32Files
  import FatChains

  // ------------------------------------------------------------------ searching a directory on disk

  /** What the search of some bytes comes to once a sector in front of them has been scanned from an entry on. */
  function AfterScan(scan: Scan, index: nat, rest: seq<byte>, target: seq<byte>): Option<nat>
    requires index <= 16 && (scan.Hit? ==> index <= scan.index)
  {
    match scan
    case Hit(k) => Some(k - index)
    case End => None
    case More(next) => Later(16 - index, Search(rest, next, target))
  }

  /** A sector of a directory is searched as its entries are, one after the other. */
  lemma {:induction false} SectorSearched(data: Sector, index: nat, name: LongName, target: seq<byte>, rest: seq<byte>)
    requires index <= 16
    ensures Search(data[32 * index..] + rest, name, target)
            == AfterScan(ScanSector(data, index, name, target), index, rest, target)
    decreases 16 - index
  {
    if index == 16 {
      SectorEnds(data, name, target, rest);
    } else {
      var e, more := EntryAt(data, index), data[32 * (index + 1)..] + rest;
      EntryThenMore(data, index, rest);
      var v := Judge(name, e, target);
      if v.Keep? {
        SearchPasses(e, more, name, v.name, target);
        SectorSearched(data, index + 1, v.name, target, rest);
        ScanLater(data, index, name, v.name, target, rest);
      } else {
        EntryStops(e, more, data, index, name, target, rest);
      }
    }
  }

  lemma SectorEnds(data: Sector, name: LongName, target: seq<byte>, rest: seq<byte>)
    ensures Search(data[32 * 16..] + rest, name, target)
            == AfterScan(ScanSector(data, 16, name, target), 16, rest, target)
  {
    assert data[32 * 16..] + rest == rest;
  }

  lemma EntryStops(e: Entry, more: seq<byte>, data: Sector, index: nat, name: LongName, target: seq<byte>,
                   rest: seq<byte>)
    requires index < 16 && e == EntryAt(data, index) && !Judge(name, e, target).Keep?
    ensures Search(e + more, name, target) == AfterScan(ScanSector(data, index, name, target), index, rest, target)
  {
    SearchStep(e, more, name, target);
  }

  lemma ScanLater(data: Sector, index: nat, name: LongName, next: LongName, target: seq<byte>, rest: seq<byte>)
    requires index < 16 && Judge(name, EntryAt(data, index), target) == Keep(next)
    ensures AfterScan(ScanSector(data, index, name, target), index, rest, target)
            == Later(1, AfterScan(ScanSector(data, index + 1, next, target), index + 1, rest, target))
  {
    ScanPasses(data, index, name, next, target);
    AfterScanLater(ScanSector(data, index + 1, next, target), index, rest, target);
  }

  lemma AfterScanLater(scan: Scan, index: nat, rest: seq<byte>, target: seq<byte>)
    requires index < 16 && (scan.Hit? ==> index + 1 <= scan.index)
    ensures AfterScan(scan, index, rest, target) == Later(1, AfterScan(scan, index + 1, rest, target))
  {
  }

  lemma EntryThenMore(data: Sector, index: nat, rest: seq<byte>)
    requires index < 16
    ensures data[32 * index..] + rest == EntryAt(data, index) + (data[32 * (index + 1)..] + rest)
  {
    assert data[32 * index..] == EntryAt(data, index) + data[32 * (index + 1)..];
  }

  lemma ScanPasses(data: Sector, index: nat, name: LongName, next: LongName, target: seq<byte>)
    requires index < 16 && Judge(name, EntryAt(data, index), target) == Keep(next)
    ensures ScanSector(data, index, name, target) == ScanSector(data, index + 1, next, target)
  {
  }

  /** The location is that of the k-th entry of the contents. */
  predicate Points(disk: Disk, content: seq<byte>, k: nat, location: Location) {
    && 32 * k + 32 <= |content| && 512 * (k / 16) + 512 <= |content|
    && location.slot == k % 16 && location.sector in disk
    && disk[location.sector] == FatChains.Part(content, k / 16)
    && location.entry == FoundAt(content[32 * k..32 * k + 32])
  }

  lemma HitPoints(disk: Disk, content: seq<byte>, n: nat, lba: nat, index: nat)
    requires 512 * n + 512 <= |content| && index < 16 && lba in disk && disk[lba] == FatChains.Part(content, n)
    ensures Points(disk, content, 16 * n + index, LocationAt(disk[lba], lba, index))
  {
    DivisionUnique(16 * n + index, 16, n, index);
    var k, part := 16 * n + index, FatChains.Part(content, n);
    assert 512 * n + 32 * index == 32 * k;
    SliceOfSlice(content, 512 * n, 512, 32 * index, 32);
  }

  lemma SliceOfSlice(s: seq<byte>, at: nat, length: nat, i: nat, width: nat)
    requires at + length <= |s| && i + width <= length
    ensures s[at..at + length][i..i + width] == s[at + i..at + i + width]
  {
    var a, b := s[at..at + length][i..i + width], s[at + i..at + i + width];
    assert |a| == |b| && forall k :: 0 <= k < width ==> a[k] == b[k];
  }

  /** The search of the contents from sector `n` on, and what the reader's search came to. */
  predicate FoundAs(disk: Disk, content: seq<byte>, n: nat, at: Option<nat>, r: Result<Location, Error>) {
    if at.None? then r == Err(NotFound) else r.Ok? && Points(disk, content, 16 * n + at.value, r.value)
  }

  lemma FoundLater(disk: Disk, content: seq<byte>, n: nat, at: Option<nat>, r: Result<Location, Error>)
    requires FoundAs(disk, content, n + 1, at, r)
    ensures FoundAs(disk, content, n, Later(16, at), r)
  {
    if at.Some? {
      assert 16 * n + (at.value + 16) == 16 * (n + 1) + at.value;
    }
  }

  lemma PartThenRest(content: seq<byte>, n: nat)
    requires 512 * n + 512 <= |content|
    ensures content[512 * n..] == FatChains.Part(content, n) + content[512 * (n + 1)..]
  {
  }

  /** The search along the chain is the search of its contents. */
  lemma {:induction false} FindsOn(m: Mount, disk: Disk, chain: seq<nat>, content: seq<byte>, i: nat, s: nat, n: nat,
                                   budget: nat, name: LongName, target: seq<byte>)
    requires GoodMount(m) && FatChains.Chained(m, disk, chain) && FatChains.Filled(m, disk, chain, content)
    requires i < |chain| && s <= m.perCluster && n == i * m.perCluster + s && |chain| - i <= budget
    requires 512 * n <= |content|
    ensures FoundAs(disk, content, n, Search(content[512 * n..], name, target),
                    FindFrom(m, disk, chain[i], s, budget, name, target))
    decreases |chain| - i, m.perCluster - s, 1
  {
    if s < m.perCluster {
      assert FatChains.HoldsPart(m, disk, chain, content, i, s);
      FindsHere(m, disk, chain, content, i, s, n, budget, name, target);
    } else {
      FatChains.NextInChain(m, disk, chain, i);
      FatChains.NextRow(m, i);
      AcrossIs(m, disk, chain[i], budget, name, target);
      if i + 1 < |chain| {
        FindsOn(m, disk, chain, content, i + 1, 0, n, budget - 1, name, target);
      } else {
        assert content[512 * n..] == [];
      }
    }
  }

  /** One cluster further along the search. */
  lemma AcrossIs(m: Mount, disk: Disk, cluster: nat, budget: nat, name: LongName, target: seq<byte>)
    requires budget > 0 && NextCluster(m, disk, cluster).Ok?
    ensures var next := NextCluster(m, disk, cluster).value;
            FindFrom(m, disk, cluster, m.perCluster, budget, name, target)
            == if next.None? then Err(NotFound) else FindFrom(m, disk, next.value, 0, budget - 1, name, target)
  {
  }

  lemma {:induction false} FindsHere(m: Mount, disk: Disk, chain: seq<nat>, content: seq<byte>, i: nat, s: nat, n: nat,
                                     budget: nat, name: LongName, target: seq<byte>)
    requires GoodMount(m) && FatChains.Chained(m, disk, chain) && FatChains.Filled(m, disk, chain, content)
    requires i < |chain| && s < m.perCluster && n == i * m.perCluster + s && |chain| - i <= budget
    requires 512 * n + 512 <= |content|
    ensures FoundAs(disk, content, n, Search(content[512 * n..], name, target),
                    FindFrom(m, disk, chain[i], s, budget, name, target))
    decreases |chain| - i, m.perCluster - s, 0
  {
    assert FatChains.HoldsPart(m, disk, chain, content, i, s);
    FatChains.SectorIs(m, chain[i], s);
    var lba := FatChains.Lba(m, chain[i], s);
    var scan := ScanSector(disk[lba], 0, name, target);
    PeekIs(m, disk, chain[i], s, lba, budget, name, target, scan);
    if scan.More? {
      FindsOn(m, disk, chain, content, i, s + 1, n + 1, budget, scan.name, target);
      GoesOn(disk, content, n, lba, name, target, scan.name,
             FindFrom(m, disk, chain[i], s + 1, budget, scan.name, target));
    } else {
      StopsHere(disk, content, n, lba, name, target);
    }
  }

  lemma GoesOn(disk: Disk, content: seq<byte>, n: nat, lba: nat, name: LongName, target: seq<byte>, next: LongName,
               r: Result<Location, Error>)
    requires 512 * n + 512 <= |content| && lba in disk && disk[lba] == FatChains.Part(content, n)
    requires ScanSector(disk[lba], 0, name, target) == More(next)
    requires FoundAs(disk, content, n + 1, Search(content[512 * (n + 1)..], next, target), r)
    ensures FoundAs(disk, content, n, Search(content[512 * n..], name, target), r)
  {
    SectorFound(disk, content, n, lba, name, target);
    FoundLater(disk, content, n, Search(content[512 * (n + 1)..], next, target), r);
  }

  lemma StopsHere(disk: Disk, content: seq<byte>, n: nat, lba: nat, name: LongName, target: seq<byte>)
    requires 512 * n + 512 <= |content| && lba in disk && disk[lba] == FatChains.Part(content, n)
    requires !ScanSector(disk[lba], 0, name, target).More?
    ensures var scan := ScanSector(disk[lba], 0, name, target);
            FoundAs(disk, content, n, Search(content[512 * n..], name, target),
                    if scan.Hit? then Ok(LocationAt(disk[lba], lba, scan.index)) else Err(NotFound))
  {
    SectorFound(disk, content, n, lba, name, target);
    var scan := ScanSector(disk[lba], 0, name, target);
    if scan.Hit? {
      HitPoints(disk, content, n, lba, scan.index);
    }
  }

  /** One sector further along the search. */
  lemma PeekIs(m: Mount, disk: Disk, cluster: nat, s: nat, lba: nat, budget: nat, name: LongName, target: seq<byte>,
               scan: Scan)
    requires budget > 0 && s < m.perCluster && lba == ClusterSector(m, cluster) + s && lba in disk
    requires scan == ScanSector(disk[lba], 0, name, target)
    ensures FindFrom(m, disk, cluster, s, budget, name, target)
            == match scan
               case Hit(index) => Ok(LocationAt(disk[lba], lba, index))
               case End => Err(NotFound)
               case More(next) => FindFrom(m, disk, cluster, s + 1, budget, next, target)
  {
  }

  lemma SectorFound(disk: Disk, content: seq<byte>, n: nat, lba: nat, name: LongName, target: seq<byte>)
    requires 512 * n + 512 <= |content| && lba in disk && disk[lba] == FatChains.Part(content, n)
    ensures Search(content[512 * n..], name, target)
            == AfterScan(ScanSector(disk[lba], 0, name, target), 0, content[512 * (n + 1)..], target)
  {
    PartThenRest(content, n);
    assert disk[lba][32 * 0..] == disk[lba];
    SectorSearched(disk[lba], 0, name, target, content[512 * (n + 1)..]);
  }

  /** A directory on disk: the chain from this cluster holds these entries. */
  ghost predicate DirectoryAt(m: Mount, disk: Disk, cluster: nat, items: seq<Item>) {
    AllOk(items) && exists chain: seq<nat>, tail: seq<byte> :: Holding(m, disk, cluster, items, chain, tail)
  }

  ghost predicate Holding(m: Mount, disk: Disk, cluster: nat, items: seq<Item>, chain: seq<nat>, tail: seq<byte>)
    requires AllOk(items)
  {
    && FatChains.Chained(m, disk, chain) && chain[0] == cluster && Ending(tail)
    && FatChains.Filled(m, disk, chain, ItemsBytes(items) + tail)
  }

  /** The answer a directory with these entries has to give. */
  predicate Tells(items: seq<Item>, target: seq<byte>, r: Result<Location, Error>) {
    var found := Lookup(items, target);
    if found.None? then r == Err(NotFound)
    else
      && found.value.Listed? && r.Ok?
      && r.value.entry == Found(found.value.directory, found.value.cluster, found.value.size)
  }

  /** Searching a directory for a listed name gives its directory bit, its cluster and its size; an unlisted name is
      not found. */
  lemma DirectoryFinds(m: Mount, disk: Disk, cluster: nat, items: seq<Item>, target: seq<byte>)
    requires GoodMount(m) && DirectoryAt(m, disk, cluster, items)
    ensures Tells(items, target, Find(m, disk, cluster, target))
  {
    var chain, tail :| Holding(m, disk, cluster, items, chain, tail);
    var content := ItemsBytes(items) + tail;
    ItemsSearched(items, tail, target);
    assert content[512 * 0..] == content;
    FindsOn(m, disk, chain, content, 0, 0, 0, m.clusterCount, NO_NAME, target);
    AnswersTell(disk, content, Search(content, NO_NAME, target), items, target, Find(m, disk, cluster, target));
  }

  lemma AnswersTell(disk: Disk, content: seq<byte>, at: Option<nat>, items: seq<Item>, target: seq<byte>,
                    r: Result<Location, Error>)
    requires FoundAs(disk, content, 0, at, r) && Answers(content, at, Lookup(items, target))
    ensures Tells(items, target, r)
  {
    if Lookup(items, target).Some? {
      ShortReads(Lookup(items, target).value);
    }
  }

  // ------------------------------------------------------------------ the tree

  /** What is stored: files, directories with a child for each entry, and things that are not described, such as
      what an entry that leads back to a parent stands for. */
  datatype Tree = File(contents: seq<byte>) | Directory(items: seq<Item>, children: seq<Tree>) | Elsewhere

  /** The file's chain holds its contents, and the size is theirs. An empty file needs no chain. */
  ghost predicate FileAt(m: Mount, disk: Disk, cluster: nat, size: nat, contents: seq<byte>) {
    && size == |contents|
    && (size > 0 ==> exists chain: seq<nat>, content: seq<byte> ::
          FileHeld(m, disk, cluster, contents, chain, content))
  }

  ghost predicate FileHeld(m: Mount, disk: Disk, cluster: nat, contents: seq<byte>, chain: seq<nat>,
                           content: seq<byte>) {
    && FatChains.Chained(m, disk, chain) && chain[0] == cluster && FatChains.Filled(m, disk, chain, content)
    && contents <= content
  }

  /** The tree is stored on the disk from this cluster on. */
  ghost predicate Stored(m: Mount, disk: Disk, cluster: nat, size: nat, t: Tree)
    decreases t, 0
  {
    match t
    case File(contents) => FileAt(m, disk, cluster, size, contents)
    case Directory(items, children) =>
      && |children| == |items| && DirectoryAt(m, disk, cluster, items)
      && forall k: nat :: k < |items| ==> ChildStored(m, disk, items, children, k)
    case Elsewhere => true
  }

  ghost predicate ChildStored(m: Mount, disk: Disk, items: seq<Item>, children: seq<Tree>, k: nat)
    decreases children, 0
  {
    k < |items| && k < |children| && items[k].Listed? ==>
      && (children[k].File? ==> !items[k].directory) && (children[k].Directory? ==> items[k].directory)
      && Stored(m, disk, items[k].cluster, items[k].size, children[k])
  }

  /** What reading a path should give. */
  datatype Outcome = Contents(bytes: seq<byte>) | Fails(error: Error) | Unknown

  function Place(items: seq<Item>, target: seq<byte>): (r: Option<nat>)
    ensures r.Some? ==> r.value < |items| && Lookup(items, target) == Some(items[r.value])
    ensures r.None? ==> Lookup(items, target).None?
  {
    if items == [] then None
    else if Named(items[0], target) then Some(0)
    else
      var r := Place(items[1..], target);
      if r.Some? then Some(r.value + 1) else None
  }

  /** Follows the names from a directory: every name but the last has to be a directory's, the last a file's. */
  function Follow(t: Tree, names: seq<seq<byte>>): Outcome
    requires names != []
    decreases |names|
  {
    if !t.Directory? then Unknown
    else
      var k := Place(t.items, names[0]);
      if k.None? then Fails(NotFound)
      else if !(t.items[k.value].Listed? && k.value < |t.children|) then Unknown
      else
        var item, child := t.items[k.value], t.children[k.value];
        if |names| == 1 then
          if item.directory then Fails(IsDirectory) else if child.File? then Contents(child.contents) else Unknown
        else if !item.directory then Fails(NotDirectory)
        else Follow(child, names[1..])
  }

  /** The names lead where they should: to a file that holds the contents, or to the right error. */
  ghost predicate Reads(o: Outcome, r: Result<Location, Error>, m: Mount, disk: Disk) {
    match o
    case Contents(bytes) => r.Ok? && FileAt(m, disk, r.value.entry.cluster, r.value.entry.size, bytes)
    case Fails(error) => r == Err(error)
    case Unknown => true
  }

  lemma FileReads(m: Mount, disk: Disk, cluster: nat, size: nat, contents: seq<byte>, room: nat)
    requires GoodMount(m) && FileAt(m, disk, cluster, size, contents)
    ensures ReadChain(m, disk, cluster, size, room) == if |contents| > room then Err(BufferTooSmall) else Ok(contents)
  {
    if size > 0 {
      var chain, content :| FileHeld(m, disk, cluster, contents, chain, content);
      FatChains.FileIsRead(m, disk, chain, content, size, room);
      assert content[..size] == contents;
    }
  }

  /** Resolving the names and reading what they lead to gives what the tree holds. */
  lemma {:induction false} FollowReads(m: Mount, disk: Disk, cluster: nat, size: nat, t: Tree, names: seq<seq<byte>>)
    requires GoodMount(m) && Stored(m, disk, cluster, size, t) && names != []
    ensures Reads(Follow(t, names), if t.Directory? then Resolve(m, disk, cluster, names) else Err(NotFound), m, disk)
    decreases |names|
  {
    if t.Directory? {
      var found, k := Find(m, disk, cluster, names[0]), Place(t.items, names[0]);
      DirectoryFinds(m, disk, cluster, t.items, names[0]);
      ResolveIs(m, disk, cluster, names, found);
      if |names| == 1 {
        LastReads(m, disk, t, names, found);
      } else if k.Some? && t.items[k.value].Listed? && t.items[k.value].directory {
        assert ChildStored(m, disk, t.items, t.children, k.value);
        FollowReads(m, disk, t.items[k.value].cluster, t.items[k.value].size, t.children[k.value], names[1..]);
      }
    }
  }

  lemma ResolveIs(m: Mount, disk: Disk, cluster: nat, names: seq<seq<byte>>, found: Result<Location, Error>)
    requires names != [] && found == Find(m, disk, cluster, names[0])
    ensures Resolve(m, disk, cluster, names)
            == if found.Err? then found
               else if |names| == 1 then if found.value.entry.directory then Err(IsDirectory) else found
               else if !found.value.entry.directory then Err(NotDirectory)
               else Resolve(m, disk, found.value.entry.cluster, names[1..])
  {
  }

  /** The last name, in a directory that tells what it holds. */
  lemma LastReads(m: Mount, disk: Disk, t: Tree, names: seq<seq<byte>>, found: Result<Location, Error>)
    requires GoodMount(m) && t.Directory? && |names| == 1 && |t.children| == |t.items|
    requires forall k: nat :: k < |t.items| ==> ChildStored(m, disk, t.items, t.children, k)
    requires Tells(t.items, names[0], found)
    ensures Reads(Follow(t, names), if found.Ok? && found.value.entry.directory then Err(IsDirectory) else found,
                  m, disk)
  {
    var k := Place(t.items, names[0]);
    if k.Some? {
      assert ChildStored(m, disk, t.items, t.children, k.value);
      var item, child := t.items[k.value], t.children[k.value];
      if item.Listed? && !item.directory && child.File? {
        assert Stored(m, disk, item.cluster, item.size, child);
      }
    }
  }

  // ------------------------------------------------------------------ paths

  /** A slash in front of every name. */
  function PathOf(names: seq<seq<byte>>): seq<byte> {
    if names == [] then [] else [0x2f] + names[0] + PathOf(names[1..])
  }

  predicate PlainNames(names: seq<seq<byte>>) {
    forall k :: 0 <= k < |names| ==> names[k] != [] && 0x2f !in names[k]
  }

  /** Cutting up a name and what follows it. */
  lemma {:induction false} PiecesOfName(name: seq<byte>, rest: seq<byte>, piece: seq<byte>)
    requires 0x2f !in name && (rest == [] || rest[0] == 0x2f)
    ensures Pieces(name + rest, piece)
            == (if piece + name == [] then [] else [piece + name])
               + if rest == [] then [] else Pieces(rest[1..], [])
    decreases |name|
  {
    if name == [] {
      assert name + rest == rest && piece + name == piece;
    } else {
      assert (name + rest)[0] == name[0] && (name + rest)[1..] == name[1..] + rest;
      PiecesOfName(name[1..], rest, piece + [name[0]]);
      assert piece + [name[0]] + name[1..] == piece + name;
    }
  }

  lemma {:induction false} PiecesOfPath(names: seq<seq<byte>>)
    requires PlainNames(names) && names != []
    ensures Pieces(PathOf(names)[1..], []) == names
    decreases |names|
  {
    var rest := PathOf(names[1..]);
    assert PathOf(names)[1..] == names[0] + rest;
    PiecesOfName(names[0], rest, []);
    assert [] + names[0] == names[0];
    if names[1..] != [] {
      PiecesOfPath(names[1..]);
    }
    assert [names[0]] + names[1..] == names;
  }

  lemma ComponentsOfPath(names: seq<seq<byte>>)
    requires PlainNames(names)
    ensures Components(PathOf(names)) == if 1 <= |names| <= 16 then Ok(names) else Err(InvalidPath)
  {
    if names != [] {
      PiecesOfPath(names);
    }
  }

  /** Reading a path on a volume that stores a tree gives the file's contents, or the error that tells what is wrong
      with the path. */
  lemma StoredIsRead(m: Mount, disk: Disk, t: Tree, names: seq<seq<byte>>, room: nat)
    requires GoodMount(m) && t.Directory? && Stored(m, disk, m.root, 0, t) && PlainNames(names)
    ensures var r := ReadFile(m, disk, PathOf(names), room);
            if !(1 <= |names| <= 16) then r == Err(InvalidPath)
            else
              match Follow(t, names)
              case Contents(bytes) => r == if |bytes| > room then Err(BufferTooSmall) else Ok(bytes)
              case Fails(error) => r == Err(error)
              case Unknown => true
  {
    ComponentsOfPath(names);
    if 1 <= |names| <= 16 {
      FollowReads(m, disk, m.root, 0, t, names);
      var r := Resolve(m, disk, m.root, names);
      if Follow(t, names).Contents? {
        FileReads(m, disk, r.value.entry.cluster, r.value.entry.size, Follow(t, names).bytes, room);
      }
    }
  }

  // ------------------------------------------------------------------ writing

  /** The writer takes every sector of the chain. */
  ghost predicate TakesChain(m: Mount, accepts: set<nat>, chain: seq<nat>) {
    forall i: nat, s: nat :: i < |chain| && s < m.perCluster ==> FatChains.Lba(m, chain[i], s) in accepts
  }

  lemma ChainInAccepts(m: Mount, disk: Disk, accepts: set<nat>, chain: seq<nat>, lba: nat)
    requires GoodMount(m) && FatChains.Chained(m, disk, chain) && TakesChain(m, accepts, chain)
    requires Fat32Files.InRest(m, chain, 0, lba)
    ensures lba in accepts
  {
    var k, s :| 0 <= k < |chain| && 0 <= s < m.perCluster && (k == 0 ==> 0 <= s)
                && lba == Fat32Files.SectorOf(m, chain[k], s);
    FatChains.SectorIs(m, chain[k], s);
    assert FatChains.Lba(m, chain[k], s) in accepts;
  }

  /** Overwriting a file succeeds exactly when the input fits the chain it has; otherwise nothing is written. */
  lemma OverwriteExactly(m: Mount, disk: Disk, accepts: set<nat>, chain: seq<nat>, location: Location,
                         input: seq<byte>)
    requires GoodMount(m) && FatChains.Chained(m, disk, chain) && chain[0] == location.entry.cluster
    requires TakesChain(m, accepts, chain) && Stands(disk, location) && location.sector in accepts
    ensures var w := Overwrite(m, accepts, disk, location, input);
            if |input| <= 512 * (|chain| * m.perCluster) then w.result.Ok? else w == Writing(Err(NoSpace), disk)
  {
    var cluster, budget := chain[0], m.clusterCount;
    FatChains.ChainIs(m, disk, chain, 0, budget);
    assert chain[0..] == chain;
    CapacityIs(m, chain);
    if |input| <= CapacityOf(m, chain) {
      ChainIsWritten(m, disk, accepts, cluster, budget, chain, input);
      WriteKeepsSectors(m, accepts, disk, cluster, 0, budget, input, 0, location.sector);
    }
    OverwriteIs(m, accepts, disk, location, input, cluster, budget, chain);
  }

  lemma CapacityIs(m: Mount, chain: seq<nat>)
    ensures CapacityOf(m, chain) == 512 * (|chain| * m.perCluster) == Fat32Files.RoomIn(m, chain, 0)
  {
    var a, b := |chain|, m.perCluster;
    assert a * (b * 512) == (a * b) * 512;
  }

  lemma OverwriteIs(m: Mount, accepts: set<nat>, disk: Disk, location: Location, input: seq<byte>, cluster: nat,
                    budget: nat, chain: seq<nat>)
    requires location.slot < SLOTS && cluster == location.entry.cluster && budget == m.clusterCount
    requires ChainOf(m, disk, cluster, budget) == Ok(chain)
    ensures var w := WriteFrom(m, accepts, disk, cluster, 0, budget, input, 0);
            Overwrite(m, accepts, disk, location, input)
            == if |input| > CapacityOf(m, chain) then Writing(Err(NoSpace), disk)
               else if w.result.Err? then w else SetSize(accepts, w.disk, location, |input|)
  {
  }

  /** A chain with room for the input, all of which the writer takes, is written. */
  lemma ChainIsWritten(m: Mount, disk: Disk, accepts: set<nat>, cluster: nat, budget: nat, chain: seq<nat>,
                       input: seq<byte>)
    requires GoodMount(m) && FatChains.Chained(m, disk, chain) && TakesChain(m, accepts, chain)
    requires ChainOf(m, disk, cluster, budget) == Ok(chain) && |input| <= Fat32Files.RoomIn(m, chain, 0)
    ensures WriteFrom(m, accepts, disk, cluster, 0, budget, input, 0).result.Ok?
  {
    Fat32Files.WriteSucceeds(m, accepts, disk, cluster, 0, budget, input, 0);
    forall lba | Fat32Files.InRest(m, chain, 0, lba) ensures lba in accepts {
      ChainInAccepts(m, disk, accepts, chain, lba);
    }
  }

  /** A sector that was there is still there. */
  lemma {:induction false} WriteKeepsSectors(m: Mount, accepts: set<nat>, disk: Disk, cluster: nat, sector: nat,
                                             budget: nat, input: seq<byte>, copied: nat, lba: nat)
    requires sector <= m.perCluster && copied <= |input| && lba in disk
    ensures lba in WriteFrom(m, accepts, disk, cluster, sector, budget, input, copied).disk
    decreases budget, m.perCluster - sector
  {
    if budget > 0 && !(sector == 0 && !InRange(m, cluster)) {
      if sector == m.perCluster {
        match NextCluster(m, disk, cluster)
        case Ok(Some(next)) => WriteKeepsSectors(m, accepts, disk, next, 0, budget - 1, input, copied, lba);
        case _ =>
      } else if copied < |input| {
        var at := ClusterSector(m, cluster) + sector;
        if at in accepts {
          WriteKeepsSectors(m, accepts, disk[at := Block(input, copied)], cluster, sector + 1, budget, input,
                            copied + Min(|input| - copied, SECTOR), lba);
        }
      }
    }
  }

  /** The file's chain, which the writer takes. */
  ghost predicate WritableFile(m: Mount, disk: Disk, accepts: set<nat>, cluster: nat, chain: seq<nat>) {
    FatChains.Chained(m, disk, chain) && chain[0] == cluster && TakesChain(m, accepts, chain)
  }

  /** What writing should come to where the names lead. */
  ghost predicate Wrote(o: Outcome, at: Result<Location, Error>, r: Writing, m: Mount, disk: Disk, accepts: set<nat>,
                        chain: seq<nat>, input: seq<byte>) {
    if o.Fails? then r == Writing(Err(o.error), disk)
    else if o.Contents? then
      && at.Ok?
      && (WritableFile(m, disk, accepts, at.value.entry.cluster, chain) && at.value.sector in accepts ==>
            if |input| <= 512 * (|chain| * m.perCluster) then r.result.Ok? else r == Writing(Err(NoSpace), disk))
    else true
  }

  /** Writing a path on a volume that stores a tree: without a writer it is refused, a wrong path gives the error that
      tells what is wrong, and a file is written exactly when the input fits the clusters it has. */
  lemma StoredIsWritten(m: Mount, disk: Disk, t: Tree, names: seq<seq<byte>>, accepts: set<nat>, chain: seq<nat>,
                        input: seq<byte>)
    requires GoodMount(m) && t.Directory? && Stored(m, disk, m.root, 0, t) && PlainNames(names)
    ensures WriteFile(m, None, disk, PathOf(names), input) == Writing(Err(ReadOnly), disk)
    ensures var r := WriteFile(m, Some(accepts), disk, PathOf(names), input);
            if !(1 <= |names| <= 16) then r == Writing(Err(InvalidPath), disk)
            else Wrote(Follow(t, names), Resolve(m, disk, m.root, names), r, m, disk, accepts, chain, input)
  {
    ComponentsOfPath(names);
    if 1 <= |names| <= 16 {
      FollowReads(m, disk, m.root, 0, t, names);
      var at := Resolve(m, disk, m.root, names);
      if at.Ok? && WritableFile(m, disk, accepts, at.value.entry.cluster, chain) && at.value.sector in accepts {
        OverwriteExactly(m, disk, accepts, chain, at.value, input);
      }
    }
  }
}
