/** The loops of the FAT32 driver, over a volume whose sectors a write replaces in place. */
module Fat32Volume {
  import opened Common
  import opened Fat32

  /** The bytes a chain holds, on top of those counted so far. */
  function Capacity(m: Mount, counted: nat, chain: Result<seq<nat>, Error>): Result<nat, Error> {
    match chain
    case Ok(clusters) => Ok(counted + CapacityOf(m, clusters))
    case Err(e) => Err(e)
  }

  lemma CapacityStep(m: Mount, disk: Disk, cluster: nat, left: nat, counted: nat)
    requires left > 0 && InRange(m, cluster)
    ensures var unit, r := m.perCluster * SECTOR, Capacity(m, counted, ChainOf(m, disk, cluster, left));
            match NextCluster(m, disk, cluster)
            case Err(e) => r == Err(e)
            case Ok(None) => r == Ok(counted + unit)
            case Ok(Some(next)) => r == Capacity(m, counted + unit, ChainOf(m, disk, next, left - 1))
  {
    match NextCluster(m, disk, cluster)
    case Ok(Some(next)) =>
      var rest := ChainOf(m, disk, next, left - 1);
      if rest.Ok? {
        Distribute(|rest.value|, 1, m.perCluster * SECTOR);
      }
    case _ =>
  }

  /** `accepts` is the writer: none on a read-only mount, otherwise the sectors it takes. */
  class Volume {
    const m: Mount
    const accepts: Option<set<nat>>
    var disk: Disk

    constructor (m: Mount, accepts: Option<set<nat>>, disk: Disk)
      ensures this.m == m && this.accepts == accepts && this.disk == disk
    {
      this.m, this.accepts, this.disk := m, accepts, disk;
    }

    method ChainCapacity(start: nat) returns (r: Result<nat, Error>)
      ensures r == Capacity(m, 0, ChainOf(m, disk, start, m.clusterCount))
    {
      var cluster: nat, capacity: nat, left: nat := start, 0, m.clusterCount;
      ghost var goal := Capacity(m, 0, ChainOf(m, disk, start, m.clusterCount));
      while left > 0
        invariant goal == Capacity(m, capacity, ChainOf(m, disk, cluster, left))
      {
        if cluster < 2 || cluster > m.clusterCount + 1 {
          return Err(BadClusterChain);
        }
        var next := NextCluster(m, disk, cluster);
        CapacityStep(m, disk, cluster, left, capacity);
        capacity := capacity + m.perCluster * SECTOR;
        match next
        case Err(e) => return Err(e);
        case Ok(None) => return Ok(capacity);
        case Ok(Some(next)) => cluster, left := next, left - 1;
      }
      return Err(BadClusterChain);
    }

    method WriteChain(start: nat, input: seq<byte>) returns (r: Result<(), Error>)
      modifies this`disk
      ensures accepts.None? ==> r == Err(ReadOnly) && disk == old(disk)
      ensures accepts.Some? ==>
                Writing(r, disk) == WriteFrom(m, accepts.value, old(disk), start, 0, m.clusterCount, input, 0)
    {
      if accepts.None? {
        return Err(ReadOnly);
      }
      var cluster: nat, copied: nat, left: nat := start, 0, m.clusterCount;
      ghost var goal := WriteFrom(m, accepts.value, disk, start, 0, m.clusterCount, input, 0);
      while left > 0
        invariant copied <= |input|
        invariant goal == WriteFrom(m, accepts.value, disk, cluster, 0, left, input, copied)
      {
        if cluster < 2 || cluster > m.clusterCount + 1 {
          return Err(BadClusterChain);
        }
        for sector := 0 to m.perCluster
          invariant copied <= |input|
          invariant goal == WriteFrom(m, accepts.value, disk, cluster, sector, left, input, copied)
        {
          if copied == |input| {
            return Ok(());
          }
          var lba := ClusterSector(m, cluster) + sector;
          if lba !in accepts.value {
            return Err(Io);
          }
          disk := disk[lba := Block(input, copied)];
          copied := copied + Min(|input| - copied, SECTOR);
        }
        match NextCluster(m, disk, cluster)
        case Err(e) => return Err(e);
        case Ok(None) => return if copied == |input| then Ok(()) else Err(BadClusterChain);
        case Ok(Some(next)) => cluster, left := next, left - 1;
      }
      return Err(BadClusterChain);
    }

    /** Copies a chain's first `size` bytes into the buffer. */
    method ReadChain(start: nat, size: nat, output: array<byte>) returns (r: Result<nat, Error>)
      modifies output
      ensures match Fat32.ReadChain(m, disk, start, size, output.Length)
              case Ok(bytes) => r == Ok(size) && size <= output.Length && output[..size] == bytes
              case Err(e) => r == Err(e)
      ensures forall k :: size <= k < output.Length ==> output[k] == old(output[k])
    {
      if size > output.Length {
        return Err(BufferTooSmall);
      }
      if size == 0 {
        return Ok(0);
      }
      var cluster: nat, copied: nat, left: nat := start, 0, m.clusterCount;
      ghost var goal := ReadFrom(m, disk, start, 0, m.clusterCount, size, []);
      while left > 0
        invariant copied <= size
        invariant goal == ReadFrom(m, disk, cluster, 0, left, size, output[..copied])
        invariant forall k :: size <= k < output.Length ==> output[k] == old(output[k])
      {
        if cluster < 2 || cluster > m.clusterCount + 1 {
          return Err(BadClusterChain);
        }
        for sector := 0 to m.perCluster
          invariant copied <= size
          invariant goal == ReadFrom(m, disk, cluster, sector, left, size, output[..copied])
          invariant forall k :: size <= k < output.Length ==> output[k] == old(output[k])
        {
          if copied == size {
            return Ok(copied);
          }
          var lba := ClusterSector(m, cluster) + sector;
          if lba !in disk {
            return Err(Io);
          }
          var data, length := disk[lba], Min(size - copied, SECTOR);
          ghost var got := output[..copied];
          forall k | 0 <= k < length { output[copied + k] := data[k]; }
          assert output[..copied + length] == got + data[..length];
          copied := copied + length;
        }
        match NextCluster(m, disk, cluster)
        case Err(e) => return Err(e);
        case Ok(None) => return if copied == size then Ok(copied) else Err(BadClusterChain);
        case Ok(Some(next)) => cluster, left := next, left - 1;
      }
      return Err(BadClusterChain);
    }

    /** One sector of a directory, entry by entry. */
    method ScanEntries(data: Sector, name: LongName, target: seq<byte>) returns (r: Scan)
      ensures r == ScanSector(data, 0, name, target)
    {
      var collected := name;
      for index := 0 to SLOTS
        invariant ScanSector(data, index, collected, target) == ScanSector(data, 0, name, target)
      {
        match Judge(collected, EntryAt(data, index), target)
        case Last => return End;
        case Matched => return Hit(index);
        case Keep(next) => collected := next;
      }
      return More(collected);
    }

    method FindEntryLocation(directory: nat, target: seq<byte>) returns (r: Result<Location, Error>)
      ensures r == Find(m, disk, directory, target)
    {
      var cluster: nat, name, left: nat := directory, NO_NAME, m.clusterCount;
      ghost var goal := Find(m, disk, directory, target);
      while left > 0
        invariant goal == FindFrom(m, disk, cluster, 0, left, name, target)
      {
        for sector := 0 to m.perCluster
          invariant goal == FindFrom(m, disk, cluster, sector, left, name, target)
        {
          var lba := ClusterSector(m, cluster) + sector;
          if lba !in disk {
            return Err(Io);
          }
          var scan := ScanEntries(disk[lba], name, target);
          match scan
          case Hit(index) => return Ok(LocationAt(disk[lba], lba, index));
          case End => return Err(NotFound);
          case More(next) => name := next;
        }
        match NextCluster(m, disk, cluster)
        case Err(e) => return Err(e);
        case Ok(None) => return Err(NotFound);
        case Ok(Some(next)) => cluster, left := next, left - 1;
      }
      return Err(BadClusterChain);
    }

    /** Walks to the directory of the last component and finds the file there. */
    method Locate(names: seq<seq<byte>>) returns (r: Result<Location, Error>)
      requires names != []
      ensures r == Resolve(m, disk, m.root, names)
    {
      var directory := m.root;
      for index := 0 to |names| - 1
        invariant Resolve(m, disk, m.root, names) == Resolve(m, disk, directory, names[index..])
      {
        var found := FindEntryLocation(directory, names[index]);
        assert names[index..][1..] == names[index + 1..];
        if found.Err? {
          return found;
        }
        if !found.value.entry.directory {
          return Err(NotDirectory);
        }
        directory := found.value.entry.cluster;
      }
      r := FindEntryLocation(directory, names[|names| - 1]);
      if r.Ok? && r.value.entry.directory {
        return Err(IsDirectory);
      }
    }

    method ReadFile(path: seq<byte>, output: array<byte>) returns (r: Result<nat, Error>)
      modifies output
      ensures match Fat32.ReadFile(m, disk, path, output.Length)
              case Ok(bytes) => r == Ok(|bytes|) && |bytes| <= output.Length && output[..|bytes|] == bytes
              case Err(e) => r == Err(e)
    {
      var names := SplitPath(path);
      if names.Err? {
        return Err(names.error);
      }
      var location := Locate(names.value);
      if location.Err? {
        return Err(location.error);
      }
      r := ReadChain(location.value.entry.cluster, location.value.entry.size, output);
    }

    method WriteFile(path: seq<byte>, input: seq<byte>) returns (r: Result<nat, Error>)
      modifies this`disk
      ensures var w := Fat32.WriteFile(m, accepts, old(disk), path, input);
              disk == w.disk && r == if w.result.Ok? then Ok(|input|) else Err(w.result.error)
    {
      if accepts.None? {
        return Err(ReadOnly);
      }
      var names := SplitPath(path);
      if names.Err? {
        return Err(names.error);
      }
      var found := Locate(names.value);
      if found.Err? {
        return Err(found.error);
      }
      var location := found.value;
      var capacity := ChainCapacity(location.entry.cluster);
      if capacity.Err? {
        return Err(capacity.error);
      }
      if |input| > capacity.value {
        return Err(NoSpace);
      }
      var written := WriteChain(location.entry.cluster, input);
      if written.Err? {
        return Err(written.error);
      }
      if location.sector !in disk || location.sector !in accepts.value {
        return Err(Io);
      }
      disk := disk[location.sector := WithSize(disk[location.sector], location.slot, |input|)];
      return Ok(|input|);
    }
  }

  /** Cuts a path at its slashes. */
  method SplitPath(path: seq<byte>) returns (r: Result<seq<seq<byte>>, Error>)
    ensures r == Components(path)
  {
    if path == [] || path[0] != '/' as int {
      return Err(InvalidPath);
    }
    var names: seq<seq<byte>>, start, index := [], 1, 1;
    ghost var goal := Pieces(path[1..], []);
    while index < |path|
      invariant 1 <= start <= index <= |path| && |names| <= MAX_COMPONENTS
      invariant goal == names + Pieces(path[index..], path[start..index])
    {
      assert path[index..][0] == path[index] && path[index..][1..] == path[index + 1..];
      if path[index] == '/' as int {
        if index > start {
          if |names| == MAX_COMPONENTS {
            return Err(InvalidPath);
          }
          names := names + [path[start..index]];
        }
        start := index + 1;
        assert path[start..index + 1] == [];
      } else {
        assert path[start..index] + [path[index]] == path[start..index + 1];
      }
      index := index + 1;
    }
    assert path[index..] == [] && path[start..index] == path[start..];
    if start < |path| {
      if |names| == MAX_COMPONENTS {
        return Err(InvalidPath);
      }
      names := names + [path[start..]];
    }
    assert goal == names;
    return if names == [] then Err(InvalidPath) else Ok(names);
  }
}
