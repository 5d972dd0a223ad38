/** The ramfs of `src/vfs.rs`: an inode table whose directories hold named child slots, and open handles.

    Every operation is a function from the file system before to its answer and the file system after.
    Mounts are left out, so a path is resolved in the inode table alone and nothing is read-only.
 */
module Ramfs {
  import opened Common
  import opened RamfsPath

  const MAX_INODES := 32
  const MAX_CHILDREN := 16
  const MAX_OPEN_HANDLES := 16
  const FILE_MAX := 4096

  datatype Kind = Directory | Regular

  datatype Child = Free | Entry(inode: nat, name: Name)

  /** A file's buffer, and a position in it. */
  type Buffer = d: seq<byte> | |d| == FILE_MAX witness seq(FILE_MAX, _ => 0)

  type Offset = n: nat | n <= FILE_MAX

  datatype Inode = Unused | Node(kind: Kind, parent: nat, mode: nat, size: Offset, data: Buffer, children: seq<Child>)

  type Table = seq<Inode>

  /** A handle slot holds the inode it is open on. */
  datatype FileSystem = FileSystem(inodes: Table, handles: seq<Option<nat>>, openCount: nat)

  datatype Done<T> = Done(result: Result<T, Error>, fs: FileSystem)

  // ------------------------------------------------------------------ looking at the table

  predicate Used(t: Table, i: nat) { i < |t| && t[i].Node? }

  predicate IsDir(t: Table, i: nat) { Used(t, i) && t[i].kind == Directory }

  function Parent(t: Table, i: nat): nat { if Used(t, i) then t[i].parent else 0 }

  function Slot(t: Table, d: nat, s: nat): Child {
    if Used(t, d) && s < |t[d].children| then t[d].children[s] else Free
  }

  /** Every entry names an inode in use. */
  ghost predicate Intact(t: Table) {
    forall d: nat, s: nat :: Slot(t, d, s).Entry? ==> Used(t, Slot(t, d, s).inode)
  }

  /** The first position that satisfies a test. */
  function First<T>(s: seq<T>, test: T -> bool, from: nat): (r: Option<nat>)
    requires from <= |s|
    ensures r.Some? ==> from <= r.value < |s| && test(s[r.value]) && forall k :: from <= k < r.value ==> !test(s[k])
    ensures r.None? ==> forall k :: from <= k < |s| ==> !test(s[k])
    decreases |s| - from
  {
    if from == |s| then None else if test(s[from]) then Some(from) else First(s, test, from + 1)
  }

  function SlotNamed(t: Table, d: nat, name: Name): (r: Option<nat>)
    ensures r.Some? ==> Slot(t, d, r.value).Entry? && Slot(t, d, r.value).name == name
    ensures r.None? ==> forall s: nat :: Slot(t, d, s).Entry? ==> Slot(t, d, s).name != name
  {
    if Used(t, d) then First(t[d].children, (c: Child) => c.Entry? && c.name == name, 0) else None
  }

  function FreeSlot(t: Table, d: nat): (r: Option<nat>)
    ensures r.Some? ==> Used(t, d) && r.value < |t[d].children| && Slot(t, d, r.value).Free?
  {
    if Used(t, d) then First(t[d].children, (c: Child) => c.Free?, 0) else None
  }

  function UnusedInode(t: Table): (r: Option<nat>)
    ensures r.Some? ==> r.value < |t| && !Used(t, r.value)
  {
    First(t, (i: Inode) => i.Unused?, 0)
  }

  // ------------------------------------------------------------------ changing the table

  function NewInode(kind: Kind, parent: nat, mode: nat): Inode {
    Node(kind, parent, mode, 0, seq(FILE_MAX, _ => 0), seq(MAX_CHILDREN, _ => Free))
  }

  function SetSlot(t: Table, d: nat, s: nat, child: Child): Table
    requires Used(t, d) && s < |t[d].children|
  {
    t[d := t[d].(children := t[d].children[s := child])]
  }

  function SetParent(t: Table, i: nat, parent: nat): Table
    requires Used(t, i)
  {
    t[i := t[i].(parent := parent)]
  }

  function Created(t: Table, k: nat, d: nat, s: nat, name: Name, kind: Kind, mode: nat): Table
    requires k < |t| && !Used(t, k) && Used(t, d) && s < |t[d].children|
  {
    SetSlot(t[k := NewInode(kind, d, mode)], d, s, Entry(k, name))
  }

  function Removed(t: Table, d: nat, s: nat, c: nat): Table
    requires Used(t, d) && s < |t[d].children| && c < |t|
  {
    SetSlot(t, d, s, Free)[c := Unused]
  }

  function Moved(t: Table, d: nat, s: nat, c: nat, d2: nat, s2: nat, name: Name): Table
    requires Used(t, d) && s < |t[d].children| && Used(t, d2) && s2 < |t[d2].children| && Used(t, c)
  {
    SetParent(SetSlot(SetSlot(t, d, s, Free), d2, s2, Entry(c, name)), c, d2)
  }

  /** Climbs from the candidate for at most `steps` steps. */
  predicate IsDescendant(t: Table, candidate: nat, ancestor: nat, steps: nat)
    decreases |t|, steps
  {
    steps == 0 || candidate == ancestor
        || (candidate != 0 && IsDescendant(t, Parent(t, candidate), ancestor, steps - 1))
  }

  // ------------------------------------------------------------------ resolving paths

  /** Descends through the names, each step needing a directory. */
  function Walk(t: Table, at: nat, names: seq<Name>): Result<nat, Error>
    decreases |names|
  {
    if names == [] then Ok(at)
    else if !IsDir(t, at) then Err(NotDirectory)
    else
      match SlotNamed(t, at, names[0])
      case None => Err(NotFound)
      case Some(s) => Walk(t, Slot(t, at, s).inode, names[1..])
  }

  function Lookup(t: Table, path: seq<byte>): Result<nat, Error> {
    match Parse(path)
    case Err(e) => Err(e)
    case Ok(names) => Walk(t, 0, names)
  }

  datatype Place = Place(parent: nat, name: Name)

  function PlaceOf(t: Table, path: seq<byte>): (r: Result<Place, Error>)
    ensures r.Ok? ==> IsDir(t, r.value.parent)
  {
    match Parse(path)
    case Err(e) => Err(e)
    case Ok(names) =>
      if names == [] then Err(InvalidPath)
      else
        match Walk(t, 0, names[..|names| - 1])
        case Err(e) => Err(e)
        case Ok(parent) =>
          if !IsDir(t, parent) then Err(NotDirectory) else Ok(Place(parent, names[|names| - 1]))
  }

  // ------------------------------------------------------------------ operations

  function CreateNodeAt(fs: FileSystem, at: Place, kind: Kind, mode: nat): Done<nat> {
    var t := fs.inodes;
    if SlotNamed(t, at.parent, at.name).Some? then Done(Err(AlreadyExists), fs)
    else if !IsDir(t, at.parent) then Done(Err(NotDirectory), fs)
    else
      match FreeSlot(t, at.parent)
      case None => Done(Err(NoSpace), fs)
      case Some(s) =>
        match UnusedInode(t)
        case None => Done(Err(NoSpace), fs)
        case Some(k) => Done(Ok(k), fs.(inodes := Created(t, k, at.parent, s, at.name, kind, mode)))
  }

  function MakeDirectory(fs: FileSystem, path: seq<byte>): Done<()> {
    match PlaceOf(fs.inodes, path)
    case Err(e) => Done(Err(e), fs)
    case Ok(at) =>
      var made := CreateNodeAt(fs, at, Directory, 0x1ed);
      Done(if made.result.Ok? then Ok(()) else Err(made.result.error), made.fs)
  }

  function Unlink(fs: FileSystem, path: seq<byte>): Done<()>
    requires Intact(fs.inodes)
  {
    match PlaceOf(fs.inodes, path)
    case Err(e) => Done(Err(e), fs)
    case Ok(at) =>
      match SlotNamed(fs.inodes, at.parent, at.name)
      case None => Done(Err(NotFound), fs)
      case Some(s) =>
        var c := Slot(fs.inodes, at.parent, s).inode;
        if IsDir(fs.inodes, c) then Done(Err(IsDirectory), fs)
        else if Some(c) in fs.handles then Done(Err(Busy), fs)
        else Done(Ok(()), fs.(inodes := Removed(fs.inodes, at.parent, s, c)))
  }

  predicate HasChildren(t: Table, d: nat) {
    Used(t, d) && exists s :: 0 <= s < |t[d].children| && t[d].children[s].Entry?
  }

  function RemoveDirectory(fs: FileSystem, path: seq<byte>): Done<()> {
    match PlaceOf(fs.inodes, path)
    case Err(e) => Done(Err(e), fs)
    case Ok(at) =>
      match SlotNamed(fs.inodes, at.parent, at.name)
      case None => Done(Err(NotFound), fs)
      case Some(s) =>
        var c := Slot(fs.inodes, at.parent, s).inode;
        if !IsDir(fs.inodes, c) then Done(Err(NotDirectory), fs)
        else if HasChildren(fs.inodes, c) then Done(Err(NotEmpty), fs)
        else Done(Ok(()), fs.(inodes := Removed(fs.inodes, at.parent, s, c)))
  }

  function Rename(fs: FileSystem, from: seq<byte>, onto: seq<byte>): Done<()>
    requires Intact(fs.inodes)
  {
    match PlaceOf(fs.inodes, from)
    case Err(e) => Done(Err(e), fs)
    case Ok(before) =>
      match SlotNamed(fs.inodes, before.parent, before.name)
      case None => Done(Err(NotFound), fs)
      case Some(s) =>
        match PlaceOf(fs.inodes, onto)
        case Err(e) => Done(Err(e), fs)
        case Ok(after) => RenameEntry(fs, before.parent, s, after)
  }

  /** Renames the entry in one slot of a directory to a place. */
  function RenameEntry(fs: FileSystem, d: nat, s: nat, after: Place): Done<()>
    requires Slot(fs.inodes, d, s).Entry? && IsDir(fs.inodes, after.parent) && Intact(fs.inodes)
  {
    var t := fs.inodes;
    var c := Slot(t, d, s).inode;
    if SlotNamed(t, after.parent, after.name).Some? then Done(Err(AlreadyExists), fs)
    else if IsDir(t, c) && IsDescendant(t, after.parent, c, MAX_INODES) then Done(Err(InvalidPath), fs)
    else if d == after.parent then Done(Ok(()), fs.(inodes := SetSlot(t, d, s, Entry(c, after.name))))
    else
      match FreeSlot(t, after.parent)
      case None => Done(Err(NoSpace), fs)
      case Some(s2) => Done(Ok(()), fs.(inodes := Moved(t, d, s, c, after.parent, s2, after.name)))
  }

  function Chmod(fs: FileSystem, path: seq<byte>, mode: nat): Done<()>
    requires Intact(fs.inodes) && Used(fs.inodes, 0)
  {
    match Lookup(fs.inodes, path)
    case Err(e) => Done(Err(e), fs)
    case Ok(i) =>
      WalkIsUsed(fs.inodes, 0, Parse(path).value);
      Done(Ok(()), fs.(inodes := fs.inodes[i := fs.inodes[i].(mode := mode % 0x200)]))
  }

  lemma {:induction false} WalkIsUsed(t: Table, at: nat, names: seq<Name>)
    requires Intact(t) && Used(t, at) && Walk(t, at, names).Ok?
    ensures Used(t, Walk(t, at, names).value)
    decreases |names|
  {
    if names != [] {
      WalkIsUsed(t, Slot(t, at, SlotNamed(t, at, names[0]).value).inode, names[1..]);
    }
  }

  // ------------------------------------------------------------------ handles

  datatype Options = Options(read: bool, write: bool, create: bool)

  datatype Handle = Handle(inode: nat, slot: nat, offset: Offset, readable: bool, writable: bool)

  predicate Bit(n: nat, weight: nat)
    requires weight > 0
  {
    n / weight % 2 == 1
  }

  /** Any of the three read bits, and any of the three write bits, of a mode. */
  predicate MayRead(mode: nat) { Bit(mode, 4) || Bit(mode, 32) || Bit(mode, 256) }

  predicate MayWrite(mode: nat) { Bit(mode, 2) || Bit(mode, 16) || Bit(mode, 128) }

  function OpenInode(fs: FileSystem, i: nat, options: Options): Done<Handle>
    requires Used(fs.inodes, i)
  {
    var node := fs.inodes[i];
    if node.kind == Directory then Done(Err(IsDirectory), fs)
    else if options.read && !MayRead(node.mode) then Done(Err(PermissionDenied), fs)
    else if options.write && !MayWrite(node.mode) then Done(Err(PermissionDenied), fs)
    else
      match First(fs.handles, (h: Option<nat>) => h.None?, 0)
      case None => Done(Err(NoSpace), fs)
      case Some(s) =>
        Done(Ok(Handle(i, s, 0, options.read, options.write)),
             fs.(handles := fs.handles[s := Some(i)], openCount := fs.openCount + 1))
  }

  function Open(fs: FileSystem, path: seq<byte>, options: Options): Done<Handle>
    requires Intact(fs.inodes) && Used(fs.inodes, 0)
  {
    match Lookup(fs.inodes, path)
    case Ok(i) =>
      WalkIsUsed(fs.inodes, 0, Parse(path).value);
      OpenInode(fs, i, options)
    case Err(e) =>
      if e != NotFound || !options.create then Done(Err(e), fs)
      else
        match PlaceOf(fs.inodes, path)
        case Err(e) => Done(Err(e), fs)
        case Ok(at) =>
          var made := CreateNodeAt(fs, at, Regular, 0x1a4);
          match made.result
          case Err(e) => Done(Err(e), made.fs)
          case Ok(k) => OpenInode(made.fs, k, options)
  }

  predicate Valid(fs: FileSystem, h: Handle) {
    h.slot < |fs.handles| && fs.handles[h.slot] == Some(h.inode) && Used(fs.inodes, h.inode)
  }

  function Close(fs: FileSystem, h: Handle): Done<()> {
    if !Valid(fs, h) then Done(Err(InvalidHandle), fs)
    else Done(Ok(()), fs.(handles := fs.handles[h.slot := None], openCount := Max(0, fs.openCount - 1)))
  }

  /** What a read returns, and the handle after it. */
  function ReadHandle(fs: FileSystem, h: Handle, room: nat): (Result<seq<byte>, Error>, Handle) {
    if !Valid(fs, h) then (Err(InvalidHandle), h)
    else if !h.readable then (Err(PermissionDenied), h)
    else
      var node := fs.inodes[h.inode];
      var length := Min(Max(0, node.size - h.offset), room);
      (Ok(node.data[h.offset..h.offset + length]), h.(offset := h.offset + length))
  }

  datatype Wrote = Wrote(result: Result<nat, Error>, fs: FileSystem, handle: Handle)

  function WriteHandle(fs: FileSystem, h: Handle, input: seq<byte>): Wrote {
    if !Valid(fs, h) then Wrote(Err(InvalidHandle), fs, h)
    else if !h.writable then Wrote(Err(PermissionDenied), fs, h)
    else
      var node, end := fs.inodes[h.inode], h.offset + |input|;
      if end > FILE_MAX then Wrote(Err(NoSpace), fs, h)
      else
        var data := node.data[..h.offset] + input + node.data[end..];
        Wrote(Ok(|input|),
              fs.(inodes := fs.inodes[h.inode := node.(data := data, size := Max(node.size, end))]),
              h.(offset := end))
  }
}
