/** The static ramfs tables and the operations that change them in place. */
module RamfsStore {
  import opened Common
  import opened RamfsPath
  import opened Ramfs
  import Tree = RamfsTree
  import Runs = RamfsRuns

  class Store {
    const inodes: array<Inode>
    const handles: array<Option<nat>>
    var openCount: nat

    ghost function View(): FileSystem
      reads this, inodes, handles
    {
      FileSystem(inodes[..], handles[..], openCount)
    }

    ghost predicate Good()
      reads this, inodes, handles
    {
      inodes.Length == MAX_INODES && handles.Length == MAX_OPEN_HANDLES && Runs.Good(View()) && Intact(inodes[..])
    }

    constructor ()
      ensures Good() && View() == Runs.Empty() && fresh(inodes) && fresh(handles)
    {
      inodes := new Inode[MAX_INODES](_ => Unused);
      handles := new Option<nat>[MAX_OPEN_HANDLES](_ => None);
      openCount := 0;
      new;
      inodes[0] := NewInode(Directory, 0, 0x1ed);
      assert View() == Runs.Empty();
      Runs.EmptyIsGood();
      Tree.TreeIsIntact(inodes[..]);
    }

    /** Climbs from the candidate towards the root, giving up after as many steps as there are inodes. */
    method IsDescendantOf(candidate: nat, ancestor: nat) returns (r: bool)
      ensures r == IsDescendant(inodes[..], candidate, ancestor, MAX_INODES)
    {
      var current, left: nat := candidate, MAX_INODES;
      ghost var goal := IsDescendant(inodes[..], candidate, ancestor, MAX_INODES);
      while left > 0
        invariant goal == IsDescendant(inodes[..], current, ancestor, left)
      {
        if current == ancestor {
          return true;
        }
        if current == 0 {
          return false;
        }
        current, left := Parent(inodes[..], current), left - 1;
      }
      return true;
    }

    method SetChild(d: nat, s: nat, child: Child)
      requires Used(inodes[..], d) && s < |inodes[d].children|
      modifies inodes
      ensures inodes[..] == SetSlot(old(inodes[..]), d, s, child)
    {
      inodes[d] := inodes[d].(children := inodes[d].children[s := child]);
    }

    method CreateNodeAt(at: Place, kind: Kind, mode: nat) returns (r: Result<nat, Error>)
      requires Good() && IsDir(inodes[..], at.parent)
      modifies inodes
      ensures Good() && Done(r, View()) == Ramfs.CreateNodeAt(old(View()), at, kind, mode)
    {
      Runs.CreateKeeps(View(), at, kind, mode);
      Tree.TreeIsIntact(Ramfs.CreateNodeAt(View(), at, kind, mode).fs.inodes);
      var t := inodes[..];
      if SlotNamed(t, at.parent, at.name).Some? {
        return Err(AlreadyExists);
      }
      var slot := FreeSlot(t, at.parent);
      if slot.None? {
        return Err(NoSpace);
      }
      var unused := UnusedInode(t);
      if unused.None? {
        return Err(NoSpace);
      }
      inodes[unused.value] := NewInode(kind, at.parent, mode);
      SetChild(at.parent, slot.value, Entry(unused.value, at.name));
      return Ok(unused.value);
    }

    method MakeDirectory(path: seq<byte>) returns (r: Result<(), Error>)
      requires Good()
      modifies inodes
      ensures Good() && Done(r, View()) == Ramfs.MakeDirectory(old(View()), path)
    {
      var at := PlaceOf(inodes[..], path);
      if at.Err? {
        return Err(at.error);
      }
      var made := CreateNodeAt(at.value, Directory, 0x1ed);
      return if made.Ok? then Ok(()) else Err(made.error);
    }

    /** Frees the slot and clears the inode it named. */
    method Remove(d: nat, s: nat, c: nat)
      requires Used(inodes[..], d) && s < |inodes[d].children| && c < inodes.Length
      modifies inodes
      ensures inodes[..] == Removed(old(inodes[..]), d, s, c)
    {
      SetChild(d, s, Free);
      inodes[c] := Unused;
    }

    method Unlink(path: seq<byte>) returns (r: Result<(), Error>)
      requires Good()
      modifies inodes
      ensures Good() && Done(r, View()) == Ramfs.Unlink(old(View()), path)
    {
      Runs.UnlinkKeeps(View(), path);
      Tree.TreeIsIntact(Ramfs.Unlink(View(), path).fs.inodes);
      var t := inodes[..];
      var at := PlaceOf(t, path);
      if at.Err? {
        return Err(at.error);
      }
      var slot := SlotNamed(t, at.value.parent, at.value.name);
      if slot.None? {
        return Err(NotFound);
      }
      var child := Slot(t, at.value.parent, slot.value).inode;
      if IsDir(t, child) {
        return Err(IsDirectory);
      }
      if Some(child) in handles[..] {
        return Err(Busy);
      }
      Remove(at.value.parent, slot.value, child);
      return Ok(());
    }

    method RemoveDirectory(path: seq<byte>) returns (r: Result<(), Error>)
      requires Good()
      modifies inodes
      ensures Good() && Done(r, View()) == Ramfs.RemoveDirectory(old(View()), path)
    {
      Runs.RemoveDirectoryKeeps(View(), path);
      Tree.TreeIsIntact(Ramfs.RemoveDirectory(View(), path).fs.inodes);
      var t := inodes[..];
      var at := PlaceOf(t, path);
      if at.Err? {
        return Err(at.error);
      }
      var slot := SlotNamed(t, at.value.parent, at.value.name);
      if slot.None? {
        return Err(NotFound);
      }
      var child := Slot(t, at.value.parent, slot.value).inode;
      if !IsDir(t, child) {
        return Err(NotDirectory);
      }
      if HasChildren(t, child) {
        return Err(NotEmpty);
      }
      Remove(at.value.parent, slot.value, child);
      return Ok(());
    }

    method Rename(from: seq<byte>, onto: seq<byte>) returns (r: Result<(), Error>)
      requires Good()
      modifies inodes
      ensures Good() && Done(r, View()) == Ramfs.Rename(old(View()), from, onto)
    {
      Runs.RenameKeeps(View(), from, onto);
      Tree.TreeIsIntact(Ramfs.Rename(View(), from, onto).fs.inodes);
      var t := inodes[..];
      var before := PlaceOf(t, from);
      if before.Err? {
        return Err(before.error);
      }
      var slot := SlotNamed(t, before.value.parent, before.value.name);
      if slot.None? {
        return Err(NotFound);
      }
      var after := PlaceOf(t, onto);
      if after.Err? {
        return Err(after.error);
      }
      r := RenameEntry(before.value.parent, slot.value, after.value);
    }

    method RenameEntry(d: nat, s: nat, after: Place) returns (r: Result<(), Error>)
      requires inodes.Length == MAX_INODES && Intact(inodes[..])
      requires Slot(inodes[..], d, s).Entry? && IsDir(inodes[..], after.parent)
      modifies inodes
      ensures Done(r, View()) == Ramfs.RenameEntry(old(View()), d, s, after)
    {
      var t := inodes[..];
      var child := Slot(t, d, s).inode;
      if SlotNamed(t, after.parent, after.name).Some? {
        return Err(AlreadyExists);
      }
      if IsDir(t, child) {
        var below := IsDescendantOf(after.parent, child);
        if below {
          return Err(InvalidPath);
        }
      }
      if d == after.parent {
        SetChild(d, s, Entry(child, after.name));
        return Ok(());
      }
      var free := FreeSlot(t, after.parent);
      if free.None? {
        return Err(NoSpace);
      }
      SetChild(d, s, Free);
      SetChild(after.parent, free.value, Entry(child, after.name));
      inodes[child] := inodes[child].(parent := after.parent);
      return Ok(());
    }

    method OpenInode(i: nat, options: Options) returns (r: Result<Handle, Error>)
      requires Good() && Used(inodes[..], i)
      modifies this`openCount, handles
      ensures Good() && Done(r, View()) == Ramfs.OpenInode(old(View()), i, options)
    {
      Runs.OpenInodeKeeps(View(), i, options);
      var node := inodes[i];
      if node.kind == Directory {
        return Err(IsDirectory);
      }
      if options.read && !MayRead(node.mode) {
        return Err(PermissionDenied);
      }
      if options.write && !MayWrite(node.mode) {
        return Err(PermissionDenied);
      }
      var free := First(handles[..], (h: Option<nat>) => h.None?, 0);
      if free.None? {
        return Err(NoSpace);
      }
      handles[free.value] := Some(i);
      openCount := openCount + 1;
      return Ok(Handle(i, free.value, 0, options.read, options.write));
    }

    method Open(path: seq<byte>, options: Options) returns (r: Result<Handle, Error>)
      requires Good()
      modifies this`openCount, inodes, handles
      ensures Good() && Done(r, View()) == Ramfs.Open(old(View()), path, options)
    {
      var found := Lookup(inodes[..], path);
      if found.Ok? {
        WalkIsUsed(inodes[..], 0, Parse(path).value);
        r := OpenInode(found.value, options);
        return;
      }
      if found.error != NotFound || !options.create {
        return Err(found.error);
      }
      var at := PlaceOf(inodes[..], path);
      if at.Err? {
        return Err(at.error);
      }
      Runs.CreateKeeps(View(), at.value, Regular, 0x1a4);
      var made := CreateNodeAt(at.value, Regular, 0x1a4);
      if made.Err? {
        return Err(made.error);
      }
      r := OpenInode(made.value, options);
    }

    method Close(h: Handle) returns (r: Result<(), Error>)
      requires Good()
      modifies this`openCount, handles
      ensures Good() && Done(r, View()) == Ramfs.Close(old(View()), h)
    {
      Runs.CloseKeeps(View(), h);
      if h.slot >= handles.Length || handles[h.slot] != Some(h.inode) || !Used(inodes[..], h.inode) {
        return Err(InvalidHandle);
      }
      handles[h.slot] := None;
      openCount := if openCount == 0 then 0 else openCount - 1;
      return Ok(());
    }

    method WriteHandle(h: Handle, input: seq<byte>) returns (r: Result<nat, Error>, moved: Handle)
      requires Good()
      modifies inodes
      ensures Good() && Wrote(r, View(), moved) == Ramfs.WriteHandle(old(View()), h, input)
    {
      Runs.WriteHandleKeeps(View(), h, input);
      Tree.TreeIsIntact(Ramfs.WriteHandle(View(), h, input).fs.inodes);
      if h.slot >= handles.Length || handles[h.slot] != Some(h.inode) || !Used(inodes[..], h.inode) {
        return Err(InvalidHandle), h;
      }
      if !h.writable {
        return Err(PermissionDenied), h;
      }
      var end := h.offset + |input|;
      if end > FILE_MAX {
        return Err(NoSpace), h;
      }
      var node := inodes[h.inode];
      var data := node.data[..h.offset] + input + node.data[end..];
      inodes[h.inode] := node.(data := data, size := Max(node.size, end));
      return Ok(|input|), h.(offset := end);
    }
  }
}
