/** Whole runs of the ramfs: what every operation keeps and what it does to the paths. */
module RamfsRuns {
  import opened Common
  import opened RamfsPath
  import opened Ramfs
  import opened RamfsTree

  // ------------------------------------------------------------------ the invariant

  function OpenSlots(handles: seq<Option<nat>>): nat {
    if handles == [] then 0 else OpenSlots(handles[..|handles| - 1]) + if handles[|handles| - 1].Some? then 1 else 0
  }

  /** An open slot holds a regular file that is in use. */
  predicate HandleOk(fs: FileSystem, s: nat) {
    s < |fs.handles| && fs.handles[s].Some? ==>
      Used(fs.inodes, fs.handles[s].value) && !IsDir(fs.inodes, fs.handles[s].value)
  }

  ghost predicate Good(fs: FileSystem) {
    && Tree(fs.inodes) && |fs.handles| == MAX_OPEN_HANDLES && fs.openCount == OpenSlots(fs.handles)
    && forall s: nat :: HandleOk(fs, s)
  }

  function Empty(): FileSystem {
    FileSystem([NewInode(Directory, 0, 0x1ed)] + seq(MAX_INODES - 1, _ => Unused), seq(MAX_OPEN_HANDLES, _ => None), 0)
  }

  lemma EmptyIsGood()
    ensures Good(Empty())
  {
    var t := Empty().inodes;
    forall i: nat ensures Rooted(t, i) { assert Climbs(t, 0, 0); }
    NoneOpen(Empty().handles);
  }

  lemma {:induction false} NoneOpen(handles: seq<Option<nat>>)
    requires forall k :: 0 <= k < |handles| ==> handles[k].None?
    ensures OpenSlots(handles) == 0
  {
    if handles != [] {
      NoneOpen(handles[..|handles| - 1]);
    }
  }

  lemma {:induction false} OpenSlotsAfter(handles: seq<Option<nat>>, s: nat, h: Option<nat>)
    requires s < |handles|
    ensures OpenSlots(handles[s := h])
            == OpenSlots(handles) - (if handles[s].Some? then 1 else 0) + (if h.Some? then 1 else 0)
    decreases |handles|
  {
    var last := |handles| - 1;
    if s < last {
      OpenSlotsAfter(handles[..last], s, h);
      assert handles[s := h][..last] == handles[..last][s := h];
    } else {
      assert handles[s := h][..last] == handles[..last];
    }
  }

  // ------------------------------------------------------------------ each operation

  lemma CreateKeeps(fs: FileSystem, at: Place, kind: Kind, mode: nat)
    requires Good(fs) && IsDir(fs.inodes, at.parent)
    ensures var made := CreateNodeAt(fs, at, kind, mode);
            && Good(made.fs) && made.fs.handles == fs.handles
            && (made.result.Ok? ==>
                  && !Used(fs.inodes, made.result.value) && Keeps(fs.inodes, made.fs.inodes, made.result.value)
                  && Used(made.fs.inodes, made.result.value)
                  && exists s: nat :: Slot(made.fs.inodes, at.parent, s) == Entry(made.result.value, at.name))
  {
    var made := CreateNodeAt(fs, at, kind, mode);
    if made.result.Ok? {
      var t, k, s := fs.inodes, made.result.value, FreeSlot(fs.inodes, at.parent).value;
      CreatedGains(t, k, at.parent, s, at.name, kind, mode);
      GainsIsTree(t, made.fs.inodes, k, at.parent, s, at.name);
      assert Slot(made.fs.inodes, at.parent, s) == Entry(k, at.name);
      forall r: nat ensures HandleOk(made.fs, r) { assert HandleOk(fs, r); }
    }
  }

  lemma RemoveKeeps(fs: FileSystem, d: nat, s: nat, c: nat)
    requires Good(fs) && Names(fs.inodes, d, s, c) && Some(c) !in fs.handles
    requires forall r: nat :: Slot(fs.inodes, c, r).Free?
    ensures Used(fs.inodes, d) && s < |fs.inodes[d].children| && c < |fs.inodes|
    ensures Good(fs.(inodes := Removed(fs.inodes, d, s, c))) && Keeps(fs.inodes, Removed(fs.inodes, d, s, c), c)
    ensures Slot(Removed(fs.inodes, d, s, c), d, s).Free?
  {
    RemovedLoses(fs.inodes, d, s, c);
    LosesIsTree(fs.inodes, Removed(fs.inodes, d, s, c), c, d, s);
    var after := fs.(inodes := Removed(fs.inodes, d, s, c));
    forall r: nat ensures HandleOk(after, r) { assert HandleOk(fs, r); }
  }

  lemma MakeDirectoryKeeps(fs: FileSystem, path: seq<byte>)
    requires Good(fs)
    ensures Good(MakeDirectory(fs, path).fs) && MakeDirectory(fs, path).fs.handles == fs.handles
  {
    var place := PlaceOf(fs.inodes, path);
    if place.Ok? {
      CreateKeeps(fs, place.value, Directory, 0x1ed);
    }
  }

  /** The entry a path names, when removing it is allowed. */
  lemma NothingBelow(fs: FileSystem, c: nat)
    requires Good(fs) && (!IsDir(fs.inodes, c) || !HasChildren(fs.inodes, c))
    ensures forall r: nat :: Slot(fs.inodes, c, r).Free?
  {
    forall r: nat ensures Slot(fs.inodes, c, r).Free? { assert EntryOk(fs.inodes, c, r); }
  }

  lemma UnlinkKeeps(fs: FileSystem, path: seq<byte>)
    requires Good(fs)
    ensures Intact(fs.inodes)
    ensures Good(Unlink(fs, path).fs) && Unlink(fs, path).fs.handles == fs.handles
  {
    TreeIsIntact(fs.inodes);
    if Unlink(fs, path).result.Ok? {
      var at := PlaceOf(fs.inodes, path).value;
      var s := SlotNamed(fs.inodes, at.parent, at.name).value;
      var c := Slot(fs.inodes, at.parent, s).inode;
      NothingBelow(fs, c);
      RemoveKeeps(fs, at.parent, s, c);
    }
  }

  lemma RemoveDirectoryKeeps(fs: FileSystem, path: seq<byte>)
    requires Good(fs)
    ensures Good(RemoveDirectory(fs, path).fs) && RemoveDirectory(fs, path).fs.handles == fs.handles
  {
    if RemoveDirectory(fs, path).result.Ok? {
      var at := PlaceOf(fs.inodes, path).value;
      var s := SlotNamed(fs.inodes, at.parent, at.name).value;
      var c := Slot(fs.inodes, at.parent, s).inode;
      NothingBelow(fs, c);
      forall r: nat | r < |fs.handles| ensures fs.handles[r] != Some(c) { assert HandleOk(fs, r); }
      RemoveKeeps(fs, at.parent, s, c);
    }
  }

  /** A rename that goes ahead shifts one entry, and keeps the tree. */
  lemma RenameEntryKeeps(fs: FileSystem, d: nat, s: nat, after: Place) returns (s2: nat)
    requires Good(fs) && Slot(fs.inodes, d, s).Entry? && IsDir(fs.inodes, after.parent) && Intact(fs.inodes)
    requires RenameEntry(fs, d, s, after).result.Ok?
    ensures var c, u := Slot(fs.inodes, d, s).inode, RenameEntry(fs, d, s, after).fs;
            && Good(u) && u.handles == fs.handles
            && Shifts(fs.inodes, u.inodes, c, d, s, after.parent, s2, after.name)
  {
    var t, c, u := fs.inodes, Slot(fs.inodes, d, s).inode, RenameEntry(fs, d, s, after).fs;
    var n := RenameIsClear(t, d, s, c, after.parent);
    if d == after.parent {
      s2 := s;
      RenamedShifts(t, d, s, c, after.name);
    } else {
      s2 := FreeSlot(t, after.parent).value;
      MovedShifts(t, d, s, c, after.parent, s2, after.name);
    }
    ShiftsIsTree(t, u.inodes, c, d, s, after.parent, s2, after.name, n);
    forall r: nat ensures HandleOk(u, r) { assert HandleOk(fs, r); }
  }

  lemma RenameKeeps(fs: FileSystem, from: seq<byte>, onto: seq<byte>)
    requires Good(fs)
    ensures Intact(fs.inodes)
    ensures Good(Rename(fs, from, onto).fs) && Rename(fs, from, onto).fs.handles == fs.handles
  {
    TreeIsIntact(fs.inodes);
    if Rename(fs, from, onto).result.Ok? {
      var before, after := PlaceOf(fs.inodes, from).value, PlaceOf(fs.inodes, onto).value;
      var s2 := RenameEntryKeeps(fs, before.parent, SlotNamed(fs.inodes, before.parent, before.name).value, after);
    }
  }

  /** Changing what an inode holds, and not what it lists or where it hangs, keeps the tree. */
  lemma ContentKeeps(fs: FileSystem, i: nat, node: Inode)
    requires Good(fs) && Used(fs.inodes, i) && node.Node?
    requires node.kind == fs.inodes[i].kind && node.parent == fs.inodes[i].parent
             && node.children == fs.inodes[i].children
    requires forall k :: node.size <= k < FILE_MAX ==> node.data[k] == 0
    ensures Good(fs.(inodes := fs.inodes[i := node]))
  {
    var t, u := fs.inodes, fs.inodes[i := node];
    assert forall j: nat :: Parent(u, j) == Parent(t, j) && (Used(u, j) <==> Used(t, j));
    assert forall j: nat :: IsDir(u, j) <==> IsDir(t, j);
    assert forall d: nat, s: nat :: Slot(u, d, s) == Slot(t, d, s);
    forall j: nat ensures Shaped(u, j) { assert Shaped(t, j); }
    forall d: nat, s: nat ensures EntryOk(u, d, s) { assert EntryOk(t, d, s); }
    forall d: nat, s1: nat, s2: nat ensures Apart(u, d, s1, s2) { assert Apart(t, d, s1, s2); }
    forall c: nat ensures Listed(u, c) {
      assert Listed(t, c);
      if Used(t, c) && c != 0 {
        var s: nat :| Names(t, Parent(t, c), s, c);
        assert Names(u, Parent(u, c), s, c);
      }
    }
    forall j: nat ensures Rooted(u, j) {
      assert Rooted(t, j);
      if Used(t, j) {
        var n: nat :| Climbs(t, j, n);
        ClimbSame(t, u, j, n);
      }
    }
    var after := fs.(inodes := u);
    forall s: nat ensures HandleOk(after, s) { assert HandleOk(fs, s); }
  }

  lemma {:induction false} ClimbSame(t: Table, u: Table, i: nat, n: nat)
    requires Climbs(t, i, n) && forall j: nat :: Parent(u, j) == Parent(t, j)
    ensures Climbs(u, i, n)
    decreases n
  {
    if n > 0 {
      ClimbSame(t, u, Parent(t, i), n - 1);
    }
  }

  lemma ChmodKeeps(fs: FileSystem, path: seq<byte>, mode: nat)
    requires Good(fs)
    ensures Intact(fs.inodes)
    ensures Good(Chmod(fs, path, mode).fs) && Chmod(fs, path, mode).fs.handles == fs.handles
  {
    TreeIsIntact(fs.inodes);
    if Chmod(fs, path, mode).result.Ok? {
      var i := Lookup(fs.inodes, path).value;
      WalkIsUsed(fs.inodes, 0, Parse(path).value);
      assert Shaped(fs.inodes, i);
      ContentKeeps(fs, i, fs.inodes[i].(mode := mode % 0x200));
    }
  }

  lemma OpenInodeKeeps(fs: FileSystem, i: nat, options: Options)
    requires Good(fs) && Used(fs.inodes, i)
    ensures var got := OpenInode(fs, i, options);
            && Good(got.fs) && got.fs.inodes == fs.inodes
            && (got.result.Ok? ==>
                  && Valid(got.fs, got.result.value) && got.result.value.inode == i
                  && fs.handles[got.result.value.slot].None?)
  {
    var got := OpenInode(fs, i, options);
    if got.result.Ok? {
      OpenSlotsAfter(fs.handles, got.result.value.slot, Some(i));
      forall s: nat ensures HandleOk(got.fs, s) { assert HandleOk(fs, s); }
    }
  }

  lemma OpenKeeps(fs: FileSystem, path: seq<byte>, options: Options)
    requires Good(fs)
    ensures Intact(fs.inodes)
    ensures Good(Open(fs, path, options).fs)
    ensures forall s: nat :: s < |fs.handles| && fs.handles[s].Some? ==>
            Open(fs, path, options).fs.handles[s] == fs.handles[s]
  {
    TreeIsIntact(fs.inodes);
    var found := Lookup(fs.inodes, path);
    if found.Ok? {
      WalkIsUsed(fs.inodes, 0, Parse(path).value);
      OpenInodeKeeps(fs, found.value, options);
    } else if found.error == NotFound && options.create && PlaceOf(fs.inodes, path).Ok? {
      var at := PlaceOf(fs.inodes, path).value;
      CreateKeeps(fs, at, Regular, 0x1a4);
      var made := CreateNodeAt(fs, at, Regular, 0x1a4);
      if made.result.Ok? {
        OpenInodeKeeps(made.fs, made.result.value, options);
      }
    }
  }

  lemma CloseKeeps(fs: FileSystem, h: Handle)
    requires Good(fs)
    ensures Good(Close(fs, h).fs)
    ensures forall s: nat :: s < |fs.handles| && s != h.slot ==> Close(fs, h).fs.handles[s] == fs.handles[s]
  {
    if Valid(fs, h) {
      OpenSlotsAfter(fs.handles, h.slot, None);
      var after := Close(fs, h).fs;
      forall s: nat ensures HandleOk(after, s) { assert HandleOk(fs, s); }
    }
  }

  lemma WriteHandleKeeps(fs: FileSystem, h: Handle, input: seq<byte>)
    requires Good(fs)
    ensures Good(WriteHandle(fs, h, input).fs) && WriteHandle(fs, h, input).fs.handles == fs.handles
  {
    if WriteHandle(fs, h, input).result.Ok? {
      assert Shaped(fs.inodes, h.inode);
      ContentKeeps(fs, h.inode, WriteHandle(fs, h, input).fs.inodes[h.inode]);
    }
  }

  // ------------------------------------------------------------------ whole runs

  datatype Op =
    | DoMakeDirectory(path: seq<byte>)
    | DoOpen(path: seq<byte>, options: Options)
    | DoClose(handle: Handle)
    | DoWrite(handle: Handle, input: seq<byte>)
    | DoUnlink(path: seq<byte>)
    | DoRemoveDirectory(path: seq<byte>)
    | DoRename(path: seq<byte>, onto: seq<byte>)
    | DoChmod(path: seq<byte>, mode: nat)

  function Apply(fs: FileSystem, op: Op): FileSystem
    requires Intact(fs.inodes) && Used(fs.inodes, 0)
  {
    match op
    case DoMakeDirectory(path) => MakeDirectory(fs, path).fs
    case DoOpen(path, options) => Open(fs, path, options).fs
    case DoClose(h) => Close(fs, h).fs
    case DoWrite(h, input) => WriteHandle(fs, h, input).fs
    case DoUnlink(path) => Unlink(fs, path).fs
    case DoRemoveDirectory(path) => RemoveDirectory(fs, path).fs
    case DoRename(path, onto) => Rename(fs, path, onto).fs
    case DoChmod(path, mode) => Chmod(fs, path, mode).fs
  }

  lemma ApplyKeeps(fs: FileSystem, op: Op)
    requires Good(fs)
    ensures Intact(fs.inodes) && Good(Apply(fs, op))
    ensures forall s: nat :: s < |fs.handles| && fs.handles[s].Some? && !(op.DoClose? && op.handle.slot == s) ==>
              Apply(fs, op).handles[s] == fs.handles[s]
  {
    TreeIsIntact(fs.inodes);
    match op
    case DoMakeDirectory(path) => MakeDirectoryKeeps(fs, path);
    case DoOpen(path, options) => OpenKeeps(fs, path, options);
    case DoClose(h) => CloseKeeps(fs, h);
    case DoWrite(h, input) => WriteHandleKeeps(fs, h, input);
    case DoUnlink(path) => UnlinkKeeps(fs, path);
    case DoRemoveDirectory(path) => RemoveDirectoryKeeps(fs, path);
    case DoRename(path, onto) => RenameKeeps(fs, path, onto);
    case DoChmod(path, mode) => ChmodKeeps(fs, path, mode);
  }

  /** The file system after a run of operations, whatever each of them answered. */
  ghost function Run(fs: FileSystem, ops: seq<Op>): FileSystem
    requires Good(fs)
    decreases |ops|
  {
    if ops == [] then fs
    else
      ApplyKeeps(fs, ops[0]);
      Run(Apply(fs, ops[0]), ops[1..])
  }

  /** Whatever is done to it, the inode table stays a tree and open slots stay on files in use. */
  lemma {:induction false} RunKeepsTree(fs: FileSystem, ops: seq<Op>)
    requires Good(fs)
    ensures Good(Run(fs, ops))
    decreases |ops|
  {
    if ops != [] {
      ApplyKeeps(fs, ops[0]);
      RunKeepsTree(Apply(fs, ops[0]), ops[1..]);
    }
  }

  /** What an operation does to the open slots: only opening and an accepted close touch them. */
  lemma HandlesAfter(fs: FileSystem, op: Op)
    requires Good(fs)
    ensures Intact(fs.inodes)
    ensures Apply(fs, op).handles ==
            match op
            case DoOpen(path, options) =>
              var got := Open(fs, path, options).result;
              if got.Ok? && got.value.slot < |fs.handles| then fs.handles[got.value.slot := Some(got.value.inode)]
              else fs.handles
            case DoClose(h) => if Valid(fs, h) then fs.handles[h.slot := None] else fs.handles
            case _ => fs.handles
  {
    TreeIsIntact(fs.inodes);
    match op
    case DoMakeDirectory(path) => MakeDirectoryKeeps(fs, path);
    case DoOpen(path, options) => OpenKeeps(fs, path, options);
    case DoClose(h) =>
    case DoWrite(h, input) => WriteHandleKeeps(fs, h, input);
    case DoUnlink(path) => UnlinkKeeps(fs, path);
    case DoRemoveDirectory(path) => RemoveDirectoryKeeps(fs, path);
    case DoRename(path, onto) => RenameKeeps(fs, path, onto);
    case DoChmod(path, mode) => ChmodKeeps(fs, path, mode);
  }

  /** The operation is a close of the slot that is accepted. */
  predicate Closes(fs: FileSystem, op: Op, slot: nat) {
    op.DoClose? && op.handle.slot == slot && Valid(fs, op.handle)
  }

  /** The operation opens the inode in the slot. */
  predicate Opens(fs: FileSystem, op: Op, slot: nat, inode: nat)
    requires Intact(fs.inodes) && Used(fs.inodes, 0)
  {
    && op.DoOpen? && Open(fs, op.path, op.options).result.Ok?
    && var h := Open(fs, op.path, op.options).result.value; h.slot == slot && h.inode == inode
  }

  /** A handle is accepted after an operation exactly when it was and the operation did not close its
      slot, or the operation has opened that very inode in that very slot. Handles carry nothing
      else, so a closed one is accepted again exactly then. */
  lemma AcceptedExactly(fs: FileSystem, op: Op, h: Handle)
    requires Good(fs) && h.slot < |fs.handles|
    ensures Intact(fs.inodes)
    ensures Valid(Apply(fs, op), h) <==> (Valid(fs, h) && !Closes(fs, op, h.slot)) || Opens(fs, op, h.slot, h.inode)
  {
    ApplyKeeps(fs, op);
    HandlesAfter(fs, op);
    OpensFree(fs, op);
    assert HandleOk(fs, h.slot) && HandleOk(Apply(fs, op), h.slot);
  }

  /** Opening an existing file, closing it and opening it again: the first handle, refused in between,
      is accepted once more. */
  lemma ClosedHandleReturns(fs: FileSystem, path: seq<byte>, options: Options)
    requires Good(fs) && Intact(fs.inodes) && Lookup(fs.inodes, path).Ok? && Open(fs, path, options).result.Ok?
    ensures var first := Open(fs, path, options);
            var closed := Close(first.fs, first.result.value).fs;
            && !Valid(closed, first.result.value) && Good(closed) && Intact(closed.inodes)
            && Valid(Open(closed, path, options).fs, first.result.value)
  {
    var first := Open(fs, path, options);
    var h := first.result.value;
    WalkIsUsed(fs.inodes, 0, Parse(path).value);
    OpenInodeKeeps(fs, Lookup(fs.inodes, path).value, options);
    CloseKeeps(first.fs, h);
    var closed := Close(first.fs, h).fs;
    assert closed.handles == fs.handles;
    assert closed == fs;
  }

  /** Opening takes a slot that is free. */
  lemma OpensFree(fs: FileSystem, op: Op)
    requires Good(fs)
    ensures Intact(fs.inodes)
    ensures op.DoOpen? && Open(fs, op.path, op.options).result.Ok? ==>
              var slot := Open(fs, op.path, op.options).result.value.slot; slot < |fs.handles| && fs.handles[slot].None?
  {
    TreeIsIntact(fs.inodes);
    if op.DoOpen? {
      OpenKeeps(fs, op.path, op.options);
    }
  }

  /** No operation of the run is an accepted close of the slot. */
  ghost predicate NeverClosed(fs: FileSystem, ops: seq<Op>, slot: nat)
    requires Good(fs)
    decreases |ops|
  {
    ops == [] ||
    (ApplyKeeps(fs, ops[0]); !Closes(fs, ops[0], slot) && NeverClosed(Apply(fs, ops[0]), ops[1..], slot))
  }

  /** A handle that is valid stays valid, on the same inode, until its slot is closed. */
  lemma {:induction false} HandleStaysValid(fs: FileSystem, ops: seq<Op>, h: Handle)
    requires Good(fs) && Valid(fs, h) && NeverClosed(fs, ops, h.slot)
    ensures Valid(Run(fs, ops), h) && !IsDir(Run(fs, ops).inodes, h.inode)
    decreases |ops|
  {
    assert HandleOk(fs, h.slot);
    if ops != [] {
      ApplyKeeps(fs, ops[0]);
      AcceptedExactly(fs, ops[0], h);
      HandleStaysValid(Apply(fs, ops[0]), ops[1..], h);
    }
  }

  // ------------------------------------------------------------------ what the operations do to paths

  /** After a create, the path leads to the new inode. */
  lemma CreateThenLookup(fs: FileSystem, path: seq<byte>, kind: Kind, mode: nat)
    requires Good(fs) && PlaceOf(fs.inodes, path).Ok?
    requires CreateNodeAt(fs, PlaceOf(fs.inodes, path).value, kind, mode).result.Ok?
    ensures var made := CreateNodeAt(fs, PlaceOf(fs.inodes, path).value, kind, mode);
            Lookup(made.fs.inodes, path) == Ok(made.result.value)
  {
    var t, at := fs.inodes, PlaceOf(fs.inodes, path).value;
    var made := CreateNodeAt(fs, at, kind, mode);
    var u, k := made.fs.inodes, made.result.value;
    CreateKeeps(fs, at, kind, mode);
    assert Rooted(t, at.parent);
    var n: nat :| Climbs(t, at.parent, n);
    if OnPath(t, at.parent, n, k) {
      PathIsUsed(t, at.parent, n, k);
    }
    PlaceSame(t, u, k, path, n);
    var s: nat :| Slot(u, at.parent, s) == Entry(k, at.name);
    SlotIs(u, at.parent, s);
    LookupAtPlace(u, path);
  }

  /** After an unlink, the path leads nowhere. */
  lemma UnlinkThenLookup(fs: FileSystem, path: seq<byte>)
    requires Good(fs) && Intact(fs.inodes) && Unlink(fs, path).result.Ok?
    ensures Lookup(Unlink(fs, path).fs.inodes, path) == Err(NotFound)
  {
    var t, at := fs.inodes, PlaceOf(fs.inodes, path).value;
    var s := SlotNamed(t, at.parent, at.name).value;
    var c := Slot(t, at.parent, s).inode;
    NothingBelow(fs, c);
    RemoveKeeps(fs, at.parent, s, c);
    VacatedIsGone(t, Removed(t, at.parent, s, c), path, at, s);
  }

  /** A path whose slot was freed, and whose directory got no such name, leads nowhere. */
  lemma VacatedIsGone(t: Table, u: Table, path: seq<byte>, at: Place, s: nat)
    requires Tree(t) && Tree(u) && PlaceOf(t, path) == Ok(at)
    requires Slot(t, at.parent, s).Entry? && Slot(t, at.parent, s).name == at.name
    requires Keeps(t, u, Slot(t, at.parent, s).inode)
    requires forall r: nat :: Slot(u, at.parent, r).Entry? && Slot(u, at.parent, r).name == at.name ==>
               r != s && Slot(u, at.parent, r) == Slot(t, at.parent, r)
    ensures Lookup(u, path) == Err(NotFound)
  {
    var c := Slot(t, at.parent, s).inode;
    assert EntryOk(t, at.parent, s);
    assert Rooted(t, at.parent);
    var n: nat :| Climbs(t, at.parent, n);
    if OnPath(t, at.parent, n, c) {
      var k := PathClimbs(t, at.parent, n, c);
      assert Climbs(t, c, n + 1);
      ClimbUnique(t, c, k, n + 1);
    }
    PlaceSame(t, u, c, path, n);
    forall r: nat ensures Slot(u, at.parent, r).Entry? ==> Slot(u, at.parent, r).name != at.name {
      assert Apart(t, at.parent, s, r);
    }
    LookupAtPlace(u, path);
  }

  /** After a rename, the new path leads to what the old one did, and the old one leads nowhere. */
  lemma RenameMoves(fs: FileSystem, from: seq<byte>, onto: seq<byte>)
    requires Good(fs) && Intact(fs.inodes) && Rename(fs, from, onto).result.Ok?
    ensures var u := Rename(fs, from, onto).fs.inodes;
            Lookup(fs.inodes, from).Ok? && Lookup(u, onto) == Lookup(fs.inodes, from)
                && Lookup(u, from) == Err(NotFound)
  {
    var t, u := fs.inodes, Rename(fs, from, onto).fs.inodes;
    var before, after := PlaceOf(t, from).value, PlaceOf(t, onto).value;
    var d, s := before.parent, SlotNamed(t, before.parent, before.name).value;
    var c := Slot(t, d, s).inode;
    LookupAtPlace(t, from);
    assert EntryOk(t, d, s);
    var s2 := RenameEntryKeeps(fs, d, s, after);
    var n := RenameIsClear(t, d, s, c, after.parent);
    assert Keeps(t, u, c);
    PlaceSame(t, u, c, onto, n);
    SlotIs(u, after.parent, s2);
    LookupAtPlace(u, onto);
    VacatedIsGone(t, u, from, before, s);
  }

  // ------------------------------------------------------------------ what files hold

  function Content(fs: FileSystem, i: nat): seq<byte>
    requires Used(fs.inodes, i)
  {
    fs.inodes[i].data[..fs.inodes[i].size]
  }

  /** Bytes written over others at an offset; a gap before it is filled with zeros. */
  function Overlay(bytes: seq<byte>, at: nat, input: seq<byte>): seq<byte> {
    (if at <= |bytes| then bytes[..at] else bytes + seq<byte>(at - |bytes|, _ => 0))
    + input + if at + |input| < |bytes| then bytes[at + |input|..] else []
  }

  lemma WriteOverlays(fs: FileSystem, h: Handle, input: seq<byte>)
    requires Good(fs) && WriteHandle(fs, h, input).result.Ok?
    ensures var after := WriteHandle(fs, h, input).fs;
            && Used(after.inodes, h.inode)
            && Content(after, h.inode) == Overlay(Content(fs, h.inode), h.offset, input)
            && forall i: nat :: i < |fs.inodes| && i != h.inode ==> after.inodes[i] == fs.inodes[i]
  {
    assert Shaped(fs.inodes, h.inode);
  }

  lemma SliceOfPrefix(s: seq<byte>, size: nat, from: nat, until: nat)
    requires from <= until <= size <= |s|
    ensures s[..size][from..until] == s[from..until]
  {
  }

  lemma ReadIsContent(fs: FileSystem, h: Handle, room: nat)
    requires Good(fs) && ReadHandle(fs, h, room).0.Ok?
    ensures var (r, moved) := ReadHandle(fs, h, room);
            var content := Content(fs, h.inode);
            && r.value == (if h.offset <= |content| then content[h.offset..Min(h.offset + room, |content|)] else [])
            && moved == h.(offset := h.offset + |r.value|)
  {
    assert Shaped(fs.inodes, h.inode);
    var node := fs.inodes[h.inode];
    if h.offset <= node.size {
      SliceOfPrefix(node.data, node.size, h.offset, Min(h.offset + room, node.size));
    }
  }

  /** What is written through one handle is read through any other on the same inode. */
  lemma WriteThenRead(fs: FileSystem, h: Handle, input: seq<byte>, reader: Handle)
    requires Good(fs) && WriteHandle(fs, h, input).result.Ok?
    requires Valid(fs, reader) && reader.readable && reader.inode == h.inode && reader.offset == h.offset
    ensures ReadHandle(WriteHandle(fs, h, input).fs, reader, |input|).0 == Ok(input)
  {
    var after := WriteHandle(fs, h, input).fs;
    WriteOverlays(fs, h, input);
    WriteHandleKeeps(fs, h, input);
    ReadIsContent(after, reader, |input|);
    var content := Content(fs, h.inode);
    var head := if h.offset <= |content| then content[..h.offset]
        else content + seq<byte>(h.offset - |content|, _ => 0);
    assert Content(after, h.inode)[..|head| + |input|] == head + input;
  }
}
