/** When the ramfs operations of `src/vfs.rs` succeed, told by what stands at the paths. */
module RamfsAnswers {
  import opened Common
  import opened RamfsPath
  import opened Ramfs
  import opened RamfsTree
  import opened RamfsRuns
  import opened RamfsView

  // ------------------------------------------------------------------ places

  function Up(names: seq<Name>): seq<Name>
    requires names != []
  {
    names[..|names| - 1]
  }

  /** The names end in a folder that stands: something can be looked for, or put, there. */
  predicate InFolder(t: Table, names: seq<Name>) {
    names != [] && Sees(t, Up(names)).Some? && Sees(t, Up(names)).value.Folder?
  }

  lemma PlaceExactly(t: Table, path: seq<byte>)
    requires Tree(t)
    ensures PlaceOf(t, path).Ok? <==> Parse(path).Ok? && InFolder(t, Parse(path).value)
    ensures PlaceOf(t, path).Ok? ==>
              var names := Parse(path).value;
              Walk(t, 0, Up(names)) == Ok(PlaceOf(t, path).value.parent)
              && PlaceOf(t, path).value.name == names[|names| - 1]
  {
    if Parse(path).Ok? && Parse(path).value != [] && Walk(t, 0, Up(Parse(path).value)).Ok? {
      WalkStaysUsed(t, 0, Up(Parse(path).value));
    }
  }

  /** Something stands at the path of a place exactly when its directory lists the name. */
  lemma SeenExactly(t: Table, names: seq<Name>, at: Place)
    requires Tree(t) && names != [] && Walk(t, 0, Up(names)) == Ok(at.parent) && at.name == names[|names| - 1]
    requires IsDir(t, at.parent)
    ensures Sees(t, names).Some? <==> SlotNamed(t, at.parent, at.name).Some?
    ensures forall s: nat :: SlotNamed(t, at.parent, at.name) == Some(s) ==>
              Walk(t, 0, names) == Ok(Slot(t, at.parent, s).inode) && Used(t, Slot(t, at.parent, s).inode)
  {
    assert names == Up(names) + [at.name];
    var found := SlotNamed(t, at.parent, at.name);
    if found.Some? {
      assert EntryOk(t, at.parent, found.value);
      NamedWalk(t, Up(names), at.parent, found.value, at.name);
    } else {
      NotSeen(t, Up(names), at);
    }
  }

  /** Nothing but the root stands at no names, and everything else stands in a folder. */
  lemma SeenIsInFolder(t: Table, names: seq<Name>)
    requires Tree(t) && names != [] && Sees(t, names).Some?
    ensures InFolder(t, names)
  {
    LastStep(t, names);
    var x := Walk(t, 0, names).value;
    ParentIsDir(t, x);
  }

  // ------------------------------------------------------------------ room

  /** A directory has a free slot, and an inode is unused. */
  predicate SlotIn(t: Table, d: nat) { Used(t, d) && exists s :: 0 <= s < |t[d].children| && t[d].children[s].Free? }

  predicate InodeLeft(t: Table) { exists i :: 0 <= i < |t| && t[i].Unused? }

  /** The directory the names end in has a free slot. */
  predicate RoomAt(t: Table, names: seq<Name>) {
    names != [] && Walk(t, 0, Up(names)).Ok? && SlotIn(t, Walk(t, 0, Up(names)).value)
  }

  lemma RoomExactly(t: Table, d: nat)
    ensures FreeSlot(t, d).Some? <==> SlotIn(t, d)
    ensures UnusedInode(t).Some? <==> InodeLeft(t)
  {
    if Used(t, d) && FreeSlot(t, d).Some? {
      assert t[d].children[FreeSlot(t, d).value].Free?;
    }
    if UnusedInode(t).Some? {
      assert t[UnusedInode(t).value].Unused?;
    }
  }

  lemma CreateExactly(fs: FileSystem, names: seq<Name>, at: Place, kind: Kind, mode: nat)
    requires Good(fs) && names != [] && Walk(fs.inodes, 0, Up(names)) == Ok(at.parent)
    requires at.name == names[|names| - 1] && IsDir(fs.inodes, at.parent)
    ensures CreateNodeAt(fs, at, kind, mode).result.Ok?
            <==> Sees(fs.inodes, names).None? && RoomAt(fs.inodes, names) && InodeLeft(fs.inodes)
  {
    SeenExactly(fs.inodes, names, at);
    RoomExactly(fs.inodes, at.parent);
  }

  // ------------------------------------------------------------------ the operations

  /** A directory is made exactly where nothing stands in a folder that has room, while an inode is left. */
  lemma MakeDirectoryExactly(fs: FileSystem, path: seq<byte>)
    requires Good(fs)
    ensures MakeDirectory(fs, path).result.Ok?
            <==> && Parse(path).Ok? && InFolder(fs.inodes, Parse(path).value)
                 && Sees(fs.inodes, Parse(path).value).None?
                 && RoomAt(fs.inodes, Parse(path).value) && InodeLeft(fs.inodes)
  {
    PlaceExactly(fs.inodes, path);
    if PlaceOf(fs.inodes, path).Ok? {
      CreateExactly(fs, Parse(path).value, PlaceOf(fs.inodes, path).value, Directory, 0x1ed);
    }
  }

  /** A path is unlinked exactly when a document stands there that no handle is open on. */
  lemma UnlinkExactly(fs: FileSystem, path: seq<byte>)
    requires Good(fs) && Intact(fs.inodes)
    ensures Unlink(fs, path).result.Ok?
            <==> && Parse(path).Ok? && Sees(fs.inodes, Parse(path).value).Some?
                 && Sees(fs.inodes, Parse(path).value).value.Document?
                 && Some(Walk(fs.inodes, 0, Parse(path).value).value) !in fs.handles
  {
    var t := fs.inodes;
    PlaceExactly(t, path);
    if Parse(path).Ok? && Parse(path).value != [] && Sees(t, Parse(path).value).Some? {
      SeenIsInFolder(t, Parse(path).value);
    }
    if PlaceOf(t, path).Ok? {
      SeenExactly(t, Parse(path).value, PlaceOf(t, path).value);
    }
  }

  ghost predicate EmptyFolder(t: Table, names: seq<Name>) {
    && Sees(t, names).Some? && Sees(t, names).value.Folder?
    && forall x: Name :: Sees(t, names + [x]).None?
  }

  lemma EmptyExactly(t: Table, names: seq<Name>, c: nat)
    requires Tree(t) && Walk(t, 0, names) == Ok(c) && IsDir(t, c)
    ensures EmptyFolder(t, names) <==> !HasChildren(t, c)
  {
    if HasChildren(t, c) {
      var s :| 0 <= s < |t[c].children| && t[c].children[s].Entry?;
      assert EntryOk(t, c, s);
      NamedWalk(t, names, c, s, Slot(t, c, s).name);
      assert Sees(t, names + [Slot(t, c, s).name]).Some?;
    } else {
      forall x: Name ensures Sees(t, names + [x]).None? { NothingIn(t, names, c, x); }
    }
  }

  /** A directory is removed exactly when it is a folder other than the root with nothing in it. */
  lemma RemoveDirectoryExactly(fs: FileSystem, path: seq<byte>)
    requires Good(fs)
    ensures RemoveDirectory(fs, path).result.Ok?
            <==> Parse(path).Ok? && Parse(path).value != [] && EmptyFolder(fs.inodes, Parse(path).value)
  {
    var t := fs.inodes;
    PlaceExactly(t, path);
    if Parse(path).Ok? && Parse(path).value != [] && Sees(t, Parse(path).value).Some? {
      SeenIsInFolder(t, Parse(path).value);
    }
    if PlaceOf(t, path).Ok? {
      var names, at := Parse(path).value, PlaceOf(t, path).value;
      SeenExactly(t, names, at);
      if Sees(t, names).Some? && IsDir(t, Walk(t, 0, names).value) {
        EmptyExactly(t, names, Walk(t, 0, names).value);
      }
    }
  }

  // ------------------------------------------------------------------ renaming

  /** What stands beneath an inode is what its path is the start of. */
  lemma {:induction false} BeneathExactly(t: Table, source: seq<Name>, c: nat, q: seq<Name>, d: nat)
    requires Tree(t) && Walk(t, 0, source) == Ok(c) && Walk(t, 0, q) == Ok(d)
    ensures Beneath(t, d, c) <==> source <= q
    decreases |q|
  {
    WalkStaysUsed(t, 0, q);
    assert Rooted(t, d);
    var n: nat :| Climbs(t, d, n);
    if d == c {
      OnePath(t, q, source, d);
      assert OnPath(t, d, n, c);
    } else if q != [] {
      LastStep(t, q);
      BeneathParent(t, d, c);
      BeneathExactly(t, source, c, Up(q), Parent(t, d));
      if source == q {
        assert false;
      }
      assert source <= q <==> source <= Up(q);
    }
  }

  lemma BeneathParent(t: Table, d: nat, c: nat)
    requires d != 0 && d != c
    ensures Beneath(t, d, c) <==> Beneath(t, Parent(t, d), c)
  {
    if Beneath(t, d, c) {
      var n: nat :| Climbs(t, d, n) && OnPath(t, d, n, c);
      assert Climbs(t, Parent(t, d), n - 1) && OnPath(t, Parent(t, d), n - 1, c);
    }
    if Beneath(t, Parent(t, d), c) {
      var n: nat :| Climbs(t, Parent(t, d), n) && OnPath(t, Parent(t, d), n, c);
      assert Climbs(t, d, n + 1) && OnPath(t, d, n + 1, c);
    }
  }

  lemma DescendantExactly(t: Table, source: seq<Name>, c: nat, q: seq<Name>, d: nat)
    requires Tree(t) && Walk(t, 0, source) == Ok(c) && Walk(t, 0, q) == Ok(d)
    ensures IsDescendant(t, d, c, MAX_INODES) <==> source <= q
  {
    WalkStaysUsed(t, 0, q);
    assert Rooted(t, d);
    var n: nat :| Climbs(t, d, n);
    ClimbIsShort(t, d, n);
    DescendantIsOnPath(t, d, n, c, MAX_INODES);
    if Beneath(t, d, c) {
      var k: nat :| Climbs(t, d, k) && OnPath(t, d, k, c);
      ClimbUnique(t, d, n, k);
    }
    BeneathExactly(t, source, c, q, d);
  }

  /** Nothing stands in a document. */
  lemma NotInDocument(t: Table, source: seq<Name>, q: seq<Name>)
    requires Tree(t) && Sees(t, source).Some? && Sees(t, source).value.Document? && source <= q && source != q
    ensures Sees(t, q).None?
  {
    var c, r := Walk(t, 0, source).value, q[|source|..];
    assert q == source + r;
    WalkOn(t, 0, source, r);
  }

  /** A rename succeeds exactly when something other than the root stands at the one path, nothing at the other, the
      other ends in a folder, does not lead through the first, and its folder is the first one's or has room. */
  predicate CanRename(t: Table, source: seq<Name>, target: seq<Name>) {
    && source != [] && Sees(t, source).Some? && InFolder(t, target) && Sees(t, target).None?
    && !(source <= Up(target)) && (Up(source) == Up(target) || RoomAt(t, target))
  }

  lemma RenameExactly(fs: FileSystem, from: seq<byte>, onto: seq<byte>)
    requires Good(fs) && Intact(fs.inodes)
    ensures Rename(fs, from, onto).result.Ok?
            <==> Parse(from).Ok? && Parse(onto).Ok? && CanRename(fs.inodes, Parse(from).value, Parse(onto).value)
  {
    var t := fs.inodes;
    PlaceExactly(t, from);
    PlaceExactly(t, onto);
    if Parse(from).Ok? && Parse(from).value != [] && Sees(t, Parse(from).value).Some? {
      SeenIsInFolder(t, Parse(from).value);
    }
    if PlaceOf(t, from).Ok? {
      SeenExactly(t, Parse(from).value, PlaceOf(t, from).value);
      if Sees(t, Parse(from).value).Some? && PlaceOf(t, onto).Ok? {
        var before := PlaceOf(t, from).value;
        var s := SlotNamed(t, before.parent, before.name).value;
        RenameEntryExactly(fs, Parse(from).value, before.parent, s, Parse(onto).value, PlaceOf(t, onto).value);
      }
    }
  }

  lemma RenameEntryExactly(fs: FileSystem, source: seq<Name>, d: nat, s: nat, target: seq<Name>, after: Place)
    requires Good(fs) && Intact(fs.inodes) && Slot(fs.inodes, d, s).Entry? && IsDir(fs.inodes, after.parent)
    requires source != [] && Walk(fs.inodes, 0, Up(source)) == Ok(d) && Sees(fs.inodes, source).Some?
    requires Walk(fs.inodes, 0, source) == Ok(Slot(fs.inodes, d, s).inode)
    requires target != [] && Walk(fs.inodes, 0, Up(target)) == Ok(after.parent) && InFolder(fs.inodes, target)
    requires after.name == target[|target| - 1]
    ensures RenameEntry(fs, d, s, after).result.Ok? <==> CanRename(fs.inodes, source, target)
  {
    var t, c := fs.inodes, Slot(fs.inodes, d, s).inode;
    SeenExactly(t, target, after);
    DescendantExactly(t, source, c, Up(target), after.parent);
    RoomExactly(t, after.parent);
    if !IsDir(t, c) && source <= Up(target) && source != Up(target) {
      NotInDocument(t, source, Up(target));
    }
    if d == after.parent {
      OnePath(t, Up(source), Up(target), d);
    }
  }

  // ------------------------------------------------------------------ opening

  /** Opening a path where nothing stands succeeds exactly with leave to create, where a document can be put, and with
      a handle slot free. */
  lemma OpenCreatesExactly(fs: FileSystem, path: seq<byte>, options: Options)
    requires Good(fs) && Intact(fs.inodes) && Parse(path).Ok? && Sees(fs.inodes, Parse(path).value).None?
    ensures Open(fs, path, options).result.Ok?
            <==> && options.create && InFolder(fs.inodes, Parse(path).value)
                 && RoomAt(fs.inodes, Parse(path).value) && InodeLeft(fs.inodes) && None in fs.handles
  {
    var t, names := fs.inodes, Parse(path).value;
    PlaceExactly(t, path);
    if Lookup(t, path).Ok? {
      WalkStaysUsed(t, 0, names);
    }
    if PlaceOf(t, path).Ok? {
      var at := PlaceOf(t, path).value;
      LookupAtPlace(t, path);
      SeenExactly(t, names, at);
      CreateExactly(fs, names, at, Regular, 0x1a4);
      var made := CreateNodeAt(fs, at, Regular, 0x1a4);
      if made.result.Ok? {
        OpenInodeEffect(made.fs, made.result.value, options);
      }
    } else if names != [] && Walk(t, 0, Up(names)).Ok? {
      WalkLast(t, 0, names);
    }
  }
}
