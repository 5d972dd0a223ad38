/** The ramfs as its users see it: a map from paths to what stands there, and what the operations of `src/vfs.rs` do
    to that map. */
module RamfsView {
  import opened Common
  import opened RamfsPath
  import opened Ramfs
  import opened RamfsTree
  import opened RamfsRuns

  // ------------------------------------------------------------------ the view

  datatype Object = Folder(mode: nat) | Document(mode: nat, content: seq<byte>)

  function ObjectOf(node: Inode): Object
    requires node.Node?
  {
    if node.kind == Directory then Folder(node.mode) else Document(node.mode, node.data[..node.size])
  }

  /** What stands at the end of these names, if anything. */
  function Sees(t: Table, names: seq<Name>): Option<Object> {
    var w := Walk(t, 0, names);
    if w.Ok? && Used(t, w.value) then Some(ObjectOf(t[w.value])) else None
  }

  // ------------------------------------------------------------------ ways through a tree

  lemma {:induction false} WalkStaysUsed(t: Table, at: nat, names: seq<Name>)
    requires Tree(t) && Used(t, at) && Walk(t, at, names).Ok?
    ensures Used(t, Walk(t, at, names).value)
  {
    TreeIsIntact(t);
    WalkIsUsed(t, at, names);
  }

  /** The last step of a walk: from the parent, through the one slot that names the inode. */
  lemma LastStep(t: Table, names: seq<Name>)
    requires Tree(t) && names != [] && Walk(t, 0, names).Ok?
    ensures var x, last := Walk(t, 0, names).value, |names| - 1;
            && x != 0 && Used(t, x) && Walk(t, 0, names[..last]) == Ok(Parent(t, x))
            && exists s: nat :: Slot(t, Parent(t, x), s) == Entry(x, names[last])
  {
    var x, last := Walk(t, 0, names).value, |names| - 1;
    WalkLast(t, 0, names);
    var d := Walk(t, 0, names[..last]).value;
    var one := [names[last]];
    assert one[1..] == [];
    var s := SlotNamed(t, d, names[last]).value;
    assert EntryOk(t, d, s);
    assert Slot(t, d, s) == Entry(x, names[last]);
  }

  /** In a tree only one path leads to an inode. */
  lemma {:induction false} OnePath(t: Table, p: seq<Name>, q: seq<Name>, x: nat)
    requires Tree(t) && Walk(t, 0, p) == Ok(x) && Walk(t, 0, q) == Ok(x)
    ensures p == q
    decreases |p|
  {
    if p != [] && q != [] {
      LastStep(t, p);
      LastStep(t, q);
      var r: nat :| Slot(t, Parent(t, x), r) == Entry(x, p[|p| - 1]);
      var s: nat :| Slot(t, Parent(t, x), s) == Entry(x, q[|q| - 1]);
      assert Apart(t, Parent(t, x), r, s);
      OnePath(t, p[..|p| - 1], q[..|q| - 1], Parent(t, x));
      assert p == p[..|p| - 1] + [p[|p| - 1]] && q == q[..|q| - 1] + [q[|q| - 1]];
    } else if p != [] {
      LastStep(t, p);
    } else if q != [] {
      LastStep(t, q);
    }
  }

  /** One step of a walk. */
  function Step(t: Table, at: nat, name: Name): Option<nat> {
    if !IsDir(t, at) then None
    else
      var s := SlotNamed(t, at, name);
      if s.Some? then Some(Slot(t, at, s.value).inode) else None
  }

  lemma WalkSteps(t: Table, at: nat, names: seq<Name>)
    requires names != []
    ensures Walk(t, at, names).Ok?
            <==> Step(t, at, names[0]).Some? && Walk(t, Step(t, at, names[0]).value, names[1..]).Ok?
    ensures Walk(t, at, names).Ok? ==> Walk(t, at, names) == Walk(t, Step(t, at, names[0]).value, names[1..])
  {
  }

  lemma StepIs(t: Table, d: nat, s: nat)
    requires Tree(t) && Slot(t, d, s).Entry?
    ensures Step(t, d, Slot(t, d, s).name) == Some(Slot(t, d, s).inode)
  {
    SlotIs(t, d, s);
    assert EntryOk(t, d, s);
  }

  lemma StepMisses(t: Table, d: nat, name: Name)
    requires forall s: nat :: Slot(t, d, s).Entry? ==> Slot(t, d, s).name != name
    ensures Step(t, d, name).None?
  {
  }

  lemma StepFinds(t: Table, d: nat, name: Name)
    requires Step(t, d, name).Some?
    ensures exists s: nat :: Slot(t, d, s) == Entry(Step(t, d, name).value, name)
  {
    var s := SlotNamed(t, d, name).value;
    assert Slot(t, d, s) == Entry(Step(t, d, name).value, name);
  }

  // ------------------------------------------------------------------ creating

  /** A step after a create: the new name leads to the new inode, every other name where it did. */
  lemma GainedStep(t: Table, u: Table, k: nat, d: nat, s: nat, name: Name, at: nat, x: Name)
    requires Tree(t) && Tree(u) && Gains(t, u, k, d, s, name) && Slot(t, d, s).Free?
    requires forall r: nat :: Slot(t, d, r).Entry? ==> Slot(t, d, r).name != name
    ensures Step(u, at, x) == if at == d && x == name then Some(k) else if at == k then None else Step(t, at, x)
  {
    if at == d && x == name {
      assert Slot(u, d, s) == Entry(k, name);
      StepIs(u, d, s);
    } else if at == k {
      forall r: nat ensures !Slot(u, k, r).Entry? {}
      StepMisses(u, k, x);
    } else if Step(t, at, x).Some? {
      StepFinds(t, at, x);
      var r: nat :| Slot(t, at, r) == Entry(Step(t, at, x).value, x);
      assert Slot(u, at, r) == Slot(t, at, r);
      StepIs(u, at, r);
    } else {
      forall r: nat ensures Slot(u, at, r).Entry? ==> Slot(u, at, r).name != x {
        if Slot(u, at, r).Entry? && Slot(u, at, r).name == x {
          assert Slot(t, at, r) == Slot(u, at, r);
          StepIs(t, at, r);
        }
      }
      StepMisses(u, at, x);
    }
  }

  /** A walk after a create ends where it did, or failed before and ends at the new inode with the new name. */
  lemma {:induction false} GainedWalk(t: Table, u: Table, k: nat, d: nat, s: nat, name: Name, at: nat, p: seq<Name>)
    requires Tree(t) && Tree(u) && Gains(t, u, k, d, s, name) && Slot(t, d, s).Free? && Used(t, at)
    requires forall r: nat :: Slot(t, d, r).Entry? ==> Slot(t, d, r).name != name
    ensures Walk(t, at, p).Ok? ==> Walk(u, at, p) == Walk(t, at, p)
    ensures Walk(t, at, p).Err? && Walk(u, at, p).Ok? ==>
              p != [] && p[|p| - 1] == name && Walk(t, at, p[..|p| - 1]) == Ok(d) && Walk(u, at, p) == Ok(k)
    decreases |p|
  {
    if p != [] {
      GainedStep(t, u, k, d, s, name, at, p[0]);
      WalkSteps(t, at, p);
      WalkSteps(u, at, p);
      var next := Step(u, at, p[0]);
      if at == d && p[0] == name {
        StepMisses(t, d, name);
        if p[1..] != [] {
          GainedStep(t, u, k, d, s, name, k, p[1..][0]);
          WalkSteps(u, k, p[1..]);
        } else {
          assert p[..|p| - 1] == [];
        }
      } else if next.Some? {
        StepFinds(t, at, p[0]);
        var r: nat :| Slot(t, at, r) == Entry(next.value, p[0]);
        assert EntryOk(t, at, r);
        GainedWalk(t, u, k, d, s, name, next.value, p[1..]);
        if p[1..] != [] {
          assert p[..|p| - 1][0] == p[0] && p[..|p| - 1][1..] == p[1..][..|p[1..]| - 1];
          WalkSteps(t, at, p[..|p| - 1]);
        }
      }
    }
  }

  /** The objects the inodes hold are the same, but for one. */
  ghost predicate SameNodes(t: Table, u: Table, c: nat) {
    forall i: nat :: i != c && Used(t, i) && Used(u, i) ==> ObjectOf(u[i]) == ObjectOf(t[i])
  }

  /** Creating at a place adds one object under one path and leaves every other path as it was. */
  lemma CreateSeen(fs: FileSystem, place: seq<Name>, at: Place, kind: Kind, mode: nat, p: seq<Name>)
    requires Good(fs) && IsDir(fs.inodes, at.parent) && Walk(fs.inodes, 0, place) == Ok(at.parent)
    requires CreateNodeAt(fs, at, kind, mode).result.Ok?
    ensures Sees(CreateNodeAt(fs, at, kind, mode).fs.inodes, p)
            == if p == place + [at.name] then Some(if kind == Directory then Folder(mode) else Document(mode, []))
               else Sees(fs.inodes, p)
    ensures Sees(fs.inodes, place + [at.name]).None?
  {
    var t, made := fs.inodes, CreateNodeAt(fs, at, kind, mode);
    var u, k, s := made.fs.inodes, made.result.value, FreeSlot(fs.inodes, at.parent).value;
    var names := place + [at.name];
    CreatedGains(t, k, at.parent, s, at.name, kind, mode);
    CreateKeeps(fs, at, kind, mode);
    GainedWalk(t, u, k, at.parent, s, at.name, 0, p);
    GainedWalk(t, u, k, at.parent, s, at.name, 0, names);
    assert names[..|names| - 1] == place;
    WalkLast(t, 0, names);
    WalkLast(u, 0, names);
    GainedWalk(t, u, k, at.parent, s, at.name, 0, place);
    CreatedLast(t, u, k, at.parent, s, at.name);
    if Walk(t, 0, p).Ok? {
      WalkStaysUsed(t, 0, p);
    } else if Walk(u, 0, p).Ok? {
      OnePath(t, p[..|p| - 1], place, at.parent);
      assert p == p[..|p| - 1] + [p[|p| - 1]];
    }
    CreatedNodes(t, k, at.parent, s, at.name, kind, mode);
  }

  lemma CreatedLast(t: Table, u: Table, k: nat, d: nat, s: nat, name: Name)
    requires Tree(t) && Tree(u) && Gains(t, u, k, d, s, name) && Slot(t, d, s).Free?
    requires forall r: nat :: Slot(t, d, r).Entry? ==> Slot(t, d, r).name != name
    ensures Walk(t, d, [name]).Err? && Walk(u, d, [name]) == Ok(k)
  {
    var one := [name];
    assert one[1..] == [];
    GainedStep(t, u, k, d, s, name, d, name);
    StepMisses(t, d, name);
    WalkSteps(t, d, one);
    WalkSteps(u, d, one);
  }

  lemma CreatedNodes(t: Table, k: nat, d: nat, s: nat, name: Name, kind: Kind, mode: nat)
    requires k < |t| && !Used(t, k) && Used(t, d) && s < |t[d].children|
    ensures var u := Created(t, k, d, s, name, kind, mode);
            && SameNodes(t, u, k) && Used(u, k)
            && ObjectOf(u[k]) == if kind == Directory then Folder(mode) else Document(mode, [])
  {
  }

  // ------------------------------------------------------------------ removing

  lemma LostStep(t: Table, u: Table, c: nat, d: nat, s: nat, at: nat, x: Name)
    requires Tree(t) && Tree(u) && Loses(t, u, c, d, s)
    ensures Step(u, at, x) == if Step(t, at, x) == Some(c) then None else Step(t, at, x)
    ensures Step(t, c, x).None?
  {
    StepMisses(t, c, x);
    if Step(t, at, x).Some? {
      StepFinds(t, at, x);
      var r: nat :| Slot(t, at, r) == Entry(Step(t, at, x).value, x);
      if Step(t, at, x) != Some(c) {
        assert Slot(u, at, r) == Slot(t, at, r);
        StepIs(u, at, r);
      } else {
        OnlyEntry(t, d, s, at, r);
        forall q: nat ensures Slot(u, at, q).Entry? ==> Slot(u, at, q).name != x { assert Apart(t, at, r, q); }
        StepMisses(u, at, x);
      }
    } else {
      forall q: nat ensures Slot(u, at, q).Entry? ==> Slot(u, at, q).name != x {
        if Slot(u, at, q).Entry? && Slot(u, at, q).name == x {
          StepIs(t, at, q);
        }
      }
      StepMisses(u, at, x);
    }
  }

  /** A walk after a removal ends where it did, unless that was the removed inode. */
  lemma {:induction false} LostWalk(t: Table, u: Table, c: nat, d: nat, s: nat, at: nat, p: seq<Name>)
    requires Tree(t) && Tree(u) && Loses(t, u, c, d, s) && at != c
    ensures Walk(u, at, p).Ok? <==> Walk(t, at, p).Ok? && Walk(t, at, p) != Ok(c)
    ensures Walk(u, at, p).Ok? ==> Walk(u, at, p) == Walk(t, at, p)
    decreases |p|
  {
    if p != [] {
      LostStep(t, u, c, d, s, at, p[0]);
      WalkSteps(t, at, p);
      WalkSteps(u, at, p);
      var next := Step(t, at, p[0]);
      if next == Some(c) {
        if p[1..] != [] {
          LostStep(t, u, c, d, s, c, p[1..][0]);
          WalkSteps(t, c, p[1..]);
        }
      } else if next.Some? {
        LostWalk(t, u, c, d, s, next.value, p[1..]);
      }
    }
  }

  /** Removing a childless inode takes its path away and leaves every other path as it was. */
  lemma RemoveSeen(fs: FileSystem, place: seq<Name>, at: Place, s: nat, c: nat, p: seq<Name>)
    requires Good(fs) && Walk(fs.inodes, 0, place) == Ok(at.parent)
    requires Slot(fs.inodes, at.parent, s) == Entry(c, at.name) && Some(c) !in fs.handles
    requires forall r: nat :: Slot(fs.inodes, c, r).Free?
    ensures Used(fs.inodes, at.parent) && s < |fs.inodes[at.parent].children| && c < |fs.inodes|
    ensures Sees(Removed(fs.inodes, at.parent, s, c), p)
            == if p == place + [at.name] then None else Sees(fs.inodes, p)
    ensures Walk(fs.inodes, 0, place + [at.name]) == Ok(c)
  {
    var t, names := fs.inodes, place + [at.name];
    assert EntryOk(t, at.parent, s);
    RemoveKeeps(fs, at.parent, s, c);
    RemovedLoses(t, at.parent, s, c);
    var u := Removed(t, at.parent, s, c);
    LostWalk(t, u, c, at.parent, s, 0, p);
    NamedWalk(t, place, at.parent, s, at.name);
    if Walk(t, 0, p).Ok? {
      WalkStaysUsed(t, 0, p);
      if Walk(t, 0, p).value == c {
        OnePath(t, p, names, c);
      }
    }
    assert SameNodes(t, u, c);
  }

  /** The names of a directory and of an entry in it lead to the entry's inode. */
  lemma NamedWalk(t: Table, place: seq<Name>, d: nat, s: nat, name: Name)
    requires Tree(t) && Walk(t, 0, place) == Ok(d) && Slot(t, d, s).Entry? && Slot(t, d, s).name == name
    ensures Walk(t, 0, place + [name]) == Ok(Slot(t, d, s).inode)
  {
    var names, one := place + [name], [name];
    assert names[..|names| - 1] == place && one[1..] == [];
    WalkLast(t, 0, names);
    StepIs(t, d, s);
    WalkSteps(t, d, one);
  }

  // ------------------------------------------------------------------ renaming

  ghost predicate Beneath(t: Table, x: nat, c: nat) { exists n: nat :: Climbs(t, x, n) && OnPath(t, x, n, c) }

  lemma BeneathStep(t: Table, at: nat, x: Name, c: nat)
    requires Tree(t) && Step(t, at, x).Some?
    ensures Used(t, at) && Used(t, Step(t, at, x).value) && Step(t, at, x).value != 0
    ensures Beneath(t, at, c) ==> Beneath(t, Step(t, at, x).value, c)
    ensures Beneath(t, Step(t, at, x).value, c) ==> Step(t, at, x).value == c || Beneath(t, at, c)
  {
    var y := Step(t, at, x).value;
    StepFinds(t, at, x);
    var r: nat :| Slot(t, at, r) == Entry(y, x);
    assert EntryOk(t, at, r);
    if Beneath(t, at, c) {
      var n: nat :| Climbs(t, at, n) && OnPath(t, at, n, c);
      assert Climbs(t, y, n + 1) && OnPath(t, y, n + 1, c);
    }
    if Beneath(t, y, c) && y != c {
      var n: nat :| Climbs(t, y, n) && OnPath(t, y, n, c);
      assert n > 0 && Climbs(t, at, n - 1) && OnPath(t, at, n - 1, c);
    }
  }

  /** The parent of `c` is not beneath it. */
  lemma ParentIsOutside(t: Table, d: nat, s: nat, c: nat)
    requires Tree(t) && Names(t, d, s, c)
    ensures !Beneath(t, d, c)
  {
    assert EntryOk(t, d, s);
    if Beneath(t, d, c) {
      var n: nat :| Climbs(t, d, n) && OnPath(t, d, n, c);
      var k := PathClimbs(t, d, n, c);
      assert Climbs(t, c, n + 1);
      ClimbUnique(t, c, k, n + 1);
    }
  }

  lemma ShiftedStep(t: Table, u: Table, c: nat, d: nat, s: nat, d2: nat, s2: nat, name: Name, at: nat, x: Name)
    requires Tree(t) && Tree(u) && Shifts(t, u, c, d, s, d2, s2, name)
    requires forall r: nat :: Slot(t, d2, r).Entry? ==> Slot(t, d2, r).name != name
    ensures Step(u, at, x) == if at == d2 && x == name then Some(c)
                              else if Step(t, at, x) == Some(c) then None else Step(t, at, x)
  {
    if at == d2 && x == name {
      assert Slot(u, d2, s2) == Entry(c, name);
      StepIs(u, d2, s2);
    } else if Step(t, at, x).Some? && Step(t, at, x) != Some(c) {
      StepFinds(t, at, x);
      var r: nat :| Slot(t, at, r) == Entry(Step(t, at, x).value, x);
      assert Slot(u, at, r) == Slot(t, at, r);
      StepIs(u, at, r);
    } else {
      forall q: nat ensures Slot(u, at, q).Entry? ==> Slot(u, at, q).name != x {
        ShiftedSlot(t, u, c, d, s, d2, s2, name, at, x, q);
      }
      StepMisses(u, at, x);
    }
  }

  lemma ShiftedSlot(t: Table, u: Table, c: nat, d: nat, s: nat, d2: nat, s2: nat, name: Name, at: nat, x: Name, q: nat)
    requires Tree(t) && Tree(u) && Shifts(t, u, c, d, s, d2, s2, name)
    requires !(at == d2 && x == name) && (Step(t, at, x).None? || Step(t, at, x) == Some(c))
    ensures Slot(u, at, q).Entry? ==> Slot(u, at, q).name != x
  {
    if Slot(u, at, q).Entry? && Slot(u, at, q).name == x {
      assert Slot(t, at, q) == Slot(u, at, q);
      StepIs(t, at, q);
      OnlyEntry(t, d, s, at, q);
    }
  }

  /** Below what was moved nothing changes. */
  lemma {:induction false} InsideWalk(t: Table, u: Table, c: nat, d: nat, s: nat, d2: nat, s2: nat, name: Name,
                                      at: nat, p: seq<Name>)
    requires Tree(t) && Tree(u) && Shifts(t, u, c, d, s, d2, s2, name)
    requires forall r: nat :: Slot(t, d2, r).Entry? ==> Slot(t, d2, r).name != name
    requires Beneath(t, at, c) && !Beneath(t, d2, c)
    ensures Walk(u, at, p).Ok? <==> Walk(t, at, p).Ok?
    ensures Walk(u, at, p).Ok? ==> Walk(u, at, p) == Walk(t, at, p)
    decreases |p|
  {
    if p != [] {
      ShiftedStep(t, u, c, d, s, d2, s2, name, at, p[0]);
      WalkSteps(t, at, p);
      WalkSteps(u, at, p);
      var next := Step(t, at, p[0]);
      if next.Some? {
        BeneathStep(t, at, p[0], c);
        if next.value == c {
          NotItsOwnParent(t, at, p[0], c);
        }
        InsideWalk(t, u, c, d, s, d2, s2, name, next.value, p[1..]);
      }
    }
  }

  lemma NotItsOwnParent(t: Table, at: nat, x: Name, c: nat)
    requires Tree(t) && Step(t, at, x) == Some(c)
    ensures !Beneath(t, at, c)
  {
    StepFinds(t, at, x);
    var r: nat :| Slot(t, at, r) == Entry(c, x);
    ParentIsOutside(t, at, r, c);
  }

  /** What is left of the names behind this name in that directory, if the walk comes by. */
  function Behind(t: Table, at: nat, p: seq<Name>, d: nat, name: Name): Option<seq<Name>>
    decreases |p|
  {
    if p == [] then None
    else if at == d && p[0] == name then Some(p[1..])
    else
      var next := Step(t, at, p[0]);
      if next.Some? then Behind(t, next.value, p[1..], d, name) else None
  }

  lemma {:induction false} BehindSplits(t: Table, at: nat, p: seq<Name>, d: nat, name: Name) returns (q: seq<Name>)
    requires Behind(t, at, p, d, name).Some?
    ensures Walk(t, at, q) == Ok(d) && p == q + [name] + Behind(t, at, p, d, name).value
    decreases |p|
  {
    if at == d && p[0] == name {
      q := [];
    } else {
      var next := Step(t, at, p[0]).value;
      var rest := BehindSplits(t, next, p[1..], d, name);
      q := [p[0]] + rest;
      assert q[1..] == rest;
      WalkSteps(t, at, q);
    }
  }

  lemma {:induction false} BehindReaches(t: Table, at: nat, q: seq<Name>, name: Name, r: seq<Name>, d: nat)
    requires Walk(t, at, q) == Ok(d)
    ensures Behind(t, at, q + [name] + r, d, name).Some?
    decreases |q|
  {
    var p := q + [name] + r;
    if q != [] {
      WalkSteps(t, at, q);
      assert p[0] == q[0] && p[1..] == q[1..] + [name] + r;
      BehindReaches(t, Step(t, at, q[0]).value, q[1..], name, r, d);
    }
  }

  /** From the root, the walk comes by exactly when the names start with the directory's path and the name. */
  lemma BehindIs(t: Table, place: seq<Name>, d: nat, name: Name, p: seq<Name>)
    requires Tree(t) && Walk(t, 0, place) == Ok(d)
    ensures var path := place + [name];
            Behind(t, 0, p, d, name) == if path <= p then Some(p[|path|..]) else None
  {
    var path := place + [name];
    if Behind(t, 0, p, d, name).Some? {
      var q := BehindSplits(t, 0, p, d, name);
      OnePath(t, q, place, d);
      assert path <= p && p[|path|..] == Behind(t, 0, p, d, name).value;
    } else if path <= p {
      assert p == place + [name] + p[|path|..];
      BehindReaches(t, 0, place, name, p[|path|..], d);
    }
  }

  lemma {:induction false} BeneathWalk(t: Table, at: nat, q: seq<Name>, c: nat)
    requires Tree(t) && Beneath(t, at, c) && Walk(t, at, q).Ok?
    ensures Beneath(t, Walk(t, at, q).value, c)
    decreases |q|
  {
    if q != [] {
      WalkSteps(t, at, q);
      BeneathStep(t, at, q[0], c);
      BeneathWalk(t, Step(t, at, q[0]).value, q[1..], c);
    }
  }

  lemma NotBehindInside(t: Table, at: nat, p: seq<Name>, c: nat, d: nat, name: Name)
    requires Tree(t) && Beneath(t, at, c) && !Beneath(t, d, c)
    ensures Behind(t, at, p, d, name).None?
  {
    if Behind(t, at, p, d, name).Some? {
      var q := BehindSplits(t, at, p, d, name);
      BeneathWalk(t, at, q, c);
    }
  }

  /** Where a walk after a rename ends: what is behind the new name is what was behind the old one. */
  lemma {:induction false} OutsideWalk(t: Table, u: Table, c: nat, d: nat, s: nat, d2: nat, s2: nat, name: Name,
                                       at: nat, p: seq<Name>)
    requires Tree(t) && Tree(u) && Shifts(t, u, c, d, s, d2, s2, name)
    requires forall r: nat :: Slot(t, d2, r).Entry? ==> Slot(t, d2, r).name != name
    requires !Beneath(t, at, c) && !Beneath(t, d2, c)
    ensures var target, source := Behind(t, at, p, d2, name), Behind(t, at, p, d, Slot(t, d, s).name);
            var w := if target.Some? then Walk(t, c, target.value)
                     else if source.Some? then Err(NotFound) else Walk(t, at, p);
            (Walk(u, at, p).Ok? <==> w.Ok?) && (w.Ok? ==> Walk(u, at, p) == w)
    decreases |p|
  {
    if p != [] {
      var source := Slot(t, d, s).name;
      ShiftedStep(t, u, c, d, s, d2, s2, name, at, p[0]);
      StepIs(t, d, s);
      WalkSteps(t, at, p);
      WalkSteps(u, at, p);
      var next := Step(t, at, p[0]);
      if at == d2 && p[0] == name {
        ItselfBeneath(t, d, s, c);
        InsideWalk(t, u, c, d, s, d2, s2, name, c, p[1..]);
      } else if next == Some(c) {
        SlotOfStep(t, d, s, at, p[0]);
        ItselfBeneath(t, d, s, c);
        NotBehindInside(t, c, p[1..], c, d2, name);
      } else if next.Some? {
        BeneathStep(t, at, p[0], c);
        OutsideWalk(t, u, c, d, s, d2, s2, name, next.value, p[1..]);
      }
    }
  }

  lemma ItselfBeneath(t: Table, d: nat, s: nat, c: nat)
    requires Tree(t) && Names(t, d, s, c)
    ensures Beneath(t, c, c)
  {
    assert EntryOk(t, d, s) && Rooted(t, c);
    var n: nat :| Climbs(t, c, n);
    assert OnPath(t, c, n, c);
  }

  /** Only the one slot leads to the inode it names. */
  lemma SlotOfStep(t: Table, d: nat, s: nat, at: nat, x: Name)
    requires Tree(t) && Slot(t, d, s).Entry? && Step(t, at, x) == Some(Slot(t, d, s).inode)
    ensures at == d && x == Slot(t, d, s).name
  {
    StepFinds(t, at, x);
    var r: nat :| Slot(t, at, r) == Entry(Slot(t, d, s).inode, x);
    OnlyEntry(t, d, s, at, r);
  }

  /** The names beyond a directory's entry lead where they lead from the entry's inode. */
  lemma {:induction false} WalkOn(t: Table, at: nat, q: seq<Name>, r: seq<Name>)
    requires Walk(t, at, q).Ok?
    ensures Walk(t, at, q + r) == Walk(t, Walk(t, at, q).value, r)
    decreases |q|
  {
    if q == [] {
      assert q + r == r;
    } else {
      WalkSteps(t, at, q);
      assert (q + r)[0] == q[0] && (q + r)[1..] == q[1..] + r;
      WalkOn(t, Step(t, at, q[0]).value, q[1..], r);
    }
  }

  /** After a rename, the paths that start with the new one show what those that started with the old one did, those
      that start with the old one show nothing, and every other path shows what it did. */
  lemma RenameSeen(fs: FileSystem, from: seq<Name>, d: nat, s: nat, onto: seq<Name>, after: Place, p: seq<Name>)
    requires Good(fs) && Intact(fs.inodes) && Slot(fs.inodes, d, s).Entry? && IsDir(fs.inodes, after.parent)
    requires Walk(fs.inodes, 0, from) == Ok(d) && Walk(fs.inodes, 0, onto) == Ok(after.parent)
    requires RenameEntry(fs, d, s, after).result.Ok?
    ensures var source, target := from + [Slot(fs.inodes, d, s).name], onto + [after.name];
            Sees(RenameEntry(fs, d, s, after).fs.inodes, p)
            == if target <= p then Sees(fs.inodes, source + p[|target|..])
               else if source <= p then None else Sees(fs.inodes, p)
  {
    var t, u, c := fs.inodes, RenameEntry(fs, d, s, after).fs.inodes, Slot(fs.inodes, d, s).inode;
    var source, target := from + [Slot(t, d, s).name], onto + [after.name];
    var s2 := RenameEntryKeeps(fs, d, s, after);
    var n := RenameIsClear(t, d, s, c, after.parent);
    OutsideTarget(t, after.parent, n, c);
    RootOutside(t, d, s, c);
    OutsideWalk(t, u, c, d, s, after.parent, s2, after.name, 0, p);
    BehindIs(t, onto, after.parent, after.name, p);
    BehindIs(t, from, d, Slot(t, d, s).name, p);
    NamedWalk(t, from, d, s, Slot(t, d, s).name);
    if target <= p {
      WalkOn(t, 0, source, p[|target|..]);
    }
    RenamedNodes(fs, d, s, after);
    ShiftedSees(t, u, c, d, s, after.parent, s2, after.name, if target <= p then source + p[|target|..] else p, p);
  }

  lemma OutsideTarget(t: Table, d: nat, n: nat, c: nat)
    requires Climbs(t, d, n) && !OnPath(t, d, n, c)
    ensures !Beneath(t, d, c)
  {
    if Beneath(t, d, c) {
      var k: nat :| Climbs(t, d, k) && OnPath(t, d, k, c);
      ClimbUnique(t, d, n, k);
    }
  }

  lemma RootOutside(t: Table, d: nat, s: nat, c: nat)
    requires Tree(t) && Names(t, d, s, c)
    ensures !Beneath(t, 0, c)
  {
    assert EntryOk(t, d, s);
  }

  /** The inodes hold what they did. */
  lemma RenamedNodes(fs: FileSystem, d: nat, s: nat, after: Place)
    requires Slot(fs.inodes, d, s).Entry? && IsDir(fs.inodes, after.parent) && Intact(fs.inodes)
    requires RenameEntry(fs, d, s, after).result.Ok?
    ensures var t, u := fs.inodes, RenameEntry(fs, d, s, after).fs.inodes;
            forall i: nat :: (Used(u, i) <==> Used(t, i)) && (Used(t, i) ==> ObjectOf(u[i]) == ObjectOf(t[i]))
  {
  }

  /** Walks that end at the same inode see the same. */
  lemma ShiftedSees(t: Table, u: Table, c: nat, d: nat, s: nat, d2: nat, s2: nat, name: Name, q: seq<Name>,
                    p: seq<Name>)
    requires Shifts(t, u, c, d, s, d2, s2, name)
    requires forall i: nat :: (Used(u, i) <==> Used(t, i)) && (Used(t, i) ==> ObjectOf(u[i]) == ObjectOf(t[i]))
    ensures Walk(u, 0, p).Err? ==> Sees(u, p).None?
    ensures Walk(u, 0, p).Ok? && Walk(t, 0, q) == Walk(u, 0, p) ==> Sees(u, p) == Sees(t, q)
    ensures Walk(t, 0, q).Err? ==> Sees(t, q).None?
  {
  }

  // ------------------------------------------------------------------ the operations

  /** A path that leads to a place: the names of its directory, and its own. */
  predicate Leads(t: Table, path: seq<byte>, place: seq<Name>, at: Place) {
    Parse(path) == Ok(place + [at.name]) && Walk(t, 0, place) == Ok(at.parent) && IsDir(t, at.parent)
  }

  lemma PlaceLeads(t: Table, path: seq<byte>)
    requires PlaceOf(t, path).Ok?
    ensures var names := Parse(path).value; names != [] && Leads(t, path, names[..|names| - 1], PlaceOf(t, path).value)
  {
    var names := Parse(path).value;
    assert names == names[..|names| - 1] + [names[|names| - 1]];
  }

  /** `p` is the path of these bytes. */
  predicate Spelled(path: seq<byte>, p: seq<Name>) { Parse(path) == Ok(p) }

  /** A directory is made with mode 755 under its path, where nothing stood in a folder, and nothing else changes; a
      refusal changes nothing. */
  lemma MakeDirectoryEffect(fs: FileSystem, path: seq<byte>, p: seq<Name>)
    requires Good(fs)
    ensures var made := MakeDirectory(fs, path);
            && (made.result.Err? ==> made.fs == fs)
            && (made.result.Ok? ==>
                  && made.fs.handles == fs.handles && Parse(path).Ok? && Parse(path).value != []
                  && Sees(fs.inodes, Parse(path).value).None?
                  && Sees(made.fs.inodes, p)
                     == if Spelled(path, p) then Some(Folder(7 * 64 + 5 * 8 + 5)) else Sees(fs.inodes, p))
  {
    var place := PlaceOf(fs.inodes, path);
    if place.Ok? {
      PlaceLeads(fs.inodes, path);
      var names := Parse(path).value;
      if MakeDirectory(fs, path).result.Ok? {
        CreateSeen(fs, names[..|names| - 1], place.value, Directory, 0x1ed, p);
      }
    }
  }

  /** A removable path: its object, and the slot that names it. */
  lemma EntrySeen(fs: FileSystem, path: seq<byte>) returns (s: nat, c: nat)
    requires Good(fs) && PlaceOf(fs.inodes, path).Ok?
    requires SlotNamed(fs.inodes, PlaceOf(fs.inodes, path).value.parent, PlaceOf(fs.inodes, path).value.name).Some?
    ensures var at := PlaceOf(fs.inodes, path).value;
            && SlotNamed(fs.inodes, at.parent, at.name) == Some(s)
            && Slot(fs.inodes, at.parent, s) == Entry(c, at.name) && Used(fs.inodes, c)
            && Walk(fs.inodes, 0, Parse(path).value) == Ok(c)
            && Sees(fs.inodes, Parse(path).value) == Some(ObjectOf(fs.inodes[c]))
  {
    var t, at := fs.inodes, PlaceOf(fs.inodes, path).value;
    PlaceLeads(t, path);
    s := SlotNamed(t, at.parent, at.name).value;
    c := Slot(t, at.parent, s).inode;
    assert EntryOk(t, at.parent, s);
    var names := Parse(path).value;
    NamedWalk(t, names[..|names| - 1], at.parent, s, at.name);
  }

  /** A document that no handle is open on loses its path, and nothing else changes. */
  lemma UnlinkEffect(fs: FileSystem, path: seq<byte>, p: seq<Name>)
    requires Good(fs) && Intact(fs.inodes)
    ensures var gone := Unlink(fs, path);
            && (gone.result.Err? ==> gone.fs == fs)
            && (gone.result.Ok? ==>
                  && gone.fs.handles == fs.handles && Parse(path).Ok?
                  && Sees(fs.inodes, Parse(path).value).Some? && Sees(fs.inodes, Parse(path).value).value.Document?
                  && Sees(gone.fs.inodes, p) == if Spelled(path, p) then None else Sees(fs.inodes, p))
  {
    if Unlink(fs, path).result.Ok? {
      var at, names := PlaceOf(fs.inodes, path).value, Parse(path).value;
      var s, c := EntrySeen(fs, path);
      PlaceLeads(fs.inodes, path);
      NothingBelow(fs, c);
      RemoveSeen(fs, names[..|names| - 1], at, s, c, p);
    }
  }

  /** A folder that holds nothing loses its path, and nothing else changes. */
  lemma RemoveDirectoryEffect(fs: FileSystem, path: seq<byte>, p: seq<Name>, x: Name)
    requires Good(fs)
    ensures var gone := RemoveDirectory(fs, path);
            && (gone.result.Err? ==> gone.fs == fs)
            && (gone.result.Ok? ==>
                  && gone.fs.handles == fs.handles && Parse(path).Ok?
                  && Sees(fs.inodes, Parse(path).value).Some? && Sees(fs.inodes, Parse(path).value).value.Folder?
                  && Sees(fs.inodes, Parse(path).value + [x]).None?
                  && Sees(gone.fs.inodes, p) == if Spelled(path, p) then None else Sees(fs.inodes, p))
  {
    if RemoveDirectory(fs, path).result.Ok? {
      var at, names := PlaceOf(fs.inodes, path).value, Parse(path).value;
      var s, c := EntrySeen(fs, path);
      PlaceLeads(fs.inodes, path);
      NothingBelow(fs, c);
      forall r: nat | r < |fs.handles| ensures fs.handles[r] != Some(c) { assert HandleOk(fs, r); }
      RemoveSeen(fs, names[..|names| - 1], at, s, c, p);
      NothingIn(fs.inodes, names, c, x);
    }
  }

  lemma NothingIn(t: Table, names: seq<Name>, c: nat, x: Name)
    requires Walk(t, 0, names) == Ok(c) && forall r: nat :: Slot(t, c, r).Free?
    ensures Sees(t, names + [x]).None?
  {
    WalkOn(t, 0, names, [x]);
    StepMisses(t, c, x);
    WalkSteps(t, c, [x]);
  }

  /** A rename moves what stands at one path, and everything beneath it, to another path where nothing stood. */
  lemma RenameEffect(fs: FileSystem, from: seq<byte>, onto: seq<byte>, p: seq<Name>)
    requires Good(fs) && Intact(fs.inodes)
    ensures var moved := Rename(fs, from, onto);
            && (moved.result.Err? ==> moved.fs == fs)
            && (moved.result.Ok? ==>
                  && moved.fs.handles == fs.handles && Parse(from).Ok? && Parse(onto).Ok?
                  && var source, target := Parse(from).value, Parse(onto).value;
                     && Sees(fs.inodes, source).Some? && Sees(fs.inodes, target).None?
                     && Sees(moved.fs.inodes, p)
                        == if target <= p then Sees(fs.inodes, source + p[|target|..])
                           else if source <= p then None else Sees(fs.inodes, p))
  {
    if Rename(fs, from, onto).result.Ok? {
      var t, after := fs.inodes, PlaceOf(fs.inodes, onto).value;
      var source, target := Parse(from).value, Parse(onto).value;
      var s, c := EntrySeen(fs, from);
      PlaceLeads(t, from);
      PlaceLeads(t, onto);
      RenameSeen(fs, source[..|source| - 1], PlaceOf(t, from).value.parent, s, target[..|target| - 1], after, p);
      NotSeen(t, target[..|target| - 1], after);
    }
  }

  lemma NotSeen(t: Table, place: seq<Name>, at: Place)
    requires Walk(t, 0, place) == Ok(at.parent) && SlotNamed(t, at.parent, at.name).None?
    ensures Sees(t, place + [at.name]).None?
  {
    WalkOn(t, 0, place, [at.name]);
    WalkSteps(t, at.parent, [at.name]);
  }

  // ------------------------------------------------------------------ contents and modes

  /** Walks do not depend on what inodes hold. */
  lemma {:induction false} SameWalks(t: Table, u: Table, at: nat, p: seq<Name>)
    requires forall i: nat :: IsDir(u, i) <==> IsDir(t, i)
    requires forall i: nat :: Used(u, i) && Used(t, i) ==> u[i].children == t[i].children
    ensures Walk(u, at, p) == Walk(t, at, p)
    decreases |p|
  {
    if p != [] && IsDir(t, at) && SlotNamed(t, at, p[0]).Some? {
      SameWalks(t, u, Slot(t, at, SlotNamed(t, at, p[0]).value).inode, p[1..]);
    }
  }

  /** One inode holds something else, and lists what it did. */
  lemma UpdateSeen(t: Table, i: nat, node: Inode, p: seq<Name>)
    requires Used(t, i) && node.Node? && node.kind == t[i].kind && node.children == t[i].children
    ensures Walk(t[i := node], 0, p) == Walk(t, 0, p)
    ensures Sees(t[i := node], p) == if Walk(t, 0, p) == Ok(i) then Some(ObjectOf(node)) else Sees(t, p)
  {
    SameWalks(t, t[i := node], 0, p);
  }

  /** A write through a handle lays its bytes over the document the handle is open on, wherever that stands, and
      changes nothing else. */
  lemma WriteEffect(fs: FileSystem, h: Handle, input: seq<byte>, p: seq<Name>)
    requires Good(fs)
    ensures var wrote := WriteHandle(fs, h, input);
            && (wrote.result.Ok? <==> Valid(fs, h) && h.writable && h.offset + |input| <= 4096)
            && (wrote.result.Err? ==> wrote.fs == fs && wrote.handle == h)
            && (wrote.result.Ok? ==>
                  && wrote.result.value == |input| && wrote.fs.handles == fs.handles
                  && wrote.handle == h.(offset := wrote.handle.offset) && wrote.handle.offset == h.offset + |input|
                  && if Walk(fs.inodes, 0, p) == Ok(h.inode) then
                       && Sees(fs.inodes, p).Some? && Sees(fs.inodes, p).value.Document?
                       && Sees(wrote.fs.inodes, p)
                          == Some(Document(Sees(fs.inodes, p).value.mode,
                                           Overlay(Sees(fs.inodes, p).value.content, h.offset, input)))
                     else Sees(wrote.fs.inodes, p) == Sees(fs.inodes, p))
  {
    var wrote := WriteHandle(fs, h, input);
    if wrote.result.Ok? {
      WriteOverlays(fs, h, input);
      assert HandleOk(fs, h.slot);
      UpdateSeen(fs.inodes, h.inode, wrote.fs.inodes[h.inode], p);
    }
  }

  /** A mode's nine bits are set at one path. */
  lemma ChmodEffect(fs: FileSystem, path: seq<byte>, mode: nat, p: seq<Name>)
    requires Good(fs) && Intact(fs.inodes)
    ensures var done := Chmod(fs, path, mode);
            && (done.result.Err? ==> done.fs == fs)
            && (done.result.Ok? <==> Parse(path).Ok? && Sees(fs.inodes, Parse(path).value).Some?)
            && (done.result.Ok? ==>
                  && done.fs.handles == fs.handles
                  && Sees(done.fs.inodes, p)
                     == if Spelled(path, p) then
                          match Sees(fs.inodes, p).value
                          case Folder(_) => Some(Folder(mode % 512))
                          case Document(_, content) => Some(Document(mode % 512, content))
                        else Sees(fs.inodes, p))
  {
    var t := fs.inodes;
    if Parse(path).Ok? && Lookup(t, path).Ok? {
      var names, i := Parse(path).value, Lookup(t, path).value;
      WalkStaysUsed(t, 0, names);
      UpdateSeen(t, i, t[i].(mode := mode % 0x200), p);
      if Walk(t, 0, p) == Ok(i) {
        OnePath(t, p, names, i);
      }
    }
  }

  // ------------------------------------------------------------------ opening

  /** Some octal digit of the mode has the read bit, and some the write bit. */
  predicate Readable(mode: nat) { mode % 8 >= 4 || mode / 8 % 8 >= 4 || mode / 64 % 8 >= 4 }

  predicate Writable(mode: nat) { mode % 8 % 4 >= 2 || mode / 8 % 8 % 4 >= 2 || mode / 64 % 8 % 4 >= 2 }

  lemma ModeBits(mode: nat)
    ensures (MayRead(mode) <==> Readable(mode)) && (MayWrite(mode) <==> Writable(mode))
  {
    DigitBits(mode);
    DigitBits(mode / 8);
    DigitBits(mode / 64);
    assert mode / 8 / 4 == mode / 32 && mode / 64 / 4 == mode / 256;
    assert mode / 8 / 2 == mode / 16 && mode / 64 / 2 == mode / 128;
  }

  lemma DigitBits(n: nat)
    ensures (n / 4 % 2 == 1 <==> n % 8 >= 4) && (n / 2 % 2 == 1 <==> n % 8 % 4 >= 2)
  {
    var q, r := n / 8, n % 8;
    DivisionUnique(n, 4, 2 * q + r / 4, r % 4);
    DivisionUnique(n, 2, 4 * q + r / 2, r % 2);
  }

  predicate LowestFree(handles: seq<Option<nat>>, s: nat) {
    s < |handles| && handles[s].None? && forall k :: 0 <= k < s ==> handles[k].Some?
  }

  /** The handle opened on an inode: at the start of the document, with the rights asked for, in the lowest free
      slot; or a refusal that changes nothing. */
  predicate Opened(fs: FileSystem, i: nat, mode: nat, options: Options, got: Done<Handle>) {
    && got.fs.inodes == fs.inodes
    && (got.result.Ok?
        <==> (options.read ==> Readable(mode)) && (options.write ==> Writable(mode)) && None in fs.handles)
    && (got.result.Err? ==> got.fs == fs)
    && (got.result.Ok? ==>
          && LowestFree(fs.handles, got.result.value.slot)
          && got.result.value == Handle(i, got.result.value.slot, 0, options.read, options.write)
          && got.fs.handles == fs.handles[got.result.value.slot := Some(i)])
  }

  lemma OpenInodeEffect(fs: FileSystem, i: nat, options: Options)
    requires Used(fs.inodes, i) && fs.inodes[i].kind == Regular
    ensures Opened(fs, i, fs.inodes[i].mode, options, OpenInode(fs, i, options))
  {
    ModeBits(fs.inodes[i].mode);
    var free := First(fs.handles, (h: Option<nat>) => h.None?, 0);
    assert None in fs.handles <==> free.Some?;
  }

  /** Opening what stands at a path: a folder is refused, a document opened if its mode allows it. */
  lemma OpenEffect(fs: FileSystem, path: seq<byte>, options: Options)
    requires Good(fs) && Intact(fs.inodes) && Parse(path).Ok? && Sees(fs.inodes, Parse(path).value).Some?
    ensures var got, seen := Open(fs, path, options), Sees(fs.inodes, Parse(path).value).value;
            && Lookup(fs.inodes, path).Ok?
            && match seen
               case Folder(_) => got == Done(Err(IsDirectory), fs)
               case Document(mode, _) => Opened(fs, Lookup(fs.inodes, path).value, mode, options, got)
  {
    var i := Lookup(fs.inodes, path).value;
    if fs.inodes[i].kind == Regular {
      OpenInodeEffect(fs, i, options);
    }
  }

  /** Opening a path where nothing stands: refused without leave to create, and otherwise an empty document of mode 644
      is made there, even when no handle can be opened on it, and nothing else changes. */
  lemma OpenCreatesEffect(fs: FileSystem, path: seq<byte>, options: Options, p: seq<Name>)
    requires Good(fs) && Intact(fs.inodes) && Parse(path).Ok? && Sees(fs.inodes, Parse(path).value).None?
    ensures var got := Open(fs, path, options);
            && (!options.create ==> got.result.Err? && got.fs == fs)
            && (got.fs.inodes != fs.inodes ==>
                  Sees(got.fs.inodes, p)
                  == if Spelled(path, p) then Some(Document(6 * 64 + 4 * 8 + 4, [])) else Sees(fs.inodes, p))
            && (got.result.Ok? ==>
                  && got.fs.inodes != fs.inodes && LowestFree(fs.handles, got.result.value.slot)
                  && got.result.value.offset == 0 && got.result.value.readable == options.read
                  && got.result.value.writable == options.write
                  && Walk(got.fs.inodes, 0, Parse(path).value) == Ok(got.result.value.inode))
  {
    var t, names := fs.inodes, Parse(path).value;
    if Lookup(t, path).Ok? {
      WalkStaysUsed(t, 0, names);
    } else if Lookup(t, path) == Err(NotFound) && options.create && PlaceOf(t, path).Ok? {
      var at := PlaceOf(t, path).value;
      var made := CreateNodeAt(fs, at, Regular, 0x1a4);
      if made.result.Ok? {
        PlaceLeads(t, path);
        CreateSeen(fs, names[..|names| - 1], at, Regular, 0x1a4, p);
        CreateThenLookup(fs, path, Regular, 0x1a4);
        OpenInodeEffect(made.fs, made.result.value, options);
      }
    }
  }
}
