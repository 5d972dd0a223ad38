/** The inode table is a tree, whatever is created, removed and renamed. */
module RamfsTree {
  import opened Common
  import opened RamfsPath
  import opened Ramfs

  // ------------------------------------------------------------------ the invariant

  predicate Names(t: Table, d: nat, s: nat, c: nat) { Slot(t, d, s).Entry? && Slot(t, d, s).inode == c }

  /** An entry stands in a directory and names an inode whose parent field gives that directory. */
  predicate EntryOk(t: Table, d: nat, s: nat) {
    Slot(t, d, s).Entry? ==>
      && IsDir(t, d) && Slot(t, d, s).inode != 0
      && Used(t, Slot(t, d, s).inode) && Parent(t, Slot(t, d, s).inode) == d
  }

  /** Two entries of a directory differ in name and in inode. */
  predicate Apart(t: Table, d: nat, s1: nat, s2: nat) {
    s1 != s2 && Slot(t, d, s1).Entry? && Slot(t, d, s2).Entry? ==>
      Slot(t, d, s1).name != Slot(t, d, s2).name && Slot(t, d, s1).inode != Slot(t, d, s2).inode
  }

  /** Every inode in use but the root has an entry in its parent. */
  ghost predicate Listed(t: Table, c: nat) {
    Used(t, c) && c != 0 ==> exists s: nat :: Names(t, Parent(t, c), s, c)
  }

  /** Following parent fields from `i` first meets the root after exactly `n` steps. */
  predicate Climbs(t: Table, i: nat, n: nat)
    decreases n
  {
    if n == 0 then i == 0 else i != 0 && Climbs(t, Parent(t, i), n - 1)
  }

  ghost predicate Rooted(t: Table, i: nat) { Used(t, i) ==> exists n: nat :: Climbs(t, i, n) }

  /** The slots of an inode are all there, and its buffer is blank past the file's end. */
  predicate Shaped(t: Table, i: nat) {
    Used(t, i) ==> |t[i].children| == MAX_CHILDREN && forall k :: t[i].size <= k < FILE_MAX ==> t[i].data[k] == 0
  }

  ghost predicate Tree(t: Table) {
    && |t| == MAX_INODES && IsDir(t, 0) && Parent(t, 0) == 0
    && (forall i: nat :: Shaped(t, i))
    && (forall d: nat, s: nat :: EntryOk(t, d, s))
    && (forall d: nat, s1: nat, s2: nat :: Apart(t, d, s1, s2))
    && (forall c: nat :: Listed(t, c))
    && (forall i: nat :: Rooted(t, i))
  }

  lemma TreeIsIntact(t: Table)
    requires Tree(t)
    ensures Intact(t)
  {
    forall d: nat, s: nat | Slot(t, d, s).Entry? ensures Used(t, Slot(t, d, s).inode) { assert EntryOk(t, d, s); }
  }

  /** The parent of an inode in use is a directory. */
  lemma ParentIsDir(t: Table, c: nat)
    requires Tree(t) && Used(t, c)
    ensures IsDir(t, Parent(t, c))
  {
    if c != 0 {
      assert Listed(t, c);
      var s: nat :| Names(t, Parent(t, c), s, c);
      assert EntryOk(t, Parent(t, c), s);
    }
  }

  /** Every inode in use but the root is named by exactly one slot, in the directory its parent field gives. */
  lemma NamedExactlyOnce(t: Table, c: nat)
    requires Tree(t) && Used(t, c) && c != 0
    ensures exists s: nat :: Names(t, Parent(t, c), s, c)
                             && forall d: nat, r: nat :: Names(t, d, r, c) ==> d == Parent(t, c) && r == s
  {
    assert Listed(t, c);
    var s: nat :| Names(t, Parent(t, c), s, c);
    forall d: nat, r: nat | Names(t, d, r, c) ensures d == Parent(t, c) && r == s {
      OnlyEntry(t, Parent(t, c), s, d, r);
    }
  }

  // ------------------------------------------------------------------ climbing

  /** `a` is met on the way up from `i`. */
  predicate OnPath(t: Table, i: nat, n: nat, a: nat)
    decreases n
  {
    i == a || (n > 0 && OnPath(t, Parent(t, i), n - 1, a))
  }

  lemma {:induction false} ClimbUnique(t: Table, i: nat, m: nat, n: nat)
    requires Climbs(t, i, m) && Climbs(t, i, n)
    ensures m == n
    decreases m
  {
    if m > 0 && n > 0 {
      ClimbUnique(t, Parent(t, i), m - 1, n - 1);
    }
  }

  /** Whoever is met on the way climbs the rest of it. */
  lemma {:induction false} PathClimbs(t: Table, i: nat, n: nat, a: nat) returns (k: nat)
    requires Climbs(t, i, n) && OnPath(t, i, n, a)
    ensures k <= n && Climbs(t, a, k) && (a != i ==> k < n)
    decreases n
  {
    if i == a {
      k := n;
    } else {
      k := PathClimbs(t, Parent(t, i), n - 1, a);
    }
  }

  /** A node met above `i` is a directory in use. */
  lemma {:induction false} PathIsUsed(t: Table, i: nat, n: nat, a: nat)
    requires Tree(t) && Used(t, i) && Climbs(t, i, n) && OnPath(t, i, n, a)
    ensures Used(t, a) && (a != i ==> IsDir(t, a))
    decreases n
  {
    if i != a {
      ParentIsDir(t, i);
      PathIsUsed(t, Parent(t, i), n - 1, a);
    }
  }

  /** The nodes met on the way up. */
  ghost function Path(t: Table, i: nat, n: nat): set<nat>
    decreases n
  {
    {i} + if n == 0 then {} else Path(t, Parent(t, i), n - 1)
  }

  lemma {:induction false} PathMembers(t: Table, i: nat, n: nat, a: nat)
    ensures a in Path(t, i, n) <==> OnPath(t, i, n, a)
    decreases n
  {
    if n > 0 {
      PathMembers(t, Parent(t, i), n - 1, a);
    }
  }

  lemma {:induction false} PathSize(t: Table, i: nat, n: nat)
    requires Climbs(t, i, n)
    ensures |Path(t, i, n)| == n + 1
    decreases n
  {
    if n > 0 {
      var p := Parent(t, i);
      PathSize(t, p, n - 1);
      PathMembers(t, p, n - 1, i);
      if i in Path(t, p, n - 1) {
        var k := PathClimbs(t, p, n - 1, i);
        ClimbUnique(t, i, k, n);
      }
    }
  }

  ghost function Below(n: nat): (r: set<nat>)
    ensures |r| == n && forall k: nat :: k in r <==> k < n
  {
    if n == 0 then {} else Below(n - 1) + {n - 1}
  }

  lemma SubsetSize(a: set<nat>, b: set<nat>)
    requires a <= b
    ensures |a| <= |b|
  {
    assert b == a + (b - a);
  }

  /** No way to the root is longer than the table, so the climb of 32 steps always gets there. */
  lemma ClimbIsShort(t: Table, i: nat, n: nat)
    requires Tree(t) && Used(t, i) && Climbs(t, i, n)
    ensures n < MAX_INODES
  {
    PathSize(t, i, n);
    forall a | a in Path(t, i, n) ensures a in Below(|t|) {
      PathMembers(t, i, n, a);
      PathIsUsed(t, i, n, a);
    }
    SubsetSize(Path(t, i, n), Below(|t|));
  }

  lemma {:induction false} DescendantIsOnPath(t: Table, i: nat, n: nat, a: nat, steps: nat)
    requires Climbs(t, i, n) && n < steps
    ensures IsDescendant(t, i, a, steps) <==> OnPath(t, i, n, a)
    decreases n
  {
    if n > 0 {
      DescendantIsOnPath(t, Parent(t, i), n - 1, a, steps - 1);
    }
  }

  /** On a tree the bounded climb answers exactly whether the ancestor is on the way to the root. */
  lemma IsDescendantExactly(t: Table, candidate: nat, ancestor: nat)
    requires Tree(t) && Used(t, candidate)
    ensures exists n: nat :: Climbs(t, candidate, n)
                             && (IsDescendant(t, candidate, ancestor, MAX_INODES) <==>
                                 OnPath(t, candidate, n, ancestor))
  {
    assert Rooted(t, candidate);
    var n: nat :| Climbs(t, candidate, n);
    ClimbIsShort(t, candidate, n);
    DescendantIsOnPath(t, candidate, n, ancestor, MAX_INODES);
  }

  /** A climb that does not meet the one node whose parent changed is the same climb. */
  lemma {:induction false} ClimbAvoids(t: Table, u: Table, c: nat, i: nat, n: nat)
    requires Climbs(t, i, n) && !OnPath(t, i, n, c)
    requires forall j: nat :: j != c ==> Parent(u, j) == Parent(t, j)
    ensures Climbs(u, i, n)
    decreases n
  {
    if n > 0 {
      ClimbAvoids(t, u, c, Parent(t, i), n - 1);
    }
  }

  /** A climb that meets it goes on from there. */
  lemma {:induction false} ClimbTurns(t: Table, u: Table, c: nat, i: nat, n: nat, m: nat)
    requires Climbs(t, i, n) && OnPath(t, i, n, c) && Climbs(u, c, m) && c != 0
    requires forall j: nat :: j != c ==> Parent(u, j) == Parent(t, j)
    ensures exists k: nat :: Climbs(u, i, k)
    decreases n
  {
    if i != c {
      ClimbTurns(t, u, c, Parent(t, i), n - 1, m);
      var k: nat :| Climbs(u, Parent(t, i), k);
      assert i != 0;
      assert Climbs(u, i, k + 1);
    }
  }

  // ------------------------------------------------------------------ creating

  /** What creating an inode changes: it is in use, and one free slot names it. */
  ghost predicate Gains(t: Table, u: Table, k: nat, d: nat, s: nat, name: Name) {
    && |u| == |t| && !Used(t, k) && IsDir(t, d) && k != 0
    && (forall i: nat :: Used(u, i) <==> Used(t, i) || i == k)
    && (forall i: nat :: i != k ==> Parent(u, i) == Parent(t, i) && (IsDir(u, i) <==> IsDir(t, i)))
    && Parent(u, k) == d
    && (forall i: nat, r: nat :: Slot(u, i, r) == if i == d && r == s then Entry(k, name) else Slot(t, i, r))
    && (forall i: nat :: Shaped(u, i))
  }

  lemma CreatedGains(t: Table, k: nat, d: nat, s: nat, name: Name, kind: Kind, mode: nat)
    requires Tree(t) && k < |t| && !Used(t, k) && IsDir(t, d) && s < |t[d].children|
    ensures Gains(t, Created(t, k, d, s, name, kind, mode), k, d, s, name)
  {
    var u := Created(t, k, d, s, name, kind, mode);
    forall i: nat ensures Shaped(u, i) {
      assert Shaped(t, i) && Shaped(t, d);
    }
  }

  lemma GainsIsTree(t: Table, u: Table, k: nat, d: nat, s: nat, name: Name)
    requires Tree(t) && Gains(t, u, k, d, s, name) && Slot(t, d, s).Free?
    requires forall r: nat :: Slot(t, d, r).Entry? ==> Slot(t, d, r).name != name
    ensures Tree(u)
  {
    forall i: nat, r: nat ensures EntryOk(u, i, r) { assert EntryOk(t, i, r); }
    forall i: nat, r1: nat, r2: nat ensures Apart(u, i, r1, r2) {
      assert Apart(t, i, r1, r2) && EntryOk(t, i, r1) && EntryOk(t, i, r2);
    }
    forall c: nat ensures Listed(u, c) {
      if Used(u, c) && c != 0 {
        if c == k {
          assert Names(u, d, s, k);
        } else {
          assert Listed(t, c);
          var r: nat :| Names(t, Parent(t, c), r, c);
          assert Names(u, Parent(u, c), r, c);
        }
      }
    }
    forall i: nat ensures Rooted(u, i) {
      if Used(u, i) {
        var from := if i == k then d else i;
        assert Rooted(t, from);
        var n: nat :| Climbs(t, from, n);
        if OnPath(t, from, n, k) {
          PathIsUsed(t, from, n, k);
        }
        ClimbAvoids(t, u, k, from, n);
        if i == k {
          assert Climbs(u, k, n + 1);
        }
      }
    }
  }

  // ------------------------------------------------------------------ removing

  /** What removing a childless inode changes: it is no longer in use, and its slot is free. */
  ghost predicate Loses(t: Table, u: Table, c: nat, d: nat, s: nat) {
    && |u| == |t| && Names(t, d, s, c) && (forall r: nat :: Slot(t, c, r).Free?)
    && (forall i: nat :: Used(u, i) <==> Used(t, i) && i != c)
    && (forall i: nat :: i != c ==> Parent(u, i) == Parent(t, i) && (IsDir(u, i) <==> IsDir(t, i)))
    && (forall i: nat, r: nat :: Slot(u, i, r) == if i == d && r == s then Free else Slot(t, i, r))
    && (forall i: nat :: Shaped(u, i))
  }

  lemma RemovedLoses(t: Table, d: nat, s: nat, c: nat)
    requires Tree(t) && Names(t, d, s, c) && (forall r: nat :: Slot(t, c, r).Free?)
    ensures Used(t, d) && s < |t[d].children| && c < |t|
    ensures Loses(t, Removed(t, d, s, c), c, d, s)
  {
    assert EntryOk(t, d, s);
    var u := Removed(t, d, s, c);
    forall i: nat ensures Shaped(u, i) {
      assert Shaped(t, i) && Shaped(t, d);
    }
  }

  lemma LosesIsTree(t: Table, u: Table, c: nat, d: nat, s: nat)
    requires Tree(t) && Loses(t, u, c, d, s)
    ensures Tree(u)
  {
    assert EntryOk(t, d, s);
    forall i: nat, r: nat ensures EntryOk(u, i, r) {
      assert EntryOk(t, i, r);
      OnlyEntry(t, d, s, i, r);
    }
    forall i: nat, r1: nat, r2: nat ensures Apart(u, i, r1, r2) { assert Apart(t, i, r1, r2); }
    forall j: nat ensures Listed(u, j) {
      if Used(u, j) && j != 0 {
        assert Listed(t, j);
        var r: nat :| Names(t, Parent(t, j), r, j);
        assert Names(u, Parent(u, j), r, j);
      }
    }
    forall i: nat ensures Rooted(u, i) {
      if Used(u, i) {
        assert Rooted(t, i);
        var n: nat :| Climbs(t, i, n);
        if OnPath(t, i, n, c) {
          ChildOnPath(t, i, n, c);
        }
        ClimbAvoids(t, u, c, i, n);
      }
    }
  }

  /** An inode is named by one slot only. */
  lemma OnlyEntry(t: Table, d: nat, s: nat, i: nat, r: nat)
    requires Tree(t) && Slot(t, d, s).Entry?
    ensures Slot(t, i, r).Entry? && Slot(t, i, r).inode == Slot(t, d, s).inode ==> i == d && r == s
  {
    assert EntryOk(t, d, s) && EntryOk(t, i, r) && Apart(t, d, s, r);
  }

  /** A node met above another has a child. */
  lemma {:induction false} ChildOnPath(t: Table, i: nat, n: nat, c: nat)
    requires Tree(t) && Used(t, i) && Climbs(t, i, n) && OnPath(t, i, n, c) && i != c
    ensures exists s: nat :: Slot(t, c, s).Entry?
    decreases n
  {
    ParentIsDir(t, i);
    if Parent(t, i) == c {
      assert Listed(t, i);
      var s: nat :| Names(t, c, s, i);
    } else {
      ChildOnPath(t, Parent(t, i), n - 1, c);
    }
  }

  // ------------------------------------------------------------------ renaming

  /** What renaming changes: the entry of `c` leaves one slot for another, and the parent field follows. */
  ghost predicate Shifts(t: Table, u: Table, c: nat, d: nat, s: nat, d2: nat, s2: nat, name: Name) {
    && |u| == |t| && Names(t, d, s, c) && IsDir(t, d2) && (Slot(t, d2, s2).Free? || (d2 == d && s2 == s))
    && (forall i: nat :: (Used(u, i) <==> Used(t, i)) && (IsDir(u, i) <==> IsDir(t, i)))
    && (forall i: nat :: Parent(u, i) == if i == c then d2 else Parent(t, i))
    && (forall i: nat, r: nat :: Slot(u, i, r)
          == if i == d2 && r == s2 then Entry(c, name) else if i == d && r == s then Free else Slot(t, i, r))
    && (forall i: nat :: Shaped(u, i))
  }

  lemma MovedShifts(t: Table, d: nat, s: nat, c: nat, d2: nat, s2: nat, name: Name)
    requires Tree(t) && Names(t, d, s, c) && IsDir(t, d2) && d != d2 && s2 < |t[d2].children| && Slot(t, d2, s2).Free?
    ensures Used(t, d) && s < |t[d].children| && Used(t, c)
    ensures Shifts(t, Moved(t, d, s, c, d2, s2, name), c, d, s, d2, s2, name)
  {
    assert EntryOk(t, d, s);
    var u := Moved(t, d, s, c, d2, s2, name);
    forall i: nat ensures Shaped(u, i) {
      assert Shaped(t, i) && Shaped(t, d) && Shaped(t, d2) && Shaped(t, c);
    }
  }

  lemma RenamedShifts(t: Table, d: nat, s: nat, c: nat, name: Name)
    requires Tree(t) && Names(t, d, s, c)
    ensures Used(t, d) && s < |t[d].children|
    ensures Shifts(t, SetSlot(t, d, s, Entry(c, name)), c, d, s, d, s, name)
  {
    assert EntryOk(t, d, s);
    var u := SetSlot(t, d, s, Entry(c, name));
    forall i: nat ensures Shaped(u, i) {
      assert Shaped(t, i);
    }
  }

  lemma ShiftsIsTree(t: Table, u: Table, c: nat, d: nat, s: nat, d2: nat, s2: nat, name: Name, n: nat)
    requires Tree(t) && Shifts(t, u, c, d, s, d2, s2, name)
    requires forall r: nat :: Slot(t, d2, r).Entry? ==> Slot(t, d2, r).name != name
    requires Climbs(t, d2, n) && !OnPath(t, d2, n, c)
    ensures Tree(u)
  {
    assert EntryOk(t, d, s);
    forall i: nat, r: nat ensures EntryOk(u, i, r) {
      assert EntryOk(t, i, r);
      OnlyEntry(t, d, s, i, r);
    }
    forall i: nat, r1: nat, r2: nat ensures Apart(u, i, r1, r2) {
      assert Apart(t, i, r1, r2);
      OnlyEntry(t, d, s, i, r1);
      OnlyEntry(t, d, s, i, r2);
    }
    forall j: nat ensures Listed(u, j) {
      if Used(u, j) && j != 0 {
        if j == c {
          assert Names(u, d2, s2, c);
        } else {
          assert Listed(t, j);
          var r: nat :| Names(t, Parent(t, j), r, j);
          assert Names(u, Parent(u, j), r, j);
        }
      }
    }
    ClimbAvoids(t, u, c, d2, n);
    assert Climbs(u, c, n + 1);
    forall i: nat ensures Rooted(u, i) {
      if Used(u, i) {
        assert Rooted(t, i);
        var k: nat :| Climbs(t, i, k);
        if OnPath(t, i, k, c) {
          ClimbTurns(t, u, c, i, k, n + 1);
        } else {
          ClimbAvoids(t, u, c, i, k);
        }
      }
    }
  }

  /** The check before a rename keeps the entry off the way from its new directory to the root. */
  lemma RenameIsClear(t: Table, d: nat, s: nat, c: nat, d2: nat) returns (n: nat)
    requires Tree(t) && Names(t, d, s, c) && IsDir(t, d2)
    requires !(IsDir(t, c) && IsDescendant(t, d2, c, MAX_INODES))
    ensures Climbs(t, d2, n) && !OnPath(t, d2, n, c)
  {
    IsDescendantExactly(t, d2, c);
    n :| Climbs(t, d2, n) && (IsDescendant(t, d2, c, MAX_INODES) <==> OnPath(t, d2, n, c));
    if OnPath(t, d2, n, c) {
      PathIsUsed(t, d2, n, c);
    }
  }

  // ------------------------------------------------------------------ walks

  /** Entries for inodes other than `c` are where they were. */
  ghost predicate Keeps(t: Table, u: Table, c: nat) {
    && (forall i: nat, r: nat :: Slot(t, i, r).Entry? && Slot(t, i, r).inode != c ==> Slot(u, i, r) == Slot(t, i, r))
    && (forall i: nat :: i != c && IsDir(t, i) ==> IsDir(u, i))
  }

  /** A walk passes through the nodes on the way up from where it ends. */
  lemma {:induction false} WalkIsPath(t: Table, at: nat, names: seq<Name>, x: nat, n: nat)
    requires Tree(t) && Used(t, at) && Walk(t, at, names) == Ok(x) && Climbs(t, x, n)
    ensures OnPath(t, x, n, at) && Used(t, x)
    decreases |names|
  {
    if names != [] {
      var s := SlotNamed(t, at, names[0]).value;
      var c := Slot(t, at, s).inode;
      assert EntryOk(t, at, s);
      WalkIsPath(t, c, names[1..], x, n);
      PathGoesOn(t, x, n, c);
    }
  }

  lemma {:induction false} PathGoesOn(t: Table, i: nat, n: nat, a: nat)
    requires Climbs(t, i, n) && OnPath(t, i, n, a) && a != 0
    ensures OnPath(t, i, n, Parent(t, a))
    decreases n
  {
    if i != a {
      PathGoesOn(t, Parent(t, i), n - 1, a);
    } else {
      assert n > 0;
    }
  }

  /** A walk that does not pass `c` ends where it did. */
  lemma {:induction false} WalkSame(t: Table, u: Table, c: nat, at: nat, names: seq<Name>, x: nat, n: nat)
    requires Tree(t) && Tree(u) && Keeps(t, u, c) && Used(t, at)
    requires Walk(t, at, names) == Ok(x) && Climbs(t, x, n) && !OnPath(t, x, n, c)
    ensures Walk(u, at, names) == Ok(x)
    decreases |names|
  {
    if names != [] {
      var s := SlotNamed(t, at, names[0]).value;
      var next := Slot(t, at, s).inode;
      assert EntryOk(t, at, s);
      WalkIsPath(t, at, names, x, n);
      WalkIsPath(t, next, names[1..], x, n);
      assert Slot(u, at, s) == Slot(t, at, s);
      SlotIs(u, at, s);
      WalkSame(t, u, c, next, names[1..], x, n);
    }
  }

  /** In a tree, looking a name up finds the slot that holds it. */
  lemma SlotIs(t: Table, d: nat, s: nat)
    requires Tree(t) && Slot(t, d, s).Entry?
    ensures SlotNamed(t, d, Slot(t, d, s).name) == Some(s)
  {
    var found := SlotNamed(t, d, Slot(t, d, s).name);
    assert found.Some?;
    assert Apart(t, d, s, found.value);
  }

  /** A walk to a name goes through its directory. */
  lemma {:induction false} WalkLast(t: Table, at: nat, names: seq<Name>)
    requires names != []
    ensures var last := |names| - 1;
            Walk(t, at, names) == match Walk(t, at, names[..last])
                                  case Err(e) => Err(e)
                                  case Ok(d) => Walk(t, d, [names[last]])
    decreases |names|
  {
    var last := |names| - 1;
    if last == 0 {
      assert names == [names[0]] && names[..last] == [];
    } else {
      assert names[..last][0] == names[0] && names[..last][1..] == names[1..][..last - 1];
      if IsDir(t, at) && SlotNamed(t, at, names[0]).Some? {
        WalkLast(t, Slot(t, at, SlotNamed(t, at, names[0]).value).inode, names[1..]);
      }
    }
  }

  /** What a path leads to is what its place's directory lists under its name. */
  lemma LookupAtPlace(t: Table, path: seq<byte>)
    requires PlaceOf(t, path).Ok?
    ensures var at := PlaceOf(t, path).value;
            Lookup(t, path) == match SlotNamed(t, at.parent, at.name)
                               case None => Err(NotFound)
                               case Some(s) => Ok(Slot(t, at.parent, s).inode)
  {
    var names := Parse(path).value;
    WalkLast(t, 0, names);
    var at := PlaceOf(t, path).value;
    var one := [at.name];
    assert one[1..] == [];
  }

  /** A place whose directory is not below `c` is still that place. */
  lemma PlaceSame(t: Table, u: Table, c: nat, path: seq<byte>, n: nat)
    requires Tree(t) && Tree(u) && Keeps(t, u, c) && PlaceOf(t, path).Ok?
    requires Climbs(t, PlaceOf(t, path).value.parent, n) && !OnPath(t, PlaceOf(t, path).value.parent, n, c)
    ensures PlaceOf(u, path) == PlaceOf(t, path)
  {
    var names, at := Parse(path).value, PlaceOf(t, path).value;
    WalkSame(t, u, c, 0, names[..|names| - 1], at.parent, n);
  }
}
