/** What every run keeps of the process table. */
module ProcessInvariant {
  import opened Common
  import opened ProcessTable

  // ------------------------------------------------------------------ the invariant

  /** A record carries the id of its slot and generation; only the dead have a status, and no descriptors. */
  predicate ProcessOk(t: Table, s: nat) {
    ProcessIn(t, s).Some? ==>
      var p := ProcessIn(t, s).value;
      && s < |t.processGenerations| && s < MAX_PROCESSES && p.id == Pack(s, t.processGenerations[s])
      && |p.threads| == MAX_PROCESS_THREADS && |p.fds| == MAX_FDS
      && (p.state == Running || p.state == Zombie)
      && (p.state == Running ==> p.exitStatus.None?)
      && (p.state == Zombie ==> p.exitStatus.Some? && forall k :: 0 <= k < MAX_FDS ==> p.fds[k].None?)
  }

  /** A process lists threads that name it. */
  predicate MemberOk(t: Table, s: nat, j: nat) {
    ProcessIn(t, s).Some? && j < |ProcessIn(t, s).value.threads| && ProcessIn(t, s).value.threads[j].Some? ==>
      var k := FindThread(t, ProcessIn(t, s).value.threads[j].value);
      k.Some? && ThreadIn(t, k.value).value.process == Some(ProcessIn(t, s).value.id)
  }

  predicate MembersApart(t: Table, s: nat, i: nat, j: nat) {
    ProcessIn(t, s).Some? && i < j < |ProcessIn(t, s).value.threads| && ProcessIn(t, s).value.threads[i].Some? ==>
      ProcessIn(t, s).value.threads[i] != ProcessIn(t, s).value.threads[j]
  }

  predicate Lists(t: Table, s: nat, j: nat, tid: nat) {
    ProcessIn(t, s).Some? && j < |ProcessIn(t, s).value.threads| && ProcessIn(t, s).value.threads[j] == Some(tid)
  }

  /** A thread carries the id of its slot and generation, and its process lists it. */
  ghost predicate ThreadOk(t: Table, k: nat) {
    ThreadIn(t, k).Some? ==>
      var th := ThreadIn(t, k).value;
      && k < |t.threadGenerations| && k < MAX_THREADS && th.id == Pack(k, t.threadGenerations[k])
      && (th.process.Some? ==>
            var s := FindProcess(t, th.process.value);
            && s.Some? && (exists j: nat :: Lists(t, s.value, j, th.id))
            && (ProcessIn(t, s.value).value.state == Zombie ==> th.state == Exited))
  }

  /** Init stands in slot 0; every other process has a live running parent. */
  predicate ParentOk(t: Table, s: nat) {
    ProcessIn(t, s).Some? ==>
      var p := ProcessIn(t, s).value;
      && ProcessIn(t, 0).Some?
      && (s == 0 ==> p.id == INIT && p.parent.None? && p.state == Running)
      && (s != 0 ==>
            && p.parent.Some? && FindProcess(t, p.parent.value).Some?
            && ProcessIn(t, FindProcess(t, p.parent.value).value).value.state == Running)
  }

  function ParentSlot(t: Table, s: nat): nat {
    if ProcessIn(t, s).Some? && ProcessIn(t, s).value.parent.Some? then
      var r := FindProcess(t, ProcessIn(t, s).value.parent.value);
      if r.Some? then r.value else 0
    else 0
  }

  /** Following parents from the slot first meets init after exactly `n` steps. */
  predicate Climbs(t: Table, s: nat, n: nat)
    decreases n
  {
    if n == 0 then s == 0 else s != 0 && Climbs(t, ParentSlot(t, s), n - 1)
  }

  ghost predicate Rooted(t: Table, s: nat) { ProcessIn(t, s).Some? ==> exists n: nat :: Climbs(t, s, n) }

  ghost predicate Good(t: Table) {
    && Sized(t) && t.processGenerations[0] == 0
    && (forall s: nat :: ProcessOk(t, s))
    && (forall s: nat, j: nat :: MemberOk(t, s, j))
    && (forall s: nat, i: nat, j: nat :: MembersApart(t, s, i, j))
    && (forall k: nat :: ThreadOk(t, k))
    && (forall s: nat :: ParentOk(t, s))
    && (forall s: nat :: Rooted(t, s))
  }

  lemma NewIsGood()
    ensures Good(NewTable())
  {
  }

  // ------------------------------------------------------------------ ids

  lemma ProcessIsFound(t: Table, s: nat)
    requires ProcessOk(t, s) && ProcessIn(t, s).Some?
    ensures FindProcess(t, ProcessIn(t, s).value.id) == Some(s)
  {
  }

  lemma ThreadIsFound(t: Table, k: nat)
    requires ThreadOk(t, k) && ThreadIn(t, k).Some?
    ensures FindThread(t, ThreadIn(t, k).value.id) == Some(k)
  {
  }

  // ------------------------------------------------------------------ creating

  /** A process and its thread came into free slots. */
  ghost predicate Adds(t: Table, u: Table, s: nat, k: nat, p: Process, th: Thread) {
    && Sized(t) && Sized(u) && s < MAX_PROCESSES && k < MAX_THREADS
    && t.processes[s].None? && t.threads[k].None?
    && u.processGenerations == t.processGenerations && u.threadGenerations == t.threadGenerations
    && (forall i: nat :: ProcessIn(u, i) == if i == s then Some(p) else ProcessIn(t, i))
    && (forall i: nat :: ThreadIn(u, i) == if i == k then Some(th) else ThreadIn(t, i))
    && p.id == Pack(s, t.processGenerations[s]) && th.id == Pack(k, t.threadGenerations[k])
    && p.state == Running && p.exitStatus.None? && |p.fds| == MAX_FDS && |p.threads| == MAX_PROCESS_THREADS
    && (forall j: nat :: j < MAX_PROCESS_THREADS ==> p.threads[j] == if j == 0 then Some(th.id) else None)
    && th.process == Some(p.id) && th.state != Exited
  }

  lemma WithProcessAdds(t: Table, s: nat, k: nat, parent: Option<nat>)
    requires Sized(t) && s < MAX_PROCESSES && k < MAX_THREADS && t.processes[s].None? && t.threads[k].None?
    ensures var u := WithProcess(t, s, k, parent);
            && Adds(t, u, s, k, u.processes[s].value, u.threads[k].value)
            && u.processes[s].value.parent == parent
  {
  }

  lemma AddsFinds(t: Table, u: Table, s: nat, k: nat, p: Process, th: Thread, id: nat)
    requires Good(t) && Adds(t, u, s, k, p, th)
    ensures FindProcess(u, id) == if id == p.id then Some(s) else FindProcess(t, id)
    ensures FindThread(u, id) == if id == th.id then Some(k) else FindThread(t, id)
    ensures FindProcess(t, p.id).None? && FindThread(t, th.id).None?
  {
    if Low(id) == s + 1 && High(id) == t.processGenerations[s] {
      SameId(id, p.id);
    }
    if Low(id) == k + 1 && High(id) == t.threadGenerations[k] {
      SameId(id, th.id);
    }
  }

  /** The new process may stand there: init in slot 0, anyone else below a live running parent. */
  ghost predicate Fathered(t: Table, s: nat, p: Process) {
    && (s == 0 ==> p.parent.None?)
    && (s != 0 ==>
          && p.parent.Some? && FindProcess(t, p.parent.value).Some?
          && ProcessIn(t, FindProcess(t, p.parent.value).value).value.state == Running)
  }

  ghost predicate FindsMore(t: Table, u: Table, s: nat, k: nat, p: Process, th: Thread) {
    && (forall id: nat :: FindProcess(u, id) == if id == p.id then Some(s) else FindProcess(t, id))
    && (forall id: nat :: FindThread(u, id) == if id == th.id then Some(k) else FindThread(t, id))
    && FindProcess(t, p.id).None? && FindThread(t, th.id).None?
  }

  lemma AddsKeeps(t: Table, u: Table, s: nat, k: nat, p: Process, th: Thread)
    requires Good(t) && Adds(t, u, s, k, p, th) && Fathered(t, s, p)
    ensures Good(u)
  {
    forall id: nat
      ensures FindProcess(u, id) == if id == p.id then Some(s) else FindProcess(t, id)
      ensures FindThread(u, id) == if id == th.id then Some(k) else FindThread(t, id)
      ensures FindProcess(t, p.id).None? && FindThread(t, th.id).None?
    {
      AddsFinds(t, u, s, k, p, th, id);
    }
    assert FindsMore(t, u, s, k, p, th);
    AddsRecords(t, u, s, k, p, th);
    AddsThreads(t, u, s, k, p, th);
    AddsParents(t, u, s, k, p, th);
  }

  lemma AddsRecords(t: Table, u: Table, s: nat, k: nat, p: Process, th: Thread)
    requires Good(t) && Adds(t, u, s, k, p, th) && FindsMore(t, u, s, k, p, th)
    ensures forall i: nat :: ProcessOk(u, i)
    ensures forall i: nat, j: nat :: MemberOk(u, i, j)
    ensures forall i: nat, a: nat, b: nat :: MembersApart(u, i, a, b)
  {
    forall i: nat ensures ProcessOk(u, i) { assert ProcessOk(t, i); }
    forall i: nat, j: nat ensures MemberOk(u, i, j) { assert MemberOk(t, i, j); }
    forall i: nat, a: nat, b: nat ensures MembersApart(u, i, a, b) { assert MembersApart(t, i, a, b); }
  }

  lemma AddsThreads(t: Table, u: Table, s: nat, k: nat, p: Process, th: Thread)
    requires Good(t) && Adds(t, u, s, k, p, th) && FindsMore(t, u, s, k, p, th)
    ensures forall i: nat :: ThreadOk(u, i)
  {
    forall i: nat ensures ThreadOk(u, i) {
      assert ThreadOk(t, i);
      if i == k {
        assert Lists(u, s, 0, th.id);
      } else if ThreadIn(t, i).Some? && ThreadIn(t, i).value.process.Some? {
        var r := FindProcess(t, ThreadIn(t, i).value.process.value).value;
        var j: nat :| Lists(t, r, j, ThreadIn(t, i).value.id);
        assert Lists(u, r, j, ThreadIn(t, i).value.id);
      }
    }
  }

  lemma AddsParents(t: Table, u: Table, s: nat, k: nat, p: Process, th: Thread)
    requires Good(t) && Adds(t, u, s, k, p, th) && FindsMore(t, u, s, k, p, th) && Fathered(t, s, p)
    ensures forall i: nat :: ParentOk(u, i)
    ensures forall i: nat :: Rooted(u, i)
  {
    if s != 0 {
      assert ParentOk(t, FindProcess(t, p.parent.value).value);
    }
    forall i: nat ensures ParentOk(u, i) { assert ParentOk(t, i); }
    forall i: nat | i != s ensures ParentSlot(u, i) == ParentSlot(t, i) { assert ParentOk(t, i); }
    forall i: nat ensures Rooted(u, i) {
      if ProcessIn(u, i).Some? {
        if i == 0 {
          assert Climbs(u, 0, 0);
        } else if i == s {
          var n := Climb(t, u, s, FindProcess(t, p.parent.value).value);
          assert Climbs(u, s, n + 1);
        } else {
          var n := Climb(t, u, s, i);
        }
      }
    }
  }

  /** A live slot climbs as before when an unused slot changes. */
  lemma Climb(t: Table, u: Table, s: nat, i: nat) returns (n: nat)
    requires Good(t) && ProcessIn(t, i).Some? && ProcessIn(t, s).None?
    requires forall j: nat :: j != s ==> ParentSlot(u, j) == ParentSlot(t, j)
    ensures Climbs(u, i, n)
  {
    assert Rooted(t, i);
    n :| Climbs(t, i, n);
    ClimbSame(t, u, s, i, n);
  }

  lemma {:induction false} ClimbSame(t: Table, u: Table, s: nat, i: nat, n: nat)
    requires Good(t) && ProcessIn(t, i).Some? && ProcessIn(t, s).None? && Climbs(t, i, n)
    requires forall j: nat :: j != s ==> ParentSlot(u, j) == ParentSlot(t, j)
    ensures Climbs(u, i, n)
    decreases n
  {
    if n > 0 {
      assert ParentOk(t, i);
      ClimbSame(t, u, s, ParentSlot(t, i), n - 1);
    }
  }

  // ------------------------------------------------------------------ exiting

  /** A process died: its threads exited and its children went to init. */
  ghost predicate Exits(t: Table, u: Table, s: nat, id: nat, status: int) {
    && Sized(u) && FindProcess(t, id) == Some(s) && id != INIT
    && u.processGenerations == t.processGenerations && u.threadGenerations == t.threadGenerations
    && (forall i: nat :: ProcessIn(u, i)
          == ProcessAfterExit(if i == s then Some(Buried(ProcessIn(t, s).value, status)) else ProcessIn(t, i), id))
    && (forall k: nat :: ThreadIn(u, k) == ThreadAfterExit(ThreadIn(t, k), id))
  }

  lemma ExitExits(t: Table, id: nat, status: int)
    requires Good(t) && Exit(t, id, status).result.Ok?
    ensures Exits(t, Exit(t, id, status).table, FindProcess(t, id).value, id, status)
  {
  }

  lemma ExitsFinds(t: Table, u: Table, s: nat, id: nat, status: int)
    requires Exits(t, u, s, id, status)
    ensures forall q: nat :: FindProcess(u, q) == FindProcess(t, q)
    ensures forall q: nat :: FindThread(u, q) == FindThread(t, q)
  {
  }

  lemma ExitsKeeps(t: Table, u: Table, s: nat, id: nat, status: int)
    requires Good(t) && Exits(t, u, s, id, status)
    ensures Good(u)
  {
    ExitsFinds(t, u, s, id, status);
    ExitsRecords(t, u, s, id, status);
    ExitsThreads(t, u, s, id, status);
    ExitsParents(t, u, s, id, status);
  }

  lemma ExitsRecords(t: Table, u: Table, s: nat, id: nat, status: int)
    requires Good(t) && Exits(t, u, s, id, status)
    ensures forall i: nat :: ProcessOk(u, i)
    ensures forall i: nat, j: nat :: MemberOk(u, i, j)
    ensures forall i: nat, a: nat, b: nat :: MembersApart(u, i, a, b)
  {
    ExitsFinds(t, u, s, id, status);
    forall i: nat ensures ProcessOk(u, i) { assert ProcessOk(t, i); }
    forall i: nat, j: nat ensures MemberOk(u, i, j) { assert MemberOk(t, i, j); }
    forall i: nat, a: nat, b: nat ensures MembersApart(u, i, a, b) { assert MembersApart(t, i, a, b); }
  }

  lemma ExitsThreads(t: Table, u: Table, s: nat, id: nat, status: int)
    requires Good(t) && Exits(t, u, s, id, status)
    ensures forall k: nat :: ThreadOk(u, k)
  {
    ExitsFinds(t, u, s, id, status);
    forall k: nat ensures ThreadOk(u, k) {
      assert ThreadOk(t, k);
      if ThreadIn(t, k).Some? && ThreadIn(t, k).value.process.Some? {
        var r := FindProcess(t, ThreadIn(t, k).value.process.value).value;
        var j: nat :| Lists(t, r, j, ThreadIn(t, k).value.id);
        assert Lists(u, r, j, ThreadIn(t, k).value.id);
      }
    }
  }

  lemma ExitsParents(t: Table, u: Table, s: nat, id: nat, status: int)
    requires Good(t) && Exits(t, u, s, id, status)
    ensures forall i: nat :: ParentOk(u, i)
    ensures forall i: nat :: Rooted(u, i)
  {
    ExitsFinds(t, u, s, id, status);
    assert ParentOk(t, s) && ParentOk(t, 0) && ProcessOk(t, 0);
    ProcessIsFound(t, 0);
    forall i: nat ensures ParentOk(u, i) { assert ParentOk(t, i); }
    forall i: nat ensures Rooted(u, i) {
      if ProcessIn(u, i).Some? {
        assert Rooted(t, i);
        var n: nat :| Climbs(t, i, n);
        ExitsClimbs(t, u, s, id, status, i, n);
      }
    }
  }

  lemma {:induction false} ExitsClimbs(t: Table, u: Table, s: nat, id: nat, status: int, i: nat, n: nat)
    requires Good(t) && Exits(t, u, s, id, status) && ProcessIn(t, i).Some? && Climbs(t, i, n)
    requires ProcessIn(t, 0).Some? && FindProcess(u, INIT) == Some(0)
    requires forall q: nat :: FindProcess(u, q) == FindProcess(t, q)
    ensures exists m: nat :: Climbs(u, i, m)
    decreases n
  {
    assert ParentOk(t, i);
    if n == 0 {
      assert Climbs(u, i, 0);
    } else if ProcessIn(t, i).value.parent == Some(id) {
      assert Climbs(u, 0, 0);
      assert Climbs(u, i, 1);
    } else {
      ExitsClimbs(t, u, s, id, status, ParentSlot(t, i), n - 1);
      var m: nat :| Climbs(u, ParentSlot(t, i), m);
      assert Climbs(u, i, m + 1);
    }
  }

  // ------------------------------------------------------------------ reaping

  predicate Among(th: Option<Thread>, ids: seq<Option<nat>>) { th.Some? && Some(th.value.id) in ids }

  /** The threads among the first `j` ids are gone, and their slots a generation older. */
  ghost predicate Partly(t: Table, u: Table, ids: seq<Option<nat>>, j: nat)
    requires j <= |ids|
  {
    && Sized(u) && u.processes == t.processes && u.processGenerations == t.processGenerations
    && (forall k: nat :: ThreadIn(u, k) == if Among(ThreadIn(t, k), ids[..j]) then None else ThreadIn(t, k))
    && (forall k: nat :: GenerationAt(u.threadGenerations, k)
          == GenerationAt(t.threadGenerations, k) + if Among(ThreadIn(t, k), ids[..j]) then 1 else 0)
  }

  lemma {:induction false} FreeThreadsFrees(t: Table, s: nat, u: Table, j: nat)
    requires Good(t) && ProcessIn(t, s).Some? && j <= MAX_PROCESS_THREADS
    requires |ProcessIn(t, s).value.threads| == MAX_PROCESS_THREADS && Partly(t, u, ProcessIn(t, s).value.threads, j)
    ensures var ids := ProcessIn(t, s).value.threads;
            var r := FreeThreads(u, ids, j);
            && (r.result.Ok? || r.result == Err(GenerationExhausted))
            && (r.result.Ok? ==> Partly(t, r.table, ids, |ids|))
    decreases MAX_PROCESS_THREADS - j
  {
    var ids := ProcessIn(t, s).value.threads;
    if j < |ids| {
      assert ids[..j + 1] == ids[..j] + [ids[j]];
      if ids[j].None? {
        assert Partly(t, u, ids, j + 1);
        FreeThreadsFrees(t, s, u, j + 1);
      } else {
        var k := FreedNext(t, s, u, j);
        if t.threadGenerations[k] + 1 < U16_LIMIT {
          var next := SetThread(u, k, None).(threadGenerations := u.threadGenerations[k := u.threadGenerations[k] + 1]);
          FreedStep(t, s, u, j, k, next);
          FreeThreadsFrees(t, s, next, j + 1);
        }
      }
    }
  }

  /** The next listed thread is still in its slot. */
  lemma FreedNext(t: Table, s: nat, u: Table, j: nat) returns (k: nat)
    requires Good(t) && ProcessIn(t, s).Some? && j < MAX_PROCESS_THREADS
    requires |ProcessIn(t, s).value.threads| == MAX_PROCESS_THREADS && Partly(t, u, ProcessIn(t, s).value.threads, j)
    requires ProcessIn(t, s).value.threads[j].Some?
    ensures var id := ProcessIn(t, s).value.threads[j].value;
            && k < MAX_THREADS && Low(id) == k + 1 && ThreadIn(t, k).Some? && ThreadIn(t, k).value.id == id
            && ThreadIn(u, k) == ThreadIn(t, k) && !Among(ThreadIn(t, k), ProcessIn(t, s).value.threads[..j])
  {
    var ids := ProcessIn(t, s).value.threads;
    assert MemberOk(t, s, j);
    k := FindThread(t, ids[j].value).value;
    forall i: nat | i < j ensures ids[i] != ids[j] { assert MembersApart(t, s, i, j); }
  }

  lemma FreedStep(t: Table, s: nat, u: Table, j: nat, k: nat, next: Table)
    requires Good(t) && ProcessIn(t, s).Some? && j < MAX_PROCESS_THREADS && Sized(u) && k < MAX_THREADS
    requires |ProcessIn(t, s).value.threads| == MAX_PROCESS_THREADS && Partly(t, u, ProcessIn(t, s).value.threads, j)
    requires ThreadIn(t, k).Some? && ProcessIn(t, s).value.threads[j] == Some(ThreadIn(t, k).value.id)
    requires !Among(ThreadIn(t, k), ProcessIn(t, s).value.threads[..j])
    requires next == SetThread(u, k, None).(threadGenerations := u.threadGenerations[k := u.threadGenerations[k] + 1])
    ensures Partly(t, next, ProcessIn(t, s).value.threads, j + 1)
  {
    var ids := ProcessIn(t, s).value.threads;
    assert ids[..j + 1] == ids[..j] + [ids[j]];
    forall i: nat ensures Among(ThreadIn(t, i), ids[..j + 1]) <==> Among(ThreadIn(t, i), ids[..j]) || i == k {
      assert ThreadOk(t, i) && ThreadOk(t, k);
    }
  }

  /** A dead process is gone with its threads, and its slots are a generation older. */
  ghost predicate Drops(t: Table, u: Table, s: nat) {
    && Sized(u) && ProcessIn(t, s).Some? && ProcessIn(t, s).value.state == Zombie
    && (forall i: nat :: ProcessIn(u, i) == if i == s then None else ProcessIn(t, i))
    && (forall i: nat :: GenerationAt(u.processGenerations, i)
          == GenerationAt(t.processGenerations, i) + if i == s then 1 else 0)
    && (forall k: nat :: ThreadIn(u, k) == if Owned(t, s, k) then None else ThreadIn(t, k))
    && (forall k: nat :: GenerationAt(u.threadGenerations, k)
          == GenerationAt(t.threadGenerations, k) + if Owned(t, s, k) then 1 else 0)
  }

  predicate Owned(t: Table, s: nat, k: nat)
    requires ProcessIn(t, s).Some?
  {
    ThreadIn(t, k).Some? && ThreadIn(t, k).value.process == Some(ProcessIn(t, s).value.id)
  }

  /** The threads a process lists are those that name it. */
  lemma ListedIsOwned(t: Table, s: nat, k: nat)
    requires Good(t) && ProcessIn(t, s).Some?
    ensures Among(ThreadIn(t, k), ProcessIn(t, s).value.threads) <==> Owned(t, s, k)
  {
    var ids := ProcessIn(t, s).value.threads;
    assert ProcessOk(t, s) && ThreadOk(t, k);
    if ThreadIn(t, k).Some? {
      ThreadIsFound(t, k);
      if Owned(t, s, k) {
        ProcessIsFound(t, s);
        var j: nat :| Lists(t, s, j, ThreadIn(t, k).value.id);
        assert ids[j] == Some(ThreadIn(t, k).value.id);
      }
      forall j: nat | j < |ids| && ids[j] == Some(ThreadIn(t, k).value.id) ensures Owned(t, s, k) {
        assert MemberOk(t, s, j);
      }
    }
  }

  lemma ReapDrops(t: Table, s: nat)
    requires Good(t) && s < MAX_PROCESSES && t.processes[s].Some? && t.processes[s].value.state == Zombie
    ensures var r := Reap(t, s);
            (r.result.Ok? || r.result == Err(GenerationExhausted)) && (r.result.Ok? ==> Drops(t, r.table, s))
  {
    var ids := ProcessIn(t, s).value.threads;
    assert ProcessOk(t, s);
    assert ids[..0] == [] && ids[..|ids|] == ids;
    assert Partly(t, t, ids, 0);
    FreeThreadsFrees(t, s, t, 0);
    if Reap(t, s).result.Ok? {
      forall k: nat ensures Among(ThreadIn(t, k), ids) <==> Owned(t, s, k) { ListedIsOwned(t, s, k); }
    }
  }

  lemma DropsFinds(t: Table, u: Table, s: nat, id: nat)
    requires Good(t) && Drops(t, u, s)
    ensures FindProcess(u, id) == if id == ProcessIn(t, s).value.id then None else FindProcess(t, id)
    ensures FindThread(u, id)
            == if FindThread(t, id).Some? && Owned(t, s, FindThread(t, id).value) then None else FindThread(t, id)
  {
    assert ProcessOk(t, s);
    if 1 <= Low(id) <= MAX_PROCESSES {
      assert ProcessOk(t, Low(id) - 1);
    }
    if 1 <= Low(id) <= MAX_THREADS {
      assert ThreadOk(t, Low(id) - 1);
    }
  }

  lemma DropsKeeps(t: Table, u: Table, s: nat)
    requires Good(t) && Drops(t, u, s)
    ensures Good(u)
  {
    forall id: nat
      ensures FindProcess(u, id) == if id == ProcessIn(t, s).value.id then None else FindProcess(t, id)
      ensures FindThread(u, id)
              == if FindThread(t, id).Some? && Owned(t, s, FindThread(t, id).value) then None else FindThread(t, id)
    {
      DropsFinds(t, u, s, id);
    }
    DropsRecords(t, u, s);
    DropsThreads(t, u, s);
    DropsParents(t, u, s);
  }

  lemma DropsRecords(t: Table, u: Table, s: nat)
    requires Good(t) && Drops(t, u, s)
    ensures u.processGenerations[0] == 0
    ensures forall i: nat :: ProcessOk(u, i)
    ensures forall i: nat, j: nat :: MemberOk(u, i, j)
    ensures forall i: nat, a: nat, b: nat :: MembersApart(u, i, a, b)
  {
    assert ParentOk(t, s) && GenerationAt(u.processGenerations, 0) == 0;
    forall i: nat ensures ProcessOk(u, i) {
      assert ProcessOk(t, i);
      assert i != s ==> GenerationAt(u.processGenerations, i) == GenerationAt(t.processGenerations, i);
    }
    forall i: nat, j: nat ensures MemberOk(u, i, j) {
      assert MemberOk(t, i, j) && ProcessOk(t, i) && ProcessOk(t, s);
      if ProcessIn(u, i).Some? && j < |ProcessIn(u, i).value.threads| && ProcessIn(u, i).value.threads[j].Some? {
        DropsFinds(t, u, s, ProcessIn(u, i).value.threads[j].value);
      }
    }
    forall i: nat, a: nat, b: nat ensures MembersApart(u, i, a, b) { assert MembersApart(t, i, a, b); }
  }

  lemma DropsThreads(t: Table, u: Table, s: nat)
    requires Good(t) && Drops(t, u, s)
    ensures forall k: nat :: ThreadOk(u, k)
  {
    forall k: nat ensures ThreadOk(u, k) {
      assert ThreadOk(t, k);
      assert !Owned(t, s, k) ==> GenerationAt(u.threadGenerations, k) == GenerationAt(t.threadGenerations, k);
      if ThreadIn(u, k).Some? && ThreadIn(t, k).value.process.Some? {
        DropsFinds(t, u, s, ThreadIn(t, k).value.process.value);
        var r := FindProcess(t, ThreadIn(t, k).value.process.value).value;
        var j: nat :| Lists(t, r, j, ThreadIn(t, k).value.id);
        assert Lists(u, r, j, ThreadIn(t, k).value.id);
      }
    }
  }

  lemma DropsParents(t: Table, u: Table, s: nat)
    requires Good(t) && Drops(t, u, s)
    ensures forall i: nat :: ParentOk(u, i)
    ensures forall i: nat :: Rooted(u, i)
  {
    assert ParentOk(t, s) && ProcessOk(t, s);
    forall i: nat ensures ParentOk(u, i) && (i != s ==> ParentSlot(u, i) == ParentSlot(t, i)) {
      assert ParentOk(t, i);
      if ProcessIn(t, i).Some? && ProcessIn(t, i).value.parent.Some? {
        DropsFinds(t, u, s, ProcessIn(t, i).value.parent.value);
        ProcessIsFound(t, s);
      }
    }
    forall i: nat ensures Rooted(u, i) {
      if ProcessIn(u, i).Some? {
        assert Rooted(t, i);
        var n: nat :| Climbs(t, i, n);
        DropsClimbs(t, u, s, i, n);
      }
    }
  }

  lemma {:induction false} DropsClimbs(t: Table, u: Table, s: nat, i: nat, n: nat)
    requires Good(t) && Drops(t, u, s) && ProcessIn(t, i).Some? && i != s && Climbs(t, i, n)
    requires forall j: nat :: j != s ==> ParentSlot(u, j) == ParentSlot(t, j)
    ensures Climbs(u, i, n)
    decreases n
  {
    if n > 0 {
      assert ParentOk(t, i);
      DropsClimbs(t, u, s, ParentSlot(t, i), n - 1);
    }
  }

  // ------------------------------------------------------------------ descriptors and thread states

  /** The same record but for its descriptors, and the dead get none. */
  predicate SameButFds(p: Option<Process>, q: Option<Process>) {
    match p
    case None => q.None?
    case Some(p) =>
      && q.Some? && q.value == p.(fds := q.value.fds) && |q.value.fds| == |p.fds|
      && (p.state == Zombie ==> forall k :: 0 <= k < |p.fds| ==> p.fds[k].None? ==> q.value.fds[k].None?)
  }

  /** The same thread but for its state, and the exited stay exited. */
  predicate SameButState(a: Option<Thread>, b: Option<Thread>) {
    match a
    case None => b.None?
    case Some(a) => b.Some? && b.value == a.(state := b.value.state) && (a.state == Exited ==> b.value.state == Exited)
  }

  ghost predicate Mild(t: Table, u: Table) {
    && Sized(u) && u.processGenerations == t.processGenerations && u.threadGenerations == t.threadGenerations
    && (forall i: nat :: SameButFds(ProcessIn(t, i), ProcessIn(u, i)))
    && (forall k: nat :: SameButState(ThreadIn(t, k), ThreadIn(u, k)))
  }

  lemma MildFinds(t: Table, u: Table, id: nat)
    requires Mild(t, u)
    ensures FindProcess(u, id) == FindProcess(t, id) && FindThread(u, id) == FindThread(t, id)
  {
    if Low(id) > 0 {
      assert SameButFds(ProcessIn(t, Low(id) - 1), ProcessIn(u, Low(id) - 1));
      assert SameButState(ThreadIn(t, Low(id) - 1), ThreadIn(u, Low(id) - 1));
    }
  }

  lemma MildKeeps(t: Table, u: Table)
    requires Good(t) && Mild(t, u)
    ensures Good(u)
  {
    forall id: nat ensures FindProcess(u, id) == FindProcess(t, id) && FindThread(u, id) == FindThread(t, id) {
      MildFinds(t, u, id);
    }
    forall i: nat ensures ProcessOk(u, i) { assert ProcessOk(t, i) && SameButFds(ProcessIn(t, i), ProcessIn(u, i)); }
    forall i: nat, j: nat ensures MemberOk(u, i, j) {
      assert MemberOk(t, i, j) && SameButFds(ProcessIn(t, i), ProcessIn(u, i));
      if ProcessIn(u, i).Some? && j < |ProcessIn(u, i).value.threads| && ProcessIn(u, i).value.threads[j].Some? {
        var k := FindThread(t, ProcessIn(u, i).value.threads[j].value).value;
        assert SameButState(ThreadIn(t, k), ThreadIn(u, k));
      }
    }
    forall i: nat, a: nat, b: nat ensures MembersApart(u, i, a, b) {
      assert MembersApart(t, i, a, b) && SameButFds(ProcessIn(t, i), ProcessIn(u, i));
    }
    MildThreads(t, u);
    MildParents(t, u);
  }

  lemma MildThreads(t: Table, u: Table)
    requires Good(t) && Mild(t, u)
    ensures forall k: nat :: ThreadOk(u, k)
  {
    forall k: nat ensures ThreadOk(u, k) {
      assert ThreadOk(t, k) && SameButState(ThreadIn(t, k), ThreadIn(u, k));
      if ThreadIn(t, k).Some? && ThreadIn(t, k).value.process.Some? {
        MildFinds(t, u, ThreadIn(t, k).value.process.value);
        var r := FindProcess(t, ThreadIn(t, k).value.process.value).value;
        assert SameButFds(ProcessIn(t, r), ProcessIn(u, r));
        var j: nat :| Lists(t, r, j, ThreadIn(t, k).value.id);
        assert Lists(u, r, j, ThreadIn(t, k).value.id);
      }
    }
  }

  lemma MildParents(t: Table, u: Table)
    requires Good(t) && Mild(t, u)
    ensures forall i: nat :: ParentOk(u, i)
    ensures forall i: nat :: Rooted(u, i)
  {
    assert SameButFds(ProcessIn(t, 0), ProcessIn(u, 0));
    forall i: nat ensures ParentOk(u, i) && ParentSlot(u, i) == ParentSlot(t, i) {
      assert ParentOk(t, i) && SameButFds(ProcessIn(t, i), ProcessIn(u, i));
      if ProcessIn(t, i).Some? && ProcessIn(t, i).value.parent.Some? {
        MildFinds(t, u, ProcessIn(t, i).value.parent.value);
        var r := ParentSlot(t, i);
        assert SameButFds(ProcessIn(t, r), ProcessIn(u, r));
      }
    }
    forall i: nat ensures Rooted(u, i) {
      assert Rooted(t, i) && SameButFds(ProcessIn(t, i), ProcessIn(u, i));
      if ProcessIn(t, i).Some? {
        var n: nat :| Climbs(t, i, n);
        MildClimbs(t, u, i, n);
      }
    }
  }

  lemma {:induction false} MildClimbs(t: Table, u: Table, i: nat, n: nat)
    requires Climbs(t, i, n) && forall j: nat :: ParentSlot(u, j) == ParentSlot(t, j)
    ensures Climbs(u, i, n)
    decreases n
  {
    if n > 0 {
      MildClimbs(t, u, ParentSlot(t, i), n - 1);
    }
  }

  lemma FdsAreMild(t: Table, s: nat, fds: seq<Option<Fd>>)
    requires Good(t) && s < MAX_PROCESSES && t.processes[s].Some? && |fds| == |t.processes[s].value.fds|
    requires t.processes[s].value.state == Zombie ==>
               forall k :: 0 <= k < |fds| ==> t.processes[s].value.fds[k].None? ==> fds[k].None?
    ensures Mild(t, WithFds(t, s, fds))
  {
  }

  lemma StateIsMild(t: Table, k: nat, state: ThreadState)
    requires Good(t) && k < MAX_THREADS && t.threads[k].Some? && t.threads[k].value.state != Exited
    ensures Mild(t, WithState(t, k, state))
  {
  }

  lemma MildTwice(t: Table, u: Table, v: Table)
    requires Mild(t, u) && Mild(u, v)
    ensures Mild(t, v)
  {
    forall i: nat ensures SameButFds(ProcessIn(t, i), ProcessIn(v, i)) {
      assert SameButFds(ProcessIn(t, i), ProcessIn(u, i)) && SameButFds(ProcessIn(u, i), ProcessIn(v, i));
    }
    forall k: nat ensures SameButState(ThreadIn(t, k), ThreadIn(v, k)) {
      assert SameButState(ThreadIn(t, k), ThreadIn(u, k)) && SameButState(ThreadIn(u, k), ThreadIn(v, k));
    }
  }

  lemma SwitchIsMild(t: Table, from: Option<nat>, onto: nat)
    requires Good(t) && SwitchTo(t, from, onto).result.Ok?
    ensures Mild(t, SwitchTo(t, from, onto).table)
  {
    var k := FindThread(t, onto).value;
    if from.Some? {
      var j := FindThread(t, from.value).value;
      StateIsMild(t, j, Ready);
      MildKeeps(t, WithState(t, j, Ready));
      StateIsMild(WithState(t, j, Ready), k, OnCpu);
      MildTwice(t, WithState(t, j, Ready), SwitchTo(t, from, onto).table);
    } else {
      StateIsMild(t, k, OnCpu);
    }
  }

  // ------------------------------------------------------------------ kernel threads

  lemma KernelKeeps(t: Table)
    requires Good(t)
    ensures Good(SpawnKernelThread(t).table)
  {
    var made := SpawnKernelThread(t);
    if made.result.Ok? {
      var k, u := Vacant(t.threads, 0).value, made.table;
      forall id: nat
        ensures FindProcess(u, id) == FindProcess(t, id)
        ensures FindThread(t, id).Some? ==> FindThread(u, id) == FindThread(t, id)
      {
      }
      forall i: nat ensures ProcessOk(u, i) { assert ProcessOk(t, i); }
      forall i: nat, j: nat ensures MemberOk(u, i, j) { assert MemberOk(t, i, j); }
      forall i: nat, a: nat, b: nat ensures MembersApart(u, i, a, b) { assert MembersApart(t, i, a, b); }
      forall i: nat ensures ThreadOk(u, i) {
        assert ThreadOk(t, i);
        if i != k && ThreadIn(t, i).Some? && ThreadIn(t, i).value.process.Some? {
          var r := FindProcess(t, ThreadIn(t, i).value.process.value).value;
          var j: nat :| Lists(t, r, j, ThreadIn(t, i).value.id);
          assert Lists(u, r, j, ThreadIn(t, i).value.id);
        }
      }
      forall i: nat ensures ParentOk(u, i) { assert ParentOk(t, i); }
      forall i: nat ensures Rooted(u, i) {
        assert Rooted(t, i);
        if ProcessIn(t, i).Some? {
          var n: nat :| Climbs(t, i, n);
          MildClimbs(t, u, i, n);
        }
      }
    }
  }
}
