/** What happens when a slot of the process table has used up its generations.

    `reap` clears a slot before it finds that its generation cannot be raised any more. This module
    says exactly when that happens, what it leaves behind, that an id can then be issued twice, and
    that it takes more than 65535 waits to get there.
 */
module ProcessLimits {
  import opened Common
  import opened ProcessTable
  import opened ProcessInvariant
  import opened Runs = ProcessRuns
  import R = ProcessRuntime

  /** The generation is the last one. */
  predicate AtLimit(generation: nat) { generation + 1 >= U16_LIMIT }

  /** The j-th thread of the process stands in a slot of the last generation. */
  predicate ThreadAtLimit(t: Table, s: nat, j: nat) {
    && ProcessIn(t, s).Some? && j < |ProcessIn(t, s).value.threads| && ProcessIn(t, s).value.threads[j].Some?
    && var low := Low(ProcessIn(t, s).value.threads[j].value);
       low > 0 && AtLimit(GenerationAt(t.threadGenerations, low - 1))
  }

  /** The j-th listed thread is the first one whose slot is at the limit. */
  predicate FirstAtLimit(t: Table, s: nat, j: nat) {
    ThreadAtLimit(t, s, j) && forall i: nat :: i < j ==> !ThreadAtLimit(t, s, i)
  }

  ghost predicate SomeThreadAtLimit(t: Table, s: nat) { exists j: nat :: ThreadAtLimit(t, s, j) }

  predicate IsZombie(t: Table, s: nat) { ProcessIn(t, s).Some? && ProcessIn(t, s).value.state == Zombie }

  // ------------------------------------------------------------------ reaping at the limit

  /** The threads before the j-th are gone and their slots older; the j-th is gone from its slot too,
      which is as old as before; everything else is untouched. */
  ghost predicate Stopped(t: Table, u: Table, s: nat, j: nat) {
    && ProcessIn(t, s).Some? && j < |ProcessIn(t, s).value.threads|
    && var ids := ProcessIn(t, s).value.threads;
       && u.processes == t.processes && u.processGenerations == t.processGenerations
       && (forall k: nat :: ThreadIn(u, k) == if Among(ThreadIn(t, k), ids[..j + 1]) then None else ThreadIn(t, k))
       && (forall k: nat :: GenerationAt(u.threadGenerations, k)
             == GenerationAt(t.threadGenerations, k) + if Among(ThreadIn(t, k), ids[..j]) then 1 else 0)
  }

  /** One listed thread: its slot is at the limit, or it is freed and the loop goes on. */
  lemma OneThread(t: Table, s: nat, u: Table, j: nat) returns (next: Table)
    requires Good(t) && ProcessIn(t, s).Some? && j < MAX_PROCESS_THREADS
    requires |ProcessIn(t, s).value.threads| == MAX_PROCESS_THREADS && Partly(t, u, ProcessIn(t, s).value.threads, j)
    requires ProcessIn(t, s).value.threads[j].Some?
    ensures var ids := ProcessIn(t, s).value.threads;
            var r := FreeThreads(u, ids, j);
            if ThreadAtLimit(t, s, j) then r.result == Err(GenerationExhausted) && Stopped(t, r.table, s, j)
            else Partly(t, next, ids, j + 1) && r == FreeThreads(next, ids, j + 1)
  {
    var k := FreedNext(t, s, u, j);
    assert GenerationAt(u.threadGenerations, k) == GenerationAt(t.threadGenerations, k);
    next := SetThread(u, k, None).(threadGenerations := u.threadGenerations[k := u.threadGenerations[k] + 1]);
    if ThreadAtLimit(t, s, j) {
      StopsHere(t, s, u, j, k);
    } else {
      FreedStep(t, s, u, j, k, next);
    }
  }

  lemma {:induction false} FreeThreadsExactly(t: Table, s: nat, u: Table, j: nat)
    requires Good(t) && ProcessIn(t, s).Some? && j <= MAX_PROCESS_THREADS
    requires |ProcessIn(t, s).value.threads| == MAX_PROCESS_THREADS && Partly(t, u, ProcessIn(t, s).value.threads, j)
    requires forall i: nat :: i < j ==> !ThreadAtLimit(t, s, i)
    ensures var r := FreeThreads(u, ProcessIn(t, s).value.threads, j);
            && (r.result.Ok? <==> !SomeThreadAtLimit(t, s))
            && (r.result.Err? ==> r.result == Err(GenerationExhausted)
                                  && exists i: nat :: FirstAtLimit(t, s, i) && Stopped(t, r.table, s, i))
    decreases MAX_PROCESS_THREADS - j
  {
    var ids := ProcessIn(t, s).value.threads;
    if j < |ids| {
      assert ids[..j + 1] == ids[..j] + [ids[j]];
      if ids[j].None? {
        assert Partly(t, u, ids, j + 1);
        FreeThreadsExactly(t, s, u, j + 1);
      } else {
        var next := OneThread(t, s, u, j);
        if ThreadAtLimit(t, s, j) {
          assert FirstAtLimit(t, s, j);
        } else {
          FreeThreadsExactly(t, s, next, j + 1);
        }
      }
    }
  }

  lemma StopsHere(t: Table, s: nat, u: Table, j: nat, k: nat)
    requires Good(t) && ProcessIn(t, s).Some? && j < MAX_PROCESS_THREADS && Sized(u) && k < MAX_THREADS
    requires |ProcessIn(t, s).value.threads| == MAX_PROCESS_THREADS && Partly(t, u, ProcessIn(t, s).value.threads, j)
    requires ThreadIn(t, k).Some? && ProcessIn(t, s).value.threads[j] == Some(ThreadIn(t, k).value.id)
    ensures Stopped(t, SetThread(u, k, None), s, j)
  {
    var ids := ProcessIn(t, s).value.threads;
    assert ids[..j + 1] == ids[..j] + [ids[j]];
    forall i: nat ensures Among(ThreadIn(t, i), ids[..j + 1]) <==> Among(ThreadIn(t, i), ids[..j]) || i == k {
      assert ThreadOk(t, i) && ThreadOk(t, k);
    }
  }

  lemma ReapStarts(t: Table, s: nat)
    requires Good(t) && s < MAX_PROCESSES && IsZombie(t, s)
    ensures |ProcessIn(t, s).value.threads| == MAX_PROCESS_THREADS && Partly(t, t, ProcessIn(t, s).value.threads, 0)
  {
    assert ProcessOk(t, s);
    assert ProcessIn(t, s).value.threads[..0] == [];
  }

  /** Reaping a dead process runs out of generations if and only if its slot, or the slot of a thread
      it lists, is in its last one; otherwise it succeeds. */
  lemma ReapExhaustsExactly(t: Table, s: nat)
    requires Good(t) && s < MAX_PROCESSES && IsZombie(t, s)
    ensures var r := Reap(t, s).result;
            && (r == Err(GenerationExhausted) <==> AtLimit(t.processGenerations[s]) || SomeThreadAtLimit(t, s))
            && (r.Ok? <==> !(AtLimit(t.processGenerations[s]) || SomeThreadAtLimit(t, s)))
  {
    ReapStarts(t, s);
    FreeThreadsExactly(t, s, t, 0);
  }

  // ------------------------------------------------------------------ what is left behind

  /** A thread's slot at the limit: the process stays dead and listed, with a thread that is gone, and
      the thread's id is the next one its slot gives out. */
  lemma ThreadLimitLeaves(t: Table, s: nat)
    requires Good(t) && s < MAX_PROCESSES && IsZombie(t, s) && SomeThreadAtLimit(t, s)
    ensures var u := Reap(t, s).table;
            && ProcessIn(u, s) == ProcessIn(t, s) && !Good(u)
            && exists j: nat :: FirstAtLimit(t, s, j) && Orphaned(u, ProcessIn(t, s).value.threads[j].value)
  {
    ReapStarts(t, s);
    FreeThreadsExactly(t, s, t, 0);
    var u := Reap(t, s).table;
    var j: nat :| FirstAtLimit(t, s, j) && Stopped(t, u, s, j);
    ListedThreadIsGone(t, s, u, j);
    assert !MemberOk(u, s, j);
  }

  /** The id is not in use, and is what its slot would give the next thread. */
  predicate Orphaned(t: Table, id: nat) {
    && 1 <= Low(id) <= MAX_THREADS && FindThread(t, id).None? && ThreadIn(t, Low(id) - 1).None?
    && Pack(Low(id) - 1, GenerationAt(t.threadGenerations, Low(id) - 1)) == id
  }

  lemma ListedThreadIsGone(t: Table, s: nat, u: Table, j: nat)
    requires Good(t) && FirstAtLimit(t, s, j) && Stopped(t, u, s, j)
    ensures Orphaned(u, ProcessIn(t, s).value.threads[j].value)
  {
    var ids := ProcessIn(t, s).value.threads;
    assert MemberOk(t, s, j);
    var k := FindThread(t, ids[j].value).value;
    assert ThreadOk(t, k);
    assert ids[..j + 1][j] == ids[j];
    assert Among(ThreadIn(t, k), ids[..j + 1]);
    forall i: nat | i < j ensures ids[i] != ids[j] { assert MembersApart(t, s, i, j); }
    assert !Among(ThreadIn(t, k), ids[..j]);
  }

  /** A free slot's generation is nobody's concern. */
  lemma VacantGeneration(t: Table, s: nat, generation: nat)
    requires Good(t) && 0 < s < MAX_PROCESSES && ProcessIn(t, s).None?
    ensures Good(t.(processGenerations := t.processGenerations[s := generation]))
  {
    var u := t.(processGenerations := t.processGenerations[s := generation]);
    forall id: nat ensures FindProcess(u, id) == FindProcess(t, id) && FindThread(u, id) == FindThread(t, id) {}
    forall i: nat ensures ProcessOk(u, i) { assert ProcessOk(t, i); }
    forall i: nat, j: nat ensures MemberOk(u, i, j) { assert MemberOk(t, i, j); }
    forall i: nat, a: nat, b: nat ensures MembersApart(u, i, a, b) { assert MembersApart(t, i, a, b); }
    VacantGenerationThreads(t, u);
    forall i: nat ensures ParentOk(u, i) { assert ParentOk(t, i); }
    forall i: nat ensures Rooted(u, i) {
      assert Rooted(t, i);
      if ProcessIn(t, i).Some? {
        var n: nat :| Climbs(t, i, n);
        ClimbsAlike(t, u, i, n);
      }
    }
  }

  lemma VacantGenerationThreads(t: Table, u: Table)
    requires Good(t) && u.processes == t.processes && u.threads == t.threads
             && u.threadGenerations == t.threadGenerations
    requires forall id: nat :: FindProcess(u, id) == FindProcess(t, id)
    ensures forall k: nat :: ThreadOk(u, k)
  {
    forall k: nat ensures ThreadOk(u, k) {
      assert ThreadOk(t, k);
      if ThreadIn(t, k).Some? && ThreadIn(t, k).value.process.Some? {
        var s := FindProcess(t, ThreadIn(t, k).value.process.value).value;
        var j: nat :| Lists(t, s, j, ThreadIn(t, k).value.id);
        assert Lists(u, s, j, ThreadIn(t, k).value.id);
      }
    }
  }

  lemma {:induction false} ClimbsAlike(t: Table, u: Table, i: nat, n: nat)
    requires Climbs(t, i, n) && forall j: nat :: ParentSlot(u, j) == ParentSlot(t, j)
    ensures Climbs(u, i, n)
    decreases n
  {
    if n > 0 {
      ClimbsAlike(t, u, ParentSlot(t, i), n - 1);
    }
  }

  /** The process's own slot at the limit: it is gone with its threads and the table is good, but its
      slot is as old as before, so the next process there gets the very same id. */
  lemma ProcessLimitLeaves(t: Table, s: nat, parent: Option<nat>)
    requires Good(t) && s < MAX_PROCESSES && IsZombie(t, s)
    requires AtLimit(t.processGenerations[s]) && !SomeThreadAtLimit(t, s)
    ensures var u, id := Reap(t, s).table, ProcessIn(t, s).value.id;
            && Good(u) && ProcessIn(u, s).None? && FindProcess(u, id).None?
            && (CreateAt(u, s, parent).result.Ok? ==> CreateAt(u, s, parent).result.value.0 == id)
  {
    var ids, u := ProcessIn(t, s).value.threads, Reap(t, s).table;
    ReapStarts(t, s);
    FreeThreadsExactly(t, s, t, 0);
    FreeThreadsFrees(t, s, t, 0);
    assert ProcessOk(t, s) && ParentOk(t, s);
    assert ids[..|ids|] == ids;
    forall k: nat ensures Among(ThreadIn(t, k), ids) <==> Owned(t, s, k) { ListedIsOwned(t, s, k); }
    var raised := u.(processGenerations := t.processGenerations[s := t.processGenerations[s] + 1]);
    assert Drops(t, raised, s);
    DropsKeeps(t, raised, s);
    VacantGeneration(raised, s, t.processGenerations[s]);
    assert raised.processGenerations[s := t.processGenerations[s]] == t.processGenerations;
    assert u == raised.(processGenerations := t.processGenerations);
  }

  // ------------------------------------------------------------------ an id issued twice

  /** A dead child whose slot is at the limit, with every slot before it taken and a thread slot free
      once it is gone: the wait fails, and the next child gets the id of the dead one. */
  lemma IdIsReissued(t: Table, s: nat, parent: nat)
    requires Good(t) && s < MAX_PROCESSES && IsDeadChild(t.processes[s], parent)
    requires AtLimit(t.processGenerations[s]) && !SomeThreadAtLimit(t, s)
    requires forall i :: 0 <= i < s ==> t.processes[i].Some?
    requires Vacant(Reap(t, s).table.threads, 0).Some?
    ensures var id := t.processes[s].value.id;
            var waited := Wait(t, parent, Some(id));
            && waited.result == Err(GenerationExhausted)
            && SpawnChild(waited.table, parent).result.Ok? && SpawnChild(waited.table, parent).result.value.0 == id
  {
    var id := t.processes[s].value.id;
    assert ProcessOk(t, s) && ParentOk(t, s);
    ProcessIsFound(t, s);
    ReapExhaustsExactly(t, s);
    ProcessLimitLeaves(t, s, Some(parent));
    var u := Reap(t, s).table;
    ReapKeepsOthers(t, s);
    assert Vacant(u.processes, 0) == Some(s);
    var p := FindProcess(t, parent).value;
    assert p != s && FindProcess(u, parent) == Some(p);
  }

  lemma ReapKeepsOthers(t: Table, s: nat)
    requires Good(t) && s < MAX_PROCESSES && IsZombie(t, s)
    requires AtLimit(t.processGenerations[s]) && !SomeThreadAtLimit(t, s)
    ensures var u := Reap(t, s).table;
            && u.processes == t.processes[s := None] && u.processGenerations == t.processGenerations
            && forall k: nat :: ThreadIn(t, k).None? ==> ThreadIn(u, k).None?
  {
    ReapStarts(t, s);
    FreeThreadsExactly(t, s, t, 0);
    FreeThreadsFrees(t, s, t, 0);
  }

  // ------------------------------------------------------------------ how long it takes

  function Waits(ops: seq<Op>): nat {
    if ops == [] then 0 else Waits(ops[..|ops| - 1]) + if ops[|ops| - 1].DoWait? then 1 else 0
  }

  /** No slot is older than `n` generations. */
  ghost predicate NoOlder(t: Table, n: nat) {
    && (forall i: nat :: GenerationAt(t.processGenerations, i) <= n)
    && (forall k: nat :: GenerationAt(t.threadGenerations, k) <= n)
  }

  lemma YoungReaps(t: Table, s: nat, n: nat)
    requires Good(t) && s < MAX_PROCESSES && IsZombie(t, s) && NoOlder(t, n) && n + 1 < U16_LIMIT
    ensures Reap(t, s).result.Ok?
  {
    ReapExhaustsExactly(t, s);
    assert GenerationAt(t.processGenerations, s) <= n;
  }

  lemma YoungWaits(t: Table, parent: nat, child: Option<nat>, n: nat)
    requires Good(t) && NoOlder(t, n) && n + 1 < U16_LIMIT
    ensures var d := Wait(t, parent, child);
            d.result != Err(GenerationExhausted) && NoOlder(d.table, n + 1)
  {
    var s := if child.Some? then FindProcess(t, child.value) else FirstDeadChild(t, parent, 0);
    if FindProcess(t, parent).Some? && s.Some? && IsDeadChild(t.processes[s.value], parent) {
      YoungReaps(t, s.value, n);
      assert ProcessOk(t, s.value);
      ProcessIsFound(t, s.value);
    }
    WaitStep(t, parent, child, 0);
  }

  lemma YoungStep(t: Table, op: Op, n: nat)
    requires Good(t) && NoOlder(t, n) && (op.DoWait? ==> n + 1 < U16_LIMIT)
    ensures var step := Apply(t, op);
            step.answer != Failed(GenerationExhausted) && NoOlder(step.table, if op.DoWait? then n + 1 else n)
  {
    if op.DoWait? {
      YoungWaits(t, op.parent, op.child, n);
    } else {
      assert Apply(t, op).table.processGenerations == t.processGenerations;
      assert Apply(t, op).table.threadGenerations == t.threadGenerations;
    }
  }

  /** A run from the empty table, whatever it answers. */
  ghost predicate FreshRun(r: Run) {
    && |r.tables| == |r.ops| + 1 && |r.answers| == |r.ops| && r.tables[0] == NewTable()
    && forall i: nat :: i < |r.ops| ==> Follows(r, i)
  }

  lemma {:induction false} YoungRun(r: Run, i: nat)
    requires FreshRun(r) && i < |r.tables| && Waits(r.ops[..i]) < U16_LIMIT
    ensures Good(r.tables[i]) && NoOlder(r.tables[i], Waits(r.ops[..i]))
    ensures i > 0 ==> Waits(r.ops[..i - 1]) < U16_LIMIT && r.answers[i - 1] != Failed(GenerationExhausted)
    decreases i
  {
    if i == 0 {
      NewIsGood();
    } else {
      var op, t := r.ops[i - 1], r.tables[i - 1];
      assert r.ops[..i][..i - 1] == r.ops[..i - 1];
      YoungRun(r, i - 1);
      assert Follows(r, i - 1);
      YoungStep(t, op, Waits(r.ops[..i - 1]));
      StepKeeps(t, op, 0);
    }
  }

  lemma {:induction false} WaitsGrow(ops: seq<Op>, i: nat)
    requires i <= |ops|
    ensures Waits(ops[..i]) <= Waits(ops)
    decreases |ops| - i
  {
    if i < |ops| {
      WaitsGrow(ops, i + 1);
      assert ops[..i + 1][..i] == ops[..i];
    } else {
      assert ops[..i] == ops;
    }
  }

  /** A run from the empty table with fewer than 65536 waits never runs out of generations, so
      everything said of clean runs holds of it. */
  lemma ShortRunsAreClean(r: Run)
    requires FreshRun(r) && Waits(r.ops) < U16_LIMIT
    ensures CleanRun(r)
  {
    NewIsGood();
    forall i: nat | i < |r.ops| ensures r.answers[i] != Failed(GenerationExhausted) {
      WaitsGrow(r.ops, i + 1);
      YoungRun(r, i + 1);
    }
  }

  // ------------------------------------------------------------------ the runtime calls

  function WaitCalls(calls: seq<R.Call>): nat {
    if calls == [] then 0 else WaitCalls(calls[..|calls| - 1]) + if calls[|calls| - 1].CallWait? then 1 else 0
  }

  lemma YoungCall(r: R.Runtime, call: R.Call, n: nat)
    requires R.RuntimeGood(r) && NoOlder(r.table, n) && (call.CallWait? ==> n + 1 < U16_LIMIT)
    ensures R.After(r, call).Some?
    ensures NoOlder(R.After(r, call).value.table, if call.CallWait? then n + 1 else n)
  {
    if call.CallWait? {
      if r.currentProcess.Some? {
        YoungWaits(r.table, r.currentProcess.value, call.child, n);
      }
    } else {
      var u := R.After(r, call).value.table;
      assert u.processGenerations == r.table.processGenerations && u.threadGenerations == r.table.threadGenerations;
    }
  }

  /** Any sequence of calls with fewer than 65536 waits can be made from start-up to its end; with
      `OneRunningThread`, one thread at most is running all along. */
  lemma {:induction false} ShortCallsGoOn(calls: seq<R.Call>) returns (runtimes: seq<R.Runtime>)
    requires WaitCalls(calls) < U16_LIMIT
    ensures |runtimes| == |calls| + 1 && Some(runtimes[0]) == R.InitRuntime()
    ensures forall k: nat :: k < |calls| ==> R.Reaches(runtimes, calls, k)
    ensures NoOlder(runtimes[|calls|].table, WaitCalls(calls)) && R.RuntimeGood(runtimes[|calls|])
    decreases |calls|
  {
    if calls == [] {
      R.InitIsGood();
      runtimes := [R.InitRuntime().value];
      StartsYoung();
    } else {
      var front, call := calls[..|calls| - 1], calls[|calls| - 1];
      var before := ShortCallsGoOn(front);
      var r := before[|front|];
      YoungCall(r, call, WaitCalls(front));
      R.CallKeeps(r, call);
      runtimes := before + [R.After(r, call).value];
      forall k: nat | k < |calls| ensures R.Reaches(runtimes, calls, k) {
        if k < |front| {
          assert R.Reaches(before, front, k);
        }
      }
    }
  }

  lemma StartsYoung()
    ensures R.InitRuntime().Some? && NoOlder(R.InitRuntime().value.table, 0)
  {
    R.InitIsGood();
  }
}
