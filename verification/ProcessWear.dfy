/** A run from the empty table in which one process id lives twice, with the fewest waits that can do it. */
module ProcessWear {
  import opened Common
  import opened ProcessTable
  import opened ProcessInvariant
  import opened ProcessRuns
  import opened ProcessIds
  import opened ProcessLimits

  // ------------------------------------------------------------------ runs as tables

  lemma ApplySized(t: Table, op: Op)
    requires Sized(t)
    ensures Sized(Apply(t, op).table)
  {
  }

  /** The table after some operations. */
  function Steps(t: Table, ops: seq<Op>): (u: Table)
    requires Sized(t)
    ensures Sized(u)
    decreases |ops|
  {
    if ops == [] then t
    else
      var before, op := Steps(t, ops[..|ops| - 1]), ops[|ops| - 1];
      ApplySized(before, op);
      Apply(before, op).table
  }

  lemma {:induction false} StepsAppend(t: Table, a: seq<Op>, b: seq<Op>)
    requires Sized(t)
    ensures Steps(t, a + b) == Steps(Steps(t, a), b)
    decreases |b|
  {
    if b == [] {
      assert a + b == a;
    } else {
      var front := b[..|b| - 1];
      StepsAppend(t, a, front);
      assert (a + b)[..|a + b| - 1] == a + front;
    }
  }

  lemma StepsOne(t: Table, op: Op)
    requires Sized(t)
    ensures Steps(t, [op]) == Apply(t, op).table
  {
    assert [op][..0] == [];
    assert Steps(t, []) == t;
  }

  /** The run that makes these operations from the empty table. */
  lemma RunOf(ops: seq<Op>) returns (r: Run)
    ensures FreshRun(r) && r.ops == ops
    ensures forall i: nat :: i <= |ops| ==> r.tables[i] == Steps(NewTable(), ops[..i])
  {
    var tables := seq(|ops| + 1, i requires 0 <= i <= |ops| => Steps(NewTable(), ops[..i]));
    var answers := seq(|ops|, i requires 0 <= i < |ops| => Apply(Steps(NewTable(), ops[..i]), ops[i]).answer);
    r := Run(tables, ops, answers);
    forall i: nat | i < |ops| ensures Follows(r, i) {
      assert ops[..i + 1][..i] == ops[..i];
    }
    assert ops[..0] == [];
  }

  // ------------------------------------------------------------------ one life after another

  /** Init is there; process slot 1 and thread slot `k` are the next to be used, in these generations. */
  ghost predicate Idle(t: Table, g: nat, k: nat, h: nat) {
    && Good(t) && FindProcess(t, INIT) == Some(0) && t.processes[0].value.state == Running
    && Vacant(t.processes, 0) == Some(1) && Vacant(t.threads, 0) == Some(k)
    && t.processGenerations[1] == g && t.threadGenerations[k] == h
  }

  function Life(g: nat): seq<Op> {
    [DoSpawn(INIT), DoExit(Pack(1, g), 0), DoWait(INIT, Some(Pack(1, g)))]
  }

  lemma LifeSteps(t: Table, g: nat)
    requires Sized(t)
    ensures var a := SpawnChild(t, INIT).table;
            && Sized(a) && Sized(Exit(a, Pack(1, g), 0).table)
            && Steps(t, Life(g)) == Wait(Exit(a, Pack(1, g), 0).table, INIT, Some(Pack(1, g))).table
  {
    var id := Pack(1, g);
    var one, two: seq<Op> := [DoSpawn(INIT)], [DoSpawn(INIT), DoExit(id, 0)];
    ApplySized(t, one[0]);
    StepsOne(t, one[0]);
    assert two[..1] == one && Life(g)[..2] == two;
    ApplySized(Steps(t, one), two[1]);
  }

  /** A child of init has been made and has exited. */
  ghost predicate Dead(t: Table, u: Table, g: nat, k: nat, h: nat) {
    && Good(u) && IsDeadChild(u.processes[1], INIT) && u.processes[1].value.id == Pack(1, g)
    && FindProcess(u, INIT) == Some(0) && u.processes[0].value.state == Running
    && u.processGenerations == t.processGenerations && u.threadGenerations == t.threadGenerations
    && Listed(u, k, h)
    && (forall i: nat :: ThreadIn(u, i).Some? && i != k ==> !Owned(u, 1, i))
    && (forall i: nat :: i < k ==> ThreadIn(u, i).Some?)
  }

  /** It lists the one thread in slot `k`. */
  ghost predicate Listed(u: Table, k: nat, h: nat)
    requires ProcessIn(u, 1).Some?
  {
    && k < MAX_THREADS && ThreadIn(u, k).Some? && Owned(u, 1, k)
    && forall j: nat :: j < |ProcessIn(u, 1).value.threads| ==>
         ProcessIn(u, 1).value.threads[j] == if j == 0 then Some(Pack(k, h)) else None
  }

  lemma ChildDies(t: Table, g: nat, k: nat, h: nat) returns (u: Table)
    requires Idle(t, g, k, h)
    ensures Apply(t, DoSpawn(INIT)).answer == Spawned(Pack(1, g), Pack(k, h))
    ensures Sized(SpawnChild(t, INIT).table) && Exit(SpawnChild(t, INIT).table, Pack(1, g), 0) == Done(Ok(()), u)
    ensures Dead(t, u, g, k, h)
  {
    var id := Pack(1, g);
    SpawnStep(t, INIT, 0);
    var made := SpawnChild(t, INIT).table;
    assert made == WithProcess(t, 1, k, Some(INIT));
    WithProcessAdds(t, 1, k, Some(INIT));
    AddsFinds(t, made, 1, k, made.processes[1].value, made.threads[k].value, id);
    AddsFinds(t, made, 1, k, made.processes[1].value, made.threads[k].value, INIT);
    ExitStep(made, id, 0, 0);
    u := Exit(made, id, 0).table;
    ExitExits(made, id, 0);
    ExitsFinds(made, u, 1, id, 0);
    forall i: nat | ThreadIn(u, i).Some? && i != k ensures !Owned(u, 1, i) {
      assert ThreadOk(t, i);
    }
  }

  lemma DeadThreads(t: Table, u: Table, g: nat, k: nat, h: nat)
    requires Dead(t, u, g, k, h) && h == t.threadGenerations[k] && k < MAX_THREADS
             && |t.threadGenerations| == MAX_THREADS
    ensures SomeThreadAtLimit(u, 1) <==> AtLimit(h)
  {
    if AtLimit(h) {
      assert ProcessOk(u, 1);
      assert ThreadAtLimit(u, 1, 0);
    }
  }

  /** A child that is made, exits and is waited for leaves everything as it was but older. */
  lemma LifeGoesBy(t: Table, g: nat, k: nat, h: nat)
    requires Idle(t, g, k, h) && !AtLimit(g) && !AtLimit(h)
    ensures Idle(Steps(t, Life(g)), g + 1, k, h + 1)
    ensures forall i: nat :: i != k ==>
              ThreadIn(Steps(t, Life(g)), i).Some? == ThreadIn(t, i).Some?
              && GenerationAt(Steps(t, Life(g)).threadGenerations, i) == GenerationAt(t.threadGenerations, i)
  {
    var id := Pack(1, g);
    LifeSteps(t, g);
    var u := ChildDies(t, g, k, h);
    DeadThreads(t, u, g, k, h);
    ReapExhaustsExactly(u, 1);
    assert ProcessOk(u, 1);
    ProcessIsFound(u, 1);
    WaitStep(u, INIT, Some(id), 0);
    var v := Wait(u, INIT, Some(id)).table;
    assert Drops(u, v, 1);
    DropsFinds(u, v, 1, INIT);
    Settles(t, u, v, g, k, h);
  }

  lemma VacantThread(t: Table, k: nat)
    requires k < |t.threads| && ThreadIn(t, k).None? && forall i: nat :: i < k ==> ThreadIn(t, i).Some?
    ensures Vacant(t.threads, 0) == Some(k)
  {
    assert t.threads[k].None?;
    forall i: nat | i < k ensures t.threads[i].Some? { assert ThreadIn(t, i).Some?; }
  }

  lemma Settles(t: Table, u: Table, v: Table, g: nat, k: nat, h: nat)
    requires Idle(t, g, k, h) && Dead(t, u, g, k, h) && Drops(u, v, 1) && Good(v) && FindProcess(v, INIT) == Some(0)
    requires forall i: nat :: i != k ==> ThreadIn(u, i).Some? == ThreadIn(t, i).Some?
    ensures Idle(v, g + 1, k, h + 1)
    ensures forall i: nat :: i != k ==>
              ThreadIn(v, i).Some? == ThreadIn(t, i).Some?
              && GenerationAt(v.threadGenerations, i) == GenerationAt(t.threadGenerations, i)
  {
    assert ProcessIn(v, 1).None? && ProcessIn(v, 0) == ProcessIn(u, 0);
    assert ThreadIn(v, k).None?;
    forall i: nat | i < k ensures ThreadIn(v, i).Some? { assert t.threads[i].Some?; }
    VacantThread(v, k);
    assert GenerationAt(v.processGenerations, 1) == g + 1 && GenerationAt(v.threadGenerations, k) == h + 1;
  }

  // ------------------------------------------------------------------ sixty-five thousand lives

  /** Init, one life, then a kernel thread that takes that life's thread slot, then `n` more lives. */
  function Lives(n: nat): seq<Op> {
    if n == 0 then [DoCreateInit] + Life(0) + [DoKernelThread] else Lives(n - 1) + Life(n)
  }

  lemma FirstSteps() returns (t: Table)
    ensures t == Steps(NewTable(), [DoCreateInit]) && Idle(t, 0, 1, 0)
    ensures ThreadIn(t, 0).Some? && ThreadIn(t, 2).None? && GenerationAt(t.threadGenerations, 2) == 0
  {
    NewIsGood();
    StepsOne(NewTable(), DoCreateInit);
    assert Vacant(NewTable().threads, 0) == Some(0);
    CreateInitStep(NewTable(), 0);
    t := CreateInit(NewTable()).table;
  }

  lemma KernelSettles(t: Table)
    requires Idle(t, 1, 1, 1) && ThreadIn(t, 0).Some? && ThreadIn(t, 2).None?
    requires GenerationAt(t.threadGenerations, 2) == 0
    ensures Idle(Apply(t, DoKernelThread).table, 1, 2, 0)
  {
    KernelKeeps(t);
    var u := SpawnKernelThread(t).table;
    assert u == SetThread(t, 1, Some(Thread(Pack(1, 1), None, Ready, Kernel)));
    assert FindProcess(u, INIT) == FindProcess(t, INIT);
    VacantThread(u, 2);
  }

  lemma FirstLife()
    ensures Idle(Steps(NewTable(), Lives(0)), 1, 2, 0)
  {
    var t := FirstSteps();
    LifeGoesBy(t, 0, 1, 0);
    var u := Steps(t, Life(0));
    KernelSettles(u);
    StepsAppend(NewTable(), [DoCreateInit], Life(0));
    StepsAppend(NewTable(), [DoCreateInit] + Life(0), [DoKernelThread]);
    StepsOne(u, DoKernelThread);
  }

  lemma {:induction false} LivesGoBy(n: nat)
    requires n + 1 < U16_LIMIT
    ensures Idle(Steps(NewTable(), Lives(n)), n + 1, 2, n)
  {
    if n == 0 {
      FirstLife();
    } else {
      LivesGoBy(n - 1);
      NextLife(n);
    }
  }

  lemma NextLife(n: nat)
    requires 0 < n && n + 1 < U16_LIMIT && Idle(Steps(NewTable(), Lives(n - 1)), n, 2, n - 1)
    ensures Idle(Steps(NewTable(), Lives(n)), n + 1, 2, n)
  {
    OneMoreLife(n);
    LifeGoesBy(Steps(NewTable(), Lives(n - 1)), n, 2, n - 1);
  }

  lemma OneMoreLife(n: nat)
    requires n > 0
    ensures Steps(NewTable(), Lives(n)) == Steps(Steps(NewTable(), Lives(n - 1)), Life(n))
  {
    StepsAppend(NewTable(), Lives(n - 1), Life(n));
  }

  lemma {:induction false} WaitsAppend(a: seq<Op>, b: seq<Op>)
    ensures Waits(a + b) == Waits(a) + Waits(b)
    decreases |b|
  {
    if b == [] {
      assert a + b == a;
    } else {
      WaitsAppend(a, b[..|b| - 1]);
      assert (a + b)[..|a + b| - 1] == a + b[..|b| - 1];
    }
  }

  lemma LifeWaitsOnce(g: nat)
    ensures Waits(Life(g)) == 1
  {
    var life := Life(g);
    var one, two := life[..1], life[..2];
    assert two[..1] == one && one[..0] == [];
    assert Waits(one) == 0 && Waits(two) == 0;
  }

  lemma {:induction false} LivesWait(n: nat)
    ensures Waits(Lives(n)) == n + 1
  {
    LifeWaitsOnce(n);
    if n == 0 {
      var init, kernel: seq<Op> := [DoCreateInit], [DoKernelThread];
      assert init[..0] == [] && kernel[..0] == [];
      WaitsAppend(init, Life(0));
      WaitsAppend(init + Life(0), kernel);
    } else {
      LivesWait(n - 1);
      WaitsAppend(Lives(n - 1), Life(n));
    }
  }

  /** Whoever was just made can exit. */
  lemma NewcomerExits(t: Table, parent: nat)
    requires Good(t) && FindProcess(t, INIT).Some? && SpawnChild(t, parent).result.Ok?
    ensures var made := SpawnChild(t, parent);
            Sized(made.table) && Exit(made.table, made.result.value.0, 0).result.Ok?
  {
    var made := SpawnChild(t, parent);
    var s, k, id := Vacant(t.processes, 0).value, Vacant(t.threads, 0).value, made.result.value.0;
    WithProcessAdds(t, s, k, Some(parent));
    AddsFinds(t, made.table, s, k, made.table.processes[s].value, made.table.threads[k].value, id);
    assert id != INIT;
  }

  /** The last life in the slot, and the one that follows it under the same id and exits again. */
  lemma LastLife(t: Table, g: nat, k: nat, h: nat)
    requires Idle(t, g, k, h) && AtLimit(g) && !AtLimit(h)
    ensures var u, id := Steps(t, Life(g)), Pack(1, g);
            var a, b := SpawnChild(t, INIT), SpawnChild(u, INIT);
            && a.result == Ok((id, Pack(k, h))) && Sized(a.table) && Exit(a.table, id, 0).result.Ok?
            && b.result.Ok? && b.result.value.0 == id && Sized(b.table) && Exit(b.table, id, 0).result.Ok?
  {
    LifeSteps(t, g);
    var u := ChildDies(t, g, k, h);
    DeadThreads(t, u, g, k, h);
    ReapFreesSlot(u, k, h);
    IdIsReissued(u, 1, INIT);
    ProcessLimitLeaves(u, 1, Some(INIT));
    ReapKeepsOthers(u, 1);
    assert ProcessOk(u, 1);
    ProcessIsFound(u, 1);
    NewcomerExits(Reap(u, 1).table, INIT);
  }

  lemma ReapFreesSlot(u: Table, k: nat, h: nat)
    requires Good(u) && IsZombie(u, 1) && !SomeThreadAtLimit(u, 1) && Listed(u, k, h)
    ensures Vacant(Reap(u, 1).table.threads, 0).Some?
  {
    ReapStarts(u, 1);
    FreeThreadsExactly(u, 1, u, 0);
    FreeThreadsFrees(u, 1, u, 0);
    var ids := ProcessIn(u, 1).value.threads;
    assert ids[..|ids|] == ids;
    ListedIsOwned(u, 1, k);
    assert ThreadIn(Reap(u, 1).table, k).None?;
  }

  /** A run from the empty table with 65536 waits in which an id is issued twice and exits twice; by
      `ShortRunsAreClean` and `ExitsOnce` no run with fewer waits can do that. */
  lemma IdLivesTwice(n: nat) returns (r: Run, i: nat, j: nat, id: nat)
    requires n + 2 == U16_LIMIT
    ensures FreshRun(r) && Waits(r.ops) == U16_LIMIT && i + 1 < j < j + 1 < |r.ops|
    ensures IssuedProcess(r.answers[i]) == IssuedProcess(r.answers[j]) == Some(id)
    ensures ExitedAt(r, i + 1, id) && ExitedAt(r, j + 1, id)
  {
    id := Pack(1, n + 1);
    var lives, last, again: seq<Op> := Lives(n), Life(n + 1), [DoSpawn(INIT), DoExit(id, 0)];
    var ops := lives + last + again;
    r := RunOf(ops);
    i, j := |lives|, |lives| + 3;
    LivesGoBy(n);
    LastLife(Steps(NewTable(), lives), n + 1, 2, n);
    StepsAppend(NewTable(), lives, last);
    assert ops[..i] == lives && ops[..j] == lives + last;
    BornAndGone(r, i, id);
    BornAndGone(r, j, id);
    WaitsOfAll(n, again);
  }

  lemma BornAndGone(r: Run, i: nat, id: nat)
    requires FreshRun(r) && i + 1 < |r.ops| && r.ops[i] == DoSpawn(INIT) && r.ops[i + 1] == DoExit(id, 0)
    requires Sized(r.tables[i])
    requires var made := SpawnChild(r.tables[i], INIT);
             && made.result.Ok? && made.result.value.0 == id && Sized(made.table) && Exit(made.table, id, 0).result.Ok?
    ensures IssuedProcess(r.answers[i]) == Some(id) && ExitedAt(r, i + 1, id)
  {
    assert Follows(r, i) && Follows(r, i + 1);
  }

  lemma WaitsOfAll(n: nat, again: seq<Op>)
    requires |again| == 2 && !again[0].DoWait? && !again[1].DoWait?
    ensures Waits(Lives(n) + Life(n + 1) + again) == n + 2
  {
    LivesWait(n);
    LifeWaitsOnce(n + 1);
    assert again[..1][..0] == [];
    assert Waits(again[..1]) == 0;
    WaitsAppend(Lives(n), Life(n + 1));
    WaitsAppend(Lives(n) + Life(n + 1), again);
  }
}
