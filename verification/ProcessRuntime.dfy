/** The runtime calls of `src/process.rs`, which keep one thread running at a time. */
module ProcessRuntime {
  import opened Common
  import opened ProcessTable
  import opened ProcessInvariant
  import Runs = ProcessRuns

  datatype Runtime = Runtime(table: Table, initThread: Option<nat>, currentProcess: Option<nat>,
      currentThread: Option<nat>)

  datatype Called<T> = Called(result: Result<T, Error>, runtime: Runtime)

  // ------------------------------------------------------------------ the calls

  function InitRuntime(): Option<Runtime> {
    var made := CreateInit(NewTable());
    if made.result.Err? then None
    else
      var (process, thread) := made.result.value;
      var switched := SwitchTo(made.table, None, thread);
      if switched.result.Err? then None
      else Some(Runtime(switched.table, Some(thread), Some(process), Some(thread)))
  }

  function OwnerOf(t: Table, id: nat): Result<Option<nat>, Error> {
    match FindThread(t, id)
    case None => Err(InvalidId)
    case Some(k) => Ok(t.threads[k].value.process)
  }

  /** Switches, and makes the thread and its owner current. */
  function SwitchCurrent(r: Runtime, from: Option<nat>, onto: nat): Called<()> {
    var switched := SwitchTo(r.table, from, onto);
    if switched.result.Err? then Called(Err(switched.result.error), r)
    else
      match OwnerOf(switched.table, onto)
      case Err(e) => Called(Err(e), r.(table := switched.table, currentThread := Some(onto)))
      case Ok(owner) => Called(Ok(()),
          r.(table := switched.table, currentThread := Some(onto), currentProcess := owner))
  }

  function SpawnCurrent(r: Runtime): Called<(nat, nat)>
    requires Sized(r.table)
  {
    if r.currentProcess.None? then Called(Err(InvalidState), r)
    else
      var made := SpawnChild(r.table, r.currentProcess.value);
      Called(made.result, r.(table := made.table))
  }

  function SwitchToUser(r: Runtime, process: nat, thread: nat): Called<()> {
    if r.currentThread.None? then Called(Err(InvalidState), r)
    else
      match FindThread(r.table, thread)
      case None => Called(Err(InvalidId), r)
      case Some(k) =>
        var th := r.table.threads[k].value;
        if th.process != Some(process) || th.kind != User then Called(Err(InvalidState), r)
        else SwitchCurrent(r, r.currentThread, thread)
  }

  function RestoreInit(r: Runtime): Called<()> {
    if r.currentThread.Some? || r.initThread.None? then Called(Err(InvalidState), r)
    else
      var switched := SwitchTo(r.table, None, r.initThread.value);
      if switched.result.Err? then Called(Err(switched.result.error), r)
      else Called(Ok(()), r.(table := switched.table, currentThread := r.initThread, currentProcess := Some(INIT)))
  }

  function ExitCurrent(r: Runtime, status: int): Called<()>
    requires Sized(r.table)
  {
    if r.currentProcess.None? || r.currentThread.None? then Called(Err(InvalidState), r)
    else if r.currentProcess.value == INIT then
      match FindThread(r.table, r.currentThread.value)
      case None => Called(Err(InvalidId), r)
      case Some(k) =>
        Called(Ok(()), r.(table := WithState(r.table, k, Exited), currentProcess := None, currentThread := None))
    else
      var gone := Exit(r.table, r.currentProcess.value, status);
      if gone.result.Err? then Called(Err(gone.result.error), r)
      else Called(Ok(()), r.(table := gone.table, currentProcess := None, currentThread := None))
  }

  function WaitCurrent(r: Runtime, child: Option<nat>): Called<(nat, int)>
    requires Sized(r.table)
  {
    if r.currentProcess.None? then Called(Err(InvalidState), r)
    else
      var got := Wait(r.table, r.currentProcess.value, child);
      Called(got.result, r.(table := got.table))
  }

  function CloseCurrent(r: Runtime, fd: nat): Called<()>
    requires Sized(r.table)
  {
    if r.currentProcess.None? then Called(Err(InvalidState), r)
    else
      var closed := CloseFd(r.table, r.currentProcess.value, fd);
      Called(closed.result, r.(table := closed.table))
  }

  function YieldCurrent(r: Runtime): Called<()> {
    if r.currentThread.None? then Called(Err(InvalidState), r)
    else
      match PickReady(r.table)
      case None => Called(Ok(()), r)
      case Some(next) =>
        if r.currentProcess != Some(INIT) && r.initThread == Some(next) then Called(Ok(()), r)
        else SwitchCurrent(r, r.currentThread, next)
  }

  /** Puts the current thread to sleep; with nobody else ready it is woken again at once. */
  function SleepCurrent(r: Runtime): Called<()> {
    if r.currentThread.None? then Called(Err(InvalidState), r)
    else
      var current := r.currentThread.value;
      var slept := BlockThread(r.table, current, true);
      if slept.result.Err? then Called(Err(slept.result.error), r)
      else
        match PickReady(slept.table)
        case None =>
          var woken := WakeThread(slept.table, current);
          if woken.result.Err? then Called(Err(woken.result.error), r.(table := slept.table))
          else
            var back := SwitchTo(woken.table, None, current);
            Called(back.result, r.(table := back.table))
        case Some(next) =>
          SwitchCurrent(r.(table := slept.table, currentThread := None, currentProcess := None), None, next)
  }

  // ------------------------------------------------------------------ the invariant

  predicate OnCpuAt(t: Table, k: nat) { ThreadIn(t, k).Some? && ThreadIn(t, k).value.state == OnCpu }

  /** The thread is the only one on the processor, or there is none. */
  ghost predicate Sole(t: Table, current: Option<nat>) {
    match current
    case None => forall k: nat :: !OnCpuAt(t, k)
    case Some(id) => FindThread(t, id).Some? && forall k: nat :: OnCpuAt(t, k) <==> k == FindThread(t, id).value
  }

  /** Every thread is a user thread with an owner. */
  ghost predicate AllOwned(t: Table) { forall k: nat :: ThreadIn(t, k).Some? ==> ThreadIn(t, k).value.process.Some? }

  predicate OwnedBy(t: Table, thread: nat, process: Option<nat>) {
    FindThread(t, thread).Some? && ThreadIn(t, FindThread(t, thread).value).value.process == process
  }

  ghost predicate RuntimeGood(r: Runtime) {
    && Good(r.table) && AllOwned(r.table) && Sole(r.table, r.currentThread)
    && (r.currentThread.None? ==> r.currentProcess.None?)
    && (r.currentThread.Some? ==> OwnedBy(r.table, r.currentThread.value, r.currentProcess))
    && r.initThread.Some? && OwnedBy(r.table, r.initThread.value, Some(INIT))
  }

  /** What the invariant says about the dead: none of their threads is ready or running. */
  lemma NoDeadThreadRuns(r: Runtime, k: nat)
    requires RuntimeGood(r) && ThreadIn(r.table, k).Some?
    ensures var owner := FindProcess(r.table, ThreadIn(r.table, k).value.process.value);
            && owner.Some?
            && (ThreadIn(r.table, k).value.state in {Ready, OnCpu} ==>
                ProcessIn(r.table, owner.value).value.state == Running)
  {
    assert ThreadOk(r.table, k);
    assert ProcessOk(r.table, FindProcess(r.table, ThreadIn(r.table, k).value.process.value).value);
  }

  // ------------------------------------------------------------------ switching

  /** Thread ids and owners are as before. */
  ghost predicate SameOwners(t: Table, u: Table) {
    && (forall id: nat :: FindThread(u, id) == FindThread(t, id))
    && (forall k: nat :: ThreadIn(u, k).Some? <==> ThreadIn(t, k).Some?)
    && (forall k: nat :: ThreadIn(t, k).Some? ==> ThreadIn(u, k).value.process == ThreadIn(t, k).value.process)
  }

  lemma MildOwners(t: Table, u: Table)
    requires Mild(t, u)
    ensures SameOwners(t, u)
  {
    forall id: nat ensures FindThread(u, id) == FindThread(t, id) { MildFinds(t, u, id); }
    forall k: nat
      ensures ThreadIn(u, k).Some? <==> ThreadIn(t, k).Some?
      ensures ThreadIn(t, k).Some? ==> ThreadIn(u, k).value.process == ThreadIn(t, k).value.process
    {
      assert SameButState(ThreadIn(t, k), ThreadIn(u, k));
    }
  }

  /** Switching away from the sole runner makes the other one the sole runner. */
  lemma SwitchIsSole(t: Table, from: Option<nat>, onto: nat)
    requires Good(t) && Sole(t, from) && SwitchTo(t, from, onto).result.Ok?
    ensures var u := SwitchTo(t, from, onto).table;
            Good(u) && SameOwners(t, u) && Sole(u, Some(onto))
  {
    var u := SwitchTo(t, from, onto).table;
    SwitchIsMild(t, from, onto);
    MildKeeps(t, u);
    MildOwners(t, u);
    var k := FindThread(t, onto).value;
    forall i: nat ensures OnCpuAt(u, i) <==> i == k {
      assert OnCpuAt(t, i) <==> from.Some? && i == FindThread(t, from.value).value;
    }
  }

  /** A ready thread can be switched to. */
  lemma SwitchWorks(t: Table, from: Option<nat>, onto: nat)
    requires Good(t) && Sole(t, from) && FindThread(t, onto).Some? && StateOf(t, FindThread(t, onto).value) == Ready
    ensures SwitchTo(t, from, onto).result.Ok?
  {
    if from.Some? {
      assert OnCpuAt(t, FindThread(t, from.value).value);
    }
  }

  lemma SwitchCurrentKeeps(r: Runtime, from: Option<nat>, onto: nat)
    requires Good(r.table) && AllOwned(r.table) && Sole(r.table, from)
    requires r.initThread.Some? && OwnedBy(r.table, r.initThread.value, Some(INIT))
    ensures var c := SwitchCurrent(r, from, onto);
            if SwitchTo(r.table, from, onto).result.Ok? then c.result.Ok? && RuntimeGood(c.runtime) else c.runtime == r
  {
    if SwitchTo(r.table, from, onto).result.Ok? {
      SwitchIsSole(r.table, from, onto);
    }
  }

  lemma SwitchToUserKeeps(r: Runtime, process: nat, thread: nat)
    requires RuntimeGood(r)
    ensures RuntimeGood(SwitchToUser(r, process, thread).runtime)
  {
    SwitchCurrentKeeps(r, r.currentThread, thread);
  }

  lemma RestoreInitKeeps(r: Runtime)
    requires RuntimeGood(r)
    ensures RuntimeGood(RestoreInit(r).runtime)
  {
    if RestoreInit(r).result.Ok? {
      SwitchIsSole(r.table, None, r.initThread.value);
    }
  }

  /** The first ready thread is one the table accepts. */
  lemma PickedIsReady(t: Table)
    requires Good(t) && PickReady(t).Some?
    ensures FindThread(t, PickReady(t).value).Some? && StateOf(t, FindThread(t, PickReady(t).value).value) == Ready
  {
    var k := PickFrom(t, 0).value;
    assert ThreadOk(t, k);
    ThreadIsFound(t, k);
  }

  lemma YieldKeeps(r: Runtime)
    requires RuntimeGood(r)
    ensures RuntimeGood(YieldCurrent(r).runtime)
    ensures r.currentThread.Some? ==> YieldCurrent(r).result.Ok?
  {
    if r.currentThread.Some? && PickReady(r.table).Some? {
      PickedIsReady(r.table);
      SwitchWorks(r.table, r.currentThread, PickReady(r.table).value);
      SwitchCurrentKeeps(r, r.currentThread, PickReady(r.table).value);
    }
  }

  lemma SleepKeeps(r: Runtime)
    requires RuntimeGood(r)
    ensures RuntimeGood(SleepCurrent(r).runtime)
    ensures r.currentThread.Some? ==> SleepCurrent(r).result.Ok?
  {
    if r.currentThread.Some? {
      var current := r.currentThread.value;
      var k := FindThread(r.table, current).value;
      assert OnCpuAt(r.table, k);
      var slept := BlockThread(r.table, current, true).table;
      StateIsMild(r.table, k, Sleeping);
      MildKeeps(r.table, slept);
      MildOwners(r.table, slept);
      forall i: nat ensures !OnCpuAt(slept, i) { assert OnCpuAt(r.table, i) <==> i == k; }
      if PickReady(slept).Some? {
        PickedIsReady(slept);
        SwitchWorks(slept, None, PickReady(slept).value);
        SwitchCurrentKeeps(r.(table := slept, currentThread := None, currentProcess := None), None,
            PickReady(slept).value);
      } else {
        WakeKeeps(r, slept, k);
      }
    }
  }

  lemma WakeKeeps(r: Runtime, slept: Table, k: nat)
    requires RuntimeGood(r) && r.currentThread.Some? && FindThread(r.table, r.currentThread.value) == Some(k)
    requires Good(slept) && SameOwners(r.table, slept) && Sole(slept, None) && StateOf(slept, k) == Sleeping
    ensures WakeThread(slept, r.currentThread.value).result.Ok?
    ensures var back := SwitchTo(WakeThread(slept, r.currentThread.value).table, None, r.currentThread.value);
            back.result.Ok? && RuntimeGood(r.(table := back.table))
  {
    var current := r.currentThread.value;
    var woken := WakeThread(slept, current).table;
    StateIsMild(slept, k, Ready);
    MildKeeps(slept, woken);
    MildOwners(slept, woken);
    forall i: nat ensures !OnCpuAt(woken, i) { assert !OnCpuAt(slept, i); }
    SwitchWorks(woken, None, current);
    SwitchIsSole(woken, None, current);
  }

  // ------------------------------------------------------------------ spawning, exiting, waiting, closing

  lemma SpawnKeeps(r: Runtime)
    requires RuntimeGood(r)
    ensures RuntimeGood(SpawnCurrent(r).runtime)
  {
    if SpawnCurrent(r).result.Ok? {
      var t, parent := r.table, r.currentProcess.value;
      var s, k := Vacant(t.processes, 0).value, Vacant(t.threads, 0).value;
      Runs.SpawnStep(t, parent, 0);
      WithProcessAdds(t, s, k, Some(parent));
      var u := WithProcess(t, s, k, Some(parent));
      forall id: nat | FindThread(t, id).Some? ensures FindThread(u, id) == FindThread(t, id) {
        AddsFinds(t, u, s, k, u.processes[s].value, u.threads[k].value, id);
      }
      forall i: nat ensures OnCpuAt(u, i) <==> OnCpuAt(t, i) {}
    }
  }

  lemma ExitKeeps(r: Runtime, status: int)
    requires RuntimeGood(r)
    ensures RuntimeGood(ExitCurrent(r, status).runtime)
    ensures r.currentThread.Some? ==> ExitCurrent(r, status).result.Ok?
  {
    if r.currentThread.Some? {
      var t, k := r.table, FindThread(r.table, r.currentThread.value).value;
      assert OnCpuAt(t, k);
      NoDeadThreadRuns(r, k);
      if r.currentProcess.value == INIT {
        var u := WithState(t, k, Exited);
        StateIsMild(t, k, Exited);
        MildKeeps(t, u);
        MildOwners(t, u);
        forall i: nat ensures !OnCpuAt(u, i) { assert OnCpuAt(t, i) <==> i == k; }
      } else {
        var id := r.currentProcess.value;
        var s, u := FindProcess(t, id).value, Exit(t, id, status).table;
        ExitExits(t, id, status);
        ExitsKeeps(t, u, s, id, status);
        ExitsFinds(t, u, s, id, status);
        forall i: nat ensures !OnCpuAt(u, i) { assert OnCpuAt(t, i) <==> i == k; }
      }
    }
  }

  lemma WaitKeeps(r: Runtime, child: Option<nat>)
    requires RuntimeGood(r) && WaitCurrent(r, child).result != Err(GenerationExhausted)
    ensures RuntimeGood(WaitCurrent(r, child).runtime)
  {
    if r.currentProcess.Some? {
      var t, parent := r.table, r.currentProcess.value;
      Runs.WaitStep(t, parent, child, 0);
      if Wait(t, parent, child).result.Ok? {
        DropKeepsRunner(r, FindProcess(t, Wait(t, parent, child).result.value.0).value, Wait(t, parent, child).table);
      }
    }
  }

  /** Reaping the dead does not touch the runner, nor init's thread. */
  lemma DropKeepsRunner(r: Runtime, s: nat, u: Table)
    requires RuntimeGood(r) && Drops(r.table, u, s) && Good(u)
    ensures RuntimeGood(r.(table := u))
  {
    var t := r.table;
    forall k: nat | OnCpuAt(t, k) ensures !Owned(t, s, k) {
      assert ThreadOk(t, k) && ProcessOk(t, s);
      ProcessIsFound(t, s);
    }
    forall k: nat ensures OnCpuAt(u, k) <==> OnCpuAt(t, k) {}
    if r.currentThread.Some? {
      DropsFinds(t, u, s, r.currentThread.value);
      assert OnCpuAt(t, FindThread(t, r.currentThread.value).value);
    }
    DropsFinds(t, u, s, r.initThread.value);
    assert ParentOk(t, s) && ProcessOk(t, s) && ParentOk(t, 0) && ProcessOk(t, 0);
  }

  lemma CloseKeeps(r: Runtime, fd: nat)
    requires RuntimeGood(r)
    ensures RuntimeGood(CloseCurrent(r, fd).runtime)
  {
    if r.currentProcess.Some? {
      var t, u := r.table, CloseCurrent(r, fd).runtime.table;
      Runs.FdStepIsMild(t, Runs.DoCloseFd(r.currentProcess.value, fd));
      MildKeeps(t, u);
      MildOwners(t, u);
      assert forall i: nat :: OnCpuAt(u, i) <==> OnCpuAt(t, i);
    }
  }

  lemma InitIsGood()
    ensures InitRuntime().Some? && RuntimeGood(InitRuntime().value)
  {
    var t := NewTable();
    NewIsGood();
    Runs.CreateInitStep(t, 0);
    var made := CreateInit(t);
    WithProcessAdds(t, 0, 0, None);
    assert Vacant(t.threads, 0) == Some(0);
    var thread := made.result.value.1;
    AddsFinds(t, made.table, 0, 0, made.table.processes[0].value, made.table.threads[0].value, thread);
    SwitchWorks(made.table, None, thread);
    SwitchIsSole(made.table, None, thread);
  }

  // ------------------------------------------------------------------ whole runs

  datatype Call =
    | CallSpawn
    | CallSwitch(process: nat, thread: nat)
    | CallRestoreInit
    | CallExit(status: int)
    | CallWait(child: Option<nat>)
    | CallClose(fd: nat)
    | CallYield
    | CallSleep

  /** The runtime after a call, if the call did not run out of generations. */
  function After(r: Runtime, call: Call): Option<Runtime>
    requires Sized(r.table)
  {
    match call
    case CallSpawn => Some(SpawnCurrent(r).runtime)
    case CallSwitch(process, thread) => Some(SwitchToUser(r, process, thread).runtime)
    case CallRestoreInit => Some(RestoreInit(r).runtime)
    case CallExit(status) => Some(ExitCurrent(r, status).runtime)
    case CallWait(child) =>
      var c := WaitCurrent(r, child);
      if c.result == Err(GenerationExhausted) then None else Some(c.runtime)
    case CallClose(fd) => Some(CloseCurrent(r, fd).runtime)
    case CallYield => Some(YieldCurrent(r).runtime)
    case CallSleep => Some(SleepCurrent(r).runtime)
  }

  lemma CallKeeps(r: Runtime, call: Call)
    requires RuntimeGood(r) && After(r, call).Some?
    ensures RuntimeGood(After(r, call).value)
  {
    match call
    case CallSpawn => SpawnKeeps(r);
    case CallSwitch(process, thread) => SwitchToUserKeeps(r, process, thread);
    case CallRestoreInit => RestoreInitKeeps(r);
    case CallExit(status) => ExitKeeps(r, status);
    case CallWait(child) => WaitKeeps(r, child);
    case CallClose(fd) => CloseKeeps(r, fd);
    case CallYield => YieldKeeps(r);
    case CallSleep => SleepKeeps(r);
  }

  predicate Reaches(runtimes: seq<Runtime>, calls: seq<Call>, i: nat)
    requires |runtimes| == |calls| + 1 && i < |calls|
  {
    Sized(runtimes[i].table) && After(runtimes[i], calls[i]) == Some(runtimes[i + 1])
  }

  /** After start-up, whatever calls are made, one thread at most is running and it is the current one. */
  lemma {:induction false} OneRunningThread(runtimes: seq<Runtime>, calls: seq<Call>, i: nat)
    requires |runtimes| == |calls| + 1 && i < |runtimes| && Some(runtimes[0]) == InitRuntime()
    requires forall k: nat :: k < |calls| ==> Reaches(runtimes, calls, k)
    ensures RuntimeGood(runtimes[i])
    decreases i
  {
    if i == 0 {
      InitIsGood();
    } else {
      OneRunningThread(runtimes, calls, i - 1);
      assert Reaches(runtimes, calls, i - 1);
      CallKeeps(runtimes[i - 1], calls[i - 1]);
    }
  }
}
