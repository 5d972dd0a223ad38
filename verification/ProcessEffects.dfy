/** What the calls of `src/process.rs` do, record by record, told without the steps they take. */
module ProcessEffects {
  import opened Common
  import opened ProcessTable
  import opened ProcessInvariant
  import opened ProcessRuntime

  // ------------------------------------------------------------------ the words

  /** The tables differ in the states of the named thread slots and in nothing else. */
  ghost predicate Restated(t: Table, u: Table, states: map<nat, ThreadState>) {
    && u.processes == t.processes && u.processGenerations == t.processGenerations
    && u.threadGenerations == t.threadGenerations && |u.threads| == |t.threads|
    && forall k: nat :: k < |t.threads| ==>
         u.threads[k] == if k in states && t.threads[k].Some? then Some(t.threads[k].value.(state := states[k]))
                         else t.threads[k]
  }

  predicate ReadyAt(t: Table, k: nat) { ThreadIn(t, k).Some? && ThreadIn(t, k).value.state == Ready }

  /** The lowest slot that holds a ready thread, if there is one. */
  ghost predicate FirstReady(t: Table, next: Option<nat>) {
    match next
    case None => forall k: nat :: !ReadyAt(t, k)
    case Some(n) => ReadyAt(t, n) && forall k: nat :: k < n ==> !ReadyAt(t, k)
  }

  /** The thread in this slot is current, and so is its owner. */
  predicate Runs(r: Runtime, k: nat) {
    && ThreadIn(r.table, k).Some? && r.currentThread == Some(ThreadIn(r.table, k).value.id)
    && r.currentProcess == ThreadIn(r.table, k).value.process
  }

  predicate HoldsInit(r: Runtime, k: nat) {
    ThreadIn(r.table, k).Some? && r.initThread == Some(ThreadIn(r.table, k).value.id)
  }

  lemma {:induction false} PickFromIsFirst(t: Table, from: nat)
    requires from <= |t.threads| && forall k: nat :: k < from ==> !ReadyAt(t, k)
    ensures FirstReady(t, PickFrom(t, from))
    decreases |t.threads| - from
  {
    if from < |t.threads| && PickFrom(t, from) != Some(from) {
      PickFromIsFirst(t, from + 1);
    }
  }

  lemma OneFirst(t: Table, a: Option<nat>, b: Option<nat>)
    requires FirstReady(t, a) && FirstReady(t, b)
    ensures a == b
  {
    if a.Some? && b.Some? {
      assert a.value == b.value;
    }
  }

  /** Picking gives the id of the thread in the lowest ready slot, which the table accepts. */
  lemma PickIsFirst(t: Table, next: Option<nat>)
    requires Good(t) && FirstReady(t, next)
    ensures next.None? ==> PickReady(t).None?
    ensures next.Some? ==> PickReady(t) == Some(ThreadIn(t, next.value).value.id)
                           && FindThread(t, PickReady(t).value) == next
  {
    PickFromIsFirst(t, 0);
    OneFirst(t, next, PickFrom(t, 0));
    if next.Some? {
      assert ThreadOk(t, next.value);
      ThreadIsFound(t, next.value);
    }
  }

  lemma RunnerIsFound(r: Runtime, c: nat)
    requires RuntimeGood(r) && OnCpuAt(r.table, c)
    ensures r.currentThread.Some? && FindThread(r.table, r.currentThread.value) == Some(c) && Runs(r, c)
  {
    assert r.currentThread.None? ==> !OnCpuAt(r.table, c);
  }

  lemma CurrentIsRunning(r: Runtime)
    requires RuntimeGood(r) && r.currentThread.Some?
    ensures exists c: nat :: OnCpuAt(r.table, c)
  {
    assert OnCpuAt(r.table, FindThread(r.table, r.currentThread.value).value);
  }

  /** A switch takes the processor from one slot, if any, and gives it to the other. */
  lemma SwitchEffect(r: Runtime, from: Option<nat>, c: nat, onto: nat)
    requires Good(r.table) && AllOwned(r.table) && Sole(r.table, from) && ReadyAt(r.table, onto)
    requires from.Some? ==> FindThread(r.table, from.value) == Some(c)
    ensures var s := SwitchCurrent(r, from, ThreadIn(r.table, onto).value.id);
            && s.result.Ok? && Runs(s.runtime, onto) && s.runtime.initThread == r.initThread
            && Restated(r.table, s.runtime.table,
                        if from.Some? then map[c := Ready, onto := OnCpu] else map[onto := OnCpu])
  {
    assert ThreadOk(r.table, onto);
    ThreadIsFound(r.table, onto);
    var id := ThreadIn(r.table, onto).value.id;
    SwitchWorks(r.table, from, id);
    SwitchIsSole(r.table, from, id);
    assert FindThread(SwitchTo(r.table, from, id).table, id) == Some(onto);
  }

  // ------------------------------------------------------------------ yielding and sleeping

  /** Yielding gives the processor to the lowest ready slot and leaves the caller ready. Nothing changes when no
      thread is ready, or when the first ready one is init's and the caller is not init. */
  lemma YieldEffect(r: Runtime, c: nat, next: Option<nat>)
    requires RuntimeGood(r) && OnCpuAt(r.table, c) && FirstReady(r.table, next)
    ensures var y := YieldCurrent(r);
            && y.result.Ok?
            && if next.None? || (HoldsInit(r, next.value) && r.currentProcess != Some(INIT)) then y.runtime == r
               else
                 && Runs(y.runtime, next.value) && y.runtime.initThread == r.initThread
                 && Restated(r.table, y.runtime.table, map[c := Ready, next.value := OnCpu])
  {
    RunnerIsFound(r, c);
    PickIsFirst(r.table, next);
    if next.Some? {
      SwitchEffect(r, r.currentThread, c, next.value);
    }
  }

  /** Sleeping puts the caller to sleep and gives the processor to the lowest ready slot, init's included; with no
      thread ready nothing changes. */
  lemma SleepEffect(r: Runtime, c: nat, next: Option<nat>)
    requires RuntimeGood(r) && OnCpuAt(r.table, c) && FirstReady(r.table, next)
    ensures var s := SleepCurrent(r);
            && s.result.Ok?
            && if next.None? then s.runtime == r
               else
                 && Runs(s.runtime, next.value) && s.runtime.initThread == r.initThread
                 && Restated(r.table, s.runtime.table, map[c := Sleeping, next.value := OnCpu])
  {
    RunnerIsFound(r, c);
    var slept := WithState(r.table, c, Sleeping);
    SleptTable(r, c, next);
    PickIsFirst(slept, next);
    if next.Some? {
      SwitchEffect(r.(table := slept, currentThread := None, currentProcess := None), None, c, next.value);
    } else {
      WakeKeeps(r, slept, c);
      var back := SwitchTo(WakeThread(slept, r.currentThread.value).table, None, r.currentThread.value).table;
      assert back.threads == r.table.threads;
    }
  }

  lemma SleptTable(r: Runtime, c: nat, next: Option<nat>)
    requires RuntimeGood(r) && OnCpuAt(r.table, c) && FirstReady(r.table, next)
    ensures var slept := WithState(r.table, c, Sleeping);
            && Good(slept) && AllOwned(slept) && Sole(slept, None) && SameOwners(r.table, slept)
            && FirstReady(slept, next)
  {
    var slept := WithState(r.table, c, Sleeping);
    RunnerIsFound(r, c);
    StateIsMild(r.table, c, Sleeping);
    MildKeeps(r.table, slept);
    MildOwners(r.table, slept);
    forall i: nat ensures !OnCpuAt(slept, i) { assert OnCpuAt(r.table, i) <==> i == c; }
    forall i: nat ensures ReadyAt(slept, i) <==> ReadyAt(r.table, i) {}
  }

  /** With nothing on the processor there is nobody to yield or to put to sleep. */
  lemma NobodyYields(r: Runtime)
    requires RuntimeGood(r) && forall c: nat :: !OnCpuAt(r.table, c)
    ensures YieldCurrent(r) == Called(Err(InvalidState), r) && SleepCurrent(r) == Called(Err(InvalidState), r)
  {
    if r.currentThread.Some? {
      CurrentIsRunning(r);
    }
  }

  /** The runtime after a number of yields in a row. */
  function YieldTimes(r: Runtime, n: nat): Runtime {
    if n == 0 then r else YieldCurrent(YieldTimes(r, n - 1)).runtime
  }

  /** While init's thread stands ready in the lowest ready slot, no other process ever hands the processor over by
      yielding, however often it yields and whoever else is ready. */
  lemma {:induction false} ReadyInitStopsYields(r: Runtime, c: nat, k: nat, n: nat)
    requires RuntimeGood(r) && OnCpuAt(r.table, c) && FirstReady(r.table, Some(k)) && HoldsInit(r, k)
    requires r.currentProcess != Some(INIT)
    ensures YieldTimes(r, n) == r
  {
    if n > 0 {
      ReadyInitStopsYields(r, c, k, n - 1);
      YieldEffect(r, c, Some(k));
    }
  }

  // ------------------------------------------------------------------ switching to a thread, and back to init

  /** A slot that holds the ready user thread of a process under an id. */
  predicate UserAt(t: Table, k: nat, process: nat, thread: nat) {
    ReadyAt(t, k) && ThreadIn(t, k).value == Thread(thread, Some(process), Ready, User)
  }

  /** Switching to a user thread works exactly when something runs and that thread is a ready user thread of that
      process; it is current then, and the caller ready. Otherwise nothing changes. */
  lemma SwitchToUserEffect(r: Runtime, process: nat, thread: nat)
    requires RuntimeGood(r)
    ensures var s := SwitchToUser(r, process, thread);
            && (s.result.Ok? <==> r.currentThread.Some? && exists k: nat :: UserAt(r.table, k, process, thread))
            && (s.result.Err? ==> s.runtime == r)
            && forall c: nat, k: nat :: s.result.Ok? && OnCpuAt(r.table, c) && UserAt(r.table, k, process, thread) ==>
                 && s.runtime.currentThread == Some(thread) && s.runtime.currentProcess == Some(process)
                 && s.runtime.initThread == r.initThread
                 && Restated(r.table, s.runtime.table, map[c := Ready, k := OnCpu])
  {
    var s := SwitchToUser(r, process, thread);
    forall k: nat | UserAt(r.table, k, process, thread) && r.currentThread.Some?
      ensures s == SwitchCurrent(r, r.currentThread, thread) && FindThread(r.table, thread) == Some(k)
    {
      assert ThreadOk(r.table, k);
      ThreadIsFound(r.table, k);
    }
    forall c: nat, k: nat | OnCpuAt(r.table, c) && UserAt(r.table, k, process, thread)
      ensures s.result.Ok? && Runs(s.runtime, k) && s.runtime.initThread == r.initThread
      ensures Restated(r.table, s.runtime.table, map[c := Ready, k := OnCpu])
    {
      RunnerIsFound(r, c);
      SwitchEffect(r, r.currentThread, c, k);
    }
    if r.currentThread.Some? {
      assert OnCpuAt(r.table, FindThread(r.table, r.currentThread.value).value);
    }
    if s.result.Ok? {
      assert UserAt(r.table, FindThread(r.table, thread).value, process, thread);
    }
    SwitchCurrentKeeps(r, r.currentThread, thread);
  }

  /** Control goes back to init exactly when nothing runs and init's thread is ready. */
  lemma RestoreInitEffect(r: Runtime, k: nat)
    requires RuntimeGood(r) && HoldsInit(r, k)
    ensures var s := RestoreInit(r);
            && (s.result.Ok? <==> r.currentThread.None? && ReadyAt(r.table, k))
            && (s.result.Err? ==> s.runtime == r)
            && (s.result.Ok? ==>
                  && s.runtime.currentThread == r.initThread && s.runtime.currentProcess == Some(INIT)
                  && s.runtime.initThread == r.initThread && Restated(r.table, s.runtime.table, map[k := OnCpu]))
  {
    assert ThreadOk(r.table, k);
    ThreadIsFound(r.table, k);
    if r.currentThread.None? && ReadyAt(r.table, k) {
      SwitchEffect(r, None, k, k);
    }
  }

  // ------------------------------------------------------------------ spawning, exiting, waiting

  predicate LowestFree<T>(s: seq<Option<T>>, k: nat) {
    k < |s| && s[k].None? && forall i :: 0 <= i < k ==> s[i].Some?
  }

  predicate RunningAt(t: Table, s: nat, id: nat) {
    ProcessIn(t, s).Some? && ProcessIn(t, s).value.id == id && ProcessIn(t, s).value.state == Running
  }

  /** A child with standard input to read and standard output and error to write. */
  predicate Newborn(p: Process, id: nat, parent: nat, thread: nat) {
    && p.id == id && p.parent == Some(parent) && p.state == Running && p.exitStatus.None?
    && p.threads == [Some(thread), None, None, None]
    && |p.fds| == 32 && p.fds[0] == Some(Fd(0, false, true, false))
    && p.fds[1] == Some(Fd(1, false, false, true)) && p.fds[2] == Some(Fd(2, false, false, true))
    && forall k :: 3 <= k < 32 ==> p.fds[k].None?
  }

  lemma RunningIsFound(t: Table, s: nat, id: nat)
    requires Good(t) && RunningAt(t, s, id)
    ensures FindProcess(t, id) == Some(s)
  {
    assert ProcessOk(t, s);
    ProcessIsFound(t, s);
  }

  /** A running process gets a child in the lowest free slot with one ready thread in the lowest free thread slot,
      under ids of the slots and their generations, or nothing changes. */
  lemma SpawnEffect(t: Table, at: nat, parent: nat)
    requires Good(t) && RunningAt(t, at, parent)
    ensures var d := SpawnChild(t, parent);
            && (d.result.Ok? <==> (exists s: nat :: LowestFree(t.processes, s))
                                  && (exists k: nat :: LowestFree(t.threads, k)))
            && (d.result.Err? ==> d.table == t)
            && forall s: nat, k: nat :: d.result.Ok? && LowestFree(t.processes, s) && LowestFree(t.threads, k) ==>
                 var (pid, tid) := d.result.value;
                 && pid == 0x1_0000 * t.processGenerations[s] + s + 1
                 && tid == 0x1_0000 * t.threadGenerations[k] + k + 1
                 && ProcessIn(d.table, s).Some? && Newborn(ProcessIn(d.table, s).value, pid, parent, tid)
                 && d.table.processes == t.processes[s := ProcessIn(d.table, s)]
                 && d.table.threads == t.threads[k := Some(Thread(tid, Some(pid), Ready, User))]
                 && d.table.processGenerations == t.processGenerations
                 && d.table.threadGenerations == t.threadGenerations
  {
    RunningIsFound(t, at, parent);
    LowestIsVacant(t.processes);
    LowestIsVacant(t.threads);
  }

  lemma LowestIsVacant<T>(s: seq<Option<T>>)
    ensures forall k: nat :: LowestFree(s, k) <==> Vacant(s, 0) == Some(k)
  {
    forall k: nat | LowestFree(s, k) ensures Vacant(s, 0) == Some(k) {
      var v := Vacant(s, 0);
      assert v.Some? && !(v.value < k) && !(k < v.value);
    }
  }

  /** A process leaves: it is dead with its status and no descriptors, its threads have exited, its children are
      init's, and everything else is as before. */
  ghost predicate Departs(t: Table, u: Table, id: nat, status: int) {
    && u.processGenerations == t.processGenerations && u.threadGenerations == t.threadGenerations
    && |u.processes| == |t.processes| && |u.threads| == |t.threads|
    && (forall s: nat :: ProcessIn(t, s).None? ==> ProcessIn(u, s).None?)
    && (forall s: nat :: ProcessIn(t, s).Some? ==> Departed(ProcessIn(t, s).value, ProcessIn(u, s), id, status))
    && (forall k: nat :: ThreadIn(t, k).None? ==> ThreadIn(u, k).None?)
    && (forall k: nat :: ThreadIn(t, k).Some? ==>
          var th := ThreadIn(t, k).value;
          ThreadIn(u, k)
          == Some(Thread(th.id, th.process, if th.process == Some(id) then Exited else th.state, th.kind)))
  }

  predicate Departed(p: Process, q: Option<Process>, id: nat, status: int) {
    && q.Some? && q.value.id == p.id && q.value.threads == p.threads
    && q.value.parent == (if p.parent == Some(id) then Some(1) else p.parent)
    && if p.id == id then
         q.value.state == Zombie && q.value.exitStatus == Some(status) && |q.value.fds| == |p.fds|
         && forall k :: 0 <= k < |p.fds| ==> q.value.fds[k].None?
       else q.value.state == p.state && q.value.exitStatus == p.exitStatus && q.value.fds == p.fds
  }

  /** Exiting works exactly for a running process other than init. */
  lemma ExitEffect(t: Table, id: nat, status: int)
    requires Good(t)
    ensures var d := Exit(t, id, status);
            && (d.result.Ok? <==> id != 1 && exists s: nat :: RunningAt(t, s, id))
            && if d.result.Ok? then Departs(t, d.table, id, status) else d.table == t
  {
    forall s: nat | RunningAt(t, s, id) ensures FindProcess(t, id) == Some(s) { RunningIsFound(t, s, id); }
    var d := Exit(t, id, status);
    if d.result.Ok? {
      ExitExits(t, id, status);
      var at := FindProcess(t, id).value;
      assert RunningAt(t, at, id);
      forall s: nat | ProcessIn(t, s).Some?
        ensures Departed(ProcessIn(t, s).value, ProcessIn(d.table, s), id, status)
      {
        assert ProcessOk(t, s) && ProcessOk(t, at);
        ProcessIsFound(t, s);
      }
    }
  }

  /** The running process leaves and nothing runs then: init's thread just exits, any other process departs whole. */
  lemma ExitCurrentEffect(r: Runtime, c: nat, status: int)
    requires RuntimeGood(r) && OnCpuAt(r.table, c)
    ensures var e := ExitCurrent(r, status);
            && e.result.Ok? && e.runtime.currentThread.None? && e.runtime.currentProcess.None?
            && e.runtime.initThread == r.initThread && r.currentProcess.Some?
            && if r.currentProcess == Some(1) then Restated(r.table, e.runtime.table, map[c := Exited])
               else Departs(r.table, e.runtime.table, r.currentProcess.value, status)
  {
    RunnerIsFound(r, c);
    ExitKeeps(r, status);
    NoDeadThreadRuns(r, c);
    if r.currentProcess != Some(1) {
      ExitEffect(r.table, r.currentProcess.value, status);
    }
  }

  /** Spawning, waiting and closing act for the process that runs, on the table alone; with nothing running they are
      refused. */
  lemma CurrentActs(r: Runtime, c: nat, child: Option<nat>, fd: nat)
    requires RuntimeGood(r) && OnCpuAt(r.table, c)
    ensures var id := ThreadIn(r.table, c).value.process;
            && id.Some?
            && var spawn, wait, close := SpawnChild(r.table, id.value), Wait(r.table, id.value, child),
                   CloseFd(r.table, id.value, fd);
               && SpawnCurrent(r) == Called(spawn.result, r.(table := spawn.table))
               && WaitCurrent(r, child) == Called(wait.result, r.(table := wait.table))
               && CloseCurrent(r, fd) == Called(close.result, r.(table := close.table))
  {
    RunnerIsFound(r, c);
  }

  /** The slot of a dead child. */
  predicate LostAt(t: Table, s: nat, parent: nat) {
    ProcessIn(t, s).Some? && ProcessIn(t, s).value.parent == Some(parent) && ProcessIn(t, s).value.state == Zombie
  }

  predicate DeadAt(t: Table, s: nat, parent: nat, id: nat, status: int) {
    LostAt(t, s, parent) && ProcessIn(t, s).value.id == id && ProcessIn(t, s).value.exitStatus == Some(status)
  }

  /** Waiting for one child delivers that child's status if it is dead, and waiting for any that of the dead child in
      the lowest slot; the child is gone then, with its threads. A generation at its limit stops either. */
  lemma WaitEffect(t: Table, parent: nat, child: Option<nat>, s: nat, id: nat, status: int)
    requires Good(t) && DeadAt(t, s, parent, id, status) && (child.Some? ==> child.value == id)
    requires child.None? ==> forall i: nat :: i < s ==> !LostAt(t, i, parent)
    ensures var d := Wait(t, parent, child);
            && (d.result == Ok((id, status)) || d.result == Err(GenerationExhausted))
            && (d.result.Ok? ==> Drops(t, d.table, s))
  {
    assert ProcessOk(t, s) && ParentOk(t, s);
    ProcessIsFound(t, s);
    if child.None? {
      FirstDeadIsFirst(t, parent, s, 0);
    }
    ReapDrops(t, s);
  }

  lemma {:induction false} FirstDeadIsFirst(t: Table, parent: nat, s: nat, from: nat)
    requires from <= s < |t.processes| && LostAt(t, s, parent)
    requires forall i: nat :: i < s ==> !LostAt(t, i, parent)
    ensures FirstDeadChild(t, parent, from) == Some(s)
    decreases s - from
  {
    if from < s {
      assert !LostAt(t, from, parent);
      FirstDeadIsFirst(t, parent, s, from + 1);
    }
  }

  /** With no dead child to deliver, waiting changes nothing and says so. */
  lemma NothingToWaitFor(t: Table, at: nat, parent: nat, child: Option<nat>)
    requires Good(t) && RunningAt(t, at, parent)
    requires forall s: nat :: LostAt(t, s, parent) ==> child.Some? && ProcessIn(t, s).value.id != child.value
    ensures var d := Wait(t, parent, child);
            && d.table == t
            && d.result == Err(if child.Some? && FindProcess(t, child.value).None? then InvalidId else NoChild)
  {
    RunningIsFound(t, at, parent);
    forall s: nat | s < |t.processes| ensures IsDeadChild(t.processes[s], parent) <==> LostAt(t, s, parent) {}
  }

  // ------------------------------------------------------------------ descriptors

  /** What a process has open, by number. */
  function Descriptors(t: Table, s: nat): map<nat, Fd>
    requires ProcessIn(t, s).Some?
  {
    var fds := ProcessIn(t, s).value.fds;
    map fd: nat | fd < |fds| && fds[fd].Some? :: fds[fd].value
  }

  /** The tables differ in the descriptors of one process and in nothing else. */
  ghost predicate OnlyFds(t: Table, u: Table, s: nat) {
    && u.threads == t.threads && u.processGenerations == t.processGenerations
    && u.threadGenerations == t.threadGenerations && |u.processes| == |t.processes|
    && (forall i: nat :: i != s ==> ProcessIn(u, i) == ProcessIn(t, i))
    && ProcessIn(t, s).Some? && ProcessIn(u, s).Some?
    && ProcessIn(t, s).value.(fds := ProcessIn(u, s).value.fds) == ProcessIn(u, s).value
  }

  /** Opening takes the lowest number that is free. */
  lemma OpenFdEffect(t: Table, s: nat, id: nat, openFile: nat, readable: bool, writable: bool)
    requires Good(t) && RunningAt(t, s, id)
    ensures var d := OpenFd(t, id, openFile, readable, writable);
            && (d.result.Err? ==> d.table == t && d.result == Err(FdCapacity)
                                  && forall fd: nat :: fd < 32 ==> fd in Descriptors(t, s))
            && (d.result.Ok? ==>
                  && d.result.value < 32 && d.result.value !in Descriptors(t, s)
                  && (forall fd: nat :: fd < d.result.value ==> fd in Descriptors(t, s))
                  && OnlyFds(t, d.table, s)
                  && Descriptors(d.table, s)
                     == Descriptors(t, s)[d.result.value := Fd(openFile, false, readable, writable)])
  {
    RunningIsFound(t, s, id);
    assert ProcessOk(t, s);
  }

  /** Closing works exactly on an open number, which is then free. */
  lemma CloseFdEffect(t: Table, s: nat, id: nat, fd: nat)
    requires Good(t) && RunningAt(t, s, id)
    ensures var d := CloseFd(t, id, fd);
            && (d.result.Ok? <==> fd in Descriptors(t, s))
            && (d.result.Err? ==> d.table == t && d.result == Err(InvalidFd))
            && (d.result.Ok? ==> OnlyFds(t, d.table, s) && Descriptors(d.table, s) == Descriptors(t, s) - {fd})
  {
    RunningIsFound(t, s, id);
    assert ProcessOk(t, s);
  }

  lemma SetCloseOnExecEffect(t: Table, s: nat, id: nat, fd: nat, enabled: bool)
    requires Good(t) && RunningAt(t, s, id)
    ensures var d := SetCloseOnExec(t, id, fd, enabled);
            && (d.result.Ok? <==> fd in Descriptors(t, s))
            && (d.result.Err? ==> d.table == t && d.result == Err(InvalidFd))
            && (d.result.Ok? ==>
                  && OnlyFds(t, d.table, s)
                  && Descriptors(d.table, s)
                     == Descriptors(t, s)[fd := Descriptors(t, s)[fd].(closeOnExec := enabled)])
  {
    RunningIsFound(t, s, id);
    assert ProcessOk(t, s);
  }

  /** The numbers below a bound that an exec closes. */
  ghost function Marked(fds: seq<Option<Fd>>, n: nat): set<nat>
    requires n <= |fds|
  {
    set fd: nat | fd < n && fds[fd].Some? && fds[fd].value.closeOnExec
  }

  lemma {:induction false} ClosedCounts(fds: seq<Option<Fd>>, n: nat)
    requires n <= |fds|
    ensures Closed(fds, n) == |Marked(fds, n)|
  {
    if n > 0 {
      ClosedCounts(fds, n - 1);
      var more := fds[n - 1].Some? && fds[n - 1].value.closeOnExec;
      assert Marked(fds, n) == Marked(fds, n - 1) + if more then {n - 1} else {};
    }
  }

  /** An exec closes the marked numbers, keeps the others as they are, and tells how many it closed. */
  lemma CloseOnExecEffect(t: Table, s: nat, id: nat)
    requires Good(t) && RunningAt(t, s, id)
    ensures var d, open := CloseOnExec(t, id), Descriptors(t, s);
            var marked := set fd: nat | fd in open && open[fd].closeOnExec;
            && d.result == Ok(|marked|) && OnlyFds(t, d.table, s) && Descriptors(d.table, s) == open - marked
  {
    RunningIsFound(t, s, id);
    assert ProcessOk(t, s);
    var fds, open := ProcessIn(t, s).value.fds, Descriptors(t, s);
    ClosedCounts(fds, |fds|);
    assert (set fd: nat | fd in open && open[fd].closeOnExec) == Marked(fds, |fds|);
  }

  // ------------------------------------------------------------------ thread states

  predicate InState(t: Table, k: nat, id: nat, states: set<ThreadState>) {
    ThreadIn(t, k).Some? && ThreadIn(t, k).value.id == id && ThreadIn(t, k).value.state in states
  }

  /** A ready or running thread can be blocked or put to sleep, a blocked or sleeping one woken, a running one
      preempted; nothing else works, and nothing else changes. */
  lemma StateEffects(t: Table, k: nat, id: nat, sleeping: bool)
    requires Good(t) && ThreadIn(t, k).Some? && ThreadIn(t, k).value.id == id
    ensures var block, wake, preempt := BlockThread(t, id, sleeping), WakeThread(t, id), PreemptThread(t, id);
            && (block.result.Ok? <==> InState(t, k, id, {Ready, OnCpu}))
            && (wake.result.Ok? <==> InState(t, k, id, {Blocked, Sleeping}))
            && (preempt.result.Ok? <==> InState(t, k, id, {OnCpu}))
            && Restated(t, block.table, if !block.result.Ok? then map[] else if sleeping then map[k := Sleeping]
                                        else map[k := Blocked])
            && Restated(t, wake.table, if wake.result.Ok? then map[k := Ready] else map[])
            && Restated(t, preempt.table, if preempt.result.Ok? then map[k := Ready] else map[])
  {
    assert ThreadOk(t, k);
    ThreadIsFound(t, k);
  }
}
